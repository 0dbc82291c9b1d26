/**
 bin/ar/delete.c on archives as byte sequences: where its loop goes, what it keeps, and when a
 member skipped by `skip_arobj` makes it lose its place.
 */
module ArDelete {
  import opened Wrappers
  import opened ArFormat
  import opened ArMembers
  import opened ArEdit
  import opened ArNames

  /** Where skipping a member's contents ends: one byte past `CopyEnd` for an empty member with an odd long name. */
  function SkipEnd(h: Header, next: nat): int { next + h.size + if Odd(h.size + h.lname) then 1 else 0 }

  /** Why `delete` exits early: a bad format, or a seek to before the beginning of the archive. */
  datatype Failure = Malformed | OffStart

  datatype Walk = Finished(kept: seq<Member>, left: seq<Bytes>) | Failed(why: Failure)

  /** The loop of `delete` from offset `at`, with arguments still to be found and members kept so far. */
  function DeleteWalk(dec: Decoder, bytes: Bytes, at: nat, args: seq<Bytes>, kept: seq<Member>, cmp: Comparer): Walk
    decreases |args|, |bytes| - at
  {
    match GetAt(dec, bytes, at)
    case End => Finished(kept, args)
    case Bad => Failed(Malformed)
    case Found(hb, h, next) =>
      var k := Match(args, h.name, cmp);
      if k < |args| then
        if SkipEnd(h, next) < 0 then Failed(OffStart)
        else DeleteWalk(dec, bytes, SkipEnd(h, next), WithoutAt(args, k), kept, cmp)
      else if h.size < 0 || CopyEnd(h, next) > |bytes| then Failed(Malformed)
      else DeleteWalk(dec, bytes, CopyEnd(h, next), args, kept + [MemberAt(bytes, hb, h, next)], cmp)
  }

  /** The member whose contents begin at offset `next`. */
  function MemberAt(bytes: Bytes, hb: Bytes, h: Header, next: nat): Member
    requires 0 <= h.size && next + h.size <= |bytes|
  {
    Member(hb, h, bytes[next..next + h.size])
  }

  /** A member an argument names. */
  lemma WalkSkips(dec: Decoder, bytes: Bytes, at: nat, args: seq<Bytes>, kept: seq<Member>, cmp: Comparer, hb: Bytes,
                  h: Header, next: nat)
    requires GetAt(dec, bytes, at) == Found(hb, h, next) && Match(args, h.name, cmp) < |args|
    ensures DeleteWalk(dec, bytes, at, args, kept, cmp) ==
      if SkipEnd(h, next) < 0 then Failed(OffStart)
      else DeleteWalk(dec, bytes, SkipEnd(h, next), WithoutAt(args, Match(args, h.name, cmp)), kept, cmp)
  {
  }

  /** A member no argument names. */
  lemma WalkKeeps(dec: Decoder, bytes: Bytes, at: nat, args: seq<Bytes>, kept: seq<Member>, cmp: Comparer, m: Member,
                  next: nat)
    requires GetAt(dec, bytes, at) == Found(m.hb, m.hdr, next) && Match(args, m.hdr.name, cmp) == |args|
    requires 0 <= m.hdr.size && CopyEnd(m.hdr, next) <= |bytes| && m.data == bytes[next..next + m.hdr.size]
    ensures DeleteWalk(dec, bytes, at, args, kept, cmp) ==
      DeleteWalk(dec, bytes, CopyEnd(m.hdr, next), args, kept + [m], cmp)
  {
    assert MemberAt(bytes, m.hb, m.hdr, next) == m;
  }

  // ---------- skipping and copying ----------

  /** A header ends with the two characters of ARFMAG. */
  ghost predicate Marks(dec: Decoder) { forall hb :: |hb| == HeaderSize && dec(hb).Some? ==> hb[58..60] == Fmag }

  lemma DecodeMarks()
    ensures Marks(Decode)
  {
  }

  /** A header read one byte late is bad. */
  lemma LateHeader(dec: Decoder, bytes: Bytes, at: nat)
    requires Marks(dec) && GetAt(dec, bytes, at).Found?
    ensures GetAt(dec, bytes, at + 1).Bad?
  {
    var hb := bytes[at..at + HeaderSize];
    assert hb[58..60][1] == hb[59] == bytes[at + 59];
    if at + 1 + HeaderSize <= |bytes| {
      var late := bytes[at + 1..at + 1 + HeaderSize];
      assert late[58..60][0] == late[58] == bytes[at + 59];
    }
  }

  /** The member is empty with an odd long name. */
  predicate Overskips(h: Header) { h.size == 0 && Odd(h.lname) }

  /**
   After skipping a member `get_arobj` reads what it reads after copying it, unless the member is
   empty with an odd long name and not the last: then it finds a bad format.
   */
  lemma SkipReadsOn(dec: Decoder, bytes: Bytes, h: Header, next: nat)
    requires Marks(dec) && h.size >= 0 && CopyEnd(h, next) <= |bytes| && !GetAt(dec, bytes, CopyEnd(h, next)).Bad?
    ensures SkipEnd(h, next) >= 0
    ensures GetAt(dec, bytes, SkipEnd(h, next)) ==
      if Overskips(h) && CopyEnd(h, next) < |bytes| then Bad else GetAt(dec, bytes, CopyEnd(h, next))
  {
    if Overskips(h) && CopyEnd(h, next) < |bytes| { LateHeader(dec, bytes, CopyEnd(h, next)); }
  }

  // ---------- what is left ----------

  /** Member `j` is selected, empty with an odd long name, and not the last. */
  ghost predicate TooFar(ms: seq<Member>, given: seq<Bytes>, cmp: Comparer, j: nat) {
    j + 1 < |ms| && Chosen(ms[..j + 1], given, cmp) && Overskips(ms[j].hdr)
  }

  /** Some selected member other than the last is empty with an odd long name. */
  ghost predicate Overskipped(ms: seq<Member>, given: seq<Bytes>, cmp: Comparer) {
    exists j: nat :: TooFar(ms, given, cmp, j)
  }

  /** What `delete` comes to when the first `i` members were skipped in their places. */
  ghost function Expected(ms: seq<Member>, given: seq<Bytes>, cmp: Comparer, i: nat): Walk {
    if exists j: nat :: j >= i && TooFar(ms, given, cmp, j) then Failed(Malformed)
    else Finished(Unselected(ms, given, cmp), ArgsLeft(ms, given, cmp))
  }

  lemma ExpectedStep(ms: seq<Member>, given: seq<Bytes>, cmp: Comparer, i: nat)
    ensures !TooFar(ms, given, cmp, i) ==> Expected(ms, given, cmp, i) == Expected(ms, given, cmp, i + 1)
    ensures TooFar(ms, given, cmp, i) ==> Expected(ms, given, cmp, i) == Failed(Malformed)
    ensures i >= |ms| ==> Expected(ms, given, cmp, i) == Finished(Unselected(ms, given, cmp), ArgsLeft(ms, given, cmp))
  {
  }

  /** The walk after the members of `seen`. */
  ghost function WalkAfter(dec: Decoder, bytes: Bytes, at: nat, seen: seq<Member>, given: seq<Bytes>,
                           cmp: Comparer): Walk {
    DeleteWalk(dec, bytes, at, ArgsLeft(seen, given, cmp), Unselected(seen, given, cmp), cmp)
  }

  /** The walk is at `at` after the members of `seen`, and the archive can be read from there. */
  ghost predicate Walking(dec: Decoder, bytes: Bytes, at: nat, seen: seq<Member>) {
    Seen(dec, bytes, seen, at) && Members(dec, bytes, at).Some?
  }

  lemma {:induction false} WalkIs(dec: Decoder, bytes: Bytes, at: nat, seen: seq<Member>, ms: seq<Member>,
                                  given: seq<Bytes>, cmp: Comparer)
    requires Marks(dec) && Walking(dec, bytes, at, seen) && Members(dec, bytes, Sarmag) == Some(ms)
    ensures WalkAfter(dec, bytes, at, seen, given, cmp) == Expected(ms, given, cmp, |seen|)
    decreases |bytes| - at
  {
    match GetAt(dec, bytes, at)
    case End =>
      assert seen + [] == seen;
      ExpectedStep(ms, given, cmp, |seen|);
    case Found(hb, h, next) =>
      var m, end := Member(hb, h, bytes[next..next + h.size]), CopyEnd(h, next);
      var seen' := seen + [m];
      SeenStep(dec, bytes, seen, at, m, next);
      WalkIs(dec, bytes, end, seen', ms, given, cmp);
      WalkStep(dec, bytes, at, seen, m, next, given, cmp);
      TooFarIs(ms, seen, m, Members(dec, bytes, end).value, given, cmp);
      EndOrNot(dec, bytes, end);
      ExpectedStep(ms, given, cmp, |seen|);
      if end == |bytes| { ExpectedStep(ms, given, cmp, |seen'|); }
  }

  lemma EndOrNot(dec: Decoder, bytes: Bytes, at: nat)
    requires Members(dec, bytes, at).Some? && at <= |bytes|
    ensures Members(dec, bytes, at).value == [] <==> at == |bytes|
  {
  }

  lemma TooFarIs(ms: seq<Member>, seen: seq<Member>, m: Member, rest: seq<Member>, given: seq<Bytes>, cmp: Comparer)
    requires ms == seen + [m] + rest
    ensures TooFar(ms, given, cmp, |seen|) <==> rest != [] && Chosen(seen + [m], given, cmp) && Overskips(m.hdr)
  {
    assert ms[..|seen| + 1] == seen + [m] && ms[|seen|] == m;
  }

  /** One member further. */
  lemma WalkStep(dec: Decoder, bytes: Bytes, at: nat, seen: seq<Member>, m: Member, next: nat, given: seq<Bytes>,
                 cmp: Comparer)
    requires Marks(dec) && GetAt(dec, bytes, at) == Found(m.hb, m.hdr, next)
    requires 0 <= m.hdr.size && CopyEnd(m.hdr, next) <= |bytes| && m.data == bytes[next..next + m.hdr.size]
    requires !GetAt(dec, bytes, CopyEnd(m.hdr, next)).Bad?
    ensures WalkAfter(dec, bytes, at, seen, given, cmp) ==
      if Chosen(seen + [m], given, cmp) && Overskips(m.hdr) && CopyEnd(m.hdr, next) < |bytes| then Failed(Malformed)
      else WalkAfter(dec, bytes, CopyEnd(m.hdr, next), seen + [m], given, cmp)
  {
    var args, kept := ArgsLeft(seen, given, cmp), Unselected(seen, given, cmp);
    SelectionSnoc(seen, m, given, cmp);
    assert (seen + [m])[..|seen|] == seen;
    if Match(args, m.hdr.name, cmp) < |args| {
      WalkSkips(dec, bytes, at, args, kept, cmp, m.hb, m.hdr, next);
      SkipReadsOn(dec, bytes, m.hdr, next);
      SameWalk(dec, bytes, SkipEnd(m.hdr, next), CopyEnd(m.hdr, next), ArgsLeft(seen + [m], given, cmp), kept, cmp);
    } else {
      WalkKeeps(dec, bytes, at, args, kept, cmp, m, next);
    }
  }

  /** The walk depends on the offset through what is read there. */
  lemma SameWalk(dec: Decoder, bytes: Bytes, at: nat, at': nat, args: seq<Bytes>, kept: seq<Member>, cmp: Comparer)
    ensures GetAt(dec, bytes, at) == GetAt(dec, bytes, at') ==>
      DeleteWalk(dec, bytes, at, args, kept, cmp) == DeleteWalk(dec, bytes, at', args, kept, cmp)
    ensures GetAt(dec, bytes, at) == Bad ==> DeleteWalk(dec, bytes, at, args, kept, cmp) == Failed(Malformed)
  {
  }

  /** On a readable archive exactly the unselected members are kept, or else the format is bad. */
  lemma DeleteExact(dec: Decoder, bytes: Bytes, given: seq<Bytes>, cmp: Comparer)
    requires Marks(dec) && Members(dec, bytes, Sarmag).Some?
    ensures var ms := Members(dec, bytes, Sarmag).value;
      DeleteWalk(dec, bytes, Sarmag, given, [], cmp) ==
      if Overskipped(ms, given, cmp) then Failed(Malformed)
      else Finished(Unselected(ms, given, cmp), ArgsLeft(ms, given, cmp))
  {
    SeenStart(dec, bytes);
    WalkIs(dec, bytes, Sarmag, [], Members(dec, bytes, Sarmag).value, given, cmp);
  }

  /** Whatever the archive, what is kept are members. */
  lemma {:induction false} KeptOk(dec: Decoder, bytes: Bytes, at: nat, args: seq<Bytes>, kept: seq<Member>,
                                  cmp: Comparer)
    requires AllOk(dec, kept)
    ensures var w := DeleteWalk(dec, bytes, at, args, kept, cmp); w.Finished? ==> AllOk(dec, w.kept)
    decreases |args|, |bytes| - at
  {
    match GetAt(dec, bytes, at)
    case End =>
    case Bad =>
    case Found(hb, h, next) =>
      var k := Match(args, h.name, cmp);
      if k < |args| {
        if SkipEnd(h, next) >= 0 { KeptOk(dec, bytes, SkipEnd(h, next), WithoutAt(args, k), kept, cmp); }
      } else if h.size >= 0 && CopyEnd(h, next) <= |bytes| {
        KeptOk(dec, bytes, CopyEnd(h, next), args, kept + [MemberAt(bytes, hb, h, next)], cmp);
      }
  }

  /** Whatever the archive, if `delete` finishes the result reads as the members kept. */
  lemma KeptReadsBack(dec: Decoder, bytes: Bytes, magic: Bytes, given: seq<Bytes>, cmp: Comparer)
    ensures var w := DeleteWalk(dec, bytes, Sarmag, given, [], cmp);
      w.Finished? ==> Members(dec, magic + Images(w.kept), |magic|) == Some(w.kept)
  {
    KeptOk(dec, bytes, Sarmag, given, [], cmp);
    var w := DeleteWalk(dec, bytes, Sarmag, given, [], cmp);
    if w.Finished? { MembersBack(dec, magic + Images(w.kept), magic, w.kept); }
  }

  // ---------- an archive from which a member cannot be deleted ----------

  const Nobody: Stat := Stat(0, 0, 0, 0, 0)

  /** Two empty files, the first with a blank in its name. */
  function TwoFiles(): seq<Member>
    ensures |TwoFiles()| == 2
  {
    [FromFile("a b", Nobody, []), FromFile("c", Nobody, [])]
  }

  /** Deleting the first fails with a bad format although the archive can be read. */
  lemma CannotDelete(magic: Bytes)
    requires |magic| == Sarmag
    ensures var bytes := magic + Images(TwoFiles());
      && Members(Decode, bytes, Sarmag) == Some(TwoFiles())
      && DeleteWalk(Decode, bytes, Sarmag, ["a b"], [], Comparing(false)) == Failed(Malformed)
  {
    TwoFilesOk();
    assert Comparing(false)("a b", "a b") by { NoSlash("a b"); }
    DecodeMarks();
    TwoMembersFail(Decode, magic, TwoFiles(), "a b", Comparing(false));
  }

  lemma TwoMembersFail(dec: Decoder, magic: Bytes, ms: seq<Member>, name: Bytes, cmp: Comparer)
    requires Marks(dec) && |magic| == Sarmag && |ms| == 2 && AllOk(dec, ms)
    requires Overskips(ms[0].hdr) && cmp(ms[0].hdr.name, name)
    ensures Members(dec, magic + Images(ms), Sarmag) == Some(ms)
    ensures DeleteWalk(dec, magic + Images(ms), Sarmag, [name], [], cmp) == Failed(Malformed)
  {
    MembersBack(dec, magic + Images(ms), magic, ms);
    FirstSelected(ms[0], ms[1], name, cmp);
    assert ms == [ms[0], ms[1]];
    DeleteExact(dec, magic + Images(ms), [name], cmp);
  }

  lemma NobodyFits(size: nat)
    requires size < 10
    ensures NumbersFit(Nobody, size)
  {
  }

  lemma FirstFileOk()
    ensures CanWrite("a b", Nobody) && MemberOk(Decode, FromFile("a b", Nobody, []))
    ensures FromFile("a b", Nobody, []).hdr == Header(0, 0, 0, 0, 0, 3, "a b")
  {
    NobodyFits(3);
    assert "a b"[1] == ' ';
    FileOk("a b", Nobody, []);
  }

  lemma SecondFileOk()
    ensures CanWrite("c", Nobody) && MemberOk(Decode, FromFile("c", Nobody, []))
  {
    NobodyFits(0);
    FileOk("c", Nobody, []);
  }

  lemma TwoFilesOk()
    ensures AllOk(Decode, TwoFiles()) && TwoFiles()[0].hdr == Header(0, 0, 0, 0, 0, 3, "a b")
  {
    FirstFileOk();
    SecondFileOk();
  }

  lemma FirstSelected(m: Member, m': Member, name: Bytes, cmp: Comparer)
    requires Overskips(m.hdr) && cmp(m.hdr.name, name)
    ensures Overskipped([m, m'], [name], cmp)
  {
    TooFarIs([m, m'], [], m, [m'], [name], cmp);
    assert ArgsLeft([], [name], cmp) == [name] && [] + [m] == [m] && [m][..0] == [];
    assert TooFar([m, m'], [name], cmp, 0);
  }
}
