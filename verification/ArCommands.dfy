/**
 bin/ar/archive.c, bin/ar/move.c and bin/ar/delete.c as code: files with a position, copying by
 blocks, and the loops over an archive.
 */
module ArCommands {
  import opened Wrappers
  import opened ArFormat
  import opened ArMembers
  import opened ArEdit
  import opened ArDelete

  // ---------- files ----------

  function Least(a: nat, b: nat): nat { if a <= b then a else b }

  /** At most `n` bytes from `at` on. */
  function Slice(bytes: Bytes, at: nat, n: nat): (s: Bytes)
    ensures |s| <= n && (|s| < n ==> at + |s| >= |bytes|)
  {
    if at >= |bytes| then [] else bytes[at..Least(at + n, |bytes|)]
  }

  /** `b` written over what is at `at`. */
  function Over(bytes: Bytes, at: nat, b: Bytes): (s: Bytes)
    requires at <= |bytes|
    ensures at + |b| <= |s|
  {
    bytes[..at] + b + if at + |b| < |bytes| then bytes[at + |b|..] else []
  }

  lemma OverOver(bytes: Bytes, at: nat, a: Bytes, b: Bytes)
    requires at <= |bytes|
    ensures Over(Over(bytes, at, a), at + |a|, b) == Over(bytes, at, a + b)
  {
  }

  class File {
    var bytes: Bytes
    var pos: nat

    constructor ()
      ensures bytes == [] && pos == 0
    {
      bytes, pos := [], 0;
    }

    method Read(n: nat) returns (got: Bytes)
      modifies this`pos
      ensures got == Slice(bytes, old(pos), n) && pos == old(pos) + |got|
    {
      got := Slice(bytes, pos, n);
      pos := pos + |got|;
    }

    method Write(b: Bytes)
      requires pos <= |bytes|
      modifies this
      ensures bytes == Over(old(bytes), old(pos), b) && pos == old(pos) + |b|
    {
      bytes := Over(bytes, pos, b);
      pos := pos + |b|;
    }
  }

  /** Copying by blocks: all that is asked for, or as much as there is. */
  method CopyBlocks(from: File, to: File, size: nat) returns (left: nat)
    requires from != to && to.pos <= |to.bytes|
    modifies from`pos, to
    ensures left <= size && (left == 0 <==> size == 0 || old(from.pos) + size <= |from.bytes|)
    ensures from.pos == old(from.pos) + size - left
    ensures left == 0 && size > 0 ==>
      to.bytes == Over(old(to.bytes), old(to.pos), from.bytes[old(from.pos)..from.pos]) && to.pos == old(to.pos) + size
    ensures size == 0 ==> to.bytes == old(to.bytes) && to.pos == old(to.pos)
    ensures to.pos <= |to.bytes|
  {
    left := size;
    ghost var at, was, wat := from.pos, to.bytes, to.pos;
    ghost var done: Bytes := [];
    if size == 0 { return; }
    assert Over(was, wat, []) == was;
    while left > 0
      invariant left <= size && from.pos == at + size - left && to.pos == wat + |done| <= |to.bytes|
      invariant to.bytes == Over(was, wat, done) && |done| == size - left
      invariant |done| > 0 ==> from.pos <= |from.bytes|
      invariant at <= |from.bytes| ==> from.pos <= |from.bytes| && done == from.bytes[at..from.pos]
    {
      var buf := from.Read(Least(left, BufSize));
      if |buf| == 0 { return; }
      left := left - |buf|;
      to.Write(buf);
      OverOver(was, wat, done, buf);
      assert at <= |from.bytes| && from.bytes[at..from.pos] == done + buf;
      done := done + buf;
    }
  }

  lemma OverEnd(bytes: Bytes, b: Bytes)
    ensures Over(bytes, |bytes|, b) == bytes + b
  {
  }

  /** `copy_ar`, with padding read and written as the flags say. */
  method CopyAr(from: File, to: File, size: int, rpad: bool, wpad: bool, lname: nat, already: nat) returns (ok: bool)
    requires from != to && to.pos <= |to.bytes|
    modifies from`pos, to
    ensures to.pos <= |to.bytes|
    ensures ok <==>
      size == 0 || (size > 0 && old(from.pos) + size + (if rpad then PadLen(size, lname) else 0) <= |from.bytes|)
    ensures ok ==> from.pos == old(from.pos) + size + if rpad then PadLen(size, lname) else 0
    ensures ok && size > 0 ==>
      var b := from.bytes[old(from.pos)..old(from.pos) + size] + Pad(if wpad then PadLen(size, already) else 0);
      to.bytes == Over(old(to.bytes), old(to.pos), b) && to.pos == old(to.pos) + |b|
    ensures size == 0 ==> to.bytes == old(to.bytes) && to.pos == old(to.pos)
  {
    if size == 0 { return true; }
    if size < 0 { return false; }
    var left := CopyBlocks(from, to, size);
    if left > 0 { return false; }
    if rpad && Odd(size + lname) {
      var one := from.Read(1);
      if |one| != 1 { return false; }
    }
    WritePad(to, old(to.bytes), old(to.pos), from.bytes[old(from.pos)..old(from.pos) + size],
             wpad && Odd(size + already));
    ok := true;
  }

  /** The padding byte, if there is to be one, after `b` has been written. */
  method WritePad(to: File, ghost was: Bytes, ghost at: nat, ghost b: Bytes, odd: bool)
    requires at <= |was| && to.bytes == Over(was, at, b) && to.pos == at + |b|
    modifies to
    ensures to.bytes == Over(was, at, b + Pad(if odd then 1 else 0))
    ensures to.pos == at + |b| + (if odd then 1 else 0) <= |to.bytes|
  {
    if odd {
      to.Write("\n");
      OverOver(was, at, b, "\n");
      assert Pad(1) == "\n";
    } else {
      assert b + Pad(0) == b;
    }
  }

  /** The result of `get_arobj`. */
  datatype Code = EndOfFile | BadFormat | Ready

  class Ar {
    const dec: Decoder
    var hb: Bytes
    var chdr: Header

    constructor (dec: Decoder)
      ensures this.dec == dec
    {
      this.dec, hb, chdr := dec, [], Header(0, 0, 0, 0, 0, 0, []);
    }

    /** `get_arobj`. */
    method GetArobj(f: File) returns (c: Code)
      modifies this`hb, this`chdr, f`pos
      ensures match GetAt(dec, f.bytes, old(f.pos))
        case End => c == EndOfFile
        case Bad => c == BadFormat
        case Found(hb', h, next) => c == Ready && hb == hb' && chdr == h && f.pos == next
    {
      var at := f.pos;
      hb := f.Read(HeaderSize);
      if |hb| != HeaderSize {
        return if |hb| == 0 then EndOfFile else BadFormat;
      }
      assert hb == f.bytes[at..at + HeaderSize];
      var h := dec(hb);
      if h.None? { return BadFormat; }
      chdr := h.value;
      if chdr.lname > 0 {
        var name := f.Read(chdr.lname);
        if |name| != chdr.lname { return BadFormat; }
        chdr := chdr.(name := name);
      }
      c := Ready;
    }

    /** The header last read names a member whose contents begin at offset `at`. */
    ghost predicate Current(f: File, at: nat)
      reads this, f
    {
      at <= |f.bytes| && |hb| == HeaderSize && (chdr.lname > 0 ==> |chdr.name| == chdr.lname)
    }

    /** The member whose header was read last. */
    function MemberIn(bytes: Bytes, at: nat): Member
      requires 0 <= chdr.size && at + chdr.size <= |bytes|
      reads this
    {
      Member(hb, chdr, bytes[at..at + chdr.size])
    }

    /** `put_arobj` on the header last read: the member goes to the end of another archive. */
    method PutArobj(from: File, to: File) returns (ok: bool)
      requires from != to && Current(from, from.pos) && to.pos == |to.bytes|
      modifies from`pos, to
      ensures to.pos == |to.bytes| || !ok
      ensures ok <==> chdr.size >= 0 && CopyEnd(chdr, old(from.pos)) <= |from.bytes|
      ensures ok ==> to.bytes == old(to.bytes) + Image(MemberIn(from.bytes, old(from.pos)))
      ensures ok ==> from.pos == CopyEnd(chdr, old(from.pos))
    {
      ghost var was, at := to.bytes, from.pos;
      PutHeader(to);
      ghost var front := to.bytes;
      ok := CopyAr(from, to, chdr.size, true, true, chdr.lname, chdr.lname);
      if ok {
        ghost var m := MemberIn(from.bytes, at);
        ghost var tail := m.data + Pad(PadLen(|m.data|, chdr.lname));
        OverEnd(front, tail);
        assert to.bytes == front + tail;
        PutImage(was, m);
      }
    }

    /** The header and the long name. */
    method PutHeader(to: File)
      requires to.pos == |to.bytes| && |hb| == HeaderSize
      modifies to
      ensures to.bytes == old(to.bytes) + hb + LongName(chdr) && to.pos == |to.bytes|
    {
      OverEnd(to.bytes, hb);
      to.Write(hb);
      if chdr.lname > 0 {
        OverEnd(to.bytes, chdr.name);
        to.Write(chdr.name);
      } else {
        assert to.bytes + [] == to.bytes;
      }
    }

    /** `skip_arobj`: a seek to before the beginning fails. */
    method SkipArobj(f: File) returns (ok: bool)
      modifies f`pos
      ensures ok <==> SkipEnd(chdr, old(f.pos)) >= 0
      ensures f.pos == if ok then SkipEnd(chdr, old(f.pos)) else old(f.pos)
    {
      var to := f.pos + chdr.size + if Odd(chdr.size + chdr.lname) then 1 else 0;
      ok := to >= 0;
      if ok { f.pos := to; }
    }
  }

  lemma PutImage(was: Bytes, m: Member)
    ensures was + m.hb + LongName(m.hdr) + (m.data + Pad(PadLen(|m.data|, m.hdr.lname))) == was + Image(m)
  {
  }

  // ---------- the loops over an archive ----------

  /** The header `ar` has read at offset `at`. */
  ghost predicate Have(ar: Ar, bytes: Bytes, at: nat, next: nat)
    reads ar
  {
    GetAt(ar.dec, bytes, at) == Found(ar.hb, ar.chdr, next)
  }

  /** The next header, the end of the archive, or a bad format. */
  method NextHeader(ar: Ar, archive: File, ghost seen: seq<Member>) returns (c: Code)
    requires Seen(ar.dec, archive.bytes, seen, archive.pos)
    modifies ar`hb, ar`chdr, archive`pos
    ensures c == EndOfFile ==> Members(ar.dec, archive.bytes, Sarmag) == Some(seen)
    ensures c == BadFormat ==> Members(ar.dec, archive.bytes, Sarmag) == None
    ensures c == Ready ==> Have(ar, archive.bytes, old(archive.pos), archive.pos) && ar.Current(archive, archive.pos)
    ensures c == Ready ==> old(archive.pos) < archive.pos <= |archive.bytes|
  {
    c := ar.GetArobj(archive);
    assert seen + [] == seen;
  }

  /** The current member has been copied. */
  lemma SeenCopied(ar: Ar, archive: File, seen: seq<Member>, at: nat, next: nat)
    requires Seen(ar.dec, archive.bytes, seen, at) && Have(ar, archive.bytes, at, next) && Copyable(ar, archive, next)
    ensures Seen(ar.dec, archive.bytes, seen + [ar.MemberIn(archive.bytes, next)], CopyEnd(ar.chdr, next))
  {
    SeenStep(ar.dec, archive.bytes, seen, at, ar.MemberIn(archive.bytes, next), next);
  }

  /** The current member cannot be copied. */
  lemma SeenTruncated(ar: Ar, archive: File, seen: seq<Member>, at: nat, next: nat)
    requires Seen(ar.dec, archive.bytes, seen, at) && Have(ar, archive.bytes, at, next) && !Copyable(ar, archive, next)
    ensures Members(ar.dec, archive.bytes, Sarmag) == None
  {
  }

  /** A new temporary file holds the images of `list`, and its position is at the end. */
  ghost predicate Holds(f: File, list: seq<Member>)
    reads f
  {
    f.bytes == Images(list) && f.pos == |f.bytes|
  }

  lemma ImagesSnoc(list: seq<Member>, m: Member)
    ensures Images(list + [m]) == Images(list) + Image(m)
  {
    assert (list + [m])[..|list|] == list;
  }

  /** What is needed to copy the current member: its contents and padding are there. */
  ghost predicate Copyable(ar: Ar, f: File, at: nat)
    reads ar, f
  {
    ar.chdr.size >= 0 && CopyEnd(ar.chdr, at) <= |f.bytes|
  }

  /** The current member put at the end of a temporary file. */
  method PutTo(ar: Ar, archive: File, to: File, ghost list: seq<Member>) returns (ok: bool)
    requires archive != to && ar.Current(archive, archive.pos) && Holds(to, list)
    modifies archive`pos, to
    ensures ok <==> Copyable(ar, archive, old(archive.pos))
    ensures ok ==>
      && Holds(to, list + [ar.MemberIn(archive.bytes, old(archive.pos))])
      && archive.pos == CopyEnd(ar.chdr, old(archive.pos))
  {
    ok := ar.PutArobj(archive, to);
    if ok { ImagesSnoc(list, ar.MemberIn(archive.bytes, old(archive.pos))); }
  }

  /** The three parts written back after the magic, and the archive cut to size. */
  method Rejoin(archive: File, t1: File, t2: File, t3: File)
    requires archive != t1 && archive != t2 && archive != t3 && t1 != t2 && t1 != t3 && t2 != t3
    requires Sarmag <= |archive.bytes|
    modifies archive, t1`pos, t2`pos, t3`pos
    ensures archive.bytes == old(archive.bytes)[..Sarmag] + t1.bytes + t2.bytes + t3.bytes
  {
    ghost var was := archive.bytes;
    archive.pos := Sarmag;
    assert Over(was, Sarmag, []) == was;
    CopyBack(archive, t1, was, []);
    CopyBack(archive, t2, was, [] + t1.bytes);
    CopyBack(archive, t3, was, [] + t1.bytes + t2.bytes);
    var size := |t1.bytes| + |t2.bytes| + |t3.bytes|;
    archive.bytes := archive.bytes[..size + Sarmag];
  }

  /** One temporary file copied back, without padding. */
  method CopyBack(archive: File, t: File, ghost was: Bytes, ghost done: Bytes)
    requires archive != t && Sarmag <= |was|
    requires archive.bytes == Over(was, Sarmag, done) && archive.pos == Sarmag + |done|
    modifies archive, t`pos
    ensures archive.bytes == Over(was, Sarmag, done + t.bytes) && archive.pos == Sarmag + |done + t.bytes|
  {
    t.pos := 0;
    var ok := CopyAr(t, archive, |t.bytes|, false, false, 0, 0);
    OverOver(was, Sarmag, done, t.bytes);
    if |t.bytes| > 0 { assert t.bytes[0..|t.bytes|] + Pad(0) == t.bytes; } else { assert done + t.bytes == done; }
  }

  // ---------- move ----------

  ghost predicate PartsIn(t1: File, t2: File, t3: File, p: Parts)
    reads t1, t2, t3
  {
    Holds(t1, p.before) && Holds(t2, p.chosen) && Holds(t3, p.after)
  }

  ghost predicate Apart(archive: File, t1: File, t2: File, t3: File) {
    archive != t1 && archive != t2 && archive != t3 && t1 != t2 && t1 != t3 && t2 != t3
  }

  /** What `move` does with the member whose header it has read. */
  method MoveOne(ar: Ar, archive: File, t1: File, t2: File, t3: File, args0: seq<Bytes>, mods0: bool, late0: bool,
                 o: Options,
                 ghost p: Parts) returns (ok: bool, args: seq<Bytes>, mods: bool, late: bool)
    requires Apart(archive, t1, t2, t3) && ar.Current(archive, archive.pos) && PartsIn(t1, t2, t3, p)
    requires args0 == p.args && mods0 == p.mods && late0 == p.late
    modifies archive`pos, t1, t2, t3
    ensures ok <==> Copyable(ar, archive, old(archive.pos))
    ensures ok ==> archive.pos == CopyEnd(ar.chdr, old(archive.pos))
    ensures ok ==> var q := Step(p, ar.MemberIn(archive.bytes, old(archive.pos)), o);
      PartsIn(t1, t2, t3, q) && args == q.args && mods == q.mods && late == q.late
  {
    mods, late := mods0, late0;
    var found;
    found, args := Files(args0, ar.chdr.name, o.cmp);
    if found {
      ok := PutTo(ar, archive, t2, p.chosen);
      return;
    }
    var key := mods && o.cmp(ar.chdr.name, o.posname);
    if key {
      mods := false;
      late := late || o.before;
    }
    if late {
      ok := PutTo(ar, archive, t3, p.after);
    } else {
      ok := PutTo(ar, archive, t1, p.before);
    }
    if key { late := late || o.after; }
  }

  /** The loop of `move` is here: so much has been read, and the parts are in their files. */
  ghost predicate Moving(dec: Decoder, archive: File, t1: File, t2: File, t3: File, seen: seq<Member>, p: Parts)
    reads archive, t1, t2, t3
  {
    Apart(archive, t1, t2, t3) && Seen(dec, archive.bytes, seen, archive.pos) && PartsIn(t1, t2, t3, p)
  }

  lemma SplitSnoc(seen: seq<Member>, m: Member, args: seq<Bytes>, o: Options)
    ensures Split(seen + [m], args, o) == Step(Split(seen, args, o), m, o)
  {
    assert (seen + [m])[..|seen|] == seen;
  }

  /** One round of the loop of `move`. */
  method MoveRound(ar: Ar, archive: File, t1: File, t2: File, t3: File, args0: seq<Bytes>, mods0: bool, late0: bool,
                   o: Options,
                   ghost given: seq<Bytes>, ghost seen0: seq<Member>)
      returns (c: Code, args: seq<Bytes>, mods: bool, late: bool, ghost seen: seq<Member>)
    requires Moving(ar.dec, archive, t1, t2, t3, seen0, Split(seen0, given, o))
    requires var p := Split(seen0, given, o); args0 == p.args && mods0 == p.mods && late0 == p.late
    modifies ar`hb, ar`chdr, archive`pos, t1, t2, t3
    ensures c == EndOfFile ==>
      && Members(ar.dec, archive.bytes, Sarmag) == Some(seen)
      && PartsIn(t1, t2, t3, Split(seen, given, o))
    ensures c == BadFormat ==> Members(ar.dec, archive.bytes, Sarmag) == None
    ensures c == Ready ==>
      && Moving(ar.dec, archive, t1, t2, t3, seen, Split(seen, given, o))
      && old(archive.pos) < archive.pos <= |archive.bytes|
    ensures var p := Split(seen, given, o); c != BadFormat ==> args == p.args && mods == p.mods && late == p.late
  {
    ghost var at := archive.pos;
    args, mods, late, seen := args0, mods0, late0, seen0;
    c := NextHeader(ar, archive, seen0);
    if c != Ready { return; }
    ghost var next := archive.pos;
    var ok;
    ok, args, mods, late := MoveOne(ar, archive, t1, t2, t3, args, mods, late, o, Split(seen0, given, o));
    if !ok {
      SeenTruncated(ar, archive, seen0, at, next);
      c := BadFormat;
      return;
    }
    SeenCopied(ar, archive, seen0, at, next);
    SplitSnoc(seen0, ar.MemberIn(archive.bytes, next), given, o);
    seen := seen0 + [ar.MemberIn(archive.bytes, next)];
  }

  /**
   `move`. It fails when the format is bad, and reports 1 when the key is not found or an
   argument names no member; unless the key is missing the archive becomes the three parts.
   */
  method Move(ar: Ar, archive: File, given: seq<Bytes>, o: Options) returns (ok: bool, status: int, args: seq<Bytes>)
    requires archive.pos == Sarmag <= |archive.bytes|
    modifies ar`hb, ar`chdr, archive
    ensures ok <==> Members(ar.dec, old(archive.bytes), Sarmag).Some?
    ensures !ok ==> archive.bytes == old(archive.bytes) && status == 1
    ensures ok ==> var p := Split(Members(ar.dec, old(archive.bytes), Sarmag).value, given, o);
      && args == p.args
      && archive.bytes == (if p.mods then old(archive.bytes)
                           else old(archive.bytes)[..Sarmag] + Images(p.before) + Images(p.chosen) + Images(p.after))
      && status == (if p.mods || p.args != [] then 1 else 0)
  {
    var t1 := new File();
    var t2 := new File();
    var t3 := new File();
    var mods, late, c := o.after || o.before, false, Ready;
    args := given;
    ghost var seen: seq<Member> := [];
    SeenStart(ar.dec, archive.bytes);
    while c == Ready
      invariant archive.bytes == old(archive.bytes) && fresh(t1) && fresh(t2) && fresh(t3)
      invariant c == Ready ==>
        && Moving(ar.dec, archive, t1, t2, t3, seen, Split(seen, given, o))
        && archive.pos <= |archive.bytes|
      invariant c == EndOfFile ==>
        && Members(ar.dec, archive.bytes, Sarmag) == Some(seen)
        && PartsIn(t1, t2, t3, Split(seen, given, o))
      invariant c == BadFormat ==> Members(ar.dec, archive.bytes, Sarmag) == None
      invariant var p := Split(seen, given, o); c != BadFormat ==> args == p.args && mods == p.mods && late == p.late
      invariant Apart(archive, t1, t2, t3)
      decreases c == Ready, |archive.bytes| - archive.pos
    {
      c, args, mods, late, seen := MoveRound(ar, archive, t1, t2, t3, args, mods, late, o, given, seen);
    }
    if c == BadFormat { return false, 1, args; }
    if mods { return true, 1, args; }
    Rejoin(archive, t1, t2, t3);
    return true, if args != [] then 1 else 0, args;
  }

  // ---------- delete ----------

  /** After a round of `delete`: there may be more members, there are no more, or the program exits. */
  datatype Round = More | Last | Stops(why: Failure)

  /** The loop of `delete` has kept `kept` so far. */
  ghost predicate Deleting(archive: File, t: File, kept: seq<Member>)
    reads t
  {
    archive != t && Holds(t, kept)
  }

  /** The member whose header was read is skipped if an argument names it, and copied otherwise. */
  method DropOrKeep(ar: Ar, archive: File, t: File, args0: seq<Bytes>, cmp: Comparer, ghost kept0: seq<Member>,
                    ghost at: nat)
      returns (r: Round, args: seq<Bytes>, ghost kept: seq<Member>)
    requires Deleting(archive, t, kept0) && ar.Current(archive, archive.pos) && Have(ar, archive.bytes, at, archive.pos)
    modifies archive`pos, t
    ensures r != Last && |args| <= |args0| && (|args| == |args0| && r == More ==> archive.pos > at)
    ensures r == More ==> Deleting(archive, t, kept)
    ensures DeleteWalk(ar.dec, archive.bytes, at, args0, kept0, cmp) ==
      if r.Stops? then Failed(r.why) else DeleteWalk(ar.dec, archive.bytes, archive.pos, args, kept, cmp)
  {
    ghost var next := archive.pos;
    kept := kept0;
    var found, ok;
    found, args := Files(args0, ar.chdr.name, cmp);
    if found {
      WalkSkips(ar.dec, archive.bytes, at, args0, kept0, cmp, ar.hb, ar.chdr, next);
      ok := ar.SkipArobj(archive);
      r := if ok then More else Stops(OffStart);
    } else {
      ok := PutTo(ar, archive, t, kept0);
      r := if ok then More else Stops(Malformed);
      if ok {
        ghost var m := ar.MemberIn(archive.bytes, next);
        kept := kept0 + [m];
        WalkKeeps(ar.dec, archive.bytes, at, args0, kept0, cmp, m, next);
      }
    }
  }

  /** One round of the loop of `delete`. */
  method DeleteRound(ar: Ar, archive: File, t: File, args0: seq<Bytes>, cmp: Comparer, ghost kept0: seq<Member>)
      returns (r: Round, args: seq<Bytes>, ghost kept: seq<Member>)
    requires Deleting(archive, t, kept0)
    modifies ar`hb, ar`chdr, archive`pos, t
    ensures |args| <= |args0|
    ensures |args| == |args0| && r == More ==> old(archive.pos) < archive.pos && old(archive.pos) < |archive.bytes|
    ensures !r.Stops? ==> Deleting(archive, t, kept)
    ensures DeleteWalk(ar.dec, archive.bytes, old(archive.pos), args0, kept0, cmp) ==
      match r
      case More => DeleteWalk(ar.dec, archive.bytes, archive.pos, args, kept, cmp)
      case Last => Finished(kept, args)
      case Stops(why) => Failed(why)
  {
    var at := archive.pos;
    args, kept := args0, kept0;
    var c := ar.GetArobj(archive);
    if c == EndOfFile { return Last, args, kept; }
    if c == BadFormat { return Stops(Malformed), args, kept; }
    r, args, kept := DropOrKeep(ar, archive, t, args0, cmp, kept0, at);
  }

  /** The temporary file written back after the magic, and the archive cut to size. */
  method WriteBack(archive: File, t: File)
    requires archive != t && Sarmag <= |archive.bytes|
    modifies archive, t`pos
    ensures archive.bytes == old(archive.bytes)[..Sarmag] + t.bytes
  {
    ghost var was := archive.bytes;
    archive.pos := Sarmag;
    assert Over(was, Sarmag, []) == was;
    CopyBack(archive, t, was, []);
    archive.bytes := archive.bytes[..|t.bytes| + Sarmag];
  }

  /** `delete`: the members kept are written back, unless the program exits before that. */
  method Delete(ar: Ar, archive: File, given: seq<Bytes>, cmp: Comparer)
      returns (failure: Option<Failure>, status: int, args: seq<Bytes>)
    requires archive.pos == Sarmag <= |archive.bytes|
    modifies ar`hb, ar`chdr, archive
    ensures match DeleteWalk(ar.dec, old(archive.bytes), Sarmag, given, [], cmp)
      case Failed(why) => failure == Some(why) && status == 1 && archive.bytes == old(archive.bytes)
      case Finished(kept, left) =>
        && failure == None && args == left && status == (if left != [] then 1 else 0)
        && archive.bytes == old(archive.bytes)[..Sarmag] + Images(kept)
  {
    var t := new File();
    args := given;
    ghost var kept: seq<Member> := [];
    var r := More;
    while r == More
      invariant archive.bytes == old(archive.bytes) && fresh(t)
      invariant !r.Stops? ==> Deleting(archive, t, kept)
      invariant DeleteWalk(ar.dec, archive.bytes, Sarmag, given, [], cmp) ==
        match r
        case More => DeleteWalk(ar.dec, archive.bytes, archive.pos, args, kept, cmp)
        case Last => Finished(kept, args)
        case Stops(why) => Failed(why)
      decreases r == More, |args|, |archive.bytes| - archive.pos
    {
      r, args, kept := DeleteRound(ar, archive, t, args, cmp, kept);
    }
    if r.Stops? { return Some(r.why), 1, args; }
    WriteBack(archive, t);
    return None, if args != [] then 1 else 0, args;
  }

  // ---------- the commands ----------

  /** `open_archive` on a file that exists: it must begin with the magic string. */
  method OpenArchive(f: File) returns (ok: bool)
    requires f.pos == 0
    modifies f`pos
    ensures ok <==> |f.bytes| >= 8 && f.bytes[..8] == "!<arch>\n"
    ensures ok ==> f.pos == 8
  {
    var buf := f.Read(Sarmag);
    ok := |buf| == Sarmag && buf == ArMag;
    if |f.bytes| >= 8 { assert f.bytes[0..8] == f.bytes[..8]; }
  }

  /** The members of an archive, if it can be read. */
  function Archive(bytes: Bytes): Option<seq<Member>> {
    if |bytes| >= 8 && bytes[..8] == "!<arch>\n" then Members(Decode, bytes, 8) else None
  }

  /** What follows the magic string is read. */
  lemma ArchiveKept(was: Bytes, bytes: Bytes, ms: seq<Member>)
    requires Archive(was).Some? && |bytes| >= 8 && bytes[..8] == was[..8] && Members(Decode, bytes, 8) == Some(ms)
    ensures Archive(bytes) == Some(ms)
  {
  }

  /** ar -m. */
  method MoveCommand(archive: File, given: seq<Bytes>, after: bool, before: bool, posname: Bytes, truncating: bool)
      returns (ok: bool, status: int, args: seq<Bytes>)
    requires archive.pos == 0
    modifies archive
    ensures ok <==> Archive(old(archive.bytes)).Some?
    ensures !ok ==> archive.bytes == old(archive.bytes) && status == 1
    ensures ok ==> var ms := Archive(old(archive.bytes)).value;
      var p := Split(ms, given, Options(after, before, posname, Comparing(truncating)));
      && args == p.args && status == (if p.mods || p.args != [] then 1 else 0)
      && Archive(archive.bytes) == Some(if p.mods then ms else p.before + p.chosen + p.after)
  {
    ghost var was := archive.bytes;
    var isArchive := OpenArchive(archive);
    if !isArchive { return false, 1, given; }
    var ar := new Ar(Decode);
    var o := Options(after, before, posname, Comparing(truncating));
    ok, status, args := Move(ar, archive, given, o);
    if ok { MovedArchive(was, archive.bytes, given, o); }
  }

  lemma MovedArchive(was: Bytes, bytes: Bytes, given: seq<Bytes>, o: Options)
    requires Archive(was).Some?
    requires var p := Split(Archive(was).value, given, o);
      bytes == if p.mods then was else was[..Sarmag] + Images(p.before) + Images(p.chosen) + Images(p.after)
    ensures var p := Split(Archive(was).value, given, o);
      Archive(bytes) == Some(if p.mods then Archive(was).value else p.before + p.chosen + p.after)
  {
    var ms := Archive(was).value;
    var p := Split(ms, given, o);
    if !p.mods {
      MembersOk(Decode, was, 8);
      MoveReadsBack(Decode, was[..8], ms, given, o);
      assert bytes[..8] == was[..8];
      ArchiveKept(was, bytes, p.before + p.chosen + p.after);
    }
  }

  /** ar -d. */
  method DeleteCommand(archive: File, given: seq<Bytes>, truncating: bool)
      returns (failure: Option<Failure>, status: int, args: seq<Bytes>)
    requires archive.pos == 0
    modifies archive
    ensures failure.Some? ==> archive.bytes == old(archive.bytes) && status == 1
    ensures failure == None ==> Archive(archive.bytes).Some?
    ensures Archive(old(archive.bytes)).Some? ==>
      var ms := Archive(old(archive.bytes)).value;
      if Overskipped(ms, given, Comparing(truncating)) then failure == Some(Malformed)
      else
        && failure == None && args == ArgsLeft(ms, given, Comparing(truncating))
        && status == (if args != [] then 1 else 0)
        && Archive(archive.bytes) == Some(Unselected(ms, given, Comparing(truncating)))
  {
    ghost var was := archive.bytes;
    args := given;
    var isArchive := OpenArchive(archive);
    if !isArchive { return Some(Malformed), 1, args; }
    var ar := new Ar(Decode);
    var cmp := Comparing(truncating);
    failure, status, args := Delete(ar, archive, given, cmp);
    if failure == None {
      KeptReadsBack(Decode, was, was[..8], given, cmp);
      assert archive.bytes[..8] == was[..8];
    }
    if Members(Decode, was, 8).Some? {
      DecodeMarks();
      DeleteExact(Decode, was, given, cmp);
    }
  }
}
