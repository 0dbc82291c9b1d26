/**
 Which members of an archive the arguments select (bin/ar/misc.c), and the three parts a move
 makes of them (bin/ar/move.c).
 */
module ArEdit {
  import opened Wrappers
  import opened ArFormat
  import opened ArMembers

  const Sarmag: nat := 8
  const ArMag: Bytes := "!<arch>\n"
  const OldArMaxName: nat := 15
  const BufSize: nat := 8192

  // ---------- selecting members ----------

  /** What follows the last slash. */
  function Rname(path: Bytes): (s: Bytes)
    ensures '/' !in s
  {
    if path == [] then [] else if path[|path| - 1] == '/' then [] else Rname(path[..|path| - 1]) + [path[|path| - 1]]
  }

  function Front(s: Bytes, n: nat): Bytes { if |s| <= n then s else s[..n] }

  /** `compare`: with truncated names only the first 15 characters count. */
  predicate Compare(name: Bytes, dest: Bytes, tr: bool) {
    if tr then Front(name, OldArMaxName) == Front(Rname(dest), OldArMaxName) else name == Rname(dest)
  }

  /** How names are compared. What follows holds for any way to compare them. */
  type Comparer = (Bytes, Bytes) -> bool

  function Comparing(tr: bool): Comparer { (name, dest) => Compare(name, dest, tr) }

  /** The first argument that names the member. */
  function Match(args: seq<Bytes>, name: Bytes, cmp: Comparer): (k: nat)
    ensures k <= |args| && (k < |args| ==> cmp(name, args[k]))
    ensures forall j :: 0 <= j < k ==> !cmp(name, args[j])
  {
    if args == [] || cmp(name, args[0]) then 0 else 1 + Match(args[1..], name, cmp)
  }

  function WithoutAt<T>(s: seq<T>, k: nat): seq<T> { if k < |s| then s[..k] + s[k + 1..] else s }

  /** `files`: an argument that names the member is removed from the list. */
  method Files(args: seq<Bytes>, name: Bytes, cmp: Comparer) returns (found: bool, left: seq<Bytes>)
    ensures found <==> Match(args, name, cmp) < |args|
    ensures left == WithoutAt(args, Match(args, name, cmp))
  {
    for k := 0 to |args|
      invariant forall j :: 0 <= j < k ==> !cmp(name, args[j])
    {
      if cmp(name, args[k]) {
        left := args[..k] + args[k + 1..];
        return true, left;
      }
    }
    return false, args;
  }

  // ---------- what is selected, and what is not ----------

  /** The arguments still to be found after the members of `ms`. */
  function ArgsLeft(ms: seq<Member>, args: seq<Bytes>, cmp: Comparer): seq<Bytes> {
    if ms == [] then args
    else
      var left := ArgsLeft(ms[..|ms| - 1], args, cmp);
      WithoutAt(left, Match(left, ms[|ms| - 1].hdr.name, cmp))
  }

  /** The last member of `ms` is named by an argument that named none before it. */
  predicate Chosen(ms: seq<Member>, args: seq<Bytes>, cmp: Comparer)
    requires ms != []
  {
    var left := ArgsLeft(ms[..|ms| - 1], args, cmp);
    Match(left, ms[|ms| - 1].hdr.name, cmp) < |left|
  }

  function Selected(ms: seq<Member>, args: seq<Bytes>, cmp: Comparer): seq<Member> {
    if ms == [] then []
    else Selected(ms[..|ms| - 1], args, cmp) + (if Chosen(ms, args, cmp) then [ms[|ms| - 1]] else [])
  }

  function Unselected(ms: seq<Member>, args: seq<Bytes>, cmp: Comparer): seq<Member> {
    if ms == [] then []
    else Unselected(ms[..|ms| - 1], args, cmp) + (if Chosen(ms, args, cmp) then [] else [ms[|ms| - 1]])
  }

  lemma SelectionSnoc(seen: seq<Member>, m: Member, args: seq<Bytes>, cmp: Comparer)
    ensures var left := ArgsLeft(seen, args, cmp); var k := Match(left, m.hdr.name, cmp);
      && ArgsLeft(seen + [m], args, cmp) == WithoutAt(left, k)
      && Selected(seen + [m], args, cmp) ==
        (if k < |left| then Selected(seen, args, cmp) + [m] else Selected(seen, args, cmp))
      && Unselected(seen + [m], args, cmp) ==
        (if k < |left| then Unselected(seen, args, cmp) else Unselected(seen, args, cmp) + [m])
  {
    assert (seen + [m])[..|seen|] == seen;
  }

  /** One more member, on one side or the other. */
  lemma OneMore(s: seq<Member>, u: seq<Member>, ms: seq<Member>, m: Member, s': seq<Member>, u': seq<Member>)
    requires ms != [] && multiset(s) + multiset(u) == multiset(ms[..|ms| - 1]) && m == ms[|ms| - 1]
    requires (s' == s + [m] && u' == u) || (s' == s && u' == u + [m])
    ensures multiset(s') + multiset(u') == multiset(ms)
  {
    assert ms == ms[..|ms| - 1] + [m];
  }

  /** Every member is on one side. */
  lemma {:induction false} SelectionSplits(ms: seq<Member>, args: seq<Bytes>, cmp: Comparer)
    ensures multiset(Selected(ms, args, cmp)) + multiset(Unselected(ms, args, cmp)) == multiset(ms)
  {
    if ms != [] {
      var init, m := ms[..|ms| - 1], ms[|ms| - 1];
      var s, u := Selected(init, args, cmp), Unselected(init, args, cmp);
      var s', u' := Selected(ms, args, cmp), Unselected(ms, args, cmp);
      SelectionSplits(init, args, cmp);
      if Chosen(ms, args, cmp) {
        assert s' == s + [m] && u' == u + [];
      } else {
        assert s' == s + [] && u' == u + [m];
      }
      OneMore(s, u, ms, m, s', u');
    }
  }

  /** Each argument found selects one member. */
  lemma {:induction false} SelectionCounts(ms: seq<Member>, args: seq<Bytes>, cmp: Comparer)
    ensures |Selected(ms, args, cmp)| + |ArgsLeft(ms, args, cmp)| == |args|
  {
    if ms != [] {
      SelectionCounts(ms[..|ms| - 1], args, cmp);
    }
  }

  // ---------- the three parts of a move ----------

  /** Options a and b (or i) with the position they refer to. */
  datatype Options = Options(after: bool, before: bool, posname: Bytes, cmp: Comparer)

  datatype Parts =
    Parts(before: seq<Member>, chosen: seq<Member>, after: seq<Member>, args: seq<Bytes>, mods: bool, late: bool)

  /** One round of the loop of `move`. */
  function Step(p: Parts, m: Member, o: Options): Parts {
    var k := Match(p.args, m.hdr.name, o.cmp);
    if k < |p.args| then p.(chosen := p.chosen + [m], args := WithoutAt(p.args, k))
    else if p.mods && o.cmp(m.hdr.name, o.posname) then
      var q := Add(p.(mods := false, late := p.late || o.before), m);
      q.(late := q.late || o.after)
    else Add(p, m)
  }

  /** A member put into the current part. */
  function Add(p: Parts, m: Member): Parts {
    if p.late then p.(after := p.after + [m]) else p.(before := p.before + [m])
  }

  function Split(ms: seq<Member>, args: seq<Bytes>, o: Options): Parts {
    if ms == [] then Parts([], [], [], args, o.after || o.before, false)
    else Step(Split(ms[..|ms| - 1], args, o), ms[|ms| - 1], o)
  }

  /** The first member of `u` at the position asked for. */
  function KeyAt(u: seq<Member>, o: Options): (k: nat)
    ensures k <= |u| && (k < |u| ==> o.cmp(u[k].hdr.name, o.posname))
    ensures forall j :: 0 <= j < k ==> !o.cmp(u[j].hdr.name, o.posname)
  {
    if u == [] || o.cmp(u[0].hdr.name, o.posname) then 0 else 1 + KeyAt(u[1..], o)
  }

  /** Where the unselected members are cut: before the key, after it, or at the end. */
  function Cut(u: seq<Member>, o: Options): (c: nat)
    ensures c <= |u|
  {
    if (!o.after && !o.before) || KeyAt(u, o) == |u| then |u|
    else if o.before then KeyAt(u, o) else KeyAt(u, o) + 1
  }

  lemma {:induction false} KeySnoc(u: seq<Member>, m: Member, o: Options)
    ensures KeyAt(u + [m], o) ==
      if KeyAt(u, o) < |u| then KeyAt(u, o)
      else if o.cmp(m.hdr.name, o.posname) then |u| else |u| + 1
  {
    var k, k', w := KeyAt(u, o), KeyAt(u + [m], o), u + [m];
    assert forall j :: 0 <= j < |u| ==> w[j] == u[j];
    assert w[|u|] == m;
    if k < |u| {
      assert o.cmp(w[k].hdr.name, o.posname);
    }
  }

  /** `p` is the unselected members `u` cut at the key. */
  ghost predicate CutAtKey(p: Parts, u: seq<Member>, o: Options) {
    && p.before == u[..Cut(u, o)] && p.after == u[Cut(u, o)..]
    && (p.mods <==> (o.after || o.before) && KeyAt(u, o) == |u|)
    && (p.late <==> (o.after || o.before) && KeyAt(u, o) < |u|)
  }

  /** The cut moves on with the end until the key is found. */
  lemma CutSnoc(u: seq<Member>, m: Member, o: Options)
    ensures Cut(u + [m], o) ==
      if (o.after || o.before) && KeyAt(u, o) < |u| then Cut(u, o)
      else if o.before && o.cmp(m.hdr.name, o.posname) then |u| else |u| + 1
  {
    KeySnoc(u, m, o);
  }

  lemma LateStep(p: Parts, u: seq<Member>, m: Member, o: Options)
    requires CutAtKey(p, u, o) && Match(p.args, m.hdr.name, o.cmp) == |p.args| && p.late
    ensures CutAtKey(Step(p, m, o), u + [m], o)
  {
    KeySnoc(u, m, o);
    CutSnoc(u, m, o);
    var w, c := u + [m], Cut(u, o);
    assert w[..c] == u[..c] && w[c..] == u[c..] + [m];
  }

  lemma EarlyStep(p: Parts, u: seq<Member>, m: Member, o: Options)
    requires CutAtKey(p, u, o) && Match(p.args, m.hdr.name, o.cmp) == |p.args| && !p.late
    ensures CutAtKey(Step(p, m, o), u + [m], o)
  {
    KeySnoc(u, m, o);
    CutSnoc(u, m, o);
    var w := u + [m];
    assert u[..|u|] == u && w[..|u|] == u && w[..|w|] == w && w[|u|..] == [m] && w[|w|..] == [];
  }

  lemma CutStep(p: Parts, u: seq<Member>, m: Member, o: Options)
    requires CutAtKey(p, u, o) && Match(p.args, m.hdr.name, o.cmp) == |p.args|
    ensures CutAtKey(Step(p, m, o), u + [m], o)
  {
    if p.late { LateStep(p, u, m, o); } else { EarlyStep(p, u, m, o); }
  }

  lemma ChosenStep(p: Parts, u: seq<Member>, m: Member, o: Options)
    requires CutAtKey(p, u, o) && Match(p.args, m.hdr.name, o.cmp) < |p.args|
    ensures CutAtKey(Step(p, m, o), u, o)
  {
  }

  /**
   The parts of a move: the selected members in archive order, and the others cut at the key;
   the key is not found exactly when no unselected member has its name.
   */
  lemma {:induction false} SplitMeaning(ms: seq<Member>, args: seq<Bytes>, o: Options)
    ensures Split(ms, args, o).chosen == Selected(ms, args, o.cmp)
    ensures Split(ms, args, o).args == ArgsLeft(ms, args, o.cmp)
    ensures CutAtKey(Split(ms, args, o), Unselected(ms, args, o.cmp), o)
  {
    if ms != [] {
      var init, m := ms[..|ms| - 1], ms[|ms| - 1];
      SplitMeaning(init, args, o);
      var p, u := Split(init, args, o), Unselected(init, args, o.cmp);
      if Match(p.args, m.hdr.name, o.cmp) == |p.args| {
        CutStep(p, u, m, o);
      } else {
        assert Unselected(ms, args, o.cmp) == u;
        ChosenStep(p, u, m, o);
      }
    }
  }

  /** What was cut in two is put together again around the selected members. */
  lemma ThreeParts(before: seq<Member>, chosen: seq<Member>, after: seq<Member>, u: seq<Member>, ms: seq<Member>)
    requires before + after == u && multiset(chosen) + multiset(u) == multiset(ms)
    ensures multiset(before + chosen + after) == multiset(ms)
  {
    assert multiset(u) == multiset(before) + multiset(after);
    assert multiset(before + chosen + after) == multiset(before) + multiset(chosen) + multiset(after);
  }

  lemma CutRejoined(p: Parts, u: seq<Member>, o: Options)
    requires CutAtKey(p, u, o)
    ensures p.before + p.after == u
  {
    assert u[..Cut(u, o)] + u[Cut(u, o)..] == u;
  }

  /** A move loses and duplicates nothing. */
  lemma {:induction false} MovePermutes(ms: seq<Member>, args: seq<Bytes>, o: Options)
    ensures var p := Split(ms, args, o); multiset(p.before + p.chosen + p.after) == multiset(ms)
  {
    var p, u := Split(ms, args, o), Unselected(ms, args, o.cmp);
    assert p.chosen == Selected(ms, args, o.cmp) && p.before + p.after == u by {
      SplitMeaning(ms, args, o);
      CutRejoined(p, u, o);
    }
    SelectionSplits(ms, args, o.cmp);
    ThreeParts(p.before, p.chosen, p.after, u, ms);
  }

  predicate OnSide(p: Parts, key: Member, o: Options) {
    if o.before then p.after != [] && p.after[0] == key
    else p.before != [] && p.before[|p.before| - 1] == key
  }

  /** The key ends up on the side the option asks for: first after the moved members, or last before them. */
  lemma {:induction false} KeySide(ms: seq<Member>, args: seq<Bytes>, o: Options)
    requires o.after || o.before
    ensures var p, u := Split(ms, args, o), Unselected(ms, args, o.cmp);
      !p.mods ==> KeyAt(u, o) < |u| && OnSide(p, u[KeyAt(u, o)], o)
  {
    SplitMeaning(ms, args, o);
  }

  // ---------- the result can be read again ----------

  lemma {:induction false} ImagesConcat(a: seq<Member>, b: seq<Member>)
    ensures Images(a + b) == Images(a) + Images(b)
  {
    if b == [] {
      assert a + b == a;
    } else {
      var n := |b| - 1;
      ImagesConcat(a, b[..n]);
      assert (a + b)[..|a + b| - 1] == a + b[..n];
      Assoc(Images(a), Images(b[..n]), Image(b[n]));
    }
  }

  lemma PartOk(dec: Decoder, ms: seq<Member>, part: seq<Member>)
    requires AllOk(dec, ms) && multiset(part) <= multiset(ms)
    ensures AllOk(dec, part)
  {
    forall i | 0 <= i < |part| ensures MemberOk(dec, part[i]) {
      assert part[i] in multiset(part);
      assert part[i] in ms;
    }
  }

  /** After a move the archive reads as the parts one after the other. */
  lemma {:induction false} MoveReadsBack(dec: Decoder, magic: Bytes, ms: seq<Member>, args: seq<Bytes>, o: Options)
    requires AllOk(dec, ms)
    ensures var p := Split(ms, args, o);
      Members(dec, magic + Images(p.before) + Images(p.chosen) + Images(p.after), |magic|) ==
        Some(p.before + p.chosen + p.after)
  {
    var p := Split(ms, args, o);
    var all := p.before + p.chosen + p.after;
    MovePermutes(ms, args, o);
    PartOk(dec, ms, all);
    ImagesConcat(p.before, p.chosen);
    ImagesConcat(p.before + p.chosen, p.after);
    Assoc(magic, Images(p.before), Images(p.chosen));
    Assoc(magic, Images(p.before) + Images(p.chosen), Images(p.after));
    MembersBack(dec, magic + Images(all), magic, all);
  }

  // ---------- an archive read so far ----------

  /** `seen` are the members before offset `at`; whether the archive can be read is decided after it. */
  ghost predicate Seen(dec: Decoder, bytes: Bytes, seen: seq<Member>, at: nat) {
    && (Members(dec, bytes, Sarmag).Some? <==> Members(dec, bytes, at).Some?)
    && (Members(dec, bytes, at).Some? ==> Members(dec, bytes, Sarmag) == Some(seen + Members(dec, bytes, at).value))
  }

  lemma SeenStep(dec: Decoder, bytes: Bytes, seen: seq<Member>, at: nat, m: Member, next: nat)
    requires Seen(dec, bytes, seen, at) && GetAt(dec, bytes, at) == Found(m.hb, m.hdr, next)
    requires 0 <= m.hdr.size && CopyEnd(m.hdr, next) <= |bytes| && m.data == bytes[next..next + m.hdr.size]
    ensures Seen(dec, bytes, seen + [m], CopyEnd(m.hdr, next))
  {
    var end := CopyEnd(m.hdr, next);
    if Members(dec, bytes, end).Some? {
      var rest := Members(dec, bytes, end).value;
      assert seen + ([m] + rest) == seen + [m] + rest;
    }
  }

  lemma SeenStart(dec: Decoder, bytes: Bytes)
    ensures Seen(dec, bytes, [], Sarmag)
  {
    if Members(dec, bytes, Sarmag).Some? {
      var ms := Members(dec, bytes, Sarmag).value;
      assert [] + ms == ms;
    }
  }
}
