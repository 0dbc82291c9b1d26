/**
 Which member an argument of ar names (bin/ar/misc.c): the one with the name after its last slash.
 */
module ArNames {
  import opened ArFormat
  import opened ArMembers
  import opened ArEdit

  lemma {:induction false} NoSlash(name: Bytes)
    requires '/' !in name
    ensures Rname(name) == name
  {
    if name != [] {
      assert name[|name| - 1] in name;
      NoSlash(name[..|name| - 1]);
    }
  }

  /** What is before the last slash does not count. */
  lemma {:induction false} RnameAfterSlash(dir: Bytes, name: Bytes)
    requires '/' !in name
    ensures Rname(dir + "/" + name) == name
  {
    var path := dir + "/" + name;
    if name == [] {
      assert path[|path| - 1] == '/';
    } else {
      var n := |name| - 1;
      assert name[n] in name && path[|path| - 1] == name[n];
      assert path[..|path| - 1] == dir + "/" + name[..n];
      RnameAfterSlash(dir, name[..n]);
    }
  }

  /** An argument names the members with its last component. */
  lemma NamesExactly(name: Bytes, dir: Bytes, last: Bytes)
    requires '/' !in last
    ensures Comparing(false)(name, dir + "/" + last) <==> name == last
    ensures Comparing(false)(name, last) <==> name == last
  {
    RnameAfterSlash(dir, last);
    NoSlash(last);
  }

  /** The first 15 characters are the same. */
  predicate Same15(a: Bytes, b: Bytes) {
    if |a| < 15 || |b| < 15 then a == b else a[..15] == b[..15]
  }

  /** With truncated names, those that agree in their first 15 characters. */
  lemma NamesTruncated(name: Bytes, dir: Bytes, last: Bytes)
    requires '/' !in last
    ensures Comparing(true)(name, dir + "/" + last) <==> Same15(name, last)
    ensures Comparing(true)(name, last) <==> Same15(name, last)
  {
    RnameAfterSlash(dir, last);
    NoSlash(last);
    FrontIs(name, last);
  }

  lemma FrontIs(a: Bytes, b: Bytes)
    ensures Front(a, 15) == Front(b, 15) <==> Same15(a, b)
  {
    assert |Front(a, 15)| == (if |a| <= 15 then |a| else 15) && |Front(b, 15)| == (if |b| <= 15 then |b| else 15);
    if |a| == 15 { assert a[..15] == a; }
    if |b| == 15 { assert b[..15] == b; }
  }

  // ---------- one argument ----------

  /** Member `i` is the first that the argument names. */
  predicate FirstNamed(ms: seq<Member>, arg: Bytes, cmp: Comparer, i: nat) {
    i < |ms| && cmp(ms[i].hdr.name, arg) && forall j :: 0 <= j < i ==> !cmp(ms[j].hdr.name, arg)
  }

  /** One more member that the argument does not name, or that comes after the one it names. */
  lemma NotThis(ms: seq<Member>, m: Member, arg: Bytes, cmp: Comparer)
    requires var left := ArgsLeft(ms, [arg], cmp); left == [] || (left == [arg] && !cmp(m.hdr.name, arg))
    ensures Selected(ms + [m], [arg], cmp) == Selected(ms, [arg], cmp)
    ensures Unselected(ms + [m], [arg], cmp) == Unselected(ms, [arg], cmp) + [m]
    ensures ArgsLeft(ms + [m], [arg], cmp) == ArgsLeft(ms, [arg], cmp)
  {
    SelectionSnoc(ms, m, [arg], cmp);
    MatchOne(arg, m.hdr.name, cmp);
  }

  /** The member it names. */
  lemma ThisOne(ms: seq<Member>, m: Member, arg: Bytes, cmp: Comparer)
    requires ArgsLeft(ms, [arg], cmp) == [arg] && cmp(m.hdr.name, arg)
    ensures Selected(ms + [m], [arg], cmp) == Selected(ms, [arg], cmp) + [m]
    ensures Unselected(ms + [m], [arg], cmp) == Unselected(ms, [arg], cmp)
    ensures ArgsLeft(ms + [m], [arg], cmp) == []
  {
    SelectionSnoc(ms, m, [arg], cmp);
    MatchOne(arg, m.hdr.name, cmp);
    assert WithoutAt([arg], 0) == [];
  }

  lemma {:induction false} NoneBefore(ms: seq<Member>, arg: Bytes, cmp: Comparer)
    requires forall j :: 0 <= j < |ms| ==> !cmp(ms[j].hdr.name, arg)
    ensures Selected(ms, [arg], cmp) == [] && Unselected(ms, [arg], cmp) == ms && ArgsLeft(ms, [arg], cmp) == [arg]
  {
    if ms != [] {
      var init, m := ms[..|ms| - 1], ms[|ms| - 1];
      assert ms == init + [m];
      NoneBefore(init, arg, cmp);
      NotThis(init, m, arg, cmp);
    }
  }

  lemma MatchOne(arg: Bytes, name: Bytes, cmp: Comparer)
    ensures Match([arg], name, cmp) == if cmp(name, arg) then 0 else 1
  {
    assert [arg][1..] == [];
  }

  /** One argument selects the first member it names and no other. */
  lemma {:induction false} SelectedOne(ms: seq<Member>, arg: Bytes, cmp: Comparer, i: nat)
    requires FirstNamed(ms, arg, cmp, i)
    ensures Selected(ms, [arg], cmp) == [ms[i]] && Unselected(ms, [arg], cmp) == ms[..i] + ms[i + 1..]
    ensures ArgsLeft(ms, [arg], cmp) == []
    decreases |ms|
  {
    var n := |ms| - 1;
    var init, m := ms[..n], ms[n];
    assert ms == init + [m];
    if i == n {
      NoneBefore(init, arg, cmp);
      ThisOne(init, m, arg, cmp);
      assert ms[i + 1..] == [];
    } else {
      SelectedOne(init, arg, cmp, i);
      NotThis(init, m, arg, cmp);
      assert init[..i] == ms[..i] && ms[i + 1..] == init[i + 1..] + [m];
    }
  }

  /** Naming a member by any path with its name as the last component removes the first member of that name. */
  lemma PathSelects(ms: seq<Member>, dir: Bytes, name: Bytes, i: nat)
    requires '/' !in name && i < |ms| && ms[i].hdr.name == name
    requires forall j :: 0 <= j < i ==> ms[j].hdr.name != name
    ensures var arg := dir + "/" + name;
      && Selected(ms, [arg], Comparing(false)) == [ms[i]] && ArgsLeft(ms, [arg], Comparing(false)) == []
      && Unselected(ms, [arg], Comparing(false)) == ms[..i] + ms[i + 1..]
  {
    var arg := dir + "/" + name;
    forall j | 0 <= j <= i ensures Comparing(false)(ms[j].hdr.name, arg) <==> j == i {
      NamesExactly(ms[j].hdr.name, dir, name);
    }
    SelectedOne(ms, arg, Comparing(false), i);
  }
}
