/**
 Edit distance by edit scripts, the reference for agrep's approximate matcher
 (bin/agrep/sgrep.c): the recurrence its bit rows compute and the pigeonhole principle its
 filter relies on.
 */
module AgrepEdit {
  /** One step of an edit script from a pattern to a text. */
  datatype Edit = Keep(c: int) | Sub(a: int, b: int) | Ins(b: int) | Del(a: int)

  /** A sequence of edits, growing at its end. */
  datatype Script = Done | Then(init: Script, last: Edit)

  function SrcOf(e: Edit): seq<int> {
    match e case Keep(c) => [c] case Sub(a, _) => [a] case Ins(_) => [] case Del(a) => [a]
  }

  function DstOf(e: Edit): seq<int> {
    match e case Keep(c) => [c] case Sub(_, b) => [b] case Ins(b) => [b] case Del(_) => []
  }

  function CostOf(e: Edit): nat { if e.Keep? then 0 else 1 }

  function Src(s: Script): seq<int> {
    if s.Done? then [] else Src(s.init) + SrcOf(s.last)
  }

  function Dst(s: Script): seq<int> {
    if s.Done? then [] else Dst(s.init) + DstOf(s.last)
  }

  function Cost(s: Script): nat {
    if s.Done? then 0 else Cost(s.init) + CostOf(s.last)
  }

  function Append(s: Script, t: Script): Script {
    if t.Done? then s else Then(Append(s, t.init), t.last)
  }

  /** `p` can be turned into `x` with at most `k` insertions, deletions and substitutions. */
  ghost predicate Within(p: seq<int>, x: seq<int>, k: nat) {
    exists s: Script :: Turns(s, p, x, k)
  }

  ghost predicate Turns(s: Script, p: seq<int>, x: seq<int>, k: nat) {
    Src(s) == p && Dst(s) == x && Cost(s) <= k
  }

  /** The first `j` characters of `p` are within `k` edits of some suffix of `t`. */
  ghost predicate Near(p: seq<int>, j: nat, t: seq<int>, k: nat)
    requires j <= |p|
  {
    exists i: nat :: i <= |t| && Within(p[..j], t[i..], k)
  }

  // ---------- scripts ----------

  lemma {:induction false} AppendParts(s: Script, t: Script)
    ensures Src(Append(s, t)) == Src(s) + Src(t)
    ensures Dst(Append(s, t)) == Dst(s) + Dst(t)
    ensures Cost(Append(s, t)) == Cost(s) + Cost(t)
  {
    if t.Then? {
      AppendParts(s, t.init);
      ConcatAssoc(Src(s), Src(t.init), SrcOf(t.last));
      ConcatAssoc(Dst(s), Dst(t.init), DstOf(t.last));
    }
  }

  lemma {:induction false} Lengths(s: Script)
    ensures |Dst(s)| <= |Src(s)| + Cost(s) && |Src(s)| <= |Dst(s)| + Cost(s)
  {
    if s.Then? { Lengths(s.init); }
  }

  /** A free script copies. */
  lemma {:induction false} Free(s: Script)
    requires Cost(s) == 0
    ensures Dst(s) == Src(s)
  {
    if s.Then? { Free(s.init); }
  }

  lemma {:induction false} Deletions(p: seq<int>) returns (s: Script)
    ensures Src(s) == p && Dst(s) == [] && Cost(s) == |p|
  {
    if p == [] {
      s := Done;
    } else {
      var n := |p| - 1;
      var t := Deletions(p[..n]);
      s := Then(t, Del(p[n]));
      assert p == p[..n] + [p[n]];
    }
  }

  /** A script can be cut wherever its pattern can. */
  lemma {:induction false} Cut(s: Script, n: nat) returns (a: Script, b: Script)
    requires n <= |Src(s)|
    ensures s == Append(a, b) && |Src(a)| == n
  {
    if n == |Src(s)| {
      a, b := s, Done;
    } else {
      var b': Script;
      a, b' := Cut(s.init, n);
      b := Then(b', s.last);
    }
  }

  // ---------- the recurrence ----------

  lemma NearNone(p: seq<int>, t: seq<int>, k: nat)
    ensures Near(p, 0, t, k)
  {
    assert t[|t|..] == [] && p[..0] == [];
    assert Turns(Done, [], [], k);
  }

  /** Against the empty text only deletions help. */
  lemma NearEmpty(p: seq<int>, j: nat, k: nat)
    requires j <= |p|
    ensures Near(p, j, [], k) <==> j <= k
  {
    if Near(p, j, [], k) {
      var i: nat :| i <= 0 && Within(p[..j], [][i..], k);
      var s: Script :| Turns(s, p[..j], [][i..], k);
      Lengths(s);
    }
    if j <= k {
      var s := Deletions(p[..j]);
      assert Turns(s, p[..j], [], k);
      var nil: seq<int> := [];
      assert nil[0..] == [];
      assert Within(p[..j], nil[0..], k);
    }
  }

  /** The right-hand side of the recurrence for one more text character. */
  ghost predicate NextNear(p: seq<int>, j: nat, t: seq<int>, c: int, k: nat)
    requires j < |p|
  {
    || (p[j] == c && Near(p, j, t, k))
    || (k > 0 && (Near(p, j + 1, t, k - 1) || Near(p, j, t, k - 1) || Near(p, j, t + [c], k - 1)))
  }

  lemma SnocInjective(a: seq<int>, x: int, b: seq<int>, y: int)
    requires a + [x] == b + [y]
    ensures a == b && x == y
  {
    assert |a| == |b|;
    assert (a + [x])[..|a|] == a && (b + [y])[..|b|] == b;
    assert (a + [x])[|a|] == x && (b + [y])[|b|] == y;
  }

  /** The last step of a script that turns `p + [q]` into `x + [c]`. */
  lemma LastStep(s: Script, p: seq<int>, q: int, x: seq<int>, c: int, k: nat)
    requires Turns(s, p + [q], x + [c], k)
    ensures (q == c && Within(p, x, k))
      || (k > 0 && (Within(p + [q], x, k - 1) || Within(p, x, k - 1) || Within(p, x + [c], k - 1)))
  {
    var r, e := s.init, s.last;
    match e
    case Keep(d) =>
      SnocInjective(Src(r), d, p, q);
      SnocInjective(Dst(r), d, x, c);
      assert Turns(r, p, x, k);
    case Sub(f, g) =>
      SnocInjective(Src(r), f, p, q);
      SnocInjective(Dst(r), g, x, c);
      assert Turns(r, p, x, k - 1);
    case Ins(g) =>
      SnocInjective(Dst(r), g, x, c);
      assert Turns(r, p + [q], x, k - 1);
    case Del(f) =>
      SnocInjective(Src(r), f, p, q);
      assert Turns(r, p, x + [c], k - 1);
  }

  /** The last step of a script that turns `p + [q]` into nothing. */
  lemma LastDeletion(s: Script, p: seq<int>, q: int, k: nat)
    requires Turns(s, p + [q], [], k)
    ensures k > 0 && Within(p, [], k - 1)
  {
    var r, e := s.init, s.last;
    assert e.Del?;
    SnocInjective(Src(r), e.a, p, q);
    assert Turns(r, p, [], k - 1);
  }

  lemma PrefixSnoc(p: seq<int>, j: nat)
    requires j < |p|
    ensures p[..j+1] == p[..j] + [p[j]]
  {
  }

  lemma NearUnfold(p: seq<int>, j: nat, t: seq<int>, c: int, k: nat)
    requires j < |p| && Near(p, j + 1, t + [c], k)
    ensures NextNear(p, j, t, c, k)
  {
    var t' := t + [c];
    var i: nat :| i <= |t'| && Within(p[..j+1], t'[i..], k);
    var s: Script :| Turns(s, p[..j+1], t'[i..], k);
    PrefixSnoc(p, j);
    if i == |t'| {
      assert t'[i..] == [];
      LastDeletion(s, p[..j], p[j], k);
    } else {
      assert t'[i..] == t[i..] + [c];
      LastStep(s, p[..j], p[j], t[i..], c, k);
    }
  }

  lemma Extend(p: seq<int>, x: seq<int>, k: nat, e: Edit, l: nat)
    requires Within(p, x, k) && k + CostOf(e) <= l
    ensures Within(p + SrcOf(e), x + DstOf(e), l)
  {
    var s :| Turns(s, p, x, k);
    assert Turns(Then(s, e), p + SrcOf(e), x + DstOf(e), l);
  }

  lemma NearFold(p: seq<int>, j: nat, t: seq<int>, c: int, k: nat)
    requires j < |p| && NextNear(p, j, t, c, k)
    ensures Near(p, j + 1, t + [c], k)
  {
    assert p[..j+1] == p[..j] + [p[j]];
    if p[j] == c && Near(p, j, t, k) {
      NearExtend(p, j, t, c, k, Keep(c), j + 1, k);
    } else if Near(p, j + 1, t, k - 1) {
      assert p[..j+1] + [] == p[..j+1];
      NearExtend(p, j + 1, t, c, k - 1, Ins(c), j + 1, k);
    } else if Near(p, j, t, k - 1) {
      NearExtend(p, j, t, c, k - 1, Sub(p[j], c), j + 1, k);
    } else {
      NearDelete(p, j, t + [c], k);
    }
  }

  lemma NearDelete(p: seq<int>, j: nat, t: seq<int>, k: nat)
    requires j < |p| && k > 0 && Near(p, j, t, k - 1)
    ensures Near(p, j + 1, t, k)
  {
    var i: nat :| i <= |t| && Within(p[..j], t[i..], k - 1);
    assert t[i..] + [] == t[i..] && p[..j+1] == p[..j] + [p[j]];
    Extend(p[..j], t[i..], k - 1, Del(p[j]), k);
  }

  lemma NearExtend(p: seq<int>, j: nat, t: seq<int>, c: int, k: nat, e: Edit, j': nat, k': nat)
    requires j <= |p| && Near(p, j, t, k) && DstOf(e) == [c] && k + CostOf(e) <= k'
    requires j' <= |p| && p[..j'] == p[..j] + SrcOf(e)
    ensures Near(p, j', t + [c], k')
  {
    var i: nat :| i <= |t| && Within(p[..j], t[i..], k);
    assert (t + [c])[i..] == t[i..] + [c];
    Extend(p[..j], t[i..], k, e, k');
  }

  /** One more text character, in terms of the previous column and the previous row. */
  lemma NearStep(p: seq<int>, j: nat, t: seq<int>, c: int, k: nat)
    requires j < |p|
    ensures Near(p, j + 1, t + [c], k) <==> NextNear(p, j, t, c, k)
  {
    if Near(p, j + 1, t + [c], k) { NearUnfold(p, j, t, c, k); }
    if NextNear(p, j, t, c, k) { NearFold(p, j, t, c, k); }
  }

  // ---------- the pigeonhole principle ----------

  /** Where block number `b` from the end of `n` characters begins. */
  function BlockStart(n: int, m: nat, b: nat): int
    decreases b
  {
    if b == 0 then n - m else BlockStart(n - m, m, b - 1)
  }

  lemma {:induction false} BlockStartIs(n: int, m: nat, b: nat)
    ensures BlockStart(n, m, b) == n - m * (b + 1)
    decreases b
  {
    if b > 0 {
      BlockStartIs(n - m, m, b - 1);
      assert m * (b + 1) == m * b + m;
    }
  }

  /**
   If `d + 1` disjoint blocks of length `m` are cut off the end of the pattern, at most `d`
   edits leave one of them untouched, and the text around it is at most `d` longer than the
   pattern around it.
   */
  lemma {:induction false} Pigeonhole(s: Script, m: nat, d: nat)
    returns (b: nat, y: seq<int>, z: seq<int>)
    requires Cost(s) <= d && 0 <= BlockStart(|Src(s)|, m, d)
    ensures b <= d && UntouchedBlock(s, m, b, y, z)
    decreases d
  {
    BlockStartBound(|Src(s)|, m, d);
    var u, v := CutBlock(s, m);
    if Cost(v) == 0 {
      b, y, z := 0, Dst(u), [];
      LastUntouched(s, u, v, m);
    } else {
      var b', z';
      b', y, z' := Pigeonhole(u, m, d - 1);
      b, z := b' + 1, z' + Dst(v);
      EarlierUntouched(s, u, v, m, b', y, z');
    }
  }

  /** Block `b` of the pattern of a script is in its text, between `y` and `z`. */
  ghost predicate UntouchedBlock(s: Script, m: nat, b: nat, y: seq<int>, z: seq<int>) {
    Untouched(Src(s), Dst(s), Cost(s), m, BlockStart(|Src(s)|, m, b), y, z)
  }

  ghost predicate Joins(s: Script, u: Script, v: Script) {
    Src(s) == Src(u) + Src(v) && Dst(s) == Dst(u) + Dst(v) && Cost(s) == Cost(u) + Cost(v)
  }

  lemma LastUntouched(s: Script, u: Script, v: Script, m: nat)
    requires Joins(s, u, v) && |Src(v)| == m && Cost(v) == 0
    ensures UntouchedBlock(s, m, 0, Dst(u), [])
  {
    Free(v);
    Lengths(u);
    assert Dst(s) == Dst(u) + Src(v) && BlockStart(|Src(s)|, m, 0) == |Src(u)|;
    LastBlock(Src(s), Dst(s), Cost(s), Src(u), Dst(u), Src(v));
  }

  lemma EarlierUntouched(s: Script, u: Script, v: Script, m: nat, b: nat, y: seq<int>, z: seq<int>)
    requires Joins(s, u, v) && |Src(v)| == m && UntouchedBlock(u, m, b, y, z)
    ensures UntouchedBlock(s, m, b + 1, y, z + Dst(v))
  {
    Lengths(v);
    var lo := BlockStart(|Src(u)|, m, b);
    assert BlockStart(|Src(s)|, m, b + 1) == lo;
    EarlierBlock(Src(s), Dst(s), Cost(s), Src(u), Dst(u), Cost(u), Src(v), Dst(v), m, lo, y, z);
  }

  /** The script for the last block, and what goes before it. */
  lemma CutBlock(s: Script, m: nat) returns (u: Script, v: Script)
    requires m <= |Src(s)|
    ensures Joins(s, u, v) && |Src(u)| == |Src(s)| - m && |Src(v)| == m
  {
    u, v := Cut(s, |Src(s)| - m);
    AppendParts(u, v);
  }

  /** The block of `src` beginning at `lo` is in `dst`, between `y` and `z`, which are not too long. */
  ghost predicate Untouched(src: seq<int>, dst: seq<int>, cost: nat, m: nat, lo: int, y: seq<int>, z: seq<int>) {
    Between(src, dst, m, lo, y, z) && |y| <= lo + cost && |z| <= |src| - (lo + m) + cost
  }

  ghost predicate Between(src: seq<int>, dst: seq<int>, m: nat, lo: int, y: seq<int>, z: seq<int>) {
    0 <= lo <= |src| - m && dst == y + src[lo..lo+m] + z
  }

  lemma EarlierBlock(all: seq<int>, out: seq<int>, total: nat, src: seq<int>, dst: seq<int>, cost: nat, src': seq<int>,
                     dst': seq<int>,
                     m: nat, lo: int, y: seq<int>, z: seq<int>)
    requires all == src + src' && out == dst + dst' && total >= cost
    requires Untouched(src, dst, cost, m, lo, y, z) && |dst'| <= |src'| + (total - cost)
    ensures Untouched(all, out, total, m, lo, y, z + dst')
  {
    PrefixSlice(src, src', lo, lo + m);
    ConcatAssoc(y + src[lo..lo+m], z, dst');
  }

  lemma LastBlock(all: seq<int>, out: seq<int>, cost: nat, src: seq<int>, dst: seq<int>, src': seq<int>)
    requires all == src + src' && out == dst + src' && |dst| <= |src| + cost
    ensures Untouched(all, out, cost, |src'|, |src|, dst, [])
  {
    assert (src + src')[|src|..|src| + |src'|] == src';
    assert dst + src' + [] == dst + src';
  }

  lemma PrefixSlice(a: seq<int>, b: seq<int>, lo: nat, hi: nat)
    requires lo <= hi <= |a|
    ensures (a + b)[lo..hi] == a[lo..hi]
  {
  }

  lemma ConcatAssoc(a: seq<int>, b: seq<int>, c: seq<int>)
    ensures a + b + c == a + (b + c)
  {
  }

  lemma {:induction false} BlockStartBound(n: int, m: nat, b: nat)
    ensures BlockStart(n, m, b) <= n - m
    decreases b
  {
    if b > 0 { BlockStartBound(n - m, m, b - 1); }
  }
}
