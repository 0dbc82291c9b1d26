/**
 bin/bison/warshall.c: the transitive closure `TC` and the reflexive transitive closure `RTC`
 of a square bit matrix, computed in place, against paths in the graph of the matrix.
 */
module BisonWarshall {
  type Rel = set<(nat, nat)>

  /** Consecutive nodes of `p` are related. */
  ghost predicate IsPath(rel: Rel, p: seq<nat>) {
    |p| >= 1 && forall t :: 0 <= t < |p| - 1 ==> Edge(rel, p[t], p[t + 1])
  }

  ghost predicate Edge(rel: Rel, i: nat, j: nat) { (i, j) in rel }

  ghost predicate PathFromTo(rel: Rel, p: seq<nat>, i: nat, j: nat) {
    IsPath(rel, p) && p[0] == i && p[|p| - 1] == j
  }

  /** `j` can be reached from `i` in zero or more steps. */
  ghost predicate Reach(rel: Rel, i: nat, j: nat) {
    exists p: seq<nat> :: PathFromTo(rel, p, i, j)
  }

  /** `j` can be reached from `i` in one or more steps. */
  ghost predicate ReachPlus(rel: Rel, i: nat, j: nat) {
    exists p: seq<nat> :: |p| >= 2 && PathFromTo(rel, p, i, j)
  }

  /** Warshall's recursion: `j` is reached from `i` with every node between them below `k`. */
  ghost predicate Via(rel: Rel, k: nat, i: nat, j: nat) {
    if k == 0 then (i, j) in rel
    else Via(rel, k - 1, i, j) || (Via(rel, k - 1, i, k - 1) && Via(rel, k - 1, k - 1, j))
  }

  // ---------- paths ----------

  lemma ReachSelf(rel: Rel, i: nat)
    ensures Reach(rel, i, i)
  {
    assert PathFromTo(rel, [i], i, i);
  }

  lemma ReachEdge(rel: Rel, i: nat, j: nat, k: nat)
    requires (i, j) in rel && Reach(rel, j, k)
    ensures ReachPlus(rel, i, k) && Reach(rel, i, k)
  {
    var p :| PathFromTo(rel, p, j, k);
    var q := [i] + p;
    forall t | 0 <= t < |q| - 1 ensures Edge(rel, q[t], q[t + 1]) {
      if t > 0 { assert Edge(rel, p[t - 1], p[t]); }
    }
    assert PathFromTo(rel, q, i, k);
  }

  lemma Concat(rel: Rel, p: seq<nat>, q: seq<nat>, i: nat, j: nat, k: nat)
    requires PathFromTo(rel, p, i, j) && PathFromTo(rel, q, j, k)
    ensures PathFromTo(rel, p + q[1..], i, k)
  {
    var r := p + q[1..];
    forall t | 0 <= t < |r| - 1 ensures Edge(rel, r[t], r[t + 1]) {
      if t < |p| - 1 {
        assert Edge(rel, p[t], p[t + 1]);
      } else {
        assert r[t] == q[t - |p| + 1] && r[t + 1] == q[t - |p| + 2];
        assert Edge(rel, q[t - |p| + 1], q[t - |p| + 2]);
      }
    }
  }

  lemma ReachTrans(rel: Rel, i: nat, j: nat, k: nat)
    requires Reach(rel, i, j) && Reach(rel, j, k)
    ensures Reach(rel, i, k)
  {
    var p :| PathFromTo(rel, p, i, j);
    var q :| PathFromTo(rel, q, j, k);
    Concat(rel, p, q, i, j, k);
  }

  // ---------- Warshall's recursion is reachability ----------

  lemma {:induction false} ViaPath(rel: Rel, k: nat, i: nat, j: nat)
    requires Via(rel, k, i, j)
    ensures ReachPlus(rel, i, j)
  {
    if k == 0 {
      assert PathFromTo(rel, [i, j], i, j) by { assert Edge(rel, i, j); }
    } else if Via(rel, k - 1, i, j) {
      ViaPath(rel, k - 1, i, j);
    } else {
      ViaPath(rel, k - 1, i, k - 1);
      ViaPath(rel, k - 1, k - 1, j);
      var p: seq<nat> :| |p| >= 2 && PathFromTo(rel, p, i, k - 1);
      var q: seq<nat> :| |q| >= 2 && PathFromTo(rel, q, k - 1, j);
      Concat(rel, p, q, i, k - 1, j);
    }
  }

  lemma {:induction false} ViaMono(rel: Rel, k: nat, l: nat, i: nat, j: nat)
    requires k <= l && Via(rel, k, i, j)
    ensures Via(rel, l, i, j)
    decreases l
  {
    if k < l { ViaMono(rel, k, l - 1, i, j); }
  }

  lemma {:induction false} ViaTrans(rel: Rel, k: nat, i: nat, m: nat, j: nat)
    requires m < k && Via(rel, k, i, m) && Via(rel, k, m, j)
    ensures Via(rel, k, i, j)
    decreases k
  {
    var l := k - 1;
    if m < l {
      if Via(rel, l, i, m) && Via(rel, l, m, j) {
        ViaTrans(rel, l, i, m, j);
      } else if Via(rel, l, i, m) {
        ViaTrans(rel, l, i, m, l);
      } else if Via(rel, l, m, j) {
        ViaTrans(rel, l, l, m, j);
      }
    }
  }

  lemma {:induction false} PathVia(rel: Rel, n: nat, p: seq<nat>, i: nat, j: nat)
    requires PathFromTo(rel, p, i, j) && |p| >= 2
    requires forall a: nat, b: nat :: (a, b) in rel ==> a < n && b < n
    ensures Via(rel, n, i, j)
    decreases |p|
  {
    assert Edge(rel, p[0], p[1]);
    ViaMono(rel, 0, n, i, p[1]);
    if |p| > 2 {
      var q := p[1..];
      forall t | 0 <= t < |q| - 1 ensures Edge(rel, q[t], q[t + 1]) { assert Edge(rel, p[t + 1], p[t + 2]); }
      assert PathFromTo(rel, q, p[1], j);
      PathVia(rel, n, q, p[1], j);
      ViaTrans(rel, n, i, p[1], j);
    }
  }

  /** On `n` nodes the recursion taken to `n` is reachability in one or more steps. */
  lemma ViaIsReachPlus(rel: Rel, n: nat, i: nat, j: nat)
    requires forall a: nat, b: nat :: (a, b) in rel ==> a < n && b < n
    ensures Via(rel, n, i, j) <==> ReachPlus(rel, i, j)
  {
    if Via(rel, n, i, j) { ViaPath(rel, n, i, j); }
    if ReachPlus(rel, i, j) {
      var p: seq<nat> :| |p| >= 2 && PathFromTo(rel, p, i, j);
      PathVia(rel, n, p, i, j);
    }
  }

  // ---------- the matrix ----------

  /** `TC`: row `j` takes in row `i` wherever bit `i` of row `j` is set, for each `i` in turn. */
  method TC(r: array2<bool>, ghost rel: Rel)
    requires r.Length0 == r.Length1
    requires forall i: nat, j: nat :: i < r.Length0 && j < r.Length0 ==> (r[i, j] <==> (i, j) in rel)
    modifies r
    ensures forall i: nat, j: nat :: i < r.Length0 && j < r.Length0 ==> (r[i, j] <==> Via(rel, r.Length0, i, j))
  {
    var n := r.Length0;
    for i := 0 to n
      invariant forall x: nat, y: nat :: x < n && y < n ==> (r[x, y] <==> Via(rel, i, x, y))
    {
      for j := 0 to n
        invariant forall x: nat, y: nat :: x < j && y < n ==> (r[x, y] <==> Via(rel, i + 1, x, y))
        invariant forall x: nat, y: nat :: j <= x < n && y < n ==> (r[x, y] <==> Via(rel, i, x, y))
        invariant forall y: nat :: y < n ==> (r[i, y] <==> Via(rel, i, i, y))
      {
        if r[j, i] {
          OrRow(r, j, i);
        }
      }
    }
  }

  /** The words of row `i` or-ed into row `j`. */
  method OrRow(r: array2<bool>, j: nat, i: nat)
    requires i < r.Length0 && j < r.Length0
    modifies r
    ensures forall y :: 0 <= y < r.Length1 ==> r[j, y] == (old(r[j, y]) || old(r[i, y]))
    ensures forall x, y :: 0 <= x < r.Length0 && x != j && 0 <= y < r.Length1 ==> r[x, y] == old(r[x, y])
  {
    for b := 0 to r.Length1
      invariant forall y :: 0 <= y < b ==> r[j, y] == (old(r[j, y]) || old(r[i, y]))
      invariant forall x, y :: 0 <= x < r.Length0 && 0 <= y < r.Length1 && (x != j || y >= b) ==>
        r[x, y] == old(r[x, y])
    {
      r[j, b] := r[j, b] || r[i, b];
    }
  }

  /** `RTC`: `TC` and then the diagonal. */
  method RTC(r: array2<bool>, ghost rel: Rel)
    requires r.Length0 == r.Length1
    requires forall a: nat, b: nat :: (a, b) in rel ==> a < r.Length0 && b < r.Length0
    requires forall i: nat, j: nat :: i < r.Length0 && j < r.Length0 ==> (r[i, j] <==> (i, j) in rel)
    modifies r
    ensures forall i: nat, j: nat :: i < r.Length0 && j < r.Length0 ==> (r[i, j] <==> Reach(rel, i, j))
  {
    TC(r, rel);
    ghost var n := r.Length0;
    for i := 0 to r.Length0
      invariant forall x: nat, y: nat :: x < n && y < n ==>
        (r[x, y] <==> Via(rel, n, x, y) || (x == y && x < i))
    {
      r[i, i] := true;
    }
    forall i: nat, j: nat | i < n && j < n ensures r[i, j] <==> Reach(rel, i, j) {
      ViaIsReachPlus(rel, n, i, j);
      ReachCases(rel, i, j);
    }
  }

  lemma ReachCases(rel: Rel, i: nat, j: nat)
    ensures Reach(rel, i, j) <==> i == j || ReachPlus(rel, i, j)
  {
    if Reach(rel, i, j) && i != j {
      var p: seq<nat> :| PathFromTo(rel, p, i, j);
      assert |p| >= 2;
    }
    ReachSelf(rel, i);
  }
}
