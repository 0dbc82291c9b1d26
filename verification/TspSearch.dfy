/**
 benchmarks/tsp/tsp.c: branch and bound over paths through all towns, for any number of towns.
 */
module TspSearch {

  /** Row `a` lists the other ends of the roads out of town `a` and their lengths. */
  datatype Road = Road(toTown: nat, dis: nat)
  type Map = seq<seq<Road>>

  /** Every row lists every town once. */
  ghost predicate Complete(m: Map) {
    forall a :: 0 <= a < |m| ==> RowComplete(m[a], |m|)
  }

  ghost predicate RowComplete(row: seq<Road>, n: nat) {
    && |row| == n && (forall i :: 0 <= i < n ==> row[i].toTown < n)
    && (forall i, j :: 0 <= i < j < n ==> row[i].toTown != row[j].toTown)
    && (forall b :: 0 <= b < n ==> Listed(row, b))
  }

  ghost predicate Listed(row: seq<Road>, b: int) { exists i :: 0 <= i < |row| && row[i].toTown == b }

  /** The length of the road from `a` to `b`. */
  ghost function Dist(m: Map, a: nat, b: nat): nat
    requires Complete(m) && a < |m| && b < |m|
  {
    assert RowComplete(m[a], |m|) && Listed(m[a], b);
    var i :| 0 <= i < |m[a]| && m[a][i].toTown == b;
    m[a][i].dis
  }

  lemma DistAt(m: Map, a: nat, i: nat)
    requires Complete(m) && a < |m| && i < |m[a]|
    ensures m[a][i].toTown < |m| && Dist(m, a, m[a][i].toTown) == m[a][i].dis
  {
    assert RowComplete(m[a], |m|);
  }

  ghost predicate Towns(m: Map, p: seq<nat>) { forall i :: 0 <= i < |p| ==> p[i] < |m| }

  ghost predicate Distinct(p: seq<nat>) { forall i, j :: 0 <= i < j < |p| ==> p[i] != p[j] }

  /** A path visits no town twice. */
  ghost predicate IsPath(m: Map, p: seq<nat>) { Towns(m, p) && Distinct(p) }

  ghost function Length(m: Map, p: seq<nat>): nat
    requires Complete(m) && Towns(m, p)
  {
    if |p| <= 1 then 0
    else Length(m, p[..|p| - 1]) + Dist(m, p[|p| - 2], p[|p| - 1])
  }

  /** A path through all towns that begins with `p`. */
  ghost predicate Tour(m: Map, p: seq<nat>, t: seq<nat>) {
    |t| == |m| && IsPath(m, t) && p <= t
  }

  /** A longer path is no shorter. */
  lemma {:induction false} PrefixShorter(m: Map, p: seq<nat>, t: seq<nat>)
    requires Complete(m) && Towns(m, t) && p <= t
    ensures Towns(m, p) && Length(m, p) <= Length(m, t)
    decreases |t| - |p|
  {
    if |p| < |t| {
      PrefixShorter(m, p, t[..|t| - 1]);
    } else {
      assert p == t;
    }
  }

  lemma LengthSnoc(m: Map, p: seq<nat>, e: nat)
    requires Complete(m) && Towns(m, p) && p != [] && e < |m|
    ensures Length(m, p + [e]) == Length(m, p) + Dist(m, p[|p| - 1], e)
  {
    assert (p + [e])[..|p|] == p;
  }

  /** `bound` is at most the length of every tour that begins with `p`. */
  ghost predicate Below(m: Map, bound: int, p: seq<nat>)
    requires Complete(m)
  {
    forall t :: Tour(m, p, t) ==> bound <= Length(m, t)
  }

  /** `best` is a tour that begins with `p` and `bound` is its length. */
  ghost predicate Attains(m: Map, bound: int, p: seq<nat>, best: seq<nat>)
    requires Complete(m)
  {
    Tour(m, p, best) && Length(m, best) == bound
  }

  /** What searching the tours that begin with `p` does to the bound and the best path. */
  ghost predicate Searched(m: Map, p: seq<nat>, min0: int, best0: seq<nat>, min: int, best: seq<nat>)
    requires Complete(m)
  {
    && min <= min0 && Below(m, min, p)
    && (if min < min0 then Attains(m, min, p, best) else best == best0)
  }

  /** The tours that go on with one of the first `i` towns of the row have been searched. */
  ghost predicate SearchedRow(m: Map, p: seq<nat>, row: seq<Road>, i: nat, min0: int, best0: seq<nat>, min: int,
                              best: seq<nat>)
    requires Complete(m) && i <= |row|
  {
    && min <= min0
    && (forall j :: 0 <= j < i ==> Below(m, min, p + [row[j].toTown]))
    && (if min < min0 then Attains(m, min, p, best) else best == best0)
  }

  /** All towns of the row searched: all tours searched. */
  lemma RowSearched(m: Map, p: seq<nat>, row: seq<Road>, min0: int, best0: seq<nat>, min: int, best: seq<nat>)
    requires Complete(m) && RowComplete(row, |m|) && |p| < |m|
    requires SearchedRow(m, p, row, |row|, min0, best0, min, best)
    ensures Searched(m, p, min0, best0, min, best)
  {
    forall t | Tour(m, p, t) ensures min <= Length(m, t) {
      var e := t[|p|];
      assert Listed(row, e);
      var j :| 0 <= j < |row| && row[j].toTown == e;
      assert t[..|p| + 1] == p + [e];
      assert Tour(m, p + [row[j].toTown], t);
    }
  }

  /** A town already visited: no tour goes there. */
  lemma NoReturn(m: Map, p: seq<nat>, e: nat, min: int)
    requires Complete(m) && e in p
    ensures Below(m, min, p + [e])
  {
    var k :| 0 <= k < |p| && p[k] == e;
    forall t ensures !Tour(m, p + [e], t) {
      if p + [e] <= t { Repeats(m, p, e, t, k); }
    }
  }

  lemma Repeats(m: Map, p: seq<nat>, e: nat, t: seq<nat>, k: nat)
    requires k < |p| && p[k] == e && p + [e] <= t
    ensures !IsPath(m, t)
  {
    assert t[k] == (p + [e])[k] && t[|p|] == (p + [e])[|p|];
  }

  /** One more town of the row searched, by the recursive call. */
  lemma RowStep(m: Map, p: seq<nat>, row: seq<Road>, i: nat, min0: int, best0: seq<nat>, min1: int, best1: seq<nat>,
                min: int, best: seq<nat>)
    requires Complete(m) && i < |row| && SearchedRow(m, p, row, i, min0, best0, min1, best1)
    requires Searched(m, p + [row[i].toTown], min1, best1, min, best)
    ensures SearchedRow(m, p, row, i + 1, min0, best0, min, best)
  {
    forall j | 0 <= j < i + 1 ensures Below(m, min, p + [row[j].toTown]) {
      if j < i { StillBelow(m, min1, min, p + [row[j].toTown]); }
    }
    if min < min1 { AttainsFrom(m, min, p, row[i].toTown, best); }
  }

  lemma StillBelow(m: Map, min1: int, min: int, p: seq<nat>)
    requires Complete(m) && Below(m, min1, p) && min <= min1
    ensures Below(m, min, p)
  {
  }

  lemma AttainsFrom(m: Map, min: int, p: seq<nat>, e: nat, best: seq<nat>)
    requires Complete(m) && Attains(m, min, p + [e], best)
    ensures Attains(m, min, p, best)
  {
    assert p <= p + [e];
  }

  /** A town of the row passed over because it has been visited. */
  lemma RowSkip(m: Map, p: seq<nat>, row: seq<Road>, i: nat, min0: int, best0: seq<nat>, min: int, best: seq<nat>)
    requires Complete(m) && i < |row| && SearchedRow(m, p, row, i, min0, best0, min, best) && row[i].toTown in p
    ensures SearchedRow(m, p, row, i + 1, min0, best0, min, best)
  {
    NoReturn(m, p, row[i].toTown, min);
  }

  /** The path one town longer. */
  lemma PathSnoc(m: Map, p: seq<nat>, i: nat)
    requires Complete(m) && IsPath(m, p) && p != [] && i < |m[p[|p| - 1]]|
    requires m[p[|p| - 1]][i].toTown !in p
    ensures var road := m[p[|p| - 1]][i];
      IsPath(m, p + [road.toTown]) && Length(m, p + [road.toTown]) == Length(m, p) + road.dis
  {
    DistAt(m, p[|p| - 1], i);
    LengthSnoc(m, p, m[p[|p| - 1]][i].toTown);
  }

  // ---------- which paths are entered ----------

  /** The path can be searched further: it is shorter than `bound`. */
  ghost predicate Shorter(m: Map, q: seq<nat>, bound: int)
    requires Complete(m)
  {
    IsPath(m, q) && Length(m, q) < bound
  }

  /**
   What searching the paths that begin with `p` does to the set of paths entered: only such paths
   shorter than the bound before are added, and all that are shorter than the bound after are there.
   */
  ghost predicate Entered(m: Map, p: seq<nat>, min0: int, min: int, was: set<seq<nat>>, now: set<seq<nat>>)
    requires Complete(m)
  {
    && was <= now
    && (forall q :: q in now && q !in was ==> p <= q && Shorter(m, q, min0))
    && (forall q :: p <= q && Shorter(m, q, min) ==> q in now)
  }

  /** No path that begins with `p` has been entered. */
  ghost predicate Untried(p: seq<nat>, ps: set<seq<nat>>) { forall q :: q in ps ==> !(p <= q) }

  /** `q` is `p`, or goes on with one of the first `i` towns of the row. */
  ghost predicate Within(p: seq<nat>, row: seq<Road>, i: nat, q: seq<nat>)
    requires i <= |row|
  {
    q == p || exists j :: 0 <= j < i && p + [row[j].toTown] <= q
  }

  /** The same when the first `i` towns of the row have been tried. */
  ghost predicate EnteredRow(m: Map, p: seq<nat>, row: seq<Road>, i: nat, min0: int, min: int,
                             was: set<seq<nat>>, now: set<seq<nat>>)
    requires Complete(m) && i <= |row|
  {
    && was <= now && Untried(p, was)
    && (forall q :: q in now && q !in was ==> Within(p, row, i, q) && Shorter(m, q, min0))
    && (forall q :: Within(p, row, i, q) && Shorter(m, q, min) ==> q in now)
  }

  lemma PrunedEntered(m: Map, p: seq<nat>, min: int, was: set<seq<nat>>)
    requires Complete(m) && Towns(m, p) && min <= Length(m, p)
    ensures Entered(m, p, min, min, was, was)
  {
    forall q | p <= q && IsPath(m, q) ensures min <= Length(m, q) { PrefixShorter(m, p, q); }
  }

  /** A path through all towns: nothing begins with it that is shorter than it. */
  lemma TourEntered(m: Map, p: seq<nat>, min0: int, was: set<seq<nat>>)
    requires Complete(m) && Shorter(m, p, min0)
    ensures Entered(m, p, min0, Length(m, p), was, was + {p})
  {
    forall q | p <= q && IsPath(m, q) ensures Length(m, p) <= Length(m, q) { PrefixShorter(m, p, q); }
  }

  lemma RowBegun(m: Map, p: seq<nat>, row: seq<Road>, min0: int, was: set<seq<nat>>)
    requires Complete(m) && Shorter(m, p, min0) && Untried(p, was)
    ensures EnteredRow(m, p, row, 0, min0, min0, was, was + {p})
  {
  }

  lemma RowDone(m: Map, p: seq<nat>, row: seq<Road>, min0: int, min: int, was: set<seq<nat>>, now: set<seq<nat>>)
    requires Complete(m) && RowComplete(row, |m|) && EnteredRow(m, p, row, |row|, min0, min, was, now)
    ensures Entered(m, p, min0, min, was, now)
  {
    forall q | p <= q && Shorter(m, q, min) ensures Within(p, row, |row|, q) {
      if q != p {
        var e := q[|p|];
        assert Listed(row, e);
        var j :| 0 <= j < |row| && row[j].toTown == e;
        assert q[..|p| + 1] == p + [e];
      }
    }
    forall q | q in now && q !in was ensures p <= q {
      assert Within(p, row, |row|, q);
    }
  }

  /** A town visited before: no path goes on there. */
  lemma RowPassed(m: Map, p: seq<nat>, row: seq<Road>, i: nat, min0: int, min: int, was: set<seq<nat>>,
                  now: set<seq<nat>>)
    requires Complete(m) && i < |row| && EnteredRow(m, p, row, i, min0, min, was, now) && row[i].toTown in p
    ensures EnteredRow(m, p, row, i + 1, min0, min, was, now)
  {
    var e := row[i].toTown;
    var k :| 0 <= k < |p| && p[k] == e;
    forall q | Within(p, row, i + 1, q) && Shorter(m, q, min) ensures q in now {
      if !Within(p, row, i, q) { Repeats(m, p, e, q, k); }
    }
    StillWithin(p, row, i, was, now);
  }

  lemma StillWithin(p: seq<nat>, row: seq<Road>, i: nat, was: set<seq<nat>>, now: set<seq<nat>>)
    requires i < |row| && forall q :: q in now && q !in was ==> Within(p, row, i, q)
    ensures forall q :: q in now && q !in was ==> Within(p, row, i + 1, q)
  {
  }

  /** The next town of the row leads to paths not yet tried. */
  lemma NextUntried(m: Map, p: seq<nat>, row: seq<Road>, i: nat, min0: int, min: int, was: set<seq<nat>>,
                    now: set<seq<nat>>)
    requires Complete(m) && RowComplete(row, |m|) && i < |row| && EnteredRow(m, p, row, i, min0, min, was, now)
    ensures Untried(p + [row[i].toTown], now)
  {
    var e := row[i].toTown;
    forall q | q in now ensures !(p + [e] <= q) {
      if q in was {
        assert !(p <= q) && p <= p + [e];
      } else {
        assert Within(p, row, i, q);
        if j :| 0 <= j < i && p + [row[j].toTown] <= q { OtherTown(p, row[j].toTown, e, q); }
      }
    }
  }

  lemma OtherTown(p: seq<nat>, a: nat, b: nat, q: seq<nat>)
    requires a != b && p + [a] <= q
    ensures !(p + [b] <= q)
  {
    assert (p + [a])[|p|] == a && (p + [b])[|p|] == b;
  }

  /** The next town tried. */
  lemma RowEntered(m: Map, p: seq<nat>, row: seq<Road>, i: nat, min0: int, min1: int, min: int, was: set<seq<nat>>,
                   mid: set<seq<nat>>, now: set<seq<nat>>)
    requires Complete(m) && i < |row| && EnteredRow(m, p, row, i, min0, min1, was, mid) && min <= min1 <= min0
    requires Entered(m, p + [row[i].toTown], min1, min, mid, now)
    ensures EnteredRow(m, p, row, i + 1, min0, min, was, now)
  {
    forall q | q in now && q !in was ensures Within(p, row, i + 1, q) && Shorter(m, q, min0) {
      if q in mid { assert Within(p, row, i, q); }
    }
    forall q | Within(p, row, i + 1, q) && Shorter(m, q, min) ensures q in now {
      if Within(p, row, i, q) { assert Shorter(m, q, min1); }
    }
  }

  /** Bound, best path and paths entered when the first `i` towns of the row have been tried. */
  ghost predicate RowSoFar(m: Map, p: seq<nat>, row: seq<Road>, i: nat, min0: int, best0: seq<nat>, was: set<seq<nat>>,
                           min: int, best: seq<nat>, now: set<seq<nat>>)
    requires Complete(m) && i <= |row|
  {
    SearchedRow(m, p, row, i, min0, best0, min, best) && EnteredRow(m, p, row, i, min0, min, was, now)
  }

  lemma RoadPassed(m: Map, p: seq<nat>, row: seq<Road>, i: nat, min0: int, best0: seq<nat>, was: set<seq<nat>>,
                   min: int, best: seq<nat>, now: set<seq<nat>>)
    requires Complete(m) && i < |row| && RowSoFar(m, p, row, i, min0, best0, was, min, best, now)
    requires row[i].toTown in p
    ensures RowSoFar(m, p, row, i + 1, min0, best0, was, min, best, now)
  {
    RowSkip(m, p, row, i, min0, best0, min, best);
    RowPassed(m, p, row, i, min0, min, was, now);
  }

  lemma RoadTaken(m: Map, p: seq<nat>, row: seq<Road>, i: nat, min0: int, best0: seq<nat>, was: set<seq<nat>>,
                  min1: int, best1: seq<nat>, mid: set<seq<nat>>, min: int, best: seq<nat>, now: set<seq<nat>>)
    requires Complete(m) && i < |row| && RowSoFar(m, p, row, i, min0, best0, was, min1, best1, mid)
    requires Searched(m, p + [row[i].toTown], min1, best1, min, best)
    requires Entered(m, p + [row[i].toTown], min1, min, mid, now)
    ensures RowSoFar(m, p, row, i + 1, min0, best0, was, min, best, now)
  {
    RowStep(m, p, row, i, min0, best0, min1, best1, min, best);
    RowEntered(m, p, row, i, min0, min1, min, was, mid, now);
  }

  // ---------- counting them ----------

  ghost function OfLength(ps: set<seq<nat>>, n: nat): set<seq<nat>> { set p | p in ps && |p| == n }

  lemma CountOne(ps: set<seq<nat>>, p: seq<nat>, n: nat)
    requires p !in ps
    ensures |OfLength(ps + {p}, n)| == |OfLength(ps, n)| + if |p| == n then 1 else 0
  {
    var a, b := OfLength(ps, n), OfLength(ps + {p}, n);
    if |p| == n {
      assert b == a + {p} && p !in a;
    } else {
      assert b == a;
    }
  }

  class Search {
    const m: Map
    const path: array<nat>
    const visited: array<nat>
    const bestPath: array<nat>
    var min: int
    /** The paths `tsp` has been called with and has not cut off. */
    ghost var entered: set<seq<nat>>

    /** Each level's count is the number of paths entered with so many towns. */
    ghost predicate Counted()
      reads this, visited
    {
      visited.Length == |m| && forall l: nat :: l < |m| ==> visited[l] == |OfLength(entered, l + 1)|
    }

    ghost predicate Valid()
      reads this
    {
      && Complete(m) && |m| >= 1
      && path.Length == visited.Length == bestPath.Length == |m|
      && path != visited && path != bestPath && visited != bestPath
    }

    /** The globals as they are at the start: the path begins in town 0. */
    constructor (m: Map, bound: int)
      requires Complete(m) && |m| >= 1
      ensures Valid() && this.m == m && min == bound && fresh(path) && fresh(visited) && fresh(bestPath)
      ensures path[0] == 0 && entered == {} && Counted()
    {
      this.m, min := m, bound;
      path, visited, bestPath := new nat[|m|](_ => 0), new nat[|m|](_ => 0), new nat[|m|](_ => 0);
      entered := {};
      assert forall n: nat :: OfLength({}, n) == {};
    }

    /** `visited[l]++` for a path not entered before. */
    method Enter(l: nat, ghost p: seq<nat>)
      requires Valid() && Counted() && l < |m| && |p| == l + 1 && p !in entered
      modifies visited, this`entered
      ensures entered == old(entered) + {p} && Counted()
    {
      forall n: nat { CountOne(entered, p, n); }
      visited[l] := visited[l] + 1;
      entered := entered + {p};
    }

    /** `present`. */
    method Present(e: nat, l: nat) returns (r: bool)
      requires Valid() && l < |m|
      ensures r <==> e in path[..l + 1]
    {
      for i := 0 to l + 1
        invariant e !in path[..i]
      {
        if path[i] == e { return true; }
        assert path[..i + 1] == path[..i] + [path[i]];
      }
      r := false;
    }

    /** `tsp`. */
    method Tsp(l: nat, len: nat)
      requires Valid() && Counted() && l < |m| && IsPath(m, path[..l + 1]) && len == Length(m, path[..l + 1])
      requires Untried(path[..l + 1], entered)
      modifies this`min, this`entered, path, visited, bestPath
      ensures Valid() && Counted() && path[..l + 1] == old(path[..l + 1])
      ensures Searched(m, path[..l + 1], old(min), old(bestPath[..]), min, bestPath[..])
      ensures Entered(m, path[..l + 1], old(min), min, old(entered), entered)
      decreases |m| - l
    {
      ghost var p, min0, best0, was := path[..l + 1], min, bestPath[..], entered;
      if len >= min {
        PrunedEntered(m, p, min, entered);
        forall t | Tour(m, p, t) ensures min <= Length(m, t) { PrefixShorter(m, p, t); }
        return;
      }
      Enter(l, p);
      if l == |m| - 1 {
        TourEntered(m, p, min, was);
        min := len;
        CopyPath();
        assert bestPath[..] == p == path[..];
        forall t | Tour(m, p, t) ensures min <= Length(m, t) { assert t == p; }
      } else {
        var me := path[l];
        assert p[l] == me && RowComplete(m[me], |m|);
        RowBegun(m, p, m[me], min0, was);
        for i := 0 to |m|
          invariant Valid() && Counted() && path[..l + 1] == p
          invariant RowSoFar(m, p, m[me], i, min0, best0, was, min, bestPath[..], entered)
        {
          TakeRoad(l, len, me, i, p, min0, best0, was);
        }
        RowSearched(m, p, m[me], min0, best0, min, bestPath[..]);
        RowDone(m, p, m[me], min0, min, was, entered);
      }
    }

    /** The loop that keeps a copy of the path. */
    method CopyPath()
      requires Valid()
      modifies bestPath
      ensures bestPath[..] == path[..]
    {
      for i := 0 to |m|
        invariant bestPath[..i] == path[..i]
      {
        bestPath[i] := path[i];
      }
    }

    /** The path one town longer, searched. */
    method GoTo(l: nat, len: nat, e: nat, ghost p: seq<nat>)
      requires Valid() && Counted() && l + 1 < |m| && p == path[..l + 1] && IsPath(m, p + [e])
      requires len == Length(m, p + [e]) && Untried(p + [e], entered)
      modifies this`min, this`entered, path, visited, bestPath
      ensures Valid() && Counted() && path[..l + 1] == p
      ensures Searched(m, p + [e], old(min), old(bestPath[..]), min, bestPath[..])
      ensures Entered(m, p + [e], old(min), min, old(entered), entered)
      decreases |m| - l, 0
    {
      path[l + 1] := e;
      assert path[..l + 2] == p + [e];
      Tsp(l + 1, len);
      assert path[..l + 2][..l + 1] == path[..l + 1];
    }

    /** The body of the loop over the roads out of `me`. */
    method TakeRoad(l: nat, len: nat, me: nat, i: nat, ghost p: seq<nat>, ghost min0: int, ghost best0: seq<nat>,
                    ghost was: set<seq<nat>>)
      requires Valid() && Counted() && l + 1 < |m| && p == path[..l + 1] && IsPath(m, p) && me == p[l]
      requires len == Length(m, p) && RowComplete(m[me], |m|) && i < |m|
      requires RowSoFar(m, p, m[me], i, min0, best0, was, min, bestPath[..], entered)
      modifies this`min, this`entered, path, visited, bestPath
      ensures Valid() && Counted() && path[..l + 1] == p
      ensures RowSoFar(m, p, m[me], i + 1, min0, best0, was, min, bestPath[..], entered)
      decreases |m| - l, 1
    {
      var e := m[me][i].toTown;
      var there := Present(e, l);
      if there {
        RoadPassed(m, p, m[me], i, min0, best0, was, min, bestPath[..], entered);
      } else {
        PathSnoc(m, p, i);
        NextUntried(m, p, m[me], i, min0, min, was, entered);
        ghost var min1, best1, mid := min, bestPath[..], entered;
        GoTo(l, len + m[me][i].dis, e, p);
        RoadTaken(m, p, m[me], i, min0, best0, was, min1, best1, mid, min, bestPath[..], entered);
      }
    }
  }

  /**
   `main`: the shortest path through all towns from town 0, or the bound if no path is
   shorter than that. visited[l] is the number of paths of l + 1 towns entered: paths from town 0
   shorter than the bound, among them all that are shorter than the result.
   */
  method Solve(m: Map, bound: int) returns (min: int, best: seq<nat>, visited: seq<nat>, ghost entered: set<seq<nat>>)
    requires Complete(m) && |m| >= 1
    ensures min <= bound && forall t :: Tour(m, [0], t) ==> min <= Length(m, t)
    ensures min < bound ==> Tour(m, [0], best) && Length(m, best) == min
    ensures |visited| == |m| && forall l: nat :: l < |m| ==> visited[l] == |OfLength(entered, l + 1)|
    ensures forall q :: q in entered ==> [0] <= q && Shorter(m, q, bound)
    ensures forall q :: [0] <= q && Shorter(m, q, min) ==> q in entered
  {
    var s := new Search(m, bound);
    assert s.path[..1] == [0];
    s.Tsp(0, 0);
    min, best, visited, entered := s.min, s.bestPath[..], s.visited[..], s.entered;
  }
}
