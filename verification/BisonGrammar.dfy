/**
 bison's grammar representation (bin/bison/gram.h) and the nondeterministic automaton of its
 items: the reference the generated states are measured against.
 */
module BisonGrammar {
  import opened BisonWarshall

  /**
   Symbols 0 .. ntokens-1 are tokens (0 the end of input), ntokens .. nsyms-1 variables.  Rule r (from 1 on) derives
   rlhs[r] (negative if the rule was thrown out) and its right-hand side begins at ritem[rrhs[r]];
   ritem holds symbols, -r at the end of rule r, and a final 0.
   */
  datatype Grammar = Grammar(ntokens: nat, nvars: nat, start: int, ritem: seq<int>, rlhs: seq<int>, rrhs: seq<int>)
  {
    function nsyms(): nat { ntokens + nvars }
    function nrules(): int { |rlhs| - 1 }
    function nitems(): int { |ritem| - 1 }
    predicate IsVar(s: int) { s >= ntokens }
    /** Rule `r` was not thrown out. */
    predicate Live(r: int) { 1 <= r < |rlhs| && rlhs[r] >= 0 }
  }

  ghost predicate WellFormed(g: Grammar) {
    && 1 <= g.ntokens <= g.start < g.nsyms()
    && |g.rlhs| >= 1 && |g.rrhs| == |g.rlhs|
    && |g.ritem| >= 1 && g.ritem[g.nitems()] == 0
    && (forall i :: 0 <= i < g.nitems() ==> g.ritem[i] != 0 && g.ritem[i] < g.nsyms())
    && (forall i :: 0 <= i < g.nitems() && g.ritem[i] > 0 ==> i + 1 < g.nitems())
    && (forall r :: g.Live(r) ==> RuleOk(g, r))
    && (forall r, s :: g.Live(r) && g.Live(s) && r < s ==> g.rrhs[r] < g.rrhs[s])
  }

  /** A right-hand side begins at the start of ritem or after the end of another. */
  ghost predicate RuleOk(g: Grammar, r: int)
    requires g.Live(r) && |g.rrhs| == |g.rlhs| && |g.ritem| >= 1
  {
    && g.ntokens <= g.rlhs[r] < g.nsyms()
    && 0 <= g.rrhs[r] < g.nitems()
    && (g.rrhs[r] == 0 || g.ritem[g.rrhs[r] - 1] < 0)
  }

  /** An item number: a place in a right-hand side. */
  predicate IsItem(g: Grammar, i: int) { 0 <= i < |g.ritem| - 1 }

  // ---------- the item automaton ----------

  /** Without reading, an item before variable A leads to the start of every rule for A. */
  ghost predicate Eps(g: Grammar, i: int, j: int) {
    IsItem(g, i) && g.IsVar(g.ritem[i]) && Begins(g, g.ritem[i], j)
  }

  /** `j` is where some rule for `v` begins. */
  ghost predicate Begins(g: Grammar, v: int, j: int) {
    exists r :: BeginsRule(g, v, j, r)
  }

  ghost predicate BeginsRule(g: Grammar, v: int, j: int, r: int) {
    g.Live(r) && |g.rrhs| == |g.rlhs| && g.rlhs[r] == v && g.rrhs[r] == j
  }

  /** Reading symbol `x` moves an item past it. */
  predicate Moves(g: Grammar, i: int, x: int, j: int) {
    IsItem(g, i) && x > 0 && g.ritem[i] == x && j == i + 1
  }

  /** A run of the item automaton, its last step outermost. */
  datatype Run = First(j: int) | ByEps(init: Run, j: int) | ByMove(init: Run, x: int, j: int)

  ghost predicate IsRun(g: Grammar, u: Run) {
    match u
    case First(j) => Begins(g, g.start, j)
    case ByEps(v, j) => IsRun(g, v) && Eps(g, v.j, j)
    case ByMove(v, x, j) => IsRun(g, v) && Moves(g, v.j, x, j)
  }

  function Reads(u: Run): seq<int> {
    match u
    case First(_) => []
    case ByEps(v, _) => Reads(v)
    case ByMove(v, x, _) => Reads(v) + [x]
  }

  /** Item `j` is active after reading `w`. */
  ghost predicate Active(g: Grammar, w: seq<int>, j: int) {
    exists u :: IsRun(g, u) && Reads(u) == w && u.j == j
  }

  // ---------- closure through the variables ----------

  /** A rule for variable `a` begins with variable `b` (as offsets from ntokens). */
  ghost predicate Heads(g: Grammar, a: nat, b: nat) {
    exists r :: HeadsRule(g, a, b, r)
  }

  ghost predicate HeadsRule(g: Grammar, a: nat, b: nat, r: int) {
    && g.Live(r) && |g.rrhs| == |g.rlhs| && 0 <= g.rrhs[r] < |g.ritem|
    && g.rlhs[r] == g.ntokens + a && g.ritem[g.rrhs[r]] == g.ntokens + b
  }

  ghost function HeadRel(g: Grammar): Rel {
    set a: nat, b: nat | a < g.nvars && b < g.nvars && Heads(g, a, b) :: (a, b)
  }

  /** Variable `v` can begin what variable `u` derives. */
  ghost predicate LeftReach(g: Grammar, u: int, v: int) {
    g.IsVar(u) && g.IsVar(v) && Reach(HeadRel(g), u - g.ntokens, v - g.ntokens)
  }

  /** Item `j` begins a rule for a variable left-reachable from `u`. */
  ghost predicate LeftStart(g: Grammar, u: int, j: int) {
    exists r :: LeftStartRule(g, u, j, r)
  }

  ghost predicate LeftStartRule(g: Grammar, u: int, j: int, r: int) {
    g.Live(r) && |g.rrhs| == |g.rlhs| && LeftReach(g, u, g.rlhs[r]) && g.rrhs[r] == j
  }

  /** The closure of a kernel: its items, and the starts of all rules left-reachable from them. */
  ghost predicate InClosure(g: Grammar, kernel: seq<int>, j: int) {
    || j in kernel
    || (if kernel == [] then LeftStart(g, g.start, j)
        else exists i :: i in kernel && IsItem(g, i) && LeftStart(g, g.ritem[i], j))
  }

  /** Left-reachable starts are closed under eps steps. */
  lemma LeftStartEps(g: Grammar, u: int, i: int, j: int)
    requires WellFormed(g) && LeftStart(g, u, i) && Eps(g, i, j)
    ensures LeftStart(g, u, j)
  {
    var r :| LeftStartRule(g, u, i, r);
    var s :| BeginsRule(g, g.ritem[i], j, s);
    assert RuleOk(g, r) && RuleOk(g, s);
    var a, b := g.rlhs[r] - g.ntokens, g.ritem[i] - g.ntokens;
    assert HeadsRule(g, a, b, r);
    assert (a, b) in HeadRel(g);
    var c := u - g.ntokens;
    ReachSelf(HeadRel(g), b);
    ReachEdge(HeadRel(g), a, b, b);
    ReachTrans(HeadRel(g), c, a, b);
    assert LeftStartRule(g, u, j, s);
  }

  /** An item before variable `u` reaches every left-reachable start by eps steps. */
  lemma {:induction false} LeftStartRun(g: Grammar, v: Run, p: seq<nat>, j: int) returns (u: Run)
    requires WellFormed(g) && IsRun(g, v) && IsItem(g, v.j) && g.IsVar(g.ritem[v.j])
    requires IsPath(HeadRel(g), p) && p[0] == g.ritem[v.j] - g.ntokens
    requires Begins(g, g.ntokens + p[|p| - 1], j)
    ensures IsRun(g, u) && Reads(u) == Reads(v) && u.j == j
    decreases |p|
  {
    if |p| == 1 {
      u := ByEps(v, j);
    } else {
      assert Edge(HeadRel(g), p[0], p[1]);
      var r :| HeadsRule(g, p[0], p[1], r);
      var i := g.rrhs[r];
      assert RuleOk(g, r);
      assert BeginsRule(g, g.ritem[v.j], i, r);
      var q := p[1..];
      forall t | 0 <= t < |q| - 1 ensures Edge(HeadRel(g), q[t], q[t + 1]) {
        assert Edge(HeadRel(g), p[t + 1], p[t + 2]);
      }
      u := LeftStartRun(g, ByEps(v, i), q, j);
    }
  }

  /** Left-reachable starts of the start symbol are active before any reading. */
  lemma StartRun(g: Grammar, p: seq<nat>, j: int) returns (u: Run)
    requires WellFormed(g) && IsPath(HeadRel(g), p) && p[0] == g.start - g.ntokens
    requires Begins(g, g.ntokens + p[|p| - 1], j)
    ensures IsRun(g, u) && Reads(u) == [] && u.j == j
  {
    if |p| == 1 {
      u := First(j);
    } else {
      assert Edge(HeadRel(g), p[0], p[1]);
      var r :| HeadsRule(g, p[0], p[1], r);
      assert RuleOk(g, r);
      assert BeginsRule(g, g.start, g.rrhs[r], r);
      var q := p[1..];
      forall t | 0 <= t < |q| - 1 ensures Edge(HeadRel(g), q[t], q[t + 1]) {
        assert Edge(HeadRel(g), p[t + 1], p[t + 2]);
      }
      u := LeftStartRun(g, First(g.rrhs[r]), q, j);
    }
  }

  lemma LeftStartPath(g: Grammar, u: int, j: int) returns (p: seq<nat>)
    requires WellFormed(g) && LeftStart(g, u, j)
    ensures g.IsVar(u) && IsPath(HeadRel(g), p) && p[0] == u - g.ntokens
    ensures Begins(g, g.ntokens + p[|p| - 1], j)
  {
    var r :| LeftStartRule(g, u, j, r);
    p :| PathFromTo(HeadRel(g), p, u - g.ntokens, g.rlhs[r] - g.ntokens);
    assert BeginsRule(g, g.ntokens + p[|p| - 1], j, r);
  }

  /** Every rule for `v` is left-reachable from `v`. */
  lemma BeginsLeftStart(g: Grammar, v: int, j: int)
    requires WellFormed(g) && Begins(g, v, j)
    ensures LeftStart(g, v, j)
  {
    var r :| BeginsRule(g, v, j, r);
    assert RuleOk(g, r);
    ReachSelf(HeadRel(g), v - g.ntokens);
    assert LeftStartRule(g, v, j, r);
  }

  // ---------- the closure of a kernel is the set of active items ----------

  lemma {:induction false} StartOfRun(g: Grammar, u: Run)
    requires WellFormed(g) && IsRun(g, u) && Reads(u) == []
    ensures InClosure(g, [], u.j)
  {
    match u
    case First(j) => BeginsLeftStart(g, g.start, j);
    case ByEps(v, j) =>
      StartOfRun(g, v);
      LeftStartEps(g, g.start, v.j, j);
    case ByMove(_, _, _) =>
  }

  /** State 0: the closure of the empty kernel. */
  lemma InitialClosure(g: Grammar, j: int)
    requires WellFormed(g)
    ensures InClosure(g, [], j) <==> Active(g, [], j)
  {
    if InClosure(g, [], j) {
      var p := LeftStartPath(g, g.start, j);
      var u := StartRun(g, p, j);
    }
    if Active(g, [], j) {
      var u :| IsRun(g, u) && Reads(u) == [] && u.j == j;
      StartOfRun(g, u);
    }
  }

  /** `next` is the kernel reached from the items active after `w` by reading `x`. */
  ghost predicate KernelAfter(g: Grammar, w: seq<int>, x: int, next: seq<int>) {
    forall k :: k in next <==> exists i :: Active(g, w, i) && Moves(g, i, x, k)
  }

  lemma {:induction false} RunInClosure(g: Grammar, w: seq<int>, x: int, next: seq<int>, u: Run)
    requires WellFormed(g) && KernelAfter(g, w, x, next) && IsRun(g, u) && Reads(u) == w + [x]
    ensures InClosure(g, next, u.j)
  {
    match u
    case First(_) =>
    case ByMove(v, y, j) =>
      assert Reads(v) == w && y == x by {
        assert (Reads(v) + [y])[..|Reads(v)|] == Reads(v) && (w + [x])[..|w|] == w;
        assert (Reads(v) + [y])[|Reads(v)|] == y && (w + [x])[|w|] == x;
      }
      assert Active(g, w, v.j);
    case ByEps(v, j) =>
      RunInClosure(g, w, x, next, v);
      if v.j in next {
        BeginsLeftStart(g, g.ritem[v.j], j);
      } else {
        assert next != [] by { NotEmpty(g, w, x, next, v); }
        var i :| i in next && IsItem(g, i) && LeftStart(g, g.ritem[i], v.j);
        LeftStartEps(g, g.ritem[i], v.j, j);
      }
  }

  lemma {:induction false} NotEmpty(g: Grammar, w: seq<int>, x: int, next: seq<int>, u: Run)
    requires KernelAfter(g, w, x, next) && IsRun(g, u) && Reads(u) == w + [x]
    ensures next != []
  {
    match u
    case First(_) =>
    case ByEps(v, _) => NotEmpty(g, w, x, next, v);
    case ByMove(v, y, j) =>
      assert Reads(v) == w && y == x by {
        assert (Reads(v) + [y])[..|Reads(v)|] == Reads(v) && (w + [x])[..|w|] == w;
        assert (Reads(v) + [y])[|Reads(v)|] == y && (w + [x])[|w|] == x;
      }
      assert Active(g, w, v.j);
      assert j in next;
  }

  lemma ClosureRun(g: Grammar, w: seq<int>, x: int, next: seq<int>, j: int)
    requires WellFormed(g) && next != [] && KernelAfter(g, w, x, next) && InClosure(g, next, j)
    ensures Active(g, w + [x], j)
  {
    var k := if j in next then j else var i :| i in next && IsItem(g, i) && LeftStart(g, g.ritem[i], j); i;
    var i :| Active(g, w, i) && Moves(g, i, x, k);
    var v :| IsRun(g, v) && Reads(v) == w && v.j == i;
    var u := ByMove(v, x, k);
    assert IsRun(g, u) && Reads(u) == w + [x];
    if j !in next {
      var p := LeftStartPath(g, g.ritem[k], j);
      var u' := LeftStartRun(g, u, p, j);
    }
  }

  /** A non-empty kernel reached by reading: its closure is exactly the active items. */
  lemma NextClosure(g: Grammar, w: seq<int>, x: int, next: seq<int>, j: int)
    requires WellFormed(g) && next != [] && KernelAfter(g, w, x, next)
    ensures InClosure(g, next, j) <==> Active(g, w + [x], j)
  {
    if InClosure(g, next, j) { ClosureRun(g, w, x, next, j); }
    if Active(g, w + [x], j) {
      var u :| IsRun(g, u) && Reads(u) == w + [x] && u.j == j;
      RunInClosure(g, w, x, next, u);
    }
  }

  /** An empty kernel: nothing is active after reading. */
  lemma NothingActive(g: Grammar, w: seq<int>, x: int, j: int)
    requires KernelAfter(g, w, x, [])
    ensures !Active(g, w + [x], j)
  {
    if Active(g, w + [x], j) {
      var u :| IsRun(g, u) && Reads(u) == w + [x] && u.j == j;
      NotEmpty(g, w, x, [], u);
    }
  }

  lemma {:induction false} RunInit(g: Grammar, u: Run, w: seq<int>, x: int) returns (i: int)
    requires IsRun(g, u) && Reads(u) == w + [x]
    ensures Active(g, w, i)
  {
    match u
    case First(_) =>
      i := 0;
    case ByEps(v, _) => i := RunInit(g, v, w, x);
    case ByMove(v, y, _) =>
      assert Reads(v) == w by {
        assert (Reads(v) + [y])[..|Reads(v)|] == Reads(v) && (w + [x])[..|w|] == w;
      }
      i := v.j;
  }

  /** Once nothing is active nothing will be. */
  lemma DeadStays(g: Grammar, w: seq<int>, x: int)
    requires forall i :: !Active(g, w, i)
    ensures forall j :: !Active(g, w + [x], j)
  {
    forall j ensures !Active(g, w + [x], j) {
      if Active(g, w + [x], j) {
        var u :| IsRun(g, u) && Reads(u) == w + [x] && u.j == j;
        var i := RunInit(g, u, w, x);
      }
    }
  }
}
