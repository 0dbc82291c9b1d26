/**
 The machine of `generate_states` (bin/bison/LR0.c) is determined by the grammar: the states, the
 order in which they are numbered, the chain of shifts and the chain of reductions.
 */
module BisonUnique {
  import opened BisonGrammar
  import opened BisonClosure
  import opened BisonMachine
  import opened BisonStates

  /** What `generate_states` promises of its machine. */
  ghost predicate Generated(g: Grammar, states: seq<Core>, shifts: seq<Shifts>) {
    && StatesOk(g, states) && ShiftsOk(g, states, shifts, |states|)
    && Rooted(states, shifts) && BornInOrder(states, shifts)
  }

  /** Every state but 0 is met first somewhere. */
  lemma IsBorn(g: Grammar, states: seq<Core>, shifts: seq<Shifts>, s: nat) returns (t: nat)
    requires Generated(g, states, shifts) && 1 <= s < |states|
    ensures Born(shifts, t, s) && t < s
  {
    assert HasSource(shifts, s);
    var u: nat :| u < s && IsTarget(shifts, u, s);
    t := BornBy(shifts, u, s);
  }

  lemma {:induction false} BornBy(shifts: seq<Shifts>, u: nat, s: nat) returns (t: nat)
    requires IsTarget(shifts, u, s)
    ensures Born(shifts, t, s) && t <= u
  {
    if v: nat :| v < u && IsTarget(shifts, v, s) {
      t := BornBy(shifts, v, s);
    } else {
      t := u;
    }
  }

  /** The kernel after a symbol is the same list in both machines. */
  lemma SameKernel(g: Grammar, from: seq<int>, x: int, k: seq<int>, l: seq<int>)
    requires KernelAt(g, x, k) && KernelAt(g, x, l) && Goto(g, from, x, k) && Goto(g, from, x, l)
    ensures k == l
  {
    forall i ensures i in k <==> i in l {
      assert i in k <==> GotoItem(g, from, x, i);
      assert i in l <==> GotoItem(g, from, x, i);
    }
    IncreasingSame(k, l);
  }

  /** Where a state leads in one machine, the same state leads in the other. */
  lemma LeadsThere(g: Grammar, a: seq<Core>, sha: seq<Shifts>, b: seq<Core>, shb: seq<Shifts>, t: nat, s: nat)
      returns (r: nat)
    requires Generated(g, a, sha) && Generated(g, b, shb) && t < |a| && t < |b| && a[t] == b[t] && IsTarget(sha, t, s)
    ensures 1 <= s < |a| && 1 <= r < |b| && IsTarget(shb, t, r) && b[r] == a[s]
  {
    var from := a[t].items;
    assert ShiftOk(g, a, sha, t) && ShiftOk(g, b, shb, t);
    var x, k := a[s].symbol, a[s].items[0];
    assert k in a[s].items && GotoItem(g, from, x, k);
    assert HasTarget(b, TargetsOf(shb, t), x);
    var i :| 0 <= i < |TargetsOf(shb, t)| && b[TargetsOf(shb, t)[i]].symbol == x;
    r := TargetsOf(shb, t)[i];
    SameKernel(g, from, x, a[s].items, b[r].items);
  }

  /** A state met after `n` is not met before it. */
  lemma NotBefore(states: seq<Core>, shifts: seq<Shifts>, t: nat, n: nat, u: nat, r: nat)
    requires BornInOrder(states, shifts) && n < r < |states| && Born(shifts, t, n) && IsTarget(shifts, u, r)
    ensures t < u || (t == u && states[n].symbol <= states[r].symbol)
  {
    var v := BornBy(shifts, u, r);
    assert !MetBefore(states, shifts, v, r, t, n);
  }

  /** The first `n` states are the same. */
  predicate Agree(a: seq<Core>, b: seq<Core>, n: nat) {
    n <= |a| && n <= |b| && forall i :: 0 <= i < n ==> a[i] == b[i]
  }

  /** A state that is new in one machine is new in the other. */
  lemma NotAmong(g: Grammar, a: seq<Core>, b: seq<Core>, n: nat, s: nat)
    requires StatesOk(g, a) && n < |a| && Agree(a, b, n) && s < |b| && b[s] == a[n]
    ensures s >= n
  {
    forall i | 0 <= i < n ensures b[i] != a[n] {
      assert a[i].items != a[n].items;
    }
  }

  /** The next state of one machine is met from the same state in the other. */
  lemma NextMet(g: Grammar, a: seq<Core>, sha: seq<Shifts>, b: seq<Core>, shb: seq<Shifts>, n: nat)
      returns (t: nat, s: nat)
    requires Generated(g, a, sha) && Generated(g, b, shb) && 1 <= n < |a| && Agree(a, b, n)
    ensures Born(sha, t, n) && t < n && IsTarget(shb, t, s) && n <= s < |b| && b[s] == a[n]
  {
    t := IsBorn(g, a, sha, n);
    s := LeadsThere(g, a, sha, b, shb, t, n);
    NotAmong(g, a, b, n, s);
  }

  lemma SameTarget(g: Grammar, states: seq<Core>, shifts: seq<Shifts>, t: nat, s: nat, r: nat)
    requires Generated(g, states, shifts) && t < |states| && IsTarget(shifts, t, s) && IsTarget(shifts, t, r)
    ensures s < |states| && r < |states| && (states[s].symbol == states[r].symbol ==> s == r)
  {
    assert ShiftOk(g, states, shifts, t);
    TargetOfState(states, TargetsOf(shifts, t), s);
    TargetOfState(states, TargetsOf(shifts, t), r);
  }

  /** Were the next states both met later in the other machine, they would be met by the same symbol. */
  lemma BothLater(a: seq<Core>, sha: seq<Shifts>, b: seq<Core>, shb: seq<Shifts>, n: nat, t: nat, s: nat, u: nat,
                  r: nat)
    requires BornInOrder(a, sha) && BornInOrder(b, shb) && n < s < |b| && n < r < |a| && b[s] == a[n] && a[r] == b[n]
    requires Born(sha, t, n) && IsTarget(shb, t, s) && Born(shb, u, n) && IsTarget(sha, u, r)
    ensures t == u && a[n].symbol == a[r].symbol
  {
    NotBefore(a, sha, t, n, u, r);
    NotBefore(b, shb, u, n, t, s);
  }

  /** The next state is the same. */
  lemma NextSame(g: Grammar, a: seq<Core>, sha: seq<Shifts>, b: seq<Core>, shb: seq<Shifts>, n: nat)
    requires Generated(g, a, sha) && Generated(g, b, shb) && 1 <= n < |a| && Agree(a, b, n)
    ensures n < |b| && a[n] == b[n]
  {
    var t, s := NextMet(g, a, sha, b, shb, n);
    var u, r := NextMet(g, b, shb, a, sha, n);
    if s > n && r > n {
      BothLater(a, sha, b, shb, n, t, s, u, r);
      SameTarget(g, a, sha, t, n, r);
    }
  }

  lemma AgreeMore(a: seq<Core>, b: seq<Core>, n: nat)
    requires Agree(a, b, n) && n < |a| && n < |b| && a[n] == b[n]
    ensures Agree(a, b, n + 1)
  {
  }

  lemma AgreeAll(a: seq<Core>, b: seq<Core>)
    requires |a| == |b| && Agree(a, b, |a|)
    ensures a == b
  {
  }

  /** So there are as many states, and they are the same. */
  lemma {:induction false} StatesSame(g: Grammar, a: seq<Core>, sha: seq<Shifts>, b: seq<Core>, shb: seq<Shifts>,
                                      n: nat)
    requires Generated(g, a, sha) && Generated(g, b, shb) && 1 <= n && Agree(a, b, n)
    ensures |a| == |b| && Agree(a, b, |a|)
    decreases |a| - n
  {
    if n < |a| {
      NextSame(g, a, sha, b, shb, n);
      AgreeMore(a, b, n);
      StatesSame(g, a, sha, b, shb, n + 1);
    } else if n < |b| {
      NextSame(g, b, shb, a, sha, n);
    }
  }

  // ---------- the chains ----------

  lemma OneState(g: Grammar, states: seq<Core>, s: nat, r: nat)
    requires StatesOk(g, states) && s < |states| && r < |states| && states[s].items == states[r].items
    ensures s == r
  {
  }

  ghost function SymbolsOf(states: seq<Core>, targets: seq<nat>): seq<int>
    requires forall i :: 0 <= i < |targets| ==> targets[i] < |states|
  {
    seq(|targets|, i requires 0 <= i < |targets| => states[targets[i]].symbol)
  }

  /** Every target of one machine is a target of the other. */
  lemma TargetsAmong(g: Grammar, states: seq<Core>, sha: seq<Shifts>, shb: seq<Shifts>, t: nat, s: nat)
    requires Generated(g, states, sha) && Generated(g, states, shb) && t < |states| && IsTarget(sha, t, s)
    ensures IsTarget(shb, t, s)
  {
    var r := LeadsThere(g, states, sha, states, shb, t, s);
    OneState(g, states, s, r);
  }

  lemma TargetsSame(g: Grammar, states: seq<Core>, sha: seq<Shifts>, shb: seq<Shifts>, t: nat)
    requires Generated(g, states, sha) && Generated(g, states, shb) && t < |states|
    ensures TargetsOf(sha, t) == TargetsOf(shb, t)
  {
    var ta, tb := TargetsOf(sha, t), TargetsOf(shb, t);
    assert ShiftOk(g, states, sha, t) && ShiftOk(g, states, shb, t);
    forall s: nat ensures s in ta <==> s in tb {
      if s in ta { TargetsAmong(g, states, sha, shb, t, s); }
      if s in tb { TargetsAmong(g, states, shb, sha, t, s); }
    }
    SortedSame(states, ta, tb);
  }

  /** Targets sorted by symbol are determined by what they are. */
  lemma SortedSame(states: seq<Core>, ta: seq<nat>, tb: seq<nat>)
    requires (forall i :: 0 <= i < |ta| ==> ta[i] < |states|) && forall i :: 0 <= i < |tb| ==> tb[i] < |states|
    requires SymbolsIncrease(states, ta) && SymbolsIncrease(states, tb) && forall s: nat :: s in ta <==> s in tb
    ensures ta == tb
  {
    var xa, xb := SymbolsOf(states, ta), SymbolsOf(states, tb);
    forall x ensures x in xa <==> x in xb {
      SymbolAmong(states, ta, tb, x);
      SymbolAmong(states, tb, ta, x);
    }
    IncreasingSame(xa, xb);
    forall i | 0 <= i < |ta| ensures ta[i] == tb[i] {
      assert states[ta[i]].symbol == xa[i] == xb[i] == states[tb[i]].symbol;
      assert ta[i] in tb;
      TargetOfState(states, tb, ta[i]);
      TargetOfState(states, tb, tb[i]);
    }
  }

  lemma SymbolAmong(states: seq<Core>, ta: seq<nat>, tb: seq<nat>, x: int)
    requires (forall i :: 0 <= i < |ta| ==> ta[i] < |states|) && forall i :: 0 <= i < |tb| ==> tb[i] < |states|
    requires forall s: nat :: s in ta ==> s in tb
    ensures x in SymbolsOf(states, ta) ==> x in SymbolsOf(states, tb)
  {
    var xa, xb := SymbolsOf(states, ta), SymbolsOf(states, tb);
    if x in xa {
      var i :| 0 <= i < |xa| && xa[i] == x;
      assert ta[i] in tb;
      var j :| 0 <= j < |tb| && tb[j] == ta[i];
      assert xb[j] == x;
    }
  }

  /** A chain of shifts is determined by its entries. */
  lemma {:induction false} ShiftChainSame(sha: seq<Shifts>, shb: seq<Shifts>, n: nat)
    requires ChainBelow(sha, n) && ChainBelow(shb, n)
    requires forall t: nat :: t < n ==> TargetsOf(sha, t) == TargetsOf(shb, t)
    ensures sha == shb
    decreases n
  {
    if n == 0 {
      assert sha == [] && shb == [];
    } else {
      var a, b := ShiftsBelow(sha, n - 1), ShiftsBelow(shb, n - 1);
      forall t: nat | t < n - 1 ensures TargetsOf(a, t) == TargetsOf(b, t) {
        TargetsBelow(sha, n - 1, t);
        TargetsBelow(shb, n - 1, t);
      }
      ShiftChainSame(a, b, n - 1);
    }
  }

  lemma TargetsBelow(sh: seq<Shifts>, n: nat, t: nat)
    requires ChainBelow(sh, n + 1) && t < n
    ensures TargetsOf(ShiftsBelow(sh, n), t) == TargetsOf(sh, t)
  {
    TargetsOfSaved(ShiftsBelow(sh, n), n, TargetsOf(sh, n), t);
  }

  /** The chain without the last state's entry. */
  ghost function ShiftsBelow(sh: seq<Shifts>, n: nat): (r: seq<Shifts>)
    requires ChainBelow(sh, n + 1)
    ensures ChainBelow(r, n) && sh == Saved(r, n, TargetsOf(sh, n))
  {
    if sh != [] && sh[|sh| - 1].number == n then sh[..|sh| - 1]
    else
      TargetsOfNone(sh, n);
      sh
  }

  lemma EndsSame(g: Grammar, kernel: seq<int>, ea: seq<int>, eb: seq<int>)
    requires EndsOf(g, kernel, ea) && EndsOf(g, kernel, eb)
    ensures ea == eb
  {
    forall j ensures j in ea <==> j in eb {
      assert j in ea <==> IsEnd(g, j) && InClosure(g, kernel, j);
    }
    IncreasingSame(ea, eb);
  }

  lemma RulesAtSame(g: Grammar, ends: seq<int>, ra: seq<int>, rb: seq<int>)
    requires RulesAt(g, ends, ra) && RulesAt(g, ends, rb)
    ensures ra == rb
  {
  }

  /** The rules recorded for a kernel are determined by it. */
  lemma RulesSame(g: Grammar, kernel: seq<int>, ra: seq<int>, rb: seq<int>)
    requires RulesOk(g, kernel, ra) && RulesOk(g, kernel, rb)
    ensures ra == rb
  {
    var ea :| EndsOf(g, kernel, ea) && RulesAt(g, ea, ra);
    var eb :| EndsOf(g, kernel, eb) && RulesAt(g, eb, rb);
    EndsSame(g, kernel, ea, eb);
    RulesAtSame(g, ea, ra, rb);
  }

  predicate RulesChain(reds: seq<Reductions>, n: nat) {
    && (forall i, j :: 0 <= i < j < |reds| ==> reds[i].number < reds[j].number)
    && (forall i :: 0 <= i < |reds| ==> reds[i].number < n && reds[i].rules != [])
  }

  /** The chain without the last state's entry. */
  ghost function RulesBelow(reds: seq<Reductions>, n: nat): (r: seq<Reductions>)
    requires RulesChain(reds, n + 1)
    ensures RulesChain(r, n) && reds == SavedRules(r, n, RulesOf(reds, n))
  {
    if reds != [] && reds[|reds| - 1].number == n then reds[..|reds| - 1]
    else
      RulesOfNone(reds, n);
      reds
  }

  lemma RulesOfBelow(reds: seq<Reductions>, n: nat, s: nat)
    requires RulesChain(reds, n + 1) && s < n
    ensures RulesOf(RulesBelow(reds, n), s) == RulesOf(reds, s)
  {
    RulesOfSaved(RulesBelow(reds, n), n, RulesOf(reds, n), s);
  }

  /** A chain of reductions is determined by its entries. */
  lemma {:induction false} RuleChainSame(ra: seq<Reductions>, rb: seq<Reductions>, n: nat)
    requires RulesChain(ra, n) && RulesChain(rb, n) && forall s: nat :: s < n ==> RulesOf(ra, s) == RulesOf(rb, s)
    ensures ra == rb
    decreases n
  {
    if n == 0 {
      assert ra == [] && rb == [];
    } else {
      var a, b := RulesBelow(ra, n - 1), RulesBelow(rb, n - 1);
      forall s: nat | s < n - 1 ensures RulesOf(a, s) == RulesOf(b, s) {
        RulesOfBelow(ra, n - 1, s);
        RulesOfBelow(rb, n - 1, s);
      }
      RuleChainSame(a, b, n - 1);
    }
  }

  lemma ReductionsSame(g: Grammar, states: seq<Core>, ra: seq<Reductions>, rb: seq<Reductions>)
    requires ReductionsOk(g, states, ra, |states|) && ReductionsOk(g, states, rb, |states|)
    ensures ra == rb
  {
    forall s: nat | s < |states| ensures RulesOf(ra, s) == RulesOf(rb, s) {
      assert RecordOk(g, states, ra, s) && RecordOk(g, states, rb, s);
      RulesSame(g, states[s].items, RulesOf(ra, s), RulesOf(rb, s));
    }
    RuleChainSame(ra, rb, |states|);
  }

  lemma ShiftsSame(g: Grammar, states: seq<Core>, sha: seq<Shifts>, shb: seq<Shifts>)
    requires Generated(g, states, sha) && Generated(g, states, shb)
    ensures sha == shb
  {
    forall t: nat | t < |states| ensures TargetsOf(sha, t) == TargetsOf(shb, t) {
      TargetsSame(g, states, sha, shb, t);
    }
    ShiftChainSame(sha, shb, |states|);
  }

  lemma FirstSame(g: Grammar, a: seq<Core>, b: seq<Core>)
    requires StatesOk(g, a) && StatesOk(g, b)
    ensures Agree(a, b, 1)
  {
  }

  /** There is one machine whose states are numbered as they are met: the output of `generate_states` is determined. */
  lemma MachineUnique(g: Grammar, a: seq<Core>, sha: seq<Shifts>, ra: seq<Reductions>, b: seq<Core>, shb: seq<Shifts>,
                      rb: seq<Reductions>)
    requires Machine(g, a, sha, ra) && Rooted(a, sha) && BornInOrder(a, sha)
    requires Machine(g, b, shb, rb) && Rooted(b, shb) && BornInOrder(b, shb)
    ensures a == b && sha == shb && ra == rb
  {
    FirstSame(g, a, b);
    StatesSame(g, a, sha, b, shb, 1);
    AgreeAll(a, b);
    ShiftsSame(g, a, sha, shb);
    ReductionsSame(g, a, ra, rb);
  }
}
