/**
 bison's shift machine (bin/bison/state.h) as data: what it means for a list of states and a
 chain of shifts to be the LR(0) automaton of a grammar, and that such a machine follows the
 item automaton on every symbol string.
 */
module BisonMachine {
  import opened Wrappers
  import opened BisonGrammar
  import opened BisonClosure

  /** A state: its number is its place in the list of states. */
  datatype Core = Core(symbol: int, items: seq<int>)
  datatype Shifts = Shifts(number: nat, targets: seq<nat>)
  datatype Reductions = Reductions(number: nat, rules: seq<int>)

  // ---------- states ----------

  /** A kernel all of whose items stand just after `x`. */
  ghost predicate KernelAt(g: Grammar, x: int, items: seq<int>) {
    && items != [] && KernelOk(g, items) && 0 < x < g.nsyms()
    && forall k :: 0 <= k < |items| ==> JustAfter(g, x, items[k])
  }

  ghost predicate JustAfter(g: Grammar, x: int, k: int) {
    AfterSymbol(g, k) && g.ritem[k - 1] == x
  }

  /** State 0 has an empty kernel; the others have kernels with one accessing symbol, no two the same. */
  ghost predicate StatesOk(g: Grammar, states: seq<Core>) {
    && |states| >= 1 && states[0] == Core(0, [])
    && (forall s :: 1 <= s < |states| ==> KernelAt(g, states[s].symbol, states[s].items))
    && (forall s, t :: 0 <= s < t < |states| ==> states[s].items != states[t].items)
  }

  /** `to` is the kernel reached from kernel `from` by `x`. */
  ghost predicate Goto(g: Grammar, from: seq<int>, x: int, to: seq<int>) {
    forall k :: k in to <==> GotoItem(g, from, x, k)
  }

  ghost predicate GotoItem(g: Grammar, from: seq<int>, x: int, k: int) {
    InClosure(g, from, k - 1) && Moves(g, k - 1, x, k)
  }

  // ---------- shifts ----------

  ghost predicate SymbolsIncrease(states: seq<Core>, targets: seq<nat>)
    requires forall i :: 0 <= i < |targets| ==> targets[i] < |states|
  {
    forall i, j :: 0 <= i < j < |targets| ==> states[targets[i]].symbol < states[targets[j]].symbol
  }

  /** Some target is reached by `x`. */
  ghost predicate HasTarget(states: seq<Core>, targets: seq<nat>, x: int) {
    exists i :: 0 <= i < |targets| && targets[i] < |states| && states[targets[i]].symbol == x
  }

  /** The targets of a state with kernel `from`, sorted by accessing symbol. */
  ghost predicate TargetsOk(g: Grammar, states: seq<Core>, from: seq<int>, targets: seq<nat>) {
    && (forall i :: 0 <= i < |targets| ==> 1 <= targets[i] < |states|)
    && SymbolsIncrease(states, targets)
    && (forall i :: 0 <= i < |targets| ==> Goto(g, from, states[targets[i]].symbol, states[targets[i]].items))
    && (forall x, k :: GotoItem(g, from, x, k) ==> HasTarget(states, targets, x))
  }

  /** The chain's entry for state `s`. */
  function TargetsOf(shifts: seq<Shifts>, s: nat): seq<nat> {
    if shifts == [] then []
    else
      var last := shifts[|shifts| - 1];
      if last.number == s then last.targets else TargetsOf(shifts[..|shifts| - 1], s)
  }

  /** The chain is in increasing order of state numbers below `n`. */
  predicate ChainBelow(shifts: seq<Shifts>, n: nat) {
    && (forall i, j :: 0 <= i < j < |shifts| ==> shifts[i].number < shifts[j].number)
    && (forall i :: 0 <= i < |shifts| ==> shifts[i].number < n && shifts[i].targets != [])
  }

  /** The shifts of state `s` are right. */
  ghost predicate ShiftOk(g: Grammar, states: seq<Core>, shifts: seq<Shifts>, s: nat) {
    s < |states| && TargetsOk(g, states, states[s].items, TargetsOf(shifts, s))
  }

  ghost predicate ShiftsOk(g: Grammar, states: seq<Core>, shifts: seq<Shifts>, n: nat) {
    && n <= |states| && ChainBelow(shifts, n)
    && forall s: nat :: s < n ==> ShiftOk(g, states, shifts, s)
  }

  lemma {:induction false} TargetsOfEntry(shifts: seq<Shifts>, n: nat, i: nat)
    requires ChainBelow(shifts, n) && i < |shifts|
    ensures TargetsOf(shifts, shifts[i].number) == shifts[i].targets
  {
    if i < |shifts| - 1 {
      TargetsOfEntry(shifts[..|shifts| - 1], n, i);
    }
  }

  lemma {:induction false} TargetsOfNone(shifts: seq<Shifts>, s: nat)
    requires forall i :: 0 <= i < |shifts| ==> shifts[i].number != s
    ensures TargetsOf(shifts, s) == []
  {
    if shifts != [] { TargetsOfNone(shifts[..|shifts| - 1], s); }
  }

  /** New states at the end change nothing about earlier shifts. */
  lemma TargetsStay(g: Grammar, states: seq<Core>, more: seq<Core>, from: seq<int>, targets: seq<nat>)
    requires TargetsOk(g, states, from, targets) && states <= more
    ensures TargetsOk(g, more, from, targets)
  {
    forall x, k | GotoItem(g, from, x, k) ensures HasTarget(more, targets, x) {
      assert HasTarget(states, targets, x);
      var i :| 0 <= i < |targets| && targets[i] < |states| && states[targets[i]].symbol == x;
    }
  }

  lemma ShiftsStay(g: Grammar, states: seq<Core>, more: seq<Core>, shifts: seq<Shifts>, n: nat)
    requires ShiftsOk(g, states, shifts, n) && states <= more
    ensures ShiftsOk(g, more, shifts, n)
  {
    forall s: nat | s < n ensures ShiftOk(g, more, shifts, s) {
      assert ShiftOk(g, states, shifts, s);
      TargetsStay(g, states, more, states[s].items, TargetsOf(shifts, s));
    }
  }

  /** The chain after `save_shifts`: a record goes at the end, and only if there are shifts. */
  function Saved(shifts: seq<Shifts>, n: nat, targets: seq<nat>): seq<Shifts> {
    if targets == [] then shifts else shifts + [Shifts(n, targets)]
  }

  lemma TargetsOfSaved(shifts: seq<Shifts>, n: nat, targets: seq<nat>, s: nat)
    requires ChainBelow(shifts, n)
    ensures ChainBelow(Saved(shifts, n, targets), n + 1)
    ensures TargetsOf(Saved(shifts, n, targets), s) == if s == n then targets else TargetsOf(shifts, s)
  {
    TargetsOfNone(shifts, n);
    var now := Saved(shifts, n, targets);
    assert targets != [] ==> now[..|shifts|] == shifts;
  }

  lemma ShiftsSnoc(g: Grammar, states: seq<Core>, shifts: seq<Shifts>, n: nat, targets: seq<nat>)
    requires ShiftsOk(g, states, shifts, n) && n < |states| && TargetsOk(g, states, states[n].items, targets)
    ensures ShiftsOk(g, states, Saved(shifts, n, targets), n + 1)
  {
    var now := Saved(shifts, n, targets);
    TargetsOfSaved(shifts, n, targets, n);
    forall s: nat | s < n + 1 ensures ShiftOk(g, states, now, s) {
      assert s < n ==> ShiftOk(g, states, shifts, s);
      TargetsOfSaved(shifts, n, targets, s);
    }
  }

  // ---------- reductions ----------

  /** Some item of the closure is the end of rule `r`. */
  ghost predicate Reduces(g: Grammar, kernel: seq<int>, r: int) {
    r > 0 && exists j :: InClosure(g, kernel, j) && EndOf(g, j, r)
  }

  predicate EndOf(g: Grammar, j: int, r: int) { IsItem(g, j) && g.ritem[j] == -r }

  predicate IsEnd(g: Grammar, j: int) { IsItem(g, j) && g.ritem[j] < 0 }

  /** The ends of rules in the closure, in increasing order. */
  ghost predicate EndsOf(g: Grammar, kernel: seq<int>, ends: seq<int>) {
    Increasing(ends) && forall j :: j in ends <==> IsEnd(g, j) && InClosure(g, kernel, j)
  }

  /** The rules that end there, one for each. */
  predicate RulesAt(g: Grammar, ends: seq<int>, rules: seq<int>) {
    |rules| == |ends| && forall i :: 0 <= i < |ends| ==> IsEnd(g, ends[i]) && rules[i] == -g.ritem[ends[i]]
  }

  /** The rules are listed in the order of their ends, each once. */
  ghost predicate RulesOk(g: Grammar, kernel: seq<int>, rules: seq<int>) {
    exists ends :: EndsOf(g, kernel, ends) && RulesAt(g, ends, rules)
  }

  lemma RuleHasEnd(g: Grammar, kernel: seq<int>, ends: seq<int>, rules: seq<int>, i: nat)
    requires EndsOf(g, kernel, ends) && RulesAt(g, ends, rules) && i < |rules|
    ensures Reduces(g, kernel, rules[i])
  {
    var j := ends[i];
    assert j in ends;
    assert EndOf(g, j, rules[i]);
  }

  lemma EndHasRule(g: Grammar, kernel: seq<int>, ends: seq<int>, rules: seq<int>, j: int, r: int)
    requires EndsOf(g, kernel, ends) && RulesAt(g, ends, rules) && r > 0 && InClosure(g, kernel, j) && EndOf(g, j, r)
    ensures r in rules
  {
    assert IsEnd(g, j);
    assert j in ends;
    var i :| 0 <= i < |ends| && ends[i] == j;
    assert rules[i] == r;
  }

  lemma RulesMembers(g: Grammar, kernel: seq<int>, rules: seq<int>, r: int)
    requires RulesOk(g, kernel, rules)
    ensures r in rules <==> Reduces(g, kernel, r)
  {
    var ends :| EndsOf(g, kernel, ends) && RulesAt(g, ends, rules);
    if r in rules {
      var i :| 0 <= i < |rules| && rules[i] == r;
      RuleHasEnd(g, kernel, ends, rules, i);
    }
    if Reduces(g, kernel, r) {
      var j :| InClosure(g, kernel, j) && EndOf(g, j, r);
      EndHasRule(g, kernel, ends, rules, j, r);
    }
  }

  function RulesOf(reds: seq<Reductions>, s: nat): seq<int> {
    if reds == [] then []
    else
      var last := reds[|reds| - 1];
      if last.number == s then last.rules else RulesOf(reds[..|reds| - 1], s)
  }

  /** What is recorded for state `s` is right. */
  ghost predicate RecordOk(g: Grammar, states: seq<Core>, reds: seq<Reductions>, s: nat) {
    s < |states| && RulesOk(g, states[s].items, RulesOf(reds, s))
  }

  ghost predicate ReductionsOk(g: Grammar, states: seq<Core>, reds: seq<Reductions>, n: nat) {
    && n <= |states|
    && (forall i, j :: 0 <= i < j < |reds| ==> reds[i].number < reds[j].number)
    && (forall i :: 0 <= i < |reds| ==> reds[i].number < n && reds[i].rules != [])
    && forall s: nat :: s < n ==> RecordOk(g, states, reds, s)
  }

  lemma {:induction false} RulesOfNone(reds: seq<Reductions>, s: nat)
    requires forall i :: 0 <= i < |reds| ==> reds[i].number != s
    ensures RulesOf(reds, s) == []
  {
    if reds != [] { RulesOfNone(reds[..|reds| - 1], s); }
  }

  lemma ReductionsStay(g: Grammar, states: seq<Core>, more: seq<Core>, reds: seq<Reductions>, n: nat)
    requires ReductionsOk(g, states, reds, n) && states <= more
    ensures ReductionsOk(g, more, reds, n)
  {
    forall s: nat | s < n ensures RecordOk(g, more, reds, s) { assert RecordOk(g, states, reds, s); }
  }

  /** The chain after `save_reductions`. */
  function SavedRules(reds: seq<Reductions>, n: nat, rules: seq<int>): seq<Reductions> {
    if rules == [] then reds else reds + [Reductions(n, rules)]
  }

  lemma RulesOfSaved(reds: seq<Reductions>, n: nat, rules: seq<int>, s: nat)
    requires forall i :: 0 <= i < |reds| ==> reds[i].number < n
    ensures RulesOf(SavedRules(reds, n, rules), s) == if s == n then rules else RulesOf(reds, s)
  {
    RulesOfNone(reds, n);
    var now := SavedRules(reds, n, rules);
    assert rules != [] ==> now[..|reds|] == reds;
  }

  lemma ReductionsSnoc(g: Grammar, states: seq<Core>, reds: seq<Reductions>, n: nat, rules: seq<int>)
    requires ReductionsOk(g, states, reds, n) && n < |states| && RulesOk(g, states[n].items, rules)
    ensures ReductionsOk(g, states, SavedRules(reds, n, rules), n + 1)
  {
    var now := SavedRules(reds, n, rules);
    forall s: nat | s < n + 1 ensures RecordOk(g, states, now, s) {
      assert s < n ==> RecordOk(g, states, reds, s);
      RulesOfSaved(reds, n, rules, s);
    }
  }

  // ---------- the finished machine ----------

  ghost predicate Machine(g: Grammar, states: seq<Core>, shifts: seq<Shifts>, reds: seq<Reductions>) {
    && StatesOk(g, states) && ShiftsOk(g, states, shifts, |states|) && ReductionsOk(g, states, reds, |states|)
  }

  /** The target with accessing symbol `x`. */
  ghost function Target(states: seq<Core>, targets: seq<nat>, x: int): (r: Option<nat>)
    ensures r.None? <==> !HasTarget(states, targets, x)
    ensures r.Some? ==> r.value in targets && r.value < |states| && states[r.value].symbol == x
  {
    if HasTarget(states, targets, x) then
      var i :| 0 <= i < |targets| && targets[i] < |states| && states[targets[i]].symbol == x;
      Some(targets[i])
    else
      None
  }

  /** Where the shifts lead from state 0 on symbol string `w`. */
  ghost function Path(states: seq<Core>, shifts: seq<Shifts>, w: seq<int>): (r: Option<nat>)
    requires |states| >= 1
    ensures r.Some? ==> r.value < |states|
  {
    if w == [] then Some(0)
    else
      match Path(states, shifts, w[..|w| - 1])
      case None => None
      case Some(s) => Target(states, TargetsOf(shifts, s), w[|w| - 1])
  }

  /** The kernel of the target on `x`, or none. */
  ghost function TargetItems(states: seq<Core>, targets: seq<nat>, x: int): seq<int>
  {
    match Target(states, targets, x) case None => [] case Some(t) => states[t].items
  }

  lemma TargetGoto(g: Grammar, states: seq<Core>, from: seq<int>, targets: seq<nat>, x: int)
    requires TargetsOk(g, states, from, targets)
    ensures Goto(g, from, x, TargetItems(states, targets, x))
  {
    match Target(states, targets, x)
    case Some(t) =>
      var i :| 0 <= i < |targets| && targets[i] == t;
      assert Goto(g, from, states[targets[i]].symbol, states[targets[i]].items);
    case None =>
      forall k ensures !GotoItem(g, from, x, k) {}
  }

  /** One step: where the closure is the active items, the target's kernel is the next one. */
  lemma GotoIsNext(g: Grammar, from: seq<int>, next: seq<int>, w: seq<int>, x: int)
    requires Goto(g, from, x, next) && forall j :: InClosure(g, from, j) <==> Active(g, w, j)
    ensures KernelAfter(g, w, x, next)
  {
    forall k ensures k in next <==> exists i :: Active(g, w, i) && Moves(g, i, x, k) {
      if i :| Active(g, w, i) && Moves(g, i, x, k) {
        assert GotoItem(g, from, x, k);
      }
      if k in next {
        assert GotoItem(g, from, x, k);
        assert Active(g, w, k - 1) && Moves(g, k - 1, x, k);
      }
    }
  }

  lemma MachineStep(g: Grammar, states: seq<Core>, from: seq<int>, targets: seq<nat>, v: seq<int>, x: int)
    requires WellFormed(g) && StatesOk(g, states) && TargetsOk(g, states, from, targets)
    requires forall j :: InClosure(g, from, j) <==> Active(g, v, j)
    ensures match Target(states, targets, x)
      case None => forall j :: !Active(g, v + [x], j)
      case Some(t) =>
        && t > 0 && (exists j :: Active(g, v + [x], j))
        && forall j :: InClosure(g, states[t].items, j) <==> Active(g, v + [x], j)
  {
    TargetGoto(g, states, from, targets, x);
    GotoIsNext(g, from, TargetItems(states, targets, x), v, x);
    match Target(states, targets, x)
    case None =>
      forall j { NothingActive(g, v, x, j); }
    case Some(t) =>
      var kernel := states[t].items;
      assert KernelAt(g, states[t].symbol, kernel);
      forall j { NextClosure(g, v, x, kernel, j); }
      assert InClosure(g, kernel, kernel[0]);
  }

  /** The machine is where the item automaton is after `w`. */
  ghost predicate Follows(g: Grammar, states: seq<Core>, at: Option<nat>, w: seq<int>) {
    match at
    case None => w != [] && forall j :: !Active(g, w, j)
    case Some(s) =>
      && s < |states| && (w != [] ==> s > 0 && exists j :: Active(g, w, j))
      && forall j :: InClosure(g, states[s].items, j) <==> Active(g, w, j)
  }

  lemma FollowsFirst(g: Grammar, states: seq<Core>)
    requires WellFormed(g) && StatesOk(g, states)
    ensures Follows(g, states, Some(0), [])
  {
    forall j { InitialClosure(g, j); }
  }

  lemma FollowsNowhere(g: Grammar, states: seq<Core>, v: seq<int>, x: int)
    requires WellFormed(g) && Follows(g, states, None, v)
    ensures Follows(g, states, None, v + [x])
  {
    DeadStays(g, v, x);
  }

  lemma FollowsOn(g: Grammar, states: seq<Core>, shifts: seq<Shifts>, s: nat, v: seq<int>, x: int)
    requires WellFormed(g) && StatesOk(g, states) && ShiftsOk(g, states, shifts, |states|)
    requires Follows(g, states, Some(s), v)
    ensures Follows(g, states, Target(states, TargetsOf(shifts, s), x), v + [x])
  {
    assert ShiftOk(g, states, shifts, s);
    MachineStep(g, states, states[s].items, TargetsOf(shifts, s), v, x);
  }

  lemma {:induction false} PathFollowsItems(g: Grammar, states: seq<Core>, shifts: seq<Shifts>, w: seq<int>)
    requires WellFormed(g) && StatesOk(g, states) && ShiftsOk(g, states, shifts, |states|)
    ensures Follows(g, states, Path(states, shifts, w), w)
  {
    if w == [] {
      FollowsFirst(g, states);
    } else {
      var v, x := w[..|w| - 1], w[|w| - 1];
      assert w == v + [x];
      PathFollowsItems(g, states, shifts, v);
      match Path(states, shifts, v)
      case None => FollowsNowhere(g, states, v, x);
      case Some(s) => FollowsOn(g, states, shifts, s, v, x);
    }
  }

  /** On every symbol string the machine is where the item automaton is. */
  lemma MachineFollowsItems(g: Grammar, states: seq<Core>, shifts: seq<Shifts>, reds: seq<Reductions>, w: seq<int>)
    requires WellFormed(g) && Machine(g, states, shifts, reds)
    ensures match Path(states, shifts, w)
      case None => w != [] && forall j :: !Active(g, w, j)
      case Some(s) =>
        && (w != [] ==> s > 0 && exists j :: Active(g, w, j))
        && forall j :: InClosure(g, states[s].items, j) <==> Active(g, w, j)
  {
    PathFollowsItems(g, states, shifts, w);
  }

  /** Every state but 0 is the target of an earlier one. */
  ghost predicate Rooted(states: seq<Core>, shifts: seq<Shifts>) {
    forall s: nat :: 1 <= s < |states| ==> HasSource(shifts, s)
  }

  ghost predicate HasSource(shifts: seq<Shifts>, s: nat) {
    exists t: nat :: t < s && IsTarget(shifts, t, s)
  }

  predicate IsTarget(shifts: seq<Shifts>, t: nat, s: nat) { s in TargetsOf(shifts, t) }

  lemma StillRooted(states: seq<Core>, more: seq<Core>, shifts: seq<Shifts>, k: nat, targets: seq<nat>)
    requires Rooted(states, shifts) && states <= more && k < |states| && ChainBelow(shifts, k)
    requires forall s: nat :: |states| <= s < |more| ==> s in targets
    ensures Rooted(more, Saved(shifts, k, targets))
  {
    var now := Saved(shifts, k, targets);
    forall s: nat | 1 <= s < |more| ensures HasSource(now, s) {
      if s < |states| {
        assert HasSource(shifts, s);
        var t: nat :| t < s && IsTarget(shifts, t, s);
        TargetsOfSaved(shifts, k, targets, t);
        TargetsOfNone(shifts, k);
        assert IsTarget(now, t, s);
      } else {
        TargetsOfSaved(shifts, k, targets, k);
        assert IsTarget(now, k, s);
      }
    }
  }

  /** No state is superfluous: each is where some string leads. */
  lemma {:induction false} EveryStateReached(g: Grammar, states: seq<Core>, shifts: seq<Shifts>, reds: seq<Reductions>,
                                             s: nat)
      returns (w: seq<int>)
    requires WellFormed(g) && Machine(g, states, shifts, reds) && Rooted(states, shifts) && s < |states|
    ensures Path(states, shifts, w) == Some(s)
  {
    if s == 0 {
      w := [];
    } else {
      assert HasSource(shifts, s);
      var t: nat :| t < s && IsTarget(shifts, t, s);
      var v := EveryStateReached(g, states, shifts, reds, t);
      w := v + [states[s].symbol];
      assert w[..|w| - 1] == v;
      assert ShiftOk(g, states, shifts, t);
      TargetOfState(states, TargetsOf(shifts, t), s);
    }
  }

  lemma TargetOfState(states: seq<Core>, targets: seq<nat>, s: nat)
    requires forall i :: 0 <= i < |targets| ==> targets[i] < |states|
    requires SymbolsIncrease(states, targets) && s in targets
    ensures Target(states, targets, states[s].symbol) == Some(s)
  {
    var x := states[s].symbol;
    var i :| 0 <= i < |targets| && targets[i] == s;
    assert HasTarget(states, targets, x);
    var r := Target(states, targets, x);
    assert r.Some? && r.value in targets && states[r.value].symbol == x;
    var j :| 0 <= j < |targets| && targets[j] == r.value;
    assert states[targets[i]].symbol == states[targets[j]].symbol;
  }

  /** The ends of rules active after `w`, in increasing order. */
  ghost predicate ActiveEnds(g: Grammar, w: seq<int>, ends: seq<int>) {
    Increasing(ends) && forall j :: j in ends <==> IsEnd(g, j) && Active(g, w, j)
  }

  /** After `w` the machine can reduce the rules whose ends are active, listed in the order of these ends. */
  lemma ReductionsInOrder(g: Grammar, states: seq<Core>, shifts: seq<Shifts>, reds: seq<Reductions>, w: seq<int>,
                          s: nat)
      returns (ends: seq<int>)
    requires WellFormed(g) && Machine(g, states, shifts, reds) && Path(states, shifts, w) == Some(s)
    ensures ActiveEnds(g, w, ends) && RulesAt(g, ends, RulesOf(reds, s))
  {
    MachineFollowsItems(g, states, shifts, reds, w);
    assert RecordOk(g, states, reds, s);
    ends :| EndsOf(g, states[s].items, ends) && RulesAt(g, ends, RulesOf(reds, s));
  }

  /** After `w` the machine can reduce rule `r` exactly when an end of `r` is active. */
  lemma ReductionsFollowItems(g: Grammar, states: seq<Core>, shifts: seq<Shifts>, reds: seq<Reductions>, w: seq<int>,
                              r: int)
    requires WellFormed(g) && Machine(g, states, shifts, reds) && r > 0
    ensures (exists j :: Active(g, w, j) && EndOf(g, j, r)) <==>
      match Path(states, shifts, w) case None => false case Some(s) => r in RulesOf(reds, s)
  {
    MachineFollowsItems(g, states, shifts, reds, w);
    match Path(states, shifts, w)
    case None =>
    case Some(s) =>
      var kernel := states[s].items;
      assert RecordOk(g, states, reds, s);
      RulesMembers(g, kernel, RulesOf(reds, s), r);
      if j :| Active(g, w, j) && EndOf(g, j, r) {
        assert InClosure(g, kernel, j);
      }
  }

  // ---------- kernels ----------

  ghost predicate SameMembers(s: seq<int>, t: seq<int>) { forall k :: k in s <==> k in t }

  lemma BothEmpty(s: seq<int>, t: seq<int>)
    requires SameMembers(s, t)
    ensures s == [] <==> t == []
  {
    if s != [] {
      var x := s[0];
      assert x in s && x in t;
    }
    if t != [] {
      var y := t[0];
      assert y in t && y in s;
    }
  }

  /** An increasing list is determined by its members. */
  lemma {:induction false} IncreasingSame(s: seq<int>, t: seq<int>)
    requires Increasing(s) && Increasing(t) && SameMembers(s, t)
    ensures s == t
    decreases |s|
  {
    BothEmpty(s, t);
    if s != [] {
      LastSame(s, t);
      var s', t', x := s[..|s| - 1], t[..|t| - 1], s[|s| - 1];
      assert s == s' + [x] && t == t' + [x];
      forall k ensures k in s' <==> k in t' {
        ButLast(s, k);
        ButLast(t, k);
      }
      IncreasingSame(s', t');
    }
  }

  lemma ButLast(s: seq<int>, k: int)
    requires Increasing(s) && s != []
    ensures k in s[..|s| - 1] <==> k in s && k != s[|s| - 1]
  {
    assert s == s[..|s| - 1] + [s[|s| - 1]];
  }

  lemma LastSame(s: seq<int>, t: seq<int>)
    requires Increasing(s) && Increasing(t) && s != [] && t != [] && SameMembers(s, t)
    ensures s[|s| - 1] == t[|t| - 1]
  {
    var x, y := s[|s| - 1], t[|t| - 1];
    assert x in s && y in t;
    var i :| 0 <= i < |t| && t[i] == x;
    var j :| 0 <= j < |s| && s[j] == y;
  }

  // ---------- kernels are finitely many ----------

  ghost function Pow2(n: nat): nat { if n == 0 then 1 else 2 * Pow2(n - 1) }

  /** An increasing list of numbers below `n`. */
  predicate ListBelow(s: seq<int>, n: nat) {
    Increasing(s) && forall i :: 0 <= i < |s| ==> 0 <= s[i] < n
  }

  lemma FirstBelow(s: seq<int>, n: nat)
    requires ListBelow(s, n) && s != []
    ensures n > 0
  {
    assert 0 <= s[0] < n;
  }

  /** There are at most 2^n increasing lists of numbers below n. */
  lemma {:induction false} ListsBelow(lists: set<seq<int>>, n: nat)
    requires forall s :: s in lists ==> ListBelow(s, n)
    ensures |lists| <= Pow2(n)
    decreases n
  {
    if n == 0 {
      forall s | s in lists ensures s == [] { if s != [] { FirstBelow(s, n); } }
      SubsetSize(lists, {[]});
    } else {
      var with, cut := SplitLists(lists, n);
      ListsBelow(lists - with, n - 1);
      ListsBelow(cut, n - 1);
      SizeSplit(lists, with);
    }
  }

  lemma SizeSplit<T>(a: set<T>, b: set<T>)
    requires b <= a
    ensures |a| == |b| + |a - b|
  {
    assert a == b + (a - b);
  }

  /** Those lists that end in n - 1, and what is left of them without it. */
  lemma SplitLists(lists: set<seq<int>>, n: nat) returns (with: set<seq<int>>, cut: set<seq<int>>)
    requires n > 0 && forall s :: s in lists ==> ListBelow(s, n)
    ensures with <= lists && |cut| == |with|
    ensures forall s :: s in lists - with ==> ListBelow(s, n - 1)
    ensures forall s :: s in cut ==> ListBelow(s, n - 1)
  {
    with := set s | s in lists && EndsIn(s, n - 1);
    cut := set s | s in with :: s[..|s| - 1];
    forall s | s in lists - with ensures ListBelow(s, n - 1) {
      NotEnding(s, n);
    }
    forall s | s in cut ensures ListBelow(s, n - 1) {
      var u :| u in with && s == u[..|u| - 1];
      Ending(u, n);
    }
    CutSize(with, cut, n);
  }

  predicate EndsIn(s: seq<int>, x: int) { s != [] && s[|s| - 1] == x }

  lemma NotEnding(s: seq<int>, n: nat)
    requires n > 0 && ListBelow(s, n) && !EndsIn(s, n - 1)
    ensures ListBelow(s, n - 1)
  {
    forall i | 0 <= i < |s| ensures s[i] < n - 1 {
      assert s[i] <= s[|s| - 1];
    }
  }

  lemma Ending(s: seq<int>, n: nat)
    requires n > 0 && ListBelow(s, n) && EndsIn(s, n - 1)
    ensures ListBelow(s[..|s| - 1], n - 1)
  {
  }

  lemma SubsetSize<T>(a: set<T>, b: set<T>)
    requires a <= b
    ensures |a| <= |b|
  {
    assert b == a + (b - a);
  }

  /** Lists that end alike differ before the end. */
  lemma {:induction false} CutSize(with: set<seq<int>>, cut: set<seq<int>>, n: nat)
    requires forall s :: s in with ==> s != [] && s[|s| - 1] == n - 1
    requires cut == set s | s in with :: s[..|s| - 1]
    ensures |cut| == |with|
  {
    if with != {} {
      var s :| s in with;
      var c := s[..|s| - 1];
      var with', cut' := with - {s}, cut - {c};
      forall u | u in with' ensures u[..|u| - 1] != c {
        assert u == u[..|u| - 1] + [n - 1] && s == c + [n - 1];
      }
      assert cut' == set s | s in with' :: s[..|s| - 1] by {
        forall d | d in cut' ensures d in (set s | s in with' :: s[..|s| - 1]) {
          var u :| u in with && d == u[..|u| - 1];
          assert u in with';
        }
      }
      CutSize(with', cut', n);
    } else {
      assert cut == {};
    }
  }

  /** The worklist stays below 2^nitems. */
  lemma StateCount(g: Grammar, states: seq<Core>)
    requires WellFormed(g) && StatesOk(g, states)
    ensures |states| <= Pow2(g.nitems())
  {
    var kernels := set s | 0 <= s < |states| :: states[s].items;
    forall k | k in kernels ensures ListBelow(k, g.nitems()) {
      var s :| 0 <= s < |states| && k == states[s].items;
      if s > 0 {
        assert KernelAt(g, states[s].symbol, states[s].items);
        forall i | 0 <= i < |k| ensures 0 <= k[i] < g.nitems() { assert JustAfter(g, states[s].symbol, k[i]); }
      }
    }
    ListsBelow(kernels, g.nitems());
    KernelCount(states, |states|);
    var some := set s | 0 <= s < |states| :: states[s].items;
    assert some == kernels;
  }

  lemma {:induction false} KernelCount(states: seq<Core>, n: nat)
    requires n <= |states| && forall s, t :: 0 <= s < t < |states| ==> states[s].items != states[t].items
    ensures |set s | 0 <= s < n :: states[s].items| == n
  {
    var some := set s | 0 <= s < n :: states[s].items;
    if n == 0 {
      assert some == {};
    } else {
      KernelCount(states, n - 1);
      var fewer := set s | 0 <= s < n - 1 :: states[s].items;
      assert some == fewer + {states[n-1].items};
      assert states[n-1].items !in fewer;
    }
  }
}
