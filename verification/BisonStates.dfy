/**
 bin/bison/LR0.c, `generate_states` up to the augmentation: the worklist over kernels, the hash
 table that recognises a kernel already met, and the chains of shifts and reductions.
 */
module BisonStates {
  import opened BisonGrammar
  import opened BisonClosure
  import opened BisonKernels
  import opened BisonMachine

  const StateTableSize: nat := 1009
  const MaxShort: nat := 32767

  // ---------- the hash key ----------

  function Sum(s: seq<int>): int {
    if s == [] then 0 else Sum(s[..|s| - 1]) + s[|s| - 1]
  }

  function Key(items: seq<int>): nat { Sum(items) % StateTableSize }

  method HashKey(items: array<int>, lo: nat, hi: nat) returns (key: nat)
    requires lo <= hi <= items.Length
    ensures key == Key(items[lo..hi]) == Sum(items[lo..hi]) % 1009
  {
    var sum, isp := 0, lo;
    while isp < hi
      invariant lo <= isp <= hi && sum == Sum(items[lo..isp])
    {
      assert items[lo..isp+1][..isp-lo] == items[lo..isp];
      sum := sum + items[isp];
      isp := isp + 1;
    }
    key := sum % StateTableSize;
  }

  /** The comparison inside `get_state`: lengths first, then item by item. */
  method SameItems(other: seq<int>, items: array<int>, lo: nat, hi: nat) returns (found: bool)
    requires lo <= hi <= items.Length
    ensures found <==> other == items[lo..hi]
  {
    found := false;
    if |other| == hi - lo {
      found := true;
      var isp := lo;
      while found && isp < hi
        invariant lo <= isp <= hi
        invariant found ==> other[..isp-lo] == items[lo..isp]
        invariant !found ==> other != items[lo..hi]
        decreases hi - isp, found
      {
        if items[isp] != other[isp - lo] {
          assert items[lo..hi][isp - lo] != other[isp - lo];
          found := false;
        } else {
          assert other[..isp+1-lo] == other[..isp-lo] + [other[isp-lo]];
          assert items[lo..isp+1] == items[lo..isp] + [items[isp]];
        }
        isp := isp + 1;
      }
      if found { assert other[..hi-lo] == other; }
    }
  }

  // ---------- the hash table ----------

  /** Every state but 0 is in the bucket of its key, and buckets hold nothing else. */
  ghost predicate TableOk(states: seq<Core>, table: seq<seq<nat>>) {
    && |table| == StateTableSize
    && (forall b, k :: 0 <= b < |table| && 0 <= k < |table[b]| ==> InBucket(states, table[b][k], b))
    && (forall s: nat :: 1 <= s < |states| ==> s in table[Key(states[s].items)])
  }

  ghost predicate InBucket(states: seq<Core>, s: nat, b: int) {
    1 <= s < |states| && Key(states[s].items) == b
  }

  lemma TableSnoc(states: seq<Core>, table: seq<seq<nat>>, core: Core)
    requires TableOk(states, table) && |states| >= 1
    ensures var b := Key(core.items); TableOk(states + [core], table[b := table[b] + [|states|]])
  {
    var b, more := Key(core.items), states + [core];
    var table' := table[b := table[b] + [|states|]];
    forall c, k | 0 <= c < |table'| && 0 <= k < |table'[c]| ensures InBucket(more, table'[c][k], c) {
      if c != b || k < |table[b]| {
        assert InBucket(states, table[c][k], c);
      }
    }
    forall s: nat | 1 <= s < |more| ensures s in table'[Key(more[s].items)] {
      if s < |states| {
        assert s in table[Key(states[s].items)];
      }
    }
  }

  /** No state has the kernel `items`. */
  ghost predicate Unknown(states: seq<Core>, items: seq<int>) {
    forall s :: 0 <= s < |states| ==> states[s].items != items
  }

  lemma NotInBucket(states: seq<Core>, table: seq<seq<nat>>, items: seq<int>)
    requires TableOk(states, table) && |states| >= 1 && states[0].items != items
    requires forall k :: 0 <= k < |table[Key(items)]| ==>
      table[Key(items)][k] < |states| && states[table[Key(items)][k]].items != items
    ensures Unknown(states, items)
  {
    forall s: nat | s < |states| ensures states[s].items != items {
      if s > 0 {
        assert s in table[Key(states[s].items)];
      }
    }
  }

  // ---------- sorting the symbols ----------

  function InsertInto(s: seq<int>, x: int): seq<int> {
    if s == [] || s[|s| - 1] <= x then s + [x]
    else InsertInto(s[..|s| - 1], x) + [s[|s| - 1]]
  }

  lemma {:induction false} InsertMembers(s: seq<int>, x: int)
    requires Increasing(s) && x !in s
    ensures Increasing(InsertInto(s, x)) && |InsertInto(s, x)| == |s| + 1
    ensures forall y :: y in InsertInto(s, x) <==> y in s || y == x
  {
    if s != [] && s[|s| - 1] > x {
      var n := |s| - 1;
      var rest := InsertInto(s[..n], x);
      InsertMembers(s[..n], x);
      assert s == s[..n] + [s[n]];
      forall i | 0 <= i < |rest| ensures rest[i] < s[n] {
        assert rest[i] in rest;
        assert rest[i] != x ==> rest[i] in s[..n];
      }
    } else if s != [] {
      assert s[|s| - 1] in s;
    }
  }

  lemma {:induction false} InsertPlace(s: seq<int>, x: int, j: nat)
    requires j <= |s| && (j == 0 || s[j - 1] <= x) && forall t :: j <= t < |s| ==> s[t] > x
    ensures InsertInto(s, x) == s[..j] + [x] + s[j..]
  {
    if j < |s| {
      var n := |s| - 1;
      InsertPlace(s[..n], x, j);
      assert s[..n][..j] == s[..j] && s[..n][j..] + [s[n]] == s[j..];
    } else {
      assert s[..j] == s;
    }
  }

  /** The inner loop of `append_states`: larger symbols move up, then the symbol is put in. */
  method InsertSymbol(a: array<int>, i: nat)
    requires i < a.Length
    modifies a
    ensures a[..i+1] == InsertInto(old(a[..i]), old(a[i]))
    ensures forall t :: i < t < a.Length ==> a[t] == old(a[t])
  {
    var symbol, j := a[i], i;
    ghost var was := a[..i];
    while j > 0 && a[j - 1] > symbol
      invariant 0 <= j <= i
      invariant forall t :: 0 <= t < j ==> a[t] == was[t]
      invariant forall t :: j < t <= i ==> a[t] == was[t - 1]
      invariant forall t :: j <= t < i ==> was[t] > symbol
      invariant forall t :: i < t < a.Length ==> a[t] == old(a[t])
    {
      a[j] := a[j - 1];
      j := j - 1;
    }
    a[j] := symbol;
    InsertPlace(was, symbol, j);
  }

  /** The sorting loop of `append_states`. */
  method SortSymbols(a: array<int>, n: nat)
    requires n <= a.Length && forall i, j :: 0 <= i < j < n ==> a[i] != a[j]
    modifies a
    ensures Increasing(a[..n]) && forall x :: x in a[..n] <==> x in old(a[..n])
  {
    if n > 0 {
      var i := 1;
      ghost var was := a[..n];
      while i < n
        invariant 1 <= i <= n && Increasing(a[..i])
        invariant forall x :: x in a[..i] <==> x in was[..i]
        invariant forall t :: i <= t < a.Length ==> a[t] == old(a[t])
      {
        ghost var s, x := a[..i], a[i];
        assert x == was[i] && x !in was[..i];
        InsertMembers(s, x);
        InsertSymbol(a, i);
        assert was[..i+1] == was[..i] + [x];
        i := i + 1;
      }
      assert was[..n] == was;
    }
  }

  // ---------- what the targets of one state are ----------

  /** `items` is the closure of `core`, in order. */
  ghost predicate ClosureList(g: Grammar, core: seq<int>, items: seq<int>) {
    ItemList(g, items) && forall j :: j in items <==> InClosure(g, core, j)
  }

  lemma KernelOfAt(g: Grammar, items: seq<int>, x: int)
    requires WellFormed(g) && ItemList(g, items) && 0 < x < g.nsyms() && KernelOf(g, items, x) != []
    ensures KernelAt(g, x, KernelOf(g, items, x))
  {
    var kernel := KernelOf(g, items, x);
    KernelIncreasing(g, items, x);
    forall k | 0 <= k < |kernel| ensures JustAfter(g, x, kernel[k]) {
      KernelMember(g, items, x, kernel[k]);
    }
  }

  lemma KernelOfGoto(g: Grammar, core: seq<int>, items: seq<int>, x: int)
    requires ClosureList(g, core, items) && x > 0
    ensures Goto(g, core, x, KernelOf(g, items, x))
  {
    forall k ensures k in KernelOf(g, items, x) <==> GotoItem(g, core, x, k) {
      KernelMember(g, items, x, k);
    }
  }

  /** No room for the next kernel. */
  lemma NowOverfull(g: Grammar, was: seq<Core>, states: seq<Core>, core: seq<int>, items: seq<int>, symbols: seq<int>,
                    targets: seq<nat>)
    requires WellFormed(g) && ClosureList(g, core, items) && was <= states
    requires StatesOk(g, states) && |states| == MaxShort
    requires Reached(g, states, items, symbols, targets) && |targets| < |symbols|
    requires forall x :: x in symbols ==> 0 < x < g.nsyms() && KernelOf(g, items, x) != []
    requires forall s: nat :: |was| <= s < |states| ==> s in targets
    requires Unknown(states, KernelOf(g, items, symbols[|targets|]))
    ensures Overfull(g, was, states, core)
  {
    forall s: nat | |was| <= s < |states| ensures MadeFrom(g, states, core, s) {
      assert s in targets;
      var t :| 0 <= t < |targets| && targets[t] == s;
      assert ReachedBy(g, states, items, symbols[t], targets[t]) && symbols[t] in symbols;
      KernelOfGoto(g, core, items, symbols[t]);
    }
    var x := symbols[|targets|];
    assert x in symbols;
    KernelOfAt(g, items, x);
    KernelOfGoto(g, core, items, x);
    assert Missing(g, states, core, x, KernelOf(g, items, x));
  }

  /** The first targets are the states for the first symbols. */
  ghost predicate Reached(g: Grammar, states: seq<Core>, items: seq<int>, symbols: seq<int>, targets: seq<nat>)
    requires ItemList(g, items)
  {
    |targets| <= |symbols| && forall t :: 0 <= t < |targets| ==> ReachedBy(g, states, items, symbols[t], targets[t])
  }

  ghost predicate ReachedBy(g: Grammar, states: seq<Core>, items: seq<int>, x: int, s: nat)
    requires ItemList(g, items)
  {
    1 <= s < |states| && states[s] == Core(x, KernelOf(g, items, x))
  }

  lemma ReachedTargets(g: Grammar, states: seq<Core>, core: seq<int>, items: seq<int>, symbols: seq<int>,
                       targets: seq<nat>)
    requires WellFormed(g) && ClosureList(g, core, items) && ShiftSymbols(g, items, symbols) && Increasing(symbols)
    requires Reached(g, states, items, symbols, targets) && |targets| == |symbols|
    ensures TargetsOk(g, states, core, targets)
  {
    forall t | 0 <= t < |targets| ensures Goto(g, core, states[targets[t]].symbol, states[targets[t]].items) {
      assert ReachedBy(g, states, items, symbols[t], targets[t]);
      assert symbols[t] in symbols;
      KernelOfGoto(g, core, items, symbols[t]);
    }
    forall x, k | GotoItem(g, core, x, k) ensures HasTarget(states, targets, x) {
      KernelMember(g, items, x, k);
      assert x in symbols;
      var t :| 0 <= t < |symbols| && symbols[t] == x;
      assert ReachedBy(g, states, items, symbols[t], targets[t]);
    }
    forall i, j | 0 <= i < j < |targets| ensures states[targets[i]].symbol < states[targets[j]].symbol {
      assert ReachedBy(g, states, items, symbols[i], targets[i]) && ReachedBy(g, states, items, symbols[j], targets[j]);
    }
  }

  /** A symbol no state has yet brings a kernel no state has yet. */
  lemma NewSymbol(g: Grammar, states: seq<Core>, x: int, kernel: seq<int>)
    requires StatesOk(g, states) && KernelAt(g, x, kernel) && forall s :: 1 <= s < |states| ==> states[s].symbol != x
    ensures Unknown(states, kernel)
  {
    forall s | 0 <= s < |states| ensures states[s].items != kernel {
      if s > 0 {
        assert KernelAt(g, states[s].symbol, states[s].items);
        assert JustAfter(g, states[s].symbol, states[s].items[0]) && JustAfter(g, x, kernel[0]);
      }
    }
  }

  /** The states made out of state 0 are 1, 2, ... in the order of their symbols. */
  ghost predicate InOrder(states: seq<Core>, targets: seq<nat>) {
    |states| == |targets| + 1 && Counting(targets)
  }

  predicate Counting(targets: seq<nat>) { forall t :: 0 <= t < |targets| ==> targets[t] == t + 1 }

  lemma StillInOrder(g: Grammar, states: seq<Core>, items: seq<int>, symbols: seq<int>, targets: seq<nat>)
    requires WellFormed(g) && StatesOk(g, states) && ItemList(g, items) && InOrder(states, targets)
    requires Increasing(symbols) && Reached(g, states, items, symbols, targets) && |targets| < |symbols|
    requires KernelAt(g, symbols[|targets|], KernelOf(g, items, symbols[|targets|]))
    ensures Unknown(states, KernelOf(g, items, symbols[|targets|]))
  {
    forall s | 1 <= s < |states| ensures states[s].symbol != symbols[|targets|] {
      assert ReachedBy(g, states, items, symbols[s - 1], targets[s - 1]);
    }
    NewSymbol(g, states, symbols[|targets|], KernelOf(g, items, symbols[|targets|]));
  }

  /** The ends of rules among the items, in order. */
  ghost predicate EndsAmong(g: Grammar, items: seq<int>, ends: seq<int>) {
    Increasing(ends) && forall j :: j in ends <==> IsEnd(g, j) && j in items
  }

  lemma EndsSnoc(g: Grammar, items: seq<int>, i: nat, ends: seq<int>)
    requires ItemList(g, items) && i < |items| && EndsAmong(g, items[..i], ends)
    ensures EndsAmong(g, items[..i + 1], if IsEnd(g, items[i]) then ends + [items[i]] else ends)
  {
    var x := items[i];
    assert items[..i + 1] == items[..i] + [x];
    forall t | 0 <= t < |ends| ensures ends[t] < x {
      var j := ends[t];
      assert j in items[..i];
    }
  }

  lemma AmongClosure(g: Grammar, core: seq<int>, items: seq<int>, ends: seq<int>)
    requires ClosureList(g, core, items) && EndsAmong(g, items, ends)
    ensures EndsOf(g, core, ends)
  {
  }

  /** The first loop of `save_reductions`: the rules that end among the items, in the order of the items. */
  method FindReductions(g: Grammar, items: seq<int>) returns (redset: seq<int>, ghost ends: seq<int>)
    requires ItemList(g, items)
    ensures EndsAmong(g, items, ends) && RulesAt(g, ends, redset)
  {
    redset, ends := [], [];
    for isp := 0 to |items|
      invariant EndsAmong(g, items[..isp], ends) && RulesAt(g, ends, redset)
    {
      EndsSnoc(g, items, isp, ends);
      var item := g.ritem[items[isp]];
      if item < 0 {
        redset := redset + [-item];
        ends := ends + [items[isp]];
      }
    }
    assert items[..|items|] == items;
  }

  // ---------- the worklist ----------

  /** Shifts and reductions are complete for the states below `k`. */
  ghost predicate Treated(g: Grammar, states: seq<Core>, shifts: seq<Shifts>, reds: seq<Reductions>, k: nat) {
    && ShiftsOk(g, states, shifts, k) && ReductionsOk(g, states, reds, k) && Rooted(states, shifts)
    && (k == 0 ==> |states| == 1) && (k > 0 ==> Counting(TargetsOf(shifts, 0)))
  }

  /** Moreover the states are numbered as they are met. */
  ghost predicate Progress(g: Grammar, states: seq<Core>, shifts: seq<Shifts>, reds: seq<Reductions>, k: nat) {
    Treated(g, states, shifts, reds, k) && BornInOrder(states, shifts)
  }

  lemma MoreShifts(g: Grammar, was: seq<Core>, states: seq<Core>, shifts: seq<Shifts>, k: nat, targets: seq<nat>)
    requires ShiftsOk(g, was, shifts, k) && was <= states && k < |was|
    requires TargetsOk(g, states, was[k].items, targets)
    ensures ShiftsOk(g, states, Saved(shifts, k, targets), k + 1)
  {
    ShiftsStay(g, was, states, shifts, k);
    ShiftsSnoc(g, states, shifts, k, targets);
  }

  lemma TreatedStep(g: Grammar, was: seq<Core>, states: seq<Core>, shifts: seq<Shifts>, reds: seq<Reductions>,
                    reds': seq<Reductions>, k: nat, targets: seq<nat>)
    requires Treated(g, was, shifts, reds, k) && was <= states && k < |was|
    requires TargetsOk(g, states, was[k].items, targets) && ReductionsOk(g, was, reds', k + 1)
    requires forall s: nat :: |was| <= s < |states| ==> s in targets
    requires k == 0 ==> Counting(targets)
    ensures Treated(g, states, Saved(shifts, k, targets), reds', k + 1)
  {
    MoreShifts(g, was, states, shifts, k, targets);
    ReductionsStay(g, was, states, reds', k + 1);
    TargetsOfSaved(shifts, k, targets, 0);
    StillRooted(was, states, shifts, k, targets);
  }

  lemma ProgressStep(g: Grammar, was: seq<Core>, states: seq<Core>, shifts: seq<Shifts>, reds: seq<Reductions>,
                     reds': seq<Reductions>, k: nat, targets: seq<nat>)
    requires Progress(g, was, shifts, reds, k) && was <= states && k < |was|
    requires TargetsOk(g, states, was[k].items, targets) && ReductionsOk(g, was, reds', k + 1)
    requires Numbered(|was|, states, targets)
    ensures Progress(g, states, Saved(shifts, k, targets), reds', k + 1)
  {
    TreatedStep(g, was, states, shifts, reds, reds', k, targets);
    BornStep(g, was, states, shifts, k, targets);
  }

  // ---------- the numbers of the states ----------

  /** State `t` is the first that leads to `s`. */
  ghost predicate Born(shifts: seq<Shifts>, t: nat, s: nat) {
    IsTarget(shifts, t, s) && forall u: nat :: u < t ==> !IsTarget(shifts, u, s)
  }

  /** `s` is met before `s'`: from an earlier state, or from the same by a smaller symbol. */
  ghost predicate MetBefore(states: seq<Core>, shifts: seq<Shifts>, t: nat, s: nat, t': nat, s': nat) {
    && Born(shifts, t, s) && Born(shifts, t', s') && s < |states| && s' < |states|
    && (t < t' || (t == t' && states[s].symbol < states[s'].symbol))
  }

  /** States are numbered in the order in which they are met. */
  ghost predicate BornInOrder(states: seq<Core>, shifts: seq<Shifts>) {
    forall t: nat, s: nat, t': nat, s': nat :: MetBefore(states, shifts, t, s, t', s') ==> s < s'
  }

  /** Among the targets the new states are in order. */
  predicate NewInOrder(targets: seq<nat>, base: nat) {
    forall i, j :: 0 <= i < j < |targets| && targets[j] >= base ==> targets[i] < targets[j]
  }

  /** One more target is no earlier one: its symbol is greater than theirs. */
  lemma AnotherTarget(g: Grammar, known: seq<Core>, states: seq<Core>, items: seq<int>, symbols: seq<int>,
                      so: seq<nat>, n: nat)
    requires ItemList(g, items) && Increasing(symbols) && |so| < |symbols| && known <= states
    requires Reached(g, known, items, symbols, so) && ReachedBy(g, states, items, symbols[|so|], n)
    ensures n !in so
  {
    forall t | 0 <= t < |so| ensures so[t] != n {
      assert ReachedBy(g, known, items, symbols[t], so[t]);
      assert states[so[t]].symbol == symbols[t] < symbols[|so|] == states[n].symbol;
    }
  }

  /** One more target: it is an old state or the newest. */
  lemma StillNewInOrder(g: Grammar, known: seq<Core>, states: seq<Core>, base: nat, items: seq<int>, symbols: seq<int>,
                        so: seq<nat>, targets: seq<nat>)
    requires ItemList(g, items) && Increasing(symbols) && |so| < |symbols| && known <= states && base <= |known|
    requires Reached(g, known, items, symbols, so) && Reached(g, states, items, symbols, targets)
    requires so <= targets && |targets| == |so| + 1 && targets[|so|] <= |known| && NewInOrder(so, base)
    requires forall s: nat :: base <= s < |known| ==> s in so
    ensures NewInOrder(targets, base)
  {
    var n := targets[|so|];
    assert ReachedBy(g, states, items, symbols[|so|], n);
    AnotherTarget(g, known, states, items, symbols, so, n);
    assert n < base || n == |known|;
    forall i, j | 0 <= i < j < |targets| && targets[j] >= base ensures targets[i] < targets[j] {
      assert targets[i] == so[i] && ReachedBy(g, known, items, symbols[i], so[i]);
      assert j < |so| ==> targets[j] == so[j];
    }
  }

  /** The states from `base` on are targets, numbered in order; those made out of state 0 are 1, 2, ... */
  ghost predicate Numbered(base: nat, states: seq<Core>, targets: seq<nat>) {
    && (base == 1 ==> InOrder(states, targets)) && NewInOrder(targets, base)
    && forall s: nat :: base <= s < |states| ==> s in targets
  }

  lemma StillNumbered(g: Grammar, known: seq<Core>, states: seq<Core>, base: nat, items: seq<int>, symbols: seq<int>,
                      so: seq<nat>, targets: seq<nat>)
    requires ItemList(g, items) && Increasing(symbols) && |so| < |symbols| && known <= states && base <= |known|
    requires Reached(g, known, items, symbols, so) && Reached(g, states, items, symbols, targets)
    requires so <= targets && |targets| == |so| + 1 && targets[|so|] <= |known| && Numbered(base, known, so)
    requires (forall s: nat :: |known| <= s < |states| ==> s in targets) && (base == 1 ==> InOrder(states, targets))
    ensures Numbered(base, states, targets)
  {
    forall s: nat | base <= s < |states| ensures s in targets {
      if s < |known| { assert s in so; }
    }
    StillNewInOrder(g, known, states, base, items, symbols, so, targets);
  }

  /** Only new states are born in the state just treated. */
  lemma BornLast(was: seq<Core>, shifts: seq<Shifts>, k: nat, targets: seq<nat>, s: nat)
    requires Rooted(was, shifts) && ChainBelow(shifts, k) && (forall i :: 0 <= i < |targets| ==> targets[i] >= 1)
    requires Born(Saved(shifts, k, targets), k, s)
    ensures s in targets && s >= |was|
  {
    TargetsOfSaved(shifts, k, targets, k);
    assert s in targets;
    var i :| 0 <= i < |targets| && targets[i] == s;
    if s < |was| {
      assert HasSource(shifts, s);
      var t: nat :| t < s && IsTarget(shifts, t, s);
      TargetsOfSaved(shifts, k, targets, t);
      if t >= k { TargetsOfNone(shifts, t); }
      assert t < k && IsTarget(Saved(shifts, k, targets), t, s);
    }
  }

  lemma BornEarlier(shifts: seq<Shifts>, k: nat, targets: seq<nat>, t: nat, s: nat)
    requires ChainBelow(shifts, k) && Born(Saved(shifts, k, targets), t, s)
    ensures t <= k && (t < k ==> Born(shifts, t, s))
  {
    TargetsOfSaved(shifts, k, targets, t);
    if t > k { TargetsOfNone(shifts, t); }
    if t < k {
      forall u: nat | u < t ensures !IsTarget(shifts, u, s) {
        TargetsOfSaved(shifts, k, targets, u);
        assert !IsTarget(Saved(shifts, k, targets), u, s);
      }
    }
  }

  /** A state that was a target before the last round is an old one. */
  lemma OldTarget(g: Grammar, was: seq<Core>, shifts: seq<Shifts>, k: nat, t: nat, s: nat)
    requires ShiftsOk(g, was, shifts, k) && t < k && IsTarget(shifts, t, s)
    ensures s < |was|
  {
    assert ShiftOk(g, was, shifts, t);
  }

  lemma LaterSymbol(states: seq<Core>, targets: seq<nat>, base: nat, s: nat, s': nat)
    requires (forall i :: 0 <= i < |targets| ==> targets[i] < |states|) && SymbolsIncrease(states, targets)
    requires NewInOrder(targets, base) && s in targets && s' in targets && s' >= base
    requires states[s].symbol < states[s'].symbol
    ensures s < s'
  {
    var i :| 0 <= i < |targets| && targets[i] == s;
    var j :| 0 <= j < |targets| && targets[j] == s';
    assert states[targets[i]].symbol < states[targets[j]].symbol;
  }

  lemma BornStep(g: Grammar, was: seq<Core>, states: seq<Core>, shifts: seq<Shifts>, k: nat, targets: seq<nat>)
    requires ShiftsOk(g, was, shifts, k) && Rooted(was, shifts) && was <= states && k < |was|
    requires TargetsOk(g, states, was[k].items, targets) && NewInOrder(targets, |was|) && BornInOrder(was, shifts)
    ensures BornInOrder(states, Saved(shifts, k, targets))
  {
    var now := Saved(shifts, k, targets);
    forall t: nat, s: nat, t': nat, s': nat | MetBefore(states, now, t, s, t', s') ensures s < s' {
      BornEarlier(shifts, k, targets, t, s);
      BornEarlier(shifts, k, targets, t', s');
      if t < k { OldTarget(g, was, shifts, k, t, s); } else { BornLast(was, shifts, k, targets, s); }
      if t' < k {
        OldTarget(g, was, shifts, k, t', s');
        assert MetBefore(was, shifts, t, s, t', s');
      } else {
        BornLast(was, shifts, k, targets, s');
        if t == k { LaterSymbol(states, targets, |was|, s, s'); }
      }
    }
  }

  // ---------- how many kernels there are ----------

  /** Kernels, the empty one among them, that are closed under the symbols. */
  ghost predicate Family(g: Grammar, kernels: set<seq<int>>) {
    && [] in kernels
    && forall from, x, to :: from in kernels && KernelAt(g, x, to) && Goto(g, from, x, to) ==> to in kernels
  }

  ghost function KernelsOf(states: seq<Core>): set<seq<int>> { set s | 0 <= s < |states| :: states[s].items }

  /** Every state comes from an earlier one by its symbol, so its kernel is in every family. */
  lemma {:induction false} StateInFamily(g: Grammar, states: seq<Core>, shifts: seq<Shifts>, reds: seq<Reductions>,
                                         k: nat,
                                         kernels: set<seq<int>>, s: nat)
    requires StatesOk(g, states) && Progress(g, states, shifts, reds, k) && Family(g, kernels) && s < |states|
    ensures states[s].items in kernels
  {
    if s > 0 {
      assert HasSource(shifts, s);
      var t: nat :| t < s && IsTarget(shifts, t, s);
      StateInFamily(g, states, shifts, reds, k, kernels, t);
      SourceGoto(g, states, shifts, k, t, s);
      assert KernelAt(g, states[s].symbol, states[s].items);
    }
  }

  lemma SourceGoto(g: Grammar, states: seq<Core>, shifts: seq<Shifts>, k: nat, t: nat, s: nat)
    requires ShiftsOk(g, states, shifts, k) && t < |states| && s < |states| && IsTarget(shifts, t, s)
    ensures Goto(g, states[t].items, states[s].symbol, states[s].items)
  {
    if t >= k { TargetsOfNone(shifts, t); }
    assert ShiftOk(g, states, shifts, t);
    var i :| 0 <= i < |TargetsOf(shifts, t)| && TargetsOf(shifts, t)[i] == s;
  }

  /** The states met so far and one more kernel after `core`. */
  ghost predicate Overfull(g: Grammar, was: seq<Core>, states: seq<Core>, core: seq<int>) {
    && |states| == MaxShort && was <= states && StatesOk(g, states)
    && (forall s: nat :: |was| <= s < |states| ==> MadeFrom(g, states, core, s))
    && exists x, kernel :: Missing(g, states, core, x, kernel)
  }

  /** State `s` is reached from `core`. */
  ghost predicate MadeFrom(g: Grammar, states: seq<Core>, core: seq<int>, s: nat) {
    s < |states| && Goto(g, core, states[s].symbol, states[s].items)
  }

  /** So is a kernel that no state has. */
  ghost predicate Missing(g: Grammar, states: seq<Core>, core: seq<int>, x: int, kernel: seq<int>) {
    KernelAt(g, x, kernel) && Goto(g, core, x, kernel) && Unknown(states, kernel)
  }

  /** Then every family has more than 32767 kernels. */
  lemma TooManyKernels(g: Grammar, was: seq<Core>, states: seq<Core>, shifts: seq<Shifts>, reds: seq<Reductions>,
                       k: nat,
                       kernels: set<seq<int>>)
    requires StatesOk(g, was) && Progress(g, was, shifts, reds, k) && k < |was|
    requires Overfull(g, was, states, was[k].items) && Family(g, kernels)
    ensures |kernels| > 32767
  {
    StateInFamily(g, was, shifts, reds, k, kernels, k);
    forall s: nat | s < |states| ensures states[s].items in kernels {
      if s < |was| {
        StateInFamily(g, was, shifts, reds, k, kernels, s);
      } else {
        assert MadeFrom(g, states, was[k].items, s);
        assert KernelAt(g, states[s].symbol, states[s].items);
      }
    }
    var x, kernel :| Missing(g, states, was[k].items, x, kernel);
    assert kernel in kernels;
    OneMoreKernel(states, kernels, kernel);
  }

  /** Every family has too many kernels. */
  ghost predicate Crowded(g: Grammar) { forall kernels :: Family(g, kernels) ==> |kernels| > 32767 }

  lemma NowCrowded(g: Grammar, was: seq<Core>, states: seq<Core>, shifts: seq<Shifts>, reds: seq<Reductions>, k: nat)
    requires StatesOk(g, was) && Progress(g, was, shifts, reds, k) && k < |was|
    requires Overfull(g, was, states, was[k].items)
    ensures Crowded(g)
  {
    forall kernels | Family(g, kernels) ensures |kernels| > 32767 {
      TooManyKernels(g, was, states, shifts, reds, k, kernels);
    }
  }

  lemma OneMoreKernel(states: seq<Core>, kernels: set<seq<int>>, kernel: seq<int>)
    requires forall s, t :: 0 <= s < t < |states| ==> states[s].items != states[t].items
    requires forall s: nat :: s < |states| ==> states[s].items in kernels
    requires kernel in kernels && Unknown(states, kernel)
    ensures |kernels| > |states|
  {
    KernelCount(states, |states|);
    var some := KernelsOf(states);
    assert some <= kernels - {kernel};
    SubsetSize(some, kernels - {kernel});
  }

  /** The kernels of a finished machine are a family. */
  lemma MachineFamily(g: Grammar, states: seq<Core>, shifts: seq<Shifts>, reds: seq<Reductions>)
    requires Machine(g, states, shifts, reds)
    ensures Family(g, KernelsOf(states)) && |KernelsOf(states)| == |states|
  {
    KernelCount(states, |states|);
    assert states[0].items in KernelsOf(states);
    forall from, x, to | from in KernelsOf(states) && KernelAt(g, x, to) && Goto(g, from, x, to)
      ensures to in KernelsOf(states)
    {
      var s :| 0 <= s < |states| && from == states[s].items;
      KernelReached(g, states, shifts, s, x, to);
    }
  }

  lemma KernelReached(g: Grammar, states: seq<Core>, shifts: seq<Shifts>, s: nat, x: int, to: seq<int>)
    requires StatesOk(g, states) && ShiftsOk(g, states, shifts, |states|) && s < |states|
    requires KernelAt(g, x, to) && Goto(g, states[s].items, x, to)
    ensures exists t :: 0 <= t < |states| && states[t].items == to
  {
    var targets, from := TargetsOf(shifts, s), states[s].items;
    assert ShiftOk(g, states, shifts, s);
    var k := to[0];
    assert k in to;
    assert GotoItem(g, from, x, k);
    assert HasTarget(states, targets, x);
    var i :| 0 <= i < |targets| && targets[i] < |states| && states[targets[i]].symbol == x;
    var other := states[targets[i]].items;
    assert Goto(g, from, x, other);
    assert KernelAt(g, x, other);
    IncreasingSame(other, to);
  }

  // ---------- the builder ----------

  class Builder {
    const g: Grammar
    const fderives: array2<bool>
    const kernelItems: array<int>
    const kernelBase: seq<int>
    const kernelEnd: array<int>
    const shiftSymbol: array<int>
    const table: array<seq<nat>>
    var states: seq<Core>
    var shifts: seq<Shifts>
    var reductions: seq<Reductions>

    ghost predicate Laid()
      reads fderives
    {
      && WellFormed(g) && FderivesOk(g, fderives)
      && kernelItems != kernelEnd && kernelItems != shiftSymbol && kernelEnd != shiftSymbol
      && kernelItems.Length == Base(g, g.nsyms()) && kernelEnd.Length == shiftSymbol.Length == g.nsyms()
      && |kernelBase| == g.nsyms() && (forall x: nat :: x < g.nsyms() ==> kernelBase[x] == Base(g, x))
    }

    ghost predicate Valid()
      reads this, fderives, table
    {
      Laid() && StatesOk(g, states) && TableOk(states, table[..]) && |states| <= MaxShort
    }

    /** `allocate_storage`, `initialize_closure` and `initialize_states`. */
    constructor (g: Grammar)
      requires WellFormed(g)
      ensures Valid() && this.g == g && states == [Core(0, [])] && shifts == [] && reductions == []
      ensures fresh(fderives) && fresh(kernelItems) && fresh(kernelEnd) && fresh(shiftSymbol) && fresh(table)
    {
      var items, bases := AllocateItemsets(g);
      var ends := new int[g.nsyms()];
      var symbols := new int[g.nsyms()];
      var derives := SetDerives(g);
      var fd := SetFderives(g, derives);
      var buckets := new seq<nat>[StateTableSize](_ => []);
      this.g := g;
      fderives, kernelItems, kernelBase, kernelEnd, shiftSymbol := fd, items, bases, ends, symbols;
      table := buckets;
      states, shifts, reductions := [Core(0, [])], [], [];
    }

    /** The walk along a bucket in `get_state`; -1 when the bucket is exhausted. */
    method SearchBucket(key: nat, lo: nat, hi: nat) returns (n: int)
      requires Valid() && lo < hi <= kernelItems.Length && key == Key(kernelItems[lo..hi])
      ensures n == -1 ==> Unknown(states, kernelItems[lo..hi])
      ensures n != -1 ==> 1 <= n < |states| && states[n].items == kernelItems[lo..hi]
    {
      var bucket := table[key];
      for k := 0 to |bucket|
        invariant forall t :: 0 <= t < k ==> bucket[t] < |states| && states[bucket[t]].items != kernelItems[lo..hi]
      {
        assert InBucket(states, table[..][key][k], key);
        var found := SameItems(states[bucket[k]].items, kernelItems, lo, hi);
        if found { return bucket[k]; }
      }
      n := -1;
      NotInBucket(states, table[..], kernelItems[lo..hi]);
    }

    /** `new_state`, and the link put at the end of the bucket; it fails when states are too many. */
    method NewState(symbol: int, key: nat, lo: nat, hi: nat) returns (ok: bool, n: nat)
      requires Valid() && lo < hi <= kernelItems.Length && key == Key(kernelItems[lo..hi])
      requires KernelAt(g, symbol, kernelItems[lo..hi]) && Unknown(states, kernelItems[lo..hi])
      modifies this`states, table
      ensures ok <==> old(|states|) < MaxShort
      ensures !ok ==> states == old(states)
      ensures ok ==> Valid() && n == old(|states|) && states == old(states) + [Core(symbol, kernelItems[lo..hi])]
    {
      if |states| >= MaxShort { return false, 0; }
      ok, n := true, |states|;
      TableSnoc(states, table[..], Core(symbol, kernelItems[lo..hi]));
      states := states + [Core(symbol, kernelItems[lo..hi])];
      table[key] := table[key] + [n];
      assert table[..] == old(table[..])[key := old(table[..])[key] + [n]];
    }

    /** `get_state`: the state with the kernel now held for `symbol`, made if there is none. */
    method GetState(symbol: nat, ghost items: seq<int>) returns (ok: bool, n: nat)
      requires Valid() && 0 < symbol < g.nsyms()
      requires Holds(g, items, kernelItems[..], kernelBase, kernelEnd[..])
      requires KernelAt(g, symbol, KernelOf(g, items, symbol))
      modifies this`states, table
      ensures old(states) <= states && |states| <= old(|states|) + 1
      ensures !ok ==> old(|states|) == MaxShort && Unknown(old(states), KernelOf(g, items, symbol))
      ensures ok ==> Valid() && 1 <= n < |states| && states[n] == Core(symbol, KernelOf(g, items, symbol))
      ensures ok ==> (n == old(|states|) <==> Unknown(old(states), KernelOf(g, items, symbol)))
      ensures n < old(|states|) || !ok ==> states == old(states)
    {
      ghost var kernel := KernelOf(g, items, symbol);
      assert HoldsFor(g, items, kernelItems[..], kernelBase, kernelEnd[..], symbol);
      var lo, hi := kernelBase[symbol], kernelEnd[symbol];
      assert kernelItems[lo..hi] == kernel;
      var key := HashKey(kernelItems, lo, hi);
      var found := SearchBucket(key, lo, hi);
      if found == -1 {
        ok, n := NewState(symbol, key, lo, hi);
      } else {
        ok, n := true, found;
        assert KernelAt(g, states[n].symbol, states[n].items);
        assert JustAfter(g, states[n].symbol, kernel[0]) && JustAfter(g, symbol, kernel[0]);
      }
    }

    /** One round of the second loop of `append_states`. */
    method AppendState(symbol: nat, ghost items: seq<int>, ghost symbols: seq<int>, targets0: seq<nat>)
        returns (ok: bool, targets: seq<nat>)
      requires Valid() && Holds(g, items, kernelItems[..], kernelBase, kernelEnd[..])
      requires Increasing(symbols) && Reached(g, states, items, symbols, targets0) && |targets0| < |symbols|
      requires symbol == symbols[|targets0|] && 0 < symbol < g.nsyms() && KernelOf(g, items, symbol) != []
      modifies this`states, table
      ensures old(states) <= states
      ensures !ok ==> states == old(states) && |states| == MaxShort && Unknown(states, KernelOf(g, items, symbol))
      ensures ok ==> Valid() && |targets| == |targets0| + 1 && Reached(g, states, items, symbols, targets)
      ensures ok && old(InOrder(states, targets0)) ==> InOrder(states, targets)
      ensures ok ==> targets0 <= targets && forall s: nat :: old(|states|) <= s < |states| ==> s in targets
      ensures ok ==> targets[|targets0|] <= old(|states|)
      ensures ok ==> (targets[|targets0|] == old(|states|) <==> |states| > old(|states|))
    {
      KernelOfAt(g, items, symbol);
      if InOrder(states, targets0) { StillInOrder(g, states, items, symbols, targets0); }
      ghost var was := states;
      var n;
      ok, n := GetState(symbol, items);
      targets := targets0 + [n];
      if ok {
        forall t | 0 <= t < |targets| ensures ReachedBy(g, states, items, symbols[t], targets[t]) {
          if t < |targets0| { assert ReachedBy(g, was, items, symbols[t], targets0[t]); }
        }
      }
    }

    /** `append_states`. */
    method AppendStates(nshifts: nat, ghost core: seq<int>, ghost items: seq<int>) returns (ok: bool, targets: seq<nat>)
      requires Valid() && ClosureList(g, core, items)
      requires Holds(g, items, kernelItems[..], kernelBase, kernelEnd[..])
      requires nshifts <= g.nsyms() && ShiftSymbols(g, items, shiftSymbol[..nshifts])
      modifies this`states, table, shiftSymbol
      ensures old(states) <= states
      ensures !ok ==> Overfull(g, old(states), states, core)
      ensures ok ==> Valid() && TargetsOk(g, states, core, targets)
      ensures ok ==> Numbered(old(|states|), states, targets)
    {
      ok, targets := true, [];
      ghost var unsorted := shiftSymbol[..nshifts];
      SortSymbols(shiftSymbol, nshifts);
      ghost var symbols := shiftSymbol[..nshifts];
      for i := 0 to nshifts
        invariant ok && Valid() && old(states) <= states && |targets| == i
        invariant shiftSymbol[..nshifts] == symbols
        invariant Reached(g, states, items, symbols, targets)
        invariant Numbered(old(|states|), states, targets)
      {
        assert symbols[i] == shiftSymbol[i] && symbols[i] in symbols;
        ghost var so, known := targets, states;
        ok, targets := AppendState(shiftSymbol[i], items, symbols, targets);
        if !ok {
          NowOverfull(g, old(states), states, core, items, symbols, so);
          return;
        }
        StillNumbered(g, known, states, old(|states|), items, symbols, so, targets);
      }
      ReachedTargets(g, states, core, items, symbols, targets);
    }

    /** `save_reductions`: the rules that end in the closure, in order. */
    method SaveReductions(k: nat, items: seq<int>)
      requires Valid() && k < |states| && ClosureList(g, states[k].items, items)
      requires ReductionsOk(g, states, reductions, k)
      modifies this`reductions
      ensures ReductionsOk(g, states, reductions, k + 1)
    {
      var redset, ends := FindReductions(g, items);
      AmongClosure(g, states[k].items, items, ends);
      assert RulesOk(g, states[k].items, redset);
      ReductionsSnoc(g, states, reductions, k, redset);
      if |redset| > 0 {
        reductions := reductions + [Reductions(k, redset)];
      }
    }

    /** The worklist has treated the states below `k`. */
    ghost predicate Done(k: nat)
      reads this, fderives, table
    {
      Valid() && Progress(g, states, shifts, reductions, k)
    }

    /** One round of the loop of `generate_states`. */
    method TreatState(k: nat) returns (ok: bool)
      requires Done(k) && k < |states|
      modifies this`states, this`shifts, this`reductions, table, kernelItems, kernelEnd, shiftSymbol
      ensures old(states) <= states
      ensures !ok ==> Crowded(g)
      ensures ok ==> Done(k + 1) && |states| <= Pow2(g.nitems())
    {
      ghost var core := states[k].items;
      assert k > 0 ==> KernelAt(g, states[k].symbol, core);
      var items := Closure(g, fderives, states[k].items);
      ghost var reds0 := reductions;
      SaveReductions(k, items);
      var nshifts := NewItemsets(g, items, kernelItems, kernelBase, kernelEnd, shiftSymbol);
      ok := SaveShifts(k, nshifts, items, reds0);
      if ok { Bounded(); }
    }

    /** `append_states` and `save_shifts`: the targets of state `k`, and its record if it has any. */
    method SaveShifts(k: nat, nshifts: nat, ghost items: seq<int>, ghost reds: seq<Reductions>) returns (ok: bool)
      requires Valid() && Progress(g, states, shifts, reds, k) && k < |states|
      requires ReductionsOk(g, states, reductions, k + 1) && ClosureList(g, states[k].items, items)
      requires Holds(g, items, kernelItems[..], kernelBase, kernelEnd[..])
      requires nshifts <= g.nsyms() && ShiftSymbols(g, items, shiftSymbol[..nshifts])
      modifies this`states, this`shifts, table, shiftSymbol
      ensures old(states) <= states
      ensures !ok ==> Crowded(g)
      ensures ok ==> Done(k + 1)
    {
      var targets;
      ghost var was := states;
      ok, targets := AppendStates(nshifts, was[k].items, items);
      if ok {
        ghost var now := Saved(shifts, k, targets);
        ProgressStep(g, was, states, shifts, reds, reductions, k, targets);
        if |targets| > 0 {
          shifts := shifts + [Shifts(k, targets)];
        }
        assert shifts == now;
      } else {
        NowCrowded(g, was, states, shifts, reds, k);
      }
    }

    lemma Bounded()
      requires Valid()
      ensures |states| <= Pow2(g.nitems())
    {
      StateCount(g, states);
    }

    /** The loop of `generate_states`. */
    method TreatAll() returns (ok: bool)
      requires Done(0)
      modifies this`states, this`shifts, this`reductions, table, kernelItems, kernelEnd, shiftSymbol
      ensures !ok ==> Crowded(g)
      ensures ok ==> Done(|states|) && |states| <= Pow2(g.nitems())
    {
      var k := 0;
      ok := true;
      Bounded();
      while k < |states|
        invariant ok && Done(k) && k <= |states| <= Pow2(g.nitems())
        decreases Pow2(g.nitems()) - k
      {
        ok := TreatState(k);
        if !ok { return; }
        k := k + 1;
      }
    }
  }

  /** `generate_states` before the augmentation: it succeeds exactly when there are at most 32767 kernels. */
  method GenerateStates(g: Grammar)
      returns (ok: bool, states: seq<Core>, shifts: seq<Shifts>, reductions: seq<Reductions>)
    requires WellFormed(g)
    ensures ok <==> exists kernels :: Family(g, kernels) && |kernels| <= 32767
    ensures ok ==> Machine(g, states, shifts, reductions) && |states| <= 32767 && |states| <= Pow2(g.nitems())
    ensures ok ==> Counting(TargetsOf(shifts, 0)) && Rooted(states, shifts) && BornInOrder(states, shifts)
  {
    var b := new Builder(g);
    ok := b.TreatAll();
    states, shifts, reductions := b.states, b.shifts, b.reductions;
    if ok { MachineFamily(g, states, shifts, reductions); }
  }
}
