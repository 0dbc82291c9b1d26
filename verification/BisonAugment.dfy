/**
 bin/bison/LR0.c, `augment_automaton` and `insert_start_shift`: states and shifts are added so
 that the start symbol, end-of-file and one more shift lead from state 0 to the final state.
 */
module BisonAugment {
  import opened Wrappers
  import opened BisonGrammar
  import opened BisonMachine
  import opened BisonStates
  import opened BisonPaths

  // ---------- the machine as a transition function ----------

  /** Targets are states and each vector is sorted by accessing symbol. */
  ghost predicate Sorted(states: seq<Core>, shifts: seq<Shifts>) {
    && |states| >= 1 && ChainBelow(shifts, |states|)
    && forall s: nat :: SortedAt(states, TargetsOf(shifts, s))
  }

  ghost predicate SortedAt(states: seq<Core>, targets: seq<nat>) {
    && (forall i :: 0 <= i < |targets| ==> 1 <= targets[i] < |states|)
    && SymbolsIncrease(states, targets)
  }

  /** Where state `s` goes on `x`. */
  ghost function Go(states: seq<Core>, shifts: seq<Shifts>, s: nat, x: int): Option<nat>
    requires Sorted(states, shifts)
  {
    Target(states, TargetsOf(shifts, s), x)
  }

  /** What the augmentation starts from. */
  ghost predicate Plain(states: seq<Core>, shifts: seq<Shifts>) {
    && Sorted(states, shifts) && Counting(TargetsOf(shifts, 0)) && Rooted(states, shifts)
    && forall s :: 1 <= s < |states| ==> states[s].symbol > 0
  }

  lemma MachineIsPlain(g: Grammar, states: seq<Core>, shifts: seq<Shifts>, reds: seq<Reductions>)
    requires Machine(g, states, shifts, reds) && Counting(TargetsOf(shifts, 0)) && Rooted(states, shifts)
    ensures Plain(states, shifts)
  {
    forall s: nat ensures SortedAt(states, TargetsOf(shifts, s)) {
      if s < |states| {
        assert ShiftOk(g, states, shifts, s);
      } else {
        TargetsOfNone(shifts, s);
      }
    }
    forall s | 1 <= s < |states| ensures states[s].symbol > 0 {
      assert KernelAt(g, states[s].symbol, states[s].items);
    }
  }

  /**
   The augmented machine: the old transitions and three new ones, to the next-to-final state
   `ntf` (an old state if the start symbol could be shifted already), to `fin` and to `term`.
   */
  ghost predicate Augmented(start: int, states: seq<Core>, shifts: seq<Shifts>, states': seq<Core>,
                            shifts': seq<Shifts>, term: nat)
    requires Sorted(states, shifts)
  {
    && states <= states' && term == |states'| - 1 && Sorted(states', shifts')
    && HasNewGo(start, states, shifts, states', shifts', NextToFinal(start, states, shifts), term)
  }

  ghost function NextToFinal(start: int, states: seq<Core>, shifts: seq<Shifts>): nat
    requires Sorted(states, shifts)
  {
    match Go(states, shifts, 0, start) case Some(t) => t case None => |states|
  }

  ghost predicate HasNewGo(start: int, states: seq<Core>, shifts: seq<Shifts>, states': seq<Core>, shifts': seq<Shifts>,
                           ntf: nat, term: nat)
    requires Sorted(states, shifts) && Sorted(states', shifts')
  {
    && |states| <= term - 1 && (ntf == |states| ==> term == ntf + 2)
    && forall s: nat, x :: Go(states', shifts', s, x) == NewGo(start, states, shifts, ntf, term - 1, term, s, x)
  }

  /** The old transitions and the three new ones. */
  ghost function NewGo(start: int, states: seq<Core>, shifts: seq<Shifts>, ntf: nat, fin: nat, term: nat, s: nat,
                       x: int): Option<nat>
    requires Sorted(states, shifts)
  {
    if s == 0 && x == start then Some(ntf)
    else if s == ntf && x == 0 then Some(fin)
    else if s == fin && x == 0 then Some(term)
    else Go(states, shifts, s, x)
  }

  /** The start symbol, end-of-file and end-of-file again lead to the final state. */
  lemma AcceptingPath(start: int, states: seq<Core>, shifts: seq<Shifts>, states': seq<Core>, shifts': seq<Shifts>,
                      term: nat)
    requires Plain(states, shifts) && start > 0 && Augmented(start, states, shifts, states', shifts', term)
    ensures Path(states', shifts', [start, 0, 0]) == Some(term)
  {
    var w := [start, 0, 0];
    assert w[..2] == [start, 0] && w[..2][..1] == [start] && [start][..0] == [];
    assert Path(states', shifts', [start]) == Go(states', shifts', 0, start);
    assert Path(states', shifts', [start, 0]) == Go(states', shifts', Path(states', shifts', [start]).value, 0);
    assert Path(states', shifts', w) == Go(states', shifts', Path(states', shifts', [start, 0]).value, 0);
  }

  /** No state of a plain machine shifts symbol 0. */
  lemma NoEofShift(states: seq<Core>, shifts: seq<Shifts>, s: nat)
    requires Plain(states, shifts)
    ensures Go(states, shifts, s, 0) == None
  {
    assert SortedAt(states, TargetsOf(shifts, s));
  }

  // ---------- the paths of the augmented machine ----------

  ghost function MovesOf(states: seq<Core>, shifts: seq<Shifts>): Moves {
    (s: nat, x: int) => Target(states, TargetsOf(shifts, s), x)
  }

  lemma {:induction false} PathFollows(states: seq<Core>, shifts: seq<Shifts>, w: seq<int>)
    requires |states| >= 1
    ensures Path(states, shifts, w) == Follow(MovesOf(states, shifts), w)
  {
    if w != [] { PathFollows(states, shifts, w[..|w| - 1]); }
  }

  lemma PlainShifting(states: seq<Core>, shifts: seq<Shifts>)
    requires Plain(states, shifts)
    ensures Shifting(MovesOf(states, shifts), |states|)
  {
    forall s: nat, x: int ensures ShiftsTo(MovesOf(states, shifts), |states|, s, x) {
      assert SortedAt(states, TargetsOf(shifts, s));
      if s >= |states| { TargetsOfNone(shifts, s); }
      if x == 0 { NoEofShift(states, shifts, s); }
    }
  }

  lemma AugmentedMoves(start: int, states: seq<Core>, shifts: seq<Shifts>, states': seq<Core>, shifts': seq<Shifts>,
                       term: nat)
    requires Plain(states, shifts) && start > 0 && Augmented(start, states, shifts, states', shifts', term)
    ensures Augments(MovesOf(states, shifts), start, |states|, NextToFinal(start, states, shifts), term)
    ensures var go, ntf := MovesOf(states, shifts), NextToFinal(start, states, shifts);
      forall s: nat, x: int :: MovesOf(states', shifts')(s, x) == NewMove(go, start, ntf, term, s, x)
  {
    PlainShifting(states, shifts);
    forall s: nat, x: int ensures MovesOf(states', shifts')(s, x) ==
      NewMove(MovesOf(states, shifts), start, NextToFinal(start, states, shifts), term, s, x)
    {
      assert Go(states', shifts', s, x) ==
        NewGo(start, states, shifts, NextToFinal(start, states, shifts), term - 1, term, s, x);
    }
  }

  /** Every path of the augmented machine: the plain ones, and those that end with new transitions. */
  lemma AugmentedPath(start: int, states: seq<Core>, shifts: seq<Shifts>, states': seq<Core>, shifts': seq<Shifts>,
                      term: nat, w: seq<int>)
    requires Plain(states, shifts) && start > 0 && Augmented(start, states, shifts, states', shifts', term)
    ensures Path(states', shifts', w) ==
      Where(MovesOf(states, shifts), start, NextToFinal(start, states, shifts), term, w)
  {
    AugmentedMoves(start, states, shifts, states', shifts', term);
    FollowIs(MovesOf(states, shifts), MovesOf(states', shifts'), start, |states|, NextToFinal(start, states, shifts),
             term, w);
    PathFollows(states', shifts', w);
  }

  /** The final state is reached by two end-of-files after the next-to-final state, and by nothing else. */
  lemma FinalReached(start: int, states: seq<Core>, shifts: seq<Shifts>, states': seq<Core>, shifts': seq<Shifts>,
                     term: nat, w: seq<int>)
    requires Plain(states, shifts) && start > 0 && Augmented(start, states, shifts, states', shifts', term)
    ensures Path(states', shifts', w) == Some(term) <==>
      ToTerm(MovesOf(states, shifts), start, NextToFinal(start, states, shifts), w)
  {
    AugmentedPath(start, states, shifts, states', shifts', term, w);
    AugmentedMoves(start, states, shifts, states', shifts', term);
    WhereFinal(MovesOf(states, shifts), start, |states|, NextToFinal(start, states, shifts), term, w);
  }

  /** Where the augmented machine is in an old state the plain one is in the same. */
  lemma OldStates(start: int, states: seq<Core>, shifts: seq<Shifts>, states': seq<Core>, shifts': seq<Shifts>,
                  term: nat, w: seq<int>)
    requires Plain(states, shifts) && start > 0 && Augmented(start, states, shifts, states', shifts', term)
    ensures match Path(states, shifts, w)
      case Some(s) => s < |states| && Path(states', shifts', w) == Some(s)
      case None => match Path(states', shifts', w) case None => true case Some(s) => s >= |states|
  {
    var go, ntf := MovesOf(states, shifts), NextToFinal(start, states, shifts);
    AugmentedPath(start, states, shifts, states', shifts', term, w);
    AugmentedMoves(start, states, shifts, states', shifts', term);
    PathFollows(states, shifts, w);
    StartIs(go, start, |states|, ntf);
    NewOnes(go, start, |states|, ntf, term, 0);
  }

  // ---------- chains edited ----------

  /** `chain` agrees with `shifts` except for state `k`, which gets `targets`. */
  ghost predicate Edited(shifts: seq<Shifts>, chain: seq<Shifts>, k: nat, targets: seq<nat>) {
    forall s: nat :: TargetsOf(chain, s) == if s == k then targets else TargetsOf(shifts, s)
  }

  /** A record replaced in the middle of the chain. */
  lemma Replaced(shifts: seq<Shifts>, n: nat, i: nat, targets: seq<nat>)
    requires ChainBelow(shifts, n) && i < |shifts| && targets != []
    ensures var chain := shifts[i := Shifts(shifts[i].number, targets)];
      ChainBelow(chain, n) && Edited(shifts, chain, shifts[i].number, targets)
  {
    var k := shifts[i].number;
    var chain := shifts[i := Shifts(k, targets)];
    forall s: nat ensures TargetsOf(chain, s) == if s == k then targets else TargetsOf(shifts, s) {
      if j :| 0 <= j < |shifts| && shifts[j].number == s {
        TargetsOfEntry(shifts, n, j);
        TargetsOfEntry(chain, n, j);
      } else {
        TargetsOfNone(shifts, s);
        TargetsOfNone(chain, s);
      }
    }
  }

  /** Element `j` of `s` with `x` put in at place `i`. */
  function Elem<T>(s: seq<T>, i: nat, x: T, j: int): T
    requires i <= |s| && 0 <= j <= |s|
  {
    if j < i then s[j] else if j == i then x else s[j - 1]
  }

  /** A record put into the chain where it belongs. */
  lemma Inserted(shifts: seq<Shifts>, n: nat, i: nat, k: nat, targets: seq<nat>)
    requires ChainBelow(shifts, n) && i <= |shifts| && k < n && targets != []
    requires forall j :: 0 <= j < i ==> shifts[j].number < k
    requires forall j :: i <= j < |shifts| ==> shifts[j].number > k
    ensures var chain := shifts[..i] + [Shifts(k, targets)] + shifts[i..];
      ChainBelow(chain, n) && Edited(shifts, chain, k, targets)
  {
    var chain := shifts[..i] + [Shifts(k, targets)] + shifts[i..];
    forall j | 0 <= j < |chain| ensures chain[j] == Elem(shifts, i, Shifts(k, targets), j) {}
    InsertedBelow(shifts, chain, n, i, k, targets);
    forall s: nat ensures TargetsOf(chain, s) == if s == k then targets else TargetsOf(shifts, s) {
      InsertedEntry(shifts, chain, n, i, k, targets, s);
    }
  }

  lemma InsertedBelow(shifts: seq<Shifts>, chain: seq<Shifts>, n: nat, i: nat, k: nat, targets: seq<nat>)
    requires ChainBelow(shifts, n) && i <= |shifts| && k < n && targets != [] && |chain| == |shifts| + 1
    requires forall j :: 0 <= j < i ==> shifts[j].number < k
    requires forall j :: i <= j < |shifts| ==> shifts[j].number > k
    requires forall j :: 0 <= j < |chain| ==> chain[j] == Elem(shifts, i, Shifts(k, targets), j)
    ensures ChainBelow(chain, n)
  {
  }

  lemma InsertedEntry(shifts: seq<Shifts>, chain: seq<Shifts>, n: nat, i: nat, k: nat, targets: seq<nat>, s: nat)
    requires ChainBelow(shifts, n) && ChainBelow(chain, n) && i <= |shifts| && |chain| == |shifts| + 1
    requires forall j :: 0 <= j < |chain| ==> chain[j] == Elem(shifts, i, Shifts(k, targets), j)
    ensures TargetsOf(chain, s) == if s == k then targets else TargetsOf(shifts, s)
  {
    if s == k {
      TargetsOfEntry(chain, n, i);
    } else if j :| 0 <= j < |shifts| && shifts[j].number == s {
      var j' := if j < i then j else j + 1;
      assert chain[j'] == shifts[j];
      TargetsOfEntry(shifts, n, j);
      TargetsOfEntry(chain, n, j');
    } else {
      TargetsOfNone(shifts, s);
      forall j | 0 <= j < |chain| ensures chain[j].number != s {
        assert chain[j] == Elem(shifts, i, Shifts(k, targets), j);
      }
      TargetsOfNone(chain, s);
    }
  }

  // ---------- vectors edited ----------

  /** `vec` is `targets` with `t` put in at place `p`. */
  ghost predicate PutIn(vec: seq<nat>, targets: seq<nat>, p: nat, t: nat) {
    && p <= |targets| && |vec| == |targets| + 1
    && forall j :: 0 <= j < |vec| ==> vec[j] == Elem(targets, p, t, j)
  }

  lemma PutInMembers(vec: seq<nat>, targets: seq<nat>, p: nat, t: nat)
    requires PutIn(vec, targets, p, t)
    ensures forall u :: u in vec <==> u in targets || u == t
  {
    assert vec[p] == t;
    forall u | u in targets ensures u in vec {
      var j :| 0 <= j < |targets| && targets[j] == u;
      assert vec[if j < p then j else j + 1] == u;
    }
  }

  lemma PutInSorted(states: seq<Core>, more: seq<Core>, vec: seq<nat>, targets: seq<nat>, p: nat, t: nat)
    requires SortedAt(states, targets) && states <= more && PutIn(vec, targets, p, t) && 1 <= t < |more|
    requires forall i :: 0 <= i < p ==> states[targets[i]].symbol < more[t].symbol
    requires forall i :: p <= i < |targets| ==> states[targets[i]].symbol > more[t].symbol
    ensures SortedAt(more, vec)
  {
    forall i, j | 0 <= i < j < |vec| ensures more[vec[i]].symbol < more[vec[j]].symbol {
      var i', j' := if i < p then i else i - 1, if j < p then j else j - 1;
      if i != p && j != p {
        assert vec[i] == targets[i'] && vec[j] == targets[j'];
        assert states[targets[i']].symbol < states[targets[j']].symbol;
      }
    }
  }

  lemma PutInTarget(states: seq<Core>, more: seq<Core>, vec: seq<nat>, targets: seq<nat>, p: nat, t: nat, x: int)
    requires SortedAt(states, targets) && states <= more && PutIn(vec, targets, p, t) && 1 <= t < |more|
    requires SortedAt(more, vec)
    ensures Target(more, vec, x) == if x == more[t].symbol then Some(t) else Target(states, targets, x)
  {
    PutInMembers(vec, targets, p, t);
    if x == more[t].symbol {
      TargetOfState(more, vec, t);
    } else {
      SameTarget(states, more, targets, vec, x);
    }
  }

  lemma SameTarget(states: seq<Core>, more: seq<Core>, targets: seq<nat>, vec: seq<nat>, x: int)
    requires SortedAt(states, targets) && SortedAt(more, vec) && states <= more
    requires forall t :: t in targets ==> t in vec
    requires forall t :: t in vec && t < |more| && more[t].symbol == x ==> t in targets
    ensures Target(more, vec, x) == Target(states, targets, x)
  {
    match Target(more, vec, x)
    case Some(t) => TargetOfState(states, targets, t);
    case None =>
      forall i | 0 <= i < |targets| ensures states[targets[i]].symbol != x {
        assert targets[i] in vec;
        var j :| 0 <= j < |vec| && vec[j] == targets[i];
      }
  }

  // ---------- the two outcomes ----------

  const Eof := Core(0, [])

  /** A vector left alone means the same among more states. */
  lemma SameVector(states: seq<Core>, more: seq<Core>, targets: seq<nat>)
    requires SortedAt(states, targets) && states <= more
    ensures SortedAt(more, targets)
    ensures forall x :: Target(more, targets, x) == Target(states, targets, x)
  {
    forall x { SameTarget(states, more, targets, targets, x); }
  }

  lemma SingleTarget(states: seq<Core>, t: nat)
    requires 1 <= t < |states|
    ensures SortedAt(states, [t])
    ensures forall x :: Target(states, [t], x) == if states[t].symbol == x then Some(t) else None
  {
    TargetOfState(states, [t], t);
  }

  /** State `s` keeps its old transitions and goes to `t` on the symbol of `t`. */
  lemma PutInGo(states: seq<Core>, more: seq<Core>, vec: seq<nat>, targets: seq<nat>, p: nat, t: nat)
    requires SortedAt(states, targets) && states <= more && PutIn(vec, targets, p, t) && 1 <= t < |more|
    requires forall i :: 0 <= i < p ==> states[targets[i]].symbol < more[t].symbol
    requires forall i :: p <= i < |targets| ==> states[targets[i]].symbol > more[t].symbol
    ensures SortedAt(more, vec)
    ensures forall x :: Target(more, vec, x) == if x == more[t].symbol then Some(t) else Target(states, targets, x)
  {
    PutInSorted(states, more, vec, targets, p, t);
    forall x { PutInTarget(states, more, vec, targets, p, t, x); }
  }

  /** With vector `vec`, state `s` has its old transitions and those of the three new ones that start at it. */
  ghost predicate GoesOn(start: int, states: seq<Core>, shifts: seq<Shifts>, more: seq<Core>, vec: seq<nat>, ntf: nat,
                         term: nat, s: nat)
    requires Sorted(states, shifts) && term > 0
  {
    SortedAt(more, vec) && HasTargets(start, states, shifts, more, vec, ntf, term, s)
  }

  ghost predicate HasTargets(start: int, states: seq<Core>, shifts: seq<Shifts>, more: seq<Core>, vec: seq<nat>,
                             ntf: nat, term: nat, s: nat)
    requires Sorted(states, shifts) && term > 0
  {
    forall x :: Target(more, vec, x) == NewGo(start, states, shifts, ntf, term - 1, term, s, x)
  }

  ghost predicate AllGoOn(start: int, states: seq<Core>, shifts: seq<Shifts>, more: seq<Core>, chain: seq<Shifts>,
                          ntf: nat, term: nat)
    requires Sorted(states, shifts) && term > 0
  {
    forall s: nat :: GoesOn(start, states, shifts, more, TargetsOf(chain, s), ntf, term, s)
  }

  lemma AugmentedIf(start: int, states: seq<Core>, shifts: seq<Shifts>, more: seq<Core>, chain: seq<Shifts>, ntf: nat,
                    term: nat)
    requires Sorted(states, shifts) && states <= more && term == |more| - 1 && ChainBelow(chain, |more|)
    requires ntf == NextToFinal(start, states, shifts)
    requires |states| <= term - 1 && (ntf == |states| ==> term == ntf + 2)
    requires AllGoOn(start, states, shifts, more, chain, ntf, term)
    ensures Augmented(start, states, shifts, more, chain, term)
  {
    forall s: nat ensures SortedAt(more, TargetsOf(chain, s)) {
      assert GoesOn(start, states, shifts, more, TargetsOf(chain, s), ntf, term, s);
    }
    forall s: nat, x ensures Go(more, chain, s, x) == NewGo(start, states, shifts, ntf, term - 1, term, s, x) {
      assert GoesOn(start, states, shifts, more, TargetsOf(chain, s), ntf, term, s);
    }
  }

  /** A state that is not the source of a new transition. */
  lemma GoesSame(start: int, states: seq<Core>, shifts: seq<Shifts>, more: seq<Core>, ntf: nat, term: nat, s: nat)
    requires Sorted(states, shifts) && term > 0 && states <= more && s != ntf && s != term - 1
    requires s == 0 ==> Go(states, shifts, 0, start) == Some(ntf)
    ensures GoesOn(start, states, shifts, more, TargetsOf(shifts, s), ntf, term, s)
  {
    var targets := TargetsOf(shifts, s);
    assert SortedAt(states, targets);
    SameVector(states, more, targets);
    forall x ensures Target(more, targets, x) == NewGo(start, states, shifts, ntf, term - 1, term, s, x) {
      assert Go(states, shifts, s, x) == Target(states, targets, x);
    }
  }

  /** The transition from `s` to `t` is one of the three new ones. */
  ghost predicate NewStep(start: int, more: seq<Core>, ntf: nat, fin: nat, term: nat, s: nat, t: nat)
    requires t < |more|
  {
    && 0 < ntf && 0 < fin && ntf != fin
    && ((s == 0 && t == ntf && more[t].symbol == start)
        || (s == ntf && t == fin && more[t].symbol == 0)
        || (s == fin && t == term && more[t].symbol == 0))
  }

  /** A state that gets a transition to `t`. */
  lemma GoesAlso(start: int, states: seq<Core>, shifts: seq<Shifts>, more: seq<Core>, vec: seq<nat>, ntf: nat,
                 term: nat, s: nat, p: nat, t: nat)
    requires Sorted(states, shifts) && term > 0 && states <= more && 1 <= t < |more|
    requires PutIn(vec, TargetsOf(shifts, s), p, t) && SortedAt(states, TargetsOf(shifts, s))
    requires forall i :: 0 <= i < p ==> states[TargetsOf(shifts, s)[i]].symbol < more[t].symbol
    requires forall i :: p <= i < |TargetsOf(shifts, s)| ==> states[TargetsOf(shifts, s)[i]].symbol > more[t].symbol
    requires NewStep(start, more, ntf, term - 1, term, s, t)
    ensures GoesOn(start, states, shifts, more, vec, ntf, term, s)
  {
    PutInGo(states, more, vec, TargetsOf(shifts, s), p, t);
    forall x ensures Target(more, vec, x) == NewGo(start, states, shifts, ntf, term - 1, term, s, x) {
      assert Go(states, shifts, s, x) == Target(states, TargetsOf(shifts, s), x);
    }
  }

  /** A state that had no transition and gets the one to `t`. */
  lemma GoesOnly(start: int, states: seq<Core>, shifts: seq<Shifts>, more: seq<Core>, ntf: nat, term: nat, s: nat,
                 t: nat)
    requires Sorted(states, shifts) && term > 0 && 1 <= t < |more| && s >= |states|
    requires NewStep(start, more, ntf, term - 1, term, s, t)
    ensures GoesOn(start, states, shifts, more, [t], ntf, term, s)
  {
    TargetsOfNone(shifts, s);
    SingleTarget(more, t);
    forall x ensures Target(more, [t], x) == NewGo(start, states, shifts, ntf, term - 1, term, s, x) {
      assert Go(states, shifts, s, x) == None;
    }
  }

  /** The vector of state `s` when the next-to-final state `ntf` was there already. */
  lemma {:induction false} OldTargets(start: int, states: seq<Core>, shifts: seq<Shifts>, more: seq<Core>, ntf: nat,
                                      term: nat, s: nat, now: seq<nat>)
    requires Plain(states, shifts) && ntf < |states| && more == states + [Eof, Eof]
    requires Go(states, shifts, 0, start) == Some(ntf) && start > 0 && term == |states| + 1
    requires now == if s == |states| then [term] else if s == ntf then [|states|] + TargetsOf(shifts, ntf)
                    else TargetsOf(shifts, s)
    ensures GoesOn(start, states, shifts, more, now, ntf, term, s)
  {
    var targets := TargetsOf(shifts, s);
    assert SortedAt(states, targets);
    if s == |states| {
      GoesOnly(start, states, shifts, more, ntf, term, s, term);
    } else if s == ntf {
      forall j | 0 <= j < |now| ensures now[j] == Elem(targets, 0, |states|, j) {}
      assert SortedAt(states, TargetsOf(shifts, 0));
      GoesAlso(start, states, shifts, more, now, ntf, term, s, 0, |states|);
    } else {
      GoesSame(start, states, shifts, more, ntf, term, s);
    }
  }

  /** The start symbol could be shifted from state 0 already. */
  lemma {:induction false} AugmentOld(start: int, states: seq<Core>, shifts: seq<Shifts>, edited: seq<Shifts>, ntf: nat,
                   more: seq<Core>, chain: seq<Shifts>, term: nat)
    requires Plain(states, shifts) && start > 0 && Go(states, shifts, 0, start) == Some(ntf) && ntf < |states|
    requires ChainBelow(edited, |states|) && Edited(shifts, edited, ntf, [|states|] + TargetsOf(shifts, ntf))
    requires more == states + [Eof, Eof] && term == |states| + 1 && chain == Saved(edited, |states|, [term])
    ensures Augmented(start, states, shifts, more, chain, term)
  {
    TargetsOfSaved(edited, |states|, [term], 0);
    forall s: nat ensures GoesOn(start, states, shifts, more, TargetsOf(chain, s), ntf, term, s) {
      TargetsOfSaved(edited, |states|, [term], s);
      OldTargets(start, states, shifts, more, ntf, term, s, TargetsOf(chain, s));
    }
    AugmentedIf(start, states, shifts, more, chain, ntf, term);
  }

  /** The vector of state 0 with the shift on the start symbol in its place. */
  ghost predicate StartPut(start: int, states: seq<Core>, targets: seq<nat>, vec: seq<nat>, p: nat) {
    && SortedAt(states, targets) && PutIn(vec, targets, p, |states|)
    && (forall i :: 0 <= i < p ==> states[targets[i]].symbol < start)
    && (forall i :: p <= i < |targets| ==> states[targets[i]].symbol > start)
  }

  lemma StartGoes(start: int, states: seq<Core>, shifts: seq<Shifts>, more: seq<Core>, vec: seq<nat>, p: nat)
    requires Sorted(states, shifts) && start > 0 && StartPut(start, states, TargetsOf(shifts, 0), vec, p)
    requires more == states + [Core(start, []), Eof, Eof]
    ensures GoesOn(start, states, shifts, more, vec, |states|, |states| + 2, 0)
  {
    GoesAlso(start, states, shifts, more, vec, |states|, |states| + 2, 0, p, |states|);
  }

  lemma NewTargets(start: int, states: seq<Core>, shifts: seq<Shifts>, more: seq<Core>, vec: seq<nat>, term: nat,
                   s: nat, now: seq<nat>)
    requires Sorted(states, shifts) && more == states + [Core(start, []), Eof, Eof] && start > 0 && term == |states| + 2
    requires GoesOn(start, states, shifts, more, vec, |states|, term, 0)
    requires now == if s == |states| then [term - 1] else if s == term - 1 then [term] else if s == 0 then vec
                    else TargetsOf(shifts, s)
    ensures GoesOn(start, states, shifts, more, now, |states|, term, s)
  {
    if s == |states| {
      GoesOnly(start, states, shifts, more, |states|, term, s, term - 1);
    } else if s == term - 1 {
      GoesOnly(start, states, shifts, more, |states|, term, s, term);
    } else if s != 0 {
      GoesSame(start, states, shifts, more, |states|, term, s);
    }
  }

  lemma SavedTwice(shifts: seq<Shifts>, n: nat, targets: seq<nat>, more: seq<nat>, s: nat)
    requires ChainBelow(shifts, n)
    ensures var chain := Saved(Saved(shifts, n, targets), n + 1, more);
      && ChainBelow(chain, n + 2)
      && TargetsOf(chain, s) == if s == n then targets else if s == n + 1 then more else TargetsOf(shifts, s)
  {
    TargetsOfSaved(shifts, n, targets, s);
    TargetsOfSaved(Saved(shifts, n, targets), n + 1, more, s);
  }

  lemma ChainGoesOn(start: int, states: seq<Core>, shifts: seq<Shifts>, edited: seq<Shifts>, vec: seq<nat>,
                    more: seq<Core>, chain: seq<Shifts>, term: nat, s: nat)
    requires Sorted(states, shifts) && more == states + [Core(start, []), Eof, Eof] && start > 0 && term == |states| + 2
    requires GoesOn(start, states, shifts, more, vec, |states|, term, 0)
    requires ChainBelow(edited, |states|) && Edited(shifts, edited, 0, vec)
    requires chain == Saved(Saved(edited, |states|, [term - 1]), term - 1, [term])
    ensures GoesOn(start, states, shifts, more, TargetsOf(chain, s), |states|, term, s)
  {
    SavedTwice(edited, |states|, [term - 1], [term], s);
    NewTargets(start, states, shifts, more, vec, term, s, TargetsOf(chain, s));
  }

  /** The start symbol could not be shifted from state 0: a next-to-final state is made. */
  lemma NewChain(start: int, states: seq<Core>, shifts: seq<Shifts>, edited: seq<Shifts>, vec: seq<nat>,
                 more: seq<Core>, chain: seq<Shifts>, term: nat)
    requires Sorted(states, shifts) && more == states + [Core(start, []), Eof, Eof] && start > 0 && term == |states| + 2
    requires GoesOn(start, states, shifts, more, vec, |states|, term, 0)
    requires ChainBelow(edited, |states|) && Edited(shifts, edited, 0, vec)
    requires chain == Saved(Saved(edited, |states|, [term - 1]), term - 1, [term])
    ensures AllGoOn(start, states, shifts, more, chain, |states|, term)
  {
    forall s: nat ensures GoesOn(start, states, shifts, more, TargetsOf(chain, s), |states|, term, s) {
      ChainGoesOn(start, states, shifts, edited, vec, more, chain, term, s);
    }
  }

  /** All is done but the final and the termination state. */
  ghost predicate Prepared(start: int, states: seq<Core>, shifts: seq<Shifts>, more: seq<Core>, chain: seq<Shifts>)
    requires Plain(states, shifts)
  {
    match Go(states, shifts, 0, start)
    case Some(ntf) =>
      more == states && ChainBelow(chain, |states|) && Edited(shifts, chain, ntf, [|states|] + TargetsOf(shifts, ntf))
    case None =>
      && more == states + [Core(start, [])]
      && exists edited, vec, p :: StartAdded(start, states, shifts, chain, edited, vec, p)
  }

  ghost predicate StartAdded(start: int, states: seq<Core>, shifts: seq<Shifts>, chain: seq<Shifts>,
                             edited: seq<Shifts>, vec: seq<nat>, p: nat) {
    && StartPut(start, states, TargetsOf(shifts, 0), vec, p) && ChainBelow(edited, |states|)
    && Edited(shifts, edited, 0, vec)
    && chain == Saved(edited, |states|, [|states| + 1])
  }

  lemma StartAddedGoes(start: int, states: seq<Core>, shifts: seq<Shifts>, chain: seq<Shifts>, edited: seq<Shifts>,
                       vec: seq<nat>, p: nat, more: seq<Core>, final: seq<Shifts>, term: nat)
    requires Sorted(states, shifts) && start > 0 && StartAdded(start, states, shifts, chain, edited, vec, p)
    requires more == states + [Core(start, []), Eof, Eof] && term == |states| + 2
    requires final == Saved(chain, term - 1, [term])
    ensures AllGoOn(start, states, shifts, more, final, |states|, term)
  {
    StartGoes(start, states, shifts, more, vec, p);
    NewChain(start, states, shifts, edited, vec, more, final, term);
  }

  lemma StartAddedAugmented(start: int, states: seq<Core>, shifts: seq<Shifts>, chain: seq<Shifts>, edited: seq<Shifts>,
                            vec: seq<nat>, p: nat, more: seq<Core>, final: seq<Shifts>, term: nat)
    requires Sorted(states, shifts) && start > 0 && StartAdded(start, states, shifts, chain, edited, vec, p)
    requires more == states + [Core(start, []), Eof, Eof] && term == |states| + 2
    requires final == Saved(chain, term - 1, [term])
    requires Go(states, shifts, 0, start) == None
    ensures Augmented(start, states, shifts, more, final, term)
  {
    StartAddedGoes(start, states, shifts, chain, edited, vec, p, more, final, term);
    assert ChainBelow(final, |more|) by { SavedTwice(edited, |states|, [term - 1], [term], 0); }
    AugmentedIf(start, states, shifts, more, final, |states|, term);
  }

  /** The start symbol could not be shifted before. */
  lemma PreparedNew(start: int, states: seq<Core>, shifts: seq<Shifts>, prepared: seq<Core>, chain: seq<Shifts>,
                    more: seq<Core>, final: seq<Shifts>)
    requires Sorted(states, shifts) && start > 0 && Go(states, shifts, 0, start) == None
    requires prepared == states + [Core(start, [])]
    requires exists edited, vec, p :: StartAdded(start, states, shifts, chain, edited, vec, p)
    requires more == prepared + [Eof, Eof] && final == Saved(chain, |prepared|, [|prepared| + 1])
    ensures Augmented(start, states, shifts, more, final, |prepared| + 1)
  {
    var edited, vec, p :| StartAdded(start, states, shifts, chain, edited, vec, p);
    assert more == states + [Core(start, []), Eof, Eof];
    StartAddedAugmented(start, states, shifts, chain, edited, vec, p, more, final, |prepared| + 1);
  }

  lemma PreparedAugmented(start: int, states: seq<Core>, shifts: seq<Shifts>, prepared: seq<Core>, chain: seq<Shifts>,
                          more: seq<Core>, final: seq<Shifts>)
    requires Plain(states, shifts) && start > 0 && Prepared(start, states, shifts, prepared, chain)
    requires more == prepared + [Eof, Eof] && final == Saved(chain, |prepared|, [|prepared| + 1])
    ensures Augmented(start, states, shifts, more, final, |prepared| + 1)
  {
    match Go(states, shifts, 0, start)
    case Some(ntf) => AugmentOld(start, states, shifts, chain, ntf, more, final, |prepared| + 1);
    case None => PreparedNew(start, states, shifts, prepared, chain, more, final);
  }

  // ---------- the code ----------

  /** If there is a second state, state 0 has shifts. */
  lemma SecondState(states: seq<Core>, shifts: seq<Shifts>)
    requires Plain(states, shifts) && |states| > 1
    ensures TargetsOf(shifts, 0) != []
  {
    assert HasSource(shifts, 1);
    var t: nat :| t < 1 && IsTarget(shifts, t, 1);
  }

  /** If any state has shifts, state 0 has. */
  lemma StateZeroShifts(states: seq<Core>, shifts: seq<Shifts>)
    requires Plain(states, shifts) && shifts != []
    ensures shifts[0].number == 0 && shifts[0].targets == TargetsOf(shifts, 0) && |shifts[0].targets| < |states|
  {
    var targets := TargetsOf(shifts, 0);
    assert SortedAt(states, targets);
    if |states| > 1 {
      SecondState(states, shifts);
      if shifts[0].number != 0 { TargetsOfNone(shifts, 0); }
    }
    TargetsOfEntry(shifts, |states|, 0);
    assert targets[|targets| - 1] == |targets|;
  }

  /** The shift chain and list of states. */
  class Automaton {
    var states: seq<Core>
    var shifts: seq<Shifts>

    constructor (states: seq<Core>, shifts: seq<Shifts>)
      ensures this.states == states && this.shifts == shifts
    {
      this.states, this.shifts := states, shifts;
    }

    /** `insert_start_shift`. */
    method InsertStartShift(start: int)
      requires ChainBelow(shifts, |states|)
      modifies this
      ensures states == old(states) + [Core(start, [])]
      ensures shifts == Saved(old(shifts), old(|states|), [old(|states|) + 1])
    {
      shifts := shifts + [Shifts(|states|, [|states| + 1])];
      states := states + [Core(start, [])];
    }

    /** The search for a state that state 0 reaches by the start symbol. */
    method FindStart(start: int, k: nat) returns (s: nat)
      requires Plain(states, shifts) && |TargetsOf(shifts, 0)| == k && 1 <= k < |states|
      ensures 1 <= s <= k
      ensures if states[s].symbol == start then Go(states, shifts, 0, start) == Some(s)
              else Go(states, shifts, 0, start) == None
    {
      ghost var targets := TargetsOf(shifts, 0);
      assert SortedAt(states, targets);
      s := 1;
      while states[s].symbol < start && s < k
        invariant 1 <= s <= k
        invariant forall i :: 0 <= i < s - 1 ==> states[targets[i]].symbol < start
        decreases k - s
      {
        assert targets[s - 1] == s;
        s := s + 1;
      }
      assert targets[s - 1] == s;
      if states[s].symbol == start {
        assert s in targets;
        TargetOfState(states, targets, s);
      } else {
        forall i | 0 <= i < |targets| ensures states[targets[i]].symbol != start {
          if i > s - 1 { assert states[targets[s - 1]].symbol < states[targets[i]].symbol; }
        }
      }
    }

    /** A shift on end-of-file is put first in the record of state `k`, made if there is none. */
    method ShiftEof(k: nat)
      requires Plain(states, shifts) && 1 <= k < |states|
      modifies this`shifts
      ensures ChainBelow(shifts, |states|)
      ensures Edited(old(shifts), shifts, k, [|states|] + TargetsOf(old(shifts), k))
    {
      var sp := 0;
      while sp < |shifts| && shifts[sp].number < k
        invariant 0 <= sp <= |shifts| && forall j :: 0 <= j < sp ==> shifts[j].number < k
      {
        sp := sp + 1;
      }
      if sp < |shifts| && shifts[sp].number == k {
        var vec := [|states|] + shifts[sp].targets;
        TargetsOfEntry(shifts, |states|, sp);
        Replaced(shifts, |states|, sp, vec);
        shifts := shifts[sp := Shifts(k, vec)];
      } else {
        TargetsOfNone(shifts, k);
        Inserted(shifts, |states|, sp, k, [|states|]);
        shifts := shifts[..sp] + [Shifts(k, [|states|])] + shifts[sp..];
      }
    }

    /** The vector of state 0 copied with a shift to a new state where the start symbol belongs. */
    method PutStart(start: int) returns (vec: seq<nat>)
      requires Plain(states, shifts) && shifts != [] && shifts[0].targets == TargetsOf(shifts, 0)
      requires |shifts[0].targets| < |states| && Go(states, shifts, 0, start) == None
      ensures exists p :: StartPut(start, states, TargetsOf(shifts, 0), vec, p)
    {
      var targets := shifts[0].targets;
      assert SortedAt(states, targets);
      forall i | 0 <= i < |targets| ensures states[targets[i]].symbol != start {}
      ghost var p := 0;
      vec := [];
      var statep := 1;
      for i := 0 to |targets|
        invariant statep == i + 1 && p <= i
        invariant if |vec| == i then vec == targets[..i] && p == i else |vec| == i + 1 && p < i
        invariant |vec| == i + 1 ==> forall j :: 0 <= j < |vec| ==> vec[j] == Elem(targets, p, |states|, j)
        invariant forall j :: 0 <= j < p ==> states[targets[j]].symbol < start
        invariant forall j :: p <= j < i ==> states[targets[j]].symbol > start
      {
        assert targets[i] == statep;
        if |vec| == i && states[statep].symbol > start {
          vec := vec + [|states|];
        } else if |vec| == i {
          p := i + 1;
        } else {
          assert states[targets[p]].symbol < states[targets[i]].symbol;
        }
        vec := vec + [targets[i]];
        statep := statep + 1;
      }
      if |vec| == |targets| {
        vec := vec + [|states|];
      }
      assert StartPut(start, states, targets, vec, p);
    }

    /** A shift from state 0 to the next-to-final state, which is yet to be made. */
    method ShiftStart(start: int) returns (ghost vec: seq<nat>, ghost p: nat)
      requires Plain(states, shifts) && Go(states, shifts, 0, start) == None
      requires shifts != [] ==> shifts[0].number == 0 && shifts[0].targets == TargetsOf(shifts, 0)
      requires shifts != [] ==> |shifts[0].targets| < |states|
      modifies this`shifts
      ensures StartPut(start, states, TargetsOf(old(shifts), 0), vec, p)
      ensures ChainBelow(shifts, |states|) && Edited(old(shifts), shifts, 0, vec)
    {
      ghost var was := shifts;
      if shifts != [] {
        var copy := PutStart(start);
        vec := copy;
        p :| StartPut(start, states, TargetsOf(shifts, 0), vec, p);
        Replaced(shifts, |states|, 0, vec);
        shifts := [Shifts(0, copy)] + shifts[1..];
        assert shifts == was[0 := Shifts(0, vec)];
      } else {
        vec, p := [|states|], 0;
        Inserted(shifts, |states|, 0, 0, vec);
        shifts := [Shifts(0, [|states|])];
        assert shifts == was[..0] + [Shifts(0, vec)] + was[0..];
      }
    }

    /** There is no next-to-final state yet: a shift to it and the state itself are made. */
    method AddStart(start: int)
      requires Plain(states, shifts) && start > 0 && Go(states, shifts, 0, start) == None
      requires shifts != [] ==> shifts[0].number == 0 && shifts[0].targets == TargetsOf(shifts, 0)
      requires shifts != [] ==> |shifts[0].targets| < |states|
      modifies this
      ensures Prepared(start, old(states), old(shifts), states, shifts)
    {
      ghost var vec, p := ShiftStart(start);
      ghost var edited := shifts;
      InsertStartShift(start);
      assert StartAdded(start, old(states), old(shifts), shifts, edited, vec, p);
    }

    /** The final state and the termination state. */
    method AddFinal() returns (finalState: nat)
      modifies this
      ensures states == old(states) + [Eof, Eof] && finalState == old(|states|) + 1
      ensures shifts == Saved(old(shifts), old(|states|), [finalState])
    {
      states := states + [Eof];
      finalState := |states|;
      shifts := shifts + [Shifts(finalState - 1, [finalState])];
      states := states + [Eof];
    }

    /** The first part of `augment_automaton`; the branch where only state 0 lacks shifts is never taken. */
    method Prepare(start: int)
      requires Plain(states, shifts) && start > 0
      modifies this
      ensures Prepared(start, old(states), old(shifts), states, shifts)
    {
      if shifts != [] {
        StateZeroShifts(states, shifts);
        if shifts[0].number == 0 {
          var statep := FindStart(start, |shifts[0].targets|);
          if states[statep].symbol == start {
            ShiftEof(statep);
          } else {
            AddStart(start);
          }
        } else {
          assert false;
        }
      } else {
        assert TargetsOf(shifts, 0) == [];
        AddStart(start);
      }
    }

    /** `augment_automaton`. */
    method AugmentAutomaton(start: int) returns (finalState: nat)
      requires Plain(states, shifts) && start > 0
      modifies this
      ensures Augmented(start, old(states), old(shifts), states, shifts, finalState)
    {
      Prepare(start);
      ghost var prepared, chain := states, shifts;
      finalState := AddFinal();
      PreparedAugmented(start, old(states), old(shifts), prepared, chain, states, shifts);
    }
  }

  /** `generate_states` as a whole: the machine of the grammar, then the augmented one. */
  method Generate(g: Grammar) returns (ok: bool, states: seq<Core>, shifts: seq<Shifts>, reductions: seq<Reductions>,
                                       finalState: nat, ghost plain: seq<Core>, ghost plainShifts: seq<Shifts>)
    requires WellFormed(g)
    ensures ok <==> exists kernels :: Family(g, kernels) && |kernels| <= 32767
    ensures ok ==> Machine(g, plain, plainShifts, reductions) && Plain(plain, plainShifts)
    ensures ok ==> Augmented(g.start, plain, plainShifts, states, shifts, finalState)
  {
    ok, states, shifts, reductions := GenerateStates(g);
    plain, plainShifts, finalState := states, shifts, 0;
    if ok {
      MachineIsPlain(g, states, shifts, reductions);
      var a := new Automaton(states, shifts);
      finalState := a.AugmentAutomaton(g.start);
      states, shifts := a.states, a.shifts;
    }
  }

  /** The augmented machine on every string: where it is, an item is active exactly if it is in the closure. */
  lemma AugmentedFollowsItems(g: Grammar, plain: seq<Core>, plainShifts: seq<Shifts>, reds: seq<Reductions>,
                              states: seq<Core>, shifts: seq<Shifts>, term: nat, w: seq<int>, j: int)
    requires WellFormed(g) && Machine(g, plain, plainShifts, reds) && Plain(plain, plainShifts)
    requires Augmented(g.start, plain, plainShifts, states, shifts, term)
    ensures Active(g, w, j) <==>
      match Path(states, shifts, w) case None => false case Some(s) => s < |plain| && InClosure(g, states[s].items, j)
  {
    MachineFollowsItems(g, plain, plainShifts, reds, w);
    OldStates(g.start, plain, plainShifts, states, shifts, term, w);
  }
}
