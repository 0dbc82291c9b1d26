/**
 Which strings bison's augmented machine accepts, in terms of the grammar: two strings lead to the
 same state of the LR(0) machine exactly if the same items are active after them.
 */
module BisonFinal {
  import opened Wrappers
  import opened BisonGrammar
  import opened BisonClosure
  import opened BisonMachine
  import opened BisonPaths
  import opened BisonAugment

  lemma StartNotAfter(g: Grammar, u: int, k: int)
    requires WellFormed(g) && LeftStart(g, u, k)
    ensures !AfterSymbol(g, k)
  {
    var r :| LeftStartRule(g, u, k, r);
    assert RuleOk(g, r);
  }

  /** The kernel is what its closure has after symbols. */
  lemma KernelInClosure(g: Grammar, kernel: seq<int>, k: int)
    requires WellFormed(g) && KernelOk(g, kernel)
    ensures k in kernel <==> InClosure(g, kernel, k) && AfterSymbol(g, k)
  {
    if k !in kernel && InClosure(g, kernel, k) {
      if kernel == [] {
        StartNotAfter(g, g.start, k);
      } else {
        var i :| i in kernel && IsItem(g, i) && LeftStart(g, g.ritem[i], k);
        StartNotAfter(g, g.ritem[i], k);
      }
    }
  }

  /** The same items are active after both strings. */
  ghost predicate SameActive(g: Grammar, v: seq<int>, w: seq<int>) {
    forall j :: Active(g, v, j) <==> Active(g, w, j)
  }

  lemma KernelOfState(g: Grammar, states: seq<Core>, s: nat)
    requires StatesOk(g, states) && s < |states|
    ensures KernelOk(g, states[s].items)
  {
    if s > 0 { assert KernelAt(g, states[s].symbol, states[s].items); }
  }

  lemma SameKernel(g: Grammar, states: seq<Core>, s: nat, t: nat)
    requires WellFormed(g) && StatesOk(g, states) && s < |states| && t < |states|
    requires forall j :: InClosure(g, states[s].items, j) <==> InClosure(g, states[t].items, j)
    ensures s == t
  {
    KernelOfState(g, states, s);
    KernelOfState(g, states, t);
    forall k ensures k in states[s].items <==> k in states[t].items {
      KernelInClosure(g, states[s].items, k);
      KernelInClosure(g, states[t].items, k);
    }
    IncreasingSame(states[s].items, states[t].items);
  }

  /** The closure of the state is the set of items active after the string. */
  ghost predicate ClosureIs(g: Grammar, kernel: seq<int>, w: seq<int>) {
    forall j :: InClosure(g, kernel, j) <==> Active(g, w, j)
  }

  lemma StateClosure(g: Grammar, states: seq<Core>, shifts: seq<Shifts>, reds: seq<Reductions>, w: seq<int>, s: nat)
    requires WellFormed(g) && Machine(g, states, shifts, reds) && Path(states, shifts, w) == Some(s)
    ensures s < |states| && ClosureIs(g, states[s].items, w)
  {
    MachineFollowsItems(g, states, shifts, reds, w);
  }

  lemma SameClosures(g: Grammar, states: seq<Core>, s: nat, t: nat, v: seq<int>, w: seq<int>)
    requires WellFormed(g) && StatesOk(g, states) && s < |states| && t < |states|
    requires ClosureIs(g, states[s].items, v) && ClosureIs(g, states[t].items, w)
    ensures s == t <==> SameActive(g, v, w)
  {
    if SameActive(g, v, w) { SameKernel(g, states, s, t); }
  }

  /** Two strings that lead anywhere lead to the same state exactly if the same items are active. */
  lemma SameStateIff(g: Grammar, states: seq<Core>, shifts: seq<Shifts>, reds: seq<Reductions>, v: seq<int>,
                     w: seq<int>)
    requires WellFormed(g) && Machine(g, states, shifts, reds)
    requires Path(states, shifts, v).Some? && Path(states, shifts, w).Some?
    ensures Path(states, shifts, v) == Path(states, shifts, w) <==> SameActive(g, v, w)
  {
    var s, t := Path(states, shifts, v).value, Path(states, shifts, w).value;
    StateClosure(g, states, shifts, reds, v, s);
    StateClosure(g, states, shifts, reds, w, t);
    SameClosures(g, states, s, t, v, w);
  }

  // ---------- the final state ----------

  /** `u` leads where the start symbol leads, as far as items are concerned. */
  ghost predicate LikeStart(g: Grammar, u: seq<int>) {
    u == [g.start] || (SameActive(g, u, [g.start]) && exists j :: Active(g, [g.start], j))
  }

  lemma ToNtfIff(g: Grammar, states: seq<Core>, shifts: seq<Shifts>, reds: seq<Reductions>, u: seq<int>)
    requires WellFormed(g) && Machine(g, states, shifts, reds) && Plain(states, shifts)
    ensures ToNtf(MovesOf(states, shifts), g.start, NextToFinal(g.start, states, shifts), u) <==> LikeStart(g, u)
  {
    PathFollows(states, shifts, u);
    MachineFollowsItems(g, states, shifts, reds, u);
    MachineFollowsItems(g, states, shifts, reds, [g.start]);
    assert [g.start][..0] == [];
    assert Path(states, shifts, [g.start]) == Go(states, shifts, 0, g.start);
    if Path(states, shifts, u).Some? && Path(states, shifts, [g.start]).Some? {
      SameStateIff(g, states, shifts, reds, u, [g.start]);
    }
  }

  /** The final state is reached by two end-of-files after the strings that are like the start symbol. */
  lemma FinalItems(g: Grammar, plain: seq<Core>, plainShifts: seq<Shifts>, reds: seq<Reductions>,
                   states: seq<Core>, shifts: seq<Shifts>, term: nat, u: seq<int>)
    requires WellFormed(g) && Machine(g, plain, plainShifts, reds) && Plain(plain, plainShifts)
    requires Augmented(g.start, plain, plainShifts, states, shifts, term)
    ensures Path(states, shifts, u + [0] + [0]) == Some(term) <==> LikeStart(g, u)
  {
    var go, ntf := MovesOf(plain, plainShifts), NextToFinal(g.start, plain, plainShifts);
    FinalReached(g.start, plain, plainShifts, states, shifts, term, u + [0] + [0]);
    FinSnoc(go, g.start, ntf, u + [0], 0);
    FinSnoc(go, g.start, ntf, u, 0);
    ToNtfIff(g, plain, plainShifts, reds, u);
  }

  // ---------- a grammar whose machine accepts more ----------

  const X := 1
  const Y := 2
  const Z := 3
  const VarS := 4
  const VarC := 5

  /** S: C y | x C z;  C: S. */
  function Nested(): Grammar {
    Grammar(4, 2, VarS, [VarC, Y, -1, X, VarC, Z, -2, VarS, -3, 0], [0, VarS, VarS, VarC], [0, 0, 3, 7])
  }

  lemma NestedOk()
    ensures WellFormed(Nested())
  {
  }

  /** After a string that ends in S only the end of C: S is active. */
  lemma {:induction false} OnlyAfterS(w: seq<int>, u: Run)
    requires IsRun(Nested(), u) && Reads(u) == w + [VarS]
    ensures u.j == 8
  {
    match u
    case First(_) =>
    case ByEps(v, _) => OnlyAfterS(w, v);
    case ByMove(v, x, _) =>
      assert Reads(u)[|w|] == VarS && |Reads(v)| == |w|;
  }

  /** It is active after S and after x S. */
  lemma ActiveAfterS()
    ensures Active(Nested(), [VarS], 8) && Active(Nested(), [X, VarS], 8)
  {
    var g := Nested();
    assert BeginsRule(g, VarS, 0, 1) && BeginsRule(g, VarS, 3, 2) && BeginsRule(g, VarC, 7, 3);
    var u := ByMove(ByEps(First(0), 7), VarS, 8);
    assert IsRun(g, u) && Reads(u) == [] + [VarS] == [VarS];
    var v := ByMove(First(3), X, 4);
    assert IsRun(g, v) && Reads(v) == [] + [X] == [X];
    var w := ByMove(ByEps(v, 7), VarS, 8);
    assert IsRun(g, w) && Reads(w) == [X] + [VarS] == [X, VarS];
  }

  lemma NestedLike()
    ensures WellFormed(Nested()) && LikeStart(Nested(), [X, VarS])
  {
    NestedOk();
    ActiveAfterS();
    forall j ensures Active(Nested(), [X, VarS], j) <==> Active(Nested(), [VarS], j) { OnlyEight(j); }
  }

  lemma AcceptsLike(g: Grammar, plain: seq<Core>, plainShifts: seq<Shifts>, reds: seq<Reductions>,
                    states: seq<Core>, shifts: seq<Shifts>, term: nat, u: seq<int>)
    requires WellFormed(g) && Machine(g, plain, plainShifts, reds) && Plain(plain, plainShifts)
    requires Augmented(g.start, plain, plainShifts, states, shifts, term) && LikeStart(g, u)
    ensures Path(states, shifts, u + [0] + [0]) == Some(term)
  {
    FinalItems(g, plain, plainShifts, reds, states, shifts, term, u);
  }

  /** The machine of this grammar reaches its final state on x S and two end-of-files too. */
  lemma NestedAccepts(plain: seq<Core>, plainShifts: seq<Shifts>, reds: seq<Reductions>, states: seq<Core>,
                      shifts: seq<Shifts>, term: nat)
    requires Machine(Nested(), plain, plainShifts, reds) && Plain(plain, plainShifts)
    requires Augmented(VarS, plain, plainShifts, states, shifts, term)
    ensures Path(states, shifts, [X, VarS] + [0] + [0]) == Some(term)
  {
    NestedLike();
    AcceptsLike(Nested(), plain, plainShifts, reds, states, shifts, term, [X, VarS]);
  }

  lemma OnlyEight(j: int)
    ensures Active(Nested(), [X, VarS], j) <==> j == 8
    ensures Active(Nested(), [VarS], j) <==> j == 8
  {
    ActiveAfterS();
    if Active(Nested(), [X, VarS], j) {
      var u :| IsRun(Nested(), u) && Reads(u) == [X, VarS] && u.j == j;
      assert [X] + [VarS] == [X, VarS];
      OnlyAfterS([X], u);
    }
    if Active(Nested(), [VarS], j) {
      var u :| IsRun(Nested(), u) && Reads(u) == [VarS] && u.j == j;
      assert [] + [VarS] == [VarS];
      OnlyAfterS([], u);
    }
  }
}
