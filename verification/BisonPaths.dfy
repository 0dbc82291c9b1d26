/**
 Where a machine is after each string when the three transitions of `augment_automaton` in
 bin/bison/LR0.c are added to it.
 */
module BisonPaths {
  import opened Wrappers

  /** Where a state goes on a symbol. */
  type Moves = (nat, int) -> Option<nat>

  ghost function Follow(go: Moves, w: seq<int>): Option<nat> {
    if w == [] then Some(0)
    else
      match Follow(go, w[..|w| - 1])
      case None => None
      case Some(s) => go(s, w[|w| - 1])
  }

  lemma FollowSnoc(go: Moves, v: seq<int>, x: int)
    ensures Follow(go, v + [x]) == match Follow(go, v) case None => None case Some(s) => go(s, x)
  {
    assert (v + [x])[..|v|] == v;
  }

  /** States below `n` only, no state goes back to 0, and none shifts end-of-file. */
  ghost predicate Shifting(go: Moves, n: nat) { n >= 1 && forall s: nat, x: int :: ShiftsTo(go, n, s, x) }

  ghost predicate ShiftsTo(go: Moves, n: nat, s: nat, x: int) {
    match go(s, x) case None => true case Some(t) => 1 <= t < n && s < n && x != 0
  }

  /** The next-to-final state: the target on the start symbol, or a new state. */
  ghost predicate NextToFinalIs(go: Moves, start: int, n: nat, ntf: nat) {
    go(0, start) == (if ntf == n then None else Some(ntf))
  }

  /** The old transitions and the three new ones. */
  ghost function NewMove(go: Moves, start: int, ntf: nat, term: nat, s: nat, x: int): Option<nat> {
    if s == 0 && x == start then Some(ntf)
    else if s == ntf && x == 0 then Some(if term > 0 then term - 1 else 0)
    else if s + 1 == term && x == 0 then Some(term)
    else go(s, x)
  }

  // ---------- strings ----------

  /** The string leads to the next-to-final state. */
  ghost predicate ToNtf(go: Moves, start: int, ntf: nat, w: seq<int>) { w == [start] || Follow(go, w) == Some(ntf) }

  /** One end-of-file has been shifted after that. */
  ghost predicate ToFin(go: Moves, start: int, ntf: nat, w: seq<int>) {
    w != [] && w[|w| - 1] == 0 && ToNtf(go, start, ntf, w[..|w| - 1])
  }

  /** Two end-of-files have been shifted. */
  ghost predicate ToTerm(go: Moves, start: int, ntf: nat, w: seq<int>) {
    w != [] && w[|w| - 1] == 0 && ToFin(go, start, ntf, w[..|w| - 1])
  }

  /** Where the augmented machine is after a string, in terms of the plain one. */
  ghost function Where(go: Moves, start: int, ntf: nat, term: nat, w: seq<int>): Option<nat> {
    if Follow(go, w).Some? then Follow(go, w)
    else if w == [start] then Some(ntf)
    else if ToFin(go, start, ntf, w) then Some(if term > 0 then term - 1 else 0)
    else if ToTerm(go, start, ntf, w) then Some(term)
    else None
  }

  lemma FinSnoc(go: Moves, start: int, ntf: nat, v: seq<int>, x: int)
    ensures ToFin(go, start, ntf, v + [x]) <==> x == 0 && ToNtf(go, start, ntf, v)
    ensures ToTerm(go, start, ntf, v + [x]) <==> x == 0 && ToFin(go, start, ntf, v)
  {
    assert (v + [x])[..|v|] == v;
  }

  /** What `augment_automaton` makes of a machine with `n` states. */
  ghost predicate Augments(go: Moves, start: int, n: nat, ntf: nat, term: nat) {
    Shifting(go, n) && start > 0 && NextToFinalIs(go, start, n, ntf) && n < term && (ntf == n ==> term == ntf + 2)
  }

  /** A string that ends with end-of-file is new. */
  lemma EofIsNew(go: Moves, start: int, n: nat, ntf: nat, term: nat, w: seq<int>)
    requires Augments(go, start, n, ntf, term) && w != [] && w[|w| - 1] == 0
    ensures Follow(go, w) == None && w != [start] && !ToNtf(go, start, ntf, w)
  {
    if Follow(go, w[..|w| - 1]).Some? { assert ShiftsTo(go, n, Follow(go, w[..|w| - 1]).value, 0); }
  }

  lemma OnlyAtFirst(go: Moves, n: nat, w: seq<int>)
    requires Shifting(go, n) && Follow(go, w).Some?
    ensures Follow(go, w).value < n && (Follow(go, w).value == 0 <==> w == [])
  {
    if w != [] { assert ShiftsTo(go, n, Follow(go, w[..|w| - 1]).value, w[|w| - 1]); }
  }

  lemma StartIs(go: Moves, start: int, n: nat, ntf: nat)
    requires NextToFinalIs(go, start, n, ntf)
    ensures Follow(go, [start]) == if ntf == n then None else Some(ntf)
  {
    assert [] + [start] == [start];
    FollowSnoc(go, [], start);
  }

  // ---------- one more symbol ----------

  ghost function Further(go: Moves, start: int, ntf: nat, term: nat, at: Option<nat>, x: int): Option<nat> {
    match at case None => None case Some(s) => NewMove(go, start, ntf, term, s, x)
  }

  /** From an old state. */
  lemma FurtherOld(go: Moves, start: int, n: nat, ntf: nat, term: nat, v: seq<int>, x: int)
    requires Augments(go, start, n, ntf, term) && Follow(go, v).Some?
    ensures Where(go, start, ntf, term, v + [x]) == NewMove(go, start, ntf, term, Follow(go, v).value, x)
  {
    var w, s := v + [x], Follow(go, v).value;
    FollowSnoc(go, v, x);
    FinSnoc(go, start, ntf, v, x);
    OnlyAtFirst(go, n, v);
    StartIs(go, start, n, ntf);
    assert ShiftsTo(go, n, s, x);
    if v != [] && v[|v| - 1] == 0 { EofIsNew(go, start, n, ntf, term, v); }
    assert w == [start] <==> v == [] && x == start;
  }

  /** From a new state, or from nowhere. */
  lemma FurtherNew(go: Moves, start: int, n: nat, ntf: nat, term: nat, v: seq<int>, x: int)
    requires Augments(go, start, n, ntf, term) && Follow(go, v).None?
    ensures Where(go, start, ntf, term, v + [x]) == Further(go, start, ntf, term, Where(go, start, ntf, term, v), x)
  {
    FollowSnoc(go, v, x);
    FinSnoc(go, start, ntf, v, x);
    StartIs(go, start, n, ntf);
    NewOnes(go, start, n, ntf, term, x);
    assert v + [x] != [start];
    if v[|v| - 1] == 0 {
      EofIsNew(go, start, n, ntf, term, v);
      var u := v[..|v| - 1];
      if u != [] && u[|u| - 1] == 0 { EofIsNew(go, start, n, ntf, term, u); }
    }
  }

  lemma NewOnes(go: Moves, start: int, n: nat, ntf: nat, term: nat, x: int)
    requires Augments(go, start, n, ntf, term)
    ensures go(term, x) == None && go(term - 1, x) == None && (ntf >= n ==> go(ntf, x) == None) && 1 <= ntf < term - 1
  {
    assert ShiftsTo(go, n, term, x) && ShiftsTo(go, n, term - 1, x);
    assert ShiftsTo(go, n, ntf, x) && ShiftsTo(go, n, 0, start);
  }

  /** Every path of the augmented machine: the plain ones, and those that end with new transitions. */
  lemma {:induction false} FollowIs(go: Moves, go': Moves, start: int, n: nat, ntf: nat, term: nat, w: seq<int>)
    requires Augments(go, start, n, ntf, term)
    requires forall s: nat, x: int :: go'(s, x) == NewMove(go, start, ntf, term, s, x)
    ensures Follow(go', w) == Where(go, start, ntf, term, w)
    decreases |w|
  {
    if w != [] {
      var v, x := w[..|w| - 1], w[|w| - 1];
      assert w == v + [x];
      FollowIs(go, go', start, n, ntf, term, v);
      if Follow(go, v).Some? {
        FurtherOld(go, start, n, ntf, term, v, x);
      } else {
        FurtherNew(go, start, n, ntf, term, v, x);
      }
    }
  }

  /** The final state is reached by two end-of-files after the next-to-final state, and by nothing else. */
  lemma WhereFinal(go: Moves, start: int, n: nat, ntf: nat, term: nat, w: seq<int>)
    requires Augments(go, start, n, ntf, term)
    ensures Where(go, start, ntf, term, w) == Some(term) <==> ToTerm(go, start, ntf, w)
  {
    NewOnes(go, start, n, ntf, term, 0);
    if Follow(go, w).Some? { OnlyAtFirst(go, n, w); }
    if ToTerm(go, start, ntf, w) {
      EofIsNew(go, start, n, ntf, term, w);
      EofIsNew(go, start, n, ntf, term, w[..|w| - 1]);
    }
  }
}
