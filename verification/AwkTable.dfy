/**
 The table of bin/awk/b.c as a value: which states are live, how one step changes it, and what
 the drivers make of it.  Every call is determined by the table it starts with and the text.
 */
module AwkTable {
  import opened Positions
  import opened AwkRuns

  const NSTATES := 32
  const NCHARS := 257

  /** The set of state 2, with position 0 left out in anchored automata. */
  ghost function StartOf(root: Re, anchor: bool): set<nat> {
    if anchor then Follow(root, 0) - {0} else Follow(root, 0)
  }

  /** The set after the HAT that precedes the text. */
  ghost function InitOf(root: Re, anchor: bool): set<nat> {
    var d := Delta(root, Follow(root, 0), HAT);
    if anchor then d - {0} else d
  }

  /** The number `makeinit` gives the state after HAT. */
  ghost function InitNo(root: Re): nat { if InitOf(root, false) == StartOf(root, false) then 2 else 3 }

  /** How sets of positions step from character to character; the table's laws hold for any such function. */
  type Step = (set<nat>, int) -> set<nat>

  /** The steps of a tree. */
  ghost function StepOf(root: Re): Step { (s, c) => Delta(root, s, c) }

  // ---------- tables and steps ----------

  const NoLoop := -1

  /**
   sets[s - 1] is the set of state s; state 1 is dead.  `loop` is a character on which state 2 is
   cached as leading to itself because the table was recycled from the old state 2.
   */
  datatype Tab = Tab(sets: seq<set<nat>>, loop: int, reset: bool)

  /** A table and the state the machine is in. */
  datatype Conf = Conf(tab: Tab, s: nat)

  ghost predicate TabOk(t: Tab) {
    && 2 <= |t.sets| < NSTATES && t.sets[0] == {}
    && (forall i, j :: 0 <= i < j < |t.sets| ==> t.sets[i] != t.sets[j])
  }

  ghost predicate ConfOk(k: Conf) { TabOk(k.tab) && 1 <= k.s <= |k.tab.sets| }

  ghost function Now(k: Conf): set<nat>
    requires ConfOk(k)
  {
    k.tab.sets[k.s - 1]
  }

  /** Where `d` is among the sets. */
  ghost function Find(sets: seq<set<nat>>, d: set<nat>): (i: nat)
    requires d in sets
    ensures i < |sets| && sets[i] == d
  {
    var i :| 0 <= i < |sets| && sets[i] == d;
    i
  }

  /** The cached entry left by recycling applies. */
  predicate Loops(k: Conf, c: int) { k.s == 2 && c == k.tab.loop }

  /** The table is full and the successor is not in it. */
  ghost predicate Overflows(step: Step, k: Conf, c: int)
    requires ConfOk(k)
  {
    step(Now(k), c) !in k.tab.sets && |k.tab.sets| == NSTATES - 1
  }

  /** `cgoto`: the successor is found, added, or made the new state 2 of a recycled table. */
  ghost function Add(step: Step, k: Conf, c: int): (k': Conf)
    requires ConfOk(k)
    ensures ConfOk(k') && Now(k') == step(Now(k), c)
  {
    var t, d := k.tab, step(Now(k), c);
    if d in t.sets then Conf(t, Find(t.sets, d) + 1)
    else if |t.sets| < NSTATES - 1 then Conf(t.(sets := t.sets + [d]), |t.sets| + 1)
    else
      var t' := Tab([{}, d], if k.s == 2 && c < HAT then c else NoLoop, true);
      assert d != {} by { assert t.sets[0] in t.sets; }
      Conf(t', 2)
  }

  /** One character of a driver: the cached transition or `cgoto`. */
  ghost function Take(step: Step, k: Conf, c: int): (k': Conf)
    requires ConfOk(k)
    ensures ConfOk(k')
  {
    if Loops(k, c) then k else Add(step, k, c)
  }

  /** The step goes to a wrong set. */
  ghost predicate Slips(step: Step, k: Conf, c: int)
    requires ConfOk(k)
  {
    Loops(k, c) && step(Now(k), c) != Now(k)
  }

  /** The step recycles the table, and the same character would slip right after it. */
  ghost predicate Spoils(step: Step, k: Conf, c: int)
    requires ConfOk(k)
  {
    Overflows(step, k, c) && k.s == 2 && c < HAT && Slips(step, Add(step, k, c), c)
  }

  /** No cached entry of the table is wrong. */
  ghost predicate Sound(step: Step, t: Tab)
    requires TabOk(t)
  {
    t.loop == NoLoop || !Slips(step, Conf(t, 2), t.loop)
  }

  /** A sound table stays sound exactly when the step does not spoil it. */
  lemma SoundIff(step: Step, k: Conf, c: int)
    requires ConfOk(k) && Sound(step, k.tab) && !Loops(k, c) && c >= 0
    ensures Sound(step, Add(step, k, c).tab) <==> !Spoils(step, k, c)
  {
  }

  lemma TakeSet(step: Step, k: Conf, c: int)
    requires ConfOk(k)
    ensures Now(Take(step, k, c)) == step(Now(k), c) <==> !Slips(step, k, c)
  {
  }

  ghost function RunBy(step: Step, s: set<nat>, w: seq<int>): set<nat>
    decreases |w|
  {
    if w == [] then s else RunBy(step, step(s, w[0]), w[1..])
  }

  lemma {:induction false} RunByIs(root: Re, s: set<nat>, w: seq<int>)
    ensures RunBy(StepOf(root), s, w) == Run(root, s, w)
    decreases |w|
  {
    if w != [] { RunByIs(root, Delta(root, s, w[0]), w[1..]); }
  }

  lemma {:induction false} RunByAppend(step: Step, s: set<nat>, w: seq<int>, c: int)
    ensures RunBy(step, s, w + [c]) == step(RunBy(step, s, w), c)
    decreases |w|
  {
    if w == [] {
      assert ([] + [c])[1..] == [] && [] + [c] == [c];
    } else {
      assert (w + [c])[1..] == w[1..] + [c];
      RunByAppend(step, step(s, w[0]), w[1..], c);
    }
  }

  /** Nothing comes from nothing. */
  ghost predicate FromNothing(step: Step) { forall c: int :: StepsTo(step, {}, c, {}) }

  ghost predicate StepsTo(step: Step, s: set<nat>, c: int, t: set<nat>) { step(s, c) == t }

  lemma {:induction false} RunByEmpty(step: Step, w: seq<int>)
    requires FromNothing(step)
    ensures RunBy(step, {}, w) == {}
    decreases |w|
  {
    if w != [] {
      assert StepsTo(step, {}, w[0], {});
      RunByEmpty(step, w[1..]);
    }
  }

  lemma NothingFromNothing(root: Re)
    ensures FromNothing(StepOf(root))
  {
    forall c: int ensures StepsTo(StepOf(root), {}, c, {}) { assert Delta(root, {}, c) == {}; }
  }

  /** The successor is a live state. */
  lemma TakeFinds(step: Step, k: Conf, c: int, i: nat)
    requires ConfOk(k) && !Loops(k, c) && i < |k.tab.sets| && step(Now(k), c) == k.tab.sets[i]
    ensures Take(step, k, c) == Conf(k.tab, i + 1)
  {
    assert k.tab.sets[i] in k.tab.sets;
  }

  /** The successor becomes a new state. */
  lemma TakeAdds(step: Step, k: Conf, c: int, d: set<nat>)
    requires ConfOk(k) && !Loops(k, c) && d == step(Now(k), c) && d !in k.tab.sets && |k.tab.sets| < NSTATES - 1
    ensures Take(step, k, c) == Conf(k.tab.(sets := k.tab.sets + [d]), |k.tab.sets| + 1)
  {
  }

  /** The table is recycled for the successor. */
  lemma TakeRecycles(step: Step, k: Conf, c: int, d: set<nat>)
    requires ConfOk(k) && !Loops(k, c) && c < HAT
    requires d == step(Now(k), c) && d !in k.tab.sets && |k.tab.sets| == NSTATES - 1
    ensures Overflows(step, k, c)
    ensures Take(step, k, c) == Conf(Tab([{}, d], if k.s == 2 then c else NoLoop, true), 2)
  {
  }

  ghost function TakeAll(step: Step, k: Conf, w: seq<int>): (k': Conf)
    requires ConfOk(k)
    ensures ConfOk(k')
    decreases |w|
  {
    if w == [] then k else TakeAll(step, Take(step, k, w[0]), w[1..])
  }

  /** Some character of `w` slips. */
  ghost predicate SlipsOn(step: Step, k: Conf, w: seq<int>)
    requires ConfOk(k)
    decreases |w|
  {
    w != [] && (Slips(step, k, w[0]) || SlipsOn(step, Take(step, k, w[0]), w[1..]))
  }

  /** The machine is right after `w`. */
  ghost predicate RightAfter(step: Step, k: Conf, w: seq<int>)
    requires ConfOk(k)
  {
    Now(TakeAll(step, k, w)) == RunBy(step, Now(k), w)
  }

  /** The machine is right after every prefix of `w`. */
  ghost predicate RightOn(step: Step, k: Conf, w: seq<int>)
    requires ConfOk(k)
  {
    forall j :: 0 <= j <= |w| ==> RightAfter(step, k, w[..j])
  }

  lemma RightPrefix(step: Step, k: Conf, w: seq<int>, j: nat)
    requires ConfOk(k) && w != [] && j < |w| && !Slips(step, k, w[0])
    ensures RightAfter(step, k, w[..j + 1]) <==> RightAfter(step, Take(step, k, w[0]), w[1..][..j])
  {
    assert w[..j + 1][1..] == w[1..][..j];
    TakeSet(step, k, w[0]);
  }

  lemma RightFirst(step: Step, k: Conf, w: seq<int>)
    requires ConfOk(k) && w != []
    ensures RightAfter(step, k, w[..1]) <==> !Slips(step, k, w[0])
  {
    var u := w[..1];
    assert u[0] == w[0] && u[1..] == [];
    assert TakeAll(step, k, u) == TakeAll(step, Take(step, k, u[0]), []);
    assert RunBy(step, Now(k), u) == RunBy(step, step(Now(k), u[0]), []);
    TakeSet(step, k, w[0]);
  }

  lemma RightStep(step: Step, k: Conf, w: seq<int>)
    requires ConfOk(k) && w != []
    ensures RightOn(step, k, w) <==> !Slips(step, k, w[0]) && RightOn(step, Take(step, k, w[0]), w[1..])
  {
    RightFirst(step, k, w);
    if RightOn(step, k, w) {
      assert RightAfter(step, k, w[..1]);
      RightRest(step, k, w);
    }
    if !Slips(step, k, w[0]) && RightOn(step, Take(step, k, w[0]), w[1..]) {
      forall j | 0 <= j <= |w| ensures RightAfter(step, k, w[..j]) {
        if j == 0 {
          assert w[..0] == [];
        } else {
          RightPrefix(step, k, w, j - 1);
        }
      }
    }
  }

  lemma RightRest(step: Step, k: Conf, w: seq<int>)
    requires ConfOk(k) && w != [] && !Slips(step, k, w[0]) && RightOn(step, k, w)
    ensures RightOn(step, Take(step, k, w[0]), w[1..])
  {
    forall j | 0 <= j <= |w[1..]| ensures RightAfter(step, Take(step, k, w[0]), w[1..][..j]) {
      RightPrefix(step, k, w, j);
    }
  }

  /** The cached table agrees with the sets all along exactly when no step slips. */
  lemma {:induction false} RightIff(step: Step, k: Conf, w: seq<int>)
    requires ConfOk(k)
    ensures RightOn(step, k, w) <==> !SlipsOn(step, k, w)
    decreases |w|
  {
    if w == [] {
      forall j | 0 <= j <= |w| ensures RightAfter(step, k, w[..j]) {}
    } else {
      RightStep(step, k, w);
      RightIff(step, Take(step, k, w[0]), w[1..]);
    }
  }
}
