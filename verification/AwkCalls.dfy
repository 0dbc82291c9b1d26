/**
 The drivers of bin/awk/b.c as functions of the table and the text: `match`, and the loops of
 `pmatch` and `nematch`.  When no step slips their results are those of the position sets.
 */
module AwkCalls {
  import opened Positions
  import opened AwkRuns
  import opened AwkTable

  /** The character at index `p` of a C string. */
  function CharAt(text: seq<int>, p: nat): int
    requires p <= |text|
  {
    if p < |text| then text[p] else NUL
  }

  // ---------- between calls ----------

  /** What position 0 does for a searching tree: it consumes HAT and stays active. */
  ghost predicate Searches(root: Re, acc: nat) {
    && 0 in Follow(root, 0) && 0 in Delta(root, Follow(root, 0), HAT) && acc != 0
    && StartOf(root, true) != {} && InitOf(root, true) != {}
  }

  /** The table `makeinit` makes. */
  ghost function Fresh(root: Re, anchor: bool): Tab {
    var start, init := StartOf(root, anchor), InitOf(root, anchor);
    Tab(if InitNo(root) == 2 then [{}, start] else [{}, start, init], NoLoop, false)
  }

  /** States 2 and `InitNo` are the starting states. */
  ghost predicate Placed(root: Re, anchor: bool, t: Tab) {
    && 2 <= InitNo(root) <= |t.sets|
    && t.sets[1] == StartOf(root, anchor) && t.sets[InitNo(root) - 1] == InitOf(root, anchor)
  }

  lemma DropDistinct(a: set<nat>, b: set<nat>)
    requires 0 in a && 0 in b
    ensures a - {0} == b - {0} <==> a == b
  {
    assert a == a - {0} + {0} && b == b - {0} + {0};
  }

  lemma FreshOk(root: Re, acc: nat, anchor: bool)
    requires Searches(root, acc)
    ensures TabOk(Fresh(root, anchor)) && Placed(root, anchor, Fresh(root, anchor))
  {
    DropDistinct(StartOf(root, false), InitOf(root, false));
  }

  /** What an automaton keeps from call to call. */
  datatype Auto = Auto(tab: Tab, initstat: nat)

  ghost predicate AutoOk(root: Re, acc: nat, anchor: bool, a: Auto) {
    && Searches(root, acc) && TabOk(a.tab) && (a.initstat == InitNo(root) || (anchor && a.initstat == 2))
    && (!a.tab.reset ==> Placed(root, anchor, a.tab) && a.tab.loop == NoLoop)
  }

  /** Where a call begins: the starting states are rebuilt if the table was recycled. */
  ghost function BeginConf(root: Re, acc: nat, anchor: bool, a: Auto): (k: Conf)
    requires AutoOk(root, acc, anchor, a)
    ensures ConfOk(k) && !k.tab.reset && k.tab.loop == NoLoop && Placed(root, anchor, k.tab)
    ensures Now(k) == if BeginsRight(root, a) then InitOf(root, anchor) else StartOf(root, anchor)
  {
    FreshOk(root, acc, anchor);
    if a.tab.reset then Conf(Fresh(root, anchor), InitNo(root)) else Conf(a.tab, a.initstat)
  }

  /** The call begins in the state after HAT. */
  ghost predicate BeginsRight(root: Re, a: Auto) { a.tab.reset || a.initstat == InitNo(root) }

  // ---------- match ----------

  ghost function MatchFrom(step: Step, acc: nat, k: Conf, text: seq<int>, p: nat): bool
    requires ConfOk(k) && p <= |text| + 1
    decreases |text| + 1 - p
  {
    acc in Now(k) || (p <= |text| && MatchFrom(step, acc, Take(step, k, CharAt(text, p)), text, p + 1))
  }

  /** The table after the call. */
  ghost function MatchEnd(step: Step, acc: nat, k: Conf, text: seq<int>, p: nat): (t: Tab)
    requires ConfOk(k) && p <= |text| + 1
    ensures TabOk(t)
    decreases |text| + 1 - p
  {
    if acc in Now(k) || p > |text| then k.tab else MatchEnd(step, acc, Take(step, k, CharAt(text, p)), text, p + 1)
  }

  /** Some step of the call slips. */
  ghost predicate MatchSlips(step: Step, acc: nat, k: Conf, text: seq<int>, p: nat)
    requires ConfOk(k) && p <= |text| + 1
    decreases |text| + 1 - p
  {
    && acc !in Now(k) && p <= |text|
    && (Slips(step, k, CharAt(text, p)) || MatchSlips(step, acc, Take(step, k, CharAt(text, p)), text, p + 1))
  }

  /** Started with `s` at index `p`, the automaton accepts on arriving at index `q` of text NUL. */
  ghost predicate AcceptsAt(step: Step, acc: nat, s: set<nat>, text: seq<int>, p: nat, q: nat)
    requires p <= q <= |text| + 1
  {
    acc in RunBy(step, s, (text + [NUL])[p..q])
  }

  ghost predicate AcceptsSome(step: Step, acc: nat, s: set<nat>, text: seq<int>) {
    exists j: nat :: j <= |text| + 1 && AcceptsAt(step, acc, s, text, 0, j)
  }

  lemma RunStep(step: Step, s: set<nat>, text: seq<int>, p: nat, q: nat)
    requires p <= q <= |text|
    ensures RunBy(step, s, (text + [NUL])[p..q+1]) == step(RunBy(step, s, (text + [NUL])[p..q]), CharAt(text, q))
  {
    var w := text + [NUL];
    assert w[p..q+1] == w[p..q] + [CharAt(text, q)];
    RunByAppend(step, s, w[p..q], CharAt(text, q));
  }

  lemma {:induction false} MatchFromRight(step: Step, acc: nat, s: set<nat>, k: Conf, text: seq<int>, p: nat)
    requires ConfOk(k) && p <= |text| + 1 && Now(k) == RunBy(step, s, (text + [NUL])[0..p])
    requires !MatchSlips(step, acc, k, text, p)
    ensures MatchFrom(step, acc, k, text, p) <==>
      exists j: nat :: p <= j <= |text| + 1 && AcceptsAt(step, acc, s, text, 0, j)
    decreases |text| + 1 - p
  {
    if acc in Now(k) {
      assert AcceptsAt(step, acc, s, text, 0, p);
    } else if p <= |text| {
      RunStep(step, s, text, 0, p);
      TakeSet(step, k, CharAt(text, p));
      MatchFromRight(step, acc, s, Take(step, k, CharAt(text, p)), text, p + 1);
      assert !AcceptsAt(step, acc, s, text, 0, p);
    }
  }

  /** If no step slips, `match` finds out whether some prefix of text NUL is accepted. */
  lemma MatchIsAccepts(step: Step, acc: nat, k: Conf, text: seq<int>)
    requires ConfOk(k) && !MatchSlips(step, acc, k, text, 0)
    ensures MatchFrom(step, acc, k, text, 0) <==> AcceptsSome(step, acc, Now(k), text)
  {
    assert (text + [NUL])[0..0] == [];
    MatchFromRight(step, acc, Now(k), k, text, 0);
  }

  // ---------- the inner loop of pmatch and nematch ----------

  /** The length found from index `p`, at index `q` with `len` so far; 0 past the text stands for `$`. */
  ghost function ScanLen(step: Step, acc: nat, k: Conf, text: seq<int>, p: nat, q: nat, len: int): int
    requires ConfOk(k) && p <= q <= |text| + 1
    decreases |text| + 1 - q
  {
    if q > |text| then (if acc in Now(k) then q - p - 1 else len)
    else
      var len', k' := Noted(acc, k, p, q, len), Take(step, k, CharAt(text, q));
      if k'.s == 1 then len' else ScanLen(step, acc, k', text, p, q + 1, len')
  }

  /** A match that ends at `q` is noted. */
  ghost function Noted(acc: nat, k: Conf, p: nat, q: nat, len: int): int
    requires ConfOk(k)
  {
    if acc in Now(k) then q - p else len
  }

  ghost function ScanEnd(step: Step, k: Conf, text: seq<int>, q: nat): (t: Tab)
    requires ConfOk(k) && q <= |text| + 1
    ensures TabOk(t)
    decreases |text| + 1 - q
  {
    if q > |text| then k.tab
    else
      var k' := Take(step, k, CharAt(text, q));
      if k'.s == 1 then k'.tab else ScanEnd(step, k', text, q + 1)
  }

  /** One character of the scan. */
  lemma ScanGoesOn(step: Step, acc: nat, k: Conf, text: seq<int>, p: nat, q: nat, len: int, k': Conf, len': int)
    requires ConfOk(k) && p <= q <= |text|
    requires k' == Take(step, k, CharAt(text, q)) && len' == Noted(acc, k, p, q, len)
    ensures ScanLen(step, acc, k, text, p, q, len) ==
      if k'.s == 1 then len' else ScanLen(step, acc, k', text, p, q + 1, len')
    ensures ScanEnd(step, k, text, q) == if k'.s == 1 then k'.tab else ScanEnd(step, k', text, q + 1)
  {
  }

  ghost predicate ScanSlips(step: Step, k: Conf, text: seq<int>, q: nat)
    requires ConfOk(k) && q <= |text| + 1
    decreases |text| + 1 - q
  {
    q <= |text| &&
    (Slips(step, k, CharAt(text, q)) ||
     (Take(step, k, CharAt(text, q)).s != 1 && ScanSlips(step, Take(step, k, CharAt(text, q)), text, q + 1)))
  }

  /** The automaton as sets: where it starts at index 0 and at every other index. */
  datatype Machine = Machine(step: Step, acc: nat, first: set<nat>, start: set<nat>)

  function From(m: Machine, p: nat): set<nat> { if p == 0 then m.first else m.start }

  /** Started at index `p`, the automaton accepts on arriving at index `j`. */
  ghost predicate Arrives(m: Machine, text: seq<int>, p: nat, j: nat) {
    p <= j <= |text| + 1 && AcceptsAt(m.step, m.acc, From(m, p), text, p, j)
  }

  /** Length `k` is accepted from index `p`; a NUL consumed by `$` is not counted. */
  ghost predicate Spans(m: Machine, text: seq<int>, p: nat, k: nat) {
    p + k <= |text| && (Arrives(m, text, p, p + k) || (p + k == |text| && Arrives(m, text, p, |text| + 1)))
  }

  /** `len` is the greatest accepted length from `p`, or `none` if there is none. */
  ghost predicate Longest(m: Machine, text: seq<int>, p: nat, len: int, none: int) {
    || (len >= 0 && Spans(m, text, p, len) && forall k: nat :: Spans(m, text, p, k) ==> k <= len)
    || (len == none && forall k: nat :: !Spans(m, text, p, k))
  }

  /** The same, for arrivals before index `q`. */
  ghost predicate LongestBefore(m: Machine, text: seq<int>, p: nat, q: nat, len: int, none: int) {
    || (0 <= len && p + len < q && Arrives(m, text, p, p + len)
        && forall j: nat :: j < q && Arrives(m, text, p, j) ==> j <= p + len)
    || (len == none && forall j: nat :: j < q ==> !Arrives(m, text, p, j))
  }

  lemma {:induction false} RunSplit(step: Step, s: set<nat>, u: seq<int>, v: seq<int>)
    ensures RunBy(step, s, u + v) == RunBy(step, RunBy(step, s, u), v)
    decreases |u|
  {
    if u == [] {
      assert u + v == v;
    } else {
      assert (u + v)[0] == u[0] && (u + v)[1..] == u[1..] + v;
      RunSplit(step, step(s, u[0]), u[1..], v);
    }
  }

  /** Once no position is active nothing is accepted any more. */
  lemma Stuck(m: Machine, text: seq<int>, p: nat, q: nat, len: int, none: int)
    requires FromNothing(m.step) && p <= q <= |text| + 1 && RunBy(m.step, From(m, p), (text + [NUL])[p..q]) == {}
    requires LongestBefore(m, text, p, q, len, none)
    ensures Longest(m, text, p, len, none)
  {
    var w := text + [NUL];
    forall j: nat | q <= j ensures !Arrives(m, text, p, j) {
      if j <= |text| + 1 {
        assert w[p..j] == w[p..q] + w[q..j];
        RunSplit(m.step, From(m, p), w[p..q], w[q..j]);
        RunByEmpty(m.step, w[q..j]);
      }
    }
  }

  /** The text is exhausted: an arrival past the NUL counts as the whole rest of the text. */
  lemma Exhausted(m: Machine, text: seq<int>, p: nat, len: int, none: int)
    requires p <= |text| && LongestBefore(m, text, p, |text| + 1, len, none)
    ensures Longest(m, text, p, if Arrives(m, text, p, |text| + 1) then |text| - p else len, none)
  {
    if Arrives(m, text, p, |text| + 1) { assert Spans(m, text, p, |text| - p); }
  }

  lemma BeforeStep(m: Machine, text: seq<int>, p: nat, q: nat, len: int, none: int)
    requires p <= q && LongestBefore(m, text, p, q, len, none)
    ensures LongestBefore(m, text, p, q + 1, if Arrives(m, text, p, q) then q - p else len, none)
  {
  }

  lemma {:induction false} ScanIsLongest(m: Machine, k: Conf, text: seq<int>, p: nat, q: nat, len: int, none: int)
    requires FromNothing(m.step) && ConfOk(k) && p <= |text| && p <= q <= |text| + 1 && !ScanSlips(m.step, k, text, q)
    requires Now(k) == RunBy(m.step, From(m, p), (text + [NUL])[p..q]) && LongestBefore(m, text, p, q, len, none)
    ensures Longest(m, text, p, ScanLen(m.step, m.acc, k, text, p, q, len), none)
    decreases |text| + 1 - q
  {
    assert m.acc in Now(k) <==> Arrives(m, text, p, q);
    if q > |text| {
      Exhausted(m, text, p, len, none);
    } else {
      var len', k' := Noted(m.acc, k, p, q, len), Take(m.step, k, CharAt(text, q));
      BeforeStep(m, text, p, q, len, none);
      RunStep(m.step, From(m, p), text, p, q);
      TakeSet(m.step, k, CharAt(text, q));
      if k'.s == 1 {
        Stuck(m, text, p, q + 1, len', none);
      } else {
        ScanIsLongest(m, k', text, p, q + 1, len', none);
      }
    }
  }

  // ---------- the outer loop ----------

  datatype Outcome = Found(beg: nat, len: int) | Missed

  /** The last index a search starts from: `pmatch` also tries the end of the text. */
  function LastStart(text: seq<int>, least: int): int { if least < 0 then |text| else |text| - 1 }

  /** `nextin`: state 2 again, rebuilt if the table was recycled. */
  ghost function NextConf(start: set<nat>, t: Tab): (k: Conf)
    requires TabOk(t) && start != {}
    ensures ConfOk(k)
  {
    Conf(if t.reset then Tab([{}, start], NoLoop, true) else t, 2)
  }

  ghost function SearchFrom(step: Step, acc: nat, start: set<nat>, k: Conf, text: seq<int>, p: nat, least: int,
                            len: int): Outcome
    requires ConfOk(k) && start != {}
    decreases |text| + 1 - p
  {
    if p > LastStart(text, least) then Missed
    else
      var len' := ScanLen(step, acc, k, text, p, p, len);
      if len' > least then Found(p, len')
      else SearchFrom(step, acc, start, NextConf(start, ScanEnd(step, k, text, p)), text, p + 1, least, len')
  }

  /** What the call leaves behind: `initstat` is overwritten when a recycled table is rebuilt. */
  ghost function SearchEnd(step: Step, acc: nat, start: set<nat>, k: Conf, text: seq<int>, p: nat, least: int, len: int,
                           initstat: nat): (a: Auto)
    requires ConfOk(k) && start != {}
    ensures TabOk(a.tab) && (a.initstat == initstat || a.initstat == 2)
    decreases |text| + 1 - p
  {
    if p > LastStart(text, least) then Auto(k.tab, initstat)
    else
      var len', t := ScanLen(step, acc, k, text, p, p, len), ScanEnd(step, k, text, p);
      if len' > least then Auto(t, initstat)
      else SearchEnd(step, acc, start, NextConf(start, t), text, p + 1, least, len', if t.reset then 2 else initstat)
  }

  /** At the end of the text `nematch` stops without a step, and `pmatch` makes one more attempt. */
  lemma AtTheEnd(step: Step, acc: nat, start: set<nat>, k: Conf, text: seq<int>, len: int, initstat: nat)
    requires ConfOk(k) && start != {}
    ensures SearchFrom(step, acc, start, k, text, |text|, 0, len) == Missed
    ensures SearchEnd(step, acc, start, k, text, |text|, 0, len, initstat) == Auto(k.tab, initstat)
    ensures var len' := ScanLen(step, acc, k, text, |text|, |text|, len);
      SearchFrom(step, acc, start, k, text, |text|, -1, len) == if len' >= 0 then Found(|text|, len') else Missed
  {
  }

  ghost predicate SearchSlips(step: Step, acc: nat, start: set<nat>, k: Conf, text: seq<int>, p: nat, least: int,
                              len: int)
    requires ConfOk(k) && start != {}
    decreases |text| + 1 - p
  {
    && p <= LastStart(text, least)
    && (ScanSlips(step, k, text, p) ||
        (ScanLen(step, acc, k, text, p, p, len) <= least &&
         SearchSlips(step, acc, start, NextConf(start, ScanEnd(step, k, text, p)), text, p + 1, least,
           ScanLen(step, acc, k, text, p, p, len))))
  }

  /** A start that is too short: the search goes on from the next. */
  lemma SearchGoesOn(step: Step, acc: nat, start: set<nat>, k: Conf, text: seq<int>, p: nat, least: int, len: int,
                     init: nat,
                     len': int, t: Tab)
    requires ConfOk(k) && start != {} && p <= LastStart(text, least) && TabOk(t)
    requires len' == ScanLen(step, acc, k, text, p, p, len) <= least && t == ScanEnd(step, k, text, p)
    ensures SearchFrom(step, acc, start, k, text, p, least, len) ==
      SearchFrom(step, acc, start, NextConf(start, t), text, p + 1, least, len')
    ensures SearchEnd(step, acc, start, k, text, p, least, len, init) ==
      SearchEnd(step, acc, start, NextConf(start, t), text, p + 1, least, len', if t.reset then 2 else init)
  {
  }

  /** From index `p` some accepted length exceeds `least`. */
  ghost predicate SpansOver(m: Machine, text: seq<int>, p: nat, least: int) {
    exists k: nat :: k > least && Spans(m, text, p, k)
  }

  /** (beg, len) is the leftmost start with a length over `least`, and its longest length. */
  ghost predicate LeftmostLongest(m: Machine, text: seq<int>, least: int, beg: nat, len: int) {
    && len > least && len >= 0 && Spans(m, text, beg, len)
    && (forall k: nat :: Spans(m, text, beg, k) ==> k <= len)
    && (forall i: nat :: i < beg ==> !SpansOver(m, text, i, least))
  }

  /** What a search is to return. */
  ghost predicate IsResult(m: Machine, text: seq<int>, least: int, o: Outcome) {
    match o
    case Found(beg, len) => LeftmostLongest(m, text, least, beg, len)
    case Missed => forall i: nat :: !SpansOver(m, text, i, least)
  }

  // ---------- what a call keeps ----------

  /** Steps that do not recycle only add states. */
  ghost predicate Grown(t: Tab, t': Tab) {
    && (t.reset ==> t'.reset)
    && (!t'.reset ==> t.sets <= t'.sets && t'.loop == t.loop)
  }

  lemma TakeGrows(step: Step, k: Conf, c: int)
    requires ConfOk(k)
    ensures Grown(k.tab, Take(step, k, c).tab)
  {
  }

  lemma {:induction false} ScanGrows(step: Step, k: Conf, text: seq<int>, q: nat)
    requires ConfOk(k) && q <= |text| + 1
    ensures Grown(k.tab, ScanEnd(step, k, text, q))
    decreases |text| + 1 - q
  {
    if q <= |text| {
      var k' := Take(step, k, CharAt(text, q));
      TakeGrows(step, k, CharAt(text, q));
      if k'.s != 1 { ScanGrows(step, k', text, q + 1); }
    }
  }

  lemma {:induction false} MatchGrows(step: Step, acc: nat, k: Conf, text: seq<int>, p: nat)
    requires ConfOk(k) && p <= |text| + 1
    ensures Grown(k.tab, MatchEnd(step, acc, k, text, p))
    decreases |text| + 1 - p
  {
    if acc !in Now(k) && p <= |text| {
      TakeGrows(step, k, CharAt(text, p));
      MatchGrows(step, acc, Take(step, k, CharAt(text, p)), text, p + 1);
    }
  }

  /** Unless the table has been recycled the starting states are where they were. */
  ghost predicate Steady(root: Re, anchor: bool, t: Tab) {
    TabOk(t) && (!t.reset ==> Placed(root, anchor, t) && t.loop == NoLoop)
  }

  lemma SteadyGrown(root: Re, anchor: bool, t: Tab, t': Tab)
    requires Steady(root, anchor, t) && TabOk(t') && Grown(t, t')
    ensures Steady(root, anchor, t')
  {
  }

  lemma SteadyNext(root: Re, anchor: bool, t: Tab)
    requires Steady(root, anchor, t) && StartOf(root, anchor) != {}
    ensures Steady(root, anchor, NextConf(StartOf(root, anchor), t).tab)
    ensures Now(NextConf(StartOf(root, anchor), t)) == StartOf(root, anchor)
    ensures NextConf(StartOf(root, anchor), t).tab.reset == t.reset
  {
  }

  /** After `match` the automaton is ready for the next call. */
  lemma MatchEndOk(root: Re, acc: nat, anchor: bool, a: Auto, text: seq<int>)
    requires AutoOk(root, acc, anchor, a)
    ensures var end := MatchEnd(StepOf(root), acc, BeginConf(root, acc, anchor, a), text, 0);
      AutoOk(root, acc, anchor, Auto(end, a.initstat))
  {
    var k := BeginConf(root, acc, anchor, a);
    MatchGrows(StepOf(root), acc, k, text, 0);
    SteadyGrown(root, anchor, k.tab, MatchEnd(StepOf(root), acc, k, text, 0));
  }

  lemma {:induction false} SearchEndSteady(step: Step, root: Re, acc: nat, k: Conf, text: seq<int>, p: nat, least: int,
                                           len: int, initstat: nat)
    requires ConfOk(k) && Steady(root, true, k.tab) && StartOf(root, true) != {}
    ensures var a := SearchEnd(step, acc, StartOf(root, true), k, text, p, least, len, initstat);
      Steady(root, true, a.tab) && (k.tab.reset ==> a.tab.reset) && (!a.tab.reset ==> a.initstat == initstat)
    decreases |text| + 1 - p
  {
    if p <= LastStart(text, least) {
      var start, len', t := StartOf(root, true), ScanLen(step, acc, k, text, p, p, len), ScanEnd(step, k, text, p);
      ScanGrows(step, k, text, p);
      SteadyGrown(root, true, k.tab, t);
      if len' <= least {
        SteadyNext(root, true, t);
        SearchEndSteady(step, root, acc, NextConf(start, t), text, p + 1, least, len', if t.reset then 2 else initstat);
      }
    }
  }

  /** After `pmatch` and `nematch` the automaton is ready, and when it will begin right again. */
  lemma SearchEndOk(root: Re, acc: nat, a: Auto, text: seq<int>, least: int, len: int)
    requires AutoOk(root, acc, true, a)
    ensures var k := BeginConf(root, acc, true, a);
      var a' := SearchEnd(StepOf(root), acc, StartOf(root, true), k, text, 0, least, len, a.initstat);
      AutoOk(root, acc, true, a') && (BeginsRight(root, a') <==> a'.tab.reset || a.initstat == InitNo(root))
  {
    SearchEndSteady(StepOf(root), root, acc, BeginConf(root, acc, true, a), text, 0, least, len, a.initstat);
  }

  // ---------- a search without slips ----------

  /** A start whose longest length is too short. */
  lemma TooShort(m: Machine, text: seq<int>, p: nat, least: int, len: int, none: int)
    requires Longest(m, text, p, len, none) && none <= least && len <= least
    ensures !SpansOver(m, text, p, least)
  {
  }

  /** A start whose longest length is enough. */
  lemma LongEnough(m: Machine, text: seq<int>, p: nat, least: int, len: int, none: int)
    requires Longest(m, text, p, len, none) && -1 <= none <= least && len > least && least >= -1
    requires forall i: nat :: i < p ==> !SpansOver(m, text, i, least)
    ensures LeftmostLongest(m, text, least, p, len)
  {
  }

  lemma NoMore(m: Machine, text: seq<int>, p: nat, least: int)
    requires p > LastStart(text, least) && (least == -1 || least == 0)
    requires forall i: nat :: i < p ==> !SpansOver(m, text, i, least)
    ensures forall i: nat :: !SpansOver(m, text, i, least)
  {
  }

  /** The next start after one that was too short. */
  lemma NextStart(m: Machine, root: Re, k: Conf, text: seq<int>, p: nat)
    requires m.start == StartOf(root, true) != {} && ConfOk(k) && Steady(root, true, k.tab) && p <= |text| + 1
    ensures var k' := NextConf(m.start, ScanEnd(m.step, k, text, p));
      Steady(root, true, k'.tab) && Now(k') == m.start
  {
    ScanGrows(m.step, k, text, p);
    SteadyGrown(root, true, k.tab, ScanEnd(m.step, k, text, p));
    SteadyNext(root, true, ScanEnd(m.step, k, text, p));
  }

  lemma {:induction false} SearchIsResult(m: Machine, root: Re, k: Conf, text: seq<int>, p: nat, least: int, len: int)
    requires FromNothing(m.step) && m.start == StartOf(root, true) != {}
    requires ConfOk(k) && Steady(root, true, k.tab) && Now(k) == From(m, p)
    requires p <= |text| + 1 && -1 <= len <= least && (least == -1 || least == 0)
    requires !SearchSlips(m.step, m.acc, m.start, k, text, p, least, len)
    requires forall i: nat :: i < p ==> !SpansOver(m, text, i, least)
    ensures IsResult(m, text, least, SearchFrom(m.step, m.acc, m.start, k, text, p, least, len))
    decreases |text| + 1 - p
  {
    if p > LastStart(text, least) {
      NoMore(m, text, p, least);
    } else {
      var len' := ScanLen(m.step, m.acc, k, text, p, p, len);
      assert (text + [NUL])[p..p] == [];
      ScanIsLongest(m, k, text, p, p, len, len);
      if len' > least {
        LongEnough(m, text, p, least, len', len);
      } else {
        TooShort(m, text, p, least, len', len);
        NextStart(m, root, k, text, p);
        SearchIsResult(m, root, NextConf(m.start, ScanEnd(m.step, k, text, p)), text, p + 1, least, len');
      }
    }
  }

  // ---------- small families ----------

  /** A family of position sets containing the starting sets and closed under steps. */
  ghost predicate Closed(reach: set<set<nat>>, root: Re) {
    && {} in reach
    && StartOf(root, false) in reach && InitOf(root, false) in reach
    && StartOf(root, true) in reach && InitOf(root, true) in reach
    && forall s, c :: s in reach && 0 <= c < NCHARS ==> Delta(root, s, c) in reach
  }

  lemma {:induction false} DistinctCount(sets: seq<set<nat>>, reach: set<set<nat>>)
    requires forall i :: 0 <= i < |sets| ==> sets[i] in reach
    requires forall i, j :: 0 <= i < j < |sets| ==> sets[i] != sets[j]
    ensures |sets| <= |reach|
    decreases |sets|
  {
    if sets != [] {
      var n := |sets| - 1;
      DistinctCount(sets[..n], reach - {sets[n]});
    }
  }

  /** The table lives in the family and has never been recycled from state 2. */
  ghost predicate Inside(reach: set<set<nat>>, t: Tab) {
    t.loop == NoLoop && forall i :: 0 <= i < |t.sets| ==> t.sets[i] in reach
  }

  /** A family that fits in the table never overflows it, so no step slips. */
  lemma SmallStep(root: Re, reach: set<set<nat>>, k: Conf, c: int)
    requires Closed(reach, root) && |reach| < NSTATES && ConfOk(k) && Inside(reach, k.tab) && 0 <= c < NCHARS
    ensures !Overflows(StepOf(root), k, c) && !Slips(StepOf(root), k, c) && Inside(reach, Take(StepOf(root), k, c).tab)
  {
    var d := Delta(root, Now(k), c);
    if d !in k.tab.sets {
      DistinctCount(k.tab.sets + [d], reach);
    }
  }

  lemma {:induction false} SmallMatch(root: Re, acc: nat, reach: set<set<nat>>, k: Conf, text: seq<int>, p: nat)
    requires Closed(reach, root) && |reach| < NSTATES && ConfOk(k)
    requires Inside(reach, k.tab) && IsText(text) && p <= |text| + 1
    ensures !MatchSlips(StepOf(root), acc, k, text, p)
    decreases |text| + 1 - p
  {
    if p <= |text| {
      SmallStep(root, reach, k, CharAt(text, p));
      SmallMatch(root, acc, reach, Take(StepOf(root), k, CharAt(text, p)), text, p + 1);
    }
  }

  lemma {:induction false} SmallScan(root: Re, reach: set<set<nat>>, k: Conf, text: seq<int>, q: nat)
    requires Closed(reach, root) && |reach| < NSTATES && ConfOk(k)
    requires Inside(reach, k.tab) && IsText(text) && q <= |text| + 1
    ensures !ScanSlips(StepOf(root), k, text, q) && Inside(reach, ScanEnd(StepOf(root), k, text, q))
    decreases |text| + 1 - q
  {
    if q <= |text| {
      SmallStep(root, reach, k, CharAt(text, q));
      SmallScan(root, reach, Take(StepOf(root), k, CharAt(text, q)), text, q + 1);
    }
  }

  lemma {:induction false} SmallSearch(root: Re, acc: nat, reach: set<set<nat>>, k: Conf, text: seq<int>, p: nat,
                                       least: int, len: int)
    requires Closed(reach, root) && |reach| < NSTATES && ConfOk(k) && Inside(reach, k.tab) && IsText(text)
    requires StartOf(root, true) != {}
    ensures !SearchSlips(StepOf(root), acc, StartOf(root, true), k, text, p, least, len)
    decreases |text| + 1 - p
  {
    if p <= LastStart(text, least) {
      SmallScan(root, reach, k, text, p);
      var end, len' := ScanEnd(StepOf(root), k, text, p), ScanLen(StepOf(root), acc, k, text, p, p, len);
      SmallSearch(root, acc, reach, NextConf(StartOf(root, true), end), text, p + 1, least, len');
    }
  }
}
