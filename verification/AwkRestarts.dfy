/**
 Three calls of `pmatch` in bin/awk/b.c after which `^` no longer matches, because the starting
 state was overwritten when the table was recycled.
 */
module AwkRestarts {
  import opened Positions
  import opened AwkRuns
  import opened AwkTable
  import opened AwkCalls
  import opened AwkMatch
  import opened AwkFailures

  // ---------- a caret or a literal ----------

  /** A literal of at least 30 different characters, another character for the caret, and a third. */
  ghost predicate CaretWord(w: seq<int>, x: int, d: int) {
    |w| >= 30 && Distinct(w) && IsText(w) && IsChar(x) && x !in w && IsChar(d) && d !in w && d != x
  }

  /** The first alternative, ^x. */
  function Caret(x: int): Re { Pair(1, HAT, x) }

  /** The pattern ^x|w. */
  function CaretOr(w: seq<int>, x: int): Re
    requires w != []
  {
    Or(Caret(x), Literal(w, 3))
  }

  ghost function CaretRoot(w: seq<int>, x: int): Re
    requires w != []
  {
    Compiled(CaretOr(w, x), |w| + 3)
  }

  lemma CaretFacts(x: int, p: nat, ch: int)
    ensures Pos(Caret(x)) == {1, 2} && First(Caret(x)) == {1}
    ensures Last(Caret(x)) == {2} && Linear(Caret(x)) && !Nullable(Caret(x))
    ensures Follow(Caret(x), p) == if p == 1 then {2} else {}
    ensures Hits(false, Caret(x), p, ch) <==> (p == 1 && ch == HAT) || (p == 2 && ch == x)
  {
    PairFacts(1, HAT, x, p, ch);
  }

  lemma CaretNumbered(w: seq<int>, x: int)
    requires w != []
    ensures WellNumbered(CaretOr(w, x), |w| + 3)
  {
    LiteralOk(w, 3);
    CaretFacts(x, 0, 0);
    var pat := CaretOr(w, x);
    assert Pos(Caret(x)) !! Pos(Literal(w, 3));
    assert Linear(pat) && 0 !in Pos(pat) && |w| + 3 !in Pos(pat);
    LinearCompiled(pat, |w| + 3);
  }

  function CaretNext(k: nat, p: nat): set<nat> {
    if p == 0 then {0, 1, 3} else if p == 1 then {2} else if p == 2 || p == k + 2 then {k + 3}
    else if p < k + 2 then {p + 1} else {}
  }

  predicate CaretReads(w: seq<int>, x: int, p: nat, ch: int) {
    if p == 0 then ch != NUL else if p == 1 then ch == HAT else if p == 2 then ch == x
    else p < |w| + 3 && ch == w[p - 3]
  }

  lemma CaretHits(w: seq<int>, x: int, p: nat, ch: int)
    requires w != []
    ensures Hits(false, CaretRoot(w, x), p, ch) <==> CaretReads(w, x, p, ch)
  {
    var pat, l := CaretOr(w, x), Literal(w, 3);
    LiteralOk(w, 3);
    CaretNumbered(w, x);
    CaretFacts(x, p, ch);
    CompiledFollow(pat, |w| + 3, p);
    assert Hits(false, l, p, ch) <==> Reads(w, 3, p, ch);
    assert Hits(false, Star(Leaf(0, All)), p, ch) <==> p == 0 && ch != NUL;
    assert Hits(false, Searching(pat), p, ch) <==> (p == 0 && ch != NUL) || Hits(false, pat, p, ch);
  }

  lemma CaretFollow(w: seq<int>, x: int, p: nat)
    requires w != [] && p <= |w| + 2
    ensures Follow(CaretRoot(w, x), p) == CaretNext(|w|, p)
  {
    var pat, l, k := CaretOr(w, x), Literal(w, 3), |w|;
    LiteralOk(w, 3);
    CaretNumbered(w, x);
    CaretFacts(x, p, 0);
    CompiledFollow(pat, k + 3, p);
    assert First(pat) == {1, 3} && Last(pat) == {2, k + 2} && !Nullable(pat);
    SearchingFacts(pat, p);
    assert p in Pos(Searching(pat)) by {
      assert Pos(Star(Leaf(0, All))) == {0};
      assert p == 0 || p in Pos(l) || p in Pos(Caret(x));
    }
    CaretUnions(k, p, Follow(pat, p), Follow(l, p), Follow(CaretRoot(w, x), p));
  }

  lemma CaretUnions(k: nat, p: nat, inPat: set<nat>, inWord: set<nat>, r: set<nat>)
    requires 1 <= k && p <= k + 2
    requires inWord == (if 3 <= p < k + 2 then {p + 1} else {})
    requires inPat == (if p == 1 then {2} else {}) + inWord
    requires r == inPat + (if p == 0 then {0} + {1, 3} else {}) + (if p in {2, k + 2} then {k + 3} else {})
    ensures r == CaretNext(k, p)
  {
  }

  lemma CaretStep(w: seq<int>, x: int, p: nat, ch: int)
    requires w != [] && p <= |w| + 2
    ensures CaretReads(w, x, p, ch) ==> Delta(CaretRoot(w, x), {p}, ch) == CaretNext(|w|, p)
    ensures !CaretReads(w, x, p, ch) ==> Delta(CaretRoot(w, x), {p}, ch) == {}
  {
    DeltaOne(CaretRoot(w, x), p, ch);
    CaretHits(w, x, p, ch);
    CaretFollow(w, x, p);
  }

  // ---------- the steps the calls take ----------

  /** State 2, and the state after HAT. */
  function StartSet(): set<nat> { {1, 3} }

  function HatSet(): set<nat> { {1, 2, 3} }

  lemma CaretOnHat(w: seq<int>, x: int)
    requires w != [] && IsText(w)
    ensures Delta(CaretRoot(w, x), {0, 1, 3}, HAT) == {0, 1, 2, 3}
  {
    assert w[0] in w;
    CaretStep(w, x, 0, HAT);
    CaretStep(w, x, 1, HAT);
    CaretStep(w, x, 3, HAT);
    ThreeSteps(CaretRoot(w, x), 0, 1, 3, HAT, {0, 1, 3}, {2}, {}, {0, 1, 2, 3});
  }

  lemma CaretSets(s: set<nat>, t: set<nat>)
    requires s == {0, 1, 3} && t == {0, 1, 2, 3}
    ensures s - {0} == StartSet() && t - {0} == HatSet() && s != t
  {
    assert 2 in t && 2 !in s;
  }

  lemma CaretBegins(w: seq<int>, x: int)
    requires w != [] && IsText(w)
    ensures StartOf(CaretRoot(w, x), true) == StartSet() && InitOf(CaretRoot(w, x), true) == HatSet()
    ensures InitNo(CaretRoot(w, x)) == 3
  {
    CaretFollow(w, x, 0);
    CaretOnHat(w, x);
    CaretSets({0, 1, 3}, {0, 1, 2, 3});
  }

  lemma HatFirst(w: seq<int>, x: int, d: int)
    requires CaretWord(w, x, d)
    ensures StepsTo(StepOf(CaretRoot(w, x)), HatSet(), w[0], {4})
  {
    assert w[0] in w;
    CaretStep(w, x, 1, w[0]);
    CaretStep(w, x, 2, w[0]);
    CaretStep(w, x, 3, w[0]);
    ThreeSteps(CaretRoot(w, x), 1, 2, 3, w[0], {}, {}, {4}, {4});
    AsStep(CaretRoot(w, x), HatSet(), w[0], {4});
  }

  lemma HatOther(w: seq<int>, x: int, d: int)
    requires CaretWord(w, x, d)
    ensures StepsTo(StepOf(CaretRoot(w, x)), HatSet(), d, {})
  {
    assert w[0] in w;
    CaretStep(w, x, 1, d);
    CaretStep(w, x, 2, d);
    CaretStep(w, x, 3, d);
    ThreeSteps(CaretRoot(w, x), 1, 2, 3, d, {}, {}, {}, {});
    AsStep(CaretRoot(w, x), HatSet(), d, {});
  }

  /** State 2 knows only the first letter. */
  lemma StartOther(w: seq<int>, x: int, d: int, ch: int)
    requires CaretWord(w, x, d) && ch != HAT && ch != w[0]
    ensures StepsTo(StepOf(CaretRoot(w, x)), StartSet(), ch, {})
  {
    CaretStep(w, x, 1, ch);
    CaretStep(w, x, 3, ch);
    OneMoreStep(CaretRoot(w, x), {1}, 3, ch, {}, {}, {});
    assert {1} + {3} == StartSet();
    AsStep(CaretRoot(w, x), StartSet(), ch, {});
  }

  /** The letters of the literal, one after the other. */
  ghost predicate OnLetter(step: Step, w: seq<int>, i: nat)
    requires i < |w|
  {
    StepsTo(step, if i == 0 then HatSet() else {i + 3}, w[i], {i + 4})
  }

  lemma LetterSteps(w: seq<int>, x: int, d: int, i: nat)
    requires CaretWord(w, x, d) && i < 29
    ensures OnLetter(StepOf(CaretRoot(w, x)), w, i)
  {
    if i == 0 {
      HatFirst(w, x, d);
    } else {
      CaretStep(w, x, i + 3, w[i]);
      AsStep(CaretRoot(w, x), {i + 3}, w[i], {i + 4});
    }
  }

  lemma LetterOther(w: seq<int>, x: int, d: int)
    requires CaretWord(w, x, d)
    ensures StepsTo(StepOf(CaretRoot(w, x)), {32}, d, {})
  {
    assert w[29] in w;
    CaretStep(w, x, 32, d);
    AsStep(CaretRoot(w, x), {32}, d, {});
  }

  /** State 2 leads nowhere on the character. */
  ghost predicate Nowhere(step: Step, ch: int) { StepsTo(step, StartSet(), ch, {}) }

  /** What the calls need to know of the tree. */
  ghost predicate CaretMoves(step: Step, w: seq<int>, x: int, d: int) {
    && CaretWord(w, x, d) && (forall i :: 0 <= i < 29 ==> OnLetter(step, w, i))
    && StepsTo(step, {32}, d, {}) && StepsTo(step, HatSet(), d, {})
    && (forall ch :: ch != HAT && ch != w[0] ==> Nowhere(step, ch))
  }

  lemma CaretRootMoves(w: seq<int>, x: int, d: int)
    requires CaretWord(w, x, d)
    ensures CaretMoves(StepOf(CaretRoot(w, x)), w, x, d)
  {
    forall i: nat | i < 29 { LetterSteps(w, x, d, i); }
    LetterOther(w, x, d);
    HatOther(w, x, d);
    forall ch | ch != HAT && ch != w[0] ensures Nowhere(StepOf(CaretRoot(w, x)), ch) { StartOther(w, x, d, ch); }
  }

  // ---------- the first call fills and recycles the table ----------

  /** The live sets after `i` letters. */
  ghost function LetterSets(i: nat): seq<set<nat>> {
    if i == 0 then [{}, StartSet(), HatSet()] else LetterSets(i - 1) + [{i + 3}]
  }

  lemma {:induction false} LetterSetsAre(i: nat)
    ensures |LetterSets(i)| == i + 3 && LetterSets(i)[0] == {}
    ensures LetterSets(i)[1] == StartSet() && LetterSets(i)[2] == HatSet()
    ensures forall a :: 3 <= a < i + 3 ==> LetterSets(i)[a] == {a + 1}
  {
    if i > 0 { LetterSetsAre(i - 1); }
  }

  ghost function LetterConf(i: nat): Conf { Conf(Tab(LetterSets(i), NoLoop, false), i + 3) }

  lemma Singles(a: nat, b: nat)
    requires a >= 4 && b >= 4
    ensures {a} != {} && {a} != StartSet() && {a} != HatSet() && ({a} == {b} <==> a == b)
    ensures StartSet() != {} && HatSet() != {} && StartSet() != HatSet()
  {
    assert a in {a} && b in {b} && 1 in StartSet() && 1 in HatSet() && 2 in HatSet() && 2 !in StartSet();
  }

  lemma LetterConfOk(i: nat)
    requires i <= 28
    ensures ConfOk(LetterConf(i)) && Now(LetterConf(i)) == (if i == 0 then HatSet() else {i + 3})
    ensures {i + 4} !in LetterSets(i)
  {
    LetterSetsAre(i);
    var sets := LetterSets(i);
    forall a, b | 0 <= a < b < |sets| ensures sets[a] != sets[b] {
      Singles(if a >= 3 then a + 1 else 4, if b >= 3 then b + 1 else 4);
    }
    forall a | 0 <= a < |sets| ensures sets[a] != {i + 4} { Singles(i + 4, if a >= 3 then a + 1 else 4); }
  }

  lemma NextLetter(step: Step, w: seq<int>, x: int, d: int, i: nat)
    requires CaretMoves(step, w, x, d) && i < 28
    ensures ConfOk(LetterConf(i)) && Take(step, LetterConf(i), w[i]) == LetterConf(i + 1)
  {
    LetterConfOk(i);
    LetterSetsAre(i);
    assert OnLetter(step, w, i);
    TakeAdds(step, LetterConf(i), w[i], {i + 4});
  }

  /** The 29th letter recycles the table. */
  lemma LastLetter(step: Step, w: seq<int>, x: int, d: int)
    requires CaretMoves(step, w, x, d)
    ensures ConfOk(LetterConf(28)) && Take(step, LetterConf(28), w[28]) == Conf(Tab([{}, {32}], NoLoop, true), 2)
  {
    LetterConfOk(28);
    LetterSetsAre(28);
    assert OnLetter(step, w, 28);
    TakeRecycles(step, LetterConf(28), w[28], {32});
  }

  /** 29 letters of the literal and a character that fits nothing. */
  function FillText(w: seq<int>, d: int): seq<int>
    requires |w| >= 30
  {
    w[..29] + [d]
  }

  /** The rest of the scan notes nothing, does not slip, and leaves the table recycled for the 30th position. */
  ghost predicate ScanFills(step: Step, acc: nat, k: Conf, text: seq<int>, q: nat) {
    && ConfOk(k) && q <= |text| && ScanLen(step, acc, k, text, 0, q, -1) == -1
    && ScanEnd(step, k, text, q) == Tab([{}, {32}], NoLoop, true) && !ScanSlips(step, k, text, q)
  }

  lemma ScanOn(step: Step, acc: nat, k: Conf, text: seq<int>, q: nat, k': Conf)
    requires ConfOk(k) && q < |text| && acc !in Now(k) && k.tab.loop == NoLoop && CharAt(text, q) >= 0
    requires Take(step, k, CharAt(text, q)) == k' && k'.s != 1 && ScanFills(step, acc, k', text, q + 1)
    ensures ScanFills(step, acc, k, text, q)
  {
  }

  /** The first scan goes along the literal. */
  lemma {:induction false} ScanLetters(step: Step, w: seq<int>, x: int, d: int, acc: nat, text: seq<int>, i: nat)
    requires CaretMoves(step, w, x, d) && acc == |w| + 3 && text == FillText(w, d) && i <= 28
    ensures ScanFills(step, acc, LetterConf(i), text, i)
    decreases 29 - i
  {
    if i < 28 {
      ScanLetters(step, w, x, d, acc, text, i + 1);
      NextLetter(step, w, x, d, i);
      OneLetter(step, w, acc, text, i, LetterConf(i + 1));
    } else {
      AfterRecycling(step, d, acc, text);
      LastLetter(step, w, x, d);
      OneLetter(step, w, acc, text, i, Conf(Tab([{}, {32}], NoLoop, true), 2));
    }
  }

  lemma OneLetter(step: Step, w: seq<int>, acc: nat, text: seq<int>, i: nat, k: Conf)
    requires i <= 28 && i < |w| && IsText(w) && acc == |w| + 3 && |w| >= 30 && |text| == 30 && text[i] == w[i]
    requires ConfOk(LetterConf(i)) && Take(step, LetterConf(i), w[i]) == k && k.s != 1
    requires ScanFills(step, acc, k, text, i + 1)
    ensures ScanFills(step, acc, LetterConf(i), text, i)
  {
    LetterConfOk(i);
    assert w[i] in w;
    ScanOn(step, acc, LetterConf(i), text, i, k);
  }

  lemma AfterRecycling(step: Step, d: int, acc: nat, text: seq<int>)
    requires StepsTo(step, {32}, d, {}) && |text| == 30 && text[29] == d && acc > 32 && d >= 0
    ensures ScanFills(step, acc, Conf(Tab([{}, {32}], NoLoop, true), 2), text, 29)
  {
    var k := Conf(Tab([{}, {32}], NoLoop, true), 2);
    assert 32 in {32};
    assert ConfOk(k);
    TakeFinds(step, k, d, 0);
  }

  // ---------- starts that lead nowhere ----------

  /** The states 1 and 2 every call needs; if the table was recycled there are no others. */
  ghost predicate Starting(t: Tab) {
    TabOk(t) && t.sets[1] == StartSet() && t.loop == NoLoop && (t.reset ==> t == Tab([{}, StartSet()], NoLoop, true))
  }

  /** No character of the text from index `p` on leads anywhere from state 2. */
  ghost predicate Hopeless(step: Step, text: seq<int>, p: nat) {
    forall q :: p <= q <= |text| ==> Nowhere(step, CharAt(text, q))
  }

  /** A first character that leads nowhere ends the scan. */
  lemma DeadScan(step: Step, acc: nat, k: Conf, text: seq<int>, p: nat)
    requires ConfOk(k) && k.tab.loop == NoLoop && p <= |text| && acc !in Now(k)
    requires CharAt(text, p) >= 0 && StepsTo(step, Now(k), CharAt(text, p), {})
    ensures ScanLen(step, acc, k, text, p, p, -1) == -1
    ensures ScanEnd(step, k, text, p) == k.tab && !ScanSlips(step, k, text, p)
  {
    TakeFinds(step, k, CharAt(text, p), 0);
  }

  lemma {:induction false} HopelessSearch(step: Step, acc: nat, t: Tab, text: seq<int>, p: nat)
    requires Starting(t) && Hopeless(step, text, p) && IsText(text) && acc > 3
    ensures StartSet() != {}
    ensures SearchFrom(step, acc, StartSet(), Conf(t, 2), text, p, -1, -1) == Missed
    ensures SearchEnd(step, acc, StartSet(), Conf(t, 2), text, p, -1, -1, 2) == Auto(t, 2)
    ensures !SearchSlips(step, acc, StartSet(), Conf(t, 2), text, p, -1, -1)
    decreases |text| + 1 - p
  {
    assert 1 in StartSet();
    if p <= |text| {
      assert Nowhere(step, CharAt(text, p));
      DeadScan(step, acc, Conf(t, 2), text, p);
      assert NextConf(StartSet(), t) == Conf(t, 2);
      HopelessSearch(step, acc, t, text, p + 1);
    }
  }

  // ---------- the three calls ----------

  /** The table after the first call, and the table `makeinit` makes. */
  ghost function Leftover(): Tab { Tab([{}, StartSet()], NoLoop, true) }

  ghost function Remade(): Tab { Tab([{}, StartSet(), HatSet()], NoLoop, false) }

  lemma TablesOk()
    ensures Starting(Leftover()) && Starting(Remade()) && StartSet() != {}
    ensures ConfOk(Conf(Remade(), 3)) && LetterConf(0) == Conf(Remade(), 3)
  {
    Singles(4, 4);
  }

  /** A search that goes on from `k` after its first scan. */
  ghost predicate Searched(step: Step, acc: nat, k: Conf, text: seq<int>, initstat: nat, a: Auto)
    requires ConfOk(k)
  {
    && StartSet() != {}
    && SearchFrom(step, acc, StartSet(), k, text, 0, -1, -1) == Missed
    && SearchEnd(step, acc, StartSet(), k, text, 0, -1, -1, initstat) == a
    && !SearchSlips(step, acc, StartSet(), k, text, 0, -1, -1)
  }

  lemma NowhereElse(step: Step, w: seq<int>, x: int, d: int, text: seq<int>, p: nat)
    requires CaretMoves(step, w, x, d) && IsText(text) && forall q :: p <= q < |text| ==> text[q] != w[0]
    ensures Hopeless(step, text, p)
  {
    assert w[0] in w;
  }

  lemma FirstCall(step: Step, w: seq<int>, x: int, d: int)
    requires CaretMoves(step, w, x, d)
    ensures ConfOk(Conf(Remade(), 3))
    ensures Searched(step, |w| + 3, Conf(Remade(), 3), FillText(w, d), 3, Auto(Leftover(), 2))
  {
    var text := FillText(w, d);
    TablesOk();
    ScanLetters(step, w, x, d, |w| + 3, text, 0);
    assert w[0] in w;
    NowhereElse(step, w, x, d, text, 1);
    HopelessSearch(step, |w| + 3, Leftover(), text, 1);
  }

  lemma SecondCall(step: Step, w: seq<int>, x: int, d: int)
    requires CaretMoves(step, w, x, d)
    ensures ConfOk(Conf(Remade(), 3)) && Searched(step, |w| + 3, Conf(Remade(), 3), [d], 2, Auto(Remade(), 2))
  {
    TablesOk();
    assert w[0] in w;
    DeadScan(step, |w| + 3, Conf(Remade(), 3), [d], 0);
    NowhereElse(step, w, x, d, [d], 1);
    HopelessSearch(step, |w| + 3, Remade(), [d], 1);
  }

  lemma ThirdCall(step: Step, w: seq<int>, x: int, d: int)
    requires CaretMoves(step, w, x, d)
    ensures ConfOk(Conf(Remade(), 2)) && Searched(step, |w| + 3, Conf(Remade(), 2), [x], 2, Auto(Remade(), 2))
  {
    TablesOk();
    assert w[0] in w;
    NowhereElse(step, w, x, d, [x], 0);
    HopelessSearch(step, |w| + 3, Remade(), [x], 0);
  }

  /** `^x` matches the text x. */
  lemma CaretMatches(w: seq<int>, x: int)
    requires w != []
    ensures MatchesAt(CaretOr(w, x), [x], true, 0, 1)
  {
    var u, pat := [HAT, x], CaretOr(w, x);
    assert u[..1] == [HAT] && u[1..] == [x];
    assert In(false, pat.l.l, u[..1]) && In(false, pat.l.r, u[1..]);
    assert In(false, pat, u);
    assert [HAT] + [x] == u && [x][0..1] == [x];
  }

  /** A call of `pmatch` without a slip that finds nothing and leaves `a'`. */
  ghost predicate CallMisses(pat: Re, acc: nat, a: Auto, text: seq<int>, a': Auto) {
    && AutoOk(Compiled(pat, acc), acc, true, a)
    && CallOutcome(pat, acc, a, text, -1) == Missed && CallEnd(pat, acc, a, text, -1) == a'
    && !CallSlips(pat, acc, a, text, -1)
  }

  lemma AsCall(w: seq<int>, x: int, a: Auto, k: Conf, text: seq<int>, a': Auto)
    requires w != [] && IsText(w) && AutoOk(CaretRoot(w, x), |w| + 3, true, a)
    requires k == BeginConf(CaretRoot(w, x), |w| + 3, true, a)
    requires Searched(StepOf(CaretRoot(w, x)), |w| + 3, k, text, a.initstat, a')
    ensures CallMisses(CaretOr(w, x), |w| + 3, a, text, a')
  {
    CaretBegins(w, x);
  }

  lemma CaretAutos(w: seq<int>, x: int)
    requires w != [] && IsText(w)
    ensures AutoOk(CaretRoot(w, x), |w| + 3, true, Auto(Remade(), 3))
    ensures AutoOk(CaretRoot(w, x), |w| + 3, true, Auto(Leftover(), 2))
    ensures AutoOk(CaretRoot(w, x), |w| + 3, true, Auto(Remade(), 2))
    ensures New(CaretRoot(w, x), true) == Auto(Remade(), 3)
    ensures BeginConf(CaretRoot(w, x), |w| + 3, true, Auto(Remade(), 3)) == Conf(Remade(), 3)
    ensures BeginConf(CaretRoot(w, x), |w| + 3, true, Auto(Leftover(), 2)) == Conf(Remade(), 3)
    ensures BeginConf(CaretRoot(w, x), |w| + 3, true, Auto(Remade(), 2)) == Conf(Remade(), 2)
  {
    CaretNumbered(w, x);
    CompiledSearches(CaretOr(w, x), |w| + 3);
    CaretBegins(w, x);
    TablesOk();
  }

  /**
   A new anchored automaton for ^x|w.  The first call, on 29 letters of w and another character,
   recycles the table and leaves state 2 as the starting state; the second makes the table anew;
   and the third, on the text x, finds nothing although ^x matches there.  No step slips.
   */
  lemma ThirdCallMisses(w: seq<int>, x: int, d: int)
    requires CaretWord(w, x, d)
    ensures var pat, acc, a := CaretOr(w, x), |w| + 3, New(CaretRoot(w, x), true);
      && WellNumbered(pat, acc)
      && CallMisses(pat, acc, a, FillText(w, d), Auto(Leftover(), 2))
      && CallMisses(pat, acc, Auto(Leftover(), 2), [d], Auto(Remade(), 2))
      && CallMisses(pat, acc, Auto(Remade(), 2), [x], Auto(Remade(), 2))
      && MatchesAt(pat, [x], true, 0, 1)
  {
    var root := CaretRoot(w, x);
    CaretNumbered(w, x);
    CaretAutos(w, x);
    CaretMatches(w, x);
    CaretRootMoves(w, x, d);
    FirstCall(StepOf(root), w, x, d);
    AsCall(w, x, New(root, true), Conf(Remade(), 3), FillText(w, d), Auto(Leftover(), 2));
    SecondCall(StepOf(root), w, x, d);
    AsCall(w, x, Auto(Leftover(), 2), Conf(Remade(), 3), [d], Auto(Remade(), 2));
    ThirdCall(StepOf(root), w, x, d);
    AsCall(w, x, Auto(Remade(), 2), Conf(Remade(), 2), [x], Auto(Remade(), 2));
  }
}
