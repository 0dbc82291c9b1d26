/**
 A pattern and a text on which bin/awk/b.c goes wrong because its table is recycled from state 2.
 */
module AwkFailures {
  import opened Positions
  import opened AwkRuns
  import opened AwkTable
  import opened AwkCalls
  import opened AwkMatch

  // ---------- literals ----------

  /** The tree of a literal, its leaves numbered from `p` on. */
  function Literal(w: seq<int>, p: nat): Re
    requires w != []
  {
    var n := |w| - 1;
    if n == 0 then Leaf(p, Chr(w[0])) else Cat(Literal(w[..n], p), Leaf(p + n, Chr(w[n])))
  }

  /** What the literal's leaf at position `q` reads. */
  predicate Reads(w: seq<int>, p: nat, q: nat, c: int) { p <= q < p + |w| && c == w[q - p] }

  ghost predicate LiteralFacts(w: seq<int>, p: nat)
    requires w != []
  {
    var e := Literal(w, p);
    && Linear(e) && First(e) == {p} && Last(e) == {p + |w| - 1} && !Nullable(e)
    && (forall q :: q in Pos(e) <==> p <= q < p + |w|)
    && (forall q: nat :: Follow(e, q) == if p <= q < p + |w| - 1 then {q + 1} else {})
    && (forall q: nat, c :: Hits(false, e, q, c) <==> Reads(w, p, q, c))
  }

  lemma {:induction false} LiteralOk(w: seq<int>, p: nat)
    requires w != []
    ensures LiteralFacts(w, p)
    decreases |w|
  {
    var n := |w| - 1;
    if n > 0 {
      LiteralOk(w[..n], p);
      var e, l := Literal(w, p), Literal(w[..n], p);
      forall q: nat ensures Follow(e, q) == if p <= q < p + n then {q + 1} else {} {
        assert Follow(e, q) == Follow(l, q) + {} + (if q in Last(l) then {p + n} else {});
      }
      forall q: nat, c ensures Hits(false, e, q, c) <==> Reads(w, p, q, c) {
        assert Hits(false, l, q, c) <==> Reads(w[..n], p, q, c);
      }
    }
  }

  // ---------- steps from small sets ----------

  predicate Distinct(w: seq<int>) { forall i, j :: 0 <= i < j < |w| ==> w[i] != w[j] }

  predicate IsChar(c: int) { 0 < c < HAT }

  // ---------- the literal or twice the same character ----------

  /** A literal of at least 30 different characters, and a character not in it. */
  ghost predicate LongWord(w: seq<int>, c: int) { |w| >= 30 && Distinct(w) && IsText(w) && IsChar(c) && c !in w }

  /** The pattern w|cc. */
  function WordOrTwice(w: seq<int>, c: int): Re
    requires w != []
  {
    Or(Literal(w, 1), Twice(w, c))
  }

  ghost function Root(w: seq<int>, c: int): Re
    requires w != []
  {
    Compiled(WordOrTwice(w, c), |w| + 3)
  }

  /** Where position `p` leads. */
  function TwiceNext(k: nat, p: nat): set<nat> {
    if p == 0 then {0, 1, k + 1} else if p < k then {p + 1} else if p == k || p == k + 2 then {k + 3}
    else if p == k + 1 then {k + 2} else {}
  }

  predicate TwiceReads(w: seq<int>, c: int, p: nat, ch: int) {
    if p == 0 then ch != NUL else if p <= |w| then ch == w[p - 1] else (p == |w| + 1 || p == |w| + 2) && ch == c
  }

  /** Two characters at positions `p` and `p + 1`. */
  function Pair(p: nat, a: int, b: int): Re { Cat(Leaf(p, Chr(a)), Leaf(p + 1, Chr(b))) }

  lemma PairFacts(p: nat, a: int, b: int, q: nat, ch: int)
    ensures Linear(Pair(p, a, b)) && !Nullable(Pair(p, a, b))
    ensures Pos(Pair(p, a, b)) == {p, p + 1} && First(Pair(p, a, b)) == {p} && Last(Pair(p, a, b)) == {p + 1}
    ensures Follow(Pair(p, a, b), q) == if q == p then {p + 1} else {}
    ensures Hits(false, Pair(p, a, b), q, ch) <==> (q == p && ch == a) || (q == p + 1 && ch == b)
  {
    var l, r := Leaf(p, Chr(a)), Leaf(p + 1, Chr(b));
    assert Pair(p, a, b) == Cat(l, r) && Pos(l) == {p} && Pos(r) == {p + 1} && Linear(l) && Linear(r);
    assert First(l) == Last(l) == {p} && First(r) == Last(r) == {p + 1};
    assert Follow(l, q) == Follow(r, q) == {};
  }

  /** The second alternative. */
  function Twice(w: seq<int>, c: int): Re { Pair(|w| + 1, c, c) }

  lemma TwiceFacts(w: seq<int>, c: int, p: nat, ch: int)
    ensures Linear(Twice(w, c)) && !Nullable(Twice(w, c))
    ensures Pos(Twice(w, c)) == {|w| + 1, |w| + 2} && First(Twice(w, c)) == {|w| + 1} && Last(Twice(w, c)) == {|w| + 2}
    ensures Follow(Twice(w, c), p) == if p == |w| + 1 then {|w| + 2} else {}
    ensures Hits(false, Twice(w, c), p, ch) <==> (p == |w| + 1 || p == |w| + 2) && ch == c
  {
    PairFacts(|w| + 1, c, c, p, ch);
  }

  lemma TwiceNumbered(w: seq<int>, c: int)
    requires w != []
    ensures WellNumbered(WordOrTwice(w, c), |w| + 3)
  {
    var pat, l, k := WordOrTwice(w, c), Literal(w, 1), |w|;
    LiteralOk(w, 1);
    TwiceFacts(w, c, 0, 0);
    assert pat == Or(l, Twice(w, c)) && Pos(l) !! Pos(Twice(w, c));
    assert 0 !in Pos(pat) && k + 3 !in Pos(pat);
    LinearCompiled(pat, k + 3);
  }

  lemma LinearCompiled(pat: Re, acc: nat)
    requires Linear(pat) && 0 !in Pos(pat) && acc !in Pos(pat) && acc != 0
    ensures WellNumbered(pat, acc)
  {
    assert Linear(Star(Leaf(0, All))) && Pos(Star(Leaf(0, All))) == {0};
    assert Linear(Searching(pat)) && Pos(Searching(pat)) == {0} + Pos(pat);
  }

  lemma TwiceHits(w: seq<int>, c: int, p: nat, ch: int)
    requires w != []
    ensures Hits(false, Root(w, c), p, ch) <==> TwiceReads(w, c, p, ch)
  {
    var pat, l := WordOrTwice(w, c), Literal(w, 1);
    LiteralOk(w, 1);
    TwiceNumbered(w, c);
    TwiceFacts(w, c, p, ch);
    CompiledFollow(pat, |w| + 3, p);
    assert pat == Or(l, Twice(w, c));
    assert Hits(false, l, p, ch) <==> Reads(w, 1, p, ch);
    assert Hits(false, Star(Leaf(0, All)), p, ch) <==> p == 0 && ch != NUL;
    assert Hits(false, Searching(pat), p, ch) <==> (p == 0 && ch != NUL) || Hits(false, pat, p, ch);
  }

  lemma TwiceFollow(w: seq<int>, c: int, p: nat)
    requires w != [] && p <= |w| + 2
    ensures Follow(Root(w, c), p) == TwiceNext(|w|, p)
  {
    var pat, l, k := WordOrTwice(w, c), Literal(w, 1), |w|;
    LiteralOk(w, 1);
    TwiceNumbered(w, c);
    TwiceFacts(w, c, p, 0);
    CompiledFollow(pat, k + 3, p);
    assert pat == Or(l, Twice(w, c));
    assert First(pat) == {1, k + 1} && Last(pat) == {k, k + 2} && !Nullable(pat);
    SearchingFacts(pat, p);
    assert p in Pos(Searching(pat)) by {
      assert Pos(Star(Leaf(0, All))) == {0};
      assert p == 0 || p in Pos(l) || p in Pos(Twice(w, c));
    }
    FollowUnions(k, p, Follow(pat, p), Follow(l, p), Follow(Root(w, c), p));
  }

  lemma FollowUnions(k: nat, p: nat, inPat: set<nat>, inWord: set<nat>, x: set<nat>)
    requires 1 <= k && p <= k + 2
    requires inWord == (if 1 <= p < k then {p + 1} else {})
    requires inPat == inWord + if p == k + 1 then {k + 2} else {}
    requires x == inPat + (if p == 0 then {0} + {1, k + 1} else {}) + (if p in {k, k + 2} then {k + 3} else {})
    ensures x == TwiceNext(k, p)
  {
  }

  lemma SearchingFacts(pat: Re, p: nat)
    requires !Nullable(pat)
    ensures Last(Searching(pat)) == Last(pat)
    ensures Follow(Searching(pat), p) == Follow(pat, p) + if p == 0 then {0} + First(pat) else {}
  {
    var all := Star(Leaf(0, All));
    assert Last(all) == {0} && Follow(all, p) == if p == 0 then {0} else {};
  }

  /** The start set. */
  function S0(k: nat): set<nat> { {0, 1, k + 1} }

  lemma TwiceStep(w: seq<int>, c: int, p: nat, ch: int)
    requires w != [] && p <= |w| + 2
    ensures TwiceReads(w, c, p, ch) ==> Delta(Root(w, c), {p}, ch) == TwiceNext(|w|, p)
    ensures !TwiceReads(w, c, p, ch) ==> Delta(Root(w, c), {p}, ch) == {}
  {
    DeltaOne(Root(w, c), p, ch);
    TwiceHits(w, c, p, ch);
    TwiceFollow(w, c, p);
  }

  lemma DeltaThree(root: Re, a: nat, b: nat, d: nat, ch: int)
    ensures Delta(root, {a, b, d}, ch) == Delta(root, {a}, ch) + Delta(root, {b}, ch) + Delta(root, {d}, ch)
  {
    DeltaUnion(root, {a}, {b}, ch);
    DeltaUnion(root, {a} + {b}, {d}, ch);
    assert {a, b, d} == {a} + {b} + {d};
  }

  /** Three positions and where they lead. */
  lemma ThreeSteps(root: Re, a: nat, b: nat, d: nat, ch: int, x: set<nat>, y: set<nat>, z: set<nat>, r: set<nat>)
    requires Delta(root, {a}, ch) == x && Delta(root, {b}, ch) == y && Delta(root, {d}, ch) == z && r == x + y + z
    ensures Delta(root, {a, b, d}, ch) == r
  {
    DeltaThree(root, a, b, d, ch);
  }

  /** The start set on the first letter. */
  lemma StartOnFirst(w: seq<int>, c: int)
    requires LongWord(w, c)
    ensures Delta(Root(w, c), S0(|w|), w[0]) == S0(|w|) + {2}
  {
    var k, ch := |w|, w[0];
    assert ch in w;
    TwiceStep(w, c, 0, ch);
    TwiceStep(w, c, 1, ch);
    TwiceStep(w, c, k + 1, ch);
    ThreeSteps(Root(w, c), 0, 1, k + 1, ch, TwiceNext(k, 0), TwiceNext(k, 1), {}, S0(k) + {2});
  }

  /** The start set on the character outside the literal. */
  lemma StartOnTwice(w: seq<int>, c: int)
    requires LongWord(w, c)
    ensures Delta(Root(w, c), S0(|w|), c) == S0(|w|) + {|w| + 2}
  {
    var k := |w|;
    assert w[0] in w;
    TwiceStep(w, c, 0, c);
    TwiceStep(w, c, 1, c);
    TwiceStep(w, c, k + 1, c);
    ThreeSteps(Root(w, c), 0, 1, k + 1, c, TwiceNext(k, 0), {}, TwiceNext(k, k + 1), S0(k) + {k + 2});
  }

  /** The start set on anything else. */
  lemma StartOnOther(w: seq<int>, c: int, ch: int)
    requires LongWord(w, c) && ch != w[0] && ch != c
    ensures Delta(Root(w, c), S0(|w|), ch) == if ch == NUL then {} else S0(|w|)
  {
    var k := |w|;
    TwiceStep(w, c, 0, ch);
    TwiceStep(w, c, 1, ch);
    TwiceStep(w, c, k + 1, ch);
    ThreeSteps(Root(w, c), 0, 1, k + 1, ch, if ch == NUL then {} else TwiceNext(k, 0), {}, {},
               if ch == NUL then {} else S0(k));
  }

  lemma OneMoreStep(root: Re, s: set<nat>, p: nat, ch: int, x: set<nat>, y: set<nat>, r: set<nat>)
    requires Delta(root, s, ch) == x && Delta(root, {p}, ch) == y && r == x + y
    ensures Delta(root, s + {p}, ch) == r
  {
    DeltaUnion(root, s, {p}, ch);
  }

  /** State 2 and the state after HAT are the same. */
  lemma TwiceStart(w: seq<int>, c: int)
    requires LongWord(w, c)
    ensures StartOf(Root(w, c), false) == S0(|w|) == InitOf(Root(w, c), false) && InitNo(Root(w, c)) == 2
    ensures Fresh(Root(w, c), false) == Tab([{}, S0(|w|)], NoLoop, false)
  {
    TwiceFollow(w, c, 0);
    StartOnOther(w, c, HAT);
  }

  // ---------- the steps the run takes ----------

  lemma AsStep(root: Re, s: set<nat>, c: int, t: set<nat>)
    requires Delta(root, s, c) == t
    ensures StepsTo(StepOf(root), s, c, t)
  {
  }

  lemma LetterAlone(w: seq<int>, c: int, i: nat)
    requires LongWord(w, c) && 0 < i < 29
    ensures Delta(Root(w, c), {i + 1}, w[i]) == {i + 2}
  {
    TwiceStep(w, c, i + 1, w[i]);
  }

  lemma DeltaLetter(w: seq<int>, c: int, i: nat)
    requires LongWord(w, c) && 0 < i < 29
    ensures Delta(Root(w, c), S0(|w|) + {i + 1}, w[i]) == S0(|w|) + {i + 2}
  {
    var root, s := Root(w, c), S0(|w|);
    assert w[i] in w;
    assert Delta(root, s, w[i]) == s by { StartOnOther(w, c, w[i]); }
    LetterAlone(w, c, i);
    OneMoreStep(root, s, i + 1, w[i], s, {i + 2}, s + {i + 2});
  }

  lemma StepLetter(w: seq<int>, c: int, i: nat)
    requires LongWord(w, c) && 0 < i < 29
    ensures StepsTo(StepOf(Root(w, c)), S0(|w|) + {i + 1}, w[i], S0(|w|) + {i + 2})
  {
    DeltaLetter(w, c, i);
    AsStep(Root(w, c), S0(|w|) + {i + 1}, w[i], S0(|w|) + {i + 2});
  }

  lemma StepOther(w: seq<int>, c: int, d: int)
    requires LongWord(w, c) && IsChar(d) && d !in w && d != c
    ensures StepsTo(StepOf(Root(w, c)), S0(|w|) + {30}, d, S0(|w|))
  {
    assert w[0] in w && w[29] in w;
    StartOnOther(w, c, d);
    TwiceStep(w, c, 30, d);
    OneMoreStep(Root(w, c), S0(|w|), 30, d, S0(|w|), {}, S0(|w|));
    AsStep(Root(w, c), S0(|w|) + {30}, d, S0(|w|));
  }

  lemma StepTwice(w: seq<int>, c: int)
    requires LongWord(w, c)
    ensures StepsTo(StepOf(Root(w, c)), S0(|w|), c, S0(|w|) + {|w| + 2})
  {
    StartOnTwice(w, c);
    AsStep(Root(w, c), S0(|w|), c, S0(|w|) + {|w| + 2});
  }

  /** After the character twice the accept position is reached. */
  lemma StepRecycled(w: seq<int>, c: int)
    requires LongWord(w, c)
    ensures |w| + 3 in StepOf(Root(w, c))(S0(|w|) + {|w| + 2}, c)
  {
    var root, p := Root(w, c), |w| + 2;
    assert Hits(false, root, p, c) by { TwiceHits(w, c, p, c); }
    assert |w| + 3 in Follow(root, p) by { TwiceFollow(w, c, p); }
    assert p in S0(|w|) + {p};
    DeltaMember(root, S0(|w|) + {p}, c, |w| + 3);
  }

  lemma StepAtEnd(w: seq<int>, c: int)
    requires LongWord(w, c)
    ensures StepsTo(StepOf(Root(w, c)), S0(|w|) + {|w| + 2}, NUL, {})
  {
    assert w[0] in w;
    StartOnOther(w, c, NUL);
    TwiceStep(w, c, |w| + 2, NUL);
    OneMoreStep(Root(w, c), S0(|w|), |w| + 2, NUL, {}, {}, {});
    AsStep(Root(w, c), S0(|w|) + {|w| + 2}, NUL, {});
  }

  /** A letter of the literal moves its position on. */
  ghost predicate LetterMoves(step: Step, w: seq<int>, i: nat)
    requires i < |w|
  {
    StepsTo(step, if i == 0 then S0(|w|) else S0(|w|) + {i + 1}, w[i], S0(|w|) + {i + 2})
  }

  lemma StepLetters(w: seq<int>, c: int, i: nat)
    requires LongWord(w, c) && i < 29
    ensures LetterMoves(StepOf(Root(w, c)), w, i)
  {
    if i == 0 {
      StartOnFirst(w, c);
      AsStep(Root(w, c), S0(|w|), w[0], S0(|w|) + {2});
    } else {
      StepLetter(w, c, i);
    }
  }

  ghost predicate LettersMove(step: Step, w: seq<int>) {
    |w| >= 30 && forall i :: 0 <= i < 29 ==> LetterMoves(step, w, i)
  }

  /** What the run needs to know of the tree. */
  ghost predicate TwiceMoves(step: Step, w: seq<int>, c: int, d: int) {
    && LettersMove(step, w)
    && StepsTo(step, S0(|w|) + {30}, d, S0(|w|))
    && StepsTo(step, S0(|w|), c, S0(|w|) + {|w| + 2})
    && |w| + 3 in step(S0(|w|) + {|w| + 2}, c)
    && StepsTo(step, S0(|w|) + {|w| + 2}, NUL, {})
  }

  lemma RootMoves(w: seq<int>, c: int, d: int)
    requires LongWord(w, c) && IsChar(d) && d !in w && d != c
    ensures TwiceMoves(StepOf(Root(w, c)), w, c, d)
  {
    forall i: nat | i < 29 { StepLetters(w, c, i); }
    StepOther(w, c, d);
    StepTwice(w, c);
    StepRecycled(w, c);
    StepAtEnd(w, c);
  }

  // ---------- the run that recycles the table from state 2 ----------

  /** The live sets after `i` letters of the literal. */
  ghost function TwiceSets(k: nat, i: nat): seq<set<nat>> {
    if i == 0 then [{}, S0(k)] else TwiceSets(k, i - 1) + [S0(k) + {i + 1}]
  }

  lemma {:induction false} TwiceSetsAre(k: nat, i: nat)
    requires i < k
    ensures |TwiceSets(k, i)| == i + 2 && TwiceSets(k, i)[0] == {} && TwiceSets(k, i)[1] == S0(k)
    ensures forall a :: 2 <= a < i + 2 ==> TwiceSets(k, i)[a] == S0(k) + {a}
  {
    if i > 0 { TwiceSetsAre(k, i - 1); }
  }

  lemma OneMore(k: nat, a: nat, b: nat)
    requires 2 <= a && 2 <= b && a != k + 1 && b != k + 1
    ensures S0(k) + {a} != {} && S0(k) + {a} != S0(k) && (S0(k) + {a} == S0(k) + {b} <==> a == b)
  {
    assert a in S0(k) + {a} && b in S0(k) + {b} && 0 in S0(k) && a !in S0(k);
  }

  lemma NotThere(k: nat)
    ensures k + 3 !in S0(k) && k + 3 !in S0(k) + {k + 2}
  {
  }

  ghost function TwiceConf(k: nat, i: nat): Conf { Conf(Tab(TwiceSets(k, i), NoLoop, false), i + 2) }

  lemma TwiceConfOk(k: nat, i: nat)
    requires i < 30 <= k
    ensures ConfOk(TwiceConf(k, i)) && Now(TwiceConf(k, i)) == (if i == 0 then S0(k) else S0(k) + {i + 1})
    ensures k + 3 !in Now(TwiceConf(k, i))
  {
    TwiceSetsAre(k, i);
    NotThere(k);
    var sets := TwiceSets(k, i);
    forall a, b | 0 <= a < b < |sets| ensures sets[a] != sets[b] {
      OneMore(k, if a >= 2 then a else 2, if b >= 2 then b else 2);
      assert 0 in S0(k);
    }
  }

  lemma NotYet(k: nat, i: nat, m: nat)
    requires i < 30 <= k && i + 1 < m && m != k + 1
    ensures S0(k) + {m} !in TwiceSets(k, i)
  {
    TwiceSetsAre(k, i);
    var sets := TwiceSets(k, i);
    forall a | 0 <= a < |sets| ensures sets[a] != S0(k) + {m} { OneMore(k, m, if a >= 2 then a else 2); }
  }

  /** A letter of the literal adds a state. */
  lemma TwiceLetter(step: Step, w: seq<int>, i: nat)
    requires LettersMove(step, w) && IsText(w) && i < 29
    ensures ConfOk(TwiceConf(|w|, i)) && Take(step, TwiceConf(|w|, i), w[i]) == TwiceConf(|w|, i + 1)
    ensures |w| + 3 !in Now(TwiceConf(|w|, i))
  {
    TwiceConfOk(|w|, i);
    TwiceSetsAre(|w|, i);
    NotYet(|w|, i, i + 2);
    assert LetterMoves(step, w, i);
    TakeAdds(step, TwiceConf(|w|, i), w[i], S0(|w|) + {i + 2});
  }

  /** The table when it is recycled from state 2, and after that. */
  ghost function FullConf(k: nat): Conf { Conf(TwiceConf(k, 29).tab, 2) }

  ghost function RecycledConf(k: nat, c: int): Conf { Conf(Tab([{}, S0(k) + {k + 2}], c, true), 2) }

  /** A character that fits nothing goes back to state 2 of the full table. */
  lemma TwiceBack(step: Step, w: seq<int>, c: int, d: int)
    requires TwiceMoves(step, w, c, d) && IsChar(d)
    ensures ConfOk(TwiceConf(|w|, 29)) && Take(step, TwiceConf(|w|, 29), d) == FullConf(|w|)
  {
    TwiceConfOk(|w|, 29);
    TwiceSetsAre(|w|, 29);
    TakeFinds(step, TwiceConf(|w|, 29), d, 1);
  }

  /** The next character recycles the table and is cached as leading from state 2 to itself. */
  lemma TwiceRecycles(step: Step, w: seq<int>, c: int, d: int)
    requires TwiceMoves(step, w, c, d) && IsChar(c)
    ensures ConfOk(FullConf(|w|)) && Overflows(step, FullConf(|w|), c)
    ensures Take(step, FullConf(|w|), c) == RecycledConf(|w|, c) && |w| + 3 !in Now(FullConf(|w|))
  {
    TwiceConfOk(|w|, 29);
    TwiceSetsAre(|w|, 29);
    NotThere(|w|);
    NotYet(|w|, 29, |w| + 2);
    TakeRecycles(step, FullConf(|w|), c, S0(|w|) + {|w| + 2});
  }

  /** So the same character again goes nowhere, though it should complete a match. */
  lemma TwiceSlips(step: Step, w: seq<int>, c: int, d: int)
    requires TwiceMoves(step, w, c, d) && IsChar(c)
    ensures ConfOk(RecycledConf(|w|, c)) && Slips(step, RecycledConf(|w|, c), c)
    ensures Take(step, RecycledConf(|w|, c), c) == RecycledConf(|w|, c) && |w| + 3 !in Now(RecycledConf(|w|, c))
    ensures Take(step, RecycledConf(|w|, c), NUL) == Conf(RecycledConf(|w|, c).tab, 1)
  {
    OneMore(|w|, |w| + 2, |w| + 2);
    NotThere(|w|);
    TakeFinds(step, RecycledConf(|w|, c), NUL, 0);
  }

  // ---------- match on that text ----------

  /** 29 letters of the literal, a character that fits nothing, and twice the other character. */
  function LostText(w: seq<int>, c: int, d: int): seq<int>
    requires |w| >= 30
  {
    w[..29] + [d, c, c]
  }

  /** `match` slips on the rest of the text, and returns 0. */
  ghost predicate Lost(step: Step, acc: nat, k: Conf, text: seq<int>, p: nat) {
    ConfOk(k) && p <= |text| + 1 && !MatchFrom(step, acc, k, text, p) && MatchSlips(step, acc, k, text, p)
  }

  /** A step that accepts nothing. */
  lemma LostOn(step: Step, acc: nat, k: Conf, text: seq<int>, p: nat, k': Conf)
    requires ConfOk(k) && p <= |text| && acc !in Now(k) && Take(step, k, CharAt(text, p)) == k'
    requires Lost(step, acc, k', text, p + 1)
    ensures Lost(step, acc, k, text, p)
  {
  }

  /** From the full table the second of the two characters slips, and nothing is found. */
  lemma LostAtTheEnd(step: Step, w: seq<int>, c: int, d: int, text: seq<int>)
    requires TwiceMoves(step, w, c, d) && IsChar(c) && IsChar(d) && text == LostText(w, c, d)
    ensures Lost(step, |w| + 3, TwiceConf(|w|, 29), text, 29)
  {
    TwiceConfOk(|w|, 29);
    TwiceBack(step, w, c, d);
    TwiceRecycles(step, w, c, d);
    TwiceSlips(step, w, c, d);
    assert CharAt(text, 29) == d && CharAt(text, 30) == c && CharAt(text, 31) == c && CharAt(text, 32) == NUL;
    LastSteps(step, |w| + 3, FullConf(|w|), RecycledConf(|w|, c), text, c);
    LostOn(step, |w| + 3, TwiceConf(|w|, 29), text, 29, FullConf(|w|));
  }

  lemma LastSteps(step: Step, acc: nat, full: Conf, after: Conf, text: seq<int>, c: int)
    requires |text| == 32 && CharAt(text, 30) == c && CharAt(text, 31) == c && CharAt(text, 32) == NUL
    requires ConfOk(full) && Take(step, full, c) == after && acc !in Now(full) && acc !in Now(after)
    requires Take(step, after, c) == after && Slips(step, after, c) && Take(step, after, NUL) == Conf(after.tab, 1)
    ensures Lost(step, acc, full, text, 30)
  {
    assert !MatchFrom(step, acc, Conf(after.tab, 1), text, 33);
    assert !MatchFrom(step, acc, after, text, 32);
    assert !MatchFrom(step, acc, after, text, 31);
    assert MatchSlips(step, acc, after, text, 31);
  }

  /** `match` goes along the literal, making states 3 to 31. */
  lemma {:induction false} LostFrom(step: Step, w: seq<int>, c: int, d: int, text: seq<int>, i: nat)
    requires TwiceMoves(step, w, c, d) && IsText(w) && IsChar(c) && IsChar(d) && i <= 29 && text == LostText(w, c, d)
    ensures Lost(step, |w| + 3, TwiceConf(|w|, i), text, i)
    decreases 29 - i
  {
    if i == 29 {
      LostAtTheEnd(step, w, c, d, text);
    } else {
      LostFrom(step, w, c, d, text, i + 1);
      LostLetter(step, w, text, i);
    }
  }

  lemma LostLetter(step: Step, w: seq<int>, text: seq<int>, i: nat)
    requires LettersMove(step, w) && IsText(w) && i < 29 && i < |text| && text[i] == w[i]
    requires Lost(step, |w| + 3, TwiceConf(|w|, i + 1), text, i + 1)
    ensures Lost(step, |w| + 3, TwiceConf(|w|, i), text, i)
  {
    TwiceLetter(step, w, i);
    LostOn(step, |w| + 3, TwiceConf(|w|, i), text, i, TwiceConf(|w|, i + 1));
  }

  lemma TwiceMatches(w: seq<int>, c: int, d: int)
    requires LongWord(w, c)
    ensures Matches(WordOrTwice(w, c), LostText(w, c, d))
  {
    var f, cc := Framed(LostText(w, c, d)), [c, c];
    assert f[31..33] == cc;
    assert cc[..1] == [c] && cc[1..] == [c];
    var pat := WordOrTwice(w, c);
    assert In(false, pat.r.l, cc[..1]) && In(false, pat.r.r, cc[1..]);
    assert In(false, pat.r, cc);
    assert In(false, pat, f[31..33]);
  }

  /** The automaton `mkdfa` leaves. */
  ghost function New(root: Re, anchor: bool): Auto { Auto(Fresh(root, anchor), InitNo(root)) }

  lemma NewOk(pat: Re, acc: nat, anchor: bool)
    requires WellNumbered(pat, acc)
    ensures AutoOk(Compiled(pat, acc), acc, anchor, New(Compiled(pat, acc), anchor))
    ensures BeginConf(Compiled(pat, acc), acc, anchor, New(Compiled(pat, acc), anchor)) ==
      Conf(Fresh(Compiled(pat, acc), anchor), InitNo(Compiled(pat, acc)))
  {
    CompiledSearches(pat, acc);
    FreshOk(Compiled(pat, acc), acc, anchor);
  }

  /** The whole run, for any step function with these moves. */
  lemma LostRun(step: Step, w: seq<int>, c: int, d: int)
    requires TwiceMoves(step, w, c, d) && IsText(w) && IsChar(c) && IsChar(d)
    ensures ConfOk(FullConf(|w|)) && Spoils(step, FullConf(|w|), c)
    ensures ConfOk(TwiceConf(|w|, 0)) && TwiceConf(|w|, 0) == Conf(Tab([{}, S0(|w|)], NoLoop, false), 2)
    ensures MatchSlips(step, |w| + 3, TwiceConf(|w|, 0), LostText(w, c, d), 0)
    ensures !MatchFrom(step, |w| + 3, TwiceConf(|w|, 0), LostText(w, c, d), 0)
  {
    LostFrom(step, w, c, d, LostText(w, c, d), 0);
    TwiceRecycles(step, w, c, d);
    TwiceSlips(step, w, c, d);
  }

  /** It is the run of the tree of w|cc. */
  lemma RootRun(w: seq<int>, c: int, d: int)
    requires LongWord(w, c) && IsChar(d) && d !in w && d != c
    ensures ConfOk(FullConf(|w|)) && Spoils(StepOf(Root(w, c)), FullConf(|w|), c)
    ensures ConfOk(TwiceConf(|w|, 0)) && TwiceConf(|w|, 0) == Conf(Tab([{}, S0(|w|)], NoLoop, false), 2)
    ensures MatchSlips(StepOf(Root(w, c)), |w| + 3, TwiceConf(|w|, 0), LostText(w, c, d), 0)
    ensures !MatchFrom(StepOf(Root(w, c)), |w| + 3, TwiceConf(|w|, 0), LostText(w, c, d), 0)
  {
    RootMoves(w, c, d);
    LostRun(StepOf(Root(w, c)), w, c, d);
  }

  /** `match` with a new automaton for the pattern returns 0 on the text although the pattern matches. */
  ghost predicate LosesMatch(pat: Re, acc: nat, text: seq<int>) {
    && WellNumbered(pat, acc) && IsText(text) && Matches(pat, text)
    && AutoOk(Compiled(pat, acc), acc, false, New(Compiled(pat, acc), false))
    && !MatchFrom(StepOf(Compiled(pat, acc)), acc,
      BeginConf(Compiled(pat, acc), acc, false, New(Compiled(pat, acc), false)), text, 0)
  }

  /**
   A new automaton for w|cc on 29 letters of w, another character and cc: a step recycles the
   table from state 2 and spoils it (`RootRun`), and `match` returns 0 although cc occurs.
   */
  lemma RecyclingLosesMatch(w: seq<int>, c: int, d: int)
    requires LongWord(w, c) && IsChar(d) && d !in w && d != c
    ensures LosesMatch(WordOrTwice(w, c), |w| + 3, LostText(w, c, d))
  {
    assert IsText(LostText(w, c, d));
    TwiceNumbered(w, c);
    TwiceMatches(w, c, d);
    TwiceBegins(w, c);
    var k := Conf(Tab([{}, S0(|w|)], NoLoop, false), 2);
    assert !MatchFrom(StepOf(Root(w, c)), |w| + 3, k, LostText(w, c, d), 0) by {
      RootRun(w, c, d);
    }
  }

  lemma TwiceBegins(w: seq<int>, c: int)
    requires LongWord(w, c)
    ensures AutoOk(Root(w, c), |w| + 3, false, New(Root(w, c), false))
    ensures BeginConf(Root(w, c), |w| + 3, false, New(Root(w, c), false)) == Conf(Tab([{}, S0(|w|)], NoLoop, false), 2)
  {
    TwiceNumbered(w, c);
    NewOk(WordOrTwice(w, c), |w| + 3, false);
    TwiceStart(w, c);
  }
}
