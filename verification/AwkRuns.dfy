/**
 The automaton behind awk's matchers, on sets of positions: one step, whole runs, and what
 it means for the accepting position to be reached.  The tree `mkdfa` compiles for a pattern
 `P` is CAT(CAT(STAR(ALL), P), FINAL); ALL has position 0 and FINAL the last one, `acc`.
 */
module AwkRuns {
  import opened Positions

  function Searching(pat: Re): Re { Cat(Star(Leaf(0, All)), pat) }

  function Compiled(pat: Re, acc: nat): Re { Cat(Searching(pat), Leaf(acc, Final)) }

  /** `mkdfa` numbers the leaves so that no two share a position. */
  ghost predicate WellNumbered(pat: Re, acc: nat) { Linear(Compiled(pat, acc)) }

  lemma Numbering(pat: Re, acc: nat)
    requires WellNumbered(pat, acc)
    ensures Linear(pat) && Linear(Searching(pat))
    ensures 0 !in Pos(pat) && acc !in Pos(pat) && acc != 0
    ensures Pos(Searching(pat)) == {0} + Pos(pat) && acc !in Pos(Searching(pat))
  {
    var all := Star(Leaf(0, All));
    assert Pos(all) == {0} && Linear(all);
    assert Linear(Searching(pat)) && Pos(Searching(pat)) !! Pos(Leaf(acc, Final));
    assert Pos(Leaf(acc, Final)) == {acc};
  }

  /** The positions active after reading `c` with the positions `s` active. */
  ghost function Delta(root: Re, s: set<nat>, c: int): set<nat> {
    set q | q in Pos(root) && Leads(root, s, c, q)
  }

  ghost predicate Leads(root: Re, s: set<nat>, c: int, q: nat) {
    exists p :: p in s && Hits(false, root, p, c) && q in Follow(root, p)
  }

  lemma DeltaMember(root: Re, s: set<nat>, c: int, q: nat)
    ensures q in Delta(root, s, c) <==> exists p :: p in s && Hits(false, root, p, c) && q in Follow(root, p)
  {
    if p :| p in s && Hits(false, root, p, c) && q in Follow(root, p) {
      SetsInPos(root, p);
      assert Leads(root, s, c, q);
    }
  }

  lemma DeltaUnion(root: Re, s: set<nat>, t: set<nat>, c: int)
    ensures Delta(root, s + t, c) == Delta(root, s, c) + Delta(root, t, c)
  {
    forall q ensures q in Delta(root, s + t, c) <==> q in Delta(root, s, c) + Delta(root, t, c) {
      DeltaMember(root, s + t, c, q);
      DeltaMember(root, s, c, q);
      DeltaMember(root, t, c, q);
    }
  }

  lemma DeltaOne(root: Re, p: nat, c: int)
    ensures Delta(root, {p}, c) == if Hits(false, root, p, c) then Follow(root, p) else {}
  {
    forall q ensures q in Delta(root, {p}, c) <==> Hits(false, root, p, c) && q in Follow(root, p) {
      DeltaMember(root, {p}, c, q);
    }
  }

  ghost function Run(root: Re, s: set<nat>, w: seq<int>): set<nat>
    decreases |w|
  {
    if w == [] then s else Run(root, Delta(root, s, w[0]), w[1..])
  }

  lemma {:induction false} RunAppend(root: Re, s: set<nat>, w: seq<int>, c: int)
    ensures Run(root, s, w + [c]) == Delta(root, Run(root, s, w), c)
    decreases |w|
  {
    if w == [] {
      assert ([] + [c])[1..] == [] && [] + [c] == [c];
    } else {
      assert (w + [c])[1..] == w[1..] + [c];
      RunAppend(root, Delta(root, s, w[0]), w[1..], c);
    }
  }

  lemma {:induction false} RunEmpty(root: Re, w: seq<int>)
    ensures Run(root, {}, w) == {}
    decreases |w|
  {
    if w != [] {
      assert Delta(root, {}, w[0]) == {};
      RunEmpty(root, w[1..]);
    }
  }

  /** With `s` active, reading `w` completes a word of CAT(STAR(ALL), P). */
  ghost predicate Completes(pat: Re, acc: nat, s: set<nat>, w: seq<int>) {
    if w == [] then acc in s
    else exists q :: q in s && Hits(false, Searching(pat), q, w[0]) && After(false, Searching(pat), q, w[1..])
  }

  lemma CompiledFollow(pat: Re, acc: nat, p: nat)
    requires WellNumbered(pat, acc)
    ensures p in Pos(Searching(pat)) ==>
      Follow(Compiled(pat, acc), p) ==
      Follow(Searching(pat), p) + (if p in Last(Searching(pat)) then {acc} else {})
    ensures Follow(Compiled(pat, acc), acc) == {}
    ensures acc !in Follow(Searching(pat), p)
    ensures forall c :: Hits(false, Compiled(pat, acc), p, c) <==> Hits(false, Searching(pat), p, c)
  {
    var x := Searching(pat);
    SetsInPos(x, p);
    FollowOutside(x, acc);
  }

  /** Being at `p`'s successors is having consumed `p`. */
  lemma CompletesFollow(pat: Re, acc: nat, p: nat, w: seq<int>)
    requires WellNumbered(pat, acc) && p in Pos(Searching(pat))
    ensures Completes(pat, acc, Follow(Compiled(pat, acc), p), w) <==> After(false, Searching(pat), p, w)
  {
    var x := Searching(pat);
    CompiledFollow(pat, acc, p);
    if w == [] {
      LastAfter(false, x, p);
    } else {
      assert w == [w[0]] + w[1..];
      ContinuesIff(false, x, p, w[0], w[1..]);
      HitsOutside(false, x, acc, w[0]);
    }
  }

  lemma CompletesDelta(pat: Re, acc: nat, s: set<nat>, c: int, w: seq<int>)
    requires WellNumbered(pat, acc)
    ensures Completes(pat, acc, s, [c] + w) <==> Completes(pat, acc, Delta(Compiled(pat, acc), s, c), w)
  {
    var x, root := Searching(pat), Compiled(pat, acc);
    var d := Delta(root, s, c);
    assert ([c] + w)[1..] == w;
    if Completes(pat, acc, s, [c] + w) {
      var p :| p in s && Hits(false, x, p, c) && After(false, x, p, w);
      if p !in Pos(x) { HitsOutside(false, x, p, c); }
      CompletesFollow(pat, acc, p, w);
      CompiledFollow(pat, acc, p);
      SetsInPos(root, p);
      assert forall q :: q in Follow(root, p) ==> Leads(root, s, c, q);
      assert Follow(root, p) <= d;
      CompletesMono(pat, acc, Follow(root, p), d, w);
    }
    if Completes(pat, acc, d, w) {
      var q := CompletesFrom(pat, acc, d, w);
      var p :| p in s && Hits(false, root, p, c) && q in Follow(root, p);
      CompiledFollow(pat, acc, p);
      if p !in Pos(x) { HitsOutside(false, x, p, c); }
      CompletesMono(pat, acc, {q}, Follow(root, p), w);
      CompletesFollow(pat, acc, p, w);
    }
  }

  lemma CompletesMono(pat: Re, acc: nat, s: set<nat>, t: set<nat>, w: seq<int>)
    requires s <= t && Completes(pat, acc, s, w)
    ensures Completes(pat, acc, t, w)
  {
  }

  lemma CompletesFrom(pat: Re, acc: nat, s: set<nat>, w: seq<int>) returns (q: nat)
    requires Completes(pat, acc, s, w)
    ensures q in s && Completes(pat, acc, {q}, w)
  {
    if w == [] {
      q := acc;
    } else {
      q :| q in s && Hits(false, Searching(pat), q, w[0]) && After(false, Searching(pat), q, w[1..]);
    }
  }

  /** The accepting position is reached exactly by completing words. */
  lemma {:induction false} RunAccepts(pat: Re, acc: nat, s: set<nat>, w: seq<int>)
    requires WellNumbered(pat, acc)
    ensures acc in Run(Compiled(pat, acc), s, w) <==> Completes(pat, acc, s, w)
    decreases |w|
  {
    if w != [] {
      assert w == [w[0]] + w[1..];
      CompletesDelta(pat, acc, s, w[0], w[1..]);
      RunAccepts(pat, acc, Delta(Compiled(pat, acc), s, w[0]), w[1..]);
    }
  }

  // ---------- the two starting sets ----------

  /** State 2 of a searching automaton. */
  ghost function SearchStart(pat: Re, acc: nat): set<nat> { Follow(Compiled(pat, acc), 0) }

  /** State 2 of an anchored automaton: position 0 is left out. */
  ghost function AnchorStart(pat: Re, acc: nat): set<nat> { SearchStart(pat, acc) - {0} }

  /** The searching automaton after the imaginary HAT before the text. */
  ghost function SearchInit(pat: Re, acc: nat): set<nat> {
    Delta(Compiled(pat, acc), SearchStart(pat, acc), HAT)
  }

  ghost function AnchorInit(pat: Re, acc: nat): set<nat> { SearchInit(pat, acc) - {0} }

  lemma StartSets(pat: Re, acc: nat)
    requires WellNumbered(pat, acc)
    ensures SearchStart(pat, acc) == {0} + First(pat) + (if Nullable(pat) then {acc} else {})
    ensures AnchorStart(pat, acc) == First(pat) + (if Nullable(pat) then {acc} else {})
  {
    var x := Searching(pat);
    Numbering(pat, acc);
    CompiledFollow(pat, acc, 0);
    FollowOutside(pat, 0);
    SetsInPos(pat, 0);
    assert Follow(Star(Leaf(0, All)), 0) == {0};
    assert Follow(x, 0) == {0} + First(pat);
    assert 0 in Last(x) <==> Nullable(pat);
  }

  lemma {:induction false} StarAll(u: seq<int>)
    ensures InStar(false, Leaf(0, All), u) <==> NUL !in u
    decreases |u|
  {
    if u != [] {
      StarAll(u[1..]);
      assert u == [u[0]] + u[1..];
      assert u[..1] == [u[0]];
      assert In(false, Leaf(0, All), u[..1]) <==> u[0] != NUL;
      if InStar(false, Leaf(0, All), u) {
        var i: nat :| 0 < i <= |u| && In(false, Leaf(0, All), u[..i]) && InStar(false, Leaf(0, All), u[i..]);
        assert i == 1;
      }
    }
  }

  /** Some suffix of `w`, preceded by non-NUL characters only, is a word of the pattern. */
  ghost predicate SuffixIn(pat: Re, w: seq<int>) {
    exists i: nat :: i <= |w| && NUL !in w[..i] && In(false, pat, w[i..])
  }

  lemma SearchCompletes(pat: Re, acc: nat, w: seq<int>)
    requires WellNumbered(pat, acc)
    ensures Completes(pat, acc, SearchStart(pat, acc), w) <==> SuffixIn(pat, w)
  {
    var all := Star(Leaf(0, All));
    Numbering(pat, acc);
    CompletesFollow(pat, acc, 0, w);
    AfterOutside(false, pat, 0, w);
    forall i: nat | i <= |w|
      ensures After(false, all, 0, w[..i]) <==> NUL !in w[..i]
    {
      StarAll(w[..i]);
      var u := w[..i];
      assert u[..0] == [] && u[0..] == u;
    }
  }

  lemma AnchorCompletes(pat: Re, acc: nat, w: seq<int>)
    requires WellNumbered(pat, acc)
    ensures Completes(pat, acc, AnchorStart(pat, acc), w) <==> In(false, pat, w)
  {
    Numbering(pat, acc);
    StartSets(pat, acc);
    SetsInPos(pat, 0);
    var x, all := Searching(pat), Star(Leaf(0, All));
    if w == [] {
      NullableIn(false, pat);
    } else {
      assert w == [w[0]] + w[1..];
      BeginsIff(false, pat, w[0], w[1..]);
      HitsOutside(false, x, acc, w[0]);
      forall q | q in First(pat)
        ensures Hits(false, x, q, w[0]) == Hits(false, pat, q, w[0])
        ensures After(false, x, q, w[1..]) == After(false, pat, q, w[1..])
      {
        HitsOutside(false, all, q, w[0]);
        forall i: nat | i <= |w[1..]| { AfterOutside(false, all, q, w[1..][..i]); }
      }
    }
  }

  lemma SearchInitCompletes(pat: Re, acc: nat, w: seq<int>)
    requires WellNumbered(pat, acc)
    ensures Completes(pat, acc, SearchInit(pat, acc), w) <==> SuffixIn(pat, [HAT] + w)
  {
    CompletesDelta(pat, acc, SearchStart(pat, acc), HAT, w);
    SearchCompletes(pat, acc, [HAT] + w);
  }

  /** `w` is a word of the pattern, possibly after a `^` that consumes the HAT before it. */
  ghost predicate InAtStart(pat: Re, w: seq<int>) {
    In(false, pat, w) || In(false, pat, [HAT] + w)
  }

  lemma AnchorInitSplit(pat: Re, acc: nat)
    requires WellNumbered(pat, acc)
    ensures AnchorInit(pat, acc) ==
      AnchorStart(pat, acc) + Delta(Compiled(pat, acc), AnchorStart(pat, acc), HAT)
    ensures 0 in SearchInit(pat, acc) && 0 in SearchStart(pat, acc)
  {
    var root, s, t := Compiled(pat, acc), SearchStart(pat, acc), AnchorStart(pat, acc);
    assert s == {0} + t && 0 !in t by { StartSets(pat, acc); }
    assert Delta(root, s, HAT) == s + Delta(root, t, HAT) by {
      DeltaUnion(root, {0}, t, HAT);
      DeltaFromZero(pat, acc);
    }
    NoZeroAhead(pat, acc, t);
    ZeroDropped(s, t, Delta(root, s, HAT), Delta(root, t, HAT));
  }

  lemma ZeroDropped(s: set<nat>, t: set<nat>, ds: set<nat>, dt: set<nat>)
    requires s == {0} + t && 0 !in t && ds == s + dt && 0 !in dt
    ensures ds - {0} == t + dt && 0 in ds
  {
  }

  /** Position 0 consumes HAT. */
  lemma DeltaFromZero(pat: Re, acc: nat)
    requires WellNumbered(pat, acc)
    ensures Delta(Compiled(pat, acc), {0}, HAT) == SearchStart(pat, acc)
  {
    Numbering(pat, acc);
    assert Hits(false, Star(Leaf(0, All)), 0, HAT);
    assert Hits(false, Searching(pat), 0, HAT);
    DeltaOne(Compiled(pat, acc), 0, HAT);
  }

  lemma NoZeroAhead(pat: Re, acc: nat, t: set<nat>)
    requires WellNumbered(pat, acc) && 0 !in t
    ensures 0 !in Delta(Compiled(pat, acc), t, HAT)
  {
    forall p | p in t ensures 0 !in Follow(Compiled(pat, acc), p) { NoWayBack(pat, acc, p); }
  }

  /** Position 0 follows only itself. */
  lemma NoWayBack(pat: Re, acc: nat, p: nat)
    requires WellNumbered(pat, acc) && p != 0
    ensures 0 !in Follow(Compiled(pat, acc), p)
  {
    Numbering(pat, acc);
    var all := Star(Leaf(0, All));
    SetsInPos(pat, p);
    FollowOutside(all, p);
    assert 0 !in Follow(Searching(pat), p);
  }

  lemma CompletesUnion(pat: Re, acc: nat, s: set<nat>, t: set<nat>, w: seq<int>)
    ensures Completes(pat, acc, s + t, w) <==> Completes(pat, acc, s, w) || Completes(pat, acc, t, w)
  {
    if Completes(pat, acc, s + t, w) {
      var q := CompletesFrom(pat, acc, s + t, w);
      CompletesMono(pat, acc, {q}, if q in s then s else t, w);
    }
  }

  lemma AnchorInitCompletes(pat: Re, acc: nat, w: seq<int>)
    requires WellNumbered(pat, acc)
    ensures Completes(pat, acc, AnchorInit(pat, acc), w) <==> InAtStart(pat, w)
  {
    var s := AnchorStart(pat, acc);
    AnchorInitSplit(pat, acc);
    CompletesUnion(pat, acc, s, Delta(Compiled(pat, acc), s, HAT), w);
    CompletesDelta(pat, acc, s, HAT, w);
    AnchorCompletes(pat, acc, w);
    AnchorCompletes(pat, acc, [HAT] + w);
  }

  // ---------- what the matchers are to compute ----------

  /** The text as the automaton sees it. */
  function Framed(text: seq<int>): seq<int> { [HAT] + text + [NUL] }

  /** Some factor of HAT text NUL is a word of the pattern. */
  ghost predicate Matches(pat: Re, text: seq<int>) {
    exists i: nat, j: nat :: i <= j <= |text| + 2 && In(false, pat, Framed(text)[i..j])
  }

  predicate IsText(text: seq<int>) {
    forall i :: 0 <= i < |text| ==> 0 < text[i] < HAT
  }

  /** The accepting position is active after some prefix of text NUL. */
  ghost predicate Accepted(pat: Re, acc: nat, text: seq<int>) {
    exists j: nat :: j <= |text| + 1 &&
      acc in Run(Compiled(pat, acc), SearchInit(pat, acc), (text + [NUL])[..j])
  }

  lemma AcceptedIsSuffix(pat: Re, acc: nat, text: seq<int>, j: nat)
    requires WellNumbered(pat, acc) && j <= |text| + 1
    ensures acc in Run(Compiled(pat, acc), SearchInit(pat, acc), (text + [NUL])[..j]) <==>
      SuffixIn(pat, Framed(text)[..j+1])
  {
    var w := (text + [NUL])[..j];
    RunAccepts(pat, acc, SearchInit(pat, acc), w);
    SearchInitCompletes(pat, acc, w);
    assert [HAT] + w == Framed(text)[..j+1];
  }

  lemma AcceptedMatches(pat: Re, acc: nat, text: seq<int>)
    requires WellNumbered(pat, acc) && Accepted(pat, acc, text)
    ensures Matches(pat, text)
  {
    var f := Framed(text);
    var j: nat :| j <= |text| + 1 &&
      acc in Run(Compiled(pat, acc), SearchInit(pat, acc), (text + [NUL])[..j]);
    AcceptedIsSuffix(pat, acc, text, j);
    var i: nat :| i <= |f[..j+1]| && NUL !in f[..j+1][..i] && In(false, pat, f[..j+1][i..]);
    assert f[..j+1][i..] == f[i..j+1];
  }

  lemma MatchesAccepted(pat: Re, acc: nat, text: seq<int>)
    requires WellNumbered(pat, acc) && IsText(text) && Matches(pat, text)
    ensures Accepted(pat, acc, text)
  {
    var f := Framed(text);
    var i: nat, j: nat :| i <= j <= |text| + 2 && In(false, pat, f[i..j]);
    if i == j {
      assert f[i..j] == [];
      i, j := 1, 1;
      assert f[i..j] == [];
    }
    var k := j - 1;
    assert f[..k+1][i..] == f[i..j];
    assert NUL !in f[..k+1][..i];
    assert SuffixIn(pat, f[..k+1]);
    AcceptedIsSuffix(pat, acc, text, k);
  }

  /** The searching automaton accepts a prefix exactly when the pattern matches somewhere. */
  lemma AcceptedIffMatches(pat: Re, acc: nat, text: seq<int>)
    requires WellNumbered(pat, acc) && IsText(text)
    ensures Accepted(pat, acc, text) <==> Matches(pat, text)
  {
    if Accepted(pat, acc, text) { AcceptedMatches(pat, acc, text); }
    if Matches(pat, text) { MatchesAccepted(pat, acc, text); }
  }
}
