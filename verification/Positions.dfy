/**
 The position theory both regular-expression compilers rest on.

 A regular expression is a tree whose leaves carry position numbers.  A tree can be
 read in two ways, chosen by the flag `lin`:
   - over characters (`lin == false`): a leaf accepts the characters of its symbol;
   - linearised (`lin == true`): a leaf accepts exactly its own position number.
 `In` is the denotation under the chosen reading.  `Nullable`, `First`, `Last` and
 `Follow` are the syntactic sets the programs compute.
 */
module Positions {

  /** A leaf's symbol; character values are C ints, HAT and NUL included. */
  datatype Sym = Chr(c: int) | Dot | All | Ccl(cs: set<int>) | Nccl(cs: set<int>) | Final

  datatype Re =
    | Leaf(pos: nat, sym: Sym)
    | Star(sub: Re)
    | Plus(sub: Re)
    | Quest(sub: Re)
    | Cat(l: Re, r: Re)
    | Or(l: Re, r: Re)

  const HAT := 256
  const NUL := 0

  /** Which characters a leaf consumes. */
  predicate Accepts(y: Sym, c: int) {
    match y
    case Chr(d) => c == d
    case Dot => c != NUL && c != HAT
    case All => c != NUL
    case Ccl(cs) => c in cs
    case Nccl(cs) => c !in cs && c != NUL && c != HAT
    case Final => false
  }

  predicate Hit(lin: bool, p: nat, y: Sym, c: int) {
    if lin then c == p else Accepts(y, c)
  }

  function Pos(re: Re): set<nat> {
    match re
    case Leaf(p, _) => {p}
    case Star(e) => Pos(e)
    case Plus(e) => Pos(e)
    case Quest(e) => Pos(e)
    case Cat(l, r) => Pos(l) + Pos(r)
    case Or(l, r) => Pos(l) + Pos(r)
  }

  /** No position number is used twice. */
  predicate Linear(re: Re) {
    match re
    case Leaf(_, _) => true
    case Star(e) => Linear(e)
    case Plus(e) => Linear(e)
    case Quest(e) => Linear(e)
    case Cat(l, r) => Linear(l) && Linear(r) && Pos(l) !! Pos(r)
    case Or(l, r) => Linear(l) && Linear(r) && Pos(l) !! Pos(r)
  }

  // ---------- denotation ----------

  ghost predicate In(lin: bool, re: Re, s: seq<int>)
    decreases re, |s|
  {
    match re
    case Leaf(p, y) => (|s| == 1 && Hit(lin, p, y, s[0])) || (s == [] && y == Ccl({}))
    case Star(e) => InStar(lin, e, s)
    case Plus(e) => exists i: nat :: i <= |s| && In(lin, e, s[..i]) && InStar(lin, e, s[i..])
    case Quest(e) => s == [] || In(lin, e, s)
    case Cat(l, r) => exists i: nat :: i <= |s| && In(lin, l, s[..i]) && In(lin, r, s[i..])
    case Or(l, r) => In(lin, l, s) || In(lin, r, s)
  }

  ghost predicate InStar(lin: bool, e: Re, s: seq<int>)
    decreases e, |s| + 1
  {
    s == [] || exists i: nat :: 0 < i <= |s| && In(lin, e, s[..i]) && InStar(lin, e, s[i..])
  }

  /** `s` completes a word of `re` once the leaf at position `p` has been consumed. */
  ghost predicate After(lin: bool, re: Re, p: nat, s: seq<int>) {
    match re
    case Leaf(q, _) => p == q && s == []
    case Star(e) => exists i: nat :: i <= |s| && After(lin, e, p, s[..i]) && InStar(lin, e, s[i..])
    case Plus(e) => exists i: nat :: i <= |s| && After(lin, e, p, s[..i]) && InStar(lin, e, s[i..])
    case Quest(e) => After(lin, e, p, s)
    case Cat(l, r) =>
      || (exists i: nat :: i <= |s| && After(lin, l, p, s[..i]) && In(lin, r, s[i..]))
      || After(lin, r, p, s)
    case Or(l, r) => After(lin, l, p, s) || After(lin, r, p, s)
  }

  /** The leaf of `re` at position `p` consumes `c`. */
  ghost predicate Hits(lin: bool, re: Re, p: nat, c: int) {
    match re
    case Leaf(q, y) => p == q && Hit(lin, q, y, c)
    case Star(e) => Hits(lin, e, p, c)
    case Plus(e) => Hits(lin, e, p, c)
    case Quest(e) => Hits(lin, e, p, c)
    case Cat(l, r) => Hits(lin, l, p, c) || Hits(lin, r, p, c)
    case Or(l, r) => Hits(lin, l, p, c) || Hits(lin, r, p, c)
  }

  // ---------- syntactic sets ----------

  predicate Nullable(re: Re) {
    match re
    case Leaf(_, y) => y == Ccl({})
    case Star(_) => true
    case Plus(e) => Nullable(e)
    case Quest(_) => true
    case Cat(l, r) => Nullable(l) && Nullable(r)
    case Or(l, r) => Nullable(l) || Nullable(r)
  }

  function First(re: Re): set<nat> {
    match re
    case Leaf(p, _) => {p}
    case Star(e) => First(e)
    case Plus(e) => First(e)
    case Quest(e) => First(e)
    case Cat(l, r) => if Nullable(l) then First(l) + First(r) else First(l)
    case Or(l, r) => First(l) + First(r)
  }

  function Last(re: Re): set<nat> {
    match re
    case Leaf(p, _) => {p}
    case Star(e) => Last(e)
    case Plus(e) => Last(e)
    case Quest(e) => Last(e)
    case Cat(l, r) => if Nullable(r) then Last(l) + Last(r) else Last(r)
    case Or(l, r) => Last(l) + Last(r)
  }

  function Follow(re: Re, p: nat): set<nat> {
    match re
    case Leaf(_, _) => {}
    case Star(e) => Follow(e, p) + (if p in Last(e) then First(e) else {})
    case Plus(e) => Follow(e, p) + (if p in Last(e) then First(e) else {})
    case Quest(e) => Follow(e, p)
    case Cat(l, r) => Follow(l, p) + Follow(r, p) + (if p in Last(l) then First(r) else {})
    case Or(l, r) => Follow(l, p) + Follow(r, p)
  }

  // ---------- basic facts ----------

  lemma SetsInPos(re: Re, p: nat)
    ensures First(re) <= Pos(re) && Last(re) <= Pos(re) && Follow(re, p) <= Pos(re)
  {
    match re
    case Leaf(_, _) =>
    case Cat(l, r) => SetsInPos(l, p); SetsInPos(r, p);
    case Or(l, r) => SetsInPos(l, p); SetsInPos(r, p);
    case _ => SetsInPos(re.sub, p);
  }

  lemma FollowOutside(re: Re, p: nat)
    requires p !in Pos(re)
    ensures Follow(re, p) == {} && p !in Last(re)
  {
    SetsInPos(re, p);
    match re
    case Leaf(_, _) =>
    case Cat(l, r) => FollowOutside(l, p); FollowOutside(r, p);
    case Or(l, r) => FollowOutside(l, p); FollowOutside(r, p);
    case _ => FollowOutside(re.sub, p);
  }

  lemma AfterOutside(lin: bool, re: Re, p: nat, s: seq<int>)
    requires p !in Pos(re)
    ensures !After(lin, re, p, s)
  {
  }

  lemma HitsOutside(lin: bool, re: Re, p: nat, c: int)
    requires p !in Pos(re)
    ensures !Hits(lin, re, p, c)
  {
  }

  /** The empty word is denoted exactly by nullable trees. */
  lemma NullableIn(lin: bool, re: Re)
    ensures In(lin, re, []) <==> Nullable(re)
  {
    var nil: seq<int> := [];
    assert nil[..0] == nil && nil[0..] == nil;
  }

  lemma LastAfter(lin: bool, re: Re, p: nat)
    requires Linear(re)
    ensures After(lin, re, p, []) <==> p in Last(re)
  {
    var nil: seq<int> := [];
    assert nil[..0] == [] && nil[0..] == [];
    match re
    case Cat(l, r) => NullableIn(lin, r);
    case _ =>
  }

  /** The leaf with position `p` and symbol `y` occurs in `re`. */
  ghost predicate LeafAt(re: Re, p: nat, y: Sym) {
    match re
    case Leaf(q, z) => p == q && y == z
    case Star(e) => LeafAt(e, p, y)
    case Plus(e) => LeafAt(e, p, y)
    case Quest(e) => LeafAt(e, p, y)
    case Cat(l, r) => LeafAt(l, p, y) || LeafAt(r, p, y)
    case Or(l, r) => LeafAt(l, p, y) || LeafAt(r, p, y)
  }

  lemma {:induction false} LeafAtHits(lin: bool, re: Re, p: nat, y: Sym, c: int)
    requires Linear(re) && LeafAt(re, p, y)
    ensures p in Pos(re) && (Hits(lin, re, p, c) <==> Hit(lin, p, y, c))
  {
    if re.Cat? || re.Or? {
      if LeafAt(re.l, p, y) {
        LeafAtHits(lin, re.l, p, y, c);
        HitsOutside(lin, re.r, p, c);
      } else {
        LeafAtHits(lin, re.r, p, y, c);
        HitsOutside(lin, re.l, p, c);
      }
    } else if !re.Leaf? {
      LeafAtHits(lin, re.sub, p, y, c);
    }
  }

  // ---------- one letter at a time ----------

  ghost predicate Begins(lin: bool, re: Re, c: int, s: seq<int>) {
    exists q :: q in First(re) && Hits(lin, re, q, c) && After(lin, re, q, s)
  }

  ghost predicate Continues(lin: bool, re: Re, p: nat, c: int, s: seq<int>) {
    exists q :: q in Follow(re, p) && Hits(lin, re, q, c) && After(lin, re, q, s)
  }

  lemma StarBegins(lin: bool, e: Re, c: int, s: seq<int>)
    requires Linear(e)
    ensures InStar(lin, e, [c] + s) <==> Begins(lin, Star(e), c, s)
    decreases e, 3
  {
    var w := [c] + s;
    if InStar(lin, e, w) {
      var i: nat :| 0 < i <= |w| && In(lin, e, w[..i]) && InStar(lin, e, w[i..]);
      assert w[..i] == [c] + s[..i-1] && w[i..] == s[i-1..];
      BeginsIff(lin, e, c, s[..i-1]);
      StarBeginsWith(lin, e, c, s, i - 1);
    }
    if Begins(lin, Star(e), c, s) {
      var i := StarBeginsAt(lin, e, c, s);
      BeginsIff(lin, e, c, s[..i]);
      assert w[..i+1] == [c] + s[..i] && w[i+1..] == s[i..];
    }
  }

  lemma StarBeginsWith(lin: bool, e: Re, c: int, s: seq<int>, i: nat)
    requires i <= |s| && Begins(lin, e, c, s[..i]) && InStar(lin, e, s[i..])
    ensures Begins(lin, Star(e), c, s)
  {
    var q :| q in First(e) && Hits(lin, e, q, c) && After(lin, e, q, s[..i]);
    assert After(lin, Star(e), q, s);
  }

  lemma StarBeginsAt(lin: bool, e: Re, c: int, s: seq<int>) returns (i: nat)
    requires Begins(lin, Star(e), c, s)
    ensures i <= |s| && Begins(lin, e, c, s[..i]) && InStar(lin, e, s[i..])
  {
    var q :| q in First(e) && Hits(lin, Star(e), q, c) && After(lin, Star(e), q, s);
    i :| i <= |s| && After(lin, e, q, s[..i]) && InStar(lin, e, s[i..]);
  }

  lemma CatBegins(lin: bool, l: Re, r: Re, c: int, s: seq<int>)
    requires Linear(Cat(l, r))
    ensures In(lin, Cat(l, r), [c] + s) ==> Begins(lin, Cat(l, r), c, s)
    decreases Cat(l, r), 1
  {
    var w := [c] + s;
    if In(lin, Cat(l, r), w) {
      var i: nat :| i <= |w| && In(lin, l, w[..i]) && In(lin, r, w[i..]);
      if i == 0 {
        assert w[..0] == [] && w[0..] == w;
        NullableIn(lin, l);
        BeginsIff(lin, r, c, s);
        CatBeginsRight(lin, l, r, c, s);
      } else {
        assert w[..i] == [c] + s[..i-1] && w[i..] == s[i-1..];
        BeginsIff(lin, l, c, s[..i-1]);
        CatBeginsLeft(lin, l, r, c, s, i - 1);
      }
    }
  }

  lemma CatBeginsRight(lin: bool, l: Re, r: Re, c: int, s: seq<int>)
    requires Nullable(l) && Begins(lin, r, c, s)
    ensures Begins(lin, Cat(l, r), c, s)
  {
    var q :| q in First(r) && Hits(lin, r, q, c) && After(lin, r, q, s);
    assert q in First(Cat(l, r)) && After(lin, Cat(l, r), q, s);
  }

  lemma CatBeginsLeft(lin: bool, l: Re, r: Re, c: int, s: seq<int>, i: nat)
    requires i <= |s| && Begins(lin, l, c, s[..i]) && In(lin, r, s[i..])
    ensures Begins(lin, Cat(l, r), c, s)
  {
    var q :| q in First(l) && Hits(lin, l, q, c) && After(lin, l, q, s[..i]);
    assert q in First(Cat(l, r)) && After(lin, Cat(l, r), q, s);
  }

  lemma BeginsCat(lin: bool, l: Re, r: Re, c: int, s: seq<int>)
    requires Linear(Cat(l, r))
    ensures Begins(lin, Cat(l, r), c, s) ==> In(lin, Cat(l, r), [c] + s)
    decreases Cat(l, r), 1
  {
    var w := [c] + s;
    if Begins(lin, Cat(l, r), c, s) {
      var q :| q in First(Cat(l, r)) && Hits(lin, Cat(l, r), q, c) && After(lin, Cat(l, r), q, s);
      SetsInPos(l, q);
      SetsInPos(r, q);
      if q in First(l) {
        HitsOutside(lin, r, q, c);
        AfterOutside(lin, r, q, s);
        var i: nat :| i <= |s| && After(lin, l, q, s[..i]) && In(lin, r, s[i..]);
        BeginsIff(lin, l, c, s[..i]);
        assert w[..i+1] == [c] + s[..i] && w[i+1..] == s[i..];
      } else {
        HitsOutside(lin, l, q, c);
        forall i: nat | i <= |s| { AfterOutside(lin, l, q, s[..i]); }
        assert q in First(r) && Hits(lin, r, q, c) && After(lin, r, q, s);
        BeginsIff(lin, r, c, s);
        NullableIn(lin, l);
        assert w[..0] == [] && w[0..] == w;
      }
    }
  }

  /** Reading a letter first means reading it at a first position. */
  lemma {:induction false} BeginsIff(lin: bool, re: Re, c: int, s: seq<int>)
    requires Linear(re)
    ensures In(lin, re, [c] + s) <==> Begins(lin, re, c, s)
    decreases re, 2
  {
    var w := [c] + s;
    match re
    case Leaf(p, y) =>
      if In(lin, re, w) { assert p in First(re) && After(lin, re, p, s); }
    case Star(e) => StarBegins(lin, e, c, s);
    case Plus(e) =>
      StarBegins(lin, e, c, s);
      if In(lin, re, w) {
        var i: nat :| i <= |w| && In(lin, e, w[..i]) && InStar(lin, e, w[i..]);
        if i == 0 { assert w[0..] == w; }
        assert InStar(lin, e, w);
        var q :| q in First(Star(e)) && Hits(lin, Star(e), q, c) && After(lin, Star(e), q, s);
        assert q in First(re) && Hits(lin, re, q, c) && After(lin, re, q, s);
      }
      if Begins(lin, re, c, s) {
        var q :| q in First(re) && Hits(lin, re, q, c) && After(lin, re, q, s);
        assert q in First(Star(e)) && Hits(lin, Star(e), q, c) && After(lin, Star(e), q, s);
        assert InStar(lin, e, w);
      }
    case Quest(e) =>
      BeginsIff(lin, e, c, s);
      forall q
        ensures Hits(lin, re, q, c) == Hits(lin, e, q, c)
        ensures After(lin, re, q, s) == After(lin, e, q, s)
      {}
      assert First(re) == First(e);
    case Cat(l, r) =>
      CatBegins(lin, l, r, c, s);
      BeginsCat(lin, l, r, c, s);
    case Or(l, r) =>
      BeginsIff(lin, l, c, s);
      BeginsIff(lin, r, c, s);
      if Begins(lin, l, c, s) {
        var q :| q in First(l) && Hits(lin, l, q, c) && After(lin, l, q, s);
        assert q in First(re) && Hits(lin, re, q, c) && After(lin, re, q, s);
      }
      if Begins(lin, r, c, s) {
        var q :| q in First(r) && Hits(lin, r, q, c) && After(lin, r, q, s);
        assert q in First(re) && Hits(lin, re, q, c) && After(lin, re, q, s);
      }
      if Begins(lin, re, c, s) {
        var q :| q in First(re) && Hits(lin, re, q, c) && After(lin, re, q, s);
        SetsInPos(l, q);
        SetsInPos(r, q);
        if q in Pos(l) {
          HitsOutside(lin, r, q, c);
          AfterOutside(lin, r, q, s);
          assert q in First(l);
        } else {
          HitsOutside(lin, l, q, c);
          AfterOutside(lin, l, q, s);
          assert q in First(r);
        }
      }
  }

  lemma StarContinuesWith(lin: bool, e: Re, p: nat, c: int, s: seq<int>, i: nat)
    requires i <= |s| && Continues(lin, e, p, c, s[..i]) && InStar(lin, e, s[i..])
    ensures Continues(lin, Star(e), p, c, s)
  {
    var q :| q in Follow(e, p) && Hits(lin, e, q, c) && After(lin, e, q, s[..i]);
    assert q in Follow(Star(e), p) && Hits(lin, Star(e), q, c) && After(lin, Star(e), q, s);
  }

  lemma StarContinues(lin: bool, e: Re, p: nat, c: int, s: seq<int>)
    requires Linear(e)
    ensures After(lin, Star(e), p, [c] + s) <==> Continues(lin, Star(e), p, c, s)
    decreases e, 3
  {
    var w := [c] + s;
    if After(lin, Star(e), p, w) {
      var i: nat :| i <= |w| && After(lin, e, p, w[..i]) && InStar(lin, e, w[i..]);
      if i == 0 {
        assert w[..0] == [] && w[0..] == w;
        LastAfter(lin, e, p);
        StarBegins(lin, e, c, s);
        var q :| q in First(Star(e)) && Hits(lin, Star(e), q, c) && After(lin, Star(e), q, s);
        assert q in Follow(Star(e), p);
      } else {
        assert w[..i] == [c] + s[..i-1] && w[i..] == s[i-1..];
        ContinuesIff(lin, e, p, c, s[..i-1]);
        StarContinuesWith(lin, e, p, c, s, i - 1);
      }
    }
    if Continues(lin, Star(e), p, c, s) {
      var q :| q in Follow(Star(e), p) && Hits(lin, Star(e), q, c) && After(lin, Star(e), q, s);
      if q in Follow(e, p) {
        var i: nat :| i <= |s| && After(lin, e, q, s[..i]) && InStar(lin, e, s[i..]);
        assert Continues(lin, e, p, c, s[..i]);
        ContinuesIff(lin, e, p, c, s[..i]);
        assert w[..i+1] == [c] + s[..i] && w[i+1..] == s[i..];
      } else {
        assert Begins(lin, Star(e), c, s);
        StarBegins(lin, e, c, s);
        LastAfter(lin, e, p);
        assert w[..0] == [] && w[0..] == w;
      }
    }
  }

  lemma CatContinues(lin: bool, l: Re, r: Re, p: nat, c: int, s: seq<int>)
    requires Linear(Cat(l, r))
    ensures After(lin, Cat(l, r), p, [c] + s) ==> Continues(lin, Cat(l, r), p, c, s)
    decreases Cat(l, r), 1
  {
    var w, re := [c] + s, Cat(l, r);
    if After(lin, re, p, w) {
      if After(lin, r, p, w) {
        ContinuesIff(lin, r, p, c, s);
        var q :| q in Follow(r, p) && Hits(lin, r, q, c) && After(lin, r, q, s);
        assert q in Follow(re, p) && Hits(lin, re, q, c) && After(lin, re, q, s);
      } else {
        var i: nat :| i <= |w| && After(lin, l, p, w[..i]) && In(lin, r, w[i..]);
        if i == 0 {
          assert w[..0] == [] && w[0..] == w;
          LastAfter(lin, l, p);
          BeginsIff(lin, r, c, s);
          var q :| q in First(r) && Hits(lin, r, q, c) && After(lin, r, q, s);
          assert q in Follow(re, p) && Hits(lin, re, q, c) && After(lin, re, q, s);
        } else {
          assert w[..i] == [c] + s[..i-1] && w[i..] == s[i-1..];
          ContinuesIff(lin, l, p, c, s[..i-1]);
          var q :| q in Follow(l, p) && Hits(lin, l, q, c) && After(lin, l, q, s[..i-1]);
          assert q in Follow(re, p) && Hits(lin, re, q, c) && After(lin, re, q, s);
        }
      }
    }
  }

  lemma ContinuesCat(lin: bool, l: Re, r: Re, p: nat, c: int, s: seq<int>)
    requires Linear(Cat(l, r))
    ensures Continues(lin, Cat(l, r), p, c, s) ==> After(lin, Cat(l, r), p, [c] + s)
    decreases Cat(l, r), 1
  {
    var w, re := [c] + s, Cat(l, r);
    if Continues(lin, re, p, c, s) {
      var q :| q in Follow(re, p) && Hits(lin, re, q, c) && After(lin, re, q, s);
      SetsInPos(l, p);
      SetsInPos(r, p);
      if q in Pos(l) {
        HitsOutside(lin, r, q, c);
        AfterOutside(lin, r, q, s);
        assert q in Follow(l, p);
        var i: nat :| i <= |s| && After(lin, l, q, s[..i]) && In(lin, r, s[i..]);
        assert Continues(lin, l, p, c, s[..i]);
        ContinuesIff(lin, l, p, c, s[..i]);
        assert w[..i+1] == [c] + s[..i] && w[i+1..] == s[i..];
      } else {
        HitsOutside(lin, l, q, c);
        forall i: nat | i <= |s| { AfterOutside(lin, l, q, s[..i]); }
        if q in Follow(r, p) {
          ContinuesIff(lin, r, p, c, s);
        } else {
          assert Begins(lin, r, c, s);
          BeginsIff(lin, r, c, s);
          LastAfter(lin, l, p);
          assert w[..0] == [] && w[0..] == w;
        }
      }
    }
  }

  /** Reading a letter after position `p` means reading it at a position of `Follow(re, p)`. */
  lemma {:induction false} ContinuesIff(lin: bool, re: Re, p: nat, c: int, s: seq<int>)
    requires Linear(re)
    ensures After(lin, re, p, [c] + s) <==> Continues(lin, re, p, c, s)
    decreases re, 2
  {
    match re
    case Leaf(_, _) =>
    case Star(e) => StarContinues(lin, e, p, c, s);
    case Plus(e) =>
      StarContinues(lin, e, p, c, s);
      assert After(lin, Plus(e), p, [c] + s) == After(lin, Star(e), p, [c] + s);
      forall q
        ensures After(lin, Plus(e), q, s) == After(lin, Star(e), q, s)
        ensures Hits(lin, Plus(e), q, c) == Hits(lin, Star(e), q, c)
      {}
      assert Follow(Plus(e), p) == Follow(Star(e), p);
    case Quest(e) =>
      ContinuesIff(lin, e, p, c, s);
      forall q
        ensures Hits(lin, re, q, c) == Hits(lin, e, q, c)
        ensures After(lin, re, q, s) == After(lin, e, q, s)
      {}
      assert Follow(re, p) == Follow(e, p);
    case Cat(l, r) =>
      CatContinues(lin, l, r, p, c, s);
      ContinuesCat(lin, l, r, p, c, s);
    case Or(l, r) =>
      ContinuesIff(lin, l, p, c, s);
      ContinuesIff(lin, r, p, c, s);
      OrContinues(lin, l, r, p, c, s);
  }

  lemma OrContinues(lin: bool, l: Re, r: Re, p: nat, c: int, s: seq<int>)
    requires Pos(l) !! Pos(r)
    ensures Continues(lin, Or(l, r), p, c, s) <==> Continues(lin, l, p, c, s) || Continues(lin, r, p, c, s)
  {
    var re := Or(l, r);
    if Continues(lin, l, p, c, s) {
      var q :| q in Follow(l, p) && Hits(lin, l, q, c) && After(lin, l, q, s);
      assert q in Follow(re, p) && Hits(lin, re, q, c) && After(lin, re, q, s);
    }
    if Continues(lin, r, p, c, s) {
      var q :| q in Follow(r, p) && Hits(lin, r, q, c) && After(lin, r, q, s);
      assert q in Follow(re, p) && Hits(lin, re, q, c) && After(lin, re, q, s);
    }
    if Continues(lin, re, p, c, s) {
      var q :| q in Follow(re, p) && Hits(lin, re, q, c) && After(lin, re, q, s);
      SetsInPos(l, p);
      SetsInPos(r, p);
      if q in Pos(l) {
        HitsOutside(lin, r, q, c);
        AfterOutside(lin, r, q, s);
        assert q in Follow(l, p);
      } else {
        HitsOutside(lin, l, q, c);
        AfterOutside(lin, l, q, s);
        assert q in Follow(r, p);
      }
    }
  }

  // ---------- what the sets mean in terms of linearised words ----------

  lemma {:induction false} Inhabited(re: Re)
    ensures exists s :: In(true, re, s)
  {
    match re
    case Leaf(p, _) => assert In(true, re, [p]);
    case Star(e) => assert In(true, re, []);
    case Plus(e) =>
      Inhabited(e);
      var s :| In(true, e, s);
      assert s[..|s|] == s && s[|s|..] == [];
      assert In(true, re, s);
    case Quest(e) => assert In(true, re, []);
    case Cat(l, r) =>
      Inhabited(l);
      Inhabited(r);
      var s :| In(true, l, s);
      var t :| In(true, r, t);
      assert (s + t)[..|s|] == s && (s + t)[|s|..] == t;
      assert In(true, re, s + t);
    case Or(l, r) =>
      Inhabited(l);
      var s :| In(true, l, s);
      assert In(true, re, s);
  }

  /** Every position occurs in some linearised word. */
  lemma {:induction false} Completable(re: Re, q: nat)
    requires q in Pos(re)
    ensures exists s :: After(true, re, q, s)
  {
    match re
    case Leaf(p, _) => assert After(true, re, q, []);
    case Quest(e) =>
      Completable(e, q);
      var s :| After(true, e, q, s);
      assert After(true, re, q, s);
    case Cat(l, r) =>
      if q in Pos(l) {
        Completable(l, q);
        Inhabited(r);
        var s :| After(true, l, q, s);
        var t :| In(true, r, t);
        assert (s + t)[..|s|] == s && (s + t)[|s|..] == t;
        assert After(true, re, q, s + t);
      } else {
        Completable(r, q);
        var s :| After(true, r, q, s);
        assert After(true, re, q, s);
      }
    case Or(l, r) =>
      var e := if q in Pos(l) then l else r;
      Completable(e, q);
      var s :| After(true, e, q, s);
      assert After(true, re, q, s);
    case _ =>
      var e := re.sub;
      Completable(e, q);
      var s :| After(true, e, q, s);
      assert s[..|s|] == s && s[|s|..] == [];
      assert After(true, re, q, s);
  }

  lemma HitsOwn(re: Re, q: nat, c: int)
    ensures Hits(true, re, q, c) <==> q in Pos(re) && c == q
  {
  }

  /** A position set is exactly the letters that can begin a linearised word. */
  lemma FirstMeaning(re: Re, q: nat)
    requires Linear(re)
    ensures q in First(re) <==> exists w: seq<int> :: In(true, re, [q] + w)
  {
    if q in First(re) {
      SetsInPos(re, q);
      Completable(re, q);
      var w: seq<int> :| After(true, re, q, w);
      HitsOwn(re, q, q);
      BeginsIff(true, re, q, w);
      assert In(true, re, [q] + w);
    }
    if w: seq<int> :| In(true, re, [q] + w) {
      BeginsIff(true, re, q, w);
      var x :| x in First(re) && Hits(true, re, x, q) && After(true, re, x, w);
      HitsOwn(re, x, q);
    }
  }

  lemma {:induction false} AfterSuffix(re: Re, x: nat, u: seq<int>, p: nat, s: seq<int>)
    requires Linear(re) && After(true, re, x, u + [p] + s)
    ensures After(true, re, p, s)
    decreases |u|
  {
    var w := u + [p] + s;
    assert w == [w[0]] + w[1..];
    ContinuesIff(true, re, x, w[0], w[1..]);
    var q :| q in Follow(re, x) && Hits(true, re, q, w[0]) && After(true, re, q, w[1..]);
    HitsOwn(re, q, w[0]);
    if u == [] {
      assert w[1..] == s;
    } else {
      assert w[1..] == u[1..] + [p] + s;
      AfterSuffix(re, q, u[1..], p, s);
    }
  }

  lemma {:induction false} AfterPrefix(re: Re, p: nat, s: seq<int>) returns (u: seq<int>)
    requires After(true, re, p, s)
    ensures In(true, re, u + [p] + s)
    decreases re, 1
  {
    match re
    case Leaf(_, _) =>
      u := [];
      assert [] + [p] + s == [p];
    case Quest(e) => u := AfterPrefix(e, p, s);
    case Cat(l, r) =>
      u := CatAfterPrefix(l, r, p, s);
    case Or(l, r) => u := AfterPrefix(if After(true, l, p, s) then l else r, p, s);
    case _ =>
      var e := re.sub;
      var i: nat :| i <= |s| && After(true, e, p, s[..i]) && InStar(true, e, s[i..]);
      u := AfterPrefix(e, p, s[..i]);
      var w, j := u + [p] + s, |u| + 1 + i;
      assert w[..j] == u + [p] + s[..i] && w[j..] == s[i..];
  }

  lemma CatAfterPrefix(l: Re, r: Re, p: nat, s: seq<int>) returns (u: seq<int>)
    requires After(true, Cat(l, r), p, s)
    ensures In(true, Cat(l, r), u + [p] + s)
    decreases Cat(l, r), 0
  {
    if After(true, r, p, s) {
      var v := AfterPrefix(r, p, s);
      Inhabited(l);
      var t :| In(true, l, t);
      u := t + v;
      var w := u + [p] + s;
      assert w[..|t|] == t && w[|t|..] == v + [p] + s;
    } else {
      var i: nat :| i <= |s| && After(true, l, p, s[..i]) && In(true, r, s[i..]);
      u := AfterPrefix(l, p, s[..i]);
      var w, j := u + [p] + s, |u| + 1 + i;
      assert w[..j] == u + [p] + s[..i] && w[j..] == s[i..];
    }
  }

  /** `After` is the right quotient of the linearised language. */
  lemma AfterMeaning(re: Re, p: nat, s: seq<int>)
    requires Linear(re)
    ensures After(true, re, p, s) <==> exists u: seq<int> :: In(true, re, u + [p] + s)
  {
    if After(true, re, p, s) {
      var u := AfterPrefix(re, p, s);
    }
    if u: seq<int> :| In(true, re, u + [p] + s) {
      var w := u + [p] + s;
      assert w == [w[0]] + w[1..];
      BeginsIff(true, re, w[0], w[1..]);
      var q :| q in First(re) && Hits(true, re, q, w[0]) && After(true, re, q, w[1..]);
      HitsOwn(re, q, w[0]);
      if u == [] {
        assert w[1..] == s;
      } else {
        assert w[1..] == u[1..] + [p] + s;
        AfterSuffix(re, q, u[1..], p, s);
      }
    }
  }

  /** `Follow(re, p)` is exactly the letters that come right after `p` in some linearised word. */
  lemma FollowMeaning(re: Re, p: nat, q: nat)
    requires Linear(re)
    ensures q in Follow(re, p) <==> exists u: seq<int>, w: seq<int> :: In(true, re, u + [p] + ([q] + w))
  {
    if q in Follow(re, p) {
      SetsInPos(re, p);
      Completable(re, q);
      var w: seq<int> :| After(true, re, q, w);
      HitsOwn(re, q, q);
      ContinuesIff(true, re, p, q, w);
      var u := AfterPrefix(re, p, [q] + w);
    }
    if u: seq<int>, w: seq<int> :| In(true, re, u + [p] + ([q] + w)) {
      AfterMeaning(re, p, [q] + w);
      ContinuesIff(true, re, p, q, w);
      var x :| x in Follow(re, p) && Hits(true, re, x, q) && After(true, re, x, w);
      HitsOwn(re, x, q);
    }
  }
}
