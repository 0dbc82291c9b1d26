/**
 The language of agrep's regular expressions as a grammar over tokens (bin/agrep/parse.c):
 which token strings have a syntax tree, and which tree that is.
 */
module AgrepSyntax {
  import opened Slices
  import opened Positions

  /** What `get_token` can find; Bad is where it returns no token. The end of the string is no token. */
  datatype Token = Lit(y: Sym) | LParen | RParen | OpStar | OpOpt | OpAlt | Bad

  /** The literals of a token string; each takes a position. */
  function Lits(w: seq<Token>): nat {
    if w == [] then 0 else Lits(w[..|w| - 1]) + if w[|w| - 1].Lit? then 1 else 0
  }

  function Opens(t: Token): int { if t == LParen then 1 else if t == RParen then -1 else 0 }

  /** Open parentheses. */
  function Depth(w: seq<Token>): int {
    if w == [] then 0
    else Depth(w[..|w| - 1]) + Opens(w[|w| - 1])
  }

  // ---------- the grammar; positions are numbered from `p` on, left to right ----------

  ghost predicate IsAtom(t: Re, w: seq<Token>, p: nat)
    decreases |w|, 0
  {
    || (|w| == 1 && w[0].Lit? && t == Leaf(p, w[0].y))
    || (|w| >= 2 && w[0] == LParen && w[|w| - 1] == RParen && IsAlt(t, w[1..|w| - 1], p))
  }

  ghost predicate IsPost(t: Re, w: seq<Token>, p: nat)
    decreases |w|, 1
  {
    || IsAtom(t, w, p)
    || (|w| >= 1 && w[|w| - 1] == OpStar && t.Star? && IsPost(t.sub, w[..|w| - 1], p))
    || (|w| >= 1 && w[|w| - 1] == OpOpt && t.Quest? && IsPost(t.sub, w[..|w| - 1], p))
  }

  ghost predicate IsCat(t: Re, w: seq<Token>, p: nat)
    decreases |w|, 2
  {
    IsPost(t, w, p) || (t.Cat? && exists i :: 0 < i < |w| && CatAt(t, w, p, i))
  }

  ghost predicate CatAt(t: Re, w: seq<Token>, p: nat, i: int)
    requires t.Cat? && 0 < i < |w|
    decreases |w|, 0
  {
    IsCat(t.l, w[..i], p) && IsPost(t.r, w[i..], p + Lits(w[..i]))
  }

  ghost predicate IsAlt(t: Re, w: seq<Token>, p: nat)
    decreases |w|, 3
  {
    IsCat(t, w, p) || (t.Or? && exists i :: 0 <= i < |w| && AltAt(t, w, p, i))
  }

  ghost predicate AltAt(t: Re, w: seq<Token>, p: nat, i: int)
    requires t.Or? && 0 <= i < |w|
    decreases |w|, 2, 1
  {
    w[i] == OpAlt && IsCat(t.l, w[..i], p) && IsAlt(t.r, w[i + 1..], p + Lits(w[..i]))
  }

  /** `w` has a syntax tree. */
  ghost predicate Derivable(w: seq<Token>) { exists t, p :: IsAlt(t, w, p) }

  // ---------- counting ----------

  lemma {:induction false} LitsConcat(u: seq<Token>, v: seq<Token>)
    ensures Lits(u + v) == Lits(u) + Lits(v)
  {
    if v == [] {
      assert u + v == u;
    } else {
      var n := |v| - 1;
      LitsConcat(u, v[..n]);
      assert (u + v)[..|u + v| - 1] == u + v[..n];
    }
  }

  lemma {:induction false} DepthConcat(u: seq<Token>, v: seq<Token>)
    ensures Depth(u + v) == Depth(u) + Depth(v)
  {
    if v == [] {
      assert u + v == u;
    } else {
      var n := |v| - 1;
      DepthConcat(u, v[..n]);
      assert (u + v)[..|u + v| - 1] == u + v[..n];
    }
  }

  lemma One(x: Token)
    ensures Depth([x]) == Opens(x) && Lits([x]) == if x.Lit? then 1 else 0
  {
    assert [x][..0] == [];
  }

  // ---------- what every derivable token string looks like ----------

  ghost predicate Balanced(w: seq<Token>) {
    Depth(w) == 0 && forall k :: 0 <= k <= |w| ==> Depth(w[..k]) >= 0
  }

  predicate Begin(x: Token) { x.Lit? || x == LParen }

  /** The parenthesis opened at `k` is closed, around something derivable. */
  ghost predicate Closed(w: seq<Token>, k: int)
    requires 0 <= k < |w|
  {
    exists m :: ClosedAt(w, k, m)
  }

  ghost predicate ClosedAt(w: seq<Token>, k: int, m: int) {
    0 <= k < m < |w| && w[m] == RParen && Derivable(w[k + 1..m])
  }

  ghost predicate Word(w: seq<Token>) {
    && Balanced(w) && w != [] && Begin(w[0])
    && (forall k :: 0 <= k < |w| ==> w[k] != Bad)
    && (forall k :: 0 <= k < |w| && w[k] == LParen ==> Closed(w, k))
  }

  lemma BalancedConcat(u: seq<Token>, v: seq<Token>)
    requires Balanced(u) && Balanced(v)
    ensures Balanced(u + v)
  {
    DepthConcat(u, v);
    forall k | 0 <= k <= |u + v| ensures Depth((u + v)[..k]) >= 0 {
      if k <= |u| {
        assert (u + v)[..k] == u[..k];
      } else {
        assert (u + v)[..k] == u + v[..k - |u|];
        DepthConcat(u, v[..k - |u|]);
      }
    }
  }

  lemma BalancedOne(x: Token)
    requires Opens(x) == 0
    ensures Balanced([x])
  {
    One(x);
    forall k | 0 <= k <= 1 ensures Depth([x][..k]) >= 0 {
      assert [x][..0] == [] && [x][..1] == [x];
    }
  }

  lemma BalancedParens(u: seq<Token>)
    requires Balanced(u)
    ensures Balanced([LParen] + u + [RParen])
  {
    var w := [LParen] + u + [RParen];
    One(LParen);
    One(RParen);
    DepthConcat([LParen], u);
    DepthConcat([LParen] + u, [RParen]);
    forall k | 0 <= k <= |w| ensures Depth(w[..k]) >= 0 {
      if k == 0 {
        assert w[..k] == [];
      } else if k <= |u| + 1 {
        assert w[..k] == [LParen] + u[..k - 1];
        DepthConcat([LParen], u[..k - 1]);
      } else {
        assert w[..k] == w;
      }
    }
  }

  lemma ClosedLeft(u: seq<Token>, v: seq<Token>, k: int)
    requires 0 <= k < |u| && Closed(u, k)
    ensures Closed(u + v, k)
  {
    var m :| ClosedAt(u, k, m);
    assert (u + v)[k + 1..m] == u[k + 1..m];
    assert ClosedAt(u + v, k, m);
  }

  lemma ClosedRight(u: seq<Token>, v: seq<Token>, k: int)
    requires 0 <= k < |v| && Closed(v, k)
    ensures Closed(u + v, |u| + k)
  {
    var m :| ClosedAt(v, k, m);
    assert (u + v)[|u| + k + 1..|u| + m] == v[k + 1..m];
    assert ClosedAt(u + v, |u| + k, |u| + m);
  }

  lemma WordConcat(u: seq<Token>, v: seq<Token>)
    requires Word(u) && Word(v)
    ensures Word(u + v)
  {
    BalancedConcat(u, v);
    WordRest(u, v);
  }

  /** The part of `Word` that does not count parentheses. */
  lemma WordRest(u: seq<Token>, v: seq<Token>)
    requires Word(u)
    requires forall k :: 0 <= k < |v| ==> v[k] != Bad
    requires forall k :: 0 <= k < |v| && v[k] == LParen ==> Closed(v, k)
    ensures (u + v)[0] == u[0]
    ensures forall k :: 0 <= k < |u + v| ==> (u + v)[k] != Bad
    ensures forall k :: 0 <= k < |u + v| && (u + v)[k] == LParen ==> Closed(u + v, k)
  {
    var w := u + v;
    forall k | 0 <= k < |w| && w[k] == LParen ensures Closed(w, k) {
      if k < |u| { ClosedLeft(u, v, k); } else { ClosedRight(u, v, k - |u|); }
    }
  }

  lemma WordSnoc(u: seq<Token>, x: Token)
    requires Word(u) && x != Bad && Opens(x) == 0
    ensures Word(u + [x])
  {
    BalancedOne(x);
    BalancedConcat(u, [x]);
    WordRest(u, [x]);
  }

  lemma WordParens(u: seq<Token>)
    requires Word(u) && Derivable(u)
    ensures Word([LParen] + u + [RParen])
  {
    BalancedParens(u);
    var w := [LParen] + u + [RParen];
    forall k | 0 <= k < |w| && w[k] == LParen ensures Closed(w, k) {
      if k == 0 {
        assert w[1..|u| + 1] == u;
        assert ClosedAt(w, 0, |u| + 1);
      } else {
        assert u[k - 1] == LParen;
        ClosedRight([LParen], u, k - 1);
        ClosedLeft([LParen] + u, [RParen], k);
      }
    }
    forall k | 0 <= k < |w| ensures w[k] != Bad {
      if 0 < k <= |u| { assert w[k] == u[k - 1]; }
    }
  }

  lemma WordAlt(u: seq<Token>, v: seq<Token>)
    requires Word(u) && Word(v)
    ensures Word(u + [OpAlt] + v) && Lits(u + [OpAlt] + v) == Lits(u) + Lits(v)
  {
    WordSnoc(u, OpAlt);
    WordConcat(u + [OpAlt], v);
    One(OpAlt);
    LitsConcat(u, [OpAlt]);
    LitsConcat(u + [OpAlt], v);
  }

  // ---------- trees ----------

  /** The leaves of `t` are numbered p, p+1, ... and there is one per literal of `w`. */
  ghost predicate NumberedFrom(t: Re, w: seq<Token>, p: nat) {
    Linear(t) && forall x :: x in Pos(t) <==> p <= x < p + Lits(w)
  }

  lemma {:induction false} AtomShape(t: Re, w: seq<Token>, p: nat)
    requires IsAtom(t, w, p)
    ensures Word(w) && NumberedFrom(t, w, p)
    decreases |w|, 0
  {
    if |w| == 1 && w[0].Lit? {
      assert w == [w[0]];
      One(w[0]);
      BalancedOne(w[0]);
    } else {
      var u := w[1..|w| - 1];
      AltShape(t, u, p);
      assert w == [LParen] + u + [RParen];
      WordParens(u);
      One(LParen);
      One(RParen);
      LitsConcat([LParen], u);
      LitsConcat([LParen] + u, [RParen]);
    }
  }

  lemma {:induction false} PostShape(t: Re, w: seq<Token>, p: nat)
    requires IsPost(t, w, p)
    ensures Word(w) && NumberedFrom(t, w, p)
    decreases |w|, 1
  {
    if IsAtom(t, w, p) {
      AtomShape(t, w, p);
    } else {
      var u, x := w[..|w| - 1], w[|w| - 1];
      PostShape(t.sub, u, p);
      assert w == u + [x];
      WordSnoc(u, x);
    }
  }

  lemma {:induction false} CatShape(t: Re, w: seq<Token>, p: nat)
    requires IsCat(t, w, p)
    ensures Word(w) && NumberedFrom(t, w, p)
    decreases |w|, 2
  {
    if IsPost(t, w, p) {
      PostShape(t, w, p);
    } else {
      var i :| 0 < i < |w| && CatAt(t, w, p, i);
      CatShape(t.l, w[..i], p);
      PostShape(t.r, w[i..], p + Lits(w[..i]));
      assert w == w[..i] + w[i..];
      WordConcat(w[..i], w[i..]);
      LitsConcat(w[..i], w[i..]);
    }
  }

  /** Every derivable token string is a word, and its tree is numbered from left to right. */
  lemma {:induction false} AltShape(t: Re, w: seq<Token>, p: nat)
    requires IsAlt(t, w, p)
    ensures Word(w) && NumberedFrom(t, w, p)
    decreases |w|, 3
  {
    if IsCat(t, w, p) {
      CatShape(t, w, p);
    } else {
      var i :| 0 <= i < |w| && AltAt(t, w, p, i);
      var u, v := w[..i], w[i + 1..];
      CatShape(t.l, u, p);
      AltShape(t.r, v, p + Lits(u));
      assert w == u + [OpAlt] + v;
      WordAlt(u, v);
    }
  }

  // ---------- outside all parentheses ----------

  lemma ParenPrefix(w: seq<Token>, u: seq<Token>, k: nat)
    requires |w| >= 2 && w[0] == LParen && u == w[1..|w| - 1] && 0 < k < |w|
    ensures w[..k] == [LParen] + u[..k - 1]
  {
    var l, r := w[..k], [LParen] + u[..k - 1];
    assert |l| == |r| && l[0] == r[0];
    forall i | 1 <= i < k ensures l[i] == r[i] { assert u[i - 1] == w[i]; }
  }

  /** Inside an atom a parenthesis is open. */
  lemma AtomInside(t: Re, w: seq<Token>, p: nat, k: int)
    requires IsAtom(t, w, p) && 0 < k < |w|
    ensures Depth(w[..k]) > 0
  {
    var u := w[1..|w| - 1];
    AltShape(t, u, p);
    ParenPrefix(w, u, k);
    One(LParen);
    DepthConcat([LParen], u[..k - 1]);
  }

  /** What stands outside parentheses after the beginning of an atom is its operators. */
  lemma {:induction false} PostInside(t: Re, w: seq<Token>, p: nat, k: int)
    requires IsPost(t, w, p) && 0 < k < |w| && Depth(w[..k]) == 0
    ensures w[k] == OpStar || w[k] == OpOpt
    decreases |w|
  {
    if IsAtom(t, w, p) {
      AtomInside(t, w, p, k);
    } else if k < |w| - 1 {
      assert w[..|w| - 1][..k] == w[..k];
      PostInside(t.sub, w[..|w| - 1], p, k);
    }
  }

  lemma DepthSplit(w: seq<Token>, i: nat, k: nat)
    requires i <= k <= |w|
    ensures Depth(w[..k]) == Depth(w[..i]) + Depth(w[i..][..k - i])
  {
    assert w[..k] == w[..i] + w[i..][..k - i];
    DepthConcat(w[..i], w[i..][..k - i]);
  }

  lemma {:induction false} CatNoAlt(t: Re, w: seq<Token>, p: nat, k: int)
    requires IsCat(t, w, p) && 0 <= k < |w| && Depth(w[..k]) == 0
    ensures w[k] != OpAlt
    decreases |w|
  {
    if IsPost(t, w, p) {
      PostShape(t, w, p);
      if k > 0 { PostInside(t, w, p, k); }
    } else {
      var i :| 0 < i < |w| && CatAt(t, w, p, i);
      if k < i {
        assert w[..i][..k] == w[..k];
        CatNoAlt(t.l, w[..i], p, k);
      } else {
        CatShape(t.l, w[..i], p);
        PostShape(t.r, w[i..], p + Lits(w[..i]));
        DepthSplit(w, i, k);
        if k > i { PostInside(t.r, w[i..], p + Lits(w[..i]), k - i); }
      }
    }
  }

  lemma DepthPast(w: seq<Token>, i: nat, k: nat)
    requires i < k < |w| && w[i] == OpAlt && Depth(w[..i]) == 0
    ensures Depth(w[i + 1..][..k - i - 1]) == Depth(w[..k])
  {
    var u, v := w[..i], w[i + 1..][..k - i - 1];
    assert w[..k] == u + [OpAlt] + v;
    One(OpAlt);
    DepthConcat(u, [OpAlt]);
    DepthConcat(u + [OpAlt], v);
  }

  /** What follows an alternation sign outside parentheses is derivable. */
  lemma {:induction false} AfterAlt(t: Re, w: seq<Token>, p: nat, k: int)
    requires IsAlt(t, w, p) && 0 <= k < |w| && w[k] == OpAlt && Depth(w[..k]) == 0
    ensures Derivable(w[k + 1..])
    decreases |w|
  {
    if IsCat(t, w, p) {
      CatNoAlt(t, w, p, k);
    } else {
      var i :| 0 <= i < |w| && AltAt(t, w, p, i);
      var u, v := w[..i], w[i + 1..];
      if k < i {
        assert u[..k] == w[..k];
        CatNoAlt(t.l, u, p, k);
      } else if k > i {
        var k' := k - i - 1;
        CatShape(t.l, u, p);
        DepthPast(w, i, k);
        AfterAlt(t.r, v, p + Lits(u), k');
        assert v[k' + 1..] == w[k + 1..];
      } else {
        assert IsAlt(t.r, w[k + 1..], p + Lits(u));
      }
    }
  }

  // ---------- the tree is unique ----------

  lemma {:induction false} AtomUnique(t: Re, t': Re, w: seq<Token>, p: nat)
    requires IsAtom(t, w, p) && IsAtom(t', w, p)
    ensures t == t'
    decreases |w|, 0
  {
    if |w| > 1 { AltUnique(t, t', w[1..|w| - 1], p); }
  }

  lemma {:induction false} PostUnique(t: Re, t': Re, w: seq<Token>, p: nat)
    requires IsPost(t, w, p) && IsPost(t', w, p)
    ensures t == t'
    decreases |w|, 1
  {
    if w[|w| - 1] == OpStar || w[|w| - 1] == OpOpt {
      PostUnique(t.sub, t'.sub, w[..|w| - 1], p);
    } else {
      AtomUnique(t, t', w, p);
    }
  }

  /** Outside parentheses a new operand begins where a concatenation is split. */
  lemma SplitBegins(t: Re, w: seq<Token>, p: nat, i: int)
    requires t.Cat? && 0 < i < |w| && CatAt(t, w, p, i)
    ensures Depth(w[..i]) == 0 && Begin(w[i])
  {
    CatShape(t.l, w[..i], p);
    PostShape(t.r, w[i..], p + Lits(w[..i]));
  }

  /** So no single operand goes across that place. */
  lemma SplitInside(w: seq<Token>, i: nat, lo: nat, t: Re, p: nat)
    requires lo < i < |w| && Depth(w[..lo]) == 0 && Depth(w[..i]) == 0 && Begin(w[i])
    ensures !IsPost(t, w[lo..], p)
  {
    var u := w[lo..];
    DepthSplit(w, lo, i);
    if IsPost(t, u, p) { PostInside(t, u, p, i - lo); }
  }

  lemma {:induction false} CatUnique(t: Re, t': Re, w: seq<Token>, p: nat)
    requires IsCat(t, w, p) && IsCat(t', w, p)
    ensures t == t'
    decreases |w|, 2
  {
    assert w[..0] == [] && w[0..] == w;
    if IsPost(t, w, p) && IsPost(t', w, p) {
      PostUnique(t, t', w, p);
    } else if IsPost(t, w, p) {
      var j :| 0 < j < |w| && CatAt(t', w, p, j);
      SplitBegins(t', w, p, j);
      SplitInside(w, j, 0, t, p);
    } else if IsPost(t', w, p) {
      var i :| 0 < i < |w| && CatAt(t, w, p, i);
      SplitBegins(t, w, p, i);
      SplitInside(w, i, 0, t', p);
    } else {
      var i :| 0 < i < |w| && CatAt(t, w, p, i);
      var j :| 0 < j < |w| && CatAt(t', w, p, j);
      SplitBegins(t, w, p, i);
      SplitBegins(t', w, p, j);
      if i < j {
        SplitInside(w, j, i, t.r, p + Lits(w[..i]));
      } else if j < i {
        SplitInside(w, i, j, t'.r, p + Lits(w[..j]));
      } else {
        CatUnique(t.l, t'.l, w[..i], p);
        PostUnique(t.r, t'.r, w[i..], p + Lits(w[..i]));
      }
    }
  }

  /** No token string has two trees. */
  lemma {:induction false} AltUnique(t: Re, t': Re, w: seq<Token>, p: nat)
    requires IsAlt(t, w, p) && IsAlt(t', w, p)
    ensures t == t'
    decreases |w|, 3
  {
    if IsCat(t, w, p) && IsCat(t', w, p) {
      CatUnique(t, t', w, p);
    } else if IsCat(t, w, p) {
      var j :| 0 <= j < |w| && AltAt(t', w, p, j);
      CatShape(t'.l, w[..j], p);
      CatNoAlt(t, w, p, j);
    } else if IsCat(t', w, p) {
      var i :| 0 <= i < |w| && AltAt(t, w, p, i);
      CatShape(t.l, w[..i], p);
      CatNoAlt(t', w, p, i);
    } else {
      var i :| 0 <= i < |w| && AltAt(t, w, p, i);
      var j :| 0 <= j < |w| && AltAt(t', w, p, j);
      CatShape(t.l, w[..i], p);
      CatShape(t'.l, w[..j], p);
      if i < j {
        assert w[..j][..i] == w[..i];
        CatNoAlt(t'.l, w[..j], p, i);
      } else if j < i {
        assert w[..i][..j] == w[..j];
        CatNoAlt(t.l, w[..i], p, j);
      } else {
        CatUnique(t.l, t'.l, w[..i], p);
        AltUnique(t.r, t'.r, w[i + 1..], p + Lits(w[..i]));
      }
    }
  }

  // ---------- where a tree can end, and when there is none ----------

  /** Where an expression ends: before a right parenthesis, or at the end of the string. */
  predicate EndAt(toks: seq<Token>, paren: bool, n: nat) {
    if paren then n < |toks| && toks[n] == RParen else n == |toks|
  }

  /** No expression from `a` on ends where it should. */
  ghost predicate Fails(toks: seq<Token>, a: nat, paren: bool) {
    forall n :: a <= n <= |toks| && EndAt(toks, paren, n) ==> !Derivable(toks[a..n])
  }

  lemma DerivableWord(w: seq<Token>)
    requires Derivable(w)
    ensures Word(w)
  {
    var t, p :| IsAlt(t, w, p);
    AltShape(t, w, p);
  }

  /** A right parenthesis without a left one. */
  lemma Unmatched(toks: seq<Token>, a: nat, n: nat, m: nat)
    requires a <= n < m <= |toks| && toks[n] == RParen && Balanced(toks[a..n])
    ensures !Balanced(toks[a..m])
  {
    var w, k := toks[a..m], n + 1 - a;
    assert w[..k] == toks[a..n] + [RParen];
    DepthConcat(toks[a..n], [RParen]);
    One(RParen);
    assert Depth(w[..k]) < 0;
  }

  /** An expression goes on at least as far as balanced tokens do. */
  lemma EndsLater(toks: seq<Token>, a: nat, at: nat, paren: bool, n: nat)
    requires a <= at <= |toks| && Balanced(toks[a..at]) && a <= n <= |toks|
    requires EndAt(toks, paren, n) && Derivable(toks[a..n])
    ensures n >= at
  {
    if n < at {
      DerivableWord(toks[a..n]);
      Unmatched(toks, a, n, at);
    }
  }

  lemma FailsAtBad(toks: seq<Token>, a: nat, at: nat, paren: bool)
    requires a <= at < |toks| && Balanced(toks[a..at]) && toks[at] == Bad
    ensures Fails(toks, a, paren)
  {
    forall n | a <= n <= |toks| && EndAt(toks, paren, n) ensures !Derivable(toks[a..n]) {
      if Derivable(toks[a..n]) {
        EndsLater(toks, a, at, paren, n);
        if at < n { NoBad(toks, a, at, n); }
      }
    }
  }

  lemma NoBad(toks: seq<Token>, a: nat, at: nat, n: nat)
    requires a <= at < n <= |toks| && Derivable(toks[a..n])
    ensures toks[at] != Bad
  {
    DerivableWord(toks[a..n]);
    assert toks[a..n][at - a] == toks[at];
  }

  /** The wrong end. */
  lemma FailsAtEnd(toks: seq<Token>, a: nat, at: nat, paren: bool)
    requires a <= at <= |toks| && Balanced(toks[a..at]) && EndAt(toks, !paren, at)
    ensures Fails(toks, a, paren)
  {
    forall n | a <= n <= |toks| && EndAt(toks, paren, n) ensures !Derivable(toks[a..n]) {
      if Derivable(toks[a..n]) {
        EndsLater(toks, a, at, paren, n);
        DerivableWord(toks[a..n]);
        if !paren { Unmatched(toks, a, at, n); }
      }
    }
  }

  /** Nothing to begin with. */
  lemma FailsAtStart(toks: seq<Token>, a: nat, paren: bool)
    requires a <= |toks| && (a == |toks| || !Begin(toks[a]))
    ensures Fails(toks, a, paren)
  {
    forall n | a <= n <= |toks| && EndAt(toks, paren, n) ensures !Derivable(toks[a..n]) {
      if Derivable(toks[a..n]) { DerivableWord(toks[a..n]); }
    }
  }

  /** What is in parentheses has no tree. */
  lemma FailsInside(toks: seq<Token>, a: nat, at: nat, paren: bool)
    requires a <= at < |toks| && Balanced(toks[a..at]) && toks[at] == LParen && Fails(toks, at + 1, true)
    ensures Fails(toks, a, paren)
  {
    forall n | a <= n <= |toks| && EndAt(toks, paren, n) ensures !Derivable(toks[a..n]) {
      if Derivable(toks[a..n]) {
        EndsLater(toks, a, at, paren, n);
        Inside(toks, a, at, n);
      }
    }
  }

  lemma Inside(toks: seq<Token>, a: nat, at: nat, n: nat)
    requires a <= at < n <= |toks| && Derivable(toks[a..n]) && toks[at] == LParen
    ensures !Fails(toks, at + 1, true)
  {
    var w, k := toks[a..n], at - a;
    DerivableWord(w);
    assert w[k] == LParen;
    var m :| ClosedAt(w, k, m);
    var n' := a + m;
    SliceSlice(toks, a, n, k + 1, m);
    assert at + 1 <= n' <= |toks| && EndAt(toks, true, n') && Derivable(toks[at + 1..n']);
  }

  /** What follows the alternation sign has no tree. */
  lemma FailsAfterAlt(toks: seq<Token>, a: nat, at: nat, paren: bool)
    requires a <= at < |toks| && Balanced(toks[a..at]) && toks[at] == OpAlt && Fails(toks, at + 1, paren)
    ensures Fails(toks, a, paren)
  {
    forall n | a <= n <= |toks| && EndAt(toks, paren, n) ensures !Derivable(toks[a..n]) {
      if Derivable(toks[a..n]) {
        EndsLater(toks, a, at, paren, n);
        PastAlt(toks, a, at, n);
      }
    }
  }

  lemma PastAlt(toks: seq<Token>, a: nat, at: nat, n: nat)
    requires a <= at < n <= |toks| && Derivable(toks[a..n]) && toks[at] == OpAlt && Balanced(toks[a..at])
    ensures Derivable(toks[at + 1..n])
  {
    var w, k := toks[a..n], at - a;
    var t, p :| IsAlt(t, w, p);
    assert w[k] == OpAlt && w[..k] == toks[a..at];
    AfterAlt(t, w, p, k);
    assert w[k + 1..] == toks[at + 1..n];
  }
}
