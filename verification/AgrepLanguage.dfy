/**
 The languages of agrep's token strings (bin/agrep/parse.c): what each way to build a longer
 expression does to the words.
 */
module AgrepLanguage {
  import opened Positions
  import opened AgrepSyntax
  import opened Repetition

  /** The words of a literal character. */
  lemma CharLanguage(c: int, u: Re, p: nat, s: seq<int>)
    requires IsAlt(u, [Lit(Chr(c))], p)
    ensures In(false, u, s) <==> s == [c]
  {
    var w := [Lit(Chr(c))];
    assert IsAtom(Leaf(p, Chr(c)), w, p);
    AltUnique(u, Leaf(p, Chr(c)), w, p);
  }

  /** An operator at the end was applied last. */
  lemma OpLast(t: Re, w: seq<Token>, x: Token, u: Re, p: nat)
    requires (x == OpStar || x == OpOpt) && IsPost(t, w, p) && IsPost(u, w + [x], p)
    ensures (if x == OpStar then u.Star? else u.Quest?) && u.sub == t
  {
    var v := w + [x];
    assert v[..|v| - 1] == w && v[|v| - 1] == x;
    PostUnique(u.sub, t, w, p);
  }

  /** A star stands for any number of words one after the other. */
  lemma StarLanguage(t: Re, w: seq<Token>, u: Re, p: nat, s: seq<int>)
    requires IsPost(t, w, p) && IsPost(u, w + [OpStar], p)
    ensures In(false, u, s) <==> exists ws :: Flat(ws) == s && AllIn(t, ws)
  {
    OpLast(t, w, OpStar, u, p);
    StarIff(t, s);
  }

  /** A question mark adds the empty word. */
  lemma OptLanguage(t: Re, w: seq<Token>, u: Re, p: nat, s: seq<int>)
    requires IsPost(t, w, p) && IsPost(u, w + [OpOpt], p)
    ensures In(false, u, s) <==> s == [] || In(false, t, s)
  {
    OpLast(t, w, OpOpt, u, p);
  }

  /** Parentheses change nothing. */
  lemma GroupLanguage(t: Re, w: seq<Token>, u: Re, p: nat, s: seq<int>)
    requires IsAlt(t, w, p) && IsAlt(u, [LParen] + w + [RParen], p)
    ensures In(false, u, s) <==> In(false, t, s)
  {
    var v := [LParen] + w + [RParen];
    assert v[1..|v| - 1] == w && v[0] == LParen && v[|v| - 1] == RParen;
    assert IsAtom(t, v, p);
    AltUnique(u, t, v, p);
  }

  /** Operands one after the other: words one after the other. */
  lemma ThenLanguage(t: Re, w: seq<Token>, u: Re, v: seq<Token>, z: Re, p: nat, s: seq<int>)
    requires IsCat(t, w, p) && IsPost(u, v, p + Lits(w)) && IsCat(z, w + v, p)
    ensures In(false, z, s) <==> exists i: nat :: i <= |s| && In(false, t, s[..i]) && In(false, u, s[i..])
  {
    CatShape(t, w, p);
    PostShape(u, v, p + Lits(w));
    assert (w + v)[..|w|] == w && (w + v)[|w|..] == v;
    assert CatAt(Cat(t, u), w + v, p, |w|);
    CatUnique(z, Cat(t, u), w + v, p);
  }

  /** An alternation sign: the words of both sides. */
  lemma BarLanguage(t: Re, w: seq<Token>, u: Re, v: seq<Token>, z: Re, p: nat, s: seq<int>)
    requires IsCat(t, w, p) && IsAlt(u, v, p + Lits(w)) && IsAlt(z, w + [OpAlt] + v, p)
    ensures In(false, z, s) <==> In(false, t, s) || In(false, u, s)
  {
    var all := w + [OpAlt] + v;
    assert all[..|w|] == w && all[|w|] == OpAlt && all[|w| + 1..] == v;
    assert AltAt(Or(t, u), all, p, |w|);
    AltUnique(z, Or(t, u), all, p);
  }
}
