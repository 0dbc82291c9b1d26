/**
 The language of a token string, stated over tokens and words without trees, and that the trees
 bin/awk/b.c builds denote it.
 */
module AwkLanguage {
  import opened Positions
  import opened AwkRuns
  import opened AwkSyntax
  import opened Repetition

  // ---------- which token strings are expressions ----------

  ghost predicate AtomForm(w: seq<Token>)
    decreases |w|, 0
  {
    || (|w| == 1 && w[0].Atom?) || w == [Caret] || w == [Open, Close]
    || (|w| >= 2 && w[0] == Open && w[|w| - 1] == Close && AltForm(w[1..|w| - 1]))
  }

  ghost predicate PostForm(w: seq<Token>)
    decreases |w|, 1
  {
    AtomForm(w) || (|w| >= 1 && w[|w| - 1] in {StarTok, PlusTok, QuestTok} && PostForm(w[..|w| - 1]))
  }

  ghost predicate CatForm(w: seq<Token>)
    decreases |w|, 2
  {
    PostForm(w) || exists i :: 0 < i < |w| && CatFormAt(w, i)
  }

  ghost predicate CatFormAt(w: seq<Token>, i: int)
    requires 0 < i < |w|
    decreases |w|, 0
  {
    w[i] != Caret && CatForm(w[..i]) && PostForm(w[i..])
  }

  ghost predicate AltForm(w: seq<Token>)
    decreases |w|, 3
  {
    CatForm(w) || exists i :: 0 <= i < |w| && AltFormAt(w, i)
  }

  ghost predicate AltFormAt(w: seq<Token>, i: int)
    requires 0 <= i < |w|
    decreases |w|, 0
  {
    w[i] == Bar && AltForm(w[..i]) && CatForm(w[i + 1..])
  }

  // ---------- their words ----------

  /** The words of a symbol; 256 stands in front of the text and 0 behind it. */
  predicate SymWord(y: Sym, s: seq<int>) {
    match y
    case Chr(c) => s == [c]
    case Dot => |s| == 1 && s[0] != 0 && s[0] != 256
    case All => |s| == 1 && s[0] != 0
    case Ccl(cs) => if cs == {} then s == [] else |s| == 1 && s[0] in cs
    case Nccl(cs) => |s| == 1 && s[0] !in cs && s[0] != 0 && s[0] != 256
    case Final => false
  }

  ghost predicate AtomWord(w: seq<Token>, s: seq<int>)
    decreases |w|, 0
  {
    || (|w| == 1 && w[0].Atom? && SymWord(w[0].y, s))
    || (w == [Caret] && s == [256])
    || (w == [Open, Close] && s == [])
    || (|w| >= 2 && w[0] == Open && w[|w| - 1] == Close && AltWord(w[1..|w| - 1], s))
  }

  /** A star stands for any number of words, a plus for one or more, a question mark for one or the empty word. */
  ghost predicate PostWord(w: seq<Token>, s: seq<int>)
    decreases |w|, 2
  {
    AtomWord(w, s) || (|w| >= 1 && PostForm(w[..|w| - 1]) && OpWord(w, s))
  }

  ghost predicate OpWord(w: seq<Token>, s: seq<int>)
    requires |w| >= 1
    decreases |w|, 1
  {
    var v, x := w[..|w| - 1], w[|w| - 1];
    || (x == StarTok && exists ws :: Flat(ws) == s && AllWords(v, ws))
    || (x == PlusTok && exists ws :: |ws| >= 1 && Flat(ws) == s && AllWords(v, ws))
    || (x == QuestTok && (s == [] || PostWord(v, s)))
  }

  ghost predicate AllWords(w: seq<Token>, ws: seq<seq<int>>)
    decreases |w|, 3
  {
    forall i :: 0 <= i < |ws| ==> PostWord(w, ws[i])
  }

  ghost predicate CatWord(w: seq<Token>, s: seq<int>)
    decreases |w|, 4
  {
    PostWord(w, s) || exists i, j :: 0 < i < |w| && 0 <= j <= |s| && CatWordAt(w, s, i, j)
  }

  ghost predicate CatWordAt(w: seq<Token>, s: seq<int>, i: int, j: int)
    requires 0 < i < |w| && 0 <= j <= |s|
    decreases |w|, 0
  {
    w[i] != Caret && CatWord(w[..i], s[..j]) && PostWord(w[i..], s[j..])
  }

  ghost predicate AltWord(w: seq<Token>, s: seq<int>)
    decreases |w|, 5
  {
    CatWord(w, s) || exists i :: 0 <= i < |w| && AltWordAt(w, s, i)
  }

  ghost predicate AltWordAt(w: seq<Token>, s: seq<int>, i: int)
    requires 0 <= i < |w|
    decreases |w|, 0
  {
    AltFormAt(w, i) && (AltWord(w[..i], s) || CatWord(w[i + 1..], s))
  }

  // ---------- forms and trees ----------

  lemma {:induction false} AtomTree(w: seq<Token>, p: nat) returns (t: Re)
    requires AtomForm(w)
    ensures IsAtom(t, w, p)
    decreases |w|, 0
  {
    if |w| == 1 && w[0].Atom? {
      t := Leaf(p, w[0].y);
    } else if w == [Caret] {
      t := Leaf(p, Chr(HAT));
    } else if w == [Open, Close] {
      t := Nothing(p);
    } else {
      t := AltTree(w[1..|w| - 1], p);
    }
  }

  lemma {:induction false} PostTree(w: seq<Token>, p: nat) returns (t: Re)
    requires PostForm(w)
    ensures IsPost(t, w, p)
    decreases |w|, 1
  {
    if AtomForm(w) {
      t := AtomTree(w, p);
    } else {
      var u := PostTree(w[..|w| - 1], p);
      t := Apply(w[|w| - 1], u);
    }
  }

  lemma {:induction false} CatTree(w: seq<Token>, p: nat) returns (t: Re)
    requires CatForm(w)
    ensures IsCat(t, w, p)
    decreases |w|, 2
  {
    if PostForm(w) {
      t := PostTree(w, p);
    } else {
      var i :| 0 < i < |w| && CatFormAt(w, i);
      var l := CatTree(w[..i], p);
      var r := PostTree(w[i..], p + Leaves(l));
      t := Cat(l, r);
      assert CatAt(t, w, p, i);
    }
  }

  lemma {:induction false} AltTree(w: seq<Token>, p: nat) returns (t: Re)
    requires AltForm(w)
    ensures IsAlt(t, w, p)
    decreases |w|, 3
  {
    if CatForm(w) {
      t := CatTree(w, p);
    } else {
      var i :| 0 <= i < |w| && AltFormAt(w, i);
      var l := AltTree(w[..i], p);
      var r := CatTree(w[i + 1..], p + Leaves(l));
      t := Or(l, r);
      assert AltAt(t, w, p, i);
    }
  }

  lemma {:induction false} AtomHasForm(t: Re, w: seq<Token>, p: nat)
    requires IsAtom(t, w, p)
    ensures AtomForm(w)
    decreases |w|, 0
  {
    if |w| >= 2 && w != [Open, Close] { AltHasForm(t, w[1..|w| - 1], p); }
  }

  lemma {:induction false} PostHasForm(t: Re, w: seq<Token>, p: nat)
    requires IsPost(t, w, p)
    ensures PostForm(w)
    decreases |w|, 1
  {
    if IsAtom(t, w, p) { AtomHasForm(t, w, p); } else { PostHasForm(t.sub, w[..|w| - 1], p); }
  }

  lemma {:induction false} CatHasForm(t: Re, w: seq<Token>, p: nat)
    requires IsCat(t, w, p)
    ensures CatForm(w)
    decreases |w|, 2
  {
    if IsPost(t, w, p) {
      PostHasForm(t, w, p);
    } else {
      var i :| 0 < i < |w| && CatAt(t, w, p, i);
      CatHasForm(t.l, w[..i], p);
      PostHasForm(t.r, w[i..], p + Leaves(t.l));
      assert CatFormAt(w, i);
    }
  }

  lemma {:induction false} AltHasForm(t: Re, w: seq<Token>, p: nat)
    requires IsAlt(t, w, p)
    ensures AltForm(w)
    decreases |w|, 3
  {
    if IsCat(t, w, p) {
      CatHasForm(t, w, p);
    } else {
      var i :| 0 <= i < |w| && AltAt(t, w, p, i);
      AltHasForm(t.l, w[..i], p);
      CatHasForm(t.r, w[i + 1..], p + Leaves(t.l));
      assert AltFormAt(w, i);
    }
  }

  // ---------- words belong to expressions ----------

  lemma {:induction false} AtomWordForm(w: seq<Token>, s: seq<int>)
    requires AtomWord(w, s)
    ensures AtomForm(w)
    decreases |w|, 0
  {
    if !AtomForm(w) { AltWordForm(w[1..|w| - 1], s); }
  }

  lemma {:induction false} PostWordForm(w: seq<Token>, s: seq<int>)
    requires PostWord(w, s)
    ensures PostForm(w)
    decreases |w|, 1
  {
    if AtomWord(w, s) { AtomWordForm(w, s); }
  }

  lemma {:induction false} CatWordForm(w: seq<Token>, s: seq<int>)
    requires CatWord(w, s)
    ensures CatForm(w)
    decreases |w|, 2
  {
    if PostWord(w, s) {
      PostWordForm(w, s);
    } else {
      var i, j :| 0 < i < |w| && 0 <= j <= |s| && CatWordAt(w, s, i, j);
      CatWordForm(w[..i], s[..j]);
      PostWordForm(w[i..], s[j..]);
      assert CatFormAt(w, i);
    }
  }

  lemma {:induction false} AltWordForm(w: seq<Token>, s: seq<int>)
    requires AltWord(w, s)
    ensures AltForm(w)
    decreases |w|, 3
  {
    if CatWord(w, s) { CatWordForm(w, s); }
  }

  // ---------- trees are unique ----------

  lemma CatUnique(t: Re, u: Re, w: seq<Token>, p: nat)
    requires IsCat(t, w, p) && IsCat(u, w, p)
    ensures t == u
  {
    assert w[0..|w|] == w;
    CatParses(w, 0, |w|, t, p);
    CatParses(w, 0, |w|, u, p);
  }

  lemma AltUnique(t: Re, u: Re, w: seq<Token>, p: nat)
    requires IsAlt(t, w, p) && IsAlt(u, w, p)
    ensures t == u
  {
    assert w[0..|w|] == w;
    AltParses(w, 0, |w|, t, p);
    AltParses(w, 0, |w|, u, p);
  }

  // ---------- the tree denotes the language ----------

  lemma LeafWords(p: nat, y: Sym, s: seq<int>)
    ensures In(false, Leaf(p, y), s) <==> SymWord(y, s)
  {
  }

  lemma {:induction false} AtomIff(t: Re, w: seq<Token>, p: nat, s: seq<int>)
    requires IsAtom(t, w, p)
    ensures In(false, t, s) <==> AtomWord(w, s)
    decreases |w|, 0
  {
    if |w| == 1 {
      LeafWords(p, t.sym, s);
    } else if w == [Open, Close] {
      NoEmptyParens(t, w, p);
      LeafWords(p, Ccl({}), s);
      assert w[1..|w| - 1] == [];
      if AltWord([], s) { AltWordForm([], s); }
      NoEmptyForm();
    } else {
      AltIff(t, w[1..|w| - 1], p, s);
    }
  }

  lemma NoEmptyForm()
    ensures !AltForm([])
  {
  }

  /** The last token of an atom is no operator. */
  lemma AtomLast(w: seq<Token>)
    requires AtomForm(w)
    ensures |w| >= 1 && !IsOp(w[|w| - 1])
  {
  }

  lemma {:induction false} PostIff(t: Re, w: seq<Token>, p: nat, s: seq<int>)
    requires IsPost(t, w, p)
    ensures In(false, t, s) <==> PostWord(w, s)
    decreases |w|, 1
  {
    if IsAtom(t, w, p) {
      AtomHasForm(t, w, p);
      AtomLast(w);
      AtomIff(t, w, p, s);
    } else {
      if AtomWord(w, s) {
        AtomWordForm(w, s);
        AtomLast(w);
      }
      PostHasForm(t.sub, w[..|w| - 1], p);
      OpIff(t, w, p, s);
    }
  }

  lemma {:induction false} OpIff(t: Re, w: seq<Token>, p: nat, s: seq<int>)
    requires |w| >= 1 && IsOp(w[|w| - 1]) && IsOpOf(w[|w| - 1], t) && IsPost(t.sub, w[..|w| - 1], p)
    ensures In(false, t, s) <==> OpWord(w, s)
    decreases |w|, 0
  {
    var v := w[..|w| - 1];
    forall ws: seq<seq<int>> ensures AllIn(t.sub, ws) <==> AllWords(v, ws) {
      forall i | 0 <= i < |ws| ensures In(false, t.sub, ws[i]) <==> PostWord(v, ws[i]) { PostIff(t.sub, v, p, ws[i]); }
    }
    StarIff(t.sub, s);
    PlusIff(t.sub, s);
    PostIff(t.sub, v, p, s);
  }

  lemma {:induction false} CatIff(t: Re, w: seq<Token>, p: nat, s: seq<int>)
    requires IsCat(t, w, p)
    ensures In(false, t, s) <==> CatWord(w, s)
    decreases |w|, 4
  {
    if In(false, t, s) { CatHasWord(t, w, p, s); }
    if CatWord(w, s) { WordInCat(t, w, p, s); }
  }

  lemma {:induction false} CatHasWord(t: Re, w: seq<Token>, p: nat, s: seq<int>)
    requires IsCat(t, w, p) && In(false, t, s)
    ensures CatWord(w, s)
    decreases |w|, 3
  {
    if IsPost(t, w, p) {
      PostIff(t, w, p, s);
    } else {
      var i :| 0 < i < |w| && CatAt(t, w, p, i);
      var j: nat :| j <= |s| && In(false, t.l, s[..j]) && In(false, t.r, s[j..]);
      CatIff(t.l, w[..i], p, s[..j]);
      PostIff(t.r, w[i..], p + Leaves(t.l), s[j..]);
      assert CatWordAt(w, s, i, j);
    }
  }

  lemma {:induction false} WordInCat(t: Re, w: seq<Token>, p: nat, s: seq<int>)
    requires IsCat(t, w, p) && CatWord(w, s)
    ensures In(false, t, s)
    decreases |w|, 3
  {
    if PostWord(w, s) {
      PostWordForm(w, s);
      var u := PostTree(w, p);
      CatUnique(t, u, w, p);
      PostIff(u, w, p, s);
    } else {
      var i, j :| 0 < i < |w| && 0 <= j <= |s| && CatWordAt(w, s, i, j);
      CatWordForm(w[..i], s[..j]);
      PostWordForm(w[i..], s[j..]);
      var l := CatTree(w[..i], p);
      var r := PostTree(w[i..], p + Leaves(l));
      assert CatAt(Cat(l, r), w, p, i);
      CatUnique(t, Cat(l, r), w, p);
      CatIff(l, w[..i], p, s[..j]);
      PostIff(r, w[i..], p + Leaves(l), s[j..]);
    }
  }

  /** The tree of a token string denotes its language. */
  lemma {:induction false} AltIff(t: Re, w: seq<Token>, p: nat, s: seq<int>)
    requires IsAlt(t, w, p)
    ensures In(false, t, s) <==> AltWord(w, s)
    decreases |w|, 6
  {
    if In(false, t, s) { AltHasWord(t, w, p, s); }
    if AltWord(w, s) { WordInAlt(t, w, p, s); }
  }

  lemma {:induction false} AltHasWord(t: Re, w: seq<Token>, p: nat, s: seq<int>)
    requires IsAlt(t, w, p) && In(false, t, s)
    ensures AltWord(w, s)
    decreases |w|, 5
  {
    if IsCat(t, w, p) {
      CatIff(t, w, p, s);
    } else {
      var i :| 0 <= i < |w| && AltAt(t, w, p, i);
      AltHasForm(t.l, w[..i], p);
      CatHasForm(t.r, w[i + 1..], p + Leaves(t.l));
      AltIff(t.l, w[..i], p, s);
      CatIff(t.r, w[i + 1..], p + Leaves(t.l), s);
      assert AltWordAt(w, s, i);
    }
  }

  lemma {:induction false} WordInAlt(t: Re, w: seq<Token>, p: nat, s: seq<int>)
    requires IsAlt(t, w, p) && AltWord(w, s)
    ensures In(false, t, s)
    decreases |w|, 5
  {
    if CatWord(w, s) {
      CatWordForm(w, s);
      var u := CatTree(w, p);
      AltUnique(t, u, w, p);
      CatIff(u, w, p, s);
    } else {
      var i :| 0 <= i < |w| && AltWordAt(w, s, i);
      var l := AltTree(w[..i], p);
      var r := CatTree(w[i + 1..], p + Leaves(l));
      assert AltAt(Or(l, r), w, p, i);
      AltUnique(t, Or(l, r), w, p);
      AltIff(l, w[..i], p, s);
      CatIff(r, w[i + 1..], p + Leaves(l), s);
    }
  }

  /** So the parser's tree matches a text exactly if a factor of 256 text 0 is a word of the tokens. */
  lemma TokensMatch(toks: seq<Token>, t: Re, text: seq<int>)
    requires Reparse(toks) == Parsed(t, |toks|)
    ensures Matches(t, text) <==>
      exists i: nat, j: nat :: i <= j <= |text| + 2 && AltWord(toks, ([256] + text + [0])[i..j])
  {
    ReparseIff(toks, t);
    var f := Framed(text);
    assert f == [256] + text + [0];
    if i: nat, j: nat :| i <= j <= |text| + 2 && In(false, t, f[i..j]) { AltIff(t, toks, 1, f[i..j]); }
    if i: nat, j: nat :| i <= j <= |text| + 2 && AltWord(toks, f[i..j]) { AltIff(t, toks, 1, f[i..j]); }
  }

  /** A token string is parsed exactly if it is an expression. */
  lemma ParsedIff(toks: seq<Token>)
    ensures Reparse(toks).Parsed? <==> AltForm(toks)
  {
    if Reparse(toks).Parsed? {
      ReparseIff(toks, Reparse(toks).t);
      AltHasForm(Reparse(toks).t, toks, 1);
    }
    if AltForm(toks) {
      var t := AltTree(toks, 1);
      ReparseIff(toks, t);
    }
  }
}
