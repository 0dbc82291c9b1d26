/**
 What single leaves match in bin/awk/b.c, in numbers: a character, a class, a negated class, `.`,
 `^` (character 256 in front of the text) and `$` (character 0 behind it).
 */
module AwkLeaves {
  import opened Positions
  import opened AwkRuns
  import opened AwkCalls
  import opened AwkMatch

  // ---------- match ----------

  /** A leaf other than an empty class matches exactly if it accepts a character of 256 text 0. */
  lemma LeafMatches(p: nat, y: Sym, text: seq<int>)
    requires y != Ccl({})
    ensures Matches(Leaf(p, y), text) <==> exists i :: 0 <= i < |text| + 2 && In(false, Leaf(p, y), [Framed(text)[i]])
  {
    var f := Framed(text);
    if Matches(Leaf(p, y), text) {
      var i: nat, j: nat :| i <= j <= |text| + 2 && In(false, Leaf(p, y), f[i..j]);
      assert f[i..j] == [f[i]];
    }
    if i :| 0 <= i < |text| + 2 && In(false, Leaf(p, y), [f[i]]) {
      assert f[i..i + 1] == [f[i]];
    }
  }

  /** What stands at each place of 256 text 0. */
  lemma FramedAt(text: seq<int>, i: nat)
    requires i < |text| + 2
    ensures Framed(text)[i] == if i == 0 then 256 else if i == |text| + 1 then 0 else text[i - 1]
  {
  }

  /** Characters of C strings: neither 0 nor 256. */
  predicate Plain(cs: set<int>) { 0 !in cs && 256 !in cs }

  /** A leaf that accepts exactly the characters of the text in `cs` and nothing else. */
  lemma OnlyInside(p: nat, y: Sym, text: seq<int>, cs: set<int>)
    requires y != Ccl({}) && IsText(text)
    requires !In(false, Leaf(p, y), [256]) && !In(false, Leaf(p, y), [0])
    requires forall i :: 0 <= i < |text| ==> (In(false, Leaf(p, y), [text[i]]) <==> text[i] in cs)
    ensures Matches(Leaf(p, y), text) <==> exists i :: 0 <= i < |text| && text[i] in cs
  {
    LeafMatches(p, y, text);
    var f := Framed(text);
    if Matches(Leaf(p, y), text) {
      var i :| 0 <= i < |text| + 2 && In(false, Leaf(p, y), [f[i]]);
      FramedAt(text, i);
      assert text[i - 1] in cs;
    }
    if i :| 0 <= i < |text| && text[i] in cs {
      FramedAt(text, i + 1);
      assert In(false, Leaf(p, y), [f[i + 1]]);
    }
  }

  /** [abc] matches a text exactly if one of its characters is in the class. */
  lemma ClassMatches(p: nat, cs: set<int>, text: seq<int>)
    requires Plain(cs) && cs != {} && IsText(text)
    ensures Matches(Leaf(p, Ccl(cs)), text) <==> exists i :: 0 <= i < |text| && text[i] in cs
  {
    OnlyInside(p, Ccl(cs), text, cs);
  }

  /** [^abc] matches a text exactly if one of its characters is not in the class. */
  lemma NotClassMatches(p: nat, cs: set<int>, text: seq<int>)
    requires Plain(cs) && IsText(text)
    ensures Matches(Leaf(p, Nccl(cs)), text) <==> exists i :: 0 <= i < |text| && text[i] !in cs
  {
    OnlyInside(p, Nccl(cs), text, set c | c in text && c !in cs);
  }

  /** . matches every text but the empty one. */
  lemma DotMatches(p: nat, text: seq<int>)
    requires IsText(text)
    ensures Matches(Leaf(p, Dot), text) <==> text != []
  {
    OnlyInside(p, Dot, text, set c | c in text);
    if text != [] { assert text[0] in text; }
  }

  /** A character matches exactly if it occurs. */
  lemma CharMatches(p: nat, c: int, text: seq<int>)
    requires 0 < c < 256 && IsText(text)
    ensures Matches(Leaf(p, Chr(c)), text) <==> c in text
  {
    OnlyInside(p, Chr(c), text, {c});
  }

  /** ^ and $ match every text, and so does an empty class. */
  lemma EndsMatch(p: nat, text: seq<int>)
    ensures Matches(Leaf(p, Chr(256)), text) && Matches(Leaf(p, Chr(0)), text) && Matches(Leaf(p, Ccl({})), text)
  {
    var f := Framed(text);
    assert f[0..1] == [256] && f[|text| + 1..|text| + 2] == [0] && f[0..0] == [];
  }

  // ---------- pmatch ----------

  /** There is only one best outcome. */
  lemma BestUnique(pat: Re, text: seq<int>, hat: bool, least: int, o: Outcome, o': Outcome)
    requires IsBest(pat, text, hat, least, o) && IsBest(pat, text, hat, least, o')
    ensures o == o'
  {
  }

  /** ^ is found at the beginning, with length 0. */
  lemma CaretPlace(p: nat, text: seq<int>, o: Outcome)
    requires IsText(text)
    ensures IsBest(Leaf(p, Chr(256)), text, true, -1, o) <==> o == Found(0, 0)
  {
    var pat := Leaf(p, Chr(256));
    assert text[0..0] == [] && [256] + [] == [256];
    assert InAtStart(pat, text[0..0]);
    assert MatchesAt(pat, text, true, 0, 0);
    forall k: nat | MatchesAt(pat, text, true, 0, k) ensures k == 0 { CaretOnly(p, text, k); }
    if IsBest(pat, text, true, -1, o) { BestUnique(pat, text, true, -1, o, Found(0, 0)); }
  }

  lemma CaretOnly(p: nat, text: seq<int>, k: nat)
    requires IsText(text) && MatchesAt(Leaf(p, Chr(256)), text, true, 0, k)
    ensures k == 0
  {
    var u, v := text[0..k], text[0..] + [NUL];
    CaretWords(p, u);
    CaretWords(p, v);
    assert 256 !in u && 256 !in v && v != [];
    assert |u| == k;
  }

  /** The words of ^ where the 256 in front may have been consumed. */
  lemma CaretWords(p: nat, w: seq<int>)
    ensures InAtStart(Leaf(p, Chr(256)), w) <==> w == [256] || w == []
  {
    assert |[HAT] + w| == |w| + 1 && ([HAT] + w)[0] == 256;
  }

  /** $ is found at the end, with length 0. */
  lemma DollarPlace(p: nat, text: seq<int>, o: Outcome)
    requires IsText(text)
    ensures IsBest(Leaf(p, Chr(0)), text, true, -1, o) <==> o == Found(|text|, 0)
  {
    var pat := Leaf(p, Chr(0));
    assert text[|text|..] + [NUL] == [0];
    assert MatchesAt(pat, text, true, |text|, 0);
    forall i: nat, k: nat | MatchesAt(pat, text, true, i, k) ensures i == |text| && k == 0 {
      DollarOnly(p, text, i, k);
    }
    if IsBest(pat, text, true, -1, o) { BestUnique(pat, text, true, -1, o, Found(|text|, 0)); }
  }

  lemma DollarOnly(p: nat, text: seq<int>, i: nat, k: nat)
    requires IsText(text) && MatchesAt(Leaf(p, Chr(0)), text, true, i, k)
    ensures i == |text| && k == 0
  {
    var u, v := text[i..i + k], text[i..] + [NUL];
    DollarWords(p, u);
    DollarWords(p, v);
    assert 0 !in u && |v| == |text| - i + 1;
  }

  lemma DollarWords(p: nat, w: seq<int>)
    ensures In(false, Leaf(p, Chr(0)), w) <==> w == [0]
    ensures InAtStart(Leaf(p, Chr(0)), w) <==> w == [0]
  {
    assert ([HAT] + w)[0] == 256;
  }

  /** The first character of the text in `cs` is at index `i`. */
  predicate FirstIn(text: seq<int>, cs: set<int>, i: nat) {
    i < |text| && text[i] in cs && forall j :: 0 <= j < i ==> text[j] !in cs
  }

  /** A class is found at the first character that is in it, with length 1. */
  lemma ClassPlace(p: nat, cs: set<int>, text: seq<int>, i: nat, o: Outcome)
    requires Plain(cs) && cs != {} && IsText(text) && FirstIn(text, cs, i)
    ensures IsBest(Leaf(p, Ccl(cs)), text, true, -1, o) <==> o == Found(i, 1)
  {
    var pat := Leaf(p, Ccl(cs));
    assert text[i..i + 1] == [text[i]];
    assert MatchesAt(pat, text, true, i, 1);
    forall j: nat, k: nat | MatchesAt(pat, text, true, j, k) ensures j < |text| && k == 1 && text[j] in cs {
      ClassOnly(p, cs, text, j, k);
    }
    if IsBest(pat, text, true, -1, o) { BestUnique(pat, text, true, -1, o, Found(i, 1)); }
  }

  lemma ClassOnly(p: nat, cs: set<int>, text: seq<int>, j: nat, k: nat)
    requires Plain(cs) && cs != {} && IsText(text) && MatchesAt(Leaf(p, Ccl(cs)), text, true, j, k)
    ensures j < |text| && k == 1 && text[j] in cs
  {
    var u, v := text[j..j + k], text[j..] + [NUL];
    NoHatInClass(p, cs, u);
    NoHatInClass(p, cs, v);
    assert v[|v| - 1] == 0 && |u| == k;
    assert k > 0 ==> u[0] == text[j];
  }

  lemma NoHatInClass(p: nat, cs: set<int>, w: seq<int>)
    requires Plain(cs) && cs != {}
    ensures InAtStart(Leaf(p, Ccl(cs)), w) <==> In(false, Leaf(p, Ccl(cs)), w)
  {
    assert ([HAT] + w)[0] == 256;
  }
}
