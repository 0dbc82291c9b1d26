/**
 awk's regular expressions as a grammar over tokens, and the recursive descent of bin/awk/b.c
 (`regexp`, `primary`, `concat`, `alt`, `unary`) as functions from the next token on.
 */
module AwkSyntax {
  import opened Slices
  import opened Positions

  /**
   What `relex` can return: a character, class or `$` is an atom; Unlexed is where it gives up.
   The end of the string is no token.
   */
  datatype Token = Atom(y: Sym) | Caret | Open | Close | StarTok | PlusTok | QuestTok | Bar | Unlexed

  predicate IsOp(x: Token) { x == StarTok || x == PlusTok || x == QuestTok }

  /** What `concat` goes on with; a `^` is not among it. */
  predicate GoesOn(x: Token) { x.Atom? || x == Open }

  /** The subtree `op2` makes for an operator. */
  function Apply(x: Token, t: Re): Re
    requires IsOp(x)
  {
    if x == StarTok then Star(t) else if x == PlusTok then Plus(t) else Quest(t)
  }

  /** What `()` stands for: an empty class, which matches the empty word. */
  function Nothing(p: nat): Re { Leaf(p, Ccl({})) }

  function Leaves(t: Re): nat {
    match t
    case Leaf(_, _) => 1
    case Cat(l, r) => Leaves(l) + Leaves(r)
    case Or(l, r) => Leaves(l) + Leaves(r)
    case _ => Leaves(t.sub)
  }

  // ---------- the grammar; leaves are numbered from `p` on, left to right ----------

  ghost predicate IsAtom(t: Re, w: seq<Token>, p: nat)
    decreases |w|, 0
  {
    || (|w| == 1 && w[0].Atom? && t == Leaf(p, w[0].y))
    || (w == [Caret] && t == Leaf(p, Chr(HAT)))
    || (w == [Open, Close] && t == Nothing(p))
    || (|w| >= 2 && w[0] == Open && w[|w| - 1] == Close && IsAlt(t, w[1..|w| - 1], p))
  }

  ghost predicate IsPost(t: Re, w: seq<Token>, p: nat)
    decreases |w|, 1
  {
    IsAtom(t, w, p) || (|w| >= 1 && IsOp(w[|w| - 1]) && IsOpOf(w[|w| - 1], t) && IsPost(t.sub, w[..|w| - 1], p))
  }

  /** The tree is the operator applied. */
  predicate IsOpOf(x: Token, t: Re)
    requires IsOp(x)
    ensures IsOpOf(x, t) ==> (t.Star? || t.Plus? || t.Quest?) && t == Apply(x, t.sub)
  {
    if x == StarTok then t.Star? else if x == PlusTok then t.Plus? else t.Quest?
  }

  /** Concatenation associates to the left, and no operand but the first begins with `^`. */
  ghost predicate IsCat(t: Re, w: seq<Token>, p: nat)
    decreases |w|, 2
  {
    IsPost(t, w, p) || (t.Cat? && exists i :: 0 < i < |w| && CatAt(t, w, p, i))
  }

  ghost predicate CatAt(t: Re, w: seq<Token>, p: nat, i: int)
    requires t.Cat? && 0 < i < |w|
    decreases |w|, 0
  {
    w[i] != Caret && IsCat(t.l, w[..i], p) && IsPost(t.r, w[i..], p + Leaves(t.l))
  }

  /** So does alternation. */
  ghost predicate IsAlt(t: Re, w: seq<Token>, p: nat)
    decreases |w|, 3
  {
    IsCat(t, w, p) || (t.Or? && exists i :: 0 <= i < |w| && AltAt(t, w, p, i))
  }

  ghost predicate AltAt(t: Re, w: seq<Token>, p: nat, i: int)
    requires t.Or? && 0 <= i < |w|
    decreases |w|, 0
  {
    w[i] == Bar && IsAlt(t.l, w[..i], p) && IsCat(t.r, w[i + 1..], p + Leaves(t.l))
  }

  // ---------- the parser ----------

  datatype Error = Empty | IllegalPrimary | SyntaxError | LexicalError

  datatype Parse = Parsed(t: Re, k: nat) | Failed(e: Error)

  /** The error at token `k`: that of `relex` if it could not read it. */
  function ErrorAt(toks: seq<Token>, k: nat, e: Error): Error {
    if k < |toks| && toks[k] == Unlexed then LexicalError else e
  }

  /** `regexp`. */
  function Regexp(toks: seq<Token>, k: nat, p: nat): (r: Parse)
    requires k <= |toks|
    ensures r.Parsed? ==> k < r.k <= |toks|
    decreases |toks| - k, 3
  {
    match Operands(toks, k, p)
    case Failed(e) => Failed(e)
    case Parsed(t, k') => Alt(toks, k', t, p + Leaves(t))
  }

  /** `concat(primary())`. */
  function Operands(toks: seq<Token>, k: nat, p: nat): (r: Parse)
    requires k <= |toks|
    ensures r.Parsed? ==> k < r.k <= |toks|
    decreases |toks| - k, 2
  {
    match Primary(toks, k, p)
    case Failed(e) => Failed(e)
    case Parsed(t, k') => Concat(toks, k', t, p + Leaves(t))
  }

  function Primary(toks: seq<Token>, k: nat, p: nat): (r: Parse)
    requires k <= |toks|
    ensures r.Parsed? ==> k < r.k <= |toks|
    decreases |toks| - k, 0
  {
    if k == |toks| then Failed(IllegalPrimary)
    else
      match toks[k]
      case Atom(y) => Unary(toks, k + 1, Leaf(p, y))
      case Caret => Unary(toks, k + 1, Leaf(p, Chr(HAT)))
      case Open =>
        if k + 1 < |toks| && toks[k + 1] == Close then Unary(toks, k + 2, Nothing(p)) else InParens(toks, k + 1, p)
      case _ => Failed(ErrorAt(toks, k, IllegalPrimary))
  }

  /** After a left parenthesis that is not closed at once. */
  function InParens(toks: seq<Token>, k: nat, p: nat): (r: Parse)
    requires k <= |toks|
    ensures r.Parsed? ==> k < r.k <= |toks|
    decreases |toks| - k, 4
  {
    match Regexp(toks, k, p)
    case Failed(e) => Failed(e)
    case Parsed(t, k') =>
      if k' < |toks| && toks[k'] == Close then Unary(toks, k' + 1, t) else Failed(ErrorAt(toks, k', SyntaxError))
  }

  /** `unary`, which cannot fail. */
  function Unary(toks: seq<Token>, k: nat, t: Re): (r: Parse)
    requires k <= |toks|
    ensures r.Parsed? && k <= r.k <= |toks|
    decreases |toks| - k
  {
    if k < |toks| && IsOp(toks[k]) then Unary(toks, k + 1, Apply(toks[k], t)) else Parsed(t, k)
  }

  function Concat(toks: seq<Token>, k: nat, t: Re, p: nat): (r: Parse)
    requires k <= |toks|
    ensures r.Parsed? ==> k <= r.k <= |toks|
    decreases |toks| - k, 1
  {
    if k < |toks| && GoesOn(toks[k]) then
      match Primary(toks, k, p)
      case Failed(e) => Failed(e)
      case Parsed(t', k') => Concat(toks, k', Cat(t, t'), p + Leaves(t'))
    else Parsed(t, k)
  }

  function Alt(toks: seq<Token>, k: nat, t: Re, p: nat): (r: Parse)
    requires k <= |toks|
    ensures r.Parsed? ==> k <= r.k <= |toks|
    decreases |toks| - k, 1
  {
    if k < |toks| && toks[k] == Bar then
      match Operands(toks, k + 1, p)
      case Failed(e) => Failed(e)
      case Parsed(t', k') => Alt(toks, k', Or(t, t'), p + Leaves(t'))
    else Parsed(t, k)
  }

  /** `reparse`; position 0 is left for what `mkdfa` puts in front. */
  function Reparse(toks: seq<Token>): Parse {
    if toks == [] then Failed(Empty)
    else
      match Regexp(toks, 0, 1)
      case Failed(e) => Failed(e)
      case Parsed(t, k) => if k == |toks| then Parsed(t, k) else Failed(ErrorAt(toks, k, SyntaxError))
  }

  // ---------- what is parsed has the tree ----------

  /** `w` is cut from the tokens at `a`, and its parts are too. */
  lemma Parts(toks: seq<Token>, a: nat, n: nat, i: nat)
    requires a <= n <= |toks| && i <= n - a
    ensures toks[a..n][..i] == toks[a..a + i] && toks[a..n][i..] == toks[a + i..n]
  {
    SliceSlice(toks, a, n, 0, i);
    SliceSlice(toks, a, n, i, n - a);
    var w := toks[a..n];
    assert w[..i] == w[0..i] && w[i..] == w[i..n - a];
  }

  lemma {:induction false} UnarySound(toks: seq<Token>, k: nat, t: Re, a: nat, p: nat)
    requires a <= k <= |toks| && IsPost(t, toks[a..k], p)
    ensures IsPost(Unary(toks, k, t).t, toks[a..Unary(toks, k, t).k], p)
    decreases |toks| - k
  {
    if k < |toks| && IsOp(toks[k]) {
      Applied(toks, k, t, a, p);
      UnarySound(toks, k + 1, Apply(toks[k], t), a, p);
    }
  }

  lemma Applied(toks: seq<Token>, k: nat, t: Re, a: nat, p: nat)
    requires a <= k < |toks| && IsOp(toks[k]) && IsPost(t, toks[a..k], p)
    ensures IsPost(Apply(toks[k], t), toks[a..k + 1], p)
  {
    var w := toks[a..k + 1];
    Parts(toks, a, k + 1, k - a);
    assert w[|w| - 1] == toks[k] && w[..|w| - 1] == toks[a..k];
  }

  lemma {:induction false} PrimarySound(toks: seq<Token>, k: nat, p: nat)
    requires k <= |toks| && Primary(toks, k, p).Parsed?
    ensures IsPost(Primary(toks, k, p).t, toks[k..Primary(toks, k, p).k], p)
    decreases |toks| - k, 0
  {
    match toks[k]
    case Atom(y) =>
      assert toks[k..k + 1] == [toks[k]];
      UnarySound(toks, k + 1, Leaf(p, y), k, p);
    case Caret =>
      assert toks[k..k + 1] == [Caret];
      UnarySound(toks, k + 1, Leaf(p, Chr(HAT)), k, p);
    case Open =>
      if k + 1 < |toks| && toks[k + 1] == Close {
        assert toks[k..k + 2] == [Open, Close];
        UnarySound(toks, k + 2, Nothing(p), k, p);
      } else {
        RegexpSound(toks, k + 1, p);
        var r := Regexp(toks, k + 1, p);
        Enclosed(toks, k, r.k, r.t, p);
        UnarySound(toks, r.k + 1, r.t, k, p);
      }
  }

  lemma Enclosed(toks: seq<Token>, k: nat, k': nat, t: Re, p: nat)
    requires k < k' < |toks| && toks[k] == Open && toks[k'] == Close && IsAlt(t, toks[k + 1..k'], p)
    ensures IsPost(t, toks[k..k' + 1], p)
  {
    var w := toks[k..k' + 1];
    SliceSlice(toks, k, k' + 1, 1, |w| - 1);
    assert w[1..|w| - 1] == toks[k + 1..k'] && w[0] == Open && w[|w| - 1] == Close;
    assert IsAtom(t, w, p);
  }

  lemma {:induction false} ConcatSound(toks: seq<Token>, k: nat, t: Re, a: nat, p: nat)
    requires a < k <= |toks| && IsCat(t, toks[a..k], p) && Concat(toks, k, t, p + Leaves(t)).Parsed?
    ensures var r := Concat(toks, k, t, p + Leaves(t)); IsCat(r.t, toks[a..r.k], p)
    decreases |toks| - k, 1
  {
    if k < |toks| && GoesOn(toks[k]) {
      var r := Primary(toks, k, p + Leaves(t));
      PrimarySound(toks, k, p + Leaves(t));
      OneOperandMore(toks, a, k, r.k, t, r.t, p);
      ConcatSound(toks, r.k, Cat(t, r.t), a, p);
    }
  }

  lemma OneOperandMore(toks: seq<Token>, a: nat, k: nat, n: nat, t: Re, u: Re, p: nat)
    requires a < k < n <= |toks| && toks[k] != Caret && IsCat(t, toks[a..k], p) && IsPost(u, toks[k..n], p + Leaves(t))
    ensures IsCat(Cat(t, u), toks[a..n], p)
  {
    Parts(toks, a, n, k - a);
    assert toks[a..n][k - a] == toks[k];
    assert CatAt(Cat(t, u), toks[a..n], p, k - a);
  }

  lemma {:induction false} OperandsSound(toks: seq<Token>, k: nat, p: nat)
    requires k <= |toks| && Operands(toks, k, p).Parsed?
    ensures IsCat(Operands(toks, k, p).t, toks[k..Operands(toks, k, p).k], p)
    decreases |toks| - k, 2
  {
    var r := Primary(toks, k, p);
    PrimarySound(toks, k, p);
    ConcatSound(toks, r.k, r.t, k, p);
  }

  lemma {:induction false} AltSound(toks: seq<Token>, k: nat, t: Re, a: nat, p: nat)
    requires a < k <= |toks| && IsAlt(t, toks[a..k], p) && Alt(toks, k, t, p + Leaves(t)).Parsed?
    ensures var r := Alt(toks, k, t, p + Leaves(t)); IsAlt(r.t, toks[a..r.k], p)
    decreases |toks| - k, 1
  {
    if k < |toks| && toks[k] == Bar {
      var r := Operands(toks, k + 1, p + Leaves(t));
      OperandsSound(toks, k + 1, p + Leaves(t));
      OneAlternativeMore(toks, a, k, r.k, t, r.t, p);
      AltSound(toks, r.k, Or(t, r.t), a, p);
    }
  }

  lemma OneAlternativeMore(toks: seq<Token>, a: nat, k: nat, n: nat, t: Re, u: Re, p: nat)
    requires a < k < n <= |toks| && toks[k] == Bar && IsAlt(t, toks[a..k], p) && IsCat(u, toks[k + 1..n], p + Leaves(t))
    ensures IsAlt(Or(t, u), toks[a..n], p)
  {
    Parts(toks, a, n, k - a);
    Parts(toks, a, n, k - a + 1);
    assert toks[a..n][k - a] == Bar;
    assert AltAt(Or(t, u), toks[a..n], p, k - a);
  }

  lemma {:induction false} RegexpSound(toks: seq<Token>, k: nat, p: nat)
    requires k <= |toks| && Regexp(toks, k, p).Parsed?
    ensures IsAlt(Regexp(toks, k, p).t, toks[k..Regexp(toks, k, p).k], p)
    decreases |toks| - k, 3
  {
    var r := Operands(toks, k, p);
    OperandsSound(toks, k, p);
    AltSound(toks, r.k, r.t, k, p);
  }

  // ---------- every tree is found ----------

  predicate Begins(w: seq<Token>) { w != [] && (w[0].Atom? || w[0] == Caret || w[0] == Open) }

  lemma {:induction false} PostBegins(t: Re, w: seq<Token>, p: nat)
    requires IsPost(t, w, p)
    ensures Begins(w)
    decreases |w|
  {
    if !IsAtom(t, w, p) { PostBegins(t.sub, w[..|w| - 1], p); }
  }

  lemma {:induction false} CatBegins(t: Re, w: seq<Token>, p: nat)
    requires IsCat(t, w, p)
    ensures Begins(w)
    decreases |w|
  {
    if IsPost(t, w, p) {
      PostBegins(t, w, p);
    } else {
      var i :| 0 < i < |w| && CatAt(t, w, p, i);
      CatBegins(t.l, w[..i], p);
    }
  }

  lemma {:induction false} AltBegins(t: Re, w: seq<Token>, p: nat)
    requires IsAlt(t, w, p)
    ensures Begins(w)
    decreases |w|
  {
    if IsCat(t, w, p) {
      CatBegins(t, w, p);
    } else {
      var i :| 0 <= i < |w| && AltAt(t, w, p, i);
      AltBegins(t.l, w[..i], p);
    }
  }

  /** No operator follows. */
  predicate OpsEnd(toks: seq<Token>, n: nat) { n < |toks| ==> !IsOp(toks[n]) }

  /** Nor anything `concat` goes on with. */
  predicate OperandsEnd(toks: seq<Token>, n: nat) { n < |toks| ==> !IsOp(toks[n]) && !GoesOn(toks[n]) }

  lemma UnaryEnds(toks: seq<Token>, n: nat, t: Re)
    requires n <= |toks| && OpsEnd(toks, n)
    ensures Unary(toks, n, t) == Parsed(t, n)
  {
  }

  /** One operand more. */
  lemma ConcatOn(toks: seq<Token>, k: nat, t: Re, p: nat, t': Re, k': nat)
    requires k < |toks| && GoesOn(toks[k]) && Primary(toks, k, p) == Parsed(t', k')
    ensures Concat(toks, k, t, p) == Concat(toks, k', Cat(t, t'), p + Leaves(t'))
  {
  }

  lemma ConcatEnds(toks: seq<Token>, n: nat, t: Re, p: nat)
    requires n <= |toks| && OperandsEnd(toks, n)
    ensures Concat(toks, n, t, p) == Parsed(t, n)
  {
  }

  /** One alternative more. */
  lemma AltOn(toks: seq<Token>, k: nat, t: Re, p: nat, t': Re, k': nat)
    requires k < |toks| && toks[k] == Bar && Operands(toks, k + 1, p) == Parsed(t', k')
    ensures Alt(toks, k, t, p) == Alt(toks, k', Or(t, t'), p + Leaves(t'))
  {
  }

  lemma ParensParse(toks: seq<Token>, k: nat, n: nat, t: Re, p: nat)
    requires k < n < |toks| && toks[n] == Close && Regexp(toks, k, p) == Alt(toks, n, t, p + Leaves(t))
    ensures InParens(toks, k, p) == Unary(toks, n + 1, t)
  {
    assert Alt(toks, n, t, p + Leaves(t)) == Parsed(t, n);
  }

  lemma {:induction false} AtomParses(toks: seq<Token>, k: nat, n: nat, t: Re, p: nat)
    requires k <= n <= |toks| && IsAtom(t, toks[k..n], p)
    ensures Primary(toks, k, p) == Unary(toks, n, t)
    decreases n - k, 0
  {
    var w := toks[k..n];
    assert w[0] == toks[k];
    if |w| > 1 {
      assert w[1] == toks[k + 1] && w[|w| - 1] == toks[n - 1];
      if w == [Open, Close] {
        NoEmptyParens(t, w, p);
      } else {
        SliceSlice(toks, k, n, 1, |w| - 1);
        GroupParses(toks, k, n, t, p);
      }
    }
  }

  lemma {:induction false} GroupParses(toks: seq<Token>, k: nat, n: nat, t: Re, p: nat)
    requires k + 1 < n <= |toks| && toks[k] == Open && toks[n - 1] == Close && IsAlt(t, toks[k + 1..n - 1], p)
    ensures Primary(toks, k, p) == Unary(toks, n, t)
    decreases n - k - 1, 6
  {
    NotClosed(toks, k + 1, n - 1, t, p);
    AltParses(toks, k + 1, n - 1, t, p);
    ParensParse(toks, k + 1, n - 1, t, p);
  }

  lemma NotClosed(toks: seq<Token>, k: nat, n: nat, t: Re, p: nat)
    requires k <= n <= |toks| && IsAlt(t, toks[k..n], p)
    ensures k < n && toks[k] != Close
  {
    AltBegins(t, toks[k..n], p);
    assert toks[k..n][0] == toks[k];
  }

  lemma NoEmptyParens(t: Re, w: seq<Token>, p: nat)
    requires IsAtom(t, w, p) && w == [Open, Close]
    ensures t == Nothing(p)
  {
    if t != Nothing(p) {
      assert w[1..|w| - 1] == [];
      AltBegins(t, [], p);
    }
  }

  lemma {:induction false} PostParses(toks: seq<Token>, k: nat, n: nat, t: Re, p: nat)
    requires k <= n <= |toks| && IsPost(t, toks[k..n], p)
    ensures Primary(toks, k, p) == Unary(toks, n, t)
    decreases n - k, 1
  {
    var w := toks[k..n];
    if IsAtom(t, w, p) {
      AtomParses(toks, k, n, t, p);
    } else {
      Parts(toks, k, n, |w| - 1);
      assert w[|w| - 1] == toks[n - 1];
      PostParses(toks, k, n - 1, t.sub, p);
    }
  }

  /** Where the last operand of a concatenation begins. */
  lemma CatSplit(toks: seq<Token>, k: nat, n: nat, t: Re, p: nat) returns (m: nat)
    requires k <= n <= |toks| && IsCat(t, toks[k..n], p) && !IsPost(t, toks[k..n], p)
    ensures k < m < n && GoesOn(toks[m]) && t.Cat?
    ensures IsCat(t.l, toks[k..m], p) && IsPost(t.r, toks[m..n], p + Leaves(t.l))
  {
    var w := toks[k..n];
    var i :| 0 < i < |w| && CatAt(t, w, p, i);
    m := k + i;
    Parts(toks, k, n, i);
    PostBegins(t.r, w[i..], p + Leaves(t.l));
    assert w[i..][0] == w[i] == toks[m];
  }

  /** Where the last alternative begins. */
  lemma AltSplit(toks: seq<Token>, k: nat, n: nat, t: Re, p: nat) returns (m: nat)
    requires k <= n <= |toks| && IsAlt(t, toks[k..n], p) && !IsCat(t, toks[k..n], p)
    ensures k <= m < n && toks[m] == Bar && t.Or?
    ensures IsAlt(t.l, toks[k..m], p) && IsCat(t.r, toks[m + 1..n], p + Leaves(t.l))
  {
    var w := toks[k..n];
    var i :| 0 <= i < |w| && AltAt(t, w, p, i);
    m := k + i;
    Parts(toks, k, n, i);
    Parts(toks, k, n, i + 1);
    assert w[i] == toks[m];
  }

  lemma {:induction false} CatParses(toks: seq<Token>, k: nat, n: nat, t: Re, p: nat)
    requires k <= n <= |toks| && IsCat(t, toks[k..n], p) && OpsEnd(toks, n)
    ensures Operands(toks, k, p) == Concat(toks, n, t, p + Leaves(t))
    decreases n - k, 3
  {
    if IsPost(t, toks[k..n], p) {
      FirstOperand(toks, k, n, t, p);
    } else {
      var m := CatSplit(toks, k, n, t, p);
      assert t == Cat(t.l, t.r) && Leaves(t) == Leaves(t.l) + Leaves(t.r);
      CatParses(toks, k, m, t.l, p);
      LastOperand(toks, m, n, t.l, t.r, p + Leaves(t.l));
    }
  }

  lemma {:induction false} FirstOperand(toks: seq<Token>, k: nat, n: nat, t: Re, p: nat)
    requires k <= n <= |toks| && IsPost(t, toks[k..n], p) && OpsEnd(toks, n)
    ensures Operands(toks, k, p) == Concat(toks, n, t, p + Leaves(t))
    decreases n - k, 2
  {
    PostParses(toks, k, n, t, p);
    UnaryEnds(toks, n, t);
  }

  lemma {:induction false} LastOperand(toks: seq<Token>, m: nat, n: nat, l: Re, r: Re, p: nat)
    requires m < n <= |toks| && GoesOn(toks[m]) && IsPost(r, toks[m..n], p) && OpsEnd(toks, n)
    ensures Concat(toks, m, l, p) == Concat(toks, n, Cat(l, r), p + Leaves(r))
    decreases n - m, 2
  {
    PostParses(toks, m, n, r, p);
    UnaryEnds(toks, n, r);
    ConcatOn(toks, m, l, p, r, n);
  }

  lemma {:induction false} AltParses(toks: seq<Token>, k: nat, n: nat, t: Re, p: nat)
    requires k <= n <= |toks| && IsAlt(t, toks[k..n], p) && OperandsEnd(toks, n)
    ensures Regexp(toks, k, p) == Alt(toks, n, t, p + Leaves(t))
    decreases n - k, 5
  {
    if IsCat(t, toks[k..n], p) {
      FirstAlternative(toks, k, n, t, p);
    } else {
      var m := AltSplit(toks, k, n, t, p);
      assert t == Or(t.l, t.r) && Leaves(t) == Leaves(t.l) + Leaves(t.r);
      AltParses(toks, k, m, t.l, p);
      LastAlternative(toks, m, n, t.l, t.r, p + Leaves(t.l));
    }
  }

  lemma {:induction false} FirstAlternative(toks: seq<Token>, k: nat, n: nat, t: Re, p: nat)
    requires k <= n <= |toks| && IsCat(t, toks[k..n], p) && OperandsEnd(toks, n)
    ensures Regexp(toks, k, p) == Alt(toks, n, t, p + Leaves(t))
    decreases n - k, 4
  {
    CatParses(toks, k, n, t, p);
    ConcatEnds(toks, n, t, p + Leaves(t));
  }

  lemma {:induction false} LastAlternative(toks: seq<Token>, m: nat, n: nat, l: Re, r: Re, p: nat)
    requires m < n <= |toks| && toks[m] == Bar && IsCat(r, toks[m + 1..n], p) && OperandsEnd(toks, n)
    ensures Alt(toks, m, l, p) == Alt(toks, n, Or(l, r), p + Leaves(r))
    decreases n - m, 4
  {
    CatParses(toks, m + 1, n, r, p);
    ConcatEnds(toks, n, r, p + Leaves(r));
    AltOn(toks, m, l, p, r, n);
  }

  /** The parser returns a tree exactly for the token strings that have one, and that tree. */
  lemma ReparseIff(toks: seq<Token>, t: Re)
    ensures Reparse(toks) == Parsed(t, |toks|) <==> IsAlt(t, toks, 1)
    ensures Reparse(toks).Parsed? ==> Reparse(toks).k == |toks|
  {
    assert toks[0..|toks|] == toks;
    if IsAlt(t, toks, 1) {
      AltBegins(t, toks, 1);
      AltParses(toks, 0, |toks|, t, 1);
    }
    if Reparse(toks).Parsed? { RegexpSound(toks, 0, 1); }
  }

  /** So no token string has two trees. */
  lemma TreeUnique(toks: seq<Token>, t: Re, u: Re)
    requires IsAlt(t, toks, 1) && IsAlt(u, toks, 1)
    ensures t == u
  {
    ReparseIff(toks, t);
    ReparseIff(toks, u);
  }

  // ---------- where a caret may stand ----------

  /** At the beginning, after a left parenthesis or after an alternation sign. */
  predicate CaretFirst(w: seq<Token>, i: nat)
    requires i < |w|
  {
    w[i] == Caret ==> i == 0 || w[i - 1] == Open || w[i - 1] == Bar
  }

  ghost predicate CaretsFirst(w: seq<Token>) { forall i: nat :: i < |w| ==> CaretFirst(w, i) }

  lemma CaretsConcat(w: seq<Token>, m: nat)
    requires 0 < m < |w| && CaretsFirst(w[..m]) && CaretsFirst(w[m..]) && CaretFirst(w, m)
    ensures CaretsFirst(w)
  {
    forall i: nat | i < |w| ensures CaretFirst(w, i) {
      if i < m {
        assert CaretFirst(w[..m], i);
      } else if i > m {
        assert CaretFirst(w[m..], i - m);
        assert w[m..][i - m] == w[i] && w[m..][i - m - 1] == w[i - 1];
      }
    }
  }

  lemma CaretsOne(x: Token)
    ensures CaretsFirst([x])
  {
  }

  /** `w` followed by a token that is no caret. */
  lemma CaretsSnoc(w: seq<Token>)
    requires w != [] && CaretsFirst(w[..|w| - 1]) && w[|w| - 1] != Caret
    ensures CaretsFirst(w)
  {
    forall i: nat | i < |w| ensures CaretFirst(w, i) {
      if i < |w| - 1 { assert CaretFirst(w[..|w| - 1], i); }
    }
  }

  /** `w` after a token that lets a caret follow. */
  lemma CaretsCons(w: seq<Token>)
    requires w != [] && CaretsFirst(w[1..]) && (w[0] == Open || w[0] == Bar)
    ensures CaretsFirst(w)
  {
    forall i: nat | i < |w| ensures CaretFirst(w, i) {
      if i > 0 {
        assert CaretFirst(w[1..], i - 1);
        assert w[1..][i - 1] == w[i];
        if i > 1 { assert w[1..][i - 2] == w[i - 1]; }
      }
    }
  }

  lemma {:induction false} AtomCarets(t: Re, w: seq<Token>, p: nat)
    requires IsAtom(t, w, p)
    ensures CaretsFirst(w)
    decreases |w|, 0
  {
    if |w| == 1 {
      CaretsOne(w[0]);
      assert w == [w[0]];
    } else if w != [Open, Close] {
      var v := w[..|w| - 1];
      AltCarets(t, w[1..|w| - 1], p);
      assert v[1..] == w[1..|w| - 1];
      CaretsCons(v);
      CaretsSnoc(w);
    }
  }

  lemma {:induction false} PostCarets(t: Re, w: seq<Token>, p: nat)
    requires IsPost(t, w, p)
    ensures CaretsFirst(w)
    decreases |w|, 1
  {
    if IsAtom(t, w, p) {
      AtomCarets(t, w, p);
    } else {
      PostCarets(t.sub, w[..|w| - 1], p);
      CaretsSnoc(w);
    }
  }

  lemma {:induction false} CatCarets(t: Re, w: seq<Token>, p: nat)
    requires IsCat(t, w, p)
    ensures CaretsFirst(w)
    decreases |w|, 2
  {
    if IsPost(t, w, p) {
      PostCarets(t, w, p);
    } else {
      var i :| 0 < i < |w| && CatAt(t, w, p, i);
      CatCarets(t.l, w[..i], p);
      PostCarets(t.r, w[i..], p + Leaves(t.l));
      CaretsConcat(w, i);
    }
  }

  /** In a token string with a tree a `^` stands only first, after a left parenthesis or after an alternation sign. */
  lemma {:induction false} AltCarets(t: Re, w: seq<Token>, p: nat)
    requires IsAlt(t, w, p)
    ensures CaretsFirst(w)
    decreases |w|, 3
  {
    if IsCat(t, w, p) {
      CatCarets(t, w, p);
    } else {
      var i :| 0 <= i < |w| && AltAt(t, w, p, i);
      AltCarets(t.l, w[..i], p);
      AltBegins(t.l, w[..i], p);
      CatCarets(t.r, w[i + 1..], p + Leaves(t.l));
      assert w[i..][1..] == w[i + 1..];
      CaretsCons(w[i..]);
      CaretsConcat(w, i);
    }
  }
}
