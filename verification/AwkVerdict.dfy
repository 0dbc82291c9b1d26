/**
 How the parser of bin/awk/b.c ends on a token string, found by one pass that counts open
 parentheses: the string is accepted, or awk exits with an error at a token.
 */
module AwkVerdict {
  import opened Positions
  import opened AwkSyntax

  datatype Verdict = Accepts | Stops(k: nat, e: Error)

  /** From token `k` with `d` parentheses open; `need` if an operand must come next. */
  function Scan(toks: seq<Token>, k: nat, d: nat, need: bool): Verdict
    requires k <= |toks|
    decreases |toks| - k
  {
    if k == |toks| then
      if need then Stops(k, IllegalPrimary) else if d > 0 then Stops(k, SyntaxError) else Accepts
    else
      match toks[k]
      case Atom(_) => Scan(toks, k + 1, d, false)
      case Caret => if need then Scan(toks, k + 1, d, false) else Stops(k, SyntaxError)
      case Open =>
        if k + 1 < |toks| && toks[k + 1] == Close then Scan(toks, k + 2, d, false) else Scan(toks, k + 1, d + 1, true)
      case Close =>
        if need then Stops(k, IllegalPrimary) else if d == 0 then Stops(k, SyntaxError)
        else Scan(toks, k + 1, d - 1, false)
      case Bar => if need then Stops(k, IllegalPrimary) else Scan(toks, k + 1, d, true)
      case Unlexed => Stops(k, LexicalError)
      case _ => if need then Stops(k, IllegalPrimary) else Scan(toks, k + 1, d, false)
  }

  // ---------- where the functions of the parser end ----------

  /** After `regexp`: the end, a caret, a right parenthesis or a token that could not be read. */
  predicate Ended(toks: seq<Token>, k: nat) { k < |toks| ==> toks[k] in {Caret, Close, Unlexed} }

  lemma {:induction false} UnaryEnd(toks: seq<Token>, k: nat, t: Re)
    requires k <= |toks|
    ensures OpsEnd(toks, Unary(toks, k, t).k)
    decreases |toks| - k
  {
    if k < |toks| && IsOp(toks[k]) { UnaryEnd(toks, k + 1, Apply(toks[k], t)); }
  }

  lemma PrimaryEnd(toks: seq<Token>, k: nat, p: nat)
    requires k <= |toks| && Primary(toks, k, p).Parsed?
    ensures OpsEnd(toks, Primary(toks, k, p).k)
  {
    match toks[k]
    case Atom(y) => UnaryEnd(toks, k + 1, Leaf(p, y));
    case Caret => UnaryEnd(toks, k + 1, Leaf(p, Chr(HAT)));
    case Open =>
      if k + 1 < |toks| && toks[k + 1] == Close {
        UnaryEnd(toks, k + 2, Nothing(p));
      } else {
        var r := Regexp(toks, k + 1, p);
        UnaryEnd(toks, r.k + 1, r.t);
      }
  }

  lemma {:induction false} ConcatEnd(toks: seq<Token>, k: nat, t: Re, p: nat)
    requires k <= |toks| && OpsEnd(toks, k) && Concat(toks, k, t, p).Parsed?
    ensures OperandsEnd(toks, Concat(toks, k, t, p).k)
    decreases |toks| - k
  {
    if k < |toks| && GoesOn(toks[k]) {
      var r := Primary(toks, k, p);
      PrimaryEnd(toks, k, p);
      ConcatEnd(toks, r.k, Cat(t, r.t), p + Leaves(r.t));
    }
  }

  lemma OperandsEndAt(toks: seq<Token>, k: nat, p: nat)
    requires k <= |toks| && Operands(toks, k, p).Parsed?
    ensures OperandsEnd(toks, Operands(toks, k, p).k)
  {
    var r := Primary(toks, k, p);
    PrimaryEnd(toks, k, p);
    ConcatEnd(toks, r.k, r.t, p + Leaves(r.t));
  }

  lemma {:induction false} AltEnd(toks: seq<Token>, k: nat, t: Re, p: nat)
    requires k <= |toks| && OperandsEnd(toks, k) && Alt(toks, k, t, p).Parsed?
    ensures Ended(toks, Alt(toks, k, t, p).k)
    decreases |toks| - k
  {
    if k < |toks| && toks[k] == Bar {
      var r := Operands(toks, k + 1, p);
      OperandsEndAt(toks, k + 1, p);
      AltEnd(toks, r.k, Or(t, r.t), p + Leaves(r.t));
    }
  }

  lemma RegexpEnd(toks: seq<Token>, k: nat, p: nat)
    requires k <= |toks| && Regexp(toks, k, p).Parsed?
    ensures Ended(toks, Regexp(toks, k, p).k)
  {
    var r := Operands(toks, k, p);
    OperandsEndAt(toks, k, p);
    AltEnd(toks, r.k, r.t, p + Leaves(r.t));
  }

  // ---------- the pass follows the parser ----------

  /** The parser is where the pass is, or both have stopped with the same error. */
  predicate Agrees(toks: seq<Token>, v: Verdict, d: nat, r: Parse)
    requires r.Parsed? ==> r.k <= |toks|
  {
    match r
    case Parsed(_, k') => v == Scan(toks, k', d, false)
    case Failed(e) => v.Stops? && v.e == e
  }

  lemma {:induction false} UnaryScan(toks: seq<Token>, k: nat, t: Re, d: nat)
    requires k <= |toks|
    ensures Agrees(toks, Scan(toks, k, d, false), d, Unary(toks, k, t))
    decreases |toks| - k
  {
    if k < |toks| && IsOp(toks[k]) { UnaryScan(toks, k + 1, Apply(toks[k], t), d); }
  }

  lemma {:induction false} PrimaryScan(toks: seq<Token>, k: nat, p: nat, d: nat)
    requires k <= |toks|
    ensures Agrees(toks, Scan(toks, k, d, true), d, Primary(toks, k, p))
    decreases |toks| - k, 0
  {
    if k < |toks| {
      match toks[k]
      case Atom(y) => UnaryScan(toks, k + 1, Leaf(p, y), d);
      case Caret => UnaryScan(toks, k + 1, Leaf(p, Chr(HAT)), d);
      case Open =>
        if k + 1 < |toks| && toks[k + 1] == Close {
          UnaryScan(toks, k + 2, Nothing(p), d);
        } else {
          ParensScan(toks, k + 1, p, d);
        }
      case _ =>
    }
  }

  lemma {:induction false} ParensScan(toks: seq<Token>, k: nat, p: nat, d: nat)
    requires k <= |toks|
    ensures Agrees(toks, Scan(toks, k, d + 1, true), d, InParens(toks, k, p))
    decreases |toks| - k, 4
  {
    RegexpScan(toks, k, p, d + 1);
    var r := Regexp(toks, k, p);
    if r.Parsed? {
      RegexpEnd(toks, k, p);
      if r.k < |toks| && toks[r.k] == Close { UnaryScan(toks, r.k + 1, r.t, d); }
    }
  }

  lemma {:induction false} ConcatScan(toks: seq<Token>, k: nat, t: Re, p: nat, d: nat)
    requires k <= |toks|
    ensures Agrees(toks, Scan(toks, k, d, false), d, Concat(toks, k, t, p))
    decreases |toks| - k, 1
  {
    if k < |toks| && GoesOn(toks[k]) {
      assert Scan(toks, k, d, false) == Scan(toks, k, d, true);
      PrimaryScan(toks, k, p, d);
      var r := Primary(toks, k, p);
      if r.Parsed? { ConcatScan(toks, r.k, Cat(t, r.t), p + Leaves(r.t), d); }
    }
  }

  lemma {:induction false} OperandsScan(toks: seq<Token>, k: nat, p: nat, d: nat)
    requires k <= |toks|
    ensures Agrees(toks, Scan(toks, k, d, true), d, Operands(toks, k, p))
    decreases |toks| - k, 2
  {
    PrimaryScan(toks, k, p, d);
    var r := Primary(toks, k, p);
    if r.Parsed? { ConcatScan(toks, r.k, r.t, p + Leaves(r.t), d); }
  }

  lemma {:induction false} AltScan(toks: seq<Token>, k: nat, t: Re, p: nat, d: nat)
    requires k <= |toks|
    ensures Agrees(toks, Scan(toks, k, d, false), d, Alt(toks, k, t, p))
    decreases |toks| - k, 1
  {
    if k < |toks| && toks[k] == Bar {
      OperandsScan(toks, k + 1, p, d);
      var r := Operands(toks, k + 1, p);
      if r.Parsed? { AltScan(toks, r.k, Or(t, r.t), p + Leaves(r.t), d); }
    }
  }

  lemma {:induction false} RegexpScan(toks: seq<Token>, k: nat, p: nat, d: nat)
    requires k <= |toks|
    ensures Agrees(toks, Scan(toks, k, d, true), d, Regexp(toks, k, p))
    decreases |toks| - k, 3
  {
    OperandsScan(toks, k, p, d);
    var r := Operands(toks, k, p);
    if r.Parsed? { AltScan(toks, r.k, r.t, p + Leaves(r.t), d); }
  }

  /** The parser accepts what the pass accepts, and reports the error the pass stops with. */
  lemma ReparseVerdict(toks: seq<Token>)
    ensures toks == [] ==> Reparse(toks) == Failed(Empty)
    ensures toks != [] ==>
      match Scan(toks, 0, 0, true)
      case Accepts => Reparse(toks).Parsed?
      case Stops(_, e) => Reparse(toks) == Failed(e)
  {
    if toks != [] {
      RegexpScan(toks, 0, 1, 0);
      var r := Regexp(toks, 0, 1);
      if r.Parsed? { RegexpEnd(toks, 0, 1); }
    }
  }

  /** What the error says of the token at which the pass stops, and of the one before it. */
  lemma {:induction false} ErrorMeaning(toks: seq<Token>, k: nat, d: nat, need: bool)
    requires k <= |toks| && Scan(toks, k, d, need).Stops?
    requires need <==> k == 0 || toks[k - 1] == Open || toks[k - 1] == Bar
    ensures var v := Scan(toks, k, d, need);
      && k <= v.k <= |toks|
      && (v.e == LexicalError <==> v.k < |toks| && toks[v.k] == Unlexed)
      && (v.e == IllegalPrimary <==> v.e != LexicalError && (v.k == 0 || toks[v.k - 1] == Open || toks[v.k - 1] == Bar))
      && (v.e == SyntaxError <==> v.e != LexicalError && v.e != IllegalPrimary)
    decreases |toks| - k
  {
    if k < |toks| {
      match toks[k]
      case Atom(_) => ErrorMeaning(toks, k + 1, d, false);
      case Caret => if need { ErrorMeaning(toks, k + 1, d, false); }
      case Open =>
        if k + 1 < |toks| && toks[k + 1] == Close {
          ErrorMeaning(toks, k + 2, d, false);
        } else {
          ErrorMeaning(toks, k + 1, d + 1, true);
        }
      case Close => if !need && d > 0 { ErrorMeaning(toks, k + 1, d - 1, false); }
      case Bar => if !need { ErrorMeaning(toks, k + 1, d, true); }
      case Unlexed =>
      case _ => if !need { ErrorMeaning(toks, k + 1, d, false); }
    }
  }
}
