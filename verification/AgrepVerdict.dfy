/**
 How bin/agrep/parse.c ends on a token string, found by one pass that counts open parentheses:
 the string has a tree, the parser fails, or it goes on after a failure to where no token can be
 read and follows the null pointer `get_token` returns.
 */
module AgrepVerdict {
  import opened Positions
  import opened AgrepSyntax

  /** Accepted, or stopped with so many tokens consumed and so many parentheses open. */
  datatype Verdict = Accepts | Stops(at: nat, depth: nat)

  /** From token `k` with `d` parentheses open; `need` if an operand must come first. */
  function Scan(toks: seq<Token>, k: nat, d: nat, need: bool): Verdict
    requires k <= |toks|
    decreases |toks| - k
  {
    if k == |toks| then if d > 0 || need then Stops(k, d) else Accepts
    else
      match toks[k]
      case Lit(_) => Scan(toks, k + 1, d, false)
      case LParen => Scan(toks, k + 1, d + 1, true)
      case RParen => if d == 0 || need then Stops(k, d) else Scan(toks, k + 1, d - 1, false)
      case OpAlt => if need then Stops(k + 1, d) else Scan(toks, k + 1, d, true)
      case OpStar => if need then Stops(k + 1, d) else Scan(toks, k + 1, d, false)
      case OpOpt => if need then Stops(k + 1, d) else Scan(toks, k + 1, d, false)
      case Bad => Stops(k + 1, d)
  }

  /** One of the tokens from `lo` to before `hi` cannot be read. */
  ghost predicate BadIn(toks: seq<Token>, lo: nat, hi: int) { exists i :: lo <= i < hi && i < |toks| && toks[i] == Bad }

  /**
   Each call of `parse_re` that was reading a parenthesis reads one more token after the failure
   inside it; the program crashes if it cannot be read.
   */
  ghost predicate Crashes(toks: seq<Token>) {
    match Scan(toks, 0, 0, true)
    case Accepts => false
    case Stops(at, depth) => BadIn(toks, at, at + depth)
  }

  function Least(a: int, b: int): int { if a <= b then a else b }

  /** The failure `v` has been passed on to depth `d`, where the next token is at `at`. */
  ghost predicate PassedOn(toks: seq<Token>, v: Verdict, d: nat, at: nat) {
    v.Stops? && v.depth >= d && !BadIn(toks, v.at, v.at + v.depth - d) && at == Least(|toks|, v.at + v.depth - d)
  }

  /** Before the failure `v` could be passed on to depth `d` the program crashed. */
  ghost predicate CrashedBefore(toks: seq<Token>, v: Verdict, d: nat) {
    v.Stops? && v.depth >= d && BadIn(toks, v.at, v.at + v.depth - d)
  }

  lemma Failed(toks: seq<Token>, at: nat, d: nat)
    requires at <= |toks|
    ensures PassedOn(toks, Stops(at, d), d, at)
  {
  }

  /** One more token read on the way out. */
  lemma PassOn(toks: seq<Token>, v: Verdict, d: nat, at: nat)
    requires PassedOn(toks, v, d + 1, at)
    ensures if at < |toks| && toks[at] == Bad then CrashedBefore(toks, v, d)
            else PassedOn(toks, v, d, Least(|toks|, at + 1))
  {
  }

  lemma CrashOn(toks: seq<Token>, v: Verdict, d: nat)
    requires CrashedBefore(toks, v, d + 1)
    ensures CrashedBefore(toks, v, d)
  {
    var i :| v.at <= i < v.at + v.depth - (d + 1) && i < |toks| && toks[i] == Bad;
    assert v.at <= i < v.at + v.depth - d;
  }

  /** The tokens of `.*(.([-[*).)`, to which agrep extends the pattern `[-[*`. */
  function Brackets(dot: Sym): seq<Token> { [Lit(dot), OpStar, LParen, Lit(dot), LParen, Bad, Bad] }

  /** The first bracket fails at the hyphen, and the second, read on the way out, at the end of the string. */
  lemma BracketsCrash(dot: Sym)
    ensures Crashes(Brackets(dot))
  {
    var toks := Brackets(dot);
    assert Scan(toks, 5, 2, true) == Stops(6, 2);
    assert Scan(toks, 3, 1, true) == Scan(toks, 4, 1, false) == Stops(6, 2);
    assert Scan(toks, 1, 0, false) == Scan(toks, 2, 0, false) == Stops(6, 2);
    assert toks[6] == Bad;
  }
}
