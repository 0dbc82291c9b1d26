/**
 bin/agrep/parse.c and the position sets of bin/agrep/utilities.c: the stack parser, which
 computes Nullable, Firstpos and Lastpos of every node as it builds it.
 */
module AgrepParse {
  import opened Slices
  import opened Positions
  import opened AgrepSyntax
  import opened AgrepVerdict

  // ---------- position sets: lists without repetition ----------

  predicate NoDup(s: seq<nat>) { forall i, j :: 0 <= i < j < |s| ==> s[i] != s[j] }

  /** `s` holds exactly the members of `all`, each once. */
  ghost predicate Pset(s: seq<nat>, all: set<nat>) {
    NoDup(s) && forall x :: x in s <==> x in all
  }

  /** `occurs_in`. */
  method OccursIn(n: nat, p: seq<nat>) returns (r: bool)
    ensures r <==> n in p
  {
    for k := 0 to |p|
      invariant n !in p[..k]
    {
      if p[k] == n { return true; }
      assert p[..k + 1] == p[..k] + [p[k]];
    }
    assert p[..|p|] == p;
    r := false;
  }

  /** `pset_union`: the members of `s1` that are not in `s2`, followed by `s2` itself. */
  method PsetUnion(s1: seq<nat>, s2: seq<nat>) returns (u: seq<nat>)
    ensures forall x :: x in u <==> x in s1 || x in s2
    ensures NoDup(s1) && NoDup(s2) ==> NoDup(u)
    ensures |s2| <= |u| && u[|u| - |s2|..] == s2
  {
    var hd: seq<nat> := [];
    for k := 0 to |s1|
      invariant forall x :: x in hd <==> x in s1[..k] && x !in s2
      invariant NoDup(s1) ==> NoDup(hd)
    {
      assert s1[..k + 1] == s1[..k] + [s1[k]];
      var occ := OccursIn(s1[k], s2);
      if !occ {
        if NoDup(s1) { NewMember(s1, k, s2, hd); }
        hd := hd + [s1[k]];
      }
    }
    assert s1[..|s1|] == s1;
    u := hd + s2;
    if NoDup(s1) && NoDup(s2) { DisjointLists(hd, s2); }
  }

  lemma NewMember(s1: seq<nat>, k: nat, s2: seq<nat>, hd: seq<nat>)
    requires k < |s1| && NoDup(s1) && NoDup(hd) && forall x :: x in hd <==> x in s1[..k] && x !in s2
    ensures NoDup(hd + [s1[k]])
  {
    forall i | 0 <= i < |hd| ensures hd[i] != s1[k] {
      assert hd[i] in hd;
      var j :| 0 <= j < k && s1[j] == hd[i];
    }
  }

  lemma DisjointLists(a: seq<nat>, b: seq<nat>)
    requires NoDup(a) && NoDup(b) && forall x :: x in a ==> x !in b
    ensures NoDup(a + b)
  {
    forall i, j | 0 <= i < j < |a + b| ensures (a + b)[i] != (a + b)[j] {
      if i < |a| <= j { assert a[i] in a && b[j - |a|] in b; }
    }
  }

  // ---------- syntax tree nodes ----------

  datatype Node =
    | LitNode(pos: nat, sym: Sym, nullable: bool, first: seq<nat>, last: seq<nat>)
    | EosNode(pos: nat, nullable: bool, first: seq<nat>, last: seq<nat>)
    | StarNode(child: Node, nullable: bool, first: seq<nat>, last: seq<nat>)
    | OptNode(child: Node, nullable: bool, first: seq<nat>, last: seq<nat>)
    | CatNode(lchild: Node, rchild: Node, nullable: bool, first: seq<nat>, last: seq<nat>)
    | AltNode(lchild: Node, rchild: Node, nullable: bool, first: seq<nat>, last: seq<nat>)

  /** The regular expression a node stands for. */
  function Tree(e: Node): Re {
    match e
    case LitNode(p, y, _, _, _) => Leaf(p, y)
    case EosNode(p, _, _, _) => Leaf(p, Final)
    case StarNode(c, _, _, _) => Star(Tree(c))
    case OptNode(c, _, _, _) => Quest(Tree(c))
    case CatNode(l, r, _, _, _) => Cat(Tree(l), Tree(r))
    case AltNode(l, r, _, _, _) => Or(Tree(l), Tree(r))
  }

  /** The attributes of the node are the sets of its tree. */
  ghost predicate Attributed(e: Node) {
    (e.nullable <==> Nullable(Tree(e))) && Pset(e.first, First(Tree(e))) && Pset(e.last, Last(Tree(e)))
  }

  /** So they are in every node of the tree. */
  ghost predicate Right(e: Node) {
    && Attributed(e)
    && match e
       case LitNode(_, _, _, _, _) => true
       case EosNode(_, _, _, _) => true
       case StarNode(c, _, _, _) => Right(c)
       case OptNode(c, _, _, _) => Right(c)
       case CatNode(l, r, _, _, _) => Right(l) && Right(r)
       case AltNode(l, r, _, _, _) => Right(l) && Right(r)
  }

  /** A set of characters in a pattern is never empty, and the end marker is not in it. */
  predicate Lexed(y: Sym) { y != Ccl({}) && y != Final }

  /** Which leaf `mk_leaf` makes: a literal, or the end-of-string leaf. */
  function LeafNode(p: nat, y: Sym): (e: Node)
    requires y != Ccl({})
    ensures Right(e) && Tree(e) == Leaf(p, y)
  {
    if y == Final then EosNode(p, false, [p], [p]) else LitNode(p, y, false, [p], [p])
  }

  /** The node `cat2` makes of the two topmost. */
  method MakeCat(l: Node, r: Node) returns (e: Node)
    requires Right(l) && Right(r)
    ensures Right(e) && Tree(e) == Cat(Tree(l), Tree(r))
  {
    var first, last := l.first, r.last;
    if l.nullable { first := PsetUnion(l.first, r.first); }
    if r.nullable { last := PsetUnion(l.last, r.last); }
    e := CatNode(l, r, l.nullable && r.nullable, first, last);
  }

  /** The node `mk_alt` makes. */
  method MakeAlt(l: Node, r: Node) returns (e: Node)
    requires Right(l) && Right(r)
    ensures Right(e) && Tree(e) == Or(Tree(l), Tree(r))
  {
    var first := PsetUnion(l.first, r.first);
    var last := PsetUnion(l.last, r.last);
    e := AltNode(l, r, l.nullable || r.nullable, first, last);
  }

  // ---------- the stack, its top first ----------

  /** The operands on the stack make up the tokens `w` read so far. */
  ghost predicate Stacked(stk: seq<Node>, w: seq<Token>, p: nat) {
    |stk| <= 2 && (forall k :: 0 <= k < |stk| ==> Right(stk[k])) && Spell(stk, w, p)
  }

  ghost predicate Spell(stk: seq<Node>, w: seq<Token>, p: nat) {
    && (|stk| == 0 ==> w == [])
    && (|stk| == 1 ==> IsPost(Tree(stk[0]), w, p))
    && (|stk| == 2 ==> exists i :: Operands(stk[1], stk[0], w, p, i))
  }

  ghost predicate Operands(l: Node, r: Node, w: seq<Token>, p: nat, i: int) {
    0 < i < |w| && IsCat(Tree(l), w[..i], p) && IsPost(Tree(r), w[i..], p + Lits(w[..i]))
  }

  /** `cat2`. */
  method Cat2(stk: seq<Node>) returns (r: seq<Node>)
    requires forall k :: 0 <= k < |stk| ==> Right(stk[k])
    ensures |stk| < 2 ==> r == stk
    ensures |stk| >= 2 ==> |r| == |stk| - 1 && r[1..] == stk[2..] && Right(r[0])
    ensures |stk| >= 2 ==> Tree(r[0]) == Cat(Tree(stk[1]), Tree(stk[0]))
  {
    if |stk| < 2 { return stk; }
    var e := MakeCat(stk[1], stk[0]);
    r := [e] + stk[2..];
  }

  lemma StackedCat(stk: seq<Node>, w: seq<Token>, p: nat, t: Re)
    requires Stacked(stk, w, p) && stk != []
    requires t == if |stk| == 1 then Tree(stk[0]) else Cat(Tree(stk[1]), Tree(stk[0]))
    ensures IsCat(t, w, p)
  {
    if |stk| == 2 {
      var i :| Operands(stk[1], stk[0], w, p, i);
      assert CatAt(t, w, p, i);
    }
  }

  /** `cat2` on all operands so far: one is left, if there were any. */
  method Condense(stk: seq<Node>, ghost w: seq<Token>, ghost p: nat) returns (r: seq<Node>)
    requires Stacked(stk, w, p)
    ensures if stk == [] then r == [] else |r| == 1 && Right(r[0]) && IsCat(Tree(r[0]), w, p) && Balanced(w)
  {
    r := Cat2(stk);
    if stk != [] {
      StackedCat(stk, w, p, Tree(r[0]));
      StackedBalanced(stk, w, p);
    }
  }

  /** A new operand pushed; if there are three the two below are condensed. */
  method PushOperand(stk: seq<Node>, e: Node, ghost w: seq<Token>, ghost u: seq<Token>, ghost p: nat)
      returns (r: seq<Node>)
    requires Stacked(stk, w, p) && Right(e) && u != [] && IsPost(Tree(e), u, p + Lits(w))
    ensures Stacked(r, w + u, p) && r != []
  {
    r := [e] + stk;
    if |r| > 2 {
      var temp := Cat2(r[1..]);
      r := [r[0]] + temp;
    }
    if stk == [] {
      assert w + u == u;
    } else {
      StackedCat(stk, w, p, Tree(r[1]));
      StackedNonEmpty(stk, w, p);
      TwoOperands(r[1], r[0], w, u, p);
    }
  }

  lemma TwoOperands(l: Node, r: Node, w: seq<Token>, u: seq<Token>, p: nat)
    requires w != [] && u != [] && IsCat(Tree(l), w, p) && IsPost(Tree(r), u, p + Lits(w))
    ensures Operands(l, r, w + u, p, |w|)
  {
    assert (w + u)[..|w|] == w && (w + u)[|w|..] == u;
  }

  lemma StackedNonEmpty(stk: seq<Node>, w: seq<Token>, p: nat)
    requires Stacked(stk, w, p) && stk != []
    ensures Word(w)
  {
    StackedCat(stk, w, p, if |stk| == 1 then Tree(stk[0]) else Cat(Tree(stk[1]), Tree(stk[0])));
    CatShape(if |stk| == 1 then Tree(stk[0]) else Cat(Tree(stk[1]), Tree(stk[0])), w, p);
  }

  lemma StackedBalanced(stk: seq<Node>, w: seq<Token>, p: nat)
    requires Stacked(stk, w, p)
    ensures Balanced(w)
  {
    if stk != [] { StackedNonEmpty(stk, w, p); }
  }

  /** `wrap` with `*` or `?`; it fails on an empty stack. */
  method WrapTop(stk: seq<Node>, op: Token, ghost w: seq<Token>, ghost p: nat) returns (ok: bool, r: seq<Node>)
    requires Stacked(stk, w, p) && (op == OpStar || op == OpOpt)
    ensures ok <==> stk != []
    ensures ok ==> Stacked(r, w + [op], p) && r != []
  {
    if stk == [] { return false, []; }
    var c := stk[0];
    var e := if op == OpStar then StarNode(c, true, c.first, c.last) else OptNode(c, true, c.first, c.last);
    ok, r := true, [e] + stk[1..];
    ghost var w' := w + [op];
    if |stk| == 1 {
      assert w'[..|w|] == w;
      assert IsPost(Tree(e), w', p);
    } else {
      ghost var i :| Operands(stk[1], stk[0], w, p, i);
      assert w'[..i] == w[..i] && w'[i..][..|w| - i] == w[i..] && w'[i..][|w| - i] == op;
      assert Operands(r[1], r[0], w', p, i);
    }
  }

  // ---------- the parser ----------

  /** What `get_token` returns: nothing, the end of the string, or a token (with a leaf if it is a literal). */
  datatype Got = Nothing | Eos | Tok(tok: Token)

  /** A pointer to a node, the null pointer, or a null pointer followed. */
  datatype Result = Null | Ptr(node: Node) | Crash

  /** How a part of `parse_re` ends: it goes on, returns null, or crashes. */
  datatype Ending = Going | Failing | Crashing

  function EndingOf(r: Result): Ending { match r case Null => Failing case Ptr(_) => Going case Crash => Crashing }

  /** What is between two parentheses makes an atom. */
  lemma GroupAtom(toks: seq<Token>, lp: nat, at: nat, t: Re, p: nat)
    requires lp + 1 <= at < |toks| && toks[lp] == LParen && toks[at] == RParen && IsAlt(t, toks[lp + 1..at], p)
    ensures IsAtom(t, toks[lp..at + 1], p) && Lits(toks[lp..at + 1]) == Lits(toks[lp + 1..at])
  {
    var v, u := toks[lp + 1..at], toks[lp..at + 1];
    SliceSlice(toks, lp, at + 1, 1, |u| - 1);
    assert u == [LParen] + v + [RParen];
    One(LParen);
    One(RParen);
    LitsConcat([LParen], v);
    LitsConcat([LParen] + v, [RParen]);
  }

  lemma Appended(toks: seq<Token>, a: nat, m: nat)
    requires a <= m < |toks|
    ensures toks[a..m + 1] == toks[a..m] + [toks[m]]
    ensures Lits(toks[a..m + 1]) == Lits(toks[a..m]) + if toks[m].Lit? then 1 else 0
  {
    assert toks[a..m + 1] == toks[a..m] + [toks[m]];
    LitsConcat(toks[a..m], [toks[m]]);
    One(toks[m]);
  }

  lemma LitPost(t: Token, p: nat)
    requires t.Lit?
    ensures IsPost(Leaf(p, t.y), [t], p)
  {
    assert IsAtom(Leaf(p, t.y), [t], p);
  }

  lemma StackedOn(stk: seq<Node>, toks: seq<Token>, a: nat, m: nat, p: nat)
    requires a <= m < |toks| && Stacked(stk, toks[a..m] + [toks[m]], p)
    ensures Stacked(stk, toks[a..m + 1], p)
    ensures Lits(toks[a..m + 1]) == Lits(toks[a..m]) + if toks[m].Lit? then 1 else 0
  {
    Appended(toks, a, m);
  }

  /** A literal's leaf pushed. */
  method PushLeaf(stk: seq<Node>, t: Token, leaf: Node, ghost w: seq<Token>, ghost p: nat) returns (r: seq<Node>)
    requires t.Lit? && Lexed(t.y) && Stacked(stk, w, p) && leaf == LeafNode(p + Lits(w), t.y)
    ensures Stacked(r, w + [t], p) && r != []
  {
    LitPost(t, p + Lits(w));
    r := PushOperand(stk, leaf, w, [t], p);
  }

  lemma Joined(toks: seq<Token>, a: nat, m: nat, at: nat)
    requires a <= m <= at <= |toks|
    ensures toks[a..at] == toks[a..m] + toks[m..at]
    ensures Lits(toks[a..at]) == Lits(toks[a..m]) + Lits(toks[m..at])
  {
    LitsConcat(toks[a..m], toks[m..at]);
    assert toks[a..at] == toks[a..m] + toks[m..at];
  }

  /** What is on both sides of an alternation sign makes an alternation. */
  lemma BarAlt(toks: seq<Token>, a: nat, bar: nat, at: nat, l: Re, r: Re, p: nat)
    requires a <= bar < at <= |toks| && toks[bar] == OpAlt
    requires IsCat(l, toks[a..bar], p) && IsAlt(r, toks[bar + 1..at], p + Lits(toks[a..bar]))
    ensures IsAlt(Or(l, r), toks[a..at], p)
    ensures Lits(toks[a..at]) == Lits(toks[a..bar]) + Lits(toks[bar + 1..at])
  {
    var w, v, all := toks[a..bar], toks[bar + 1..at], toks[a..at];
    SliceSlice(toks, a, at, 0, bar - a);
    SliceSlice(toks, a, at, bar - a + 1, at - a);
    assert all == w + [OpAlt] + v && all[..bar - a] == all[0..bar - a];
    assert all[bar - a + 1..] == all[bar - a + 1..at - a];
    assert AltAt(Or(l, r), all, p, bar - a);
    One(OpAlt);
    LitsConcat(w, [OpAlt]);
    LitsConcat(w + [OpAlt], v);
  }

  class Parser {
    const toks: seq<Token>
    var at: nat
    var posCnt: nat

    ghost predicate Valid()
      reads this
    {
      at <= |toks| && forall k :: 0 <= k < |toks| && toks[k].Lit? ==> Lexed(toks[k].y)
    }

    constructor (toks: seq<Token>, posCnt: nat)
      requires forall k :: 0 <= k < |toks| && toks[k].Lit? ==> Lexed(toks[k].y)
      ensures Valid() && this.toks == toks && at == 0 && this.posCnt == posCnt
    {
      this.toks, at, this.posCnt := toks, 0, posCnt;
    }

    /** `get_token`; a literal's leaf takes the next position. */
    method GetToken() returns (g: Got, leaf: seq<Node>)
      requires Valid()
      modifies this
      ensures Valid()
      ensures g == if old(at) == |toks| then Eos else if toks[old(at)] == Bad then Nothing else Tok(toks[old(at)])
      ensures at == if g.Eos? then old(at) else old(at) + 1
      ensures if g.Tok? && g.tok.Lit? then posCnt == old(posCnt) + 1 && leaf == [LeafNode(old(posCnt), g.tok.y)]
              else posCnt == old(posCnt)
    {
      leaf := [];
      if at == |toks| { return Eos, leaf; }
      at := at + 1;
      if toks[at - 1] == Bad { return Nothing, leaf; }
      g := Tok(toks[at - 1]);
      if g.tok.Lit? {
        leaf := [LeafNode(posCnt, g.tok.y)];
        posCnt := posCnt + 1;
      }
    }

    /** What has been read since `a`, when positions were at `p`. */
    ghost predicate Read(stk: seq<Node>, a: nat, p: nat)
      reads this
    {
      Valid() && IsRead(stk, a, at, p)
    }

    ghost predicate IsRead(stk: seq<Node>, a: nat, n: nat, p: nat)
      reads this
    {
      a <= n <= |toks| && Stacked(stk, toks[a..n], p) && posCnt == p + Lits(toks[a..n])
    }

    /** An expression has been read from `a` up to its end. */
    ghost predicate Complete(re: Node, a: nat, p: nat, paren: bool)
      reads this
    {
      Valid() && IsComplete(re, a, at, p, paren)
    }

    ghost predicate IsComplete(re: Node, a: nat, n: nat, p: nat, paren: bool)
      reads this
    {
      && a <= n <= |toks| && EndAt(toks, paren, n) && Right(re) && IsAlt(Tree(re), toks[a..n], p)
      && posCnt == p + Lits(toks[a..n])
    }

    /** A call that began in depth `d` with verdict `v` has ended. */
    ghost predicate Ended(e: Ending, v: Verdict, d: nat)
      reads this
    {
      match e
      case Going => true
      case Failing => PassedOn(toks, v, d, at)
      case Crashing => CrashedBefore(toks, v, d)
    }

    /** After a failure in a parenthesis `parse_re` reads one more token. */
    method LeaveGroup(inner: Result, ghost v: Verdict, ghost d: nat) returns (e: Ending)
      requires Valid() && !inner.Ptr? && Ended(EndingOf(inner), v, d + 1)
      modifies this
      ensures Valid() && old(at) <= at && e != Going && Ended(e, v, d)
    {
      if inner == Crash {
        CrashOn(toks, v, d);
        return Crashing;
      }
      PassOn(toks, v, d, at);
      var g, leaf := GetToken();
      e := if g == Nothing then Crashing else Failing;
    }

    /** What was in parentheses is pushed, and the right parenthesis read. */
    method CloseGroup(stk: seq<Node>, re: Node, ghost lp: nat, ghost a: nat, ghost p: nat) returns (r: seq<Node>)
      requires a <= lp < |toks| && toks[lp] == LParen && Stacked(stk, toks[a..lp], p)
      requires Complete(re, lp + 1, p + Lits(toks[a..lp]), true)
      modifies this
      ensures at == old(at) + 1 && Read(r, a, p) && r != []
    {
      ghost var w := toks[a..lp];
      GroupAtom(toks, lp, at, Tree(re), p + Lits(w));
      var g, leaf := GetToken();
      ghost var u := toks[lp..at];
      assert IsPost(Tree(re), u, p + Lits(w));
      Joined(toks, a, lp, at);
      r := PushOperand(stk, re, w, u, p);
    }

    /** The case of a left parenthesis, just read. */
    method ReadGroup(stk: seq<Node>, ghost a: nat, ghost p: nat, ghost d: nat) returns (e: Ending, r: seq<Node>)
      requires Valid() && a < at && toks[at - 1] == LParen
      requires Stacked(stk, toks[a..at - 1], p) && posCnt == p + Lits(toks[a..at - 1])
      modifies this
      ensures Valid() && old(at) <= at && Ended(e, Scan(toks, old(at), d + 1, true), d)
      ensures e == Going ==> Read(r, a, p) && r != [] && Scan(toks, old(at), d + 1, true) == Scan(toks, at, d, false)
      ensures e != Going ==> Fails(toks, a, d > 0)
      decreases |toks| - at, 1
    {
      ghost var lp, w := at - 1, toks[a..at - 1];
      var inner := ParseRe(true, d + 1);
      if inner.Ptr? {
        r := CloseGroup(stk, inner.node, lp, a, p);
        e := Going;
      } else {
        StackedBalanced(stk, w, p);
        FailsInside(toks, a, lp, d > 0);
        e := LeaveGroup(inner, Scan(toks, lp + 1, d + 1, true), d);
        r := [];
      }
    }

    /** Both sides of an alternation sign have been read. */
    lemma BothSides(l: Node, re: Node, both: Node, a: nat, bar: nat, p: nat, paren: bool)
      requires a <= bar < |toks| && toks[bar] == OpAlt && IsCat(Tree(l), toks[a..bar], p)
      requires Complete(re, bar + 1, p + Lits(toks[a..bar]), paren)
      requires Right(both) && Tree(both) == Or(Tree(l), Tree(re))
      ensures Complete(both, a, p, paren)
    {
      BarAlt(toks, a, bar, at, Tree(l), Tree(re), p);
    }

    /** The case of an alternation sign, just read: the rest up to the end is the other alternative. */
    method ReadAlt(stk: seq<Node>, ghost a: nat, ghost p: nat, paren: bool, ghost d: nat)
        returns (e: Ending, r: seq<Node>)
      requires Valid() && a < at && toks[at - 1] == OpAlt
      requires Stacked(stk, toks[a..at - 1], p) && posCnt == p + Lits(toks[a..at - 1])
      requires paren <==> d > 0
      modifies this
      ensures Valid() && old(at) <= at && Ended(e, Scan(toks, old(at) - 1, d, stk == []), d)
      ensures e == Going ==>
        && |r| == 1
        && Complete(r[0], a, p, paren)
        && Scan(toks, old(at) - 1, d, stk == []) == Scan(toks, at, d, false)
      ensures e != Going ==> Fails(toks, a, paren)
      decreases |toks| - at, 2
    {
      var left := Condense(stk, toks[a..at - 1], p);
      if left == [] {
        FailsAtStart(toks, a, paren);
        return Failing, [];
      }
      var both;
      e, both := OtherSide(left[0], a, at - 1, p, paren, d);
      r := if e == Going then [both] else [];
    }

    /** What follows an alternation sign after the operand `left`. */
    method OtherSide(left: Node, ghost a: nat, ghost bar: nat, ghost p: nat, paren: bool, ghost d: nat)
        returns (e: Ending, both: Node)
      requires Valid() && a <= bar < at == bar + 1 && toks[bar] == OpAlt && (paren <==> d > 0)
      requires Right(left) && IsCat(Tree(left), toks[a..bar], p) && Balanced(toks[a..bar])
      requires posCnt == p + Lits(toks[a..bar])
      modifies this
      ensures Valid() && old(at) <= at && Ended(e, Scan(toks, bar + 1, d, true), d)
      ensures e == Going ==> Complete(both, a, p, paren) && Scan(toks, bar + 1, d, true) == Scan(toks, at, d, false)
      ensures e != Going ==> Fails(toks, a, paren)
      decreases |toks| - at, 1
    {
      var inner := ParseRe(paren, d);
      e, both := EndingOf(inner), left;
      if inner.Ptr? {
        both := MakeAlt(left, inner.node);
        BothSides(left, inner.node, both, a, bar, p, paren);
      } else {
        FailsAfterAlt(toks, a, bar, paren);
      }
    }

    /** The cases of a literal and of the operators `*` and `?`, just read. */
    method ReadOther(stk: seq<Node>, t: Token, leaf: seq<Node>, ghost a: nat, ghost p: nat, ghost paren: bool)
        returns (ok: bool, r: seq<Node>)
      requires Valid() && a < at && toks[at - 1] == t && Stacked(stk, toks[a..at - 1], p)
      requires t == OpStar || t == OpOpt || t.Lit?
      requires if t.Lit? then posCnt == p + Lits(toks[a..at - 1]) + 1 && leaf == [LeafNode(posCnt - 1, t.y)]
               else posCnt == p + Lits(toks[a..at - 1])
      ensures ok <==> t.Lit? || stk != []
      ensures ok ==> Read(r, a, p) && r != []
      ensures !ok ==> Fails(toks, a, paren)
    {
      ghost var w := toks[a..at - 1];
      if t.Lit? {
        r := PushLeaf(stk, t, leaf[0], w, p);
        ok := true;
      } else {
        ok, r := WrapTop(stk, t, w, p);
      }
      if ok {
        StackedOn(r, toks, a, at - 1, p);
      } else {
        FailsAtStart(toks, a, paren);
      }
    }

    /** The end of an expression has been met (and a right parenthesis put back). */
    method Finish(stk: seq<Node>, matching: bool, ghost done: bool, ghost a: nat, ghost p: nat, ghost paren: bool)
        returns (r: Result)
      requires Valid() && a <= at && EndAt(toks, if matching then paren else !paren, at)
      requires if done then |stk| == 1 && Complete(stk[0], a, p, paren) && matching else Read(stk, a, p)
      ensures r.Ptr? <==> matching && stk != []
      ensures !r.Ptr? ==> r == Null && Fails(toks, a, paren)
      ensures r.Ptr? ==> Complete(r.node, a, p, paren)
    {
      if !matching {
        StackedBalanced(stk, toks[a..at], p);
        FailsAtEnd(toks, a, at, paren);
        return Null;
      }
      var top := Cat2(stk);
      if top == [] {
        FailsAtStart(toks, a, paren);
        return Null;
      }
      if !done { StackedCat(stk, toks[a..at], p, Tree(top[0])); }
      r := Ptr(top[0]);
    }

    /** Where the loop of `parse_re` is. */
    ghost predicate Looping(stk: seq<Node>, done: bool, a: nat, p: nat, paren: bool)
      reads this
    {
      if done then |stk| == 1 && Complete(stk[0], a, p, paren) else Read(stk, a, p)
    }

    /** A token other than an end, just read. */
    method ReadToken(stk: seq<Node>, t: Token, leaf: seq<Node>, ghost a: nat, ghost p: nat, paren: bool, ghost d: nat,
                     ghost v: Verdict)
        returns (e: Ending, r: seq<Node>, ghost done: bool)
      requires Valid() && a < at && toks[at - 1] == t && t != RParen && t != Bad && (paren <==> d > 0)
      requires Stacked(stk, toks[a..at - 1], p) && v == Scan(toks, at - 1, d, stk == [])
      requires if t.Lit? then posCnt == p + Lits(toks[a..at - 1]) + 1 && leaf == [LeafNode(posCnt - 1, t.y)]
               else posCnt == p + Lits(toks[a..at - 1])
      modifies this
      ensures Valid() && old(at) <= at && Ended(e, v, d)
      ensures e == Going ==> Looping(r, done, a, p, paren) && r != [] && v == Scan(toks, at, d, false)
      ensures e != Going ==> Fails(toks, a, paren)
      decreases |toks| - at, 3
    {
      done := false;
      if t == LParen {
        e, r := ReadGroup(stk, a, p, d);
      } else if t == OpAlt {
        e, r := ReadAlt(stk, a, p, paren, d);
        done := true;
      } else {
        var ok;
        ok, r := ReadOther(stk, t, leaf, a, p, paren);
        e := if ok then Going else Failing;
        if !ok { Failed(toks, at, d); }
      }
    }

    /** No token, the end of the string or a right parenthesis, just read. */
    method ReadEnd(stk: seq<Node>, g: Got, ghost was: nat, ghost done: bool, ghost a: nat, ghost p: nat, paren: bool,
                   ghost d: nat, ghost v: Verdict)
        returns (r: Result)
      requires Valid() && a <= was <= at && (paren <==> d > 0) && v == Scan(toks, was, d, stk == [])
      requires if done then |stk| == 1 && IsComplete(stk[0], a, was, p, paren) else IsRead(stk, a, was, p)
      requires g == if was == |toks| then Eos else if toks[was] == Bad then Nothing else Tok(toks[was])
      requires at == (if g == Eos then was else was + 1) && (g.Tok? ==> g.tok == RParen)
      modifies this`at
      ensures Valid() && was <= at && Ended(EndingOf(r), v, d)
      ensures !r.Ptr? ==> Fails(toks, a, paren)
      ensures r.Ptr? ==> Complete(r.node, a, p, paren) && v == Scan(toks, at, d, false)
    {
      if g == Nothing {
        StackedBalanced(stk, toks[a..was], p);
        FailsAtBad(toks, a, was, paren);
        Failed(toks, at, d);
        return Null;
      }
      if g != Eos { at := at - 1; }
      r := Finish(stk, if g == Eos then !paren else paren, done, a, p, paren);
      if r == Null { Failed(toks, at, d); }
    }

    /** `parse_re`, called with `d` parentheses open. */
    method ParseRe(paren: bool, ghost d: nat) returns (r: Result)
      requires Valid() && (paren <==> d > 0)
      modifies this
      ensures Valid() && old(at) <= at
      ensures !r.Ptr? ==> Fails(toks, old(at), paren)
      ensures r.Ptr? ==>
        && Complete(r.node, old(at), old(posCnt), paren)
        && Scan(toks, old(at), d, true) == Scan(toks, at, d, false)
      ensures Ended(EndingOf(r), Scan(toks, old(at), d, true), d)
      decreases |toks| - at, 0
    {
      ghost var a, p, done, v := at, posCnt, false, Scan(toks, at, d, true);
      var stk: seq<Node> := [];
      assert toks[a..at] == [];
      while true
        invariant Valid() && a <= at && Looping(stk, done, a, p, paren) && v == Scan(toks, at, d, stk == [])
        decreases |toks| - at
      {
        ghost var was := at;
        var g, leaf := GetToken();
        if !g.Tok? || g.tok == RParen {
          r := ReadEnd(stk, g, was, done, a, p, paren, d, v);
          return;
        }
        var e;
        e, stk, done := ReadToken(stk, g.tok, leaf, a, p, paren, d, v);
        if e == Failing { return Null; }
        if e == Crashing { return Crash; }
      }
    }

    /** `parse`: the tree of the whole string with the end-of-string leaf after it. */
    method Parse() returns (r: Result, finalPos: nat)
      requires Valid() && at == 0
      modifies this
      ensures r.Ptr? <==> Derivable(toks)
      ensures Derivable(toks) <==> Scan(toks, 0, 0, true) == Accepts
      ensures r.Crash? <==> Crashes(toks)
      ensures r.Ptr? ==> Right(r.node) && Tree(r.node).Cat? && IsAlt(Tree(r.node).l, toks, old(posCnt))
      ensures r.Ptr? ==> Tree(r.node).r == Leaf(finalPos, Final)
      ensures r.Ptr? ==> finalPos == posCnt == old(posCnt) + Lits(toks)
    {
      assert toks[0..|toks|] == toks;
      var tree := ParseRe(false, 0);
      if !tree.Ptr? { return tree, 0; }
      var eos := LeafNode(posCnt, Final);
      posCnt := posCnt + 1;
      posCnt := posCnt - 1;
      finalPos := posCnt;
      var top := Cat2([eos, tree.node]);
      r := Ptr(top[0]);
    }
  }
}
