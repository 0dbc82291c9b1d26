/**
 The recursive descent of bin/awk/b.c as it builds its tree node by node, and `mkdfa` from the
 tokens of a pattern on.
 */
module AwkParse {
  import opened Wrappers
  import opened Positions
  import opened AwkTree
  import opened AwkRuns
  import opened AwkTable
  import opened AwkCalls
  import opened AwkMachine
  import opened AwkMatch
  import Syntax = AwkSyntax

  /** A tree, or the error after which awk exits. */
  datatype Outcome = Tree(n: Node) | Error(e: Syntax.Error)

  /** The node is the top of a tree for `re`, its leaves to be numbered from `p` on. */
  ghost predicate Built(n: Node, t: Shape, re: Re, p: nat) {
    && t.n == n && Describes(t) && Numbered(t, p) && NoFinal(t)
    && Abs(t) == re && LeafCount(t) == Syntax.Leaves(re)
  }

  /** The operator node for a token. */
  function OpOf(x: Syntax.Token): Op
    requires Syntax.IsOp(x)
  {
    if x == Syntax.StarTok then StarOp else if x == Syntax.PlusTok then PlusOp else QuestOp
  }

  lemma BuiltUnary(n: Node, m: Node, t: Shape, re: Re, p: nat, x: Syntax.Token)
    requires Syntax.IsOp(x) && n.op == OpOf(x) && n.left == m && n !in Nodes(t) && Built(m, t, re, p)
    ensures Built(n, Unary(n, t), Syntax.Apply(x, re), p)
  {
  }

  lemma BuiltBinary(n: Node, op: Op, l: Node, r: Node, t: Shape, u: Shape, re: Re, re': Re, p: nat)
    requires op == CatOp || op == OrOp
    requires n.op == op && n.left == l && n.right == r && n !in Nodes(t) + Nodes(u) && Nodes(t) !! Nodes(u)
    requires Built(l, t, re, p) && Built(r, u, re', p + Syntax.Leaves(re))
    ensures Built(n, Binary(n, t, u), if op == CatOp then Cat(re, re') else Or(re, re'), p)
  {
    var b := Binary(n, t, u);
    assert Describes(b) && NoFinal(b);
    assert LeafCount(b) == LeafCount(t) + LeafCount(u) && Numbered(b, p);
  }

  class Reparser {
    const toks: seq<Syntax.Token>
    /** The next token, `rtok`, is toks[k]. */
    var k: nat

    ghost predicate Valid()
      reads this
    {
      k <= |toks| && forall i :: 0 <= i < |toks| && toks[i].Atom? ==> toks[i].y != Final
    }

    constructor (toks: seq<Syntax.Token>)
      requires forall i :: 0 <= i < |toks| && toks[i].Atom? ==> toks[i].y != Final
      ensures Valid() && this.toks == toks && k == 0
    {
      this.toks, k := toks, 0;
    }

    /** The outcome is that of the specification, and a tree is made of new nodes. */
    ghost predicate Returns(r: Outcome, t: Option<Shape>, spec: Syntax.Parse, p: nat)
      reads this
    {
      match spec
      case Failed(e) => r == Error(e)
      case Parsed(re, k') => r.Tree? && t.Some? && Built(r.n, t.value, re, p) && k == k'
    }

    /** `regexp`. */
    method Regexp(ghost p: nat) returns (r: Outcome, ghost t: Option<Shape>)
      requires Valid()
      modifies this`k
      ensures Valid() && Returns(r, t, Syntax.Regexp(toks, old(k), p), p)
      ensures r.Tree? ==> fresh(Nodes(t.value))
      decreases |toks| - k, 3
    {
      ghost var spec := Syntax.Operands(toks, k, p);
      r, t := Operands(p);
      if r.Tree? { r, t := Alt(r.n, t.value, spec.t, p); }
    }

    /** `concat(primary())`. */
    method Operands(ghost p: nat) returns (r: Outcome, ghost t: Option<Shape>)
      requires Valid()
      modifies this`k
      ensures Valid() && Returns(r, t, Syntax.Operands(toks, old(k), p), p)
      ensures r.Tree? ==> fresh(Nodes(t.value))
      decreases |toks| - k, 2
    {
      ghost var spec := Syntax.Primary(toks, k, p);
      r, t := Primary(p);
      if r.Tree? { r, t := Concat(r.n, t.value, spec.t, p); }
    }

    /** `primary`. */
    method Primary(ghost p: nat) returns (r: Outcome, ghost t: Option<Shape>)
      requires Valid()
      modifies this`k
      ensures Valid() && Returns(r, t, Syntax.Primary(toks, old(k), p), p)
      ensures r.Tree? ==> fresh(Nodes(t.value))
      decreases |toks| - k, 0
    {
      t := None;
      if k == |toks| { return Error(Syntax.IllegalPrimary), t; }
      match toks[k]
      case Atom(y) =>
        k := k + 1;
        r, t := LeafOf(y, p);
      case Caret =>
        k := k + 1;
        r, t := LeafOf(Chr(HAT), p);
      case Open =>
        k := k + 1;
        if k < |toks| && toks[k] == Syntax.Close {
          k := k + 1;
          r, t := LeafOf(Ccl({}), p);
        } else {
          r, t := InParens(p);
        }
      case _ => return Error(Syntax.ErrorAt(toks, k, Syntax.IllegalPrimary)), t;
    }

    /** A leaf and the operators after it. */
    method LeafOf(y: Sym, ghost p: nat) returns (r: Outcome, ghost t: Option<Shape>)
      requires Valid() && y != Final
      modifies this`k
      ensures Valid() && Returns(r, t, Syntax.Unary(toks, old(k), Leaf(p, y)), p)
      ensures r.Tree? ==> fresh(Nodes(t.value))
    {
      var n := new Node(LeafOp(y), null, null);
      assert Built(n, Tip(n, p), Leaf(p, y), p);
      r, t := Unary(n, Tip(n, p), Leaf(p, y), p);
    }

    /** After a left parenthesis that is not closed at once. */
    method InParens(ghost p: nat) returns (r: Outcome, ghost t: Option<Shape>)
      requires Valid()
      modifies this`k
      ensures Valid() && Returns(r, t, Syntax.InParens(toks, old(k), p), p)
      ensures r.Tree? ==> fresh(Nodes(t.value))
      decreases |toks| - k, 4
    {
      ghost var spec := Syntax.Regexp(toks, k, p);
      r, t := Regexp(p);
      if r.Error? { return; }
      if k < |toks| && toks[k] == Syntax.Close {
        k := k + 1;
        r, t := Unary(r.n, t.value, spec.t, p);
      } else {
        r := Error(Syntax.ErrorAt(toks, k, Syntax.SyntaxError));
      }
    }

    /** `unary`. */
    method Unary(np: Node, ghost t: Shape, ghost re: Re, ghost p: nat) returns (r: Outcome, ghost t': Option<Shape>)
      requires Valid() && Built(np, t, re, p)
      modifies this`k
      ensures Valid() && Returns(r, t', Syntax.Unary(toks, old(k), re), p)
      ensures r.Tree? && forall o :: o in Nodes(t'.value) ==> o in Nodes(t) || fresh(o)
      decreases |toks| - k
    {
      if k < |toks| && Syntax.IsOp(toks[k]) {
        NodesAllocated(t);
        ghost var x := toks[k];
        var n := new Node(OpOf(toks[k]), np, null);
        BuiltUnary(n, np, t, re, p, x);
        k := k + 1;
        r, t' := Unary(n, AwkTree.Unary(n, t), Syntax.Apply(x, re), p);
      } else {
        r, t' := Tree(np), Some(t);
      }
    }

    /** `concat`. */
    method Concat(np: Node, ghost t: Shape, ghost re: Re, ghost p: nat) returns (r: Outcome, ghost t': Option<Shape>)
      requires Valid() && Built(np, t, re, p)
      modifies this`k
      ensures Valid() && Returns(r, t', Syntax.Concat(toks, old(k), re, p + Syntax.Leaves(re)), p)
      ensures r.Tree? ==> forall o :: o in Nodes(t'.value) ==> o in Nodes(t) || fresh(o)
      decreases |toks| - k, 1
    {
      if k < |toks| && Syntax.GoesOn(toks[k]) {
        NodesAllocated(t);
        ghost var spec := Syntax.Primary(toks, k, p + Syntax.Leaves(re));
        r, t' := Primary(p + Syntax.Leaves(re));
        if r.Tree? {
          var n := Join(CatOp, np, r.n, t, t'.value, re, spec.t, p);
          r, t' := Concat(n, Binary(n, t, t'.value), Cat(re, spec.t), p);
        }
      } else {
        r, t' := Tree(np), Some(t);
      }
    }

    /** `alt`. */
    method Alt(np: Node, ghost t: Shape, ghost re: Re, ghost p: nat) returns (r: Outcome, ghost t': Option<Shape>)
      requires Valid() && Built(np, t, re, p)
      modifies this`k
      ensures Valid() && Returns(r, t', Syntax.Alt(toks, old(k), re, p + Syntax.Leaves(re)), p)
      ensures r.Tree? ==> forall o :: o in Nodes(t'.value) ==> o in Nodes(t) || fresh(o)
      decreases |toks| - k, 1
    {
      if k < |toks| && toks[k] == Syntax.Bar {
        NodesAllocated(t);
        k := k + 1;
        ghost var spec := Syntax.Operands(toks, k, p + Syntax.Leaves(re));
        r, t' := Operands(p + Syntax.Leaves(re));
        if r.Tree? {
          var n := Join(OrOp, np, r.n, t, t'.value, re, spec.t, p);
          r, t' := Alt(n, Binary(n, t, t'.value), Or(re, spec.t), p);
        }
      } else {
        r, t' := Tree(np), Some(t);
      }
    }

    /** `op2` with two subtrees. */
    method Join(op: Op, l: Node, r: Node, ghost t: Shape, ghost u: Shape, ghost re: Re, ghost re': Re, ghost p: nat)
        returns (n: Node)
      requires op == CatOp || op == OrOp
      requires Built(l, t, re, p) && Built(r, u, re', p + Syntax.Leaves(re)) && Nodes(t) !! Nodes(u)
      ensures fresh(n) && Built(n, Binary(n, t, u), if op == CatOp then Cat(re, re') else Or(re, re'), p)
    {
      NodesAllocated(t);
      NodesAllocated(u);
      n := new Node(op, l, r);
      BuiltBinary(n, op, l, r, t, u, re, re', p);
    }

    /** `reparse`. */
    method Reparse() returns (r: Outcome, ghost t: Option<Shape>)
      requires Valid() && k == 0
      modifies this`k
      ensures Valid() && Returns(r, t, Syntax.Reparse(toks), 1)
      ensures r.Tree? ==> fresh(Nodes(t.value))
    {
      t := None;
      if |toks| == 0 { return Error(Syntax.Empty), t; }
      r, t := Regexp(1);
      if r.Tree? && k != |toks| {
        r := Error(Syntax.ErrorAt(toks, k, Syntax.SyntaxError));
      }
    }
  }

  /** The automaton of a pattern, or the error `reparse` reports. */
  datatype Made = Ok(f: Fa) | No(e: Syntax.Error)

  /** `mkdfa` on the tokens of a pattern: an automaton exactly for the token strings that have a tree. */
  method MkDfaOf(toks: seq<Syntax.Token>, anchor: bool) returns (r: Made, ghost pat: Option<Re>)
    requires forall i :: 0 <= i < |toks| && toks[i].Atom? ==> toks[i].y != Final
    ensures r.No? ==> Syntax.Reparse(toks) == Syntax.Failed(r.e) && forall t :: !Syntax.IsAlt(t, toks, 1)
    ensures r.Ok? ==> pat.Some? && Syntax.IsAlt(pat.value, toks, 1) && For(r.f, pat.value)
    ensures r.Ok? ==> fresh(r.f) && r.f.anchor == anchor && r.f.Ready()
    ensures r.Ok? ==> AutoOf(r.f) == Auto(Fresh(r.f.root, anchor), InitNo(r.f.root))
  {
    pat := None;
    var p := new Reparser(toks);
    var tree, t := p.Reparse();
    match tree
    case Error(e) =>
      r := No(e);
      forall u ensures !Syntax.IsAlt(u, toks, 1) { Syntax.ReparseIff(toks, u); }
    case Tree(n) =>
      ghost var re := Abs(t.value);
      pat := Some(re);
      Syntax.ReparseIff(toks, re);
      ghost var root := Compiled(re, LeafCount(t.value) + 1);
      AllSetsClosed(root);
      var f := MkDfa(n, anchor, t.value, set s | s <= Pos(root));
      r := Ok(f);
  }
}
