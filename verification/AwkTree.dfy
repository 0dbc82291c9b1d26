/**
 awk's parse tree of a regular expression and the passes over it (bin/awk/b.c): `penter`
 numbers the leaves and enters parent pointers, `first` and `follow` collect positions
 into the global bit vector, `cfoll` stores one follow list per leaf.
 */
module AwkTree {
  import opened Positions
  import opened Climbing

  datatype Op = LeafOp(sym: Sym) | StarOp | PlusOp | QuestOp | CatOp | OrOp

  /** A tree node; `op2` fixes the operator and the children, `penter` the rest. */
  class Node {
    const op: Op
    const left: Node?
    const right: Node?
    var index: nat
    var parent: Node?

    constructor (op: Op, left: Node?, right: Node?)
      ensures this.op == op && this.left == left && this.right == right
    {
      this.op, this.left, this.right := op, left, right;
      index, parent := 0, null;
    }
  }

  /** The finite tree hanging off a node, with the number each leaf is due to get. */
  datatype Shape =
    | Tip(n: Node, i: nat)
    | Unary(n: Node, sub: Shape)
    | Binary(n: Node, l: Shape, r: Shape)

  ghost function Nodes(t: Shape): set<Node> {
    match t
    case Tip(n, _) => {n}
    case Unary(n, c) => {n} + Nodes(c)
    case Binary(n, l, r) => {n} + Nodes(l) + Nodes(r)
  }

  /** `t` is the tree reachable from `t.n`, and no node is shared. */
  ghost predicate Describes(t: Shape) {
    match t
    case Tip(n, _) => n.op.LeafOp?
    case Unary(n, c) =>
      && n.op in {StarOp, PlusOp, QuestOp}
      && n.left == c.n && n !in Nodes(c) && Describes(c)
    case Binary(n, l, r) =>
      && n.op in {CatOp, OrOp}
      && n.left == l.n && n.right == r.n && n !in Nodes(l) + Nodes(r)
      && Nodes(l) !! Nodes(r) && Describes(l) && Describes(r)
  }

  /** The regular expression a tree stands for. */
  ghost function Abs(t: Shape): Re {
    match t
    case Tip(n, i) => Leaf(i, if n.op.LeafOp? then n.op.sym else Final)
    case Unary(n, c) =>
      if n.op == StarOp then Star(Abs(c)) else if n.op == PlusOp then Plus(Abs(c)) else Quest(Abs(c))
    case Binary(n, l, r) => if n.op == CatOp then Cat(Abs(l), Abs(r)) else Or(Abs(l), Abs(r))
  }

  ghost function LeafCount(t: Shape): nat {
    match t
    case Tip(_, _) => 1
    case Unary(_, c) => LeafCount(c)
    case Binary(_, l, r) => LeafCount(l) + LeafCount(r)
  }

  /** Leaves are numbered left to right from `k`. */
  ghost predicate Numbered(t: Shape, k: nat) {
    match t
    case Tip(_, i) => i == k
    case Unary(_, c) => Numbered(c, k)
    case Binary(_, l, r) => Numbered(l, k) && Numbered(r, k + LeafCount(l))
  }

  /** The leaf nodes carry their numbers. */
  ghost predicate Indexed(t: Shape)
    reads Nodes(t)`index
  {
    match t
    case Tip(n, i) => n.index == i
    case Unary(_, c) => Indexed(c)
    case Binary(_, l, r) => Indexed(l) && Indexed(r)
  }

  /** Every node below the top of `t` points back at its parent. */
  ghost predicate Linked(t: Shape)
    reads (Nodes(t) - {t.n})`parent
    requires Describes(t)
  {
    match t
    case Tip(_, _) => true
    case Unary(n, c) => c.n.parent == n && Linked(c)
    case Binary(n, l, r) => l.n.parent == n && r.n.parent == n && Linked(l) && Linked(r)
  }

  predicate Within(i: nat, k: nat, n: nat) { k <= i < k + n }

  /** Numbering makes the expression linear, with positions `k .. k + LeafCount(t)`. */
  lemma {:induction false} NumberedLinear(t: Shape, k: nat)
    requires Describes(t) && Numbered(t, k)
    ensures Linear(Abs(t)) && forall i: nat :: i in Pos(Abs(t)) <==> Within(i, k, LeafCount(t))
  {
    match t
    case Tip(_, _) =>
    case Unary(_, c) => NumberedLinear(c, k);
    case Binary(_, l, r) =>
      NumberedLinear(l, k);
      NumberedLinear(r, k + LeafCount(l));
  }

  lemma NodesAllocated(t: Shape)
    ensures forall o :: o in Nodes(t) ==> allocated(o)
  {
    match t
    case Tip(_, _) =>
    case Unary(_, c) => NodesAllocated(c);
    case Binary(_, l, r) => NodesAllocated(l); NodesAllocated(r);
  }

  /** `penter`: enter parent pointers and leaf numbers, counting leaves in `poscnt`. */
  method Penter(p: Node, poscnt: nat, ghost t: Shape) returns (cnt: nat)
    requires Describes(t) && p == t.n && Numbered(t, poscnt)
    modifies Nodes(t)
    ensures cnt == poscnt + LeafCount(t)
    ensures Indexed(t) && Linked(t)
    decreases t, 1
  {
    if p.op.LeafOp? {
      p.index := poscnt;
      cnt := poscnt + 1;
    } else if p.op in {StarOp, PlusOp, QuestOp} {
      cnt := Penter(p.left, poscnt, t.sub);
      p.left.parent := p;
    } else {
      cnt := PenterBoth(p, poscnt, t);
    }
  }

  /** The case of CAT and OR. */
  method PenterBoth(p: Node, poscnt: nat, ghost t: Shape) returns (cnt: nat)
    requires t.Binary? && Describes(t) && p == t.n && Numbered(t, poscnt)
    modifies Nodes(t)
    ensures cnt == poscnt + LeafCount(t)
    ensures Indexed(t) && Linked(t)
    decreases t, 0
  {
    cnt := Penter(p.left, poscnt, t.l);
    assert Indexed(t.l) && Linked(t.l);
    NodesAllocated(t.l);
    cnt := Penter(p.right, cnt, t.r);
    assert Indexed(t.l) && Linked(t.l);
    Adopt(p, t);
  }

  /** The parent pointers of both children. */
  method Adopt(p: Node, ghost t: Shape)
    requires t.Binary? && Describes(t) && p == t.n
    requires Indexed(t.l) && Linked(t.l) && Indexed(t.r) && Linked(t.r)
    modifies t.l.n, t.r.n
    ensures Indexed(t) && Linked(t)
  {
    p.left.parent := p;
    p.right.parent := p;
  }

  // ---------- ancestors ----------

  /** The ancestors of a node, innermost first, with the siblings they hold. */
  datatype Anc =
    | Root
    | InUnary(n: Node, up: Anc)
    | InLeft(n: Node, r: Shape, up: Anc)
    | InRight(n: Node, l: Shape, up: Anc)

  ghost function Enclosing(t: Shape, a: Anc): Shape
    requires !a.Root?
  {
    match a
    case InUnary(n, _) => Unary(n, t)
    case InLeft(n, r, _) => Binary(n, t, r)
    case InRight(n, l, _) => Binary(n, l, t)
  }

  ghost function Whole(t: Shape, a: Anc): Shape
    decreases a
  {
    if a.Root? then t else Whole(Enclosing(t, a), a.up)
  }

  lemma {:induction false} WholeDescribes(t: Shape, a: Anc)
    requires Describes(Whole(t, a))
    ensures Describes(t) && Nodes(t) <= Nodes(Whole(t, a))
    decreases a
  {
    if !a.Root? { WholeDescribes(Enclosing(t, a), a.up); }
  }

  ghost predicate Entered(t: Shape)
    reads Nodes(t)
  {
    Describes(t) && Linked(t) && Indexed(t)
  }

  /** In an entered tree every part is entered, and a node knows its parent. */
  lemma {:induction false} WholeEntered(t: Shape, a: Anc)
    requires Entered(Whole(t, a))
    ensures Entered(t)
    ensures !a.Root? ==> Describes(Enclosing(t, a)) && t.n.parent == a.n
    decreases a
  {
    if !a.Root? { WholeEntered(Enclosing(t, a), a.up); }
  }

  /** The ancestors as a context of expressions. */
  ghost function CtxOf(a: Anc): Ctx {
    match a
    case Root => Top
    case InUnary(n, up) =>
      if n.op == StarOp then UnderStar(CtxOf(up))
      else if n.op == PlusOp then UnderPlus(CtxOf(up))
      else UnderQuest(CtxOf(up))
    case InLeft(n, r, up) =>
      if n.op == CatOp then CatLeft(Abs(r), CtxOf(up)) else OrLeft(Abs(r), CtxOf(up))
    case InRight(n, l, up) =>
      if n.op == CatOp then CatRight(Abs(l), CtxOf(up)) else OrRight(Abs(l), CtxOf(up))
  }

  lemma {:induction false} WholeAbs(t: Shape, a: Anc)
    ensures Abs(Whole(t, a)) == Plug(Abs(t), CtxOf(a))
    decreases a
  {
    if !a.Root? { WholeAbs(Enclosing(t, a), a.up); }
  }

  predicate IsFinal(n: Node) { n.op == LeafOp(Final) }

  /**
   Climbing from a node with these ancestors stops before the root's missing parent: either
   it starts at the FINAL leaf, the right child of the root, or some ancestor is the left
   child of a concatenation whose right child cannot be empty.
   */
  ghost predicate Guarded(final: bool, c: Ctx) {
    if final then c.CatRight? && c.up.Top?
    else
      match c
      case Top => false
      case CatLeft(r, up) => !Nullable(r) || Guarded(false, up)
      case _ => Guarded(false, c.up)
  }

  /** What a single step up adds. */
  ghost function Gathered(e: Re, c: Ctx): set<nat> {
    match c
    case UnderStar(_) => First(e)
    case UnderPlus(_) => First(e)
    case CatLeft(r, _) => First(r)
    case _ => {}
  }

  ghost predicate GoesOn(c: Ctx) { c.CatLeft? ==> Nullable(c.r) }

  lemma ClimbStep(t: Shape, a: Anc)
    requires !a.Root?
    ensures GoesOn(CtxOf(a)) ==>
      Climb(Abs(t), CtxOf(a)) == Gathered(Abs(t), CtxOf(a)) + Climb(Abs(Enclosing(t, a)), CtxOf(a.up))
    ensures !GoesOn(CtxOf(a)) ==> Climb(Abs(t), CtxOf(a)) == Gathered(Abs(t), CtxOf(a))
  {
  }

  // ---------- the global position set ----------

  ghost predicate Below(s: set<nat>, n: nat) {
    forall i :: i in s ==> i < n
  }

  lemma EnclosingPos(t: Shape, a: Anc)
    requires !a.Root?
    ensures Pos(Abs(t)) <= Pos(Abs(Enclosing(t, a)))
    ensures a.InLeft? ==> Pos(Abs(a.r)) <= Pos(Abs(Enclosing(t, a)))
  {
  }

  /** What one step up the tree needs. */
  lemma StepUp(t: Shape, a: Anc, w: Shape, n: nat)
    requires w == Whole(t, a) && Entered(w) && Below(Pos(Abs(w)), n) && !a.Root?
    ensures Entered(t) && t.n.parent == a.n && Below(Pos(Abs(t)), n) && Describes(Enclosing(t, a))
    ensures a.InLeft? ==> Entered(a.r) && Below(Pos(Abs(a.r)), n)
  {
    var up := Enclosing(t, a);
    WholeEntered(t, a);
    WholeEntered(up, a.up);
    WholeAbs(up, a.up);
    PlugPos(Abs(up), CtxOf(a.up));
    EnclosingPos(t, a);
  }

  lemma UnionAssoc(a: set<nat>, b: set<nat>, c: set<nat>)
    ensures a + b + c == a + (b + c)
  {
  }

  lemma CatFirst(t: Shape)
    requires t.Binary? && t.n.op == CatOp
    ensures Nullable(Abs(t.l)) ==> First(Abs(t)) == First(Abs(t.l)) + First(Abs(t.r))
    ensures !Nullable(Abs(t.l)) ==> First(Abs(t)) == First(Abs(t.l))
    ensures Nullable(Abs(t)) == (Nullable(Abs(t.l)) && Nullable(Abs(t.r)))
    ensures Pos(Abs(t.l)) <= Pos(Abs(t)) && Pos(Abs(t.r)) <= Pos(Abs(t))
  {
  }

  lemma OrFirst(t: Shape)
    requires t.Binary? && t.n.op != CatOp
    ensures First(Abs(t)) == First(Abs(t.r)) + First(Abs(t.l))
    ensures Nullable(Abs(t)) == (Nullable(Abs(t.l)) || Nullable(Abs(t.r)))
    ensures Pos(Abs(t.l)) <= Pos(Abs(t)) && Pos(Abs(t.r)) <= Pos(Abs(t))
  {
  }

  ghost function ToSet(s: seq<nat>): set<nat> { set x | x in s }

  lemma ToSetSnoc(q: seq<nat>, j: nat)
    requires j < |q|
    ensures ToSet(q[..j+1]) == ToSet(q[..j]) + {q[j]}
  {
    assert q[..j+1] == q[..j] + [q[j]];
  }

  /** The globals `setvec` and `setcnt`; `marked` is the set they stand for. */
  class PosSet {
    var setvec: array<int>
    var setcnt: nat
    ghost var marked: set<nat>

    constructor (n: nat)
      ensures fresh(setvec) && setvec.Length == n && Valid() && marked == {}
    {
      setvec := new int[n](_ => 0);
      setcnt, marked := 0, {};
    }

    ghost predicate Valid()
      reads this, setvec
    {
      && (forall i :: 0 <= i < setvec.Length ==> setvec[i] == if i in marked then 1 else 0)
      && Below(marked, setvec.Length)
      && setcnt == |marked|
    }

    method Clear()
      modifies setvec, `setcnt, `marked
      ensures Valid() && marked == {}
    {
      for i := 0 to setvec.Length
        invariant forall j :: 0 <= j < i ==> setvec[j] == 0
      {
        setvec[i] := 0;
      }
      setcnt, marked := 0, {};
    }

    method Mark(lp: nat)
      requires Valid() && lp < setvec.Length
      modifies setvec, `setcnt, `marked
      ensures Valid() && marked == old(marked) + {lp}
    {
      if setvec[lp] != 1 {
        setvec[lp] := 1;
        setcnt, marked := setcnt + 1, marked + {lp};
      }
    }

    method MarkAll(q: seq<nat>)
      requires Valid() && forall k :: 0 <= k < |q| ==> q[k] < setvec.Length
      modifies setvec, `setcnt, `marked
      ensures Valid() && marked == old(marked) + ToSet(q)
    {
      ghost var was := marked;
      for j := 0 to |q|
        invariant Valid() && marked == was + ToSet(q[..j])
      {
        Mark(q[j]);
        ToSetSnoc(q, j);
      }
      assert q[..|q|] == q;
    }

    /** `first`: returns 0 exactly for nullable subtrees. */
    method CollectFirst(p: Node, ghost t: Shape) returns (b: int)
      requires Valid() && Describes(t) && p == t.n && Indexed(t)
      requires Below(Pos(Abs(t)), setvec.Length)
      modifies setvec, `setcnt, `marked
      ensures Valid() && marked == old(marked) + First(Abs(t))
      ensures b == if Nullable(Abs(t)) then 0 else 1
      decreases t, 1
    {
      if p.op.LeafOp? {
        Mark(p.index);
        b := if p.op.sym == Ccl({}) then 0 else 1;
      } else if p.op == PlusOp {
        b := CollectFirst(p.left, t.sub);
      } else if p.op in {StarOp, QuestOp} {
        var _ := CollectFirst(p.left, t.sub);
        b := 0;
      } else if p.op == CatOp {
        b := CollectFirstCat(p, t);
      } else {
        b := CollectFirstOr(p, t);
      }
    }

    /** The CAT case of `first`: the right child is visited only if the left one is nullable. */
    method CollectFirstCat(p: Node, ghost t: Shape) returns (b: int)
      requires Valid() && Describes(t) && p == t.n && Indexed(t) && p.op == CatOp
      requires Below(Pos(Abs(t)), setvec.Length)
      modifies setvec, `setcnt, `marked
      ensures Valid() && marked == old(marked) + First(Abs(t))
      ensures b == if Nullable(Abs(t)) then 0 else 1
      decreases t, 0
    {
      CatFirst(t);
      NodesAllocated(t.r);
      assert Indexed(t.r);
      b := CollectFirst(p.left, t.l);
      if b == 0 {
        b := CollectFirst(p.right, t.r);
        UnionAssoc(old(marked), First(Abs(t.l)), First(Abs(t.r)));
      }
    }

    /** The OR case of `first`: both children are visited, the right one first. */
    method CollectFirstOr(p: Node, ghost t: Shape) returns (b: int)
      requires Valid() && Describes(t) && p == t.n && Indexed(t) && p.op == OrOp
      requires Below(Pos(Abs(t)), setvec.Length)
      modifies setvec, `setcnt, `marked
      ensures Valid() && marked == old(marked) + First(Abs(t))
      ensures b == if Nullable(Abs(t)) then 0 else 1
      decreases t, 0
    {
      OrFirst(t);
      NodesAllocated(t.l);
      assert Indexed(t.l);
      b := CollectFirst(p.right, t.r);
      var b' := CollectFirst(p.left, t.l);
      if b' == 0 {
        b := 0;
      }
      UnionAssoc(old(marked), First(Abs(t.r)), First(Abs(t.l)));
    }

    /** The switch of `follow` on the parent `p` of `v`; says whether to go on to the parent. */
    method FollowStep(v: Node, p: Node, ghost t: Shape, ghost a: Anc, ghost w: Shape) returns (climb: bool)
      requires Valid() && v == t.n && w == Whole(t, a) && Entered(w) && !a.Root? && p == a.n
      requires Below(Pos(Abs(w)), setvec.Length)
      modifies setvec, `setcnt, `marked
      ensures Valid() && marked == old(marked) + Gathered(Abs(t), CtxOf(a))
      ensures climb == GoesOn(CtxOf(a))
    {
      StepUp(t, a, w, setvec.Length);
      ghost var got := Gathered(Abs(t), CtxOf(a));
      climb := true;
      if p.op in {StarOp, PlusOp} {
        assert got == First(Abs(t));
        var _ := CollectFirst(v, t);
      } else if p.op == CatOp && v == p.left {
        assert got == First(Abs(a.r));
        var b := CollectFirst(p.right, a.r);
        climb := b == 0;
      } else {
        assert got == {};
      }
    }

    /** `follow`: climbs the parent pointers of a fully entered tree. */
    method CollectFollow(v: Node, ghost t: Shape, ghost a: Anc, ghost w: Shape)
      requires Valid() && v == t.n && w == Whole(t, a) && Entered(w)
      requires Below(Pos(Abs(w)), setvec.Length)
      requires Guarded(IsFinal(v), CtxOf(a))
      modifies setvec, `setcnt, `marked
      ensures Valid() && marked == old(marked) + Climb(Abs(t), CtxOf(a))
      decreases a
    {
      if IsFinal(v) {
        return;
      }
      NodesAllocated(w);
      StepUp(t, a, w, setvec.Length);
      var p := v.parent;
      ClimbStep(t, a);
      var climb := FollowStep(v, p, t, a, w);
      if climb {
        CollectFollow(p, Enclosing(t, a), a.up, w);
        UnionAssoc(old(marked), Gathered(Abs(t), CtxOf(a)), Climb(Abs(Enclosing(t, a)), CtxOf(a.up)));
      }
    }
  }

  // ---------- follow lists ----------

  predicate Descending(s: seq<nat>) {
    forall i, j :: 0 <= i < j < |s| ==> s[i] > s[j]
  }

  /** `s` lists the members of `set0` from the largest down. */
  ghost predicate Lists(s: seq<nat>, set0: set<nat>) {
    Descending(s) && forall x: nat :: x in s <==> x in set0
  }

  /** What the automaton keeps of a leaf: its symbol and its follow list. */
  datatype Row = Row(sym: Sym, lfollow: seq<nat>)

  ghost predicate NoFinal(t: Shape) {
    match t
    case Tip(n, _) => !IsFinal(n)
    case Unary(_, c) => NoFinal(c)
    case Binary(_, l, r) => NoFinal(l) && NoFinal(r)
  }

  /** The tree `mkdfa` builds: FINAL concatenated to the rest, and nowhere else. */
  ghost predicate Finished(w: Shape) {
    w.Binary? && w.n.op == CatOp && NoFinal(w.l) && w.r.Tip? && IsFinal(w.r.n)
  }

  /** Every leaf of `t`, whose ancestors are `a`, can be climbed from. */
  ghost predicate Safe(t: Shape, a: Anc) {
    if a.Root? then Finished(t)
    else if t.Tip? && IsFinal(t.n) then Guarded(true, CtxOf(a))
    else NoFinal(t) && Guarded(false, CtxOf(a))
  }

  /** Row `i` describes position `i` of the whole expression. */
  ghost predicate RowOk(row: Row, e: Re, i: nat) {
    LeafAt(e, i, row.sym) && Lists(row.lfollow, Follow(e, i))
  }

  method SetToList(work: PosSet) returns (p: seq<nat>)
    requires work.Valid()
    ensures Lists(p, work.marked)
  {
    p := [];
    var i := work.setvec.Length;
    while i > 0
      invariant 0 <= i <= work.setvec.Length
      invariant Descending(p)
      invariant forall x: nat :: x in p <==> x in work.marked && x >= i
    {
      i := i - 1;
      if work.setvec[i] == 1 {
        assert forall k :: 0 <= k < |p| ==> p[k] in p;
        p := p + [i];
      }
    }
  }

  lemma LeafRow(t: Shape, a: Anc, w: Shape, list: seq<nat>)
    requires t.Tip? && t.n.op.LeafOp? && w == Whole(t, a) && Linear(Abs(w))
    requires Lists(list, Climb(Abs(t), CtxOf(a)))
    ensures RowOk(Row(t.n.op.sym, list), Abs(w), t.i)
  {
    WholeAbs(t, a);
    LeafClimb(t.i, t.n.op.sym, CtxOf(a));
    PlugLeafAt(Abs(t), CtxOf(a), t.i, t.n.op.sym);
  }

  lemma SafeRoot(t: Shape)
    requires Finished(t) && Describes(t)
    ensures Safe(t.l, InLeft(t.n, t.r, Root)) && Safe(t.r, InRight(t.n, t.l, Root))
  {
    var c := CtxOf(InLeft(t.n, t.r, Root));
    assert CtxOf(Root) == Top && Abs(t.r) == Leaf(t.r.i, Final);
    assert c == CatLeft(Leaf(t.r.i, Final), Top);
    assert t.l.Tip? ==> !IsFinal(t.l.n);
  }

  lemma SafeBelow(t: Shape, s: Shape, a: Anc)
    requires NoFinal(t) && !a.Root? && Guarded(false, CtxOf(a.up))
    requires (t.Unary? && s == t.sub) || (t.Binary? && (s == t.l || s == t.r))
    ensures Safe(s, a)
  {
    assert NoFinal(s);
    assert s.Tip? ==> !IsFinal(s.n);
    var c := CtxOf(a);
    assert c.up == CtxOf(a.up);
  }

  /** Safety is inherited by the children. */
  lemma SafeChildren(t: Shape, a: Anc)
    requires Safe(t, a) && Describes(t)
    ensures t.Unary? ==> Safe(t.sub, InUnary(t.n, a))
    ensures t.Binary? ==> Safe(t.l, InLeft(t.n, t.r, a)) && Safe(t.r, InRight(t.n, t.l, a))
  {
    if a.Root? {
      SafeRoot(t);
    } else if t.Unary? {
      SafeBelow(t, t.sub, InUnary(t.n, a));
    } else if t.Binary? {
      SafeBelow(t, t.l, InLeft(t.n, t.r, a));
      SafeBelow(t, t.r, InRight(t.n, t.l, a));
    }
  }

  /** The LEAF case of `cfoll`. */
  method CfollLeaf(work: PosSet, re: array<Row>, v: Node, ghost t: Shape, ghost a: Anc, ghost w: Shape)
    requires v == t.n && v.op.LeafOp? && t.Tip?
    requires w == Whole(t, a) && Entered(w) && Numbered(w, 0) && Guarded(IsFinal(v), CtxOf(a))
    requires work.setvec.Length == re.Length == LeafCount(w)
    modifies re, work`setcnt, work`marked, work.setvec
    ensures t.i < re.Length && RowOk(re[t.i], Abs(w), t.i)
    ensures forall i: nat :: i < re.Length && i != t.i ==> re[i] == old(re[i])
  {
    NodesAllocated(w);
    WholeEntered(t, a);
    NumberedLinear(w, 0);
    WholeAbs(t, a);
    PlugPos(Abs(t), CtxOf(a));
    assert t.i in Pos(Abs(t));
    assert v.index == t.i;
    work.Clear();
    work.CollectFollow(v, t, a, w);
    var list := SetToList(work);
    LeafRow(t, a, w, list);
    re[v.index] := Row(v.op.sym, list);
  }

  /** `cfoll`: one follow list per leaf below `v`. */
  method Cfoll(work: PosSet, re: array<Row>, v: Node, ghost t: Shape, ghost a: Anc, ghost w: Shape)
    requires v == t.n && w == Whole(t, a) && Entered(w) && Numbered(w, 0) && Safe(t, a)
    requires work.setvec.Length == re.Length == LeafCount(w)
    modifies re, work`setcnt, work`marked, work.setvec
    ensures forall i: nat :: i < re.Length ==>
      if i in Pos(Abs(t)) then RowOk(re[i], Abs(w), i) else re[i] == old(re[i])
    decreases t
  {
    NodesAllocated(w);
    WholeEntered(t, a);
    SafeChildren(t, a);
    if v.op.LeafOp? {
      CfollLeaf(work, re, v, t, a, w);
    } else if v.op in {StarOp, PlusOp, QuestOp} {
      Cfoll(work, re, v.left, t.sub, InUnary(v, a), w);
    } else {
      Cfoll(work, re, v.left, t.l, InLeft(v, t.r, a), w);
      Cfoll(work, re, v.right, t.r, InRight(v, t.l, a), w);
    }
  }
}
