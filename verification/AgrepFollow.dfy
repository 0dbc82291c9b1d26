/**
 bin/agrep/follow.c, `mk_followpos`: follow sets computed in one walk down the tree, and their
 agreement with awk's walk up the tree (bin/awk/b.c, `follow`).
 */
module AgrepFollow {
  import opened Positions
  import opened Climbing
  import opened AgrepSyntax
  import opened AgrepVerdict
  import opened AgrepParse

  /** `now[i]` has gained exactly the members of `more(i)`. */
  ghost predicate Gained(now: seq<nat>, was: seq<nat>, more: set<nat>) {
    NoDup(now) && forall x :: x in now <==> x in was || x in more
  }

  ghost predicate NoDups(fpos: seq<seq<nat>>) { forall i :: 0 <= i < |fpos| ==> NoDup(fpos[i]) }

  /** `now` is `was`, with `first` joined to it if `hit`. */
  ghost predicate JoinedIf(now: seq<nat>, was: seq<nat>, hit: bool, first: seq<nat>) {
    NoDup(now) && forall x :: x in now <==> x in was || (hit && x in first)
  }

  /** The loops of `mk_followpos_1`: `first` is joined to the set of every position in `last`. */
  method JoinAll(last: seq<nat>, first: seq<nat>, fpos: array<seq<nat>>)
    requires NoDup(first) && NoDups(fpos[..]) && forall k :: 0 <= k < |last| ==> last[k] < fpos.Length
    modifies fpos
    ensures NoDups(fpos[..])
    ensures forall i: nat :: i < fpos.Length ==> JoinedIf(fpos[i], old(fpos[i]), i in last, first)
  {
    forall i: nat | i < fpos.Length ensures NoDup(fpos[i]) { assert fpos[i] == fpos[..][i]; }
    for k := 0 to |last|
      invariant forall i: nat :: i < fpos.Length ==> JoinedIf(fpos[i], old(fpos[i]), i in last[..k], first)
    {
      var i := last[k];
      assert last[..k + 1] == last[..k] + [i];
      assert JoinedIf(fpos[i], old(fpos[i]), i in last[..k], first);
      var u := PsetUnion(first, fpos[i]);
      fpos[i] := u;
    }
    assert last[..|last|] == last;
  }

  /** Every position of the tree has a set in the table. */
  ghost predicate Fits(e: Node, fpos: array<seq<nat>>) {
    forall p :: p in Pos(Tree(e)) ==> p < fpos.Length
  }

  lemma PartFits(e: Node, part: Node, fpos: array<seq<nat>>)
    requires Fits(e, fpos) && Pos(Tree(part)) <= Pos(Tree(e))
    ensures Fits(part, fpos)
  {
  }

  lemma LastFits(e: Node, fpos: array<seq<nat>>)
    requires Right(e) && Fits(e, fpos)
    ensures forall k :: 0 <= k < |e.last| ==> e.last[k] < fpos.Length
  {
    SetsInPos(Tree(e), 0);
    forall k | 0 <= k < |e.last| ensures e.last[k] < fpos.Length {
      assert e.last[k] in e.last;
    }
  }

  /** `mk_followpos_1`. */
  method MkFollowpos1(e: Node, fpos: array<seq<nat>>)
    requires Right(e) && Fits(e, fpos) && NoDups(fpos[..])
    modifies fpos
    ensures NoDups(fpos[..])
    ensures forall i: nat :: i < fpos.Length ==> Gained(fpos[i], old(fpos[i]), Follow(Tree(e), i))
    decreases e
  {
    forall i: nat | i < fpos.Length ensures NoDup(fpos[i]) { assert fpos[i] == fpos[..][i]; }
    match e
    case LitNode(_, _, _, _, _) =>
    case EosNode(_, _, _, _) =>
    case StarNode(c, _, _, _) =>
      PartFits(e, c, fpos);
      LastFits(e, fpos);
      JoinAll(e.last, e.first, fpos);
      MkFollowpos1(c, fpos);
    case CatNode(l, r, _, _, _) =>
      PartFits(e, l, fpos);
      PartFits(e, r, fpos);
      LastFits(l, fpos);
      JoinAll(l.last, r.first, fpos);
      MkFollowpos1(l, fpos);
      MkFollowpos1(r, fpos);
    case OptNode(c, _, _, _) =>
      PartFits(e, c, fpos);
      MkFollowpos1(c, fpos);
    case AltNode(l, r, _, _, _) =>
      PartFits(e, l, fpos);
      PartFits(e, r, fpos);
      MkFollowpos1(l, fpos);
      MkFollowpos1(r, fpos);
  }

  /** `mk_followpos`: the table of follow sets of the whole tree. */
  method MkFollowpos(tree: Node, npos: nat) returns (fpos: array<seq<nat>>)
    requires Right(tree) && forall p :: p in Pos(Tree(tree)) ==> p <= npos
    ensures fresh(fpos) && fpos.Length == npos + 1
    ensures forall i: nat :: i <= npos ==> Pset(fpos[i], Follow(Tree(tree), i))
  {
    fpos := new seq<nat>[npos + 1](_ => []);
    MkFollowpos1(tree, fpos);
    forall i: nat | i <= npos ensures Pset(fpos[i], Follow(Tree(tree), i)) {
      assert Gained(fpos[i], [], Follow(Tree(tree), i));
    }
  }

  /** `init` up to the table: parse, then the follow sets. */
  method Init(toks: seq<Token>, posCnt: nat) returns (r: Result, fpos: array<seq<nat>>)
    requires forall k :: 0 <= k < |toks| && toks[k].Lit? ==> Lexed(toks[k].y)
    ensures r.Ptr? <==> Derivable(toks)
    ensures r.Crash? <==> Crashes(toks)
    ensures r.Ptr? ==> Linear(Tree(r.node)) && Right(r.node) && fpos.Length == posCnt + Lits(toks) + 1
    ensures r.Ptr? ==> exists t :: IsAlt(t, toks, posCnt) && Tree(r.node) == Cat(t, Leaf(posCnt + Lits(toks), Final))
    ensures r.Ptr? ==> forall i: nat :: i < fpos.Length ==> Pset(fpos[i], Follow(Tree(r.node), i))
  {
    var parser := new Parser(toks, posCnt);
    var finalPos;
    r, finalPos := parser.Parse();
    if !r.Ptr? {
      fpos := new seq<nat>[0];
    } else {
      AltShape(Tree(r.node).l, toks, posCnt);
      fpos := MkFollowpos(r.node, finalPos);
    }
  }

  /**
   The set at a leaf's position in the table is what awk collects by climbing from that leaf,
   and it holds just the positions that can come right after it.
   */
  lemma DownIsUp(tree: Re, p: nat, y: Sym, ctx: Ctx, set0: seq<nat>, q: nat)
    requires Linear(tree) && Plug(Leaf(p, y), ctx) == tree && Pset(set0, Follow(tree, p))
    ensures Pset(set0, Climb(Leaf(p, y), ctx))
    ensures q in set0 <==> exists u: seq<int>, w: seq<int> :: In(true, tree, u + [p] + ([q] + w))
  {
    LeafClimb(p, y, ctx);
    FollowMeaning(tree, p, q);
  }
}
