/**
 The bottom-up computation of follow sets, on values: a subtree together with the
 chain of its ancestors, and the set collected by climbing that chain.
 */
module Climbing {
  import opened Positions

  /** What surrounds a subtree, innermost ancestor first. */
  datatype Ctx =
    | Top
    | UnderStar(up: Ctx)
    | UnderPlus(up: Ctx)
    | UnderQuest(up: Ctx)
    | CatLeft(r: Re, up: Ctx)
    | CatRight(l: Re, up: Ctx)
    | OrLeft(r: Re, up: Ctx)
    | OrRight(l: Re, up: Ctx)

  /** The ancestor of `e` one level up. */
  function Wrap(e: Re, ctx: Ctx): Re
    requires !ctx.Top?
  {
    match ctx
    case UnderStar(_) => Star(e)
    case UnderPlus(_) => Plus(e)
    case UnderQuest(_) => Quest(e)
    case CatLeft(r, _) => Cat(e, r)
    case CatRight(l, _) => Cat(l, e)
    case OrLeft(r, _) => Or(e, r)
    case OrRight(l, _) => Or(l, e)
  }

  /** The whole tree. */
  function Plug(e: Re, ctx: Ctx): Re
    decreases ctx
  {
    if ctx.Top? then e else Plug(Wrap(e, ctx), ctx.up)
  }

  /** The positions gathered on the way up from `e`. */
  function Climb(e: Re, ctx: Ctx): set<nat>
    decreases ctx
  {
    match ctx
    case Top => {}
    case CatLeft(r, up) => First(r) + (if Nullable(r) then Climb(Cat(e, r), up) else {})
    case UnderStar(up) => First(e) + Climb(Star(e), up)
    case UnderPlus(up) => First(e) + Climb(Plus(e), up)
    case _ => Climb(Wrap(e, ctx), ctx.up)
  }

  lemma {:induction false} PlugLinear(e: Re, ctx: Ctx)
    requires Linear(Plug(e, ctx))
    ensures Linear(e)
    decreases ctx
  {
    if !ctx.Top? { PlugLinear(Wrap(e, ctx), ctx.up); }
  }

  lemma {:induction false} PlugPos(e: Re, ctx: Ctx)
    ensures Pos(e) <= Pos(Plug(e, ctx))
    decreases ctx
  {
    if !ctx.Top? { PlugPos(Wrap(e, ctx), ctx.up); }
  }

  /**
   The follow set of a position in the whole tree is its follow set inside any enclosing
   subtree, plus what climbing from that subtree collects when the position can end it.
   */
  lemma {:induction false} ClimbFollow(e: Re, ctx: Ctx, p: nat)
    requires Linear(Plug(e, ctx)) && p in Pos(e)
    ensures Follow(Plug(e, ctx), p) == Follow(e, p) + (if p in Last(e) then Climb(e, ctx) else {})
    decreases ctx
  {
    if !ctx.Top? {
      var w := Wrap(e, ctx);
      ClimbFollow(w, ctx.up, p);
      PlugLinear(w, ctx.up);
      match ctx
      case CatLeft(r, _) => FollowOutside(r, p);
      case CatRight(l, _) => FollowOutside(l, p);
      case OrLeft(r, _) => FollowOutside(r, p);
      case OrRight(l, _) => FollowOutside(l, p);
      case _ =>
    }
  }

  /** Climbing from a leaf yields exactly the positions that can come right after it. */
  lemma LeafClimb(p: nat, y: Sym, ctx: Ctx)
    requires Linear(Plug(Leaf(p, y), ctx))
    ensures Climb(Leaf(p, y), ctx) == Follow(Plug(Leaf(p, y), ctx), p)
  {
    ClimbFollow(Leaf(p, y), ctx, p);
  }

  lemma {:induction false} PlugLeafAt(e: Re, ctx: Ctx, p: nat, y: Sym)
    requires LeafAt(e, p, y)
    ensures LeafAt(Plug(e, ctx), p, y)
    decreases ctx
  {
    if !ctx.Top? { PlugLeafAt(Wrap(e, ctx), ctx.up, p, y); }
  }
}
