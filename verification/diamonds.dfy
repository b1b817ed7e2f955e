/**
  A collectible diamond (GameObjects/Collectibles/Diamond.cs). A special
  diamond (the mud diamond) can be collected by anyone; any other only by
  the character of its own type. `id` tells apart diamonds that are
  otherwise equal, as object identity does in the source.
 */
module Diamonds {
  import opened Geometry
  import Characters

  datatype Diamond = Diamond(id: nat, kind: string, special: bool, pos: Vec, w: real, h: real)

  /** The constructor: the sprite's box stands on the given point. */
  function NewDiamond(id: nat, kind: string, special: bool, position: Vec, spriteWidth: real, spriteHeight: real): (r: Diamond)
    ensures r.id == id && r.kind == kind && r.special == special
    ensures Bottom(GetAABB(r)) == position.y && Left(GetAABB(r)) == position.x
  {
    Diamond(id, kind, special, Vec(position.x, position.y - spriteHeight), spriteWidth, spriteHeight)
  }

  function GetAABB(d: Diamond): (r: Rect)
    ensures Left(r) == d.pos.x && Top(r) == d.pos.y && r.w == d.w && r.h == d.h
  {
    Rect(d.pos.x, d.pos.y, d.w, d.h)
  }

  function IsCharacterInRange(d: Diamond, c: Characters.Character): (r: bool)
    ensures r <==> Intersects(GetAABB(d), Characters.AABB(c))
  {
    IntersectsSymmetric(Characters.AABB(c), GetAABB(d));
    Intersects(Characters.AABB(c), GetAABB(d))
  }

  /** CanInteract: special diamonds admit everyone, others only their own type. */
  function CanInteract(d: Diamond, c: Characters.Character): (r: bool)
    ensures d.special ==> r
    ensures !d.special ==> (r <==> c.kind == d.kind)
  {
    if d.special then true else c.kind == d.kind
  }

  /** Interact has no effect on the diamond (collection is the manager's job). */
  function Interact(d: Diamond, c: Characters.Character): (r: Diamond)
    ensures r == d
  {
    d
  }

  /** Collectible by this character right now: in range and allowed. */
  predicate Collectible(d: Diamond, c: Characters.Character)
  {
    IsCharacterInRange(d, c) && CanInteract(d, c)
  }
}
