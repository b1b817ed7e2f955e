/**
  An exit door (GameObjects/Doors/ExitDoor.cs): a type-gated latch that
  opens while its own character stands in it and closes when that
  character leaves.
 */
module ExitDoors {
  import opened Geometry
  import Characters

  /** The door's sprite is drawn at this scale, and its box has the scaled size. */
  const DOOR_SCALE: real := 0.8

  datatype ExitDoor = ExitDoor(kind: string, pos: Vec, w: real, h: real, interacted: bool, activated: bool)

  /**
    The constructor: the box is the sprite scaled by DOOR_SCALE, standing on
    the map object's y; closed and deactivated.
   */
  function NewExitDoor(kind: string, objX: real, objY: real, spriteWidth: real, spriteHeight: real): (r: ExitDoor)
    ensures r.kind == kind && r.w == spriteWidth * DOOR_SCALE && r.h == spriteHeight * DOOR_SCALE
    ensures Bottom(GetAABB(r)) == objY && Left(GetAABB(r)) == objX
    ensures !r.interacted && !r.activated
  {
    var h := spriteHeight * DOOR_SCALE;
    ExitDoor(kind, Vec(objX, objY - h), spriteWidth * DOOR_SCALE, h, false, false)
  }

  function GetAABB(d: ExitDoor): (r: Rect)
    ensures Left(r) == d.pos.x && Top(r) == d.pos.y && r.w == d.w && r.h == d.h
  {
    Rect(d.pos.x, d.pos.y, d.w, d.h)
  }

  function IsCharacterInRange(d: ExitDoor, c: Characters.Character): (r: bool)
    ensures r <==> Intersects(GetAABB(d), Characters.AABB(c))
  {
    IntersectsSymmetric(Characters.AABB(c), GetAABB(d));
    Intersects(Characters.AABB(c), GetAABB(d))
  }

  /** CanInteract: the door's own character, standing in it. */
  function CanInteract(d: ExitDoor, c: Characters.Character): (r: bool)
    ensures r <==> c.kind == d.kind && Intersects(GetAABB(d), Characters.AABB(c))
  {
    IntersectsSymmetric(Characters.AABB(c), GetAABB(d));
    c.kind == d.kind && IsCharacterInRange(d, c)
  }

  /**
    Interact: the matching character in range opens a closed door; the
    matching character out of range closes an open one; anything else
    leaves the door as it is.
   */
  function Interact(d: ExitDoor, c: Characters.Character): (r: ExitDoor)
    ensures c.kind != d.kind ==> r == d
    ensures c.kind == d.kind && IsCharacterInRange(d, c) && !d.interacted ==> r.interacted && r.activated
    ensures c.kind == d.kind && IsCharacterInRange(d, c) && d.interacted ==> r == d
    ensures c.kind == d.kind && !IsCharacterInRange(d, c) && d.interacted ==> !r.interacted && !r.activated
    ensures !IsCharacterInRange(d, c) && !d.interacted ==> r == d
    ensures r.(interacted := d.interacted, activated := d.activated) == d
  {
    if IsCharacterInRange(d, c) then
      if c.kind == d.kind && !d.interacted then d.(interacted := true, activated := true) else d
    else if d.interacted && !IsCharacterInRange(d, c) then
      if c.kind == d.kind then d.(interacted := false, activated := false) else d
    else d
  }

  /** The door's two flags agree. */
  predicate Consistent(d: ExitDoor)
  {
    d.interacted == d.activated
  }

  /** Interact keeps the two flags in step, and for a consistent door they then say whether its character is in it. */
  lemma InteractKeepsConsistent(d: ExitDoor, c: Characters.Character)
    requires Consistent(d)
    ensures Consistent(Interact(d, c))
    ensures c.kind == d.kind ==> (Interact(d, c).activated <==> IsCharacterInRange(d, c))
  {
  }
}
