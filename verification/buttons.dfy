/** A pressure button (GameObjects/Button/Button.cs): active exactly while a character is on it. */
module Buttons {
  import opened Geometry
  import Characters

  datatype Button = Button(kind: string, pos: Vec, w: real, h: real, activated: bool)

  /** The constructor: the box sits on the map object's bottom edge; deactivated. */
  function NewButton(kind: string, objX: real, objY: real, objHeight: real, w: real, h: real): (r: Button)
    ensures r.kind == kind && r.pos == Vec(objX, objY - objHeight) && r.w == w && r.h == h
    ensures !r.activated
  {
    Button(kind, Vec(objX, objY - objHeight), w, h, false)
  }

  function GetAABB(b: Button): (r: Rect)
    ensures Left(r) == b.pos.x && Top(r) == b.pos.y && r.w == b.w && r.h == b.h
  {
    Rect(b.pos.x, b.pos.y, b.w, b.h)
  }

  function IsCharacterInRange(b: Button, c: Characters.Character): (r: bool)
    ensures r <==> Intersects(GetAABB(b), Characters.AABB(c))
  {
    IntersectsSymmetric(Characters.AABB(c), GetAABB(b));
    Intersects(Characters.AABB(c), GetAABB(b))
  }

  /** CanInteract: any character may press a button. */
  function CanInteract(b: Button, c: Characters.Character): (r: bool)
    ensures r
  {
    true
  }

  /** Interact: the button becomes active iff this character is on it, whatever it was before. */
  function Interact(b: Button, c: Characters.Character): (r: Button)
    ensures r.activated <==> IsCharacterInRange(b, c)
    ensures r.(activated := b.activated) == b
  {
    if IsCharacterInRange(b, c) then b.(activated := true) else b.(activated := false)
  }

  /** Interacting twice with the same character position is the same as once. */
  lemma InteractIdempotent(b: Button, c: Characters.Character)
    ensures Interact(Interact(b, c), c) == Interact(b, c)
  {
  }
}
