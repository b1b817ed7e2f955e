/**
  SolidObject (GameObjects/Base/SolidObject.cs): the capability shared by
  everything the movement code can push around — a Position, a Velocity,
  an IsGrounded flag and a collision box. Characters and platforms are the
  two solid kinds with behaviour.
 */
module Solids {
  import opened Geometry
  import Characters
  import Platforms

  datatype Solid = CharSolid(ch: Characters.Character) | PlatformSolid(pl: Platforms.Platform)

  function Pos(s: Solid): Vec
  {
    match s
    case CharSolid(c) => Characters.Position(c)
    case PlatformSolid(p) => p.pos
  }

  /** The Position setter of the underlying object; nothing else changes. */
  function SetPos(s: Solid, v: Vec): (r: Solid)
    ensures Pos(r) == v
    ensures r.CharSolid? <==> s.CharSolid?
    ensures r.CharSolid? ==> r.ch.(base := s.ch.base) == s.ch
    ensures r.PlatformSolid? ==> r.pl.(pos := s.pl.pos) == s.pl
  {
    match s
    case CharSolid(c) => CharSolid(Characters.WithPosition(c, v))
    case PlatformSolid(p) => PlatformSolid(p.(pos := v))
  }

  function Vel(s: Solid): Vec
  {
    match s
    case CharSolid(c) => c.vel
    case PlatformSolid(p) => p.vel
  }

  function SetVel(s: Solid, v: Vec): (r: Solid)
    ensures Vel(r) == v && Pos(r) == Pos(s) && Grounded(r) == Grounded(s)
    ensures r.CharSolid? <==> s.CharSolid?
    ensures r.CharSolid? ==> r.ch == s.ch.(vel := v)
    ensures r.PlatformSolid? ==> r.pl == s.pl.(vel := v)
  {
    match s
    case CharSolid(c) => CharSolid(c.(vel := v))
    case PlatformSolid(p) => PlatformSolid(p.(vel := v))
  }

  function Grounded(s: Solid): bool
  {
    match s
    case CharSolid(c) => c.grounded
    case PlatformSolid(p) => p.grounded
  }

  function SetGrounded(s: Solid, g: bool): (r: Solid)
    ensures Grounded(r) == g && Pos(r) == Pos(s) && Vel(r) == Vel(s)
    ensures r.CharSolid? <==> s.CharSolid?
    ensures r.CharSolid? ==> r.ch == s.ch.(grounded := g)
    ensures r.PlatformSolid? ==> r.pl == s.pl.(grounded := g)
  {
    match s
    case CharSolid(c) => CharSolid(c.(grounded := g))
    case PlatformSolid(p) => PlatformSolid(p.(grounded := g))
  }

  /** GetAABB of the underlying object. */
  function AABB(s: Solid): Rect
  {
    match s
    case CharSolid(c) => Characters.AABB(c)
    case PlatformSolid(p) => Platforms.GetAABB(p)
  }
}
