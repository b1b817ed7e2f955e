/**
  The player character (Characters/Character.cs): its collision box, the
  centre-based Position property over a stored sprite-corner position, the
  constructor's initial state and the choice of animation action.
 */
module Characters {
  import opened Geometry
  import opened GameConstants

  /** The animation actions a character can show. */
  datatype Action = Idle | MoveLeft | MoveRight | Jump | Fall

  /** The three input queries of a character for one tick (key bindings are I/O). */
  datatype Input = Input(left: bool, right: bool, jump: bool)

  /**
    A character. `base` is the stored sprite top-left position; the public
    Position is `base + centre`, where `centre` is the idle sprite's centre
    point. `spriteWidth`/`spriteHeight` are the idle sprite's unscaled size,
    from which the constructor derives the fixed collision extents.
   */
  datatype Character = Character(
    kind: string,
    base: Vec,
    centre: Vec,
    vel: Vec,
    grounded: bool,
    canJump: bool,
    dead: bool,
    spriteWidth: nat,
    spriteHeight: nat,
    action: Action)

  function HalfWidth(c: Character): real { c.spriteWidth as real * SPRITE_SCALE / 2.0 }
  function HalfHeight(c: Character): real { c.spriteHeight as real * SPRITE_SCALE / 2.0 }
  function HairHeight(c: Character): real { (c.spriteHeight - HEAD_TO_LEG_PIXELS) as real * SPRITE_SCALE }
  function CollisionWidth(c: Character): real { c.spriteWidth as real * SPRITE_SCALE }
  function CollisionHeight(c: Character): real { c.spriteHeight as real * SPRITE_SCALE - HairHeight(c) }

  /** The Position getter: the stored corner plus the sprite centre offset. */
  function Position(c: Character): Vec
  {
    Add(c.base, c.centre)
  }

  /** The Position setter: stores the corner that makes the getter return `v`. */
  function WithPosition(c: Character, v: Vec): (r: Character)
    ensures Position(r) == v
    ensures r.(base := c.base) == c
  {
    c.(base := Sub(v, c.centre))
  }

  /**
    The collision box. Its height is the head-to-leg height whatever the
    sprite's height, its bottom is the centre plus half the sprite height
    and its horizontal extent is centred on the position.
   */
  function AABB(c: Character): (r: Rect)
    ensures r.w == 2.0 * HalfWidth(c) && r.h == HEAD_TO_LEG_PIXELS as real * SPRITE_SCALE
    ensures r.h > 0.0 && (c.spriteWidth > 0 ==> r.w > 0.0)
    ensures Left(r) == Position(c).x - HalfWidth(c) && Right(r) == Position(c).x + HalfWidth(c)
    ensures Top(r) == Position(c).y - HalfHeight(c) + HairHeight(c)
    ensures Bottom(r) == Position(c).y + HalfHeight(c)
  {
    var p := Position(c);
    Rect(p.x - HalfWidth(c), p.y - HalfHeight(c) + HairHeight(c), CollisionWidth(c), CollisionHeight(c))
  }

  /** Two characters at the same position with the same sprite have the same box. */
  lemma AABBDependsOnlyOnPositionAndSprite(c: Character, d: Character)
    requires Position(c) == Position(d)
    requires c.spriteWidth == d.spriteWidth && c.spriteHeight == d.spriteHeight
    ensures AABB(c) == AABB(d)
  {
  }

  /** The constructor: zero velocity, airborne, able to jump, alive, idle. */
  function NewCharacter(kind: string, spriteWidth: nat, spriteHeight: nat, centre: Vec): (r: Character)
    ensures r.kind == kind && Position(r) == centre
    ensures r.vel == Vec(0.0, 0.0) && !r.grounded && r.canJump && !r.dead
    ensures r.action == Idle
  {
    Character(kind, Vec(0.0, 0.0), centre, Vec(0.0, 0.0), false, true, false, spriteWidth, spriteHeight, Idle)
  }

  /** Switch the current action; a no-op when it is already the current one. */
  function SetCurrentAction(c: Character, a: Action): (r: Character)
    ensures r.action == a
    ensures r.(action := c.action) == c
    ensures c.action == a ==> r == c
  {
    if c.action != a then c.(action := a) else c
  }

  /**
    Character.Update: pick the animation from the physics state and the
    input. Left input wins over right; an airborne character with zero
    vertical velocity keeps its current action.
   */
  function UpdateAnimation(c: Character, input: Input): (r: Character)
    ensures r.(action := c.action) == c
    ensures !c.grounded && c.vel.y == 0.0 ==> r == c
    ensures (c.grounded || c.vel.y != 0.0) && input.left ==> r.action == MoveLeft
    ensures (c.grounded || c.vel.y != 0.0) && !input.left && input.right ==> r.action == MoveRight
    ensures !input.left && !input.right ==>
      r.action == (if c.grounded then Idle else if c.vel.y > 0.0 then Fall else if c.vel.y < 0.0 then Jump else c.action)
  {
    if !c.grounded && c.vel.y > 0.0 then
      if input.left then SetCurrentAction(c, MoveLeft)
      else if input.right then SetCurrentAction(c, MoveRight)
      else SetCurrentAction(c, Fall)
    else if !c.grounded && c.vel.y < 0.0 then
      if input.left then SetCurrentAction(c, MoveLeft)
      else if input.right then SetCurrentAction(c, MoveRight)
      else SetCurrentAction(c, Jump)
    else if c.grounded then
      if input.left then SetCurrentAction(c, MoveLeft)
      else if input.right then SetCurrentAction(c, MoveRight)
      else SetCurrentAction(c, Idle)
    else
      c
  }
}
