/**
  The per-tick character integrator (Physics/PhysicsSystem.cs): horizontal
  input with friction, the jump, the grounded reset, gravity, then an X
  sweep followed by a Y sweep against the tile grid.
 */
module PhysicsSystem {
  import opened Geometry
  import opened GameConstants
  import Characters
  import Solids
  import CollisionDetector
  import GravitySystem
  import JumpSystem
  import MovementSystem

  /** Friction: vx scaled by FRICTION, snapped to 0 once its magnitude drops below the cutoff. */
  function Friction(vx: real): (r: real)
    ensures Abs(r) <= Abs(vx)
    ensures r == 0.0 || Abs(r) >= FRICTION_CUTOFF
    ensures r != 0.0 ==> (r > 0.0 <==> vx > 0.0)
  {
    var slowed := vx * FRICTION;
    if Abs(slowed) < FRICTION_CUTOFF then 0.0 else slowed
  }

  /**
    HandleMovementInput: left wins and sets -MOVE_SPEED, right alone sets
    +MOVE_SPEED, no input applies friction. vy is never touched.
   */
  function HandleMovementInput(c: Characters.Character, input: Characters.Input): (r: Characters.Character)
    ensures input.left ==> r.vel.x == -MOVE_SPEED
    ensures !input.left && input.right ==> r.vel.x == MOVE_SPEED
    ensures !input.left && !input.right ==> r.vel.x == Friction(c.vel.x)
    ensures r == c.(vel := Vec(r.vel.x, c.vel.y))
  {
    if input.left then c.(vel := Vec(-MOVE_SPEED, c.vel.y))
    else if input.right then c.(vel := Vec(MOVE_SPEED, c.vel.y))
    else c.(vel := Vec(Friction(c.vel.x), c.vel.y))
  }

  /** With no horizontal input, repeated ticks of friction never speed the character up. */
  lemma {:induction false} FrictionNeverAccelerates(vx: real, n: nat)
    ensures Abs(IterateFriction(vx, n)) <= Abs(vx)
    decreases n
  {
    if n > 0 {
      FrictionNeverAccelerates(vx, n - 1);
    }
  }

  /** n ticks of friction. */
  function IterateFriction(vx: real, n: nat): real
    decreases n
  {
    if n == 0 then vx else Friction(IterateFriction(vx, n - 1))
  }

  /**
    Everything before the sweeps: input, the jump (judged on the previous
    tick's grounded flag), the grounded reset, then gravity, which therefore
    always applies.
   */
  function Integrate(c: Characters.Character, input: Characters.Input): (r: Characters.Character)
    ensures r.vel.y == Min((if JumpSystem.Fires(c, input.jump) then JUMP_FORCE else c.vel.y) + GRAVITY_STRENGTH,
                           TERMINAL_VELOCITY)
    ensures r.vel.x == HandleMovementInput(c, input).vel.x
    ensures !r.grounded
    ensures r.canJump == (c.canJump && !JumpSystem.Fires(c, input.jump))
    ensures r == c.(vel := r.vel, grounded := false, canJump := r.canJump)
  {
    var moved := HandleMovementInput(c, input);
    var jumped := JumpSystem.HandleJump(moved, input.jump);
    var airborne := jumped.(grounded := false);
    var s := GravitySystem.ApplyGravity(Solids.CharSolid(airborne));
    s.ch
  }

  /** The state after the X sweep by the integrated vx. */
  function SweepX(c: Characters.Character, input: Characters.Input, g: CollisionDetector.Grid): (r: Solids.Solid)
    ensures r.CharSolid?
  {
    var i := Integrate(c, input);
    MovementSystem.AxisLength(i.vel.x);
    MovementSystem.MoveWithCollisionCheck(Solids.CharSolid(i), g, i.vel.x, 0.0, Abs(i.vel.x))
  }

  /**
    UpdateCharacter: Integrate, then the X sweep, then the Y sweep by the
    velocity left after the X sweep. The result never falls faster than
    TERMINAL_VELOCITY, is grounded only if the downward Y sweep was
    blocked, and a collision-free character stays collision-free.
   */
  function UpdateCharacter(c: Characters.Character, input: Characters.Input, g: CollisionDetector.Grid): (r: Characters.Character)
    ensures r.vel.y <= TERMINAL_VELOCITY
    ensures r.grounded <==>
      Integrate(c, input).vel.y > 0.0 && MovementSystem.Blocked(SweepX(c, input, g), g, 0.0, Integrate(c, input).vel.y)
    ensures r.grounded ==> r.canJump && r.vel.y == 0.0
    ensures !MovementSystem.Collides(Solids.CharSolid(c), g) ==> !MovementSystem.Collides(Solids.CharSolid(r), g)
    ensures r.kind == c.kind && r.dead == c.dead && r.action == c.action
  {
    var i := Integrate(c, input);
    assert Solids.AABB(Solids.CharSolid(i)) == Solids.AABB(Solids.CharSolid(c));
    var sx := SweepX(c, input, g);
    var vy := Solids.Vel(sx).y;
    MovementSystem.AxisLength(vy);
    var sy := MovementSystem.MoveWithCollisionCheck(sx, g, 0.0, vy, Abs(vy));
    sy.ch
  }
}
