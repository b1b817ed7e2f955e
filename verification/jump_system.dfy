/** The jump rule (Physics/JumpSystem.cs). */
module JumpSystem {
  import opened Geometry
  import opened GameConstants
  import Characters

  /** A jump fires exactly when grounded, allowed to jump and the key is pressed. */
  predicate Fires(c: Characters.Character, jumpPressed: bool)
  {
    c.grounded && c.canJump && jumpPressed
  }

  /**
    HandleJump: when it fires, the vertical velocity becomes JUMP_FORCE and
    the character is airborne and unable to jump again; otherwise nothing
    changes. The horizontal velocity and the position are never touched.
   */
  function HandleJump(c: Characters.Character, jumpPressed: bool): (r: Characters.Character)
    ensures !Fires(c, jumpPressed) ==> r == c
    ensures Fires(c, jumpPressed) ==> r.vel.y == JUMP_FORCE && !r.canJump && !r.grounded
    ensures r.vel.x == c.vel.x && r.base == c.base
    ensures r == c.(vel := r.vel, canJump := r.canJump, grounded := r.grounded)
  {
    if c.grounded && c.canJump && jumpPressed then
      c.(vel := Vec(c.vel.x, JUMP_FORCE), canJump := false, grounded := false)
    else c
  }

  /** Two calls with no reset in between fire at most once. */
  lemma JumpFiresAtMostOnce(c: Characters.Character, p: bool, q: bool)
    requires Fires(c, p)
    ensures !Fires(HandleJump(c, p), q)
    ensures HandleJump(HandleJump(c, p), q) == HandleJump(c, p)
  {
  }
}
