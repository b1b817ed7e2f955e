/** Gravity (Physics/GravitySystem.cs). */
module GravitySystem {
  import opened Geometry
  import opened GameConstants
  import Solids

  /**
    ApplyGravity: an airborne object accelerates downwards by
    GRAVITY_STRENGTH, capped at TERMINAL_VELOCITY; a grounded one is left
    alone. Only the vertical velocity ever changes.
   */
  function ApplyGravity(s: Solids.Solid): (r: Solids.Solid)
    ensures Solids.Grounded(s) ==> r == s
    ensures !Solids.Grounded(s) ==>
      r == Solids.SetVel(s, Vec(Solids.Vel(s).x, Min(Solids.Vel(s).y + GRAVITY_STRENGTH, TERMINAL_VELOCITY)))
    ensures !Solids.Grounded(s) ==> Solids.Vel(r).y <= TERMINAL_VELOCITY
    ensures Solids.Pos(r) == Solids.Pos(s) && Solids.Grounded(r) == Solids.Grounded(s)
    ensures Solids.Vel(r).x == Solids.Vel(s).x
  {
    if !Solids.Grounded(s) then
      var falling := Solids.SetVel(s, Vec(Solids.Vel(s).x, Solids.Vel(s).y + GRAVITY_STRENGTH));
      if Solids.Vel(falling).y > TERMINAL_VELOCITY then
        Solids.SetVel(falling, Vec(Solids.Vel(falling).x, TERMINAL_VELOCITY))
      else falling
    else s
  }
}
