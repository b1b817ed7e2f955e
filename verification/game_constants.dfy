/**
  The tuning constants of the game, read as exact decimals (the source
  declares most of them as single-precision floats; rounding is not
  modelled).
 */
module GameConstants {

  /** Scale applied to every character sprite. */
  const SPRITE_SCALE: real := 0.1
  /** Height in sprite pixels of a character from head to feet, hair excluded. */
  const HEAD_TO_LEG_PIXELS: int := 280

  /** Side of one square map tile, in world units. */
  const TILE_SIZE: real := 16.0
  /** Downward acceleration added to the vertical velocity every tick. */
  const GRAVITY_STRENGTH: real := 0.001
  /** Vertical velocity given by a jump (negative is up). */
  const JUMP_FORCE: real := -0.31
  /** Horizontal walking speed, also the per-tick step of a moving platform. */
  const MOVE_SPEED: real := 0.2
  /** Factor applied to the horizontal velocity when no direction is held. */
  const FRICTION: real := 0.85
  /** Largest downward velocity gravity can produce. */
  const TERMINAL_VELOCITY: real := 15.0

  /** Horizontal speeds below this magnitude snap to zero under friction. */
  const FRICTION_CUTOFF: real := 0.1
  /** Step length of the swept-movement march. */
  const SWEEP_STEP: real := 0.1
  /** Timer ticks a lever waits before it accepts another toggle. */
  const LEVER_DEBOUNCE_TICKS: nat := 10000
  /** Tile GIDs in this closed range are solid. */
  const FIRST_SOLID_GID: int := 1
  const LAST_SOLID_GID: int := 7

  /** Type tags of characters and type-gated objects. */
  const FIRE: string := "fire"
  const WATER: string := "water"
  const MUD: string := "mud"
}
