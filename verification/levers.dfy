/**
  A lever (GameObjects/Levers/Lever.cs): a toggle that accepts a new
  toggle only once its debounce timer has run past LEVER_DEBOUNCE_TICKS.
 */
module Levers {
  import opened Geometry
  import opened GameConstants
  import Characters
  import Timers

  /** `pos` is the top-left of the lever's box; `w`/`h` its sprite size. */
  datatype Lever = Lever(kind: string, pos: Vec, w: real, h: real, activated: bool, timer: Timers.Timer)

  /** The constructor: the box sits on the map object's bottom edge; deactivated; timer not started. */
  function NewLever(kind: string, objX: real, objY: real, objHeight: real, w: real, h: real): (r: Lever)
    ensures r.kind == kind && r.pos == Vec(objX, objY - objHeight) && r.w == w && r.h == h
    ensures !r.activated && !r.timer.started
  {
    Lever(kind, Vec(objX, objY - objHeight), w, h, false, Timers.NewTimer())
  }

  function GetAABB(l: Lever): (r: Rect)
    ensures Left(r) == l.pos.x && Top(r) == l.pos.y && r.w == l.w && r.h == l.h
  {
    Rect(l.pos.x, l.pos.y, l.w, l.h)
  }

  /** IsCharacterInRange: the character's box intersects the lever's. */
  function IsCharacterInRange(l: Lever, c: Characters.Character): (r: bool)
    ensures r <==> Intersects(GetAABB(l), Characters.AABB(c))
  {
    IntersectsSymmetric(Characters.AABB(c), GetAABB(l));
    Intersects(Characters.AABB(c), GetAABB(l))
  }

  /** CanInteract: any character may use a lever. */
  function CanInteract(l: Lever, c: Characters.Character): (r: bool)
    ensures r
  {
    true
  }

  /** ToggleLever: flip the activation flag. */
  function ToggleLever(l: Lever): (r: Lever)
    ensures r.activated != l.activated
    ensures r.(activated := l.activated) == l
  {
    l.(activated := !l.activated)
  }

  lemma ToggleTwiceIsIdentity(l: Lever)
    ensures ToggleLever(ToggleLever(l)) == l
  {
  }

  /**
    Interact: an idle timer is started and the lever toggles; a running
    timer past the debounce threshold is reset (and keeps running) and the
    lever toggles; otherwise nothing happens. The character is not read.
   */
  function Interact(l: Lever, c: Characters.Character): (r: Lever)
    ensures !l.timer.started ==> r.activated != l.activated && r.timer == Timers.Timer(true, 0)
    ensures l.timer.started && l.timer.ticks > LEVER_DEBOUNCE_TICKS ==>
      r.activated != l.activated && r.timer == Timers.Timer(true, 0)
    ensures l.timer.started && l.timer.ticks <= LEVER_DEBOUNCE_TICKS ==> r == l
    ensures r.kind == l.kind && r.pos == l.pos && r.w == l.w && r.h == l.h
  {
    if !l.timer.started then
      ToggleLever(l.(timer := Timers.Start(l.timer)))
    else if l.timer.ticks > LEVER_DEBOUNCE_TICKS then
      ToggleLever(l.(timer := Timers.Reset(l.timer)))
    else l
  }

  /** ResetTimer: stop the timer (a stopped timer reads zero). */
  function ResetTimer(l: Lever): (r: Lever)
    ensures !r.timer.started && r.timer.ticks == 0
    ensures r.(timer := l.timer) == l
  {
    l.(timer := Timers.Reset(Timers.Stop(l.timer)))
  }

  /** After ResetTimer the very next Interact toggles, however recently the lever last toggled. */
  lemma ResetThenInteractToggles(l: Lever, c: Characters.Character)
    ensures Interact(ResetTimer(l), c).activated == !l.activated
  {
  }

  /**
    Debounce: once a lever has toggled, further interactions before the
    threshold has passed do nothing, and the first one after it toggles
    again.
   */
  lemma DebounceWindow(l: Lever, c: Characters.Character, elapsed: nat)
    requires Interact(l, c).activated != l.activated
    ensures var once := Interact(l, c);
      var later := once.(timer := Timers.Advance(once.timer, elapsed));
      && (elapsed <= LEVER_DEBOUNCE_TICKS ==> Interact(later, c) == later)
      && (elapsed > LEVER_DEBOUNCE_TICKS ==> Interact(later, c).activated == l.activated)
  {
    assert Interact(l, c).timer == Timers.Timer(true, 0);
  }
}
