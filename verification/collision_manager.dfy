/**
  The per-tick interaction passes (CollisionSystem/CollisionManager.cs):
  hazards set the game-over flag, exit doors latch the two exit flags,
  diamonds are selected for collection, levers and buttons drive the
  platforms they share a type with. Each `foreach` is a recursive function
  over the list; a `break` is an early return.
 */
module CollisionManager {
  import opened GameConstants
  import Characters
  import Platforms
  import Hazards
  import ExitDoors
  import Diamonds
  import Levers
  import Buttons
  import Timers
  import Solids
  import CollisionResolver
  import Geometry
  import Optional

  /** Activator classes of platforms. */
  const LEVER_ACTIVATOR: string := "Lever"
  const BUTTON_ACTIVATOR: string := "Button"

  // ---------------------------------------------------------------- hazards

  /** The character touches a pool of another type. */
  predicate Fatal(z: Hazards.Hazard, c: Characters.Character)
  {
    Hazards.IsCharacterInRange(z, c) && !Hazards.CanInteract(z, c)
  }

  /**
    CheckHazardCollisions: game over becomes true iff some hazard is fatal
    to the character; an already-set flag stays set.
   */
  function CheckHazardCollisions(c: Characters.Character, hazards: seq<Hazards.Hazard>, gameOver: bool): (r: bool)
    ensures r <==> gameOver || exists i :: 0 <= i < |hazards| && Fatal(hazards[i], c)
  {
    if |hazards| == 0 then gameOver
    else if Fatal(hazards[0], c) then true
    else
      var rest := CheckHazardCollisions(c, hazards[1..], gameOver);
      assert forall i :: 1 <= i < |hazards| ==> hazards[i] == hazards[1..][i - 1];
      rest
  }

  // ---------------------------------------------------------------- exit doors

  /**
    One half of a loop iteration, the door side: the door of colour
    `colour` against the character of that colour. In range, or out of range
    while open, the character interacts with it; otherwise it is untouched.
   */
  function StepDoor(d: ExitDoors.ExitDoor, ch: Characters.Character, colour: string): (r: ExitDoors.ExitDoor)
    ensures d.kind != colour ==> r == d
    ensures r.kind == d.kind
  {
    if d.kind == colour && (ExitDoors.IsCharacterInRange(d, ch) || d.activated) then ExitDoors.Interact(d, ch)
    else d
  }

  /**
    The flag side of the same half-iteration: in range, the flag is raised
    if the door is open after the interaction (and otherwise kept); out of
    range at an open door, the flag is lowered.
   */
  function StepFlag(d: ExitDoors.ExitDoor, ch: Characters.Character, colour: string, flag: bool): (r: bool)
    ensures d.kind != colour ==> r == flag
  {
    if d.kind == colour && ExitDoors.IsCharacterInRange(d, ch) then
      if ExitDoors.Interact(d, ch).activated then true else flag
    else if d.kind == colour && d.activated then false
    else flag
  }

  datatype DoorPass = DoorPass(doors: seq<ExitDoors.ExitDoor>, fireReached: bool, waterReached: bool)

  /**
    CheckExitDoorInteractions as written: doors in list order, each first
    against FireBoy for "fire" and then against WaterGirl for "water".
   */
  function CheckExitDoorInteractions(fireboy: Characters.Character, watergirl: Characters.Character,
                                     doors: seq<ExitDoors.ExitDoor>, fireReached: bool, waterReached: bool): (r: DoorPass)
    ensures |r.doors| == |doors|
    ensures forall i :: 0 <= i < |doors| ==> r.doors[i].kind == doors[i].kind
    decreases |doors|
  {
    if |doors| == 0 then DoorPass([], fireReached, waterReached)
    else
      var p := CheckExitDoorInteractions(fireboy, watergirl, doors[..|doors| - 1], fireReached, waterReached);
      var d := doors[|doors| - 1];
      var f := StepFlag(d, fireboy, FIRE, p.fireReached);
      var d1 := StepDoor(d, fireboy, FIRE);
      var w := StepFlag(d1, watergirl, WATER, p.waterReached);
      var d2 := StepDoor(d1, watergirl, WATER);
      DoorPass(p.doors + [d2], f, w)
  }

  /** The flag of one colour after the doors, ignoring the other colour entirely. */
  function Reach(doors: seq<ExitDoors.ExitDoor>, ch: Characters.Character, colour: string, flag: bool): bool
    decreases |doors|
  {
    if |doors| == 0 then flag
    else StepFlag(doors[|doors| - 1], ch, colour, Reach(doors[..|doors| - 1], ch, colour, flag))
  }

  /** A door of this colour that the loop acts on: the character is in it, or it is open. */
  predicate Relevant(d: ExitDoors.ExitDoor, ch: Characters.Character, colour: string)
  {
    d.kind == colour && (ExitDoors.IsCharacterInRange(d, ch) || d.activated)
  }

  /**
    The two colours do not interfere: the fire flag is the fire-only
    reference, the water flag the water-only one, and every door ends as the
    two single-colour steps leave it.
   */
  lemma {:induction false} DoorPassSplitsByColour(fireboy: Characters.Character, watergirl: Characters.Character,
                                                  doors: seq<ExitDoors.ExitDoor>, fr: bool, wr: bool)
    ensures var r := CheckExitDoorInteractions(fireboy, watergirl, doors, fr, wr);
      && r.fireReached == Reach(doors, fireboy, FIRE, fr)
      && r.waterReached == Reach(doors, watergirl, WATER, wr)
      && forall i :: 0 <= i < |doors| ==>
           r.doors[i] == StepDoor(StepDoor(doors[i], fireboy, FIRE), watergirl, WATER)
    decreases |doors|
  {
    if |doors| > 0 {
      var init := doors[..|doors| - 1];
      DoorPassSplitsByColour(fireboy, watergirl, init, fr, wr);
      var d := doors[|doors| - 1];
      assert FIRE != WATER;
      assert StepDoor(d, fireboy, FIRE).kind == d.kind;
    }
  }

  /**
    For the right character and doors whose two flags agree, the flag of a
    colour ends as "the character stands in the last door of that colour
    the loop acted on", or is unchanged when it acted on none.
   */
  lemma {:induction false} ReachIsLastRelevantDoor(doors: seq<ExitDoors.ExitDoor>, ch: Characters.Character,
                                                   colour: string, flag: bool)
    requires ch.kind == colour
    requires forall i :: 0 <= i < |doors| ==> ExitDoors.Consistent(doors[i])
    ensures Reach(doors, ch, colour, flag) <==>
      || (exists i :: 0 <= i < |doors| && Relevant(doors[i], ch, colour) && ExitDoors.IsCharacterInRange(doors[i], ch)
                      && forall j :: i < j < |doors| ==> !Relevant(doors[j], ch, colour))
      || (flag && forall i :: 0 <= i < |doors| ==> !Relevant(doors[i], ch, colour))
    decreases |doors|
  {
    if |doors| > 0 {
      var n := |doors| - 1;
      var init := doors[..n];
      ReachIsLastRelevantDoor(init, ch, colour, flag);
      var d := doors[n];
      ExitDoors.InteractKeepsConsistent(d, ch);
      assert forall i :: 0 <= i < n ==> init[i] == doors[i];
      if Relevant(d, ch, colour) {
        if ExitDoors.IsCharacterInRange(d, ch) {
          assert Reach(doors, ch, colour, flag);
        } else {
          assert !Reach(doors, ch, colour, flag);
        }
      }
    }
  }

  // ---------------------------------------------------------------- diamonds

  /**
    CheckDiamondInteraction: the diamonds this character can collect right
    now, in list order; the input list is not modified.
   */
  function CheckDiamondInteraction(c: Characters.Character, diamonds: seq<Diamonds.Diamond>): (r: seq<Diamonds.Diamond>)
    ensures forall d :: d in r <==> d in diamonds && Diamonds.Collectible(d, c)
    ensures multiset(r) <= multiset(diamonds)
    ensures |r| <= |diamonds|
  {
    if |diamonds| == 0 then []
    else
      var rest := CheckDiamondInteraction(c, diamonds[1..]);
      assert diamonds == [diamonds[0]] + diamonds[1..];
      if Diamonds.IsCharacterInRange(diamonds[0], c) && Diamonds.CanInteract(diamonds[0], c) then
        [diamonds[0]] + rest
      else rest
  }

  /** r[i] is the element of s at position idx[i]. */
  predicate PickedAt<T(==)>(s: seq<T>, r: seq<T>, idx: seq<int>)
  {
    |idx| == |r| && forall i :: 0 <= i < |idx| ==> 0 <= idx[i] < |s| && r[i] == s[idx[i]]
  }

  /** The positions strictly increase. */
  predicate Increasing(idx: seq<int>)
  {
    forall i, j :: 0 <= i < j < |idx| ==> idx[i] < idx[j]
  }

  /** The positions listed are exactly those of s holding a diamond this character can collect. */
  predicate CoversCollectible(c: Characters.Character, s: seq<Diamonds.Diamond>, idx: seq<int>)
  {
    forall k :: 0 <= k < |s| ==> (Diamonds.Collectible(s[k], c) <==> k in idx)
  }

  /**
    r is picked out of s at the strictly increasing positions idx, and those
    positions are exactly the ones holding a diamond this character can
    collect.
   */
  predicate PicksCollectible(c: Characters.Character, s: seq<Diamonds.Diamond>, r: seq<Diamonds.Diamond>, idx: seq<int>)
  {
    PickedAt(s, r, idx) && Increasing(idx) && CoversCollectible(c, s, idx)
  }

  /** Every position moved one place to the right. */
  function Shift(idx: seq<int>): (r: seq<int>)
    ensures |r| == |idx| && forall i :: 0 <= i < |idx| ==> r[i] == idx[i] + 1
  {
    seq(|idx|, i requires 0 <= i < |idx| => idx[i] + 1)
  }

  /** Positions k of s are positions k + 1 of s behind one more element. */
  lemma ShiftMembers(idx: seq<int>, k: int)
    ensures k in idx <==> k + 1 in Shift(idx)
  {
    var sh := Shift(idx);
    if k in idx {
      var i :| 0 <= i < |idx| && idx[i] == k;
      assert sh[i] == k + 1;
    }
    if k + 1 in sh {
      var i :| 0 <= i < |sh| && sh[i] == k + 1;
      assert idx[i] == k;
    }
  }

  /** A collectible diamond put in front is picked at position 0, the rest one place further on. */
  lemma PicksConsTaken(c: Characters.Character, x: Diamonds.Diamond, s: seq<Diamonds.Diamond>,
                       t: seq<Diamonds.Diamond>, idx: seq<int>)
    requires PicksCollectible(c, s, t, idx)
    requires Diamonds.Collectible(x, c)
    ensures PicksCollectible(c, [x] + s, [x] + t, [0] + Shift(idx))
  {
    var ds, r, pos := [x] + s, [x] + t, [0] + Shift(idx);
    assert PickedAt(ds, r, pos) by {
      forall i | 0 <= i < |pos|
        ensures 0 <= pos[i] < |ds| && r[i] == ds[pos[i]]
      {
        if i > 0 {
          assert pos[i] == idx[i - 1] + 1 && r[i] == t[i - 1];
        }
      }
    }
    assert Increasing(pos) by {
      forall i, j | 0 <= i < j < |pos|
        ensures pos[i] < pos[j]
      {
        assert pos[j] == idx[j - 1] + 1;
        if i > 0 {
          assert pos[i] == idx[i - 1] + 1;
        }
      }
    }
    assert CoversCollectible(c, ds, pos) by {
      forall k | 0 <= k < |ds|
        ensures Diamonds.Collectible(ds[k], c) <==> k in pos
      {
        if k > 0 {
          assert ds[k] == s[k - 1];
          ShiftMembers(idx, k - 1);
        }
      }
    }
  }

  /** A diamond put in front that cannot be collected is skipped, the rest one place further on. */
  lemma PicksConsSkipped(c: Characters.Character, x: Diamonds.Diamond, s: seq<Diamonds.Diamond>,
                         t: seq<Diamonds.Diamond>, idx: seq<int>)
    requires PicksCollectible(c, s, t, idx)
    requires !Diamonds.Collectible(x, c)
    ensures PicksCollectible(c, [x] + s, t, Shift(idx))
  {
    var ds, pos := [x] + s, Shift(idx);
    assert PickedAt(ds, t, pos) by {
      forall i | 0 <= i < |pos|
        ensures 0 <= pos[i] < |ds| && t[i] == ds[pos[i]]
      {
        assert pos[i] == idx[i] + 1;
      }
    }
    assert CoversCollectible(c, ds, pos) by {
      forall k | 0 <= k < |ds|
        ensures Diamonds.Collectible(ds[k], c) <==> k in pos
      {
        if k > 0 {
          assert ds[k] == s[k - 1];
          ShiftMembers(idx, k - 1);
        } else {
          assert forall i :: 0 <= i < |pos| ==> pos[i] >= 1;
        }
      }
    }
  }

  /**
    The collected diamonds are the collectible ones in their list order: a
    subsequence of the input at increasing positions, covering every
    collectible position and no other.
   */
  lemma {:induction false} CollectedInOrder(c: Characters.Character, diamonds: seq<Diamonds.Diamond>)
    ensures exists idx :: PicksCollectible(c, diamonds, CheckDiamondInteraction(c, diamonds), idx)
    decreases |diamonds|
  {
    if |diamonds| == 0 {
      assert CheckDiamondInteraction(c, diamonds) == [];
      assert PicksCollectible(c, diamonds, [], []);
    } else {
      var x := diamonds[0];
      var s := diamonds[1..];
      assert diamonds == [x] + s;
      var t := CheckDiamondInteraction(c, s);
      CollectedInOrder(c, s);
      var idx :| PicksCollectible(c, s, t, idx);
      if Diamonds.Collectible(x, c) {
        PicksConsTaken(c, x, s, t, idx);
        assert CheckDiamondInteraction(c, diamonds) == [x] + t;
        assert PicksCollectible(c, diamonds, [x] + t, [0] + Shift(idx));
      } else {
        PicksConsSkipped(c, x, s, t, idx);
        assert CheckDiamondInteraction(c, diamonds) == t;
        assert PicksCollectible(c, diamonds, t, Shift(idx));
      }
    }
  }

  // ---------------------------------------------------------------- platforms

  /**
    CheckPlatformInteractions: the character is resolved against each
    platform in list order, each step seeing the character the previous one
    left. Only its position, velocity, grounded and jump flags can change.
   */
  function CheckPlatformInteractions(c: Characters.Character, platforms: seq<Platforms.Platform>): (r: Characters.Character)
    ensures r == c.(base := r.base, vel := r.vel, grounded := r.grounded, canJump := r.canJump)
    decreases |platforms|
  {
    if |platforms| == 0 then c
    else CheckPlatformInteractions(CollisionResolver.ResolveCollision(c, Solids.PlatformSolid(platforms[0])), platforms[1..])
  }

  /** A character whose box touches no platform comes out of the pass unchanged. */
  lemma {:induction false} PlatformPassKeepsFreeCharacter(c: Characters.Character, platforms: seq<Platforms.Platform>)
    requires forall i :: 0 <= i < |platforms| ==> !Geometry.Intersects(Characters.AABB(c), Platforms.GetAABB(platforms[i]))
    ensures CheckPlatformInteractions(c, platforms) == c
    decreases |platforms|
  {
    if |platforms| > 0 {
      assert CollisionResolver.ResolveCollision(c, Solids.PlatformSolid(platforms[0])) == c;
      PlatformPassKeepsFreeCharacter(c, platforms[1..]);
    }
  }

  // ---------------------------------------------------------------- levers

  /**
    The lever part of one iteration: a character in range interacts; a
    lever out of range whose timer has run past the threshold is reset.
   */
  function LeverStep(l: Levers.Lever, c: Characters.Character): (r: Levers.Lever)
    ensures Levers.IsCharacterInRange(l, c) ==> r == Levers.Interact(l, c)
    ensures !Levers.IsCharacterInRange(l, c) && l.timer.started && l.timer.ticks > LEVER_DEBOUNCE_TICKS ==>
      r.activated == l.activated && !r.timer.started
    ensures !Levers.IsCharacterInRange(l, c) && !(l.timer.started && l.timer.ticks > LEVER_DEBOUNCE_TICKS) ==> r == l
    ensures r.kind == l.kind
  {
    if Levers.IsCharacterInRange(l, c) then Levers.Interact(l, c)
    else if l.timer.started && l.timer.ticks > LEVER_DEBOUNCE_TICKS then Levers.ResetTimer(l)
    else l
  }

  /** Every lever-driven platform of the lever's type takes the lever's state. */
  function MirrorLever(platforms: seq<Platforms.Platform>, l: Levers.Lever): (r: seq<Platforms.Platform>)
    ensures |r| == |platforms|
    ensures forall i :: 0 <= i < |platforms| ==>
      r[i] == if platforms[i].activator == LEVER_ACTIVATOR && platforms[i].kind == l.kind
              then platforms[i].(activated := l.activated) else platforms[i]
  {
    if |platforms| == 0 then []
    else
      var p := platforms[0];
      [if p.activator == LEVER_ACTIVATOR && p.kind == l.kind then p.(activated := l.activated) else p]
        + MirrorLever(platforms[1..], l)
  }

  datatype LeverPass = LeverPass(levers: seq<Levers.Lever>, platforms: seq<Platforms.Platform>)

  /** CheckLeverInteractions as written: each lever in order is stepped and then mirrored onto the platforms. */
  function CheckLeverInteractions(c: Characters.Character, levers: seq<Levers.Lever>,
                                  platforms: seq<Platforms.Platform>): (r: LeverPass)
    ensures |r.levers| == |levers| && |r.platforms| == |platforms|
    ensures forall i :: 0 <= i < |levers| ==> r.levers[i] == LeverStep(levers[i], c)
    ensures forall i :: 0 <= i < |platforms| ==> r.platforms[i] == platforms[i].(activated := r.platforms[i].activated)
    ensures forall i :: 0 <= i < |platforms| && platforms[i].activator != LEVER_ACTIVATOR ==> r.platforms[i] == platforms[i]
    decreases |levers|
  {
    if |levers| == 0 then LeverPass([], platforms)
    else
      var p := CheckLeverInteractions(c, levers[..|levers| - 1], platforms);
      var l := LeverStep(levers[|levers| - 1], c);
      LeverPass(p.levers + [l], MirrorLever(p.platforms, l))
  }

  /** The index of the last lever of the given type, or -1 when there is none. */
  function LastLeverIndex(levers: seq<Levers.Lever>, kind: string): (r: int)
    ensures -1 <= r < |levers|
    ensures r == -1 <==> forall i :: 0 <= i < |levers| ==> levers[i].kind != kind
    ensures r >= 0 ==> levers[r].kind == kind && forall j :: r < j < |levers| ==> levers[j].kind != kind
    decreases |levers|
  {
    if |levers| == 0 then -1
    else if levers[|levers| - 1].kind == kind then |levers| - 1
    else
      var init := levers[..|levers| - 1];
      assert forall i :: 0 <= i < |init| ==> init[i] == levers[i];
      LastLeverIndex(init, kind)
  }

  /** The state of the last lever of the given type, if any. */
  function LastLeverState(levers: seq<Levers.Lever>, kind: string): (r: Optional.Option<bool>)
    ensures r.None? <==> forall i :: 0 <= i < |levers| ==> levers[i].kind != kind
    ensures r.Some? ==> levers[LastLeverIndex(levers, kind)].activated == r.value
  {
    var k := LastLeverIndex(levers, kind);
    if k == -1 then Optional.None else Optional.Some(levers[k].activated)
  }

  /**
    After the lever pass each lever-driven platform mirrors the last lever
    of its type (as that lever ends the pass); platforms with no lever of
    their type, and platforms driven by buttons, are untouched.
   */
  lemma {:induction false} LeverPassMirrorsLastLever(c: Characters.Character, levers: seq<Levers.Lever>,
                                                     platforms: seq<Platforms.Platform>)
    ensures var r := CheckLeverInteractions(c, levers, platforms);
      forall i :: 0 <= i < |platforms| ==>
        r.platforms[i] ==
          if platforms[i].activator == LEVER_ACTIVATOR && LastLeverState(r.levers, platforms[i].kind).Some?
          then platforms[i].(activated := LastLeverState(r.levers, platforms[i].kind).value)
          else platforms[i]
    decreases |levers|
  {
    if |levers| > 0 {
      var init := levers[..|levers| - 1];
      LeverPassMirrorsLastLever(c, init, platforms);
      var r := CheckLeverInteractions(c, levers, platforms);
      var p := CheckLeverInteractions(c, init, platforms);
      assert r.levers == p.levers + [LeverStep(levers[|levers| - 1], c)];
      assert r.levers[..|r.levers| - 1] == p.levers;
    }
  }

  // ---------------------------------------------------------------- buttons

  /** Some character stands on the button (the inner loop with its break). */
  function AnyCharacterInRange(b: Buttons.Button, characters: seq<Characters.Character>): (r: bool)
    ensures r <==> exists i :: 0 <= i < |characters| && Buttons.IsCharacterInRange(b, characters[i])
  {
    if |characters| == 0 then false
    else if Buttons.IsCharacterInRange(b, characters[0]) then true
    else
      var r := AnyCharacterInRange(b, characters[1..]);
      assert forall i :: 1 <= i < |characters| ==> characters[i] == characters[1..][i - 1];
      r
  }

  /** Some button of the given type is pressed. */
  function AnyButtonActivated(buttons: seq<Buttons.Button>, kind: string): (r: bool)
    ensures r <==> exists i :: 0 <= i < |buttons| && buttons[i].kind == kind && buttons[i].activated
  {
    if |buttons| == 0 then false
    else if buttons[0].kind == kind && buttons[0].activated then true
    else
      var r := AnyButtonActivated(buttons[1..], kind);
      assert forall i :: 1 <= i < |buttons| ==> buttons[i] == buttons[1..][i - 1];
      r
  }

  datatype ButtonPass = ButtonPass(buttons: seq<Buttons.Button>, platforms: seq<Platforms.Platform>)

  /**
    CheckButtonInteractions: each button is pressed iff some character is
    on it; then each button-driven platform is activated iff some button of
    its type is pressed. Other platforms are untouched.
   */
  function CheckButtonInteractions(characters: seq<Characters.Character>, buttons: seq<Buttons.Button>,
                                   platforms: seq<Platforms.Platform>): (r: ButtonPass)
    ensures |r.buttons| == |buttons| && |r.platforms| == |platforms|
    ensures forall i :: 0 <= i < |buttons| ==>
      r.buttons[i] == buttons[i].(activated := r.buttons[i].activated)
      && (r.buttons[i].activated <==> exists k :: 0 <= k < |characters| && Buttons.IsCharacterInRange(buttons[i], characters[k]))
    ensures forall i :: 0 <= i < |platforms| && platforms[i].activator != BUTTON_ACTIVATOR ==> r.platforms[i] == platforms[i]
    ensures forall i :: 0 <= i < |platforms| && platforms[i].activator == BUTTON_ACTIVATOR ==>
      r.platforms[i] == platforms[i].(activated := r.platforms[i].activated)
      && (r.platforms[i].activated <==>
            exists j :: 0 <= j < |buttons| && buttons[j].kind == platforms[i].kind
                        && exists k :: 0 <= k < |characters| && Buttons.IsCharacterInRange(buttons[j], characters[k]))
  {
    var pressed := seq(|buttons|, i requires 0 <= i < |buttons| =>
                         buttons[i].(activated := AnyCharacterInRange(buttons[i], characters)));
    var driven := seq(|platforms|, i requires 0 <= i < |platforms| =>
                        if platforms[i].activator == BUTTON_ACTIVATOR
                        then platforms[i].(activated := AnyButtonActivated(pressed, platforms[i].kind))
                        else platforms[i]);
    ButtonPass(pressed, driven)
  }
}
