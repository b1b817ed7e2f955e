/**
  One level's tick and score (Level/Level.cs). The level owns two
  characters (FireBoy first, WaterGirl second), its object lists and four
  flags. The tile grid, the key state and the elapsed time are inputs.
 */
module Levels {
  import opened GameConstants
  import Characters
  import Platforms
  import Hazards
  import ExitDoors
  import Diamonds
  import Levers
  import Buttons
  import CollisionDetector
  import Physics
  import CollisionManager
  import PhysicsCollisionManager

  datatype LevelState = LevelState(
    chars: seq<Characters.Character>,
    hazards: seq<Hazards.Hazard>,
    doors: seq<ExitDoors.ExitDoor>,
    diamonds: seq<Diamonds.Diamond>,
    platforms: seq<Platforms.Platform>,
    levers: seq<Levers.Lever>,
    buttons: seq<Buttons.Button>,
    gameOver: bool,
    completed: bool,
    fireReached: bool,
    waterReached: bool)

  /** The constructor's flags: nothing over, nothing reached. */
  function NewLevel(chars: seq<Characters.Character>, hazards: seq<Hazards.Hazard>, doors: seq<ExitDoors.ExitDoor>,
                    diamonds: seq<Diamonds.Diamond>, platforms: seq<Platforms.Platform>,
                    levers: seq<Levers.Lever>, buttons: seq<Buttons.Button>): (r: LevelState)
    ensures !r.gameOver && !r.completed && !r.fireReached && !r.waterReached
    ensures r.chars == chars && r.diamonds == diamonds && r.platforms == platforms
  {
    LevelState(chars, hazards, doors, diamonds, platforms, levers, buttons, false, false, false, false)
  }

  /** One character's tick: pick the animation, then integrate and sweep. */
  function Tick(c: Characters.Character, input: Characters.Input, g: CollisionDetector.Grid): (r: Characters.Character)
    ensures r.kind == c.kind && r.dead == c.dead && r.vel.y <= TERMINAL_VELOCITY
  {
    Physics.UpdateCharacter(Characters.UpdateAnimation(c, input), input, g)
  }

  /** The first loop of Update: each character picks its animation, then is integrated and swept. */
  function Integrate(chars: seq<Characters.Character>, inputs: seq<Characters.Input>, g: CollisionDetector.Grid): (r: seq<Characters.Character>)
    requires |inputs| == |chars|
    ensures |r| == |chars|
    ensures forall i :: 0 <= i < |chars| ==>
      r[i].kind == chars[i].kind && r[i].dead == chars[i].dead && r[i].vel.y <= TERMINAL_VELOCITY
  {
    seq(|chars|, i requires 0 <= i < |chars| => Tick(chars[i], inputs[i], g))
  }

  /** Some character touches a hazard of another type. */
  predicate AnyFatal(chars: seq<Characters.Character>, hazards: seq<Hazards.Hazard>)
  {
    exists i, j :: 0 <= i < |chars| && 0 <= j < |hazards| && CollisionManager.Fatal(hazards[j], chars[i])
  }

  /** The hazard loop: the shared flag passed through each character's pass. */
  function HazardPass(chars: seq<Characters.Character>, hazards: seq<Hazards.Hazard>, gameOver: bool): (r: bool)
    ensures r <==> gameOver || AnyFatal(chars, hazards)
    decreases |chars|
  {
    if |chars| == 0 then gameOver
    else
      var r := HazardPass(chars[..|chars| - 1], hazards, gameOver);
      assert forall i :: 0 <= i < |chars| - 1 ==> chars[..|chars| - 1][i] == chars[i];
      CollisionManager.CheckHazardCollisions(chars[|chars| - 1], hazards, r)
  }

  /** The diamond loop: each character's in-place removal on the list the previous one left. */
  function DiamondPass(chars: seq<Characters.Character>, diamonds: seq<Diamonds.Diamond>): (r: seq<Diamonds.Diamond>)
    ensures forall d :: d in r <==> d in diamonds && forall i :: 0 <= i < |chars| ==> !Diamonds.Collectible(d, chars[i])
    ensures |r| <= |diamonds|
    decreases |chars|
  {
    if |chars| == 0 then diamonds
    else
      var rest := DiamondPass(chars[1..], PhysicsCollisionManager.CheckDiamondInteraction(chars[0], diamonds));
      assert forall i :: 1 <= i < |chars| ==> chars[i] == chars[1..][i - 1];
      rest
  }

  /** The lever loop: each character's lever pass on the levers and platforms the previous one left. */
  function LeverPass(chars: seq<Characters.Character>, levers: seq<Levers.Lever>, platforms: seq<Platforms.Platform>): (r: CollisionManager.LeverPass)
    ensures |r.levers| == |levers| && |r.platforms| == |platforms|
    ensures forall i :: 0 <= i < |platforms| ==> r.platforms[i] == platforms[i].(activated := r.platforms[i].activated)
    ensures forall i :: 0 <= i < |platforms| && platforms[i].activator != CollisionManager.LEVER_ACTIVATOR ==>
      r.platforms[i] == platforms[i]
    decreases |chars|
  {
    if |chars| == 0 then CollisionManager.LeverPass(levers, platforms)
    else
      var p := CollisionManager.CheckLeverInteractions(chars[0], levers, platforms);
      LeverPass(chars[1..], p.levers, p.platforms)
  }

  /** The hazard stage: only the game-over flag changes. */
  function HazardStage(lv: LevelState): (r: LevelState)
    ensures r == lv.(gameOver := r.gameOver)
    ensures r.gameOver <==> lv.gameOver || AnyFatal(lv.chars, lv.hazards)
  {
    lv.(gameOver := HazardPass(lv.chars, lv.hazards, lv.gameOver))
  }

  /**
    The exit-door stage with FireBoy and WaterGirl, then the completion
    latch: completed once both exits are reached, never cleared.
   */
  function DoorStage(lv: LevelState): (r: LevelState)
    requires |lv.chars| >= 2
    ensures r == lv.(doors := r.doors, fireReached := r.fireReached, waterReached := r.waterReached, completed := r.completed)
    ensures |r.doors| == |lv.doors|
    ensures r.fireReached == CollisionManager.Reach(lv.doors, lv.chars[0], FIRE, lv.fireReached)
    ensures r.waterReached == CollisionManager.Reach(lv.doors, lv.chars[1], WATER, lv.waterReached)
    ensures r.completed <==> lv.completed || (r.fireReached && r.waterReached)
  {
    var p := CollisionManager.CheckExitDoorInteractions(lv.chars[0], lv.chars[1], lv.doors, lv.fireReached, lv.waterReached);
    CollisionManager.DoorPassSplitsByColour(lv.chars[0], lv.chars[1], lv.doors, lv.fireReached, lv.waterReached);
    var completed := if p.fireReached && p.waterReached && !lv.completed then true else lv.completed;
    lv.(doors := p.doors, fireReached := p.fireReached, waterReached := p.waterReached, completed := completed)
  }

  /** The diamond stage: what is left is what no character can collect. */
  function DiamondStage(lv: LevelState): (r: LevelState)
    ensures r == lv.(diamonds := r.diamonds)
    ensures forall d :: d in r.diamonds <==>
      d in lv.diamonds && forall i :: 0 <= i < |lv.chars| ==> !Diamonds.Collectible(d, lv.chars[i])
  {
    lv.(diamonds := DiamondPass(lv.chars, lv.diamonds))
  }

  /** The lever stage: levers step, lever-driven platforms follow, nothing else changes. */
  function LeverStage(lv: LevelState): (r: LevelState)
    ensures r == lv.(levers := r.levers, platforms := r.platforms)
    ensures |r.levers| == |lv.levers| && |r.platforms| == |lv.platforms|
    ensures forall i :: 0 <= i < |lv.platforms| ==> r.platforms[i] == lv.platforms[i].(activated := r.platforms[i].activated)
  {
    var p := LeverPass(lv.chars, lv.levers, lv.platforms);
    lv.(levers := p.levers, platforms := p.platforms)
  }

  /** The button stage: buttons follow the characters, button-driven platforms follow the buttons. */
  function ButtonStage(lv: LevelState): (r: LevelState)
    ensures r == lv.(buttons := r.buttons, platforms := r.platforms)
    ensures |r.buttons| == |lv.buttons| && |r.platforms| == |lv.platforms|
    ensures forall i :: 0 <= i < |lv.platforms| ==> r.platforms[i] == lv.platforms[i].(activated := r.platforms[i].activated)
    ensures forall i :: 0 <= i < |lv.buttons| ==>
      (r.buttons[i].activated <==> exists k :: 0 <= k < |lv.chars| && Buttons.IsCharacterInRange(lv.buttons[i], lv.chars[k]))
  {
    var p := CollisionManager.CheckButtonInteractions(lv.chars, lv.buttons, lv.platforms);
    lv.(buttons := p.buttons, platforms := p.platforms)
  }

  /**
    The interaction half of Level.Update, on characters already integrated:
    hazards, exit doors (with the completion latch), diamonds, platforms,
    levers and buttons, in that order. The platform pass of this manager is
    not part of the model and changes nothing here.
   */
  function Interactions(lv: LevelState): (r: LevelState)
    requires |lv.chars| >= 2
    ensures r.chars == lv.chars && r.hazards == lv.hazards
    ensures r.gameOver <==> lv.gameOver || AnyFatal(lv.chars, lv.hazards)
    ensures r.fireReached == CollisionManager.Reach(lv.doors, lv.chars[0], FIRE, lv.fireReached)
    ensures r.waterReached == CollisionManager.Reach(lv.doors, lv.chars[1], WATER, lv.waterReached)
    ensures r.completed <==> lv.completed || (r.fireReached && r.waterReached)
    ensures forall d :: d in r.diamonds <==>
      d in lv.diamonds && forall i :: 0 <= i < |lv.chars| ==> !Diamonds.Collectible(d, lv.chars[i])
    ensures |r.platforms| == |lv.platforms|
    ensures forall i :: 0 <= i < |lv.platforms| ==>
      r.platforms[i] == lv.platforms[i].(activated := r.platforms[i].activated)
    ensures |r.buttons| == |lv.buttons|
    ensures forall i :: 0 <= i < |lv.buttons| ==>
      (r.buttons[i].activated <==> exists k :: 0 <= k < |lv.chars| && Buttons.IsCharacterInRange(lv.buttons[i], lv.chars[k]))
  {
    var s2 := HazardStage(lv);
    var s3 := DoorStage(s2);
    var s4 := DiamondStage(s3);
    var s5 := LeverStage(s4);
    ButtonStage(s5)
  }

  /**
    Level.Update: every character is integrated before any interaction
    runs, and the interactions see only the integrated characters.
   */
  function Update(lv: LevelState, inputs: seq<Characters.Input>, g: CollisionDetector.Grid): (r: LevelState)
    requires |lv.chars| >= 2 && |inputs| == |lv.chars|
    ensures r.chars == Integrate(lv.chars, inputs, g)
    ensures forall i :: 0 <= i < |r.chars| ==> r.chars[i].kind == lv.chars[i].kind && r.chars[i].vel.y <= TERMINAL_VELOCITY
    ensures r == Interactions(lv.(chars := r.chars))
    ensures lv.completed ==> r.completed
    ensures lv.gameOver ==> r.gameOver
  {
    Interactions(lv.(chars := Integrate(lv.chars, inputs, g)))
  }

  /** Moving platforms keep their position and travel: only the draw pass steps them. */
  lemma UpdateNeverMovesPlatforms(lv: LevelState, inputs: seq<Characters.Input>, g: CollisionDetector.Grid)
    requires |lv.chars| >= 2 && |inputs| == |lv.chars|
    ensures var r := Update(lv, inputs, g);
      forall i :: 0 <= i < |lv.platforms| ==> r.platforms[i].pos == lv.platforms[i].pos && r.platforms[i].moved == lv.platforms[i].moved
  {
    var r := Update(lv, inputs, g);
    assert forall i :: 0 <= i < |lv.platforms| ==> r.platforms[i] == lv.platforms[i].(activated := r.platforms[i].activated);
  }

  /** Platform.Update on every platform: the draw pass of Level, UpdateAllPlatforms of the level logic. */
  function StepPlatforms(platforms: seq<Platforms.Platform>): (r: seq<Platforms.Platform>)
    ensures |r| == |platforms|
    ensures forall i :: 0 <= i < |platforms| ==> r[i] == Platforms.Update(platforms[i])
  {
    seq(|platforms|, i requires 0 <= i < |platforms| => Platforms.Update(platforms[i]))
  }

  /** Over the limit: the elapsed milliseconds, as seconds, exceed the allowed whole seconds. */
  predicate OverTime(elapsedMs: nat, allowedSeconds: int)
  {
    elapsedMs as real / 1000.0 > allowedSeconds as real
  }

  /**
    CalculateScore: 0 once the game is over; otherwise 3, less one for
    running over time and one for diamonds left. The clamp to [0, 3]
    never changes the result.
   */
  function CalculateScore(gameOver: bool, elapsedMs: nat, diamondsLeft: nat, allowedSeconds: int): (r: int)
    ensures gameOver ==> r == 0
    ensures !gameOver ==> 1 <= r <= 3
    ensures !gameOver ==> r == 3 - (if OverTime(elapsedMs, allowedSeconds) then 1 else 0) - (if diamondsLeft > 0 then 1 else 0)
    ensures r == 3 <==> !gameOver && !OverTime(elapsedMs, allowedSeconds) && diamondsLeft == 0
  {
    if gameOver then 0
    else
      var s0 := 3;
      var s1 := if OverTime(elapsedMs, allowedSeconds) then s0 - 1 else s0;
      var s2 := if diamondsLeft > 0 then s1 - 1 else s1;
      var s3 := if s2 < 0 then 0 else s2;
      if s3 > 3 then 3 else s3
  }

  /** The default time allowance of Level.CalculateScore. */
  const DEFAULT_ALLOWED_SECONDS: int := 40
}
