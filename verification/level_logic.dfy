/**
  The singleton level driver (Level/LevelLogic.cs): it owns a level timer
  and the object managers, and per tick steps the platforms, integrates
  the characters, runs the interaction checks with an early exit on death,
  and latches completion. The list-taking overloads it calls on the
  collision manager are not part of this model; each is taken to be the
  single-character pass run for every character in turn.
 */
module LevelLogic {
  import opened GameConstants
  import opened Optional
  import Characters
  import Platforms
  import Hazards
  import Diamonds
  import Buttons
  import Timers
  import CollisionDetector
  import CollisionManager
  import PhysicsCollisionManager
  import Levels

  /** The per-difficulty time allowance in seconds; an unknown difficulty has none (the lookup throws). */
  function TimeLimit(difficulty: string): (r: Option<int>)
    ensures r.Some? <==> difficulty == "Easy" || difficulty == "Medium" || difficulty == "Hard"
    ensures r.Some? ==> 30 <= r.value <= 40
  {
    if difficulty == "Easy" then Some(40)
    else if difficulty == "Medium" then Some(35)
    else if difficulty == "Hard" then Some(30)
    else None
  }

  /**
    For the same run (elapsed time and diamonds left), a harder difficulty
    never scores more: Hard <= Medium <= Easy.
   */
  lemma HarderNeverScoresMore(elapsedMs: nat, diamondCount: nat)
    ensures CalculateScore(false, "Hard", elapsedMs, diamondCount).value
         <= CalculateScore(false, "Medium", elapsedMs, diamondCount).value
         <= CalculateScore(false, "Easy", elapsedMs, diamondCount).value
  {
    assert Levels.OverTime(elapsedMs, 40) ==> Levels.OverTime(elapsedMs, 35);
    assert Levels.OverTime(elapsedMs, 35) ==> Levels.OverTime(elapsedMs, 30);
  }

  /** On a known difficulty, taking longer or leaving more diamonds never scores more. */
  lemma SlowerNeverScoresMore(difficulty: string, ms1: nat, ms2: nat, d1: nat, d2: nat)
    requires TimeLimit(difficulty).Some?
    requires ms1 <= ms2 && d1 <= d2
    ensures CalculateScore(false, difficulty, ms2, d2).value <= CalculateScore(false, difficulty, ms1, d1).value
  {
    var limit := TimeLimit(difficulty).value;
    assert Levels.OverTime(ms1, limit) ==> Levels.OverTime(ms2, limit);
  }

  /**
    CalculateScore: 0 once the game is over (before any lookup); otherwise
    the lookup of the difficulty's limit, failing (None) for an unknown
    difficulty, and then the same score as Level.CalculateScore with that
    limit, which lies in [1, 3].
   */
  function CalculateScore(gameOver: bool, difficulty: string, elapsedMs: nat, diamondCount: nat): (r: Option<int>)
    ensures gameOver ==> r == Some(0)
    ensures !gameOver ==> (r.None? <==> TimeLimit(difficulty).None?)
    ensures !gameOver && r.Some? ==> 1 <= r.value <= 3
    ensures !gameOver && r.Some? ==> r.value == Levels.CalculateScore(false, elapsedMs, diamondCount, TimeLimit(difficulty).value)
  {
    if gameOver then Some(0)
    else
      match TimeLimit(difficulty)
      case None => None
      case Some(limit) =>
        var m0 := 3;
        var m1 := if Levels.OverTime(elapsedMs, limit) then m0 - 1 else m0;
        var m2 := if diamondCount > 0 then m1 - 1 else m1;
        Some(if 3 < m2 then 3 else if m2 < 0 then 0 else m2)
  }

  // ---------------------------------------------------------------- CheckCollision

  /** The hazard pass for one character: every hazard interacts with it in turn. */
  function HazardInteract(c: Characters.Character, hazards: seq<Hazards.Hazard>): (r: Characters.Character)
    ensures r == c.(dead := r.dead)
    ensures r.dead <==> c.dead || exists j :: 0 <= j < |hazards| && CollisionManager.Fatal(hazards[j], c)
    decreases |hazards|
  {
    if |hazards| == 0 then c
    else
      var rest := HazardInteract(Hazards.Interact(hazards[0], c), hazards[1..]);
      assert forall j :: 1 <= j < |hazards| ==> hazards[j] == hazards[1..][j - 1];
      rest
  }

  /** The hazard pass over all characters. */
  function KillAll(chars: seq<Characters.Character>, hazards: seq<Hazards.Hazard>): (r: seq<Characters.Character>)
    ensures |r| == |chars|
    ensures forall i :: 0 <= i < |chars| ==> r[i] == HazardInteract(chars[i], hazards)
  {
    seq(|chars|, i requires 0 <= i < |chars| => HazardInteract(chars[i], hazards))
  }

  predicate AnyDead(chars: seq<Characters.Character>)
  {
    exists i :: 0 <= i < |chars| && chars[i].dead
  }

  /** The diamonds each character can collect, on the unchanged list, one character after another. */
  function CollectAll(chars: seq<Characters.Character>, diamonds: seq<Diamonds.Diamond>): (r: seq<Diamonds.Diamond>)
    ensures forall d :: d in r <==> d in diamonds && exists i :: 0 <= i < |chars| && Diamonds.Collectible(d, chars[i])
    decreases |chars|
  {
    if |chars| == 0 then []
    else
      var rest := CollectAll(chars[1..], diamonds);
      assert forall i :: 1 <= i < |chars| ==> chars[i] == chars[1..][i - 1];
      CollisionManager.CheckDiamondInteraction(chars[0], diamonds) + rest
  }

  /** The platform pass for every character. */
  function ResolveAll(chars: seq<Characters.Character>, platforms: seq<Platforms.Platform>): (r: seq<Characters.Character>)
    ensures |r| == |chars|
    ensures forall i :: 0 <= i < |chars| ==>
      r[i] == chars[i].(base := r[i].base, vel := r[i].vel, grounded := r[i].grounded, canJump := r[i].canJump)
  {
    seq(|chars|, i requires 0 <= i < |chars| => CollisionManager.CheckPlatformInteractions(chars[i], platforms))
  }

  /**
    The diamond step of CheckCollision: every character collects from the
    unchanged list, then each collected diamond is removed once. Nothing
    but the diamond list changes.
   */
  function DiamondStep(lv: Levels.LevelState): (r: Levels.LevelState)
    ensures r == lv.(diamonds := r.diamonds)
    ensures PhysicsCollisionManager.Distinct(lv.diamonds) ==>
      forall d :: d in r.diamonds <==>
        d in lv.diamonds && forall i :: 0 <= i < |lv.chars| ==> !Diamonds.Collectible(d, lv.chars[i])
  {
    var collected := CollectAll(lv.chars, lv.diamonds);
    PhysicsCollisionManager.RemoveEachDistinct(lv.diamonds, collected);
    lv.(diamonds := PhysicsCollisionManager.RemoveEach(lv.diamonds, collected))
  }

  /**
    The contact steps of CheckCollision: platforms push the characters,
    then levers, buttons and last the exit doors. The diamonds, hazards
    and the two latches are untouched.
   */
  function ContactStep(lv: Levels.LevelState): (r: Levels.LevelState)
    requires |lv.chars| >= 2
    ensures |r.chars| == |lv.chars| && r.hazards == lv.hazards && r.diamonds == lv.diamonds
    ensures r.gameOver == lv.gameOver && r.completed == lv.completed
    ensures forall i :: 0 <= i < |lv.chars| ==> r.chars[i].kind == lv.chars[i].kind && r.chars[i].dead == lv.chars[i].dead
    ensures |r.platforms| == |lv.platforms|
    ensures forall i :: 0 <= i < |lv.platforms| ==> r.platforms[i] == lv.platforms[i].(activated := r.platforms[i].activated)
    ensures |r.buttons| == |lv.buttons|
    ensures forall i :: 0 <= i < |lv.buttons| ==>
      (r.buttons[i].activated <==> exists k :: 0 <= k < |r.chars| && Buttons.IsCharacterInRange(lv.buttons[i], r.chars[k]))
    ensures r.fireReached == CollisionManager.Reach(lv.doors, r.chars[0], FIRE, lv.fireReached)
    ensures r.waterReached == CollisionManager.Reach(lv.doors, r.chars[1], WATER, lv.waterReached)
  {
    var chars := ResolveAll(lv.chars, lv.platforms);
    var levers := Levels.LeverPass(chars, lv.levers, lv.platforms);
    var buttons := CollisionManager.CheckButtonInteractions(chars, lv.buttons, levers.platforms);
    var doors := CollisionManager.CheckExitDoorInteractions(chars[0], chars[1], lv.doors, lv.fireReached, lv.waterReached);
    CollisionManager.DoorPassSplitsByColour(chars[0], chars[1], lv.doors, lv.fireReached, lv.waterReached);
    lv.(chars := chars, levers := levers.levers, platforms := buttons.platforms,
        buttons := buttons.buttons, doors := doors.doors,
        fireReached := doors.fireReached, waterReached := doors.waterReached)
  }

  /**
    The part of CheckCollision after the survivors' check: diamonds,
    platforms, levers, buttons and last the exit doors.
   */
  function AfterHazards(lv: Levels.LevelState): (r: Levels.LevelState)
    requires |lv.chars| >= 2
    ensures |r.chars| == |lv.chars| && r.hazards == lv.hazards && r.gameOver == lv.gameOver && r.completed == lv.completed
    ensures forall i :: 0 <= i < |lv.chars| ==> r.chars[i].kind == lv.chars[i].kind && r.chars[i].dead == lv.chars[i].dead
    ensures PhysicsCollisionManager.Distinct(lv.diamonds) ==>
      forall d :: d in r.diamonds <==>
        d in lv.diamonds && forall i :: 0 <= i < |lv.chars| ==> !Diamonds.Collectible(d, lv.chars[i])
    ensures |r.platforms| == |lv.platforms|
    ensures forall i :: 0 <= i < |lv.platforms| ==> r.platforms[i] == lv.platforms[i].(activated := r.platforms[i].activated)
    ensures |r.buttons| == |lv.buttons|
    ensures forall i :: 0 <= i < |lv.buttons| ==>
      (r.buttons[i].activated <==> exists k :: 0 <= k < |r.chars| && Buttons.IsCharacterInRange(lv.buttons[i], r.chars[k]))
    ensures r.fireReached == CollisionManager.Reach(lv.doors, r.chars[0], FIRE, lv.fireReached)
    ensures r.waterReached == CollisionManager.Reach(lv.doors, r.chars[1], WATER, lv.waterReached)
  {
    ContactStep(DiamondStep(lv))
  }

  /**
    CheckCollision: hazards interact with every character; if any
    character is then dead the game is over and nothing else is checked.
   */
  function CheckCollision(lv: Levels.LevelState): (r: Levels.LevelState)
    requires |lv.chars| >= 2
    ensures AnyDead(KillAll(lv.chars, lv.hazards)) ==>
      r == lv.(chars := KillAll(lv.chars, lv.hazards), gameOver := true)
    ensures !AnyDead(KillAll(lv.chars, lv.hazards)) ==> r == AfterHazards(lv.(chars := KillAll(lv.chars, lv.hazards)))
    ensures r.gameOver <==> lv.gameOver || AnyDead(r.chars)
  {
    var chars := KillAll(lv.chars, lv.hazards);
    if AnyDead(chars) then lv.(chars := chars, gameOver := true)
    else AfterHazards(lv.(chars := chars))
  }

  /** A character is dead after CheckCollision exactly when it was, or it touches a hazard of another type. */
  lemma CheckCollisionKills(lv: Levels.LevelState)
    requires |lv.chars| >= 2
    ensures var r := CheckCollision(lv);
      && |r.chars| == |lv.chars|
      && forall i :: 0 <= i < |lv.chars| ==>
           (r.chars[i].dead <==> lv.chars[i].dead || exists j :: 0 <= j < |lv.hazards| && CollisionManager.Fatal(lv.hazards[j], lv.chars[i]))
  {
    var r := CheckCollision(lv);
    var killed := KillAll(lv.chars, lv.hazards);
    if AnyDead(killed) {
      assert r.chars == killed;
    } else {
      var after := AfterHazards(lv.(chars := killed));
      assert r.chars == after.chars;
    }
    assert forall i :: 0 <= i < |lv.chars| ==> r.chars[i].dead == killed[i].dead;
  }

  /** CheckCollision never moves a platform: at most its activated flag changes. */
  lemma CheckCollisionKeepsPlatforms(lv: Levels.LevelState)
    requires |lv.chars| >= 2
    ensures var r := CheckCollision(lv);
      && |r.platforms| == |lv.platforms|
      && forall i :: 0 <= i < |lv.platforms| ==> r.platforms[i] == lv.platforms[i].(activated := r.platforms[i].activated)
  {
  }

  /** CheckLevelCompletion: completed once the game is over or both exits are reached; never cleared. */
  function CheckLevelCompletion(lv: Levels.LevelState): (r: Levels.LevelState)
    ensures r == lv.(completed := r.completed)
    ensures r.completed <==> lv.completed || lv.gameOver || (lv.fireReached && lv.waterReached)
  {
    if lv.gameOver || (lv.fireReached && lv.waterReached && !lv.completed) then lv.(completed := true) else lv
  }

  /**
    The tail of UpdateLevel, once platforms and characters have moved:
    collisions, then the completion check. A game that is over is always
    completed; completion is never cleared; platforms only change their
    activated flag.
   */
  function CollideAndComplete(lv: Levels.LevelState): (r: Levels.LevelState)
    requires |lv.chars| >= 2
    ensures lv.completed ==> r.completed
    ensures lv.gameOver ==> r.gameOver
    ensures r.gameOver ==> r.completed
    ensures r.completed <==> lv.completed || r.gameOver || (r.fireReached && r.waterReached)
    ensures |r.platforms| == |lv.platforms|
    ensures forall i :: 0 <= i < |lv.platforms| ==> r.platforms[i] == lv.platforms[i].(activated := r.platforms[i].activated)
  {
    CheckCollisionKeepsPlatforms(lv);
    CheckLevelCompletion(CheckCollision(lv))
  }

  /**
    UpdateLevel: start the level timer if it is not running, step every
    platform, integrate every character, then check collisions and
    completion.
   */
  function UpdateLevel(timer: Timers.Timer, lv: Levels.LevelState, inputs: seq<Characters.Input>,
                       g: CollisionDetector.Grid): (r: (Timers.Timer, Levels.LevelState))
    requires |lv.chars| >= 2 && |inputs| == |lv.chars|
    ensures r.0.started && (timer.started ==> r.0 == timer)
    ensures r.1 == CollideAndComplete(lv.(platforms := Levels.StepPlatforms(lv.platforms), chars := Levels.Integrate(lv.chars, inputs, g)))
  {
    var t := if !timer.started then Timers.Start(timer) else timer;
    var s1 := lv.(platforms := Levels.StepPlatforms(lv.platforms));
    var s2 := s1.(chars := Levels.Integrate(s1.chars, inputs, g));
    (t, CollideAndComplete(s2))
  }

  /** Each tick of the level logic steps every platform exactly once. */
  lemma UpdateLevelStepsPlatformsOnce(timer: Timers.Timer, lv: Levels.LevelState, inputs: seq<Characters.Input>,
                                      g: CollisionDetector.Grid)
    requires |lv.chars| >= 2 && |inputs| == |lv.chars|
    ensures var r := UpdateLevel(timer, lv, inputs, g).1;
      && |r.platforms| == |lv.platforms|
      && forall i :: 0 <= i < |lv.platforms| ==>
           r.platforms[i].pos == Platforms.Update(lv.platforms[i]).pos
           && r.platforms[i].moved == Platforms.Update(lv.platforms[i]).moved
  {
    var stepped := Levels.StepPlatforms(lv.platforms);
    var m := lv.(platforms := stepped, chars := Levels.Integrate(lv.chars, inputs, g));
    var r := CollideAndComplete(m);
    assert UpdateLevel(timer, lv, inputs, g).1 == r;
    assert forall i :: 0 <= i < |lv.platforms| ==> r.platforms[i] == stepped[i].(activated := r.platforms[i].activated);
  }

  /** Once the level is completed or over, further ticks keep it so. */
  lemma UpdateLevelKeepsLatches(timer: Timers.Timer, lv: Levels.LevelState, inputs: seq<Characters.Input>,
                                g: CollisionDetector.Grid)
    requires |lv.chars| >= 2 && |inputs| == |lv.chars|
    ensures var r := UpdateLevel(timer, lv, inputs, g).1;
      && (lv.completed ==> r.completed)
      && (lv.gameOver ==> r.gameOver && r.completed)
  {
  }
}
