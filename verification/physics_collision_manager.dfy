/**
  The static collision manager of the Physics folder
  (Physics/CollisionManager.cs). Its hazard, door, lever and button passes
  are the same code as the CollisionSystem manager's; its diamond pass
  differs in that it removes the collected diamonds from the level's list
  in place, one List.Remove per collected diamond.
 */
module PhysicsCollisionManager {
  import Characters
  import Diamonds
  import ObjectManager
  import CollisionManager

  /** The foreach over the removal list: each entry removes its first equal element. */
  function RemoveEach<T(==)>(s: seq<T>, t: seq<T>): (r: seq<T>)
    ensures |r| <= |s|
    decreases |t|
  {
    if |t| == 0 then s
    else RemoveEach(ObjectManager.RemoveFirst(s, t[0]), t[1..])
  }

  /** No element occurs twice (each diamond object is added to the level once). */
  predicate Distinct<T(==)>(s: seq<T>)
  {
    forall i, j :: 0 <= i < j < |s| ==> s[i] != s[j]
  }

  /** On a duplicate-free list, RemoveFirst removes exactly x and keeps the list duplicate-free. */
  lemma {:induction false} RemoveFirstDistinct<T>(s: seq<T>, x: T)
    requires Distinct(s)
    ensures Distinct(ObjectManager.RemoveFirst(s, x))
    ensures forall d :: d in ObjectManager.RemoveFirst(s, x) <==> d in s && d != x
  {
    if |s| > 0 {
      assert s == [s[0]] + s[1..];
      assert forall j :: 0 <= j < |s| - 1 ==> s[1..][j] == s[j + 1];
      assert s[0] !in s[1..];
      if s[0] != x {
        RemoveFirstDistinct(s[1..], x);
        var t := ObjectManager.RemoveFirst(s[1..], x);
        assert ObjectManager.RemoveFirst(s, x) == [s[0]] + t;
        assert s[0] !in t;
        ConsDistinct(s[0], t);
      }
    }
  }

  /** Putting an absent element in front of a duplicate-free list keeps it duplicate-free. */
  lemma ConsDistinct<T>(a: T, t: seq<T>)
    requires Distinct(t) && a !in t
    ensures Distinct([a] + t)
  {
    forall i, j | 0 <= i < j < |[a] + t|
      ensures ([a] + t)[i] != ([a] + t)[j]
    {
      if i == 0 {
        assert ([a] + t)[j] == t[j - 1];
      }
    }
  }

  /** On a duplicate-free list, removing each entry of t leaves exactly the elements not in t. */
  lemma {:induction false} RemoveEachDistinct<T>(s: seq<T>, t: seq<T>)
    ensures Distinct(s) ==> forall d :: d in RemoveEach(s, t) <==> d in s && d !in t
    decreases |t|
  {
    if |t| > 0 && Distinct(s) {
      RemoveFirstDistinct(s, t[0]);
      RemoveEachDistinct(ObjectManager.RemoveFirst(s, t[0]), t[1..]);
      assert t == [t[0]] + t[1..];
    }
  }

  /** Reference: the diamonds this character cannot collect now, in list order. */
  function Uncollected(c: Characters.Character, diamonds: seq<Diamonds.Diamond>): (r: seq<Diamonds.Diamond>)
    ensures forall d :: d in r <==> d in diamonds && !Diamonds.Collectible(d, c)
  {
    if |diamonds| == 0 then []
    else
      assert diamonds == [diamonds[0]] + diamonds[1..];
      if Diamonds.Collectible(diamonds[0], c) then Uncollected(c, diamonds[1..])
      else [diamonds[0]] + Uncollected(c, diamonds[1..])
  }

  /** Removing entries that do not match the head leaves the head in front. */
  lemma {:induction false} RemoveEachSkipsHead<T>(x: T, s: seq<T>, t: seq<T>)
    requires x !in t
    ensures RemoveEach([x] + s, t) == [x] + RemoveEach(s, t)
    decreases |t|
  {
    if |t| > 0 {
      assert t[0] != x;
      assert ObjectManager.RemoveFirst([x] + s, t[0]) == [x] + ObjectManager.RemoveFirst(s, t[0]) by {
        assert ([x] + s)[1..] == s;
      }
      assert forall y :: y in t[1..] ==> y in t;
      RemoveEachSkipsHead(x, ObjectManager.RemoveFirst(s, t[0]), t[1..]);
    }
  }

  /**
    Removing every collectible diamond, one first-occurrence at a time,
    leaves exactly the uncollectible ones in their original order, even
    when the list holds equal diamonds.
   */
  lemma {:induction false} RemovalLeavesUncollected(c: Characters.Character, diamonds: seq<Diamonds.Diamond>)
    ensures RemoveEach(diamonds, CollisionManager.CheckDiamondInteraction(c, diamonds)) == Uncollected(c, diamonds)
    decreases |diamonds|
  {
    if |diamonds| > 0 {
      var x := diamonds[0];
      var s := diamonds[1..];
      assert diamonds == [x] + s;
      var t := CollisionManager.CheckDiamondInteraction(c, s);
      RemovalLeavesUncollected(c, s);
      if Diamonds.Collectible(x, c) {
        assert CollisionManager.CheckDiamondInteraction(c, diamonds) == [x] + t;
        assert ObjectManager.RemoveFirst(diamonds, x) == s;
        assert ([x] + t)[1..] == t;
      } else {
        assert CollisionManager.CheckDiamondInteraction(c, diamonds) == t;
        assert x !in t;
        RemoveEachSkipsHead(x, s, t);
      }
    }
  }

  /**
    CheckDiamondInteraction (in place): the list afterwards holds exactly
    the diamonds the character could not collect, in their original order.
   */
  function CheckDiamondInteraction(c: Characters.Character, diamonds: seq<Diamonds.Diamond>): (r: seq<Diamonds.Diamond>)
    ensures r == Uncollected(c, diamonds)
    ensures forall d :: d in r <==> d in diamonds && !Diamonds.Collectible(d, c)
    ensures |r| + |CollisionManager.CheckDiamondInteraction(c, diamonds)| == |diamonds|
  {
    RemovalLeavesUncollected(c, diamonds);
    CollectedPlusUncollected(c, diamonds);
    RemoveEach(diamonds, CollisionManager.CheckDiamondInteraction(c, diamonds))
  }

  /** Each diamond, counted with its duplicates, is either collected or kept. */
  lemma {:induction false} CollectedPlusUncollected(c: Characters.Character, diamonds: seq<Diamonds.Diamond>)
    ensures multiset(CollisionManager.CheckDiamondInteraction(c, diamonds)) + multiset(Uncollected(c, diamonds))
         == multiset(diamonds)
    ensures |Uncollected(c, diamonds)| + |CollisionManager.CheckDiamondInteraction(c, diamonds)| == |diamonds|
    decreases |diamonds|
  {
    if |diamonds| > 0 {
      var x, s := diamonds[0], diamonds[1..];
      assert diamonds == [x] + s;
      CollectedPlusUncollected(c, s);
      var t, u := CollisionManager.CheckDiamondInteraction(c, s), Uncollected(c, s);
      if Diamonds.Collectible(x, c) {
        assert CollisionManager.CheckDiamondInteraction(c, diamonds) == [x] + t;
        assert Uncollected(c, diamonds) == u;
        assert multiset([x] + t) == multiset{x} + multiset(t);
      } else {
        assert CollisionManager.CheckDiamondInteraction(c, diamonds) == t;
        assert Uncollected(c, diamonds) == [x] + u;
        assert multiset([x] + u) == multiset{x} + multiset(u);
      }
      assert multiset(diamonds) == multiset{x} + multiset(s);
    }
  }

  /** A second pass in the same tick collects nothing more. */
  lemma {:induction false} DiamondPassIdempotent(c: Characters.Character, diamonds: seq<Diamonds.Diamond>)
    ensures CheckDiamondInteraction(c, CheckDiamondInteraction(c, diamonds)) == CheckDiamondInteraction(c, diamonds)
  {
    var r := CheckDiamondInteraction(c, diamonds);
    UncollectedFixed(c, r);
  }

  /** A list with no collectible diamond is its own uncollected part. */
  lemma {:induction false} UncollectedFixed(c: Characters.Character, diamonds: seq<Diamonds.Diamond>)
    requires forall i :: 0 <= i < |diamonds| ==> !Diamonds.Collectible(diamonds[i], c)
    ensures Uncollected(c, diamonds) == diamonds
    decreases |diamonds|
  {
    if |diamonds| > 0 {
      UncollectedFixed(c, diamonds[1..]);
      assert diamonds == [diamonds[0]] + diamonds[1..];
    }
  }
}
