/**
  The list-backed object manager (Level/ObjectManager.cs and
  GameObjectManager/ObjectManager.cs, which differ only in how they expose
  the list). A null argument is an Option's None; object identity is value
  equality of the stored records.
 */
module ObjectManager {
  import opened Optional

  datatype Manager<T> = Manager(objects: seq<T>)

  /** The constructor: an empty list. */
  function NewManager<T>(): (r: Manager<T>)
    ensures Count(r) == 0
  {
    Manager([])
  }

  /** Count: the number of stored objects. */
  function Count<T>(m: Manager<T>): nat
  {
    |m.objects|
  }

  /** Add: a null object is ignored; any other is appended at the end. */
  function Add<T>(m: Manager<T>, obj: Option<T>): (r: Manager<T>)
    ensures obj.None? ==> r == m
    ensures obj.Some? ==> r.objects == m.objects + [obj.value] && Count(r) == Count(m) + 1
  {
    match obj
    case None => m
    case Some(o) => Manager(m.objects + [o])
  }

  /** The position of the first occurrence of x, or -1 when there is none. */
  function IndexOf<T(==)>(s: seq<T>, x: T): (i: int)
    ensures -1 <= i < |s|
    ensures i >= 0 ==> s[i] == x && forall j :: 0 <= j < i ==> s[j] != x
    ensures i == -1 <==> x !in s
  {
    if |s| == 0 then -1
    else if s[0] == x then 0
    else
      var k := IndexOf(s[1..], x);
      if k == -1 then -1 else k + 1
  }

  /** List.Remove: drop the first occurrence of x, keeping the order of the rest. */
  function RemoveFirst<T(==)>(s: seq<T>, x: T): (r: seq<T>)
    ensures x !in s ==> r == s
    ensures x in s ==> r == s[..IndexOf(s, x)] + s[IndexOf(s, x) + 1..]
    ensures |r| == if x in s then |s| - 1 else |s|
  {
    if |s| == 0 then s
    else if s[0] == x then
      assert s == [s[0]] + s[1..];
      s[1..]
    else
      var rest := RemoveFirst(s[1..], x);
      assert s == [s[0]] + s[1..];
      if x in s[1..] then
        var k := IndexOf(s[1..], x);
        assert s[..k + 1] == [s[0]] + s[1..][..k];
        assert s[k + 2..] == s[1..][k + 1..];
        [s[0]] + rest
      else [s[0]] + rest
  }

  /** RemoveFirst takes exactly one copy of x out of the bag of elements, when there is one. */
  lemma {:induction false} RemoveFirstMultiset<T>(s: seq<T>, x: T)
    ensures multiset(RemoveFirst(s, x)) == multiset(s) - multiset{x}
  {
    if |s| > 0 {
      assert s == [s[0]] + s[1..];
      if s[0] != x {
        RemoveFirstMultiset(s[1..], x);
      }
    }
  }

  /** Remove: true iff the object was present, in which case its first occurrence is gone. */
  function Remove<T(==)>(m: Manager<T>, obj: T): (r: (Manager<T>, bool))
    ensures r.1 <==> obj in m.objects
    ensures !r.1 ==> r.0 == m
    ensures r.1 ==> Count(r.0) == Count(m) - 1
    ensures r.0.objects == RemoveFirst(m.objects, obj)
  {
    (Manager(RemoveFirst(m.objects, obj)), obj in m.objects)
  }

  /** Clear: nothing is left. */
  function Clear<T>(m: Manager<T>): (r: Manager<T>)
    ensures Count(r) == 0
  {
    Manager([])
  }

  /** Removing what was just added gives back the manager. */
  lemma {:induction false} AddThenRemove<T>(m: Manager<T>, obj: T)
    requires obj !in m.objects
    ensures Remove(Add(m, Some(obj)), obj).0 == m
  {
    var s := m.objects + [obj];
    assert IndexOf(s, obj) == |m.objects|;
    assert s[..|m.objects|] == m.objects;
  }
}
