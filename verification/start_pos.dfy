/**
  A start marker (Level/StartPos.cs): a character type and a point; it
  places the character of that type on the point.
 */
module StartPos {
  import opened Geometry
  import Characters

  datatype StartPos = StartPos(kind: string, pos: Vec)

  /** The constructor; the Type and Position getters return its arguments. */
  function NewStartPos(kind: string, pos: Vec): (r: StartPos)
    ensures Type(r) == kind && Position(r) == pos
  {
    StartPos(kind, pos)
  }

  function Type(s: StartPos): string { s.kind }

  function Position(s: StartPos): Vec { s.pos }

  /**
    SetStartingPoint: a character of the marker's type has its Position
    set to the marker's point; any other character is untouched. Only the
    position ever changes.
   */
  function SetStartingPoint(s: StartPos, c: Characters.Character): (r: Characters.Character)
    ensures c.kind == Type(s) ==> Characters.Position(r) == Position(s)
    ensures c.kind != Type(s) ==> r == c
    ensures r == c.(base := r.base)
  {
    if c.kind == s.kind then Characters.WithPosition(c, s.pos) else c
  }

  /** Placing a character twice from the same marker is the same as placing it once. */
  lemma SetStartingPointIdempotent(s: StartPos, c: Characters.Character)
    ensures SetStartingPoint(s, SetStartingPoint(s, c)) == SetStartingPoint(s, c)
  {
  }
}
