/**
  Collision detection (CollisionSystem/CollisionDetector.cs): box-versus-box
  overlap, the tile-grid query, and the side classification that feeds the
  resolver.
 */
module CollisionDetector {
  import opened GameConstants
  import Geometry
  import Solids

  /**
    The level's tile layer: `data` holds the tile GIDs row by row, `width`
    and `height` are the map size in tiles. Nothing forces |data| to equal
    width * height; lookups past the end are simply not solid.
   */
  datatype Grid = Grid(data: seq<nat>, width: nat, height: nat)

  /** Which face of the second box the first one ran into. */
  datatype Side = None | Top | Bottom | Left | Right

  datatype CollisionInfo = CollisionInfo(hasCollision: bool, side: Side, normal: Geometry.Vec, depth: real)

  /** Tile coordinates inside the map. */
  predicate IsValidTilePosition(g: Grid, x: int, y: int)
  {
    0 <= x < g.width && 0 <= y < g.height
  }

  /** The row-major GID at (x, y) exists and lies in the solid range 1..7. */
  predicate IsSolidTile(g: Grid, x: int, y: int)
  {
    var i := y * g.width + x;
    0 <= i < |g.data| && FIRST_SOLID_GID <= g.data[i] <= LAST_SOLID_GID
  }

  /** The world box of tile (x, y). */
  function GetTileBounds(x: int, y: int): (r: Geometry.Rect)
    ensures Geometry.Left(r) == x as real * TILE_SIZE && Geometry.Top(r) == y as real * TILE_SIZE
    ensures Geometry.Right(r) == (x + 1) as real * TILE_SIZE && Geometry.Bottom(r) == (y + 1) as real * TILE_SIZE
  {
    Geometry.Rect(x as real * TILE_SIZE, y as real * TILE_SIZE, TILE_SIZE, TILE_SIZE)
  }

  /** Tile (x, y) is an in-bounds solid tile that the box overlaps. */
  predicate TileHit(g: Grid, box: Geometry.Rect, x: int, y: int)
  {
    IsValidTilePosition(g, x, y) && IsSolidTile(g, x, y) && Geometry.Intersects(box, GetTileBounds(x, y))
  }

  /** The inner loop: columns x..right of row y. */
  function ScanRow(g: Grid, box: Geometry.Rect, y: int, x: int, right: int): (r: bool)
    ensures r <==> exists i :: x <= i <= right && TileHit(g, box, i, y)
    decreases right - x
  {
    if x > right then false
    else if TileHit(g, box, x, y) then true
    else ScanRow(g, box, y, x + 1, right)
  }

  /** The outer loop: rows y..bottom, each scanned over columns left..right. */
  function ScanRows(g: Grid, box: Geometry.Rect, y: int, bottom: int, left: int, right: int): (r: bool)
    ensures r <==> exists i, j :: y <= j <= bottom && left <= i <= right && TileHit(g, box, i, j)
    decreases bottom - y
  {
    if y > bottom then false
    else if ScanRow(g, box, y, left, right) then true
    else ScanRows(g, box, y + 1, bottom, left, right)
  }

  /** Every tile the box overlaps lies inside the index range the scan visits. */
  lemma HitInScanRange(g: Grid, box: Geometry.Rect, x: int, y: int)
    requires TileHit(g, box, x, y)
    ensures Geometry.Trunc(Geometry.Left(box) / TILE_SIZE) <= x <= Geometry.Trunc(Geometry.Right(box) / TILE_SIZE)
    ensures Geometry.Trunc(Geometry.Top(box) / TILE_SIZE) <= y <= Geometry.Trunc(Geometry.Bottom(box) / TILE_SIZE)
  {
    var tb := GetTileBounds(x, y);
    assert Geometry.Left(box) / TILE_SIZE < (x + 1) as real;
    assert x as real < Geometry.Right(box) / TILE_SIZE;
    assert Geometry.Top(box) / TILE_SIZE < (y + 1) as real;
    assert y as real < Geometry.Bottom(box) / TILE_SIZE;
  }

  /**
    CheckTileCollision: convert the box edges to tile indices by truncating
    division, scan that index rectangle, and report whether some in-bounds
    solid tile intersects the box.
   */
  function CheckTileCollision(box: Geometry.Rect, g: Grid): (r: bool)
    ensures r <==> exists x, y :: TileHit(g, box, x, y)
  {
    var leftTile := Geometry.Trunc(Geometry.Left(box) / TILE_SIZE);
    var rightTile := Geometry.Trunc(Geometry.Right(box) / TILE_SIZE);
    var topTile := Geometry.Trunc(Geometry.Top(box) / TILE_SIZE);
    var bottomTile := Geometry.Trunc(Geometry.Bottom(box) / TILE_SIZE);
    var found := ScanRows(g, box, topTile, bottomTile, leftTile, rightTile);
    assert (exists x, y :: TileHit(g, box, x, y)) ==> found by {
      if exists x, y :: TileHit(g, box, x, y) {
        var x, y :| TileHit(g, box, x, y);
        HitInScanRange(g, box, x, y);
      }
    }
    found
  }

  /** Tiles outside the map, or whose index runs past the data, are never solid. */
  lemma OutsideIsNotSolid(g: Grid, box: Geometry.Rect, x: int, y: int)
    requires !IsValidTilePosition(g, x, y) || y * g.width + x >= |g.data|
    ensures !TileHit(g, box, x, y)
  {
  }

  /** HasCollision(movingObject, level): some in-map solid tile overlaps the object's box. */
  function HasLevelCollision(s: Solids.Solid, g: Grid): (r: bool)
    ensures r <==> exists x, y :: TileHit(g, Solids.AABB(s), x, y)
  {
    CheckTileCollision(Solids.AABB(s), g)
  }

  /** HasCollision(obj1, obj2): the two objects' boxes intersect, whichever is named first. */
  function HasCollision(a: Solids.Solid, b: Solids.Solid): (r: bool)
    ensures r <==> Geometry.Intersects(Solids.AABB(a), Solids.AABB(b))
    ensures r <==> Geometry.Intersects(Solids.AABB(b), Solids.AABB(a))
  {
    Geometry.IntersectsSymmetric(Solids.AABB(a), Solids.AABB(b));
    Geometry.Intersects(Solids.AABB(a), Solids.AABB(b))
  }

  /** The normal reported for each side: the unit axis vector pointing away from that face. */
  function SideNormal(s: Side): Geometry.Vec
  {
    match s
    case Top => Geometry.Vec(0.0, -1.0)
    case Bottom => Geometry.Vec(0.0, 1.0)
    case Left => Geometry.Vec(-1.0, 0.0)
    case Right => Geometry.Vec(1.0, 0.0)
    case None => Geometry.Vec(0.0, 0.0)
  }

  /** The four directed overlaps of box a over box b. */
  function OverlapLeft(a: Geometry.Rect, b: Geometry.Rect): real { Geometry.Right(a) - Geometry.Left(b) }
  function OverlapRight(a: Geometry.Rect, b: Geometry.Rect): real { Geometry.Right(b) - Geometry.Left(a) }
  function OverlapTop(a: Geometry.Rect, b: Geometry.Rect): real { Geometry.Bottom(a) - Geometry.Top(b) }
  function OverlapBottom(a: Geometry.Rect, b: Geometry.Rect): real { Geometry.Bottom(b) - Geometry.Top(a) }

  /**
    GetCollisionInfo on the two objects' boxes: no collision and side None
    when they do not intersect; otherwise the depth is the smallest directed
    overlap and the side is the first of Top, Bottom, Left, Right whose
    overlap equals it.
   */
  function GetCollisionInfo(a: Geometry.Rect, b: Geometry.Rect): (r: CollisionInfo)
    ensures !Geometry.Intersects(a, b) ==> !r.hasCollision && r.side == None
    ensures Geometry.Intersects(a, b) ==> r.hasCollision && r.side != None && r.depth > 0.0
    ensures r.hasCollision ==>
      && r.depth <= OverlapLeft(a, b) && r.depth <= OverlapRight(a, b)
      && r.depth <= OverlapTop(a, b) && r.depth <= OverlapBottom(a, b)
    ensures r.side == Top ==> r.depth == OverlapTop(a, b)
    ensures r.side == Bottom ==> r.depth == OverlapBottom(a, b) < OverlapTop(a, b)
    ensures r.side == Left ==>
      r.depth == OverlapLeft(a, b) < OverlapTop(a, b) && r.depth < OverlapBottom(a, b)
    ensures r.side == Right ==>
      && r.depth == OverlapRight(a, b) < OverlapTop(a, b) && r.depth < OverlapBottom(a, b)
      && r.depth < OverlapLeft(a, b)
    ensures r.hasCollision ==> r.normal == SideNormal(r.side)
    ensures r.hasCollision ==>
      (r.normal.x == 0.0 || r.normal.y == 0.0) && Geometry.Abs(r.normal.x) + Geometry.Abs(r.normal.y) == 1.0
  {
    if !Geometry.Intersects(a, b) then
      CollisionInfo(false, None, Geometry.Vec(0.0, 0.0), 0.0)
    else
      var oL := OverlapLeft(a, b);
      var oR := OverlapRight(a, b);
      var oT := OverlapTop(a, b);
      var oB := OverlapBottom(a, b);
      var m := Geometry.Min(Geometry.Min(oL, oR), Geometry.Min(oT, oB));
      var side :=
        if m == oT then Top
        else if m == oB then Bottom
        else if m == oL then Left
        else if m == oR then Right
        else None;
      CollisionInfo(true, side, SideNormal(side), m)
  }
}
