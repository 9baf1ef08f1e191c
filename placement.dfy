/** The palette of `placeObj`: which object each palette entry puts down, in which list, with
    which size, type, hitbox and offset from the center of the clicked grid cell. */
module Placement {
  import opened Wrappers
  import opened Geometry
  import opened Store

  /** `selectorValues`: the object id of each palette entry, in palette order. Ids 4 and 5 are
      commented out of the palette, and 15 comes last. */
  const Palette: seq<int> := [1, 2, 3, 6, 7, 8, 9, 10, 11, 12, 13, 14, 16, 17, 15]

  /** The height ratio of the short spike and of the block platform. */
  const Frac: real := 28.0 / 61.0

  /** How far below the cell center (before rotation) the short spike and, with Alt held, the platform sit:
      `HALF_GRID_SIZE - HALF_GRID_SIZE * frac`. */
  const ShortDrop: real := HalfGridSize - HalfGridSize * Frac

  /** The list an id goes to: spikes for 2, 3 and 6, portals for 16 and 17, blocks otherwise. */
  function Destination(id: int): Kind {
    if id == 2 || id == 3 || id == 6 then Spikes
    else if id == 16 || id == 17 then Portals
    else Blocks
  }

  /** The `type` field each id sets; ids without a branch (1, 2, 4 and 5) keep type 1. */
  function TypeFor(id: int): int {
    match id
    case 3 => 2
    case 6 => 5
    case 7 => 2
    case 8 => 3
    case 9 => 4
    case 10 => 5
    case 11 => 6
    case 12 => 7
    case 13 => 8
    case 14 => 9
    case 15 => 10
    case 16 => 1
    case 17 => 2
    case _ => 1
  }

  function HeightFor(id: int): real {
    if id == 3 || id == 15 then GridSize * Frac
    else if id == 6 then GridSize / 1.22
    else if id == 16 || id == 17 then GridSize * 3.0
    else GridSize
  }

  /** The vertical offset from the cell center before rotation; for the platform it depends on
      whether Alt is held. */
  function OffsetFor(id: int, alt: bool): real {
    if id == 3 then ShortDrop
    else if id == 6 then HalfGridSize * 0.8125
    else if id == 15 then (if alt then ShortDrop else -HalfGridSize + HalfGridSize * Frac)
    else 0.0
  }

  /** Only the two hollow grid blocks are without a hitbox. */
  function HitboxFor(id: int): bool {
    id != 11 && id != 12
  }

  datatype Placed = Placed(kind: Kind, obj: Obj)

  /** What `placeObj` puts down for palette id `id` with the mouse at `mouse`: nothing for an id
      outside 1..17; otherwise one object in one list, at the center of the mouse's grid cell
      moved by the id's offset turned `rotation` quarter turns about that center. */
  function Place(id: int, rotation: int, mouse: Point, alt: bool): Option<Placed> {
    if id < 1 || id > 17 then None
    else
      var c := Point(CellCenter(mouse.x), CellCenter(mouse.y));
      var pos := RotateQuarter(Point(c.x, c.y + OffsetFor(id, alt)), c, rotation);
      Some(Placed(Destination(id), Obj(pos.x, pos.y, GridSize, HeightFor(id), TypeFor(id), rotation, HitboxFor(id))))
  }

  // ---------------------------------------------------------------------------------------
  // Properties

  /** Something is placed exactly for the ids 1 to 17. */
  lemma PlaceIffInRange(id: int, rotation: int, mouse: Point, alt: bool)
    ensures Place(id, rotation, mouse, alt).Some? <==> 1 <= id <= 17
  {
  }

  /** Every palette entry names an id that places something, and every id from 1 to 17 except
      the commented-out 4 and 5 is reachable from exactly one palette entry. */
  lemma PaletteIds()
    ensures |Palette| == 15
    ensures forall i :: 0 <= i < |Palette| ==> 1 <= Palette[i] <= 17 && Palette[i] != 4 && Palette[i] != 5
    ensures forall id :: 1 <= id <= 17 && id != 4 && id != 5 ==> id in Palette
    ensures forall i, j :: 0 <= i < j < |Palette| ==> Palette[i] != Palette[j]
  {
    assert Palette[0] == 1 && Palette[1] == 2 && Palette[2] == 3 && Palette[3] == 6;
    assert Palette[4] == 7 && Palette[5] == 8 && Palette[6] == 9 && Palette[7] == 10;
    assert Palette[8] == 11 && Palette[9] == 12 && Palette[10] == 13 && Palette[11] == 14;
    assert Palette[12] == 16 && Palette[13] == 17 && Palette[14] == 15;
  }

  /** The offsets of the short spike, the pit spikes and the platform are all less than half a
      cell. */
  lemma OffsetInsideCell(id: int, alt: bool)
    ensures -HalfGridSize < OffsetFor(id, alt) < HalfGridSize
  {
  }

  /** The placed object is anchored inside the grid cell that was clicked, at every rotation. */
  lemma {:induction false} PlacedInClickedCell(id: int, rotation: int, mouse: Point, alt: bool)
    requires 1 <= id <= 17
    ensures var o := Place(id, rotation, mouse, alt).value.obj;
      CellCenter(o.x) == CellCenter(mouse.x) && CellCenter(o.y) == CellCenter(mouse.y)
  {
    var c := Point(CellCenter(mouse.x), CellCenter(mouse.y));
    var d := OffsetFor(id, alt);
    OffsetInsideCell(id, alt);
    RotateVerticalOffset(c, d, rotation);
    NearCenterSameCell(mouse.x, d);
    NearCenterSameCell(mouse.x, -d);
    NearCenterSameCell(mouse.x, 0.0);
    NearCenterSameCell(mouse.y, d);
    NearCenterSameCell(mouse.y, -d);
    NearCenterSameCell(mouse.y, 0.0);
  }

  /** Every placed object has the default width, the current rotation, and goes to the list,
      type, height and hitbox of its id; the ids without an offset sit exactly on the cell
      center. */
  lemma PlacedShape(id: int, rotation: int, mouse: Point, alt: bool)
    requires 1 <= id <= 17
    ensures var p := Place(id, rotation, mouse, alt).value;
      && p.obj.width == GridSize && p.obj.rotation == rotation
      && (p.kind == Spikes <==> id == 2 || id == 3 || id == 6)
      && (p.kind == Portals <==> id == 16 || id == 17)
      && (!p.obj.hitbox <==> id == 11 || id == 12)
      && (id != 3 && id != 6 && id != 15 ==> p.obj.x == CellCenter(mouse.x) && p.obj.y == CellCenter(mouse.y))
  {
    var c := Point(CellCenter(mouse.x), CellCenter(mouse.y));
    RotateFullTurn(c, c, rotation);
  }

  /** Unrotated, the short spike stands on the bottom edge of its cell, and upside down it hangs
      from the top edge. */
  lemma ShortSpikeFlush(rotation: int, mouse: Point, alt: bool)
    ensures var o := Place(3, rotation, mouse, alt).value.obj;
      && (rotation % 4 == 0 ==> o.y + o.height * 0.5 == CellCenter(mouse.y) + HalfGridSize)
      && (rotation % 4 == 2 ==> o.y - o.height * 0.5 == CellCenter(mouse.y) - HalfGridSize)
  {
    RotateVerticalOffset(Point(CellCenter(mouse.x), CellCenter(mouse.y)), ShortDrop, rotation);
  }

  /** Unrotated, the platform lies along the top edge of its cell, or along the bottom edge when
      Alt is held. */
  lemma PlatformFlush(mouse: Point, alt: bool)
    ensures var o := Place(15, 0, mouse, alt).value.obj;
      && (alt ==> o.y + o.height * 0.5 == CellCenter(mouse.y) + HalfGridSize)
      && (!alt ==> o.y - o.height * 0.5 == CellCenter(mouse.y) - HalfGridSize)
  {
    RotateVerticalOffset(Point(CellCenter(mouse.x), CellCenter(mouse.y)), OffsetFor(15, alt), 0);
  }
}
