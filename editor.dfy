/** The editor's state and its event handlers: the palette and rotation keys, arrow-key
    nudging, bulk delete, the mouse handlers (place, delete, drag-select) and the text import
    and export of the level. */
module Editor {
  import opened Wrappers
  import opened Text
  import opened Geometry
  import opened Store
  import opened Codec
  import opened Placement

  // ---------------------------------------------------------------------------------------
  // Keys

  /** `(i - 1 + n) % n`: the previous index, wrapping from the first to the last. */
  function PrevIndex(i: int, n: int): int
    requires n > 0
  {
    (i - 1 + n) % n
  }

  /** `(i + 1) % n`: the next index, wrapping from the last to the first. */
  function NextIndex(i: int, n: int): int
    requires n > 0
  {
    (i + 1) % n
  }

  lemma ModBelow(x: int, n: int)
    requires 0 <= x < n
    ensures x % n == x
  {
  }

  lemma ModOnce(x: int, n: int)
    requires n <= x < 2 * n
    ensures x % n == x - n
  {
    assert x == 1 * n + (x - n);
  }

  /** One step in either direction, in closed form. */
  lemma CycleStep(i: int, n: int)
    requires 0 <= i < n
    ensures NextIndex(i, n) == if i == n - 1 then 0 else i + 1
    ensures PrevIndex(i, n) == if i == 0 then n - 1 else i - 1
  {
    if i == n - 1 { ModOnce(i + 1, n); } else { ModBelow(i + 1, n); }
    if i == 0 { ModBelow(n - 1, n); } else { ModOnce(i - 1 + n, n); }
  }

  /** Stepping back and forth stays in range and each step undoes the other; the steps wrap
      around at both ends. */
  lemma CycleSteps(i: int, n: int)
    requires 0 <= i < n
    ensures 0 <= PrevIndex(i, n) < n && 0 <= NextIndex(i, n) < n
    ensures PrevIndex(NextIndex(i, n), n) == i && NextIndex(PrevIndex(i, n), n) == i
    ensures NextIndex(n - 1, n) == 0 && PrevIndex(0, n) == n - 1
  {
    CycleStep(i, n);
    CycleStep(NextIndex(i, n), n);
    CycleStep(PrevIndex(i, n), n);
    CycleStep(n - 1, n);
    CycleStep(0, n);
  }

  /** Four presses of `E` bring the rotation back to where it was. */
  lemma {:induction false} FourTurnsBack(r: int)
    requires 0 <= r < 4
    ensures NextIndex(NextIndex(NextIndex(NextIndex(r, 4), 4), 4), 4) == r
  {
    var r1 := NextIndex(r, 4);
    CycleStep(r, 4);
    var r2 := NextIndex(r1, 4);
    CycleStep(r1, 4);
    var r3 := NextIndex(r2, 4);
    CycleStep(r2, 4);
    CycleStep(r3, 4);
  }

  /** `q` and `e` step through the palette. */
  function TypeAfterKey(t: int, key: string): int {
    if key == "q" then PrevIndex(t, |Palette|)
    else if key == "e" then NextIndex(t, |Palette|)
    else t
  }

  /** `Q` and `E` turn by a quarter; `1`, `0` and `5` pick no rotation and `2`, `3`, `4` one, two
      and three quarter turns. */
  function RotationAfterKey(r: int, key: string): int {
    if key == "Q" then PrevIndex(r, 4)
    else if key == "E" then NextIndex(r, 4)
    else if key == "1" || key == "0" || key == "5" then 0
    else if key == "2" then 1
    else if key == "3" then 2
    else if key == "4" then 3
    else r
  }

  /** The palette index and the rotation stay in range whatever key is pressed. */
  lemma KeysKeepRanges(t: int, r: int, key: string)
    requires 0 <= t < |Palette| && 0 <= r < 4
    ensures 0 <= TypeAfterKey(t, key) < |Palette|
    ensures 0 <= RotationAfterKey(r, key) < 4
  {
    CycleSteps(t, |Palette|);
    CycleSteps(r, 4);
  }

  predicate IsDeleteKey(key: string) {
    key == "Backspace" || key == "Delete"
  }

  /** The nudge step: a whole cell, half a cell with Shift, one unit (`GRID_SIZE * 0.03125`) with
      Alt. */
  function NudgeDistance(shift: bool, alt: bool): (d: real)
    ensures d > 0.0
  {
    if shift then HalfGridSize else if alt then GridSize * 0.03125 else GridSize
  }

  /** The offset an arrow key moves the selection by; other keys give no offset. */
  function ArrowOffset(key: string, dist: real): Point {
    if key == "ArrowUp" then Point(0.0, -dist)
    else if key == "ArrowLeft" then Point(-dist, 0.0)
    else if key == "ArrowDown" then Point(0.0, dist)
    else if key == "ArrowRight" then Point(dist, 0.0)
    else Point(0.0, 0.0)
  }

  predicate IsArrowKey(key: string) {
    key == "ArrowUp" || key == "ArrowLeft" || key == "ArrowDown" || key == "ArrowRight"
  }

  /** The nudge steps are 32, 16 and 1; an arrow key moves along exactly one axis by the step,
      and any other key moves nothing. */
  lemma NudgeSteps(key: string, shift: bool, alt: bool)
    ensures NudgeDistance(true, alt) == 16.0
    ensures NudgeDistance(false, true) == 1.0
    ensures NudgeDistance(false, false) == 32.0
    ensures var d := NudgeDistance(shift, alt);
      var o := ArrowOffset(key, d);
      && (IsArrowKey(key) <==> o != Point(0.0, 0.0))
      && (IsArrowKey(key) ==> (o.x == 0.0 && Abs(o.y) == d) || (o.y == 0.0 && Abs(o.x) == d))
  {
  }

  // ---------------------------------------------------------------------------------------
  // Mouse

  /** Where the mouse may place and delete: right of the first column left of the origin, and
      not below the floor (`floorPosition`, which stays 0). */
  predicate InEditArea(p: Point) {
    p.x >= -GridSize && p.y <= 0.0
  }

  /** The center of the grid cell under `p`. */
  function GridCell(p: Point): Point {
    Point(CellCenter(p.x), CellCenter(p.y))
  }

  /** The level after `placeObj` put down `placed` with id `next`. */
  function WithPlaced(level: Level, next: nat, placed: Option<Placed>): Level {
    match placed
    case None => level
    case Some(pl) => level.With(pl.kind, level.Get(pl.kind) + [Entry(next, pl.obj)])
  }

  function NextAfter(next: nat, placed: Option<Placed>): nat {
    if placed.Some? then next + 1 else next
  }

  /** What the left button puts down at `p` with palette index `t`, when it places at all. */
  function PlacedBy(placing: bool, t: int, rotation: int, p: Point, alt: bool): Option<Placed>
    requires 0 <= t < |Palette|
  {
    if placing then Place(Palette[t], rotation, p, alt) else None
  }

  /** The level after a mouse edit at `p`: `placed` put down with id `next`, then, when
      `deleting`, the first object under `p` removed. */
  function Edited(level: Level, next: nat, placed: Option<Placed>, deleting: bool, p: Point): Level {
    var afterPlace := WithPlaced(level, next, placed);
    if deleting then DeleteAt(afterPlace, p) else afterPlace
  }

  /** Placing appends exactly one object, to exactly one list, and keeps the ids well formed. */
  lemma WithPlacedEffect(level: Level, next: nat, placed: Option<Placed>)
    requires WellFormed(level, next)
    ensures WellFormed(WithPlaced(level, next, placed), NextAfter(next, placed))
    ensures placed.None? ==> WithPlaced(level, next, placed) == level
    ensures placed.Some? ==> WithPlaced(level, next, placed).View() == level.View().Extend(placed.value.kind, [placed.value.obj])
    ensures placed.Some? ==> WithPlaced(level, next, placed).Size() == level.Size() + 1
  {
    if placed.Some? {
      var pl := placed.value;
      WellFormedAppend(level, next, pl.kind, pl.obj);
      ViewAppend(level, pl.kind, Entry(next, pl.obj));
    }
  }

  // ---------------------------------------------------------------------------------------
  // The editor

  /** The editor's global state: the three object lists (`level`), the selection, the palette
      and rotation choice, the mouse and the keys held down. */
  class Editor {
    var blocks: seq<Entry>
    var spikes: seq<Entry>
    var portals: seq<Entry>
    /** The id the next object receives; every stored object has a smaller one. */
    var nextId: nat
    /** `selectedObjects`: the list and the object of each selected entry. */
    var selection: seq<Ref>
    var selecting: bool
    var selectionStart: Point
    var selectionEnd: Point
    /** The palette index (`currentObjType`) and the quarter turns (`currentObjRotation`). */
    var currentObjType: int
    var currentObjRotation: int
    var mouse: Point
    var mouseDown: bool
    var mouseRightDown: bool
    /** `lastGridX`, `lastGridY`: the cell of the last drag placement or deletion. */
    var lastGrid: Point
    /** The lower-cased keys held down. */
    var keysDown: set<string>

    function Current(): Level
      reads this`blocks, this`spikes, this`portals
    {
      Level(blocks, spikes, portals)
    }

    /** The lists as plain objects, without ids. */
    function View(): Lists
      reads this`blocks, this`spikes, this`portals
    {
      Current().View()
    }

    /** The palette index and rotation are in range, ids are well formed, no object is selected
      twice, and while a drag selection is in progress nothing is selected yet. */
    predicate Valid()
      reads this
    {
      && 0 <= currentObjType < |Palette|
      && 0 <= currentObjRotation < 4
      && WellFormed(Current(), nextId)
      && NoDup(selection)
      && RefsBelow(selection, nextId)
      && (selecting ==> selection == [])
    }

    /** The state when the page loads. */
    constructor ()
      ensures Valid()
      ensures Current() == Level([], [], []) && nextId == 0
      ensures selection == [] && !selecting && selectionStart == Point(0.0, 0.0) && selectionEnd == Point(0.0, 0.0)
      ensures currentObjType == 0 && currentObjRotation == 0
      ensures mouse == Point(0.0, 0.0) && !mouseDown && !mouseRightDown
      ensures lastGrid == Point(0.0, 0.0) && keysDown == {}
    {
      blocks, spikes, portals := [], [], [];
      nextId := 0;
      selection := [];
      selecting := false;
      selectionStart, selectionEnd := Point(0.0, 0.0), Point(0.0, 0.0);
      currentObjType, currentObjRotation := 0, 0;
      mouse := Point(0.0, 0.0);
      mouseDown, mouseRightDown := false, false;
      lastGrid := Point(0.0, 0.0);
      keysDown := {};
    }

    /** Replaces list `k`. */
    method SetList(k: Kind, es: seq<Entry>)
      modifies this`blocks, this`spikes, this`portals
      ensures Current() == old(Current()).With(k, es)
    {
      match k
      case Blocks => blocks := es;
      case Spikes => spikes := es;
      case Portals => portals := es;
    }

    /** `list.push(obj)` of a new object, which receives the next id. */
    method Push(k: Kind, o: Obj)
      modifies this`blocks, this`spikes, this`portals, this`nextId
      ensures Current() == old(Current()).With(k, old(Current()).Get(k) + [Entry(old(nextId), o)])
      ensures nextId == old(nextId) + 1
    {
      SetList(k, Current().Get(k) + [Entry(nextId, o)]);
      nextId := nextId + 1;
    }

    /** The body of `placeObj` once the palette id is known. */
    method PlaceId(id: int)
      modifies this`blocks, this`spikes, this`portals, this`nextId
      ensures var placed := Place(id, currentObjRotation, mouse, "alt" in keysDown);
        Current() == WithPlaced(old(Current()), old(nextId), placed) && nextId == NextAfter(old(nextId), placed)
    {
      if id < 1 || id > 17 {
        return;
      }
      var gx := CellCenter(mouse.x);
      var gy := CellCenter(mouse.y);
      var center := Point(gx, gy);
      var x, y, height, objType, hitbox := gx, gy, GridSize, 1, true;
      var kind := Blocks;
      if id == 1 {
      } else if id == 2 {
        kind := Spikes;
      } else if id == 3 {
        kind := Spikes;
        var pos := RotateQuarter(Point(gx, gy + HalfGridSize - HalfGridSize * Frac), center, currentObjRotation);
        x, y := pos.x, pos.y;
        height := height * Frac;
        objType := 2;
      } else if id == 6 {
        kind := Spikes;
        var pos := RotateQuarter(Point(gx, gy + HalfGridSize * 0.8125), center, currentObjRotation);
        x, y := pos.x, pos.y;
        height := height / 1.22;
        objType := 5;
      } else if id == 7 {
        objType := 2;
      } else if id == 8 {
        objType := 3;
      } else if id == 9 {
        objType := 4;
      } else if id == 10 {
        objType := 5;
      } else if id == 11 {
        objType := 6;
        hitbox := false;
      } else if id == 12 {
        objType := 7;
        hitbox := false;
      } else if id == 13 {
        objType := 8;
      } else if id == 14 {
        objType := 9;
      } else if id == 15 {
        var d := if "alt" in keysDown then HalfGridSize - HalfGridSize * Frac else -HalfGridSize + HalfGridSize * Frac;
        var pos := RotateQuarter(Point(gx, gy + d), center, currentObjRotation);
        x, y := pos.x, pos.y;
        height := height * Frac;
        objType := 10;
      } else if id == 16 {
        kind := Portals;
        height := height * 3.0;
        objType := 1;
      } else if id == 17 {
        kind := Portals;
        height := height * 3.0;
        objType := 2;
      }
      RotateFullTurn(center, center, currentObjRotation);
      Push(kind, Obj(x, y, GridSize, height, objType, currentObjRotation, hitbox));
    }

    /** `placeObj`: places the current palette entry at the mouse. */
    method PlaceObj()
      requires 0 <= currentObjType < |Palette|
      modifies this`blocks, this`spikes, this`portals, this`nextId
      ensures var placed := Place(Palette[currentObjType], currentObjRotation, mouse, "alt" in keysDown);
        Current() == WithPlaced(old(Current()), old(nextId), placed) && nextId == NextAfter(old(nextId), placed)
    {
      PlaceId(Palette[currentObjType]);
    }
  
    /** `deleteObj`: removes the first object under the mouse, searching the blocks, then the
        spikes, then the portals. */
    method DeleteObj()
      modifies this`blocks, this`spikes, this`portals
      ensures Current() == DeleteAt(old(Current()), mouse)
    {
      var i := 0;
      while i < |blocks|
        invariant 0 <= i <= |blocks| && Current() == old(Current())
        invariant forall j :: 0 <= j < i ==> !PointInBox(mouse, blocks[j].obj.Bounds())
      {
        if PointInBox(mouse, blocks[i].obj.Bounds()) {
          blocks := RemoveAt(blocks, i);
          return;
        }
        i := i + 1;
      }
      i := 0;
      while i < |spikes|
        invariant 0 <= i <= |spikes| && Current() == old(Current())
        invariant forall j :: 0 <= j < i ==> !PointInBox(mouse, spikes[j].obj.Bounds())
      {
        if PointInBox(mouse, spikes[i].obj.Bounds()) {
          spikes := RemoveAt(spikes, i);
          return;
        }
        i := i + 1;
      }
      i := 0;
      while i < |portals|
        invariant 0 <= i <= |portals| && Current() == old(Current())
        invariant forall j :: 0 <= j < i ==> !PointInBox(mouse, portals[j].obj.Bounds())
      {
        if PointInBox(mouse, portals[i].obj.Bounds()) {
          portals := RemoveAt(portals, i);
          return;
        }
        i := i + 1;
      }
    }

    /** One iteration of `deleteSelection`. */
    method RemoveRef(r: Ref)
      modifies this`blocks, this`spikes, this`portals
      ensures Current() == RemoveOne(old(Current()), r)
    {
      var parent := Current().Get(r.kind);
      var idx := IndexOfId(parent, r.id);
      if idx != -1 {
        SetList(r.kind, RemoveAt(parent, idx));
      }
    }

    /** `deleteSelection`: removes every selected object that is still in its list, then
        empties the selection. */
    method DeleteSelection()
      requires WellFormed(Current(), nextId)
      modifies this`blocks, this`spikes, this`portals, this`selection
      ensures Current() == RemoveSelected(old(Current()), old(selection))
      ensures WellFormed(Current(), nextId)
      ensures selection == []
    {
      RemoveNothing(Current());
      var sel := selection;
      var level0 := Current();
      var i := 0;
      while i < |sel|
        invariant 0 <= i <= |sel|
        invariant Current() == RemoveSelected(level0, sel[..i])
      {
        var r := sel[i];
        RemoveSelectedSnoc(level0, sel[..i], r, nextId);
        assert sel[..i + 1] == sel[..i] + [r];
        RemoveRef(r);
        i := i + 1;
      }
      assert sel[..i] == sel;
      RemoveSelectedWellFormed(level0, sel, nextId);
      selection := [];
    }

    /** One iteration of the nudge loop of the keydown handler. */
    method NudgeRef(r: Ref, dx: real, dy: real)
      modifies this`blocks, this`spikes, this`portals
      ensures Current() == NudgeOne(old(Current()), r, dx, dy)
    {
      var es := Current().Get(r.kind);
      var idx := IndexOfId(es, r.id);
      if idx >= 0 {
        SetList(r.kind, es[idx := Entry(es[idx].id, es[idx].obj.Moved(dx, dy))]);
      }
    }

    /** The nudge loop of the keydown handler: moves every selected object by `(dx, dy)`. */
    method Nudge(dx: real, dy: real)
      requires WellFormed(Current(), nextId) && NoDup(selection)
      modifies this`blocks, this`spikes, this`portals
      ensures Current() == Nudged(old(Current()), selection, dx, dy)
      ensures WellFormed(Current(), nextId)
    {
      var sel := selection;
      ghost var level0 := Current();
      NudgedNothing(level0, dx, dy);
      var i := 0;
      while i < |sel|
        invariant 0 <= i <= |sel|
        invariant Current() == Nudged(level0, sel[..i], dx, dy)
      {
        var r := sel[i];
        assert r !in sel[..i];
        NudgedSnoc(level0, sel[..i], r, dx, dy, nextId);
        assert sel[..i + 1] == sel[..i] + [r];
        NudgeRef(r, dx, dy);
        i := i + 1;
      }
      assert sel[..i] == sel;
      NudgedWellFormed(level0, sel, dx, dy, nextId);
    }

    /** The palette and rotation keys of the keydown handler. */
    method ChooseByKey(key: string)
      requires 0 <= currentObjType < |Palette| && 0 <= currentObjRotation < 4
      modifies this`currentObjType, this`currentObjRotation
      ensures currentObjType == TypeAfterKey(old(currentObjType), key)
      ensures currentObjRotation == RotationAfterKey(old(currentObjRotation), key)
      ensures 0 <= currentObjType < |Palette| && 0 <= currentObjRotation < 4
    {
      KeysKeepRanges(currentObjType, currentObjRotation, key);
      if key == "q" {
        currentObjType := PrevIndex(currentObjType, |Palette|);
      }
      if key == "e" {
        currentObjType := NextIndex(currentObjType, |Palette|);
      }
      if key == "Q" {
        currentObjRotation := PrevIndex(currentObjRotation, 4);
      }
      if key == "E" {
        currentObjRotation := NextIndex(currentObjRotation, 4);
      }
      if key == "1" || key == "0" || key == "5" {
        currentObjRotation := 0;
      }
      if key == "2" {
        currentObjRotation := 1;
      }
      if key == "3" {
        currentObjRotation := 2;
      }
      if key == "4" {
        currentObjRotation := 3;
      }
    }

    /** The nudge offset of the keydown handler for `key` with Shift and Alt as given. */
    static method KeyOffset(key: string, shift: bool, alt: bool) returns (offsetX: real, offsetY: real)
      ensures Point(offsetX, offsetY) == ArrowOffset(key, NudgeDistance(shift, alt))
    {
      var dist := GridSize;
      if shift {
        dist := HalfGridSize;
      } else if alt {
        dist := GridSize * 0.03125;
      }
      offsetX, offsetY := 0.0, 0.0;
      if key == "ArrowUp" {
        offsetY := offsetY - dist;
      }
      if key == "ArrowLeft" {
        offsetX := offsetX - dist;
      }
      if key == "ArrowDown" {
        offsetY := offsetY + dist;
      }
      if key == "ArrowRight" {
        offsetX := offsetX + dist;
      }
    }

    /** The part of the keydown handler that acts on a non-empty selection. */
    method SelectionKey(key: string, shift: bool, alt: bool)
      requires WellFormed(Current(), nextId) && NoDup(selection)
      modifies this`blocks, this`spikes, this`portals, this`selection
      ensures WellFormed(Current(), nextId) && NoDup(selection)
      ensures IsDeleteKey(key) ==> Current() == RemoveSelected(old(Current()), old(selection)) && selection == []
      ensures !IsDeleteKey(key) ==>
        var offset := ArrowOffset(key, NudgeDistance(shift, alt));
        Current() == Nudged(old(Current()), old(selection), offset.x, offset.y) && selection == old(selection)
    {
      if key == "Backspace" || key == "Delete" {
        DeleteSelection();
        return;
      }
      var offsetX, offsetY := KeyOffset(key, shift, alt);
      if offsetX != 0.0 || offsetY != 0.0 {
        Nudge(offsetX, offsetY);
      } else {
        NudgedZero(Current(), selection);
      }
    }

    /** The keydown handler: records the key, steps the palette or the rotation, and with a
        selection either deletes it (Backspace, Delete) or nudges it (arrow keys). */
    method KeyDown(key: string, shift: bool, alt: bool)
      requires Valid()
      modifies this`keysDown, this`currentObjType, this`currentObjRotation
      modifies this`blocks, this`spikes, this`portals, this`selection
      ensures Valid()
      ensures keysDown == old(keysDown) + {ToLower(key)}
      ensures currentObjType == TypeAfterKey(old(currentObjType), key)
      ensures currentObjRotation == RotationAfterKey(old(currentObjRotation), key)
      ensures old(selection) == [] ==> Current() == old(Current()) && selection == []
      ensures old(selection) != [] && IsDeleteKey(key) ==>
        Current() == RemoveSelected(old(Current()), old(selection)) && selection == []
      ensures old(selection) != [] && !IsDeleteKey(key) ==>
        var offset := ArrowOffset(key, NudgeDistance(shift, alt));
        Current() == Nudged(old(Current()), old(selection), offset.x, offset.y) && selection == old(selection)
    {
      keysDown := keysDown + {ToLower(key)};
      ChooseByKey(key);
      if |selection| > 0 {
        SelectionKey(key, shift, alt);
      }
    }

    /** The keyup handler: the key is no longer held. */
    method KeyUp(key: string)
      modifies this`keysDown
      ensures keysDown == old(keysDown) - {ToLower(key)}
    {
      keysDown := keysDown - {ToLower(key)};
    }

    /** `placeObj` on a well-formed level: the ids stay well formed. */
    method PlaceHere()
      requires WellFormed(Current(), nextId) && 0 <= currentObjType < |Palette|
      modifies this`blocks, this`spikes, this`portals, this`nextId
      ensures WellFormed(Current(), nextId)
      ensures var placed := Place(Palette[currentObjType], currentObjRotation, mouse, "alt" in keysDown);
        Current() == WithPlaced(old(Current()), old(nextId), placed) && nextId == NextAfter(old(nextId), placed)
    {
      WithPlacedEffect(Current(), nextId, Place(Palette[currentObjType], currentObjRotation, mouse, "alt" in keysDown));
      PlaceObj();
    }

    /** `deleteObj` on a well-formed level: the ids stay well formed. */
    method DeleteHere()
      requires WellFormed(Current(), nextId)
      modifies this`blocks, this`spikes, this`portals
      ensures WellFormed(Current(), nextId)
      ensures Current() == DeleteAt(old(Current()), mouse)
    {
      DeleteAtWellFormed(Current(), mouse, nextId);
      DeleteObj();
    }

    /** The placing and deleting part of the mousedown handler: the left button places the
        current palette entry inside the editing area, then the right button deletes the
        object under the mouse. */
    method EditAtMouse()
      requires WellFormed(Current(), nextId) && 0 <= currentObjType < |Palette|
      modifies this`blocks, this`spikes, this`portals, this`nextId, this`lastGrid
      ensures WellFormed(Current(), nextId)
      ensures var placing := mouseDown && InEditArea(mouse);
        var placed := PlacedBy(placing, currentObjType, currentObjRotation, mouse, "alt" in keysDown);
        && Current() == Edited(old(Current()), old(nextId), placed, mouseRightDown, mouse)
        && nextId == NextAfter(old(nextId), placed)
        && lastGrid == (if placing then GridCell(mouse) else old(lastGrid))
    {
      ghost var level0, next0 := Current(), nextId;
      ghost var placed := PlacedBy(mouseDown && InEditArea(mouse), currentObjType, currentObjRotation, mouse, "alt" in keysDown);
      if mouseDown && InEditArea(mouse) {
        PlaceHere();
        lastGrid := GridCell(mouse);
      }
      assert Current() == WithPlaced(level0, next0, placed);
      if mouseRightDown {
        DeleteHere();
      }
    }

    /** The editing part of the mousedown handler, once the buttons are recorded and no drag
        selection starts: with nothing selected it places and deletes at the mouse, and with a
        selection it only clears the selection (`placeObj` and `deleteObj` leave the selection
        as it is, so the source's three tests come to this). */
    method ClickEdit()
      requires Valid()
      modifies this`selecting, this`selection, this`lastGrid
      modifies this`blocks, this`spikes, this`portals, this`nextId
      ensures Valid()
      ensures var placing := mouseDown && old(selection) == [] && InEditArea(mouse);
        var placed := PlacedBy(placing, currentObjType, currentObjRotation, mouse, "alt" in keysDown);
        && Current() == Edited(old(Current()), old(nextId), placed, mouseRightDown && old(selection) == [], mouse)
        && nextId == NextAfter(old(nextId), placed)
        && lastGrid == (if placing then GridCell(mouse) else old(lastGrid))
        && selection == []
        && selecting == (old(selecting) && old(selection) == [])
    {
      if |selection| == 0 {
        EditAtMouse();
      } else {
        selection := [];
        selecting := false;
      }
    }

    /** The drag-selection start of the mousedown handler. */
    method BeginSelection()
      requires Valid()
      modifies this`selecting, this`selection, this`selectionStart, this`selectionEnd
      ensures Valid()
      ensures selecting && selection == [] && selectionStart == mouse && selectionEnd == mouse
    {
      selecting := true;
      selection := [];
      selectionStart := mouse;
      selectionEnd := mouse;
    }

    /** The first part of the mousedown handler: the mouse moves to `p` and the button is
        recorded as held. */
    method Press(p: Point, button: int)
      requires Valid()
      modifies this`mouse, this`mouseDown, this`mouseRightDown
      ensures Valid()
      ensures mouse == p
      ensures mouseRightDown == (old(mouseRightDown) || button == 2)
      ensures mouseDown == (old(mouseDown) || button != 2)
    {
      mouse := p;
      if button == 2 {
        mouseRightDown := true;
      } else {
        mouseDown := true;
      }
    }

    /** The mousedown handler once the button is recorded: with `f` held it starts a drag
        selection, otherwise it edits as `ClickEdit` says. */
    method Click()
      requires Valid()
      modifies this`selecting, this`selection, this`selectionStart, this`selectionEnd, this`lastGrid
      modifies this`blocks, this`spikes, this`portals, this`nextId
      ensures Valid()
      ensures mouseDown && "f" in keysDown ==>
        && selecting && selection == [] && selectionStart == mouse && selectionEnd == mouse
        && Current() == old(Current()) && nextId == old(nextId) && lastGrid == old(lastGrid)
      ensures !(mouseDown && "f" in keysDown) ==>
        var placing := mouseDown && old(selection) == [] && InEditArea(mouse);
        var placed := PlacedBy(placing, currentObjType, currentObjRotation, mouse, "alt" in keysDown);
        && Current() == Edited(old(Current()), old(nextId), placed, mouseRightDown && old(selection) == [], mouse)
        && nextId == NextAfter(old(nextId), placed)
        && lastGrid == (if placing then GridCell(mouse) else old(lastGrid))
        && selection == []
        && selecting == (old(selecting) && old(selection) == [])
        && selectionStart == old(selectionStart) && selectionEnd == old(selectionEnd)
    {
      if mouseDown && "f" in keysDown {
        BeginSelection();
      } else {
        ClickEdit();
      }
    }

    /** The mousedown handler at world point `p` with mouse button `button` (2 is the right
        button). With `f` held it starts a drag selection; otherwise, with nothing selected and
        inside the editing area, the left button places the current palette entry and the right
        button deletes the object under the mouse; a click with a selection only clears it. */
    method MouseDown(p: Point, button: int)
      requires Valid()
      modifies this`mouse, this`mouseDown, this`mouseRightDown, this`selecting, this`selection
      modifies this`selectionStart, this`selectionEnd, this`lastGrid
      modifies this`blocks, this`spikes, this`portals, this`nextId
      ensures Valid()
      ensures mouse == p
      ensures mouseRightDown == (old(mouseRightDown) || button == 2)
      ensures mouseDown == (old(mouseDown) || button != 2)
      ensures mouseDown && "f" in keysDown ==>
        && selecting && selection == [] && selectionStart == p && selectionEnd == p
        && Current() == old(Current()) && nextId == old(nextId) && lastGrid == old(lastGrid)
      ensures !(mouseDown && "f" in keysDown) ==>
        var placing := mouseDown && old(selection) == [] && InEditArea(mouse);
        var placed := PlacedBy(placing, currentObjType, currentObjRotation, mouse, "alt" in keysDown);
        && Current() == Edited(old(Current()), old(nextId), placed, mouseRightDown && old(selection) == [], mouse)
        && nextId == NextAfter(old(nextId), placed)
        && lastGrid == (if placing then GridCell(mouse) else old(lastGrid))
        && selection == []
        && selecting == (old(selecting) && old(selection) == [])
        && selectionStart == old(selectionStart) && selectionEnd == old(selectionEnd)
    {
      Press(p, button);
      Click();
    }

    /** The mousemove handler outside a drag selection: with a button held, nothing selected
        and the mouse inside the editing area, it places (left button) or deletes (right
        button) once per grid cell the mouse enters. */
    method DragEdit()
      requires Valid()
      modifies this`lastGrid, this`blocks, this`spikes, this`portals, this`nextId
      ensures Valid()
      ensures var acts := (mouseDown || mouseRightDown) && GridCell(mouse) != old(lastGrid) && selection == [] && InEditArea(mouse);
        var placed := PlacedBy(acts && mouseDown, currentObjType, currentObjRotation, mouse, "alt" in keysDown);
        && Current() == Edited(old(Current()), old(nextId), placed, acts && !mouseDown, mouse)
        && nextId == NextAfter(old(nextId), placed)
        && lastGrid == (if acts then GridCell(mouse) else old(lastGrid))
    {
      if mouseDown || mouseRightDown {
        var grid := GridCell(mouse);
        if grid != lastGrid && |selection| == 0 && InEditArea(mouse) {
          if mouseDown {
            PlaceHere();
          } else {
            DeleteHere();
          }
          lastGrid := grid;
        }
      }
    }

    /** The mousemove handler at world point `p`: during a drag selection it moves the
        selection's corner; otherwise it places or deletes as `DragEdit` says. */
    method MouseMove(p: Point)
      requires Valid()
      modifies this`mouse, this`selectionEnd, this`lastGrid
      modifies this`blocks, this`spikes, this`portals, this`nextId
      ensures Valid()
      ensures mouse == p
      ensures selecting ==>
        selectionEnd == p && Current() == old(Current()) && nextId == old(nextId) && lastGrid == old(lastGrid)
      ensures !selecting ==>
        var acts := (mouseDown || mouseRightDown) && GridCell(mouse) != old(lastGrid) && selection == [] && InEditArea(mouse);
        var placed := PlacedBy(acts && mouseDown, currentObjType, currentObjRotation, mouse, "alt" in keysDown);
        && selectionEnd == old(selectionEnd)
        && Current() == Edited(old(Current()), old(nextId), placed, acts && !mouseDown, mouse)
        && nextId == NextAfter(old(nextId), placed)
        && lastGrid == (if acts then GridCell(mouse) else old(lastGrid))
    {
      MoveTo(p);
      if selecting {
        selectionEnd := mouse;
      } else {
        DragEdit();
      }
    }

    /** The mouse moves to `p`. */
    method MoveTo(p: Point)
      requires Valid()
      modifies this`mouse
      ensures Valid() && mouse == p
    {
      mouse := p;
    }

    /** One loop of the mouseup handler: appends a reference to every object of list `k`
        overlapping `box`, in list order. */
    method CollectHits(k: Kind, box: Box)
      modifies this`selection
      ensures selection == old(selection) + Hits(k, Current().Get(k), box)
    {
      var es := Current().Get(k);
      var i := 0;
      while i < |es|
        invariant 0 <= i <= |es|
        invariant selection == old(selection) + Hits(k, es[..i], box)
      {
        assert es[..i + 1][..i] == es[..i];
        if Overlaps(box, es[i].obj.Bounds()) {
          selection := selection + [Ref(k, es[i].id)];
        }
        i := i + 1;
      }
      assert es[..i] == es;
    }

    /** The three loops of the mouseup handler, on an empty selection. */
    method SelectOverlapping(box: Box)
      requires WellFormed(Current(), nextId) && selection == []
      modifies this`selection
      ensures selection == Overlapping(Current(), box) && NoDup(selection) && RefsBelow(selection, nextId)
    {
      CollectHits(Blocks, box);
      CollectHits(Spikes, box);
      CollectHits(Portals, box);
      OverlappingNoDup(Current(), box, nextId);
      OverlappingBelow(Current(), box, nextId);
    }

    /** The mouseup handler: a drag selection selects every object overlapping the selection
        box, blocks first, then spikes, then portals; the buttons are released. */
    method MouseUp()
      requires Valid()
      modifies this`selection, this`mouseDown, this`mouseRightDown, this`selecting
      ensures Valid()
      ensures selection == if old(selecting) then Overlapping(Current(), SelectionBox(selectionStart, selectionEnd)) else old(selection)
      ensures !mouseDown && !mouseRightDown && !selecting
    {
      if selecting {
        SelectOverlapping(SelectionBox(selectionStart, selectionEnd));
      }
      mouseDown := false;
      mouseRightDown := false;
      selecting := false;
    }
  
    /** `target.push(...)` of one parsed object text. */
    method PushParsed(k: Kind, text: string)
      requires WellFormed(Current(), nextId)
      modifies this`blocks, this`spikes, this`portals, this`nextId
      ensures WellFormed(Current(), nextId)
      ensures View() == old(View()).Extend(k, [ParseObj(text)])
      ensures LevelGrown(old(Current()), Current(), old(nextId)) && nextId >= old(nextId)
    {
      var o := ParseObj(text);
      WellFormedAppend(Current(), nextId, k, o);
      LevelGrownAppend(Current(), nextId, k, o);
      ViewAppend(Current(), k, Entry(nextId, o));
      Push(k, o);
    }

    /** One object text of `importLevel`: skipped when empty, otherwise parsed and pushed. */
    method PushText(k: Kind, t: string)
      requires WellFormed(Current(), nextId)
      modifies this`blocks, this`spikes, this`portals, this`nextId
      ensures WellFormed(Current(), nextId)
      ensures View() == old(View()).Extend(k, DecodeObjects([t]))
      ensures LevelGrown(old(Current()), Current(), old(nextId)) && nextId >= old(nextId)
    {
      DecodeOne(t);
      if t != "" {
        PushParsed(k, t);
      } else {
        ExtendNothing(View(), k);
      }
    }

    /** The inner loop of `importLevel`: pushes every non-empty object text onto list `k`. */
    method PushObjects(k: Kind, objects: seq<string>)
      requires WellFormed(Current(), nextId)
      modifies this`blocks, this`spikes, this`portals, this`nextId
      ensures WellFormed(Current(), nextId)
      ensures View() == old(View()).Extend(k, DecodeObjects(objects))
      ensures LevelGrown(old(Current()), Current(), old(nextId)) && nextId >= old(nextId)
    {
      ghost var start := View();
      ghost var level0, next0 := Current(), nextId;
      ExtendNothing(start, k);
      assert DecodeObjects([]) == [];
      var j := 0;
      while j < |objects|
        invariant 0 <= j <= |objects|
        invariant View() == start.Extend(k, DecodeObjects(objects[..j]))
        invariant WellFormed(Current(), nextId)
        invariant LevelGrown(level0, Current(), next0) && nextId >= next0
      {
        ghost var level1, next1 := Current(), nextId;
        assert objects[..j + 1] == objects[..j] + [objects[j]];
        DecodeObjectsSnoc(objects[..j], objects[j]);
        ExtendExtend(start, k, DecodeObjects(objects[..j]), DecodeObjects([objects[j]]));
        PushText(k, objects[j]);
        LevelGrownTrans(level0, level1, Current(), next0, next1);
        j := j + 1;
      }
      assert objects[..j] == objects;
    }

    /** One section of `importLevel`: skipped when empty, without a payload or with an unknown
        tag; otherwise the objects of its payload are pushed onto the tagged list. */
    method ImportSection(section: string)
      requires WellFormed(Current(), nextId)
      modifies this`blocks, this`spikes, this`portals, this`nextId
      ensures WellFormed(Current(), nextId)
      ensures View() == AddSection(old(View()), section)
      ensures LevelGrown(old(Current()), Current(), old(nextId)) && nextId >= old(nextId)
    {
      if section == "" {
        return;
      }
      var innerContent := Split(section, ':');
      var payload := Part(innerContent, 1);
      if payload == "" {
        return;
      }
      var target := SectionKind(innerContent[0]);
      if target.None? {
        return;
      }
      PushObjects(target.value, Split(payload, ';'));
    }

    /** `importLevel(str)`: empties the blocks and the spikes (not the portals) and adds the
        objects of the sections between the first and the second `!` (the rest of the text is
        ignored). */
    method ImportLevel(str: string)
      requires Valid()
      modifies this`blocks, this`spikes, this`portals, this`nextId
      ensures Valid()
      ensures View() == Imported(old(View()), str)
      ensures old(portals) <= portals && nextId >= old(nextId)
      ensures forall i :: 0 <= i < |blocks| ==> blocks[i].id >= old(nextId)
      ensures forall i :: 0 <= i < |spikes| ==> spikes[i].id >= old(nextId)
    {
      blocks := [];
      spikes := [];
      assert WellFormed(Current(), nextId);
      ghost var cleared := Current();
      var content := Split(str, '!');
      var data := Part(content, 1);
      if data == "" {
        return;
      }
      ImportSections(Split(data, '|'));
      assert Grown(cleared.blocks, blocks, old(nextId)) && Grown(cleared.spikes, spikes, old(nextId));
    }

    /** The outer loop of `importLevel`. */
    method ImportSections(sections: seq<string>)
      requires WellFormed(Current(), nextId)
      modifies this`blocks, this`spikes, this`portals, this`nextId
      ensures WellFormed(Current(), nextId)
      ensures View() == AddSections(old(View()), sections)
      ensures LevelGrown(old(Current()), Current(), old(nextId)) && nextId >= old(nextId)
    {
      ghost var start := View();
      ghost var level0, next0 := Current(), nextId;
      var i := 0;
      while i < |sections|
        invariant 0 <= i <= |sections|
        invariant View() == AddSections(start, sections[..i])
        invariant WellFormed(Current(), nextId)
        invariant LevelGrown(level0, Current(), next0) && nextId >= next0
      {
        ghost var level1, next1 := Current(), nextId;
        assert sections[..i + 1] == sections[..i] + [sections[i]];
        AddSectionsSnoc(start, sections[..i], sections[i]);
        ImportSection(sections[i]);
        LevelGrownTrans(level0, level1, Current(), next0, next1);
        i := i + 1;
      }
      assert sections[..i] == sections;
    }

    /** `exportLevel`: the text it shows, `v1!` followed by the non-empty sections joined by
        `|`. */
    method ExportLevel() returns (text: string)
      requires ListsIntegral(View())
      ensures text == Exported(View())
    {
      text := ExportLists(View());
    }
  }

  /** The body of `exportLevel` on the level's lists. */
  method ExportLists(l: Lists) returns (text: string)
    requires ListsIntegral(l)
    ensures text == Exported(l)
  {
    var str: seq<string> := ["v1!"];
    var hasBlocks := |l.blocks| > 0;
    var hasSpikes := |l.spikes| > 0;
    var hasPortals := |l.portals| > 0;
    ghost var str0 := str;
    if hasBlocks {
      str := WriteSection(str, Blocks, l.blocks, false);
    }
    assert str == Step(str0, hasBlocks, false, SectionText(Blocks, l.blocks));
    ghost var str1 := str;
    if hasSpikes {
      str := WriteSection(str, Spikes, l.spikes, hasBlocks);
    }
    assert str == Step(str1, hasSpikes, hasBlocks, SectionText(Spikes, l.spikes));
    ghost var str2 := str;
    if hasPortals {
      str := WriteSection(str, Portals, l.portals, hasBlocks || hasSpikes);
    }
    assert str == Step(str2, hasPortals, hasBlocks || hasSpikes, SectionText(Portals, l.portals));
    ExportPiecesText(l);
    text := Concat(str);
  }

  /** The serializing loop of `exportLevel` for one list. */
  method SerializeList(objs: seq<Obj>) returns (arr: seq<string>)
    requires AllIntegral(objs)
    ensures arr == SerializeAll(objs)
  {
    arr := [];
    var i := 0;
    while i < |objs|
      invariant 0 <= i <= |objs| && |arr| == i
      invariant forall j :: 0 <= j < i ==> arr[j] == SerializeObj(objs[j])
    {
      arr := arr + [SerializeObj(objs[i])];
      i := i + 1;
    }
  }

  /** The pushes of `exportLevel` for one non-empty list: a `|` when a section came before,
      then the tag, a colon and the serialized objects joined by `;`. */
  method WriteSection(str: seq<string>, k: Kind, objs: seq<Obj>, separate: bool) returns (out: seq<string>)
    requires AllIntegral(objs)
    ensures out == str + (if separate then ["|"] else []) + [SectionText(k, objs)]
  {
    var arr := SerializeList(objs);
    out := str;
    if separate {
      out := out + ["|"];
    }
    out := out + [TagOf(k) + ":" + Join(arr, ';')];
  }

  /** `[x]` when `present`, nothing otherwise. */
  function Present(present: bool, x: string): seq<string> {
    if present then [x] else []
  }

  /** One list's pushes in `exportLevel`: nothing when the list is empty, otherwise a `|` when
      `separate`, then the section text `x`. */
  function Step(str: seq<string>, present: bool, separate: bool, x: string): seq<string> {
    if present then str + (if separate then ["|"] else []) + [x] else str
  }

  /** The pieces `exportLevel` pushes, given which lists are non-empty and their section texts:
      `v1!`, then each present section, preceded by `|` when an earlier one is present. */
  function Pieces(b: bool, s: bool, p: bool, xb: string, xs: string, xp: string): seq<string> {
    Step(Step(Step(["v1!"], b, false, xb), s, b, xs), p, b || s, xp)
  }

  /** A step keeps the joined pieces equal to `v1!` and the sections written so far. */
  lemma StepJoin(str: seq<string>, written: seq<string>, present: bool, x: string)
    requires Concat(str) == Version + "!" + Join(written, '|')
    ensures Concat(Step(str, present, written != [], x)) == Version + "!" + Join(written + Present(present, x), '|')
  {
    if present {
      ExportStep(str, Version + "!", written, x);
    } else {
      assert written + [] == written;
    }
  }

  /** Joined with `""`, the pieces are `v1!` and the present sections joined by `|`. */
  lemma PiecesJoin(b: bool, s: bool, p: bool, xb: string, xs: string, xp: string)
    ensures Concat(Pieces(b, s, p, xb, xs, xp))
      == Version + "!" + Join(Present(b, xb) + Present(s, xs) + Present(p, xp), '|')
  {
    ConcatSnoc([], "v1!");
    assert Concat(["v1!"]) == Version + "!" + Join([], '|');
    StepJoin(["v1!"], [], b, xb);
    assert [] + Present(b, xb) == Present(b, xb);
    StepJoin(Step(["v1!"], b, false, xb), Present(b, xb), s, xs);
    StepJoin(Step(Step(["v1!"], b, false, xb), s, b, xs), Present(b, xb) + Present(s, xs), p, xp);
  }

  /** The text of the section `exportLevel` writes for list `k`. */
  function SectionText(k: Kind, objs: seq<Obj>): string
    requires AllIntegral(objs)
  {
    TagOf(k) + ":" + Payload(objs)
  }

  /** Joined, the pieces `exportLevel` pushes for a level are its exported text. */
  lemma ExportPiecesText(l: Lists)
    requires ListsIntegral(l)
    ensures Concat(Pieces(l.blocks != [], l.spikes != [], l.portals != [],
                          SectionText(Blocks, l.blocks), SectionText(Spikes, l.spikes), SectionText(Portals, l.portals)))
      == Exported(l)
  {
    var xb, xs, xp := SectionText(Blocks, l.blocks), SectionText(Spikes, l.spikes), SectionText(Portals, l.portals);
    PiecesJoin(l.blocks != [], l.spikes != [], l.portals != [], xb, xs, xp);
    assert Section(Blocks, l.blocks) == Present(l.blocks != [], xb);
    assert Section(Spikes, l.spikes) == Present(l.spikes != [], xs);
    assert Section(Portals, l.portals) == Present(l.portals != [], xp);
  }

  /** Pushing a section onto the pieces of `exportLevel`, preceded by `|` unless it is the
      first, extends the joined text by one section. */
  lemma ExportStep(str: seq<string>, head: string, written: seq<string>, section: string)
    requires Concat(str) == head + Join(written, '|')
    ensures Concat(str + (if written == [] then [] else ["|"]) + [section])
      == head + Join(written + [section], '|')
  {
    var joined := Join(written, '|');
    JoinSnoc(written, section, '|');
    if written == [] {
      assert str + [] + [section] == str + [section];
      ConcatSnoc(str, section);
      assert joined == [];
      assert head + joined == head;
    } else {
      calc {
        Concat(str + ["|"] + [section]);
      == { ConcatSnoc(str + ["|"], section); }
        Concat(str + ["|"]) + section;
      == { ConcatSnoc(str, "|"); }
        (head + joined + "|") + section;
      == { AppendAssoc(head, joined, "|"); AppendAssoc(head, joined + "|", section); }
        head + (joined + "|" + section);
      }
    }
  }

}
