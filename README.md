# Geometry Dash level editor: level data, codec and input handlers

This project models the level-data core of the browser level editor in
`geometry_dash/scripts/level_editor.js`. The editor keeps three ordered lists of placed
objects: `level.blocks`, `level.spikes` and `level.portals`. Every object is a box given by its
center (`x`, `y`), its `width` and `height`, a `type`, a `rotation` in quarter turns and a
`hitbox` flag. The model covers:

- the two collision tests (`aabbCollision`, `pointToAABBCollision`);
- the grid snap (`snapNumberToGrid` plus the half cell the callers add);
- `rotatePoint` for whole quarter turns;
- the palette table of `placeObj` (`selectorValues` and the branch per object id);
- `deleteObj` (first object under the mouse, blocks before spikes before portals);
- `deleteSelection` and the nudge loop of the keydown handler;
- the palette and rotation keys (`q`/`e`, `Q`/`E`, `0` to `5`);
- the mousedown, mousemove and mouseup handlers (placing, deleting, drag painting, box selection);
- the level text `v1!b:...|s:...|p:...`: `serializeObj`, `exportLevel` and `importLevel`, with
  the round trip between export and import.

Modules, one per file:

| module | file | contents |
|---|---|---|
| `Wrappers` | `wrappers.dfy` | `Option` |
| `Text` | `text.dfy` | `split`, `join`, trimming trailing commas, ASCII `toLowerCase`, with the split/join laws |
| `Decimal` | `decimal.dfy` | integers written and read as decimal text |
| `Geometry` | `geometry.dfy` | points, boxes, the two collision tests, the grid and quarter-turn rotation |
| `Store` | `store.dfy` | objects, the three lists, and the specification functions of delete, select and nudge |
| `Codec` | `codec.dfy` | `serializeObj`, `exportLevel` and `importLevel` as functions on the lists, and the round trip |
| `Placement` | `placement.dfy` | what `placeObj` puts down for each palette id |
| `Editor` | `editor.dfy` | a class `Editor` holding the editor's global state, with one method per handler and per list operation |

The page's global variables become the fields of `Editor.Editor`. JavaScript object identity
matters to the source: `selectedObjects` holds references, and `deleteSelection` finds them with
`indexOf`. The model gives each stored object an id (`Store.Entry`), handed out from
`nextId`, and a selection entry is a `Store.Ref` (list, id). The class invariant `Valid` says:

- ids are unique within each list and all below `nextId`;
- no object is selected twice, and every selected id is below `nextId`;
- the palette index and the rotation are in range;
- nothing is selected while a drag selection is in progress.

Each handler method is proved against a specification function on the lists. Examples:

- `DeleteSelection` ends in `Store.RemoveSelected` of the old lists;
- `Nudge` ends in `Store.Nudged`;
- `MouseUp` selects `Store.Overlapping`;
- `ImportLevel` leaves `Codec.Imported(old lists, text)`;
- `ExportLevel` returns `Codec.Exported(lists)`.

The properties the source promises are proved as lemmas about those functions.

Behaviour the model keeps as the code has it:

- `importLevel` clears `blocks` and `spikes` but not `portals`. Importing an exported level
  therefore restores blocks and spikes exactly, while the portals become the old portals
  followed by the exported ones (`Codec.ImportExport`).
- `placeObj` has no branch for ids 4 and 5. They are not in the palette, so they could only
  ever be placed as a plain block (`Placement.Place`).
- In mousedown, the three tests after the selection branch are written in the model as one
  test on whether the selection is empty (`Editor.Editor.ClickEdit`):
  - with an empty selection, the left button places and the right button deletes;
  - otherwise the selection is dropped.
  This is the same behaviour, since neither placing nor deleting changes the selection.

## Model

| member | source | states |
|---|---|---|
| Geometry.Overlaps | geometry_dash/scripts/level_editor.js:130-142 | `aabbCollision`: the two centered boxes overlap strictly on both axes (four strict comparisons of the half extents) |
| Geometry.PointInBox | geometry_dash/scripts/level_editor.js:144-154 | `pointToAABBCollision`: the point lies strictly inside the centered box on both axes |
| Geometry.OverlapsSymmetric | geometry_dash/scripts/level_editor.js:130-142 | the box collision test does not depend on the order of its arguments |
| Geometry.TouchingBoxesDoNotOverlap | geometry_dash/scripts/level_editor.js:130-142 | boxes that only share an edge do not collide (the comparisons are strict) |
| Geometry.GridNeighboursTouch | geometry_dash/scripts/level_editor.js:130-142 | two neighbouring 32-unit cells do not collide, and moving one of them in by a unit makes them collide |
| Geometry.BoundaryPointOutside | geometry_dash/scripts/level_editor.js:144-154 | a point on a box's edge is not inside the box |
| Geometry.ZeroBoxOverlapsIffPointInside | geometry_dash/scripts/level_editor.js:130-154 | a box of size zero collides with a box exactly when its center is strictly inside that box |
| Geometry.OverlapsIffCommonPoint | geometry_dash/scripts/level_editor.js:130-142 | boxes of positive size collide exactly when some point lies strictly inside both |
| Geometry.SnapNumberToGrid | geometry_dash/scripts/level_editor.js:251-253 | the snapped value is the largest multiple of the grid size not above the number: `r <= num < r + gridSize`, and `r / gridSize` is whole |
| Geometry.CellCenter | geometry_dash/scripts/level_editor.js:780-781 | snapping and adding half a cell gives a center within half a cell of the coordinate, whose cell starts on a grid line |
| Geometry.CellCenterIdempotent | geometry_dash/scripts/level_editor.js:780-781 | snapping a cell center again gives the same center |
| Geometry.SameCellCenter | geometry_dash/scripts/level_editor.js:926-929 | two coordinates give the same cell center exactly when they lie in the same grid cell |
| Geometry.NearCenterSameCell | geometry_dash/scripts/level_editor.js:780-781 | moving a cell center by less than half a cell stays in that cell |
| Geometry.RotateQuarter | geometry_dash/scripts/level_editor.js:399-407 | turning a point about a center keeps its distance to the center |
| Geometry.RotateCompose | geometry_dash/scripts/level_editor.js:399-407 | turning by `a` and then by `b` quarter turns is turning by `a + b` |
| Geometry.RotateFullTurn | geometry_dash/scripts/level_editor.js:399-407 | four quarter turns change nothing, and the center stays fixed |
| Geometry.RotateVerticalOffset | geometry_dash/scripts/level_editor.js:399-407 | a point `d` below the center goes to the left, above and right of it after one, two and three quarter turns |
| Placement.Place | geometry_dash/scripts/level_editor.js:776-853 | `placeObj`: nothing for an id outside 1 to 17; otherwise one object in the list the id names, at the center of the mouse's cell moved by the id's offset turned `rotation` quarter turns, with the id's height, type and hitbox |
| Placement.PlaceIffInRange | geometry_dash/scripts/level_editor.js:776-778 | `placeObj` puts an object down exactly for object ids 1 to 17 |
| Placement.PaletteIds | geometry_dash/scripts/level_editor.js:173-191 | the palette has 15 distinct ids, namely every id from 1 to 17 except 4 and 5 |
| Placement.OffsetInsideCell | geometry_dash/scripts/level_editor.js:797-836 | every per-id offset from the cell center is less than half a cell |
| Placement.PlacedInClickedCell | geometry_dash/scripts/level_editor.js:776-845 | for every id and every rotation, the placed object's center lies in the grid cell under the mouse |
| Placement.PlacedShape | geometry_dash/scripts/level_editor.js:776-853 | the placed object is one cell wide, has the current rotation, goes to spikes for ids 2, 3 and 6 only and to portals for 16 and 17 only, lacks a hitbox for 11 and 12 only, and sits at the cell center unless the id is 3, 6 or 15 |
| Placement.ShortSpikeFlush | geometry_dash/scripts/level_editor.js:797-804 | the short spike rests on the bottom edge of its cell when upright and hangs from the top edge when turned twice |
| Placement.PlatformFlush | geometry_dash/scripts/level_editor.js:830-836 | the unrotated platform sits flush with the bottom of the cell when Alt is held and with the top otherwise |
| Store.Lists.Extend | geometry_dash/scripts/level_editor.js:326 | pushing onto one list appends the objects to it and leaves the other two lists unchanged |
| Store.ExtendExtend | geometry_dash/scripts/level_editor.js:322-335 | pushing `a` and then `b` onto a list is pushing `a + b` |
| Store.WellFormedAppend | geometry_dash/scripts/level_editor.js:847-853 | appending a new object with the next id keeps the ids unique and below the next id |
| Store.IndexOfId | geometry_dash/scripts/level_editor.js:711 | `indexOf` gives the first position holding the object, or -1 when the list does not hold it |
| Store.RemoveAt | geometry_dash/scripts/level_editor.js:713 | `splice(i, 1)` keeps the elements before `i` and shifts the ones after it down by one |
| Store.RemoveAtMultiset | geometry_dash/scripts/level_editor.js:859 | `splice(i, 1)` removes exactly the one element at `i` |
| Store.FirstHit | geometry_dash/scripts/level_editor.js:857-862 | the search gives the first object whose box strictly contains the point, or none when no object does |
| Store.FirstHitSome | geometry_dash/scripts/level_editor.js:857-876 | an object is found in a list exactly when some object of the list contains the point |
| Store.DeleteAt | geometry_dash/scripts/level_editor.js:856-877 | `deleteObj`: removes the first object of the blocks that strictly contains the point; failing that the first such spike; failing that the first such portal |
| Store.DeleteAtEffect | geometry_dash/scripts/level_editor.js:856-877 | `deleteObj` changes nothing when no object contains the point, and otherwise removes exactly one object. Blocks are searched first, then spikes, then portals: the lists before the first one with a hit are unchanged, and so are the lists after it |
| Store.DeleteAtFirstHit | geometry_dash/scripts/level_editor.js:857-876 | the object removed is the first hit (`FirstHit`) of the first list that has one: `RemoveAt` of that index in that list |
| Store.DeleteAtWellFormed | geometry_dash/scripts/level_editor.js:856-877 | deleting keeps the ids well formed |
| Store.HitsMembers | geometry_dash/scripts/level_editor.js:951-955 | one list's selection loop collects exactly the objects of that list whose boxes collide with the selection box |
| Store.HitsNoDup | geometry_dash/scripts/level_editor.js:951-955 | one list's selection loop collects each object at most once |
| Store.SelectionBox | geometry_dash/scripts/level_editor.js:944-949 | the selection box: centered at the midpoint of the start and end points, with width and height the absolute differences of their coordinates |
| Store.Overlapping | geometry_dash/scripts/level_editor.js:951-967 | the three mouseup loops: references to the colliding blocks, then spikes, then portals, each list in its order |
| Store.OverlappingExactly | geometry_dash/scripts/level_editor.js:944-967 | a reference is selected exactly when its object collides with the selection box |
| Store.OverlappingNoDup | geometry_dash/scripts/level_editor.js:951-967 | the selection holds no object twice |
| Store.OverlappingBelow | geometry_dash/scripts/level_editor.js:951-967 | the selection names only stored objects, so every selected id is below the next id |
| Store.RemoveSelected | geometry_dash/scripts/level_editor.js:707-719 | `deleteSelection`: each list loses exactly the objects the selection names in it, keeping the order of the rest |
| Store.KeepMembers | geometry_dash/scripts/level_editor.js:707-716 | after removing a set of objects, a list holds exactly its objects outside that set |
| Store.RemoveFirstIsKeep | geometry_dash/scripts/level_editor.js:711-715 | removing the first occurrence of an object from a list of distinct objects removes all its occurrences |
| Store.RemoveSelectedSnoc | geometry_dash/scripts/level_editor.js:708-716 | one more iteration of `deleteSelection`'s loop removes the next selected object from its list, or nothing when it is already gone |
| Store.RemoveSelectedExactly | geometry_dash/scripts/level_editor.js:707-718 | after `deleteSelection`, an object remains in a list exactly when it was there and was not selected |
| Store.RemoveSelectedWellFormed | geometry_dash/scripts/level_editor.js:707-718 | deleting the selection keeps the ids well formed |
| Store.Nudged | geometry_dash/scripts/level_editor.js:763-767 | the nudge loop: every selected object moves by the offset; nothing else changes |
| Store.NudgedExactly | geometry_dash/scripts/level_editor.js:763-767 | a nudge moves every selected object by the offset, leaves every other object as it was, and keeps the lengths, order and ids of the lists |
| Store.NudgedZero | geometry_dash/scripts/level_editor.js:763 | a zero offset changes nothing, so the `offset !== 0` guard only saves work |
| Store.NudgedSnoc | geometry_dash/scripts/level_editor.js:764-767 | one more iteration of the nudge loop moves the next selected object, if it is still in its list |
| Store.NudgedWellFormed | geometry_dash/scripts/level_editor.js:764-767 | a nudge keeps the ids well formed |
| Store.RemoveStaleSelection | geometry_dash/scripts/level_editor.js:707-719 | a selection made before an import removes no block or spike afterwards, because every selected id is below the imported ids. A portal kept by the import is still removed exactly when selected, since `portals` is the same array |
| Store.NudgeStaleSelection | geometry_dash/scripts/level_editor.js:763-767 | a selection made before an import nudges no block or spike afterwards, and moves each portal kept by the import exactly when selected |
| Text.SplitPiecesAvoid | geometry_dash/scripts/level_editor.js:308-326 | no piece of a split contains the separator |
| Text.SplitJoin | geometry_dash/scripts/level_editor.js:313-323 | splitting pieces joined by a separator that none of them contains gives the pieces back |
| Text.JoinSplit | geometry_dash/scripts/level_editor.js:313 | joining the pieces of a split with the same separator gives the text back |
| Text.TrimEnd | geometry_dash/scripts/level_editor.js:350 | `.replace(/,+$/g, "")` keeps a prefix of the text that does not end in a comma, and removes only commas |
| Text.SplitTrimJoin | geometry_dash/scripts/level_editor.js:343-351 | splitting the trimmed joined fields gives the fields without their empty tail |
| Text.ToLowerProperties | geometry_dash/scripts/level_editor.js:722 | lower-casing leaves no upper-case letter, changes no other character, and is idempotent |
| Decimal.ParseInt | geometry_dash/scripts/level_editor.js:325-334 | a field reads as a number exactly when it is digits with an optional leading minus |
| Decimal.ParseShowInt | geometry_dash/scripts/level_editor.js:325-334 | reading back a printed integer gives the integer |
| Decimal.ShowIntAvoids | geometry_dash/scripts/level_editor.js:343-351 | a printed integer contains no separator character |
| Codec.ParseShowNumber | geometry_dash/scripts/level_editor.js:325-334 | a printed whole number is non-empty and reads back as itself |
| Codec.SerializeObj | geometry_dash/scripts/level_editor.js:343-351 | `serializeObj`: the seven comma-joined fields with defaults blanked and trailing commas trimmed; the text is never empty |
| Codec.SplitSerialized | geometry_dash/scripts/level_editor.js:343-351 | splitting a serialized object at commas gives its seven fields without the trailing default fields |
| Codec.SerializeAvoids | geometry_dash/scripts/level_editor.js:343-351 | a serialized object contains none of the separators `;`, `:`, `\|` and `!` |
| Codec.ParseObj | geometry_dash/scripts/level_editor.js:325-334 | one object of `importLevel`: the comma-separated fields by position, with the defaults for missing, empty and non-numeric fields and `x`/`y` 0 when not numeric |
| Codec.ParseSerialize | geometry_dash/scripts/level_editor.js:325-334 | reading a serialized object gives back the same object, default fields included |
| Codec.DecodeOne | geometry_dash/scripts/level_editor.js:323-324 | an empty object text is skipped, and any other is read as one object |
| Codec.DecodeObjectsSnoc | geometry_dash/scripts/level_editor.js:323-335 | the objects loop reads each object text on its own, in order |
| Codec.DecodeSerialized | geometry_dash/scripts/level_editor.js:322-335 | reading the serialized objects of a list gives the list back |
| Codec.PayloadProperties | geometry_dash/scripts/level_editor.js:357-362 | the payload of a non-empty list is non-empty, contains no separator, and decodes to the list |
| Codec.ReadSection | geometry_dash/scripts/level_editor.js:313-335 | one section of `importLevel`: nothing for an empty section, an empty payload or an unknown tag; otherwise the tagged list and the objects the payload decodes to |
| Codec.AddSection | geometry_dash/scripts/level_editor.js:313-335 | one section of `importLevel` pushes what `ReadSection` reads onto its list |
| Codec.AddSectionText | geometry_dash/scripts/level_editor.js:316-335 | a section `tag:payload` with a non-empty payload pushes the payload's objects onto the list the tag names |
| Codec.AddSectionOf | geometry_dash/scripts/level_editor.js:316-335 | importing the section written for a list pushes exactly that list's objects |
| Codec.SectionsAvoid | geometry_dash/scripts/level_editor.js:353-386 | no exported section contains `!` or `\|` |
| Codec.SectionsShape | geometry_dash/scripts/level_editor.js:353-386 | every exported section is non-empty, and there are none exactly when all three lists are empty |
| Codec.ExportedData | geometry_dash/scripts/level_editor.js:307-309 | in an exported text, the part after the first `!` is the `\|`-joined sections |
| Codec.AddAllSections | geometry_dash/scripts/level_editor.js:312-336 | importing the exported sections appends each list's objects to the list |
| Codec.ReadSections | geometry_dash/scripts/level_editor.js:312-336 | splitting the joined sections at `\|` and importing them appends each list's objects |
| Codec.Imported | geometry_dash/scripts/level_editor.js:303-341 | `importLevel(str)`: blocks and spikes emptied, portals kept, then the sections between the first and the second `!` added in order (the rest of the text is ignored) |
| Codec.Exported | geometry_dash/scripts/level_editor.js:353-389 | `exportLevel`: `v1!` followed by the non-empty sections `b:`, `s:`, `p:` in that order, separated by `\|` |
| Codec.ImportExport | geometry_dash/scripts/level_editor.js:303-389 | importing an exported level restores blocks and spikes exactly, while the portals become the old portals followed by the exported ones |
| Codec.ExportEmpty | geometry_dash/scripts/level_editor.js:353-389 | an empty level exports as `v1!` |
| Codec.AppendedAssoc | geometry_dash/scripts/level_editor.js:320-326 | appending to the three lists is associative |
| Codec.AddSectionPrefix | geometry_dash/scripts/level_editor.js:313-335 | a section only appends to the lists, whatever they already hold |
| Codec.AddSectionsPrefix | geometry_dash/scripts/level_editor.js:312-336 | the sections of an import only append to the lists, whatever they already hold |
| Codec.ImportReplacesBlocksAndSpikes | geometry_dash/scripts/level_editor.js:303-341 | after an import, blocks and spikes depend only on the text, and the old portals are kept as a prefix |
| Editor.TypeAfterKey | geometry_dash/scripts/level_editor.js:724-732 | `q` and `e` step the palette index back and forward with wrap-around; every other key keeps it |
| Editor.RotationAfterKey | geometry_dash/scripts/level_editor.js:734-740 | `Q` and `E` turn a quarter back and forward with wrap-around; `1`, `0`, `5` reset the rotation, `2`, `3`, `4` set one, two and three quarter turns; every other key keeps it |
| Editor.InEditArea | geometry_dash/scripts/level_editor.js:903 | the edit area of the mouse handlers: `x >= -GRID_SIZE` and `y <= floorPosition` (0) |
| Editor.CycleStep | geometry_dash/scripts/level_editor.js:725-735 | `e`/`E` step to the next index and wrap from the last to the first; `q`/`Q` do the reverse |
| Editor.CycleSteps | geometry_dash/scripts/level_editor.js:725-735 | the backward and forward steps stay in range and undo each other |
| Editor.FourTurnsBack | geometry_dash/scripts/level_editor.js:735 | pressing `E` four times returns to the starting rotation |
| Editor.KeysKeepRanges | geometry_dash/scripts/level_editor.js:724-740 | after any key, the palette index stays within the palette and the rotation stays within 0 to 3 |
| Editor.NudgeSteps | geometry_dash/scripts/level_editor.js:748-763 | the step is 16 with Shift, else 1 with Alt, else 32. An arrow key moves along exactly one axis by the step, and every other key moves nothing |
| Editor.WithPlacedEffect | geometry_dash/scripts/level_editor.js:847-853 | placing appends exactly one object to exactly one list, and keeps the ids well formed |
| Editor.PiecesJoin | geometry_dash/scripts/level_editor.js:353-386 | the pieces `exportLevel` pushes join to `v1!` followed by the non-empty sections, separated by `\|` |
| Editor.ExportPiecesText | geometry_dash/scripts/level_editor.js:353-389 | the pieces `exportLevel` pushes for a level join to the exported text of that level |
| Editor.ExportLists | geometry_dash/scripts/level_editor.js:353-389 | `exportLevel`'s pushes and joins produce exactly the exported text |
| Editor.SerializeList | geometry_dash/scripts/level_editor.js:358-361 | the loop serializes every object of the list, in order |
| Editor.WriteSection | geometry_dash/scripts/level_editor.js:365-373 | one list's part of the export pushes a `\|` when an earlier list was written, then its section |
| Editor.Editor.constructor | geometry_dash/scripts/level_editor.js:170-412 | the state on page load of the globals at lines 170-171, 257, 276-287 and 409-412, and of `lastGridX`/`lastGridY` at 879-880: empty lists, nothing selected, palette index and rotation 0, no button or key held, invariant established |
| Editor.Editor.PlaceId | geometry_dash/scripts/level_editor.js:778-853 | the lists gain exactly the object `Place` gives for the id, and the next id is used |
| Editor.Editor.PlaceObj | geometry_dash/scripts/level_editor.js:776-854 | `placeObj` appends what the current palette entry places at the mouse |
| Editor.Editor.DeleteObj | geometry_dash/scripts/level_editor.js:856-877 | `deleteObj` leaves the lists of `DeleteAt` at the mouse |
| Editor.Editor.RemoveRef | geometry_dash/scripts/level_editor.js:709-715 | removes the referenced object from its list if it is still there |
| Editor.Editor.DeleteSelection | geometry_dash/scripts/level_editor.js:707-719 | the lists end as `RemoveSelected` of the old lists and selection, the selection is emptied, and the ids stay well formed |
| Editor.Editor.NudgeRef | geometry_dash/scripts/level_editor.js:765-766 | moves the referenced object by the offset if it is still in its list |
| Editor.Editor.Nudge | geometry_dash/scripts/level_editor.js:764-767 | the lists end as `Nudged` by the offset, with the ids still well formed |
| Editor.Editor.ChooseByKey | geometry_dash/scripts/level_editor.js:724-740 | the palette index and rotation follow the key as the table of keys says, and stay in range |
| Editor.Editor.KeyOffset | geometry_dash/scripts/level_editor.js:748-761 | the offset is the arrow key's direction times the step chosen by Shift and Alt |
| Editor.Editor.SelectionKey | geometry_dash/scripts/level_editor.js:742-769 | with a selection, Backspace or Delete removes the selected objects and empties the selection, and any other key nudges them by the key's offset |
| Editor.Editor.KeyDown | geometry_dash/scripts/level_editor.js:721-770 | records the lower-cased key, updates palette index and rotation, and deletes or nudges the selection. With nothing selected, the lists are unchanged. The invariant is kept |
| Editor.Editor.KeyUp | geometry_dash/scripts/level_editor.js:772-774 | the lower-cased key is no longer held |
| Editor.Editor.PlaceHere | geometry_dash/scripts/level_editor.js:904 | places at the mouse and keeps the ids well formed |
| Editor.Editor.DeleteHere | geometry_dash/scripts/level_editor.js:909 | deletes at the mouse and keeps the ids well formed |
| Editor.Editor.EditAtMouse | geometry_dash/scripts/level_editor.js:903-909 | places when the left button is down inside the edit area and records the cell. Then it deletes at the mouse when the right button is down |
| Editor.Editor.ClickEdit | geometry_dash/scripts/level_editor.js:903-914 | with nothing selected it places and deletes as `EditAtMouse`; otherwise it drops the selection and ends selecting |
| Editor.Editor.BeginSelection | geometry_dash/scripts/level_editor.js:893-901 | starts a drag selection at the mouse, with nothing selected |
| Editor.Editor.Press | geometry_dash/scripts/level_editor.js:883-891 | records the mouse point, and the right button for button 2 or the left button otherwise |
| Editor.Editor.Click | geometry_dash/scripts/level_editor.js:893-914 | with the left button and `f` held, starts a selection and leaves the lists alone; otherwise edits as `ClickEdit` |
| Editor.Editor.MouseDown | geometry_dash/scripts/level_editor.js:882-915 | the whole mousedown handler: button state, then either a new drag selection or the place, delete and deselect steps, keeping the invariant |
| Editor.Editor.MoveTo | geometry_dash/scripts/level_editor.js:918-920 | records the mouse point |
| Editor.Editor.DragEdit | geometry_dash/scripts/level_editor.js:925-939 | when a button is down, nothing is selected, the mouse is in the edit area and has entered a new cell, it places (left) or deletes (right) and records the cell. Otherwise nothing changes |
| Editor.Editor.MouseMove | geometry_dash/scripts/level_editor.js:917-940 | while selecting it only moves the selection end; otherwise it drag-paints as `DragEdit` |
| Editor.Editor.CollectHits | geometry_dash/scripts/level_editor.js:951-955 | one list's loop appends that list's colliding objects to the selection, in list order |
| Editor.Editor.SelectOverlapping | geometry_dash/scripts/level_editor.js:951-967 | the selection becomes exactly `Overlapping` the box, with no object twice |
| Editor.Editor.MouseUp | geometry_dash/scripts/level_editor.js:942-973 | when selecting, the selection becomes the objects colliding with the box between start and end. Both buttons and selecting are then reset |
| Editor.Editor.PushParsed | geometry_dash/scripts/level_editor.js:325-334 | pushes the object read from one text onto the list |
| Editor.Editor.PushText | geometry_dash/scripts/level_editor.js:323-334 | pushes nothing for an empty object text and the object it reads otherwise |
| Editor.Editor.PushObjects | geometry_dash/scripts/level_editor.js:322-335 | the objects loop pushes `DecodeObjects` of the texts onto the list |
| Editor.Editor.ImportSection | geometry_dash/scripts/level_editor.js:313-335 | one section changes the lists as `AddSection` says |
| Editor.Editor.ImportSections | geometry_dash/scripts/level_editor.js:312-336 | the sections loop changes the lists as `AddSections` says |
| Editor.Editor.ImportLevel | geometry_dash/scripts/level_editor.js:303-341 | `importLevel` leaves the lists `Imported` from the old lists and the text and keeps the invariant. The old portal entries stay as a prefix, `nextId` only grows, and every block and spike has an id at least the old `nextId` |
| Editor.Editor.ExportLevel | geometry_dash/scripts/level_editor.js:353-389 | `exportLevel` produces the exported text of the current lists |

## Left out

- Drawing, the page's DOM elements, the animation loop and the camera are left out. The
  screen-to-world transform of the mouse handlers is left out too: the handlers take the mouse
  position as a world point.
- `showDevMessage`, `console.error` and the `try`/`catch` of `importLevel` are left out. The model
  never throws, and `ExportLevel` returns the text instead of showing it.
- The import button's `prompt` and `trim` are left out: `ImportLevel` receives the text.
  `importLevel`'s default argument `"v1!"` gives the same result as the empty text.
- The `input` handler of the object selector is left out: it parses a DOM value.
- `e.preventDefault()` for Alt is left out: it has no effect on the level.
- Floating point is not modelled: coordinates are exact reals, and cosine and sine of quarter
  turns are exact.
  - The source multiplies by a floating-point `π/2`, so rotated objects can be off by round-off.
  - The ratio `28 / 61` and the divisor `1.22` are kept as exact real fractions.
- Codec.ParseNumber: only reads numbers written as digits with an optional leading minus, which
  covers everything the export writes. Decimals, exponents, whitespace and hexadecimal text
  count as non-numeric. A non-numeric `x` or `y` reads as 0, where `parseFloat` gives `NaN` or
  the longest numeric prefix.
- Codec.SerializeObj: defined only for objects whose `x`, `y`, `width` and `height` are whole
  numbers (`Integral`), because the model prints numbers as decimal integers. `serializeObj`
  prints any number. Serialization itself is thus left unmodelled for fractional values, and the
  round trip is stated only where serialization is defined.
- Codec.Exported: requires every object of the level to be whole-numbered (`ListsIntegral`), for
  the same reason.
- Editor.Editor.ExportLevel: requires `ListsIntegral` of the lists. A level holding a short
  spike (id 3), pit spikes (id 6) or a block platform (id 15) cannot be exported in the model,
  because `Placement.Place` gives those objects the fractional heights `32 * 28 / 61` and
  `32 / 1.22` (and, once rotated, fractional coordinates). `exportLevel` prints such levels.
- Editor.ExportLists: the same whole-number requirement, with the same consequence for ids 3, 6
  and 15.
- Editor.SerializeList: the same whole-number requirement. It comes from each call of
  `SerializeObj`, not from the loop itself.
- Editor.WriteSection: the same whole-number requirement, with the same consequence for ids 3, 6
  and 15.
- Decimal.ShowInt: writes every digit. JavaScript writes integers of magnitude `1e21` and above
  in exponent form, so the model's export text differs from the source's for such coordinates.
- Codec.ParseSerialize: the round trip is proved only for whole-numbered objects, the only ones
  the model can serialize.
- Codec.ImportExport: the same restriction to whole numbers applies.
- Text.ToLower: only lower-cases ASCII letters; `toLowerCase` on other scripts is not modelled.
- Placement.Place: objects that `placeObj` creates without a `hitbox` field get `hitbox = true`.
  This is what `serializeObj` does with them (`?? true`); nothing else in `level_editor.js`
  reads `hitbox`.
- The editor identifies objects by id instead of by reference. After an import, the old
  `blocks` and `spikes` arrays are replaced, and selected references into them still match in the
  discarded arrays, so deleting or nudging them no longer changes the level, while references
  into the shared `portals` array still act on the level. The model's ids give the same effect
  on the level: `Editor.Editor.ImportLevel` keeps the old portal entries as a prefix and gives
  every imported block and spike an id at least the old `nextId`, which bounds every selected
  id (`Valid`). `Store.RemoveStaleSelection` and `Store.NudgeStaleSelection` prove the
  consequence for delete and nudge.
- `floorPosition` is the constant 0, as nothing in `level_editor.js` changes it.
- Geometry.SnapNumberToGrid: requires a positive grid size. Every caller passes `GRID_SIZE`.
- `geometry_dash/scripts/custom_level_import.js` and the game itself are not part of this model.
