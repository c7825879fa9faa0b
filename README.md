# Touch jigsaw placement engine, in Dafny

This project models the placement engine of a touch-driven jigsaw page (`script.js`).
Tiles are dragged onto fixed slots ("grids"), and each slot carries an occupied flag.
A tile released close enough to a free slot snaps exactly onto it.
When 22 or 23 slots are flagged, an auto-completer snaps a tile onto the last free slot.
After every snap, a win check tests whether every slot is flagged and every tile sits on the slot with its own number.

The model is one `Board` object (`board.dfy`, module `Puzzle`) with these fixed-size arrays:

- per slot: its corner `slotPos` (never written) and its `occupied` flag;
- per tile: its corner `tilePos`, its `zIndex`, the drag `offset` recorded at touch start, and `snapped`, the slot it currently references (`Option<nat>`, the handler's `currentlyOccupiedGrid`).

A counter `effects` stands for the vibration and confetti calls of a won check.
Slot `i` and tile `i` both carry the identity `i + 1`, so the tile that matches slot `k` is tile `k`.
The event handlers are the board's methods:

- `TouchStart`, `TouchMove` and `TouchEnd` are the three touch handlers.
- `Release` is the snapping half of touch end.
- `NearestGrid` is the slot search.
- `SnapRemainingTiles` (with `FindLastFree`) is the auto-completer.
- `IsSolved` and `CheckCompletion` are the win check.

Each method states the whole new state in terms of the old one.

The pure parts are modelled on values, in their own modules:

- `geometry.dfy`: integer corners, and the squared distance that replaces `Math.sqrt`. A tile is near a slot when `dx*dx + dy*dy < 2500`, which is the `distance < 50` test of script.js. It also holds the one-axis viewport clamp and the random start position.
- `resolver.dfy`: the slot search as a fold (`ScanNearest`), characterised without the fold. The result is the free slot strictly inside the radius with the least distance, ties going to the earliest slot. The result is `None` exactly when no free slot lies inside the radius.
- `occupancy.dfy`: flag counts, per-slot reference counts, and the board invariant `Consistent`: a slot's flag is true iff exactly one tile references it. Its lemmas show that picking a tile up and snapping it keep the invariant. They also show that flagging a slot without a reference, which is what the auto-completer does, breaks it. On a consistent board the number of flagged slots equals the number of snapped tiles.

Behaviour reproduced as the code has it:

- The auto-completer looks only at the last free slot in slot order.
- It moves the tile whose number matches that slot, not the tile that was near it, and it sets no tile's reference. That tile may even be snapped elsewhere at the time.
- When no slot is free, the code reads a field of `undefined`. The model reports that error as `threw`, and `TouchEnd` then skips the win check. This happens when a board of 22 or 23 slots fills up.
- The win check requests the effect on every call that finds the board solved; there is no "already won" guard.
- While dragging, a tile larger than the viewport is placed at `viewport - size`, a negative coordinate, because the far-edge test runs last.
- The auto-completer's trigger compares the flag count with the literal constants 22 and 23 (script.js:156), whatever the number of slots.

`SolveThreeTiles` (with `ThreeSlotNearest`, `ReleaseOnOwnSlot` and `SnapFirstTwo`) is a client of the contracts. On a board of three slots it proves the following:

- releasing each tile next to its own slot snaps it;
- the third release wins and requests the effect once;
- a second win check requests it again.

## Model

| member | source | states |
|---|---|---|
| `Geometry.SquareMonotone` | script.js:34-36 | for non-negative distances, `a < b` iff `a*a < b*b`, so comparing squared distances decides the same as the square-rooted ones |
| `Geometry.Clamp` | script.js:133-136 | a tile that fits ends with `0 <= x <= limit - size`; a position already in bounds is kept unchanged; a tile wider than the viewport ends at `limit - size` |
| `Geometry.RandomPosition` | script.js:6-12 | each coordinate is the fraction times the room left on its axis; for a fraction in [0,1) and a tile that fits, it lies in `[0, screen - tile]` |
| `Occupancy.OccupiedCount` | script.js:154 | the count of flagged slots is at most the number of slots, and equals it iff every slot is flagged |
| `Occupancy.OccupiedCountUpdate` | script.js:150-154 | changing one flag changes the count by exactly the difference of the old and new flag |
| `Occupancy.LastFree` | script.js:81-86 | the chosen slot is free and every later slot is flagged; `None` iff every slot is flagged |
| `Occupancy.RefCountUpdate` | script.js:116-119 | replacing one tile's reference moves one unit of reference count from the old slot to the new one |
| `Occupancy.RefCountPositive` | script.js:107 | a slot's reference count is positive iff some tile references it |
| `Occupancy.FlagIffReferenced` | script.js:116-119 | on a consistent board a slot is flagged iff some tile references it |
| `Occupancy.AtMostOneTilePerSlot` | script.js:145-151 | on a consistent board no two tiles reference the same slot |
| `Occupancy.EmptyBoardConsistent` | script.js:105-107 | a board with no flags and no references is consistent |
| `Occupancy.GrabKeepsConsistent` | script.js:116-120 | clearing a snapped tile's slot flag together with its reference keeps the board consistent |
| `Occupancy.SnapKeepsConsistent` | script.js:145-151 | flagging a free slot together with an unsnapped tile's reference to it keeps the board consistent |
| `Occupancy.FlagWithoutReferenceBreaks` | script.js:100 | flagging a free slot with no tile referencing it makes a consistent board inconsistent |
| `Occupancy.OccupiedCountIsSnappedCount` | script.js:154 | on a consistent board the number of flagged slots equals the number of snapped tiles |
| `Resolver.ScanNearest` | script.js:28-42 | the `forEach` fold over the first `n` slots: a free slot replaces the best so far when strictly nearer than it and strictly inside the radius; the result is one of those `n` slots |
| `Resolver.Nearest` | script.js:23-43 | the fold over all slots; its result is the nearest free slot strictly inside the radius with ties to the earliest, and `None` iff there is no such slot |
| `Resolver.ScanNearestIsNearest` | script.js:28-42 | the scan returns a free slot strictly inside the radius, no farther than any such slot and strictly nearer than every earlier one; it returns nothing iff no free slot lies inside the radius |
| `Resolver.NearestAmongUnique` | script.js:36-38 | at most one slot meets that nearest-slot condition, since the strict comparison makes ties go to the earliest slot |
| `Resolver.NearestCharacterized` | script.js:23-43 | the search returns `Some(k)` iff `k` is the nearest free slot inside the radius, and `None` iff there is none |
| `Resolver.NearestIsFree` | script.js:29-36 | a returned slot is never flagged and lies strictly inside the snap radius |
| `Resolver.LoneCandidateWins` | script.js:28-42 | when exactly one free slot lies inside the radius, that slot is returned |
| `Puzzle.Board.constructor` | script.js:14-21 | tiles start at the given corners, all slots are free, no tile is snapped, and the board is consistent |
| `Puzzle.Board.TouchStart` | script.js:109-121 | records the pointer offset and sets z-index 10; a snapped tile's slot flag turns false and its reference clears; nothing else changes; consistency is kept |
| `Puzzle.Board.TouchMove` | script.js:123-140 | only this tile's corner changes, to the pointer minus the offset clamped per axis; a tile that fits stays inside the viewport |
| `Puzzle.Board.NearestGrid` | script.js:23-43 | returns the nearest free slot strictly inside the radius with ties to the earliest slot, or `None` iff there is no such slot |
| `Puzzle.Board.Release` | script.js:142-152 | with a slot found, the tile moves exactly onto it, the slot is flagged, the reference is recorded and the z-index is 5; with none, nothing changes; an unsnapped tile keeps the board consistent |
| `Puzzle.Board.FindLastFree` | script.js:81-86 | returns the last free slot in slot order, or `None` when every slot is flagged |
| `Puzzle.Board.SnapRemainingTiles` | script.js:80-103 | if any tile lies inside the radius of the last free slot `k`, tile `k` moves exactly onto slot `k` and the slot is flagged, with no reference set (which breaks consistency); otherwise nothing changes; with no free slot it throws |
| `Puzzle.Board.IsSolved` | script.js:45-61 | true iff every slot is flagged and every tile `i` is within 5 of slot `i` on both axes |
| `Puzzle.Board.CheckCompletion` | script.js:45-78 | decides the same as `IsSolved`, and requests the effect once more on every call that finds the board solved |
| `Puzzle.Board.TouchEnd` | script.js:142-162 | snaps as `Release` does; when the new flag count is not 22 or 23 the board is the release state; when it is, the board is the release state with, if a tile lies near the last free slot `k`, tile `k` moved onto slot `k` and slot `k` flagged, or the handler throws when no slot is free; the win check runs after every snap the auto-completer did not abort; consistency is kept iff the auto-completer flagged nothing more |
| `Puzzle.Solved` | script.js:49-63 | the win decision: every slot flagged and every tile `i` within 5 of slot `i` on both axes (`Geometry.Aligned`); a solved board has a full flag count |
| `Puzzle.AnyTileNear` | script.js:88-95 | the auto-completer's trigger: some tile lies strictly inside the snap radius of the slot (`Geometry.WithinSnap`, squared distance below 2500) |
| `Puzzle.ExactPlacementSolves` | script.js:57-63 | every slot flagged and every tile exactly on its own slot is a win |

## Left out

- Page structure and the DOM are not modelled: element queries, `addEventListener` wiring, `style` strings and `getBoundingClientRect` layout are host plumbing. Tile and slot corners are typed fields, and a tile's bounding-box corner is its stored corner.
- Slots start free, because the page's initial `data-occupied` attributes are not part of this model. Tiles start with z-index 0 where the page has the default stacking order.
- The identity of a slot is its index plus one. The class-name parsing at script.js:96 is replaced by that index, and the tile whose identity matches slot `k` is tile `k`.
- `Math.random` and the window size are inputs. The constructor takes the tiles' starting corners, and `RandomPosition` takes the random fractions as parameters. `TouchMove` takes the tile's size and the viewport's size as parameters.
- `navigator.vibrate` and `confetti` are foreign fire-and-forget effects. They are modelled as the `effects` counter.
- Coordinates are integers rather than floating-point pixels. `Math.sqrt` is replaced by comparing squared distances (see `SquareMonotone`).
- Touch-event ordering, multi-touch and lost gestures belong to the host event loop. The handlers can be called in any order. The consistency results of `Release` and `TouchEnd` are stated for a tile that holds no reference, which is the state touch start leaves it in.
- The TypeError of the auto-completer with no free slot is modelled as a returned flag that aborts the rest of the handler. The exception itself is not modelled.
