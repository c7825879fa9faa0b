/**
  The placement engine as the page runs it: one board object holding, per
  slot, its corner and its occupied flag, and per tile, its corner, its
  z-index, the drag offset recorded at touch start and the slot it is
  snapped into. Slot `i` and tile `i` both carry the identity `i + 1`.

  The touch handlers, the auto-completer and the win check are the methods
  of the board; each states the whole new state in terms of the old one.
*/
module Puzzle {
  import opened Wrappers
  import opened Geometry
  import Occupancy
  import Resolver

  /** z-index of a tile being dragged. */
  const DraggingZ: int := 10
  /** z-index of a tile just snapped into a slot. */
  const SnappedZ: int := 5

  /**
    The win condition: every slot is flagged and every tile lies within the
    placement tolerance of the slot with its own identity.
  */
  predicate Solved(occ: seq<bool>, tiles: seq<Point>, slots: seq<Point>)
    ensures Solved(occ, tiles, slots) ==> Occupancy.OccupiedCount(occ) == |slots|
  {
    |occ| == |slots| && |tiles| == |slots| &&
    (forall i :: 0 <= i < |occ| ==> occ[i]) &&
    (forall i :: 0 <= i < |slots| ==> Aligned(tiles[i], slots[i]))
  }

  /** Some tile lies strictly inside the snap radius of `slot`. */
  predicate AnyTileNear(tiles: seq<Point>, slot: Point) {
    exists j :: 0 <= j < |tiles| && WithinSnap(tiles[j], slot)
  }

  class Board {
    /** Slot corners; slots never move. */
    const slotPos: array<Point>
    /** Slot occupied flags. */
    const occupied: array<bool>
    /** Tile corners. */
    const tilePos: array<Point>
    /** Tile z-indices. */
    const zIndex: array<int>
    /** Pointer offset from the tile corner, recorded at touch start. */
    const offset: array<Point>
    /** The slot each tile is snapped into, if any. */
    const snapped: array<Option<nat>>
    /** Number of completion effects (vibration and confetti) requested so far. */
    var effects: nat

    /** Number of slots, which is also the number of tiles. */
    function Size(): nat {
      slotPos.Length
    }

    ghost predicate Valid()
      reads snapped
    {
      occupied.Length == slotPos.Length && tilePos.Length == slotPos.Length &&
      zIndex.Length == slotPos.Length && offset.Length == slotPos.Length &&
      snapped.Length == slotPos.Length &&
      slotPos != tilePos && slotPos != offset && tilePos != offset &&
      Occupancy.RefsInRange(snapped[..], occupied.Length)
    }

    /** The flags and the tile references agree (see `Occupancy.Consistent`). */
    ghost predicate Consistent()
      reads occupied, snapped
    {
      Occupancy.Consistent(occupied[..], snapped[..])
    }

    /**
      A board with the given slot corners and tile starting corners (the
      random placement is made by the caller); every slot is free and no tile
      is snapped.
    */
    constructor (slots: seq<Point>, starts: seq<Point>)
      requires |starts| == |slots|
      ensures Valid() && Consistent()
      ensures fresh(slotPos) && fresh(occupied) && fresh(tilePos) && fresh(zIndex) && fresh(offset) && fresh(snapped)
      ensures slotPos[..] == slots && tilePos[..] == starts
      ensures forall i :: 0 <= i < |slots| ==> !occupied[i] && snapped[i].None? && zIndex[i] == 0
      ensures effects == 0
    {
      var n := |slots|;
      slotPos := new Point[n](i requires 0 <= i < n => slots[i]);
      occupied := new bool[n](_ => false);
      tilePos := new Point[n](i requires 0 <= i < n => starts[i]);
      zIndex := new int[n](_ => 0);
      offset := new Point[n](_ => Point(0, 0));
      snapped := new Option<nat>[n](_ => None);
      effects := 0;
      new;
      Occupancy.EmptyBoardConsistent(occupied[..], snapped[..]);
    }

    /**
      Touch start on tile `t` at `touch`: records the offset of the pointer
      from the tile corner and raises the tile to z-index 10; a snapped tile
      also frees its slot and forgets it.
    */
    method TouchStart(t: nat, touch: Point)
      requires Valid() && t < Size()
      modifies offset, zIndex, occupied, snapped
      ensures Valid()
      ensures offset[..] == old(offset[..])[t := Point(touch.x - tilePos[t].x, touch.y - tilePos[t].y)]
      ensures zIndex[..] == old(zIndex[..])[t := DraggingZ]
      ensures snapped[..] == old(snapped[..])[t := None]
      ensures old(snapped[t]).Some? ==> occupied[..] == old(occupied[..])[old(snapped[t]).value := false]
      ensures old(snapped[t]).None? ==> occupied[..] == old(occupied[..])
      ensures old(Consistent()) ==> Consistent()
    {
      offset[t] := Point(touch.x - tilePos[t].x, touch.y - tilePos[t].y);
      zIndex[t] := DraggingZ;
      var current := snapped[t];
      if current.Some? {
        ghost var occ, refs := occupied[..], snapped[..];
        if Occupancy.Consistent(occ, refs) {
          Occupancy.GrabKeepsConsistent(occ, refs, t);
        }
        occupied[current.value] := false;
        zIndex[t] := DraggingZ;
        snapped[t] := None;
      }
    }

    /**
      Touch move of tile `t` to `touch`: the tile corner follows the pointer
      minus the recorded offset, clamped on each axis so that a tile that
      fits stays inside the viewport. Nothing else changes.
    */
    method TouchMove(t: nat, touch: Point, tileWidth: int, tileHeight: int, screenWidth: int, screenHeight: int)
      requires Valid() && t < Size()
      modifies tilePos
      ensures Valid()
      ensures tilePos[..] == old(tilePos[..])[t := Point(Clamp(touch.x - offset[t].x, tileWidth, screenWidth),
                                                        Clamp(touch.y - offset[t].y, tileHeight, screenHeight))]
      ensures tileWidth <= screenWidth ==> 0 <= tilePos[t].x <= screenWidth - tileWidth
      ensures tileHeight <= screenHeight ==> 0 <= tilePos[t].y <= screenHeight - tileHeight
    {
      var x := touch.x - offset[t].x;
      var y := touch.y - offset[t].y;
      if x < 0 { x := 0; }
      if y < 0 { y := 0; }
      if x + tileWidth > screenWidth { x := screenWidth - tileWidth; }
      if y + tileHeight > screenHeight { y := screenHeight - tileHeight; }
      tilePos[t] := Point(x, y);
    }

    /**
      The resolver as the page runs it: a scan over the slots keeping the
      nearest free one strictly inside the snap radius of tile `t`.
    */
    method NearestGrid(t: nat) returns (r: Option<nat>)
      requires Valid() && t < Size()
      ensures r == Resolver.Nearest(tilePos[t], slotPos[..], occupied[..])
      ensures r.Some? ==> Resolver.NearestAmong(tilePos[t], slotPos[..], occupied[..], r.value, Size())
      ensures r.None? <==> forall j :: 0 <= j < Size() ==> !Resolver.Candidate(tilePos[t], slotPos[..], occupied[..], j)
    {
      var p := tilePos[t];
      r := None;
      var nearestDistance := 0;  // meaningful only once `r` holds a slot; `None` plays the initial infinity
      for i := 0 to slotPos.Length
        invariant r == Resolver.ScanNearest(p, slotPos[..], occupied[..], i)
        invariant r.Some? ==> r.value < slotPos.Length && nearestDistance == SquaredDistance(p, slotPos[r.value])
      {
        if !occupied[i] {
          var distance := SquaredDistance(p, slotPos[i]);
          if (r.None? || distance < nearestDistance) && distance < SnapThresholdSquared {
            nearestDistance := distance;
            r := Some(i);
          }
        }
      }
      Resolver.ScanNearestIsNearest(p, slotPos[..], occupied[..], slotPos.Length);
    }

    /**
      The snapping half of touch end on tile `t`: when the resolver finds a
      slot, the tile moves exactly onto it, the slot is flagged, the tile
      references it and drops to z-index 5; otherwise nothing changes.
    */
    method Release(t: nat) returns (target: Option<nat>)
      requires Valid() && t < Size()
      modifies tilePos, occupied, snapped, zIndex
      ensures Valid()
      ensures target == Resolver.Nearest(old(tilePos[t]), slotPos[..], old(occupied[..]))
      ensures target.None? ==>
        tilePos[..] == old(tilePos[..]) && occupied[..] == old(occupied[..]) &&
        snapped[..] == old(snapped[..]) && zIndex[..] == old(zIndex[..])
      ensures target.Some? ==>
        target.value < Size() && !old(occupied[target.value]) &&
        tilePos[..] == old(tilePos[..])[t := slotPos[target.value]] &&
        occupied[..] == old(occupied[..])[target.value := true] &&
        snapped[..] == old(snapped[..])[t := target] &&
        zIndex[..] == old(zIndex[..])[t := SnappedZ]
      ensures old(Consistent()) && old(snapped[t]).None? ==> Consistent()
    {
      target := NearestGrid(t);
      if target.Some? {
        var k := target.value;
        ghost var occ, refs := occupied[..], snapped[..];
        if Occupancy.Consistent(occ, refs) && refs[t].None? {
          Occupancy.SnapKeepsConsistent(occ, refs, t, k);
        }
        tilePos[t] := slotPos[k];
        occupied[k] := true;
        snapped[t] := Some(k);
        zIndex[t] := SnappedZ;
      }
    }

    /** The auto-completer's walk over the slots, remembering the last free one. */
    method FindLastFree() returns (r: Option<nat>)
      requires Valid()
      ensures r == Occupancy.LastFree(occupied[..])
    {
      r := None;
      for i := 0 to occupied.Length
        invariant r == Occupancy.LastFree(occupied[..i])
      {
        assert occupied[..i + 1][..i] == occupied[..i];
        if !occupied[i] {
          r := Some(i);
        }
      }
      assert occupied[..occupied.Length] == occupied[..];
    }

    /**
      The auto-completer: takes the last free slot `k`; if any tile lies
      strictly inside its snap radius, tile `k` (the one whose identity
      matches the slot, whichever tile was near) moves exactly onto it and
      the slot is flagged, but no tile's reference is set. With no free slot
      the page script reads a field of `undefined`; that error (`threw`)
      escapes as soon as there is a tile to walk.
    */
    method SnapRemainingTiles() returns (threw: bool)
      requires Valid()
      modifies tilePos, occupied
      ensures Valid()
      ensures Occupancy.LastFree(old(occupied[..])).None? ==>
        threw == (Size() > 0) && tilePos[..] == old(tilePos[..]) && occupied[..] == old(occupied[..])
      ensures Occupancy.LastFree(old(occupied[..])).Some? ==> !threw
      ensures Occupancy.LastFree(old(occupied[..])).Some? ==>
        var k := Occupancy.LastFree(old(occupied[..])).value;
        if AnyTileNear(old(tilePos[..]), slotPos[k])
        then tilePos[..] == old(tilePos[..])[k := slotPos[k]] && occupied[..] == old(occupied[..])[k := true]
        else tilePos[..] == old(tilePos[..]) && occupied[..] == old(occupied[..])
      ensures old(Consistent()) && occupied[..] != old(occupied[..]) ==> !Consistent()
    {
      var free := FindLastFree();
      if free.None? {
        threw := slotPos.Length > 0;
        return;
      }
      threw := false;
      var k := free.value;
      ghost var tiles0, occ0 := tilePos[..], occupied[..];
      ghost var fired := false;
      for i := 0 to tilePos.Length
        invariant fired == AnyTileNear(tiles0[..i], slotPos[k])
        invariant fired ==> tilePos[..] == tiles0[k := slotPos[k]] && occupied[..] == occ0[k := true]
        invariant !fired ==> tilePos[..] == tiles0 && occupied[..] == occ0
      {
        if WithinSnap(tilePos[i], slotPos[k]) {
          tilePos[k] := slotPos[k];
          occupied[k] := true;
          fired := true;
        }
        assert tiles0[..i + 1] == tiles0[..i] + [tiles0[i]];
      }
      assert tiles0[..tilePos.Length] == tiles0;
      if fired && Occupancy.Consistent(occ0, snapped[..]) {
        Occupancy.FlagWithoutReferenceBreaks(occ0, snapped[..], k);
      }
    }

    /** The decision part of the win check: a walk over the slots and their own tiles. */
    method IsSolved() returns (won: bool)
      requires Valid()
      ensures won <==> Solved(occupied[..], tilePos[..], slotPos[..])
    {
      var allOccupied := true;
      var allCorrect := true;
      for i := 0 to slotPos.Length
        invariant allOccupied <==> forall j :: 0 <= j < i ==> occupied[j]
        invariant allCorrect <==> forall j :: 0 <= j < i ==> Aligned(tilePos[j], slotPos[j])
      {
        allOccupied := allOccupied && occupied[i];
        var isCorrectlyPlaced := Aligned(tilePos[i], slotPos[i]);
        allCorrect := allCorrect && isCorrectlyPlaced;
      }
      won := allOccupied && allCorrect;
    }

    /**
      The win check: on every call that finds the board solved it requests the
      completion effect again; there is no "already won" guard.
    */
    method CheckCompletion() returns (won: bool)
      requires Valid()
      modifies this`effects
      ensures won <==> Solved(occupied[..], tilePos[..], slotPos[..])
      ensures effects == old(effects) + (if won then 1 else 0)
    {
      won := IsSolved();
      if won {
        effects := effects + 1;
      }
    }

    /**
      Touch end on tile `t`: the snap of `Release`; after a snap, the
      auto-completer when 22 or 23 slots are flagged, then the win check
      (which the auto-completer's error, `threw`, skips).
    */
    method TouchEnd(t: nat) returns (target: Option<nat>, threw: bool, won: bool)
      requires Valid() && t < Size()
      modifies tilePos, occupied, snapped, zIndex, this`effects
      ensures Valid()
      ensures target == Resolver.Nearest(old(tilePos[t]), slotPos[..], old(occupied[..]))
      ensures target.None? ==>
        tilePos[..] == old(tilePos[..]) && occupied[..] == old(occupied[..]) &&
        snapped[..] == old(snapped[..]) && zIndex[..] == old(zIndex[..]) &&
        !threw && !won && effects == old(effects)
      ensures target.Some? ==>
        target.value < Size() && !old(occupied[target.value]) && occupied[target.value] &&
        snapped[..] == old(snapped[..])[t := target] && zIndex[..] == old(zIndex[..])[t := SnappedZ]
      ensures var count := Occupancy.OccupiedCount(old(occupied[..])) + 1;
        target.Some? && count != 22 && count != 23 ==>
          !threw &&
          tilePos[..] == old(tilePos[..])[t := slotPos[target.value]] &&
          occupied[..] == old(occupied[..])[target.value := true]
      ensures target.Some? ==>
        var occ1 := old(occupied[..])[target.value := true];
        var tiles1 := old(tilePos[..])[t := slotPos[target.value]];
        var count := Occupancy.OccupiedCount(old(occupied[..])) + 1;
        (count == 22 || count == 23) ==>
          if Occupancy.LastFree(occ1).None? then
            threw && tilePos[..] == tiles1 && occupied[..] == occ1
          else
            var k := Occupancy.LastFree(occ1).value;
            !threw &&
            if AnyTileNear(tiles1, slotPos[k])
            then tilePos[..] == tiles1[k := slotPos[k]] && occupied[..] == occ1[k := true]
            else tilePos[..] == tiles1 && occupied[..] == occ1
      ensures var count := Occupancy.OccupiedCount(old(occupied[..])) + 1;
        threw ==> (count == 22 || count == 23) && count == Size() && !won && effects == old(effects)
      ensures target.Some? && !threw ==>
        (won <==> Solved(occupied[..], tilePos[..], slotPos[..])) &&
        effects == old(effects) + (if won then 1 else 0)
      ensures target.Some? && old(Consistent()) && old(snapped[t]).None? ==>
        (Consistent() <==> occupied[..] == old(occupied[..])[target.value := true])
    {
      ghost var occ0 := occupied[..];
      threw, won := false, false;
      target := Release(t);
      if target.None? {
        return;
      }
      Occupancy.OccupiedCountUpdate(occ0, target.value, true);
      var occupiedGrids := Occupancy.OccupiedCount(occupied[..]);
      if occupiedGrids == 22 || occupiedGrids == 23 {
        threw := SnapRemainingTiles();
        if threw {
          assert occupiedGrids == Size();
          return;
        }
      }
      won := CheckCompletion();
    }
  }

  /** Every slot flagged and every tile exactly on its own slot is a win. */
  lemma ExactPlacementSolves(occ: seq<bool>, slots: seq<Point>)
    requires |occ| == |slots| && forall i :: 0 <= i < |occ| ==> occ[i]
    ensures Solved(occ, slots, slots)
  {
  }

  /** In the three-slot row below, the only candidate for a tile near slot `k` is slot `k`. */
  lemma ThreeSlotNearest(p: Point, occ: seq<bool>, k: nat)
    requires |occ| == 3 && k < 3 && !occ[k]
    requires p == [Point(3, 0), Point(200, 8), Point(405, 20)][k]
    ensures Resolver.Nearest(p, [Point(0, 0), Point(200, 0), Point(400, 0)], occ) == Some(k)
  {
    var slots := [Point(0, 0), Point(200, 0), Point(400, 0)];
    forall j | 0 <= j < 3 && j != k
      ensures !Resolver.Candidate(p, slots, occ, j)
    {
      assert !WithinSnap(p, slots[j]);
    }
    Resolver.LoneCandidateWins(p, slots, occ, k);
  }

  /**
    A release that the resolver sends to the tile's own slot, on a board
    that the auto-completer leaves alone: the tile and the flag change, the
    effect count follows the win check.
  */
  method ReleaseOnOwnSlot(board: Board, t: nat) returns (won: bool)
    requires board.Valid() && t < board.Size()
    requires Resolver.Nearest(board.tilePos[t], board.slotPos[..], board.occupied[..]) == Some(t)
    requires Occupancy.OccupiedCount(board.occupied[..]) + 1 < 22
    modifies board.tilePos, board.occupied, board.snapped, board.zIndex, board`effects
    ensures board.Valid()
    ensures board.tilePos[..] == old(board.tilePos[..])[t := board.slotPos[t]]
    ensures board.occupied[..] == old(board.occupied[..])[t := true]
    ensures won <==> Solved(board.occupied[..], board.tilePos[..], board.slotPos[..])
    ensures board.effects == old(board.effects) + (if won then 1 else 0)
  {
    var target, threw;
    target, threw, won := board.TouchEnd(t);
  }

  /** The first two releases of the three-slot scenario: two snaps, no win yet. */
  method SnapFirstTwo(board: Board)
    requires board.Valid() && board.effects == 0
    requires board.slotPos[..] == [Point(0, 0), Point(200, 0), Point(400, 0)]
    requires board.tilePos[..] == [Point(3, 0), Point(200, 8), Point(405, 20)]
    requires board.occupied[..] == [false, false, false]
    modifies board.tilePos, board.occupied, board.snapped, board.zIndex, board`effects
    ensures board.Valid() && board.effects == 0
    ensures board.tilePos[..] == [Point(0, 0), Point(200, 0), Point(405, 20)]
    ensures board.occupied[..] == [true, true, false]
  {
    ThreeSlotNearest(board.tilePos[0], board.occupied[..], 0);
    var won := ReleaseOnOwnSlot(board, 0);
    assert !won by {
      assert !board.occupied[2];
    }
    assert board.occupied[..] == [true, false, false];
    assert board.tilePos[..] == [Point(0, 0), Point(200, 8), Point(405, 20)];
    ThreeSlotNearest(board.tilePos[1], board.occupied[..], 1);
    won := ReleaseOnOwnSlot(board, 1);
    assert !won by {
      assert !board.occupied[2];
    }
  }

  /**
    A board of three slots in a row whose tiles start near their own slots:
    releasing each one snaps it, the third release wins, and asking again
    requests the effect again.
  */
  method SolveThreeTiles() {
    var slots := [Point(0, 0), Point(200, 0), Point(400, 0)];
    var board := new Board(slots, [Point(3, 0), Point(200, 8), Point(405, 20)]);
    assert board.occupied[..] == [false, false, false];
    SnapFirstTwo(board);

    assert Resolver.Nearest(board.tilePos[2], board.slotPos[..], board.occupied[..]) == Some(2)
        && Occupancy.OccupiedCount(board.occupied[..]) == 2 by {
      ThreeSlotNearest(board.tilePos[2], board.occupied[..], 2);
    }
    var won := ReleaseOnOwnSlot(board, 2);
    assert Solved(board.occupied[..], board.tilePos[..], board.slotPos[..]) by {
      assert board.tilePos[..] == slots && board.occupied[..] == [true, true, true];
      ExactPlacementSolves([true, true, true], slots);
    }
    assert won && board.effects == 1;

    won := board.CheckCompletion();
    assert won && board.effects == 2;
  }
}
