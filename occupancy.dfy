/**
  Slot occupancy bookkeeping, on values: the flags of the slots (`occ`, one
  per slot, in slot order) and the slot reference each tile holds (`refs`,
  one per tile, `Some(k)` when the tile is snapped into slot `k`).

  The board invariant the drag handlers keep is `Consistent`: a slot's flag
  is set exactly when one tile references it, and no slot has two.
*/
module Occupancy {
  import opened Wrappers

  /** Number of flagged slots: the count the release handler compares with 22 and 23. */
  function OccupiedCount(occ: seq<bool>): (c: nat)
    ensures c <= |occ|
    ensures c == |occ| <==> forall i :: 0 <= i < |occ| ==> occ[i]
  {
    if occ == [] then 0
    else
      var init := occ[..|occ| - 1];
      assert forall i :: 0 <= i < |init| ==> init[i] == occ[i];
      OccupiedCount(init) + (if occ[|occ| - 1] then 1 else 0)
  }

  /** Changing one flag changes the count by the difference of the two flags. */
  lemma {:induction false} OccupiedCountUpdate(occ: seq<bool>, k: nat, b: bool)
    requires k < |occ|
    ensures OccupiedCount(occ[k := b]) == OccupiedCount(occ) - (if occ[k] then 1 else 0) + (if b then 1 else 0)
  {
    var n := |occ| - 1;
    if k == n {
      assert occ[k := b][..n] == occ[..n];
    } else {
      assert occ[k := b][..n] == occ[..n][k := b];
      OccupiedCountUpdate(occ[..n], k, b);
    }
  }

  /**
    The last free slot in slot order: the auto-completer keeps overwriting its
    candidate while it walks the slots, so the last one wins.
  */
  function LastFree(occ: seq<bool>): (r: Option<nat>)
    ensures r.Some? ==> r.value < |occ| && !occ[r.value]
    ensures r.Some? ==> forall j :: r.value < j < |occ| ==> occ[j]
    ensures r.None? <==> forall j :: 0 <= j < |occ| ==> occ[j]
  {
    if occ == [] then None
    else if !occ[|occ| - 1] then Some(|occ| - 1)
    else
      var init := occ[..|occ| - 1];
      assert forall i :: 0 <= i < |init| ==> init[i] == occ[i];
      LastFree(init)
  }

  /** Number of tiles that reference slot `k`. */
  function RefCount(refs: seq<Option<nat>>, k: nat): nat {
    if refs == [] then 0
    else RefCount(refs[..|refs| - 1], k) + (if refs[|refs| - 1] == Some(k) then 1 else 0)
  }

  /** Number of tiles snapped into some slot. */
  function SnappedCount(refs: seq<Option<nat>>): nat {
    if refs == [] then 0
    else SnappedCount(refs[..|refs| - 1]) + (if refs[|refs| - 1].Some? then 1 else 0)
  }

  /** Every reference names one of the `n` slots. */
  ghost predicate RefsInRange(refs: seq<Option<nat>>, n: nat) {
    forall t :: 0 <= t < |refs| && refs[t].Some? ==> refs[t].value < n
  }

  /** A slot's flag is true iff exactly one tile references it (and none references a missing slot). */
  ghost predicate Consistent(occ: seq<bool>, refs: seq<Option<nat>>) {
    RefsInRange(refs, |occ|) &&
    forall k :: 0 <= k < |occ| ==> RefCount(refs, k) == if occ[k] then 1 else 0
  }

  /** Replacing one tile's reference moves one unit of count from the old slot to the new one. */
  lemma {:induction false} RefCountUpdate(refs: seq<Option<nat>>, t: nat, x: Option<nat>, k: nat)
    requires t < |refs|
    ensures RefCount(refs[t := x], k)
         == RefCount(refs, k) - (if refs[t] == Some(k) then 1 else 0) + (if x == Some(k) then 1 else 0)
  {
    var n := |refs| - 1;
    if t == n {
      assert refs[t := x][..n] == refs[..n];
    } else {
      assert refs[t := x][..n] == refs[..n][t := x];
      RefCountUpdate(refs[..n], t, x, k);
    }
  }

  /** Some tile references slot `k` exactly when the count for `k` is positive. */
  lemma {:induction false} RefCountPositive(refs: seq<Option<nat>>, k: nat)
    ensures RefCount(refs, k) > 0 <==> exists t :: 0 <= t < |refs| && refs[t] == Some(k)
  {
    if refs != [] {
      var n := |refs| - 1;
      RefCountPositive(refs[..n], k);
      if exists t :: 0 <= t < |refs| && refs[t] == Some(k) {
        var t :| 0 <= t < |refs| && refs[t] == Some(k);
        if t < n {
          assert refs[..n][t] == Some(k);
        }
      }
      if exists t :: 0 <= t < n && refs[..n][t] == Some(k) {
        var t :| 0 <= t < n && refs[..n][t] == Some(k);
        assert refs[t] == Some(k);
      }
    }
  }

  /** Two different tiles referencing the same slot make its count at least two. */
  lemma {:induction false} RefCountTwo(refs: seq<Option<nat>>, t: nat, u: nat, k: nat)
    requires t < u < |refs| && refs[t] == Some(k) && refs[u] == Some(k)
    ensures RefCount(refs, k) >= 2
  {
    var n := |refs| - 1;
    if u == n {
      assert refs[..n][t] == Some(k);
      RefCountPositive(refs[..n], k);
    } else {
      assert refs[..n][t] == Some(k) && refs[..n][u] == Some(k);
      RefCountTwo(refs[..n], t, u, k);
    }
  }

  /** On a consistent board a slot's flag is set iff some tile references that slot. */
  lemma FlagIffReferenced(occ: seq<bool>, refs: seq<Option<nat>>, k: nat)
    requires Consistent(occ, refs) && k < |occ|
    ensures occ[k] <==> exists t :: 0 <= t < |refs| && refs[t] == Some(k)
  {
    RefCountPositive(refs, k);
  }

  /** On a consistent board no two tiles are snapped into the same slot. */
  lemma AtMostOneTilePerSlot(occ: seq<bool>, refs: seq<Option<nat>>, t: nat, u: nat)
    requires Consistent(occ, refs)
    requires t < |refs| && u < |refs| && refs[t].Some? && refs[t] == refs[u]
    ensures t == u
  {
    var k := refs[t].value;
    if t < u {
      RefCountTwo(refs, t, u, k);
    } else if u < t {
      RefCountTwo(refs, u, t, k);
    }
  }

  /** A board where no tile is snapped and no flag is set is consistent. */
  lemma {:induction false} EmptyBoardConsistent(occ: seq<bool>, refs: seq<Option<nat>>)
    requires forall k :: 0 <= k < |occ| ==> !occ[k]
    requires forall t :: 0 <= t < |refs| ==> refs[t].None?
    ensures Consistent(occ, refs)
  {
    forall k: nat | k < |occ|
      ensures RefCount(refs, k) == 0
    {
      RefCountPositive(refs, k);
    }
  }

  /**
    Picking up a snapped tile: clearing the tile's reference and its slot's
    flag together keeps the board consistent.
  */
  lemma GrabKeepsConsistent(occ: seq<bool>, refs: seq<Option<nat>>, t: nat)
    requires Consistent(occ, refs) && t < |refs| && refs[t].Some?
    ensures Consistent(occ[refs[t].value := false], refs[t := None])
  {
    var k := refs[t].value;
    var occ', refs' := occ[k := false], refs[t := None];
    forall j: nat | j < |occ'|
      ensures RefCount(refs', j) == if occ'[j] then 1 else 0
    {
      RefCountUpdate(refs, t, None, j);
    }
  }

  /**
    Releasing an unsnapped tile onto a free slot: setting the slot's flag and
    the tile's reference together keeps the board consistent.
  */
  lemma SnapKeepsConsistent(occ: seq<bool>, refs: seq<Option<nat>>, t: nat, k: nat)
    requires Consistent(occ, refs) && t < |refs| && refs[t].None?
    requires k < |occ| && !occ[k]
    ensures Consistent(occ[k := true], refs[t := Some(k)])
  {
    var occ', refs' := occ[k := true], refs[t := Some(k)];
    forall j: nat | j < |occ'|
      ensures RefCount(refs', j) == if occ'[j] then 1 else 0
    {
      RefCountUpdate(refs, t, Some(k), j);
    }
  }

  /**
    Flagging a free slot without any tile taking a reference to it (what the
    auto-completer does) leaves a consistent board inconsistent.
  */
  lemma FlagWithoutReferenceBreaks(occ: seq<bool>, refs: seq<Option<nat>>, k: nat)
    requires Consistent(occ, refs) && k < |occ| && !occ[k]
    ensures !Consistent(occ[k := true], refs)
  {
  }

  /** Sum of the reference counts of slots `0 .. m-1`. */
  function RefTotal(refs: seq<Option<nat>>, m: nat): nat {
    if m == 0 then 0 else RefTotal(refs, m - 1) + RefCount(refs, m - 1)
  }

  lemma {:induction false} RefTotalAppend(refs: seq<Option<nat>>, x: Option<nat>, m: nat)
    ensures RefTotal(refs + [x], m) == RefTotal(refs, m) + (if x.Some? && x.value < m then 1 else 0)
  {
    if m > 0 {
      RefTotalAppend(refs, x, m - 1);
      assert (refs + [x])[..|refs|] == refs;
    }
  }

  lemma {:induction false} RefTotalNoTiles(m: nat)
    ensures RefTotal([], m) == 0
  {
    if m > 0 {
      RefTotalNoTiles(m - 1);
    }
  }

  lemma {:induction false} RefTotalIsSnapped(refs: seq<Option<nat>>, n: nat)
    requires RefsInRange(refs, n)
    ensures RefTotal(refs, n) == SnappedCount(refs)
  {
    if refs == [] {
      RefTotalNoTiles(n);
    } else {
      var init, last := refs[..|refs| - 1], refs[|refs| - 1];
      assert refs == init + [last];
      assert RefsInRange(init, n) by {
        forall t | 0 <= t < |init| && init[t].Some? ensures init[t].value < n {
          assert init[t] == refs[t];
        }
      }
      RefTotalIsSnapped(init, n);
      RefTotalAppend(init, last, n);
      assert RefTotal(refs, n) == RefTotal(init + [last], n);
      assert last.Some? ==> last.value < n;
      assert SnappedCount(refs) == SnappedCount(init) + (if last.Some? then 1 else 0);
    }
  }

  lemma {:induction false} OccupiedIsRefTotal(occ: seq<bool>, refs: seq<Option<nat>>, m: nat)
    requires Consistent(occ, refs) && m <= |occ|
    ensures OccupiedCount(occ[..m]) == RefTotal(refs, m)
  {
    if m > 0 {
      OccupiedIsRefTotal(occ, refs, m - 1);
      assert occ[..m][..m - 1] == occ[..m - 1];
    }
  }

  /** On a consistent board the number of flagged slots is the number of snapped tiles. */
  lemma OccupiedCountIsSnappedCount(occ: seq<bool>, refs: seq<Option<nat>>)
    requires Consistent(occ, refs)
    ensures OccupiedCount(occ) == SnappedCount(refs)
  {
    OccupiedIsRefTotal(occ, refs, |occ|);
    assert occ[..|occ|] == occ;
    RefTotalIsSnapped(refs, |occ|);
  }
}
