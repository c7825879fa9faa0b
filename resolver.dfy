/**
  The nearest-slot resolver, on values: which free slot a tile whose corner
  is at `p` snaps to, given the slot corners `slots` and their flags `occ`.
*/
module Resolver {
  import opened Wrappers
  import opened Geometry

  /** Slot `j` exists, is free and lies strictly inside the snap radius of `p`. */
  predicate Candidate(p: Point, slots: seq<Point>, occ: seq<bool>, j: int) {
    0 <= j < |slots| && j < |occ| && !occ[j] && WithinSnap(p, slots[j])
  }

  /**
    Among slots `0 .. n-1`, `k` is a candidate no farther than any other
    candidate and strictly nearer than every candidate before it (ties go to
    the earliest slot).
  */
  ghost predicate NearestAmong(p: Point, slots: seq<Point>, occ: seq<bool>, k: int, n: int) {
    0 <= k < n && Candidate(p, slots, occ, k) &&
    (forall j :: 0 <= j < n && Candidate(p, slots, occ, j) ==>
       SquaredDistance(p, slots[k]) <= SquaredDistance(p, slots[j])) &&
    (forall j :: 0 <= j < k && Candidate(p, slots, occ, j) ==>
       SquaredDistance(p, slots[k]) < SquaredDistance(p, slots[j]))
  }

  /**
    The resolver's scan over the first `n` slots: a free slot replaces the
    best so far when it is strictly nearer than it (any distance beats the
    initial infinity) and strictly inside the snap radius.
  */
  function ScanNearest(p: Point, slots: seq<Point>, occ: seq<bool>, n: nat): (r: Option<nat>)
    requires n <= |slots| && |occ| == |slots|
    ensures r.Some? ==> r.value < n
  {
    if n == 0 then None
    else
      var best := ScanNearest(p, slots, occ, n - 1);
      var d := SquaredDistance(p, slots[n - 1]);
      if !occ[n - 1] && (best.None? || d < SquaredDistance(p, slots[best.value])) && d < SnapThresholdSquared
      then Some(n - 1)
      else best
  }

  /** The slot the resolver returns for a tile whose corner is at `p`. */
  function Nearest(p: Point, slots: seq<Point>, occ: seq<bool>): (r: Option<nat>)
    requires |occ| == |slots|
    ensures r.Some? ==> NearestAmong(p, slots, occ, r.value, |slots|)
    ensures r.None? <==> forall j :: 0 <= j < |slots| ==> !Candidate(p, slots, occ, j)
  {
    ScanNearestIsNearest(p, slots, occ, |slots|);
    ScanNearest(p, slots, occ, |slots|)
  }

  /**
    The scan returns the nearest candidate, and returns nothing exactly when
    no slot is a candidate.
  */
  lemma {:induction false} ScanNearestIsNearest(p: Point, slots: seq<Point>, occ: seq<bool>, n: nat)
    requires n <= |slots| && |occ| == |slots|
    ensures ScanNearest(p, slots, occ, n).Some? ==> NearestAmong(p, slots, occ, ScanNearest(p, slots, occ, n).value, n)
    ensures ScanNearest(p, slots, occ, n).None? <==> forall j :: 0 <= j < n ==> !Candidate(p, slots, occ, j)
  {
    if n > 0 {
      ScanNearestIsNearest(p, slots, occ, n - 1);
    }
  }

  /** At most one slot is the nearest candidate. */
  lemma NearestAmongUnique(p: Point, slots: seq<Point>, occ: seq<bool>, k: int, k': int, n: int)
    requires NearestAmong(p, slots, occ, k, n) && NearestAmong(p, slots, occ, k', n)
    ensures k == k'
  {
  }

  /**
    The resolver's answer, characterised without the scan: it is `Some(k)`
    exactly when `k` is the nearest candidate, and `None` exactly when no free
    slot lies inside the snap radius.
  */
  lemma NearestCharacterized(p: Point, slots: seq<Point>, occ: seq<bool>, k: int)
    requires |occ| == |slots|
    ensures Nearest(p, slots, occ) == Some(k) <==> NearestAmong(p, slots, occ, k, |slots|)
    ensures Nearest(p, slots, occ).None? <==> forall j :: 0 <= j < |slots| ==> !Candidate(p, slots, occ, j)
  {
    ScanNearestIsNearest(p, slots, occ, |slots|);
    var r := Nearest(p, slots, occ);
    if NearestAmong(p, slots, occ, k, |slots|) {
      assert r.Some?;
      NearestAmongUnique(p, slots, occ, k, r.value, |slots|);
    }
  }

  /** A slot whose flag is set is never returned. */
  lemma NearestIsFree(p: Point, slots: seq<Point>, occ: seq<bool>)
    requires |occ| == |slots|
    ensures Nearest(p, slots, occ).Some? ==> !occ[Nearest(p, slots, occ).value]
    ensures Nearest(p, slots, occ).Some? ==> SquaredDistance(p, slots[Nearest(p, slots, occ).value]) < SnapThresholdSquared
  {
    ScanNearestIsNearest(p, slots, occ, |slots|);
  }

  /** A lone candidate is what the resolver returns, wherever the other slots are. */
  lemma LoneCandidateWins(p: Point, slots: seq<Point>, occ: seq<bool>, k: int)
    requires |occ| == |slots| && Candidate(p, slots, occ, k)
    requires forall j :: 0 <= j < |slots| && j != k ==> !Candidate(p, slots, occ, j)
    ensures Nearest(p, slots, occ) == Some(k)
  {
    NearestCharacterized(p, slots, occ, k);
  }
}
