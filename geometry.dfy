/**
  Plane geometry of the puzzle: tile and slot corners in integer viewport
  units, the squared distance that stands for the Euclidean one, the two
  tolerances, the viewport clamp applied while dragging, and the random
  starting position of a tile.
*/
module Geometry {

  /** The top-left corner of a tile or a slot. */
  datatype Point = Point(x: int, y: int)

  /** A tile snaps only to a slot strictly closer than this. */
  const SnapThreshold: nat := 50

  /** `distance < SnapThreshold` is decided on squares, without a square root. */
  const SnapThresholdSquared: nat := SnapThreshold * SnapThreshold

  /** A tile is correctly placed when both axes differ from its slot by less than this. */
  const PlacementTolerance: nat := 5

  function Abs(v: int): nat {
    if v < 0 then -v else v
  }

  function Square(v: int): nat {
    Abs(v) * Abs(v)
  }

  /** The square of the Euclidean distance between two corners. */
  function SquaredDistance(a: Point, b: Point): nat {
    Square(a.x - b.x) + Square(a.y - b.y)
  }

  /** The snap test of the resolver and of the auto-completer. */
  predicate WithinSnap(a: Point, b: Point) {
    SquaredDistance(a, b) < SnapThresholdSquared
  }

  /** The per-pair test of the win check. */
  predicate Aligned(tile: Point, slot: Point) {
    Abs(tile.x - slot.x) < PlacementTolerance && Abs(tile.y - slot.y) < PlacementTolerance
  }

  /**
    Comparing squares of non-negative distances decides the same as comparing
    the distances: this is why the model may drop `Math.sqrt`.
  */
  lemma SquareMonotone(a: real, b: real)
    requires 0.0 <= a && 0.0 <= b
    ensures a < b <==> a * a < b * b
  {
    if a < b {
      calc {
        a * a;
      <=
        a * b;
      <
        b * b;
      }
    } else {
      calc {
        b * b;
      <=
        b * a;
      <=
        a * a;
      }
    }
  }

  /**
    One axis of the drag handler's clamp: a negative coordinate is first raised
    to 0, then a box whose far edge passes the viewport edge is pulled back so
    that the edges meet (which wins when the box is wider than the viewport).
  */
  function Clamp(v: int, size: int, limit: int): (r: int)
    ensures size <= limit ==> 0 <= r <= limit - size
    ensures 0 <= v && v + size <= limit ==> r == v
    ensures limit < size ==> r == limit - size
  {
    var raised := if v < 0 then 0 else v;
    if raised + size > limit then limit - size else raised
  }

  /** A fraction in [0, 1) of the room left on an axis stays within that room. */
  lemma ScaledRoom(f: real, screen: int, size: int)
    ensures 0.0 <= f < 1.0 && size <= screen ==> 0.0 <= f * (screen - size) as real <= (screen - size) as real
  {
    if 0.0 <= f < 1.0 && size <= screen {
      var room := (screen - size) as real;
      calc {
        0.0;
      <=
        f * room;
      <=
        1.0 * room;
      }
    }
  }

  /**
    The starting position of a tile drawn from two uniform fractions in [0, 1):
    each fraction scales the room left on its axis, so a tile that fits in
    the viewport starts with its whole box inside it.
  */
  function RandomPosition(fx: real, fy: real, tileWidth: int, tileHeight: int, screenWidth: int, screenHeight: int): (p: (real, real))
    ensures 0.0 <= fx < 1.0 && tileWidth <= screenWidth ==> 0.0 <= p.0 <= (screenWidth - tileWidth) as real
    ensures 0.0 <= fy < 1.0 && tileHeight <= screenHeight ==> 0.0 <= p.1 <= (screenHeight - tileHeight) as real
  {
    ScaledRoom(fx, screenWidth, tileWidth);
    ScaledRoom(fy, screenHeight, tileHeight);
    (fx * (screenWidth - tileWidth) as real, fy * (screenHeight - tileHeight) as real)
  }
}
