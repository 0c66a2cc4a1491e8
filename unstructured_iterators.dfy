/**
 * The iterators of an unstructured grid: each holds a position into the
 * grid's point list, starting at 0 (begin) or at the number of points (end).
 * `next` hands out the point at the position and advances; `++` advances,
 * and the predicated iterator keeps advancing until the predicate accepts the
 * position or the end is reached; iterators compare by position only.
 */
module UnstructuredIterators {
  import opened Wrappers

  /** A two-dimensional point: (x, y), or (lon, lat) once projected. */
  datatype Point2 = Point2(x: real, y: real)

  /** The position an iterator starts at: 0 for begin, the number of points for end. */
  function StartPosition(begin: bool, size: nat): (n: nat)
    ensures n <= size && (n == size <==> !begin || size == 0)
  {
    if begin then 0 else size
  }

  /** The error raised by an operation that is not implemented (NOTIMP). */
  datatype NotImplemented = NotImplemented

  /** Unstructured::IteratorXY: hands out the xy points in order. */
  class IteratorXY {
    const points: seq<Point2>
    var n: nat

    constructor (points: seq<Point2>, begin: bool)
      ensures this.points == points && n == StartPosition(begin, |points|)
    {
      this.points := points;
      n := StartPosition(begin, |points|);
    }

    /** next: the point at the position, advancing; false at the end, not moving. */
    method Next() returns (ok: bool, xy: Point2)
      requires n <= |points|
      modifies this
      ensures ok <==> old(n) < |points|
      ensures ok ==> xy == points[old(n)] && n == old(n) + 1
      ensures !ok ==> n == old(n)
    {
      xy := Point2(0.0, 0.0);
      if n != |points| {
        xy := points[n];
        n := n + 1;
        return true, xy;
      } else {
        return false, xy;
      }
    }

    /** operator*: the point at the position. */
    function Current(): Point2
      reads this
      requires n < |points|
    {
      points[n]
    }

    /** operator++: one position on. */
    method Increment()
      modifies this
      ensures n == old(n) + 1
    {
      n := n + 1;
    }

    /** operator==: same position. */
    predicate Equal(other: IteratorXY)
      reads this, other
    {
      n == other.n
    }

    /** operator!=: a different position; always the negation of ==. */
    predicate NotEqual(other: IteratorXY)
      reads this, other
      ensures NotEqual(other) <==> !Equal(other)
    {
      n != other.n
    }
  }

  /**
   * Unstructured::IteratorXYPredicated: an xy iterator that ++ moves to the
   * next position the predicate accepts. Its begin position is 0 whether or
   * not the predicate accepts it, and its next is not implemented.
   */
  class IteratorXYPredicated {
    const points: seq<Point2>
    const accepts: nat -> bool
    const size: nat
    var n: nat

    constructor (points: seq<Point2>, accepts: nat -> bool, begin: bool)
      ensures this.points == points && this.accepts == accepts && size == |points|
      ensures n == StartPosition(begin, |points|)
    {
      this.points := points;
      this.accepts := accepts;
      size := |points|;
      n := StartPosition(begin, |points|);
    }

    /** next: not implemented. */
    method Next() returns (r: Result<Point2, NotImplemented>)
      ensures r == Failure(NotImplemented)
    {
      r := Failure(NotImplemented);
    }

    /** operator*: the point at the position. */
    function Current(): Point2
      reads this
      requires n < |points|
    {
      points[n]
    }

    /**
     * operator++: advance at least once, then on until the end or the first
     * position the predicate accepts; never beyond the end.
     */
    method Increment()
      requires n < size
      modifies this
      ensures old(n) < n <= size
      ensures n == size || accepts(n)
      ensures forall k :: old(n) < k < n ==> !accepts(k)
    {
      ghost var start := n;
      n := n + 1;
      while n != size && !accepts(n)
        invariant start < n <= size
        invariant forall k :: start < k < n ==> !accepts(k)
        decreases size - n
      {
        n := n + 1;
      }
    }

    /** operator==: same position. */
    predicate Equal(other: IteratorXYPredicated)
      reads this, other
    {
      n == other.n
    }

    /** operator!=: a different position; always the negation of ==. */
    predicate NotEqual(other: IteratorXYPredicated)
      reads this, other
      ensures NotEqual(other) <==> !Equal(other)
    {
      n != other.n
    }
  }

  /** Unstructured::IteratorLonLat: hands out the points in order, projected to (lon, lat). */
  class IteratorLonLat {
    const points: seq<Point2>
    const lonlat: Point2 -> Point2
    var n: nat

    constructor (points: seq<Point2>, lonlat: Point2 -> Point2, begin: bool)
      ensures this.points == points && this.lonlat == lonlat && n == StartPosition(begin, |points|)
    {
      this.points := points;
      this.lonlat := lonlat;
      n := StartPosition(begin, |points|);
    }

    /** next: the projected point at the position, advancing; false at the end, not moving. */
    method Next() returns (ok: bool, ll: Point2)
      requires n <= |points|
      modifies this
      ensures ok <==> old(n) < |points|
      ensures ok ==> ll == lonlat(points[old(n)]) && n == old(n) + 1
      ensures !ok ==> n == old(n)
    {
      ll := Point2(0.0, 0.0);
      if n != |points| {
        ll := lonlat(points[n]);
        n := n + 1;
        return true, ll;
      } else {
        return false, ll;
      }
    }

    /** operator*: the projected point at the position. */
    function Current(): Point2
      reads this
      requires n < |points|
    {
      lonlat(points[n])
    }

    /** operator++: one position on. */
    method Increment()
      modifies this
      ensures n == old(n) + 1
    {
      n := n + 1;
    }

    /** operator==: same position. */
    predicate Equal(other: IteratorLonLat)
      reads this, other
    {
      n == other.n
    }

    /** operator!=: a different position; always the negation of ==. */
    predicate NotEqual(other: IteratorLonLat)
      reads this, other
      ensures NotEqual(other) <==> !Equal(other)
    {
      n != other.n
    }
  }

  /**
   * Walking an iterator with next from begin hands out every point once, in
   * order, and then reports the end.
   */
  method WalkXY(points: seq<Point2>) returns (seen: seq<Point2>)
    ensures seen == points
  {
    var it := new IteratorXY(points, true);
    seen := [];
    var ok, xy := it.Next();
    while ok
      invariant it.points == points && it.n <= |points|
      invariant ok ==> 0 < it.n && seen == points[..it.n - 1] && xy == points[it.n - 1]
      invariant !ok ==> it.n == |points| && seen == points[..it.n]
      decreases |points| - it.n, ok
    {
      seen := seen + [xy];
      ok, xy := it.Next();
    }
    assert points[..it.n] == points;
  }
}
