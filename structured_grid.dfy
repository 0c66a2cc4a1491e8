/**
 * A structured (reduced) global grid: a list of latitude rows, each with its
 * own number of points. Setting up the grid counts its points and its widest
 * row; a hemisphere description is mirrored into a full grid; the points are
 * handed out row by row, either as (lon, lat) points or interleaved into a
 * buffer of numbers.
 */
module StructuredGrid {
  import opened Wrappers

  /** A grid point: longitude and latitude. */
  datatype PointLonLat = PointLonLat(lon: real, lat: real)

  /** The errors the grid raises: a missing parameter, or a failed ASSERT. */
  datatype GridError = BadParameter(message: string) | Assertion(failed: AssertionFailed)

  /**
   * The configuration a grid is built from; a key the configuration does not
   * hold is None.
   */
  datatype Params = Params(
    nptsPerLat: Option<seq<nat>>,
    latitudes: Option<seq<real>>,
    n: Option<int>,
    gridType: Option<string>,
    shortName: Option<string>)

  // ---------------------------------------------------------------------------
  // counts

  /** The number of points of all rows. */
  function Sum(s: seq<nat>): nat
  {
    if s == [] then 0 else Sum(s[..|s| - 1]) + s[|s| - 1]
  }

  /** The widest row, counting from 0. */
  function MaxOf(s: seq<nat>): nat
  {
    if s == [] then 0
    else
      var m := MaxOf(s[..|s| - 1]);
      if s[|s| - 1] > m then s[|s| - 1] else m
  }

  /** MaxOf is the maximum: no row is wider, and it is the width of a row unless it is 0. */
  lemma {:induction false} MaxOfIsMaximum(s: seq<nat>)
    ensures forall j :: 0 <= j < |s| ==> s[j] <= MaxOf(s)
    ensures MaxOf(s) == 0 || MaxOf(s) in s
  {
    if s != [] {
      var front := s[..|s| - 1];
      MaxOfIsMaximum(front);
      assert s == front + [s[|s| - 1]];
    }
  }

  /** Each row holds no more points than all of them. */
  lemma {:induction false} SumBoundsRows(s: seq<nat>)
    ensures forall j :: 0 <= j < |s| ==> s[j] <= Sum(s)
    ensures MaxOf(s) <= Sum(s)
  {
    if s != [] {
      SumBoundsRows(s[..|s| - 1]);
    }
  }

  /** A long converted to a 32-bit int: the value modulo 2^32, in [-2^31, 2^31). */
  function Int32(x: int): (r: int)
    ensures -0x8000_0000 <= r < 0x8000_0000
    ensures (r - x) % 0x1_0000_0000 == 0
    ensures -0x8000_0000 <= x < 0x8000_0000 ==> r == x
  {
    var m := x % 0x1_0000_0000;
    if m < 0x8000_0000 then m else m - 0x1_0000_0000
  }

  /** The 32-bit copy of the row counts. */
  function Int32s(s: seq<nat>): (r: seq<int>)
    ensures |r| == |s| && forall j :: 0 <= j < |s| ==> r[j] == Int32(s[j])
  {
    seq(|s|, j requires 0 <= j < |s| => Int32(s[j]))
  }

  // ---------------------------------------------------------------------------
  // points

  /** The first n points of row jlat, at latitude y. */
  function Row(lon: (nat, nat) -> real, jlat: nat, n: nat, y: real): (r: seq<PointLonLat>)
    ensures |r| == n && forall jlon :: 0 <= jlon < n ==> r[jlon] == PointLonLat(lon(jlat, jlon), y)
  {
    seq(n, jlon requires 0 <= jlon < n => PointLonLat(lon(jlat, jlon), y))
  }

  /** The points of all rows, latitude by latitude. */
  function Rows(nlons: seq<nat>, lats: seq<real>, lon: (nat, nat) -> real): seq<PointLonLat>
    requires |nlons| == |lats|
  {
    if nlons == [] then []
    else
      var t := |nlons| - 1;
      Rows(nlons[..t], lats[..t], lon) + Row(lon, t, nlons[t], lats[t])
  }

  /**
   * There are as many points as the rows count together, and point jlon of
   * row jlat comes after the points of the earlier rows.
   */
  lemma {:induction false} RowsLayout(nlons: seq<nat>, lats: seq<real>, lon: (nat, nat) -> real, jlat: nat, jlon: nat)
    requires |nlons| == |lats|
    ensures |Rows(nlons, lats, lon)| == Sum(nlons)
    ensures jlat < |nlons| && jlon < nlons[jlat] ==>
              Sum(nlons[..jlat]) + jlon < Sum(nlons) &&
              Rows(nlons, lats, lon)[Sum(nlons[..jlat]) + jlon] == PointLonLat(lon(jlat, jlon), lats[jlat])
    decreases |nlons|
  {
    if nlons != [] {
      var t := |nlons| - 1;
      RowsLayout(nlons[..t], lats[..t], lon, jlat, jlon);
      if jlat < t && jlon < nlons[jlat] {
        assert nlons[..t][..jlat] == nlons[..jlat];
        assert nlons[..t][jlat] == nlons[jlat] && lats[..t][jlat] == lats[jlat];
      } else if jlat == t {
        assert nlons[..t] == nlons[..jlat];
      }
    }
  }

  /** The points as a flat list of numbers: the longitude, then the latitude, of each point. */
  function Interleaved(pts: seq<PointLonLat>): (r: seq<real>)
    ensures |r| == 2 * |pts|
  {
    if pts == [] then []
    else Interleaved(pts[..|pts| - 1]) + [pts[|pts| - 1].lon, pts[|pts| - 1].lat]
  }

  /** Number 2k of the flat list is the longitude of point k, and number 2k+1 its latitude. */
  lemma {:induction false} InterleavedAt(pts: seq<PointLonLat>, k: nat)
    requires k < |pts|
    ensures Interleaved(pts)[2 * k] == pts[k].lon && Interleaved(pts)[2 * k + 1] == pts[k].lat
    decreases |pts|
  {
    if k < |pts| - 1 {
      InterleavedAt(pts[..|pts| - 1], k);
    }
  }

  /** The rows of a hemisphere, mirrored: the counts reversed, the latitudes reversed and negated. */
  method MirrorRows(lat: seq<real>, lon: seq<nat>) returns (lats: seq<real>, nlons: seq<nat>)
    requires |lat| == |lon|
    ensures |lats| == 2 * |lat| && |nlons| == 2 * |lat|
    ensures forall j :: 0 <= j < |lat| ==> nlons[j] == lon[j] && lats[j] == lat[j]
    ensures forall j :: |lat| <= j < 2 * |lat| ==> nlons[j] == lon[2 * |lat| - 1 - j] && lats[j] == -lat[2 * |lat| - 1 - j]
    ensures forall j :: 0 <= j < 2 * |lat| ==> nlons[2 * |lat| - 1 - j] == nlons[j] && lats[2 * |lat| - 1 - j] == -lats[j]
  {
    var n := |lat|;
    nlons := lon + seq(n, j requires 0 <= j < n => lon[n - 1 - j]);
    lats := lat + seq(n, j requires 0 <= j < n => lat[n - 1 - j]);
    var j := n;
    while j < 2 * n
      invariant n <= j <= 2 * n && |lats| == 2 * n
      invariant forall i :: 0 <= i < n ==> lats[i] == lat[i]
      invariant forall i :: n <= i < j ==> lats[i] == -lat[2 * n - 1 - i]
      invariant forall i :: j <= i < 2 * n ==> lats[i] == lat[2 * n - 1 - i]
    {
      lats := lats[j := -lats[j]];
      j := j + 1;
    }
  }

  // ---------------------------------------------------------------------------
  // the grid

  /** Structured: the rows of the grid and the counts setup derives from them. */
  class Structured {
    /** Number of points of each row. */
    var nlons: seq<nat>
    /** Latitude of each row. */
    var lats: seq<real>
    /** Longitude of point jlon of row jlat. */
    var lon: (nat, nat) -> real
    /** Number of points of the grid. */
    var npts: nat
    /** Number of points of the widest row. */
    var nlonmax: nat
    /** The 32-bit copy of nlons, filled on first request. */
    var nlonsInt: seq<int>
    var gridType: string
    var shortName: string
    var n: int

    /** The counts agree with the rows. */
    predicate Valid()
      reads this
    {
      |lats| == |nlons| && npts == Sum(nlons) && nlonmax == MaxOf(nlons)
    }

    /** A grid with no rows yet. */
    constructor Empty(lon: (nat, nat) -> real)
      ensures Valid() && nlons == [] && lats == [] && nlonsInt == [] && n == 0 && this.lon == lon
    {
      nlons := [];
      lats := [];
      this.lon := lon;
      npts := 0;
      nlonmax := 0;
      nlonsInt := [];
      gridType := "";
      shortName := "";
      n := 0;
    }

    /**
     * setup: the grid needs more than one row (an ASSERT); it then takes the
     * rows, and counts the points of all of them and of the widest one.
     */
    method Setup(lats: seq<real>, nlons: seq<nat>, lon: (nat, nat) -> real) returns (r: Outcome<GridError>)
      requires |lats| == |nlons|
      modifies this
      ensures r.Fail? <==> |lats| <= 1
      ensures r.Fail? ==> r.error == Assertion(AssertionFailed("nlat > 1")) && unchanged(this)
      ensures r.Pass? ==> Valid() && this.lats == lats && this.nlons == nlons && this.lon == lon
      ensures nlonsInt == old(nlonsInt) && gridType == old(gridType) && shortName == old(shortName) && n == old(n)
    {
      if |lats| <= 1 {
        return Fail(Assertion(AssertionFailed("nlat > 1")));
      }
      this.nlons := nlons;
      this.lats := lats;
      this.lon := lon;
      npts := 0;
      nlonmax := 0;
      var jlat := 0;
      while jlat < |nlons|
        invariant 0 <= jlat <= |nlons|
        invariant this.nlons == nlons && this.lats == lats && this.lon == lon
        invariant npts == Sum(nlons[..jlat]) && nlonmax == MaxOf(nlons[..jlat])
        invariant nlonsInt == old(nlonsInt) && gridType == old(gridType) && shortName == old(shortName) && n == old(n)
      {
        assert nlons[..jlat + 1][..jlat] == nlons[..jlat];
        nlonmax := if nlons[jlat] > nlonmax then nlons[jlat] else nlonmax;
        npts := npts + nlons[jlat];
        jlat := jlat + 1;
      }
      assert nlons[..jlat] == nlons;
      return Pass;
    }

    /**
     * setup_lat_hemisphere: a grid of twice the rows, the given ones followed
     * by their mirror image with the latitudes negated.
     */
    method SetupLatHemisphere(lat: seq<real>, lon: seq<nat>, lonRule: (nat, nat) -> real) returns (r: Outcome<GridError>)
      requires |lat| == |lon|
      modifies this
      ensures r.Fail? <==> |lat| == 0
      ensures r.Fail? ==> unchanged(this)
      ensures r.Pass? ==> Valid() && |lats| == 2 * |lat|
      ensures r.Pass? ==> forall j :: 0 <= j < |lat| ==> nlons[j] == lon[j] && lats[j] == lat[j]
      ensures r.Pass? ==> forall j :: |lat| <= j < 2 * |lat| ==> nlons[j] == lon[2 * |lat| - 1 - j] && lats[j] == -lat[2 * |lat| - 1 - j]
    {
      var lats, nlons := MirrorRows(lat, lon);
      r := Setup(lats, nlons, lonRule);
    }

    /** lonlat: the points of the grid, row by row, as many as the grid counts. */
    method LonLat() returns (pts: seq<PointLonLat>)
      requires Valid()
      ensures |pts| == npts
      ensures pts == Rows(nlons, lats, lon)
    {
      RowsLayout(nlons, lats, lon, 0, 0);
      pts := seq(npts, _ => PointLonLat(0.0, 0.0));
      var c := 0;
      var jlat := 0;
      while jlat < |nlons|
        invariant 0 <= jlat <= |nlons| && |pts| == npts
        invariant c == Sum(nlons[..jlat]) <= npts
        invariant pts[..c] == Rows(nlons[..jlat], lats[..jlat], lon)
      {
        var y := lats[jlat];
        SumPrefix(nlons, jlat);
        var jlon := 0;
        while jlon < nlons[jlat]
          invariant 0 <= jlon <= nlons[jlat] && |pts| == npts
          invariant c == Sum(nlons[..jlat]) + jlon <= npts
          invariant pts[..c] == Rows(nlons[..jlat], lats[..jlat], lon) + Row(lon, jlat, jlon, y)
        {
          pts := pts[c := PointLonLat(lon(jlat, jlon), y)];
          assert Row(lon, jlat, jlon + 1, y) == Row(lon, jlat, jlon, y) + [PointLonLat(lon(jlat, jlon), y)];
          assert pts[..c + 1] == pts[..c] + [pts[c]];
          c := c + 1;
          jlon := jlon + 1;
        }
        RowsStep(nlons, lats, lon, jlat);
        jlat := jlat + 1;
      }
      assert nlons[..jlat] == nlons && lats[..jlat] == lats;
      assert pts[..c] == pts;
    }

    /**
     * copyLonLatMemory: the buffer must hold two numbers per point (an
     * ASSERT); it then receives the interleaved (lon, lat) numbers of the
     * points, row by row, and their count is returned.
     */
    method CopyLonLatMemory(buf: array<real>, size: nat) returns (r: Result<nat, GridError>)
      requires Valid() && size <= buf.Length
      modifies buf
      ensures r.Failure? <==> size < 2 * npts
      ensures r.Failure? ==> r.error == Assertion(AssertionFailed("size >= sizePts")) && buf[..] == old(buf[..])
      ensures r.Success? ==> r.value == 2 * npts && buf[..2 * npts] == Interleaved(Rows(nlons, lats, lon))
      ensures r.Success? ==> buf[2 * npts..] == old(buf[2 * npts..])
    {
      var sizePts := 2 * npts;
      if size < sizePts {
        return Failure(Assertion(AssertionFailed("size >= sizePts")));
      }
      RowsLayout(nlons, lats, lon, 0, 0);
      var nl, la := nlons, lats;
      ghost var o := buf[..];
      var c := 0;
      var jlat := 0;
      while jlat < |nl|
        invariant 0 <= jlat <= |nl|
        invariant c == 2 * Sum(nl[..jlat]) <= sizePts
        invariant buf[..] == Interleaved(Rows(nl[..jlat], la[..jlat], lon)) + o[c..]
      {
        SumPrefix(nl, jlat);
        ghost var before := buf[..];
        WriteRow(buf, c, lon, jlat, nl[jlat], la[jlat], Rows(nl[..jlat], la[..jlat], lon));
        assert before[c + 2 * nl[jlat]..] == o[c + 2 * nl[jlat]..];
        c := c + 2 * nl[jlat];
        RowsStep(nl, la, lon, jlat);
        jlat := jlat + 1;
      }
      assert nl[..jlat] == nl && la[..jlat] == la;
      assert buf[..sizePts] == buf[..][..sizePts];
      assert buf[sizePts..] == buf[..][sizePts..];
      return Success(sizePts);
    }

    /**
     * npts_per_lat: the 32-bit copy of the row counts, made on the first
     * request only; once made, every later request returns the same copy.
     */
    method NptsPerLat() returns (r: seq<int>)
      modifies this`nlonsInt
      ensures nlonsInt == (if old(nlonsInt) == [] then Int32s(nlons) else old(nlonsInt))
      ensures r == nlonsInt
    {
      if |nlonsInt| == 0 {
        nlonsInt := Int32s(nlons);
      }
      r := nlonsInt;
    }
  }

  /**
   * The inner loop of copyLonLatMemory: the n points of row jlat written as
   * (lon, lat) pairs from position c on, after the numbers of the points
   * already written.
   */
  method WriteRow(buf: array<real>, c: nat, lon: (nat, nat) -> real, jlat: nat, n: nat, y: real, ghost done: seq<PointLonLat>)
    requires c + 2 * n <= buf.Length && buf[..] == Interleaved(done) + buf[c..]
    modifies buf
    ensures buf[..] == Interleaved(done + Row(lon, jlat, n, y)) + old(buf[..])[c + 2 * n..]
  {
    ghost var o := buf[..];
    ghost var pre := Interleaved(done);
    assert |pre| == c;
    var k := c;
    var jlon := 0;
    assert done + Row(lon, jlat, 0, y) == done;
    while jlon < n
      invariant 0 <= jlon <= n && k == c + 2 * jlon && |pre| == k
      invariant pre == Interleaved(done + Row(lon, jlat, jlon, y))
      invariant buf[..] == pre + o[k..]
    {
      var v := lon(jlat, jlon);
      WriteStep(done, lon, jlat, jlon, y);
      DropTwo(o, k);
      PairStep(pre, o[k..], v, y);
      WritePair(buf, k, v, y);
      pre := pre + [v, y];
      k := k + 2;
      jlon := jlon + 1;
    }
  }

  /** Writes one (lon, lat) pair at positions k and k + 1. */
  method WritePair(buf: array<real>, k: nat, lon: real, lat: real)
    requires k + 2 <= buf.Length
    modifies buf
    ensures buf[..] == old(buf[..])[k := lon][k + 1 := lat]
  {
    buf[k] := lon;
    buf[k + 1] := lat;
  }

  /** Writing point jlon of the row after the points before it extends the flat list by that point. */
  lemma WriteStep(done: seq<PointLonLat>, lon: (nat, nat) -> real, jlat: nat, jlon: nat, y: real)
    ensures Interleaved(done + Row(lon, jlat, jlon + 1, y)) == Interleaved(done + Row(lon, jlat, jlon, y)) + [lon(jlat, jlon), y]
  {
    RowSnoc(done, lon, jlat, jlon, y);
    InterleavedSnoc(done + Row(lon, jlat, jlon, y), PointLonLat(lon(jlat, jlon), y));
  }

  /** Row jlat up to jlon+1 is the row up to jlon followed by point jlon. */
  lemma RowSnoc(done: seq<PointLonLat>, lon: (nat, nat) -> real, jlat: nat, jlon: nat, y: real)
    ensures done + Row(lon, jlat, jlon + 1, y) == done + Row(lon, jlat, jlon, y) + [PointLonLat(lon(jlat, jlon), y)]
  {
    assert Row(lon, jlat, jlon + 1, y) == Row(lon, jlat, jlon, y) + [PointLonLat(lon(jlat, jlon), y)];
  }

  /** Dropping k then two numbers drops k + 2. */
  lemma DropTwo(o: seq<real>, k: nat)
    requires k + 2 <= |o|
    ensures o[k..][2..] == o[k + 2..]
  {
  }

  /** Overwriting the two numbers after a prefix extends the prefix by them. */
  lemma PairStep(pre: seq<real>, rest: seq<real>, a: real, b: real)
    requires 2 <= |rest|
    ensures (pre + rest)[|pre| := a][|pre| + 1 := b] == pre + [a, b] + rest[2..]
  {
  }

  /** One more point adds its longitude and latitude to the flat list. */
  lemma InterleavedSnoc(pts: seq<PointLonLat>, p: PointLonLat)
    ensures Interleaved(pts + [p]) == Interleaved(pts) + [p.lon, p.lat]
  {
    assert (pts + [p])[..|pts|] == pts;
  }

  /** The earlier rows hold no more points than all rows. */
  lemma {:induction false} SumPrefix(s: seq<nat>, t: nat)
    requires t < |s|
    ensures Sum(s[..t]) + s[t] == Sum(s[..t + 1]) <= Sum(s)
    decreases |s|
  {
    assert s[..t + 1][..t] == s[..t];
    if t + 1 < |s| {
      var front := s[..|s| - 1];
      assert front[..t + 1] == s[..t + 1] && front[..t] == s[..t];
      SumPrefix(front, t);
    } else {
      assert s[..t + 1] == s;
    }
  }

  /** The rows up to jlat+1 are the rows up to jlat followed by row jlat. */
  lemma RowsStep(nlons: seq<nat>, lats: seq<real>, lon: (nat, nat) -> real, jlat: nat)
    requires |nlons| == |lats| && jlat < |nlons|
    ensures Rows(nlons[..jlat + 1], lats[..jlat + 1], lon)
              == Rows(nlons[..jlat], lats[..jlat], lon) + Row(lon, jlat, nlons[jlat], lats[jlat])
  {
    assert nlons[..jlat + 1][..jlat] == nlons[..jlat];
    assert lats[..jlat + 1][..jlat] == lats[..jlat];
  }

  /**
   * The grid built from a configuration: npts_per_lat, then latitudes, must be
   * present; N is optional; the rows are set up (more than one row needed);
   * then grid_type and shortName must be present.
   */
  method Create(p: Params, lon: (nat, nat) -> real) returns (r: Result<Structured, GridError>)
    requires p.nptsPerLat.Some? && p.latitudes.Some? ==> |p.latitudes.value| <= |p.nptsPerLat.value|
    ensures p.nptsPerLat.None? ==> r == Failure(BadParameter("npts_per_lat missing in Params"))
    ensures p.nptsPerLat.Some? && p.latitudes.None? ==> r == Failure(BadParameter("latitudes missing in Params"))
    ensures p.nptsPerLat.Some? && p.latitudes.Some? && |p.latitudes.value| <= 1 ==> r == Failure(Assertion(AssertionFailed("nlat > 1")))
    ensures p.nptsPerLat.Some? && p.latitudes.Some? && |p.latitudes.value| > 1 && p.gridType.None? ==>
              r == Failure(BadParameter("grid_type missing in Params"))
    ensures p.nptsPerLat.Some? && p.latitudes.Some? && |p.latitudes.value| > 1 && p.gridType.Some? && p.shortName.None? ==>
              r == Failure(BadParameter("shortName missing in Params"))
    ensures r.Success? <==> p.nptsPerLat.Some? && p.latitudes.Some? && |p.latitudes.value| > 1 && p.gridType.Some? && p.shortName.Some?
    ensures r.Success? ==> fresh(r.value) && r.value.Valid()
    ensures r.Success? ==> r.value.lats == p.latitudes.value && r.value.nlons == p.nptsPerLat.value[..|p.latitudes.value|]
    ensures r.Success? ==> r.value.gridType == p.gridType.value && r.value.shortName == p.shortName.value
    ensures r.Success? ==> r.value.n == p.n.GetOr(0) && r.value.nlonsInt == []
  {
    var g := new Structured.Empty(lon);
    if p.nptsPerLat.None? {
      return Failure(BadParameter("npts_per_lat missing in Params"));
    }
    if p.latitudes.None? {
      return Failure(BadParameter("latitudes missing in Params"));
    }
    if p.n.Some? {
      g.n := p.n.value;
    }
    var lats := p.latitudes.value;
    var s := g.Setup(lats, p.nptsPerLat.value[..|lats|], lon);
    if s.Fail? {
      return Failure(s.error);
    }
    if p.gridType.None? {
      return Failure(BadParameter("grid_type missing in Params"));
    }
    g.gridType := p.gridType.value;
    if p.shortName.None? {
      return Failure(BadParameter("shortName missing in Params"));
    }
    g.shortName := p.shortName.value;
    return Success(g);
  }
}
