/**
 * Point-sample export of a selected sector (MesureToolRunable, and the same routines in
 * ExportImageOrElevations): choosing a sample count whose aspect follows the sector's, generating the
 * row-major grid of sample locations, reading their elevations into a sentinel-filled buffer, and copying
 * the buffer into a raster with the row flip that puts the northern row on top.
 */
module Sampling {
  import opened Wrappers
  import opened Geo
  import RasterCopy
  import EM = ElevationModel

  //////////////////////////////////////////////////////////////////////////////
  // adjustSize
  //////////////////////////////////////////////////////////////////////////////

  datatype Size = Size(width: int, height: int)

  /** Sector.getCentroid: the midpoint of the latitude and of the longitude range. */
  function Centroid(s: Sector): LatLon {
    LatLon((s.minLat + s.maxLat) / 2.0, (s.minLon + s.maxLon) / 2.0)
  }

  /** The north-south extent: the distance along the western edge. */
  function NorthSouth(s: Sector, distance: (LatLon, LatLon) -> real): real {
    distance(LatLon(s.minLat, s.minLon), LatLon(s.maxLat, s.minLon))
  }

  /** The east-west extent: the distance along the parallel through the centroid. */
  function EastWest(s: Sector, distance: (LatLon, LatLon) -> real): real {
    distance(LatLon(Centroid(s).lat, s.minLon), LatLon(Centroid(s).lat, s.maxLon))
  }

  /**
   * `(int)(min == 0 ? d : d * min / max)`: the short side for extents min <= max. A negative min over a
   * zero max is the negative infinity of the double division, which the cast takes to the least int.
   */
  function ShortSide(d: int, mn: real, mx: real): int {
    if mn == 0.0 then d
    else if mx == 0.0 then IntMin
    else CastToInt(Proportional(d, mn, mx))
  }

  /** `d * min / max`: the exact side that keeps the aspect min : max when the long side is d. */
  function Proportional(d: int, mn: real, mx: real): real
    requires mx != 0.0
  {
    d as real * mn / mx
  }

  /**
   * adjustSize: a null sector or a non-positive desired size gives desiredSize on both sides; otherwise
   * the side along the longer extent gets desiredSize and the other side ShortSide of the extents, with
   * the width the long side exactly when the east-west extent is the longer. `distance` stands for
   * LatLon.greatCircleDistance.
   */
  function AdjustSize(sector: Option<Sector>, desiredSize: int, distance: (LatLon, LatLon) -> real): (size: Size)
    ensures sector.None? || desiredSize <= 0 ==> size == Size(desiredSize, desiredSize)
    ensures sector.Some? && desiredSize > 0 ==>
              var dLat, dLon := NorthSouth(sector.value, distance), EastWest(sector.value, distance);
              (dLon > dLat ==> size.width == desiredSize)
              && (dLon <= dLat ==> size.height == desiredSize)
  {
    if sector.None? || desiredSize <= 0 then Size(desiredSize, desiredSize)
    else
      var dLat := NorthSouth(sector.value, distance);
      var dLon := EastWest(sector.value, distance);
      var mx := if dLat >= dLon then dLat else dLon;
      var mn := if dLat <= dLon then dLat else dLon;
      var minSize := ShortSide(desiredSize, mn, mx);
      if dLon > dLat then Size(desiredSize, minSize) else Size(minSize, desiredSize)
  }

  /** The side of AdjustSize's result that runs along the shorter extent of the sector. */
  function ShortSideOf(sector: Sector, desiredSize: int, distance: (LatLon, LatLon) -> real): int {
    var size := AdjustSize(Some(sector), desiredSize, distance);
    if EastWest(sector, distance) > NorthSouth(sector, distance) then size.height else size.width
  }

  /**
   * For a sector with non-negative extents the short side is between 0 and desiredSize, and it keeps the
   * aspect of the sector to within one sample: short / desiredSize <= min / max < (short + 1) / desiredSize.
   */
  lemma AdjustSizeKeepsAspect(sector: Sector, desiredSize: int, distance: (LatLon, LatLon) -> real)
    requires 0 < desiredSize <= IntMax
    requires NorthSouth(sector, distance) >= 0.0 && EastWest(sector, distance) >= 0.0
    ensures 0 <= ShortSideOf(sector, desiredSize, distance) <= desiredSize
    ensures Min(NorthSouth(sector, distance), EastWest(sector, distance)) > 0.0 ==>
              ShortSideOf(sector, desiredSize, distance) as real
              <= Proportional(desiredSize, Min(NorthSouth(sector, distance), EastWest(sector, distance)),
                              Max(NorthSouth(sector, distance), EastWest(sector, distance)))
              < ShortSideOf(sector, desiredSize, distance) as real + 1.0
    ensures Min(NorthSouth(sector, distance), EastWest(sector, distance)) == 0.0 ==>
              ShortSideOf(sector, desiredSize, distance) == desiredSize
  {
    var dLat, dLon := NorthSouth(sector, distance), EastWest(sector, distance);
    var mn, mx := Min(dLat, dLon), Max(dLat, dLon);
    assert mn == (if dLat <= dLon then dLat else dLon) && mx == (if dLat >= dLon then dLat else dLon);
    assert ShortSideOf(sector, desiredSize, distance) == ShortSide(desiredSize, mn, mx);
    ShortSideBounds(desiredSize, mn, mx);
  }

  lemma ShortSideBounds(d: int, mn: real, mx: real)
    requires 0 < d <= IntMax && 0.0 <= mn <= mx
    ensures 0 <= ShortSide(d, mn, mx) <= d
    ensures mn > 0.0 ==> ShortSide(d, mn, mx) as real <= Proportional(d, mn, mx) < ShortSide(d, mn, mx) as real + 1.0
    ensures mn == 0.0 ==> ShortSide(d, mn, mx) == d
  {
    if mn > 0.0 {
      ScaledAtMost(d, mn, mx);
      assert ShortSide(d, mn, mx) == CastToInt(Proportional(d, mn, mx));
    }
  }

  /** d * mn / mx lies in [0, d] for 0 < mn <= mx. */
  lemma ScaledAtMost(d: nat, mn: real, mx: real)
    requires 0.0 < mn <= mx
    ensures 0.0 <= Proportional(d, mn, mx) <= d as real
  {
    var ratio := mn / mx;
    assert 0.0 < ratio <= 1.0;
    assert d as real * mn / mx == d as real * ratio;
    MulMonotone(ratio, 1.0, d as real);
  }

  //////////////////////////////////////////////////////////////////////////////
  // readElevations: the sample grid
  //////////////////////////////////////////////////////////////////////////////

  /**
   * `(max - min) / (n - 1)`: the step between n samples spanning [min, max]. For n == 1 the Java division
   * gives a non-finite double that no emitted sample uses; it is 0 here.
   */
  function Step(min: real, max: real, n: int): real {
    if n != 1 then (max - min) / (n - 1) as real else 0.0
  }

  /** The location of sample (y, x): y steps north of the southern edge and x steps east of the western edge. */
  function SamplePoint(s: Sector, width: int, height: int, y: nat, x: nat): LatLon {
    LatLon(s.minLat + y as real * Step(s.minLat, s.maxLat, height),
           s.minLon + x as real * Step(s.minLon, s.maxLon, width))
  }

  /**
   * In exact arithmetic the grid spans the sector: the first row and column lie on the southern and
   * western edges, the last row and column on the northern and eastern edges.
   */
  lemma GridSpansSector(s: Sector, width: int, height: int, y: nat, x: nat)
    ensures y == 0 ==> SamplePoint(s, width, height, y, x).lat == s.minLat
    ensures x == 0 ==> SamplePoint(s, width, height, y, x).lon == s.minLon
    ensures height >= 2 && y == height - 1 ==> SamplePoint(s, width, height, y, x).lat == s.maxLat
    ensures width >= 2 && x == width - 1 ==> SamplePoint(s, width, height, y, x).lon == s.maxLon
  {
  }

  /** The number of samples the loops emit: width * height when both are positive, none otherwise. */
  function GridSize(width: int, height: int): nat {
    if width > 0 && height > 0 then width * height else 0
  }

  /** The samples of rows 0 .. y - 1 sit at their row-major indices. */
  ghost predicate RowsDone(latlons: seq<Option<LatLon>>, s: Sector, width: int, height: int, y: int, x: int)
  {
    forall yy, xx :: 0 <= yy && 0 <= xx < width && (yy < y || (yy == y && xx < x)) ==>
      RasterCopy.TopDownIndex(yy, xx, width) < |latlons|
      && latlons[RasterCopy.TopDownIndex(yy, xx, width)] == Some(SamplePoint(s, width, height, yy, xx))
  }

  /**
   * The loops of readElevations: `latlons.add(...)` for y from 0 (southern row) and x from 0, with `lat`
   * and `lon` accumulating a step per sample; the reassignment to latMax / lonMax after the last row or
   * column happens after the last sample that uses it. Sample (y, x) lands at index y * width + x.
   */
  method SampleGrid(s: Sector, width: int, height: int) returns (latlons: seq<Option<LatLon>>)
    ensures |latlons| == GridSize(width, height)
    ensures forall y, x :: 0 <= y < height && 0 <= x < width ==>
              RasterCopy.TopDownIndex(y, x, width) < |latlons|
              && latlons[RasterCopy.TopDownIndex(y, x, width)] == Some(SamplePoint(s, width, height, y, x))
  {
    var dLat := Step(s.minLat, s.maxLat, height);
    var w: nat := if width > 0 then width else 0;
    latlons := [];
    var lat := s.minLat;
    var y := 0;
    while y < height
      invariant 0 <= y <= (if height > 0 then height else 0) && |latlons| == y * w
      invariant y < height ==> lat == s.minLat + y as real * dLat
      invariant RowsDone(latlons, s, width, height, y, 0)
    {
      latlons := SampleRow(s, width, height, y, lat, latlons);
      RasterCopy.NextRow(y, w);
      lat := if y == height - 1 then s.maxLat else lat + dLat;
      y := y + 1;
    }
  }

  /** The inner loop of the grid: the samples of row y, west to east, appended to the earlier rows. */
  method SampleRow(s: Sector, width: int, height: int, y: nat, lat: real, prefix: seq<Option<LatLon>>)
    returns (latlons: seq<Option<LatLon>>)
    requires lat == s.minLat + y as real * Step(s.minLat, s.maxLat, height)
    requires |prefix| == y * (if width > 0 then width else 0)
    requires RowsDone(prefix, s, width, height, y, 0)
    ensures |latlons| == |prefix| + (if width > 0 then width else 0)
    ensures RowsDone(latlons, s, width, height, y + 1, 0)
  {
    var dLon := Step(s.minLon, s.maxLon, width);
    latlons := prefix;
    var lon := s.minLon;
    var x := 0;
    while x < width
      invariant 0 <= x <= (if width > 0 then width else 0) && |latlons| == |prefix| + x
      invariant x < width ==> lon == s.minLon + x as real * dLon
      invariant RowsDone(latlons, s, width, height, y, x)
    {
      ghost var before := latlons;
      assert RasterCopy.TopDownIndex(y, x, width) == |latlons|;
      assert LatLon(lat, lon) == SamplePoint(s, width, height, y, x);
      latlons := latlons + [Some(LatLon(lat, lon))];
      assert RowsDone(latlons, s, width, height, y, x + 1) by {
        forall yy, xx | 0 <= yy && 0 <= xx < width && (yy < y || (yy == y && xx < x + 1))
          ensures RasterCopy.TopDownIndex(yy, xx, width) < |latlons|
                  && latlons[RasterCopy.TopDownIndex(yy, xx, width)] == Some(SamplePoint(s, width, height, yy, xx))
        {
          if yy < y || xx < x {
            assert RasterCopy.TopDownIndex(yy, xx, width) < |before|;
          }
        }
      }
      lon := if x == width - 1 then s.maxLon else lon + dLon;
      x := x + 1;
    }
    assert RowsDone(latlons, s, width, height, y, x);
  }

  //////////////////////////////////////////////////////////////////////////////
  // readElevations: the sentinel-filled buffer
  //////////////////////////////////////////////////////////////////////////////

  /** `(double) Short.MIN_VALUE`, the fill value of the buffer and the raster's missing-data signal. */
  const Sentinel: real := EM.ShortMinValue

  /** The composition of the grid fails: the guard on the tile width, the zero width, or the retrieval. */
  predicate ComposeFails(m: EM.WmsElevationModel, s: Sector, width: int, n: nat)
    requires m.levels.Valid()
  {
    width > n || width == 0
    || m.retrieve(EM.CompositionTile(s, m.levels.LastLevel(), width, JavaDiv(n, width))).Err?
  }

  /**
   * readElevations: a null sector is the NullPointerException of its first dereference, and a negative
   * int product `width * height` (32 bits, wrapping) the IllegalArgumentException of the ArrayList
   * capacity, both thrown before the `try`. Otherwise the grid's elevations are composed into a buffer
   * pre-filled with the sentinel; any exception of the composition gives null instead of a partial buffer.
   */
  method ReadElevations(m: EM.WmsElevationModel, sector: Option<Sector>, width: int, height: int)
    returns (r: Result<Option<seq<real>>>, ghost latlons: seq<Option<LatLon>>)
    requires m.levels.Valid()
    ensures sector.None? ==> r == Err(NullPointer)
    ensures sector.Some? && Wrap32(width * height) < 0 ==> r == Err(IllegalArgument)
    ensures sector.Some? && Wrap32(width * height) >= 0 ==>
      r.Ok?
      && |latlons| == GridSize(width, height)
      && (forall y, x :: 0 <= y < height && 0 <= x < width ==>
            RasterCopy.TopDownIndex(y, x, width) < |latlons|
            && latlons[RasterCopy.TopDownIndex(y, x, width)] == Some(SamplePoint(sector.value, width, height, y, x)))
      && (r.value.None? <==> ComposeFails(m, sector.value, width, |latlons|))
      && (r.value.Some? ==>
            var tile := EM.CompositionTile(sector.value, m.levels.LastLevel(), width, JavaDiv(|latlons|, width));
            r.value.value == EM.SparseOverwrite(seq(|latlons|, _ => Sentinel),
                                                 EM.Samples(m, tile, m.retrieve(tile).value, latlons),
                                                 m.missingDataSignal))
  {
    if sector.None? {
      return Err(NullPointer), [];
    }
    if Wrap32(width * height) < 0 {
      return Err(IllegalArgument), [];
    }
    var points := SampleGrid(sector.value, width, height);
    latlons := points;
    var elevations := new real[|points|](_ => 0.0);
    var i := 0;
    while i < elevations.Length
      invariant 0 <= i <= elevations.Length
      invariant forall k :: 0 <= k < i ==> elevations[k] == Sentinel
    {
      elevations[i] := Sentinel;
      i := i + 1;
    }
    assert elevations[..] == seq(|points|, _ => Sentinel);
    var composed := EM.ComposeElevations(m, sector, Some(points), width, elevations);
    if composed.Err? {
      return Ok(None), latlons;
    }
    return Ok(Some(elevations[..])), latlons;
  }

  /**
   * After the pre-fill, a position holds the sentinel exactly when no usable sample reached it or the
   * sample itself equals the sentinel; so the sentinel the raster declares as missing data marks every
   * position without elevation.
   */
  lemma SentinelMarksMissing(n: nat, samples: seq<Option<real>>, missing: real)
    requires |samples| <= n
    ensures var e := EM.SparseOverwrite(seq(n, _ => Sentinel), samples, missing);
            forall k :: 0 <= k < n ==>
              (e[k] == Sentinel <==> k >= |samples| || samples[k].None? || samples[k].value == missing
                                     || samples[k].value == Sentinel)
  {
  }

  //////////////////////////////////////////////////////////////////////////////
  // writeElevationsToFile (MesureToolRunable)
  //////////////////////////////////////////////////////////////////////////////

  /**
   * The writer of MesureToolRunable: the header declares the sector, the size and the sentinel as the
   * missing-data signal, and the copy runs bottom-up (`for y = height - 1 down to 0`), as
   * RasterCopy.CopyBottomUp says.
   */
  method WriteElevationsToFile(sector: Sector, width: nat, height: nat, elevations: Option<seq<real>>)
    returns (r: Result<array2<real>>, header: EM.RasterHeader)
    ensures header == EM.RasterHeader(sector, width, height, Sentinel)
    ensures r.Err? <==> width * height > 0 && (elevations.None? || |elevations.value| < width * height)
    ensures r.Err? ==> r.error == if elevations.None? then NullPointer else IndexOutOfBounds
    ensures r.Ok? ==> fresh(r.value) && r.value.Length0 == height && r.value.Length1 == width
    ensures r.Ok? && width * height > 0 ==>
              forall y, x :: 0 <= y < height && 0 <= x < width ==>
                RasterCopy.BottomUpIndex(y, x, width, height) < |elevations.value|
                && r.value[y, x] == elevations.value[RasterCopy.BottomUpIndex(y, x, width, height)]
  {
    header := EM.RasterHeader(sector, width, height, Sentinel);
    r := RasterCopy.CopyBottomUp(elevations, width, height);
  }

  /**
   * Orientation of the bottom-up copy of the sample grid: raster row y (row 0 is the northern edge of the
   * raster) receives the samples taken y steps south of the northern edge, column x those x steps east of
   * the western edge.
   */
  lemma {:induction false} BottomUpPutsNorthOnTop(s: Sector, width: nat, height: nat, y: nat, x: nat)
    requires y < height && x < width && height >= 2
    ensures var k := RasterCopy.BottomUpIndex(y, x, width, height);
            var p := SamplePoint(s, width, height, k / width, k % width);
            p.lat == s.maxLat - y as real * Step(s.minLat, s.maxLat, height)
            && p.lon == s.minLon + x as real * Step(s.minLon, s.maxLon, width)
  {
    RasterCopy.BottomUpBijection(y, x, 0, width, height);
    var dLat := Step(s.minLat, s.maxLat, height);
    assert (height - 1) as real * dLat == s.maxLat - s.minLat;
    assert (height - 1 - y) as real * dLat == (height - 1) as real * dLat - y as real * dLat;
  }
}
