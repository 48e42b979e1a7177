/**
 * Geographic primitives: a point and an axis-aligned latitude/longitude rectangle ("sector") in degrees,
 * the intersection and bounding box of sectors, and the equal-angle N x N partition of a sector that
 * both exporters use.
 */
module Geo {
  import opened Wrappers

  datatype LatLon = LatLon(lat: real, lon: real)

  datatype Sector = Sector(minLat: real, maxLat: real, minLon: real, maxLon: real) {
    function DeltaLat(): real { maxLat - minLat }
    function DeltaLon(): real { maxLon - minLon }

    /** The bounds are ordered; every sector a caller selects satisfies this. */
    predicate WellFormed() { minLat <= maxLat && minLon <= maxLon }

    /** Both extents are positive, as for every tile sector of a tile pyramid. */
    predicate HasArea() { minLat < maxLat && minLon < maxLon }

    /** The sector lies within the latitude and longitude ranges of the globe. */
    predicate OnGlobe() { -90.0 <= minLat && maxLat <= 90.0 && -180.0 <= minLon && maxLon <= 180.0 }

    predicate ContainsSector(that: Sector) {
      minLat <= that.minLat && that.maxLat <= maxLat && minLon <= that.minLon && that.maxLon <= maxLon
    }
  }

  function Max(a: real, b: real): real { if a < b then b else a }
  function Min(a: real, b: real): real { if a > b then b else a }

  /**
   * The common part of two sectors, None when they do not meet (the null of Sector.intersection).
   * Sectors that only touch along an edge meet in a degenerate sector.
   */
  function Intersection(a: Sector, b: Sector): (r: Option<Sector>)
    ensures r.Some? ==> a.ContainsSector(r.value) && b.ContainsSector(r.value) && r.value.WellFormed()
    ensures r.Some? ==> forall c: Sector :: a.ContainsSector(c) && b.ContainsSector(c) ==> r.value.ContainsSector(c)
    ensures r.None? ==> forall c: Sector :: c.WellFormed() ==> !(a.ContainsSector(c) && b.ContainsSector(c))
  {
    var minLat, maxLat := Max(a.minLat, b.minLat), Min(a.maxLat, b.maxLat);
    var minLon, maxLon := Max(a.minLon, b.minLon), Min(a.maxLon, b.maxLon);
    if minLat > maxLat || minLon > maxLon then None else Some(Sector(minLat, maxLat, minLon, maxLon))
  }

  predicate Intersects(a: Sector, b: Sector) { Intersection(a, b).Some? }

  //////////////////////////////////////////////////////////////////////////////
  // Bounding box of a list of sectors
  //////////////////////////////////////////////////////////////////////////////

  /** The starting box of the min/max fold: every bound is at the opposite edge of the globe. */
  const EmptyBounds := Sector(90.0, -90.0, 180.0, -180.0)

  /** One step of the fold: each bound moves out only when the sector lies strictly beyond it. */
  function Extend(b: Sector, s: Sector): Sector {
    Sector(if s.minLat < b.minLat then s.minLat else b.minLat,
           if s.maxLat > b.maxLat then s.maxLat else b.maxLat,
           if s.minLon < b.minLon then s.minLon else b.minLon,
           if s.maxLon > b.maxLon then s.maxLon else b.maxLon)
  }

  /** The min/max fold over the sectors, left to right. */
  function Bounds(ss: seq<Sector>): Sector
  {
    if |ss| == 0 then EmptyBounds else Extend(Bounds(ss[..|ss| - 1]), ss[|ss| - 1])
  }

  /** Every sector of the list lies inside the fold's box, and the box never leaves the globe. */
  lemma {:induction false} BoundsEnclose(ss: seq<Sector>)
    ensures forall i :: 0 <= i < |ss| ==> Bounds(ss).ContainsSector(ss[i])
    ensures Bounds(ss).minLat <= 90.0 && Bounds(ss).maxLat >= -90.0
    ensures Bounds(ss).minLon <= 180.0 && Bounds(ss).maxLon >= -180.0
  {
    if |ss| > 0 {
      BoundsEnclose(ss[..|ss| - 1]);
      forall i | 0 <= i < |ss| - 1 ensures Bounds(ss).ContainsSector(ss[i]) {
        assert ss[i] == ss[..|ss| - 1][i];
      }
    }
  }

  /**
   * For a non-empty list of well-formed sectors on the globe, each bound of the fold's box is attained
   * by some sector: the box is exactly the tightest box around the list (Sector.union).
   */
  lemma {:induction false} BoundsAttained(ss: seq<Sector>)
    requires |ss| > 0
    requires forall i :: 0 <= i < |ss| ==> ss[i].WellFormed() && ss[i].OnGlobe()
    ensures exists i :: 0 <= i < |ss| && Bounds(ss).minLat == ss[i].minLat
    ensures exists i :: 0 <= i < |ss| && Bounds(ss).maxLat == ss[i].maxLat
    ensures exists i :: 0 <= i < |ss| && Bounds(ss).minLon == ss[i].minLon
    ensures exists i :: 0 <= i < |ss| && Bounds(ss).maxLon == ss[i].maxLon
    ensures Bounds(ss).WellFormed() && Bounds(ss).OnGlobe()
  {
    var n := |ss| - 1;
    var prefix := ss[..n];
    var last := ss[n];
    if n == 0 {
      assert Bounds(ss) == Extend(EmptyBounds, last);
    } else {
      forall i | 0 <= i < |prefix| ensures prefix[i].WellFormed() && prefix[i].OnGlobe() {
        assert prefix[i] == ss[i];
      }
      BoundsAttained(prefix);
      var i1 :| 0 <= i1 < |prefix| && Bounds(prefix).minLat == prefix[i1].minLat;
      var i2 :| 0 <= i2 < |prefix| && Bounds(prefix).maxLat == prefix[i2].maxLat;
      var i3 :| 0 <= i3 < |prefix| && Bounds(prefix).minLon == prefix[i3].minLon;
      var i4 :| 0 <= i4 < |prefix| && Bounds(prefix).maxLon == prefix[i4].maxLon;
      assert prefix[i1] == ss[i1] && prefix[i2] == ss[i2] && prefix[i3] == ss[i3] && prefix[i4] == ss[i4];
      BoundsEnclose(prefix);
      assert prefix[0] == ss[0];
      assert Bounds(prefix).ContainsSector(ss[0]);
    }
  }

  //////////////////////////////////////////////////////////////////////////////
  // Equal-angle partition of a sector into n x n cells
  //////////////////////////////////////////////////////////////////////////////

  /** `(hi - lo) / n`: the extent of one of n equal steps across [lo, hi]. */
  function StepWidth(lo: real, hi: real, n: nat): real
    requires n > 0
  {
    (hi - lo) / n as real
  }

  /** `lo + k * step`: where step k of n equal steps across [lo, hi] starts. */
  function StepStart(lo: real, hi: real, n: nat, k: nat): real
    requires n > 0
  {
    lo + k as real * StepWidth(lo, hi, n)
  }

  /**
   * Cell (row, col) of the n x n partition: its south-west corner is row steps of deltaLat/n north and
   * col steps of deltaLon/n east of the sector's south-west corner, and it spans one step each way.
   */
  function Cell(s: Sector, n: nat, row: nat, col: nat): Sector
    requires n > 0
  {
    var minLat := StepStart(s.minLat, s.maxLat, n, row);
    var minLon := StepStart(s.minLon, s.maxLon, n, col);
    Sector(minLat, minLat + StepWidth(s.minLat, s.maxLat, n), minLon, minLon + StepWidth(s.minLon, s.maxLon, n))
  }

  /**
   * In exact arithmetic the cells tile the sector edge to edge: neighbouring cells share their edge,
   * the first row and column start on the sector's south and west edges, the last ones end on its
   * north and east edges, and every cell is inside the sector.
   */
  lemma CellsTileSector(s: Sector, n: nat, row: nat, col: nat)
    requires n > 0 && row < n && col < n && s.WellFormed()
    ensures row + 1 < n ==> Cell(s, n, row, col).maxLat == Cell(s, n, row + 1, col).minLat
    ensures col + 1 < n ==> Cell(s, n, row, col).maxLon == Cell(s, n, row, col + 1).minLon
    ensures row == 0 ==> Cell(s, n, row, col).minLat == s.minLat
    ensures col == 0 ==> Cell(s, n, row, col).minLon == s.minLon
    ensures row == n - 1 ==> Cell(s, n, row, col).maxLat == s.maxLat
    ensures col == n - 1 ==> Cell(s, n, row, col).maxLon == s.maxLon
    ensures s.ContainsSector(Cell(s, n, row, col)) && Cell(s, n, row, col).WellFormed()
  {
    StepsTile(s.minLat, s.maxLat, n, row);
    StepsTile(s.minLon, s.maxLon, n, col);
  }

  /**
   * The one-dimensional fact behind CellsTileSector: step k of n across [lo, hi] lies inside [lo, hi],
   * ends where step k + 1 starts, the first starts at lo and the last ends at hi.
   */
  lemma StepsTile(lo: real, hi: real, n: nat, k: nat)
    requires n > 0 && k < n && lo <= hi
    ensures 0.0 <= StepWidth(lo, hi, n)
    ensures lo <= StepStart(lo, hi, n, k) && StepStart(lo, hi, n, k) + StepWidth(lo, hi, n) <= hi
    ensures StepStart(lo, hi, n, k) + StepWidth(lo, hi, n) == StepStart(lo, hi, n, k + 1)
    ensures k == 0 ==> StepStart(lo, hi, n, k) == lo
    ensures k == n - 1 ==> StepStart(lo, hi, n, k) + StepWidth(lo, hi, n) == hi
  {
    var N := n as real;
    var d := StepWidth(lo, hi, n);
    assert N * d == hi - lo;
    assert 0.0 <= d;
    assert (k + 1) as real * d == k as real * d + d;
    assert (n - 1) as real * d + d == N * d;
    assert k as real * d + d <= N * d by {
      assert (k + 1) as real <= N;
      MulMonotone((k + 1) as real, N, d);
    }
    assert 0.0 <= k as real * d;
  }

  lemma MulMonotone(a: real, b: real, c: real)
    requires a <= b && 0.0 <= c
    ensures a * c <= b * c
  {
  }

  //////////////////////////////////////////////////////////////////////////////
  // Number of parts per side of a partition with a size ceiling
  //////////////////////////////////////////////////////////////////////////////

  /** `(int)(maxSide / limit) + 1` for a non-negative size: parts per side so that each part is below the limit. */
  function NumParts(maxSide: nat, limit: nat): (n: nat)
    requires limit > 0
    ensures n >= 1
  {
    maxSide / limit + 1
  }

  /**
   * Dividing any side no longer than maxSide into NumParts(maxSide, limit) equal integer parts leaves each
   * part below the limit, and one part fewer would not: NumParts is the least such count.
   */
  lemma {:induction false} NumPartsBound(side: nat, maxSide: nat, limit: nat)
    requires limit > 0 && side <= maxSide
    ensures side / NumParts(maxSide, limit) < limit
    ensures NumParts(maxSide, limit) > 1 ==> maxSide / (NumParts(maxSide, limit) - 1) >= limit
  {
    var n := NumParts(maxSide, limit);
    var q := maxSide / limit;
    assert maxSide < limit * n by {
      assert maxSide == limit * q + maxSide % limit;
      assert limit * n == limit * q + limit;
    }
    DivBelow(side, n, limit);
    if n > 1 {
      assert limit * q <= maxSide;
      DivAtLeast(maxSide, q, limit);
    }
  }

  /** side < limit * n, so the integer quotient side / n is below limit. */
  lemma DivBelow(side: nat, n: nat, limit: nat)
    requires n > 0 && side < limit * n
    ensures side / n < limit
  {
    var d := side / n;
    assert d * n <= side;
    PositiveFactor(limit - d, n);
  }

  /** limit * q <= x, so x / q is at least limit. */
  lemma DivAtLeast(x: nat, q: nat, limit: nat)
    requires q > 0 && limit * q <= x
    ensures x / q >= limit
  {
    var d := x / q;
    assert x < (d + 1) * q;
    PositiveFactor(d + 1 - limit, q);
  }

  /** A product with a positive factor is positive only when the other factor is. */
  lemma PositiveFactor(a: int, n: int)
    requires n > 0 && a * n > 0
    ensures a > 0
  {
  }
}
