/**
 * The loops that copy a row-major sequence of elevations into a width x height raster before it is written
 * as a GeoTIFF. Raster row 0 is the northern edge of the raster's sector. Two index mappings occur: the
 * top-down copy (ExportElevationBuffer.doSave, ExportImageOrElevations.writeElevationsToFile) puts the
 * k-th value at row k / width, the bottom-up copy (MesureToolRunable.writeElevationsToFile) at row
 * height - 1 - k / width; both at column k % width.
 */
module RasterCopy {
  import opened Wrappers

  /** The running index of the top-down copy when it reaches raster cell (y, x). */
  function TopDownIndex(y: nat, x: nat, width: nat): nat { y * width + x }

  /** The running index of the bottom-up copy when it reaches raster cell (y, x). */
  function BottomUpIndex(y: nat, x: nat, width: nat, height: nat): nat
    requires y < height
  {
    (height - 1 - y) * width + x
  }

  /**
   * The top-down mapping is a bijection between the raster cells and the indices below width * height:
   * each index k lands on cell (k / width, k % width) and nowhere else.
   */
  lemma TopDownBijection(y: nat, x: nat, k: nat, width: nat, height: nat)
    requires x < width
    ensures y < height ==> TopDownIndex(y, x, width) < width * height
    ensures k < width * height ==> k / width < height && TopDownIndex(k / width, k % width, width) == k
    ensures TopDownIndex(y, x, width) / width == y && TopDownIndex(y, x, width) % width == x
  {
    if y < height {
      assert y * width + x < (y + 1) * width <= height * width by {
        MulLeq(y + 1, height, width);
      }
    }
    if k < width * height {
      DivBelowProduct(k, width, height);
    }
    DivModUnique(y * width + x, width, y, x);
  }

  /**
   * The bottom-up mapping is a bijection too, with the rows reversed: index k lands on cell
   * (height - 1 - k / width, k % width), so the first width values fill the last (southern) raster row.
   */
  lemma BottomUpBijection(y: nat, x: nat, k: nat, width: nat, height: nat)
    requires x < width && y < height
    ensures BottomUpIndex(y, x, width, height) < width * height
    ensures k < width * height ==>
              k / width < height && BottomUpIndex(height - 1 - k / width, k % width, width, height) == k
    ensures BottomUpIndex(y, x, width, height) / width == height - 1 - y
            && BottomUpIndex(y, x, width, height) % width == x
  {
    TopDownBijection(height - 1 - y, x, k, width, height);
  }

  /** Cell (rr, cc) comes before cell (row, col) in row-major order. */
  predicate Before(rr: int, cc: int, row: int, col: int) {
    rr < row || (rr == row && cc < col)
  }

  /** Row-major order is the order of the top-down indices. */
  lemma BeforeIndex(rr: nat, cc: nat, row: nat, col: nat, width: nat)
    requires cc < width && col < width
    ensures Before(rr, cc, row, col) <==> TopDownIndex(rr, cc, width) < TopDownIndex(row, col, width)
  {
    if rr < row {
      MulLeq(rr + 1, row, width);
      NextRow(rr, width);
    } else if row < rr {
      MulLeq(row + 1, rr, width);
      NextRow(row, width);
    }
  }

  lemma MulLeq(a: nat, b: nat, c: nat)
    requires a <= b
    ensures a * c <= b * c
  {
    var d := b - a;
    assert b * c == a * c + d * c;
  }

  lemma DivBelowProduct(k: nat, width: nat, height: nat)
    requires k < width * height
    ensures width > 0 && k / width < height && (k / width) * width + k % width == k
  {
    assert width > 0;
    var q := k / width;
    assert q * width <= k;
    if q >= height {
      MulLeq(height, q, width);
      assert false;
    }
  }

  /** Euclidean division is unique: y * width + x with x < width has quotient y and remainder x. */
  lemma DivModUnique(k: nat, width: nat, y: nat, x: nat)
    requires x < width && k == y * width + x
    ensures k / width == y && k % width == x
  {
    var q, m := k / width, k % width;
    assert q * width + m == y * width + x;
    assert (q - y) * width == x - m;
    ZeroFactor(q - y, width);
  }

  /** A multiple of w strictly between -w and w is zero. */
  lemma ZeroFactor(a: int, w: int)
    requires w > 0 && -w < a * w < w
    ensures a == 0
  {
    if a > 0 {
      AtLeastOnce(a, w);
      assert false;
    } else if a < 0 {
      AtLeastOnce(-a, w);
      assert false;
    }
  }

  lemma AtLeastOnce(a: int, w: int)
    requires a >= 1 && w > 0
    ensures a * w >= w
  {
    assert a * w == (a - 1) * w + w;
  }

  /** Finishing a row of the copy reaches the start of the next: y * width + width == (y + 1) * width. */
  lemma NextRow(y: int, width: int)
    ensures y * width + width == (y + 1) * width
  {
  }

  /** Every cell's top-down index is below width * height. */
  lemma TopDownInRange(width: nat, height: nat)
    ensures forall y, x :: 0 <= y < height && 0 <= x < width ==> TopDownIndex(y, x, width) < width * height
  {
    forall y, x | 0 <= y < height && 0 <= x < width
      ensures TopDownIndex(y, x, width) < width * height
    {
      TopDownBijection(y, x, 0, width, height);
    }
  }

  /** Every cell's bottom-up index is below width * height. */
  lemma BottomUpInRange(width: nat, height: nat)
    ensures forall y, x :: 0 <= y < height && 0 <= x < width ==> BottomUpIndex(y, x, width, height) < width * height
  {
    forall y, x | 0 <= y < height && 0 <= x < width
      ensures BottomUpIndex(y, x, width, height) < width * height
    {
      BottomUpBijection(y, x, 0, width, height);
    }
  }

  /** The k-th value, or 0.0 where there is none; used only to state what the loops have copied so far. */
  function ValueAt(values: Option<seq<real>>, k: nat): real {
    if values.Some? && k < |values.value| then values.value[k] else 0.0
  }

  /**
   * The inner loop of both copies: `raster[y][x] = elevations[i++]` for x from 0 across row y, starting at
   * running index `start`. It fails (returns false) when the array is null or runs out before the row ends.
   */
  method CopyRow(values: Option<seq<real>>, raster: array2<real>, y: nat, start: nat) returns (ok: bool)
    requires y < raster.Length0
    modifies raster
    ensures ok <==> raster.Length1 == 0 || (values.Some? && start + raster.Length1 <= |values.value|)
    ensures ok ==> forall yy, xx :: 0 <= yy < raster.Length0 && 0 <= xx < raster.Length1 ==>
                     raster[yy, xx] == if yy == y then ValueAt(values, start + xx) else old(raster[yy, xx])
  {
    var i := start;
    var x := 0;
    while x < raster.Length1
      invariant 0 <= x <= raster.Length1 && i == start + x
      invariant x > 0 ==> values.Some? && i <= |values.value|
      invariant forall yy, xx :: 0 <= yy < raster.Length0 && 0 <= xx < raster.Length1 ==>
                  raster[yy, xx] == if yy == y && xx < x then ValueAt(values, start + xx) else old(raster[yy, xx])
    {
      if values.None? || i >= |values.value| {
        return false;
      }
      raster[y, x] := values.value[i];
      i := i + 1;
      x := x + 1;
    }
    return true;
  }

  /**
   * The top-down copy: `raster[y][x] = elevations[i++]` for y from 0 and x from 0. A null array is a
   * NullPointerException and a short one an ArrayIndexOutOfBoundsException, both only once the loop
   * dereferences it, that is when the raster has a cell.
   */
  method CopyTopDown(values: Option<seq<real>>, width: nat, height: nat) returns (r: Result<array2<real>>)
    ensures r.Err? <==> width * height > 0 && (values.None? || |values.value| < width * height)
    ensures r.Err? ==> r.error == if values.None? then NullPointer else IndexOutOfBounds
    ensures r.Ok? ==> fresh(r.value) && r.value.Length0 == height && r.value.Length1 == width
    ensures r.Ok? && width * height > 0 ==>
              forall y, x :: 0 <= y < height && 0 <= x < width ==>
                TopDownIndex(y, x, width) < |values.value| && r.value[y, x] == values.value[TopDownIndex(y, x, width)]
  {
    var raster := new real[height, width]((y, x) => 0.0);
    var i: nat := 0;
    var y := 0;
    while y < height
      invariant 0 <= y <= height && i == y * width
      invariant y > 0 && width > 0 ==> values.Some? && i <= |values.value|
      invariant forall yy, xx :: 0 <= yy < y && 0 <= xx < width ==>
                  raster[yy, xx] == ValueAt(values, TopDownIndex(yy, xx, width))
    {
      var ok := CopyRow(values, raster, y, i);
      if !ok {
        MulLeq(y + 1, height, width);
        return Err(if values.None? then NullPointer else IndexOutOfBounds);
      }
      NextRow(y, width);
      i := i + width;
      y := y + 1;
    }
    if width * height > 0 {
      TopDownInRange(width, height);
    }
    return Ok(raster);
  }

  /**
   * The bottom-up copy: `raster[y][x] = elevations[i++]` for y from height - 1 down to 0 and x from 0,
   * with the same failures as the top-down copy.
   */
  method CopyBottomUp(values: Option<seq<real>>, width: nat, height: nat) returns (r: Result<array2<real>>)
    ensures r.Err? <==> width * height > 0 && (values.None? || |values.value| < width * height)
    ensures r.Err? ==> r.error == if values.None? then NullPointer else IndexOutOfBounds
    ensures r.Ok? ==> fresh(r.value) && r.value.Length0 == height && r.value.Length1 == width
    ensures r.Ok? && width * height > 0 ==>
              forall y, x :: 0 <= y < height && 0 <= x < width ==>
                BottomUpIndex(y, x, width, height) < |values.value|
                && r.value[y, x] == values.value[BottomUpIndex(y, x, width, height)]
  {
    var raster := new real[height, width]((y, x) => 0.0);
    var i: nat := 0;
    var y := height - 1;
    while y >= 0
      invariant -1 <= y <= height - 1 && i == (height - 1 - y) * width
      invariant y < height - 1 && width > 0 ==> values.Some? && i <= |values.value|
      invariant forall yy, xx :: y < yy < height && 0 <= xx < width ==>
                  raster[yy, xx] == ValueAt(values, BottomUpIndex(yy, xx, width, height))
    {
      var ok := CopyRow(values, raster, y, i);
      if !ok {
        MulLeq(height - y, height, width);
        return Err(if values.None? then NullPointer else IndexOutOfBounds);
      }
      NextRow(height - 1 - y, width);
      i := i + width;
      y := y - 1;
    }
    if width * height > 0 {
      BottomUpInRange(width, height);
    }
    return Ok(raster);
  }
}
