/**
 * Elevation composition of WMSBasicElevationModel: filling a caller's buffer with the elevations of a
 * list of locations (composeElevations with a list), partitioning a selected sector into export tiles of
 * at most 2047 x 2047 samples (composeElevations with a sector and computeSectorToTile), and the
 * ExportElevationBuffer that writes one such tile as a raster.
 */
module ElevationModel {
  import opened Wrappers
  import opened Geo
  import opened Text
  import TileGrid
  import RasterCopy

  /** An ElevationCompositionTile: a sector sampled at the last level into a width x height raster. */
  datatype CompositionTile = CompositionTile(sector: Sector, level: TileGrid.Level, width: int, height: int)

  /**
   * The parts of a WMSBasicElevationModel the composition reads. `retrieve` stands for downloadElevations
   * followed by readElevations of the downloaded file (an HTTP request and a file read), giving the tile's
   * samples north row first, or the exception either raises; `lookup` stands for lookupElevation on the
   * composed tile.
   */
  datatype WmsElevationModel = WmsElevationModel(
    levels: TileGrid.LevelSet,
    missingDataSignal: real,
    retrieve: CompositionTile -> Result<seq<real>>,
    lookup: (CompositionTile, seq<real>, LatLon) -> real)

  //////////////////////////////////////////////////////////////////////////////
  // composeElevations(sector, latlons, tileWidth, buffer)
  //////////////////////////////////////////////////////////////////////////////

  /** The elevation looked up for each location of the list; None for a null location. */
  function Samples(m: WmsElevationModel, tile: CompositionTile, data: seq<real>, latlons: seq<Option<LatLon>>)
    : (r: seq<Option<real>>)
    ensures |r| == |latlons|
    ensures forall i :: 0 <= i < |latlons| ==> (r[i].Some? <==> latlons[i].Some?)
  {
    seq(|latlons|, i requires 0 <= i < |latlons| =>
      if latlons[i].Some? then Some(m.lookup(tile, data, latlons[i].value)) else None)
  }

  /**
   * The buffer after the composition: position i takes the i-th sample when there is one and it is not
   * the missing-data signal, and keeps what the caller put there otherwise.
   */
  function SparseOverwrite(buffer: seq<real>, samples: seq<Option<real>>, missing: real): (r: seq<real>)
    requires |samples| <= |buffer|
    ensures |r| == |buffer|
  {
    seq(|buffer|, i requires 0 <= i < |buffer| =>
      if i < |samples| && samples[i].Some? && samples[i].value != missing then samples[i].value else buffer[i])
  }

  /**
   * What the composition promises its caller: a position changes only to an available sample, every
   * available sample is written, the missing-data signal is never written over a value, so a position
   * pre-filled with a sentinel keeps it exactly where no sample is available; composing twice is
   * composing once.
   */
  lemma SparseOverwriteMeaning(buffer: seq<real>, samples: seq<Option<real>>, missing: real)
    requires |samples| <= |buffer|
    ensures forall i :: 0 <= i < |buffer| && SparseOverwrite(buffer, samples, missing)[i] != buffer[i] ==>
              i < |samples| && samples[i] == Some(SparseOverwrite(buffer, samples, missing)[i])
              && samples[i].value != missing
    ensures forall i :: 0 <= i < |samples| && samples[i].Some? && samples[i].value != missing ==>
              SparseOverwrite(buffer, samples, missing)[i] == samples[i].value
    ensures forall i :: 0 <= i < |buffer| && SparseOverwrite(buffer, samples, missing)[i] == missing ==>
              buffer[i] == missing
    ensures SparseOverwrite(SparseOverwrite(buffer, samples, missing), samples, missing)
            == SparseOverwrite(buffer, samples, missing)
  {
  }

  /**
   * composeElevations with a list: null arguments and a buffer shorter than the list or a tile width
   * larger than it are IllegalArgumentExceptions, a zero tile width is the ArithmeticException of
   * `latlons.size() / tileWidth`; otherwise one tile of tileWidth x (size / tileWidth) samples over the
   * sector is retrieved from the last level and the buffer receives its samples as SparseOverwrite says.
   * The buffer is left alone on every failure.
   */
  method ComposeElevations(m: WmsElevationModel, sector: Option<Sector>, latlons: Option<seq<Option<LatLon>>>,
                           tileWidth: int, buffer: array?<real>) returns (r: Result<()>)
    requires m.levels.Valid()
    modifies buffer
    ensures sector.None? || latlons.None? || buffer == null ==> r == Err(IllegalArgument)
    ensures buffer != null && r.Err? ==> buffer[..] == old(buffer[..])
    ensures sector.Some? && latlons.Some? && buffer != null ==>
      var n := |latlons.value|;
      (buffer.Length < n || tileWidth > n ==> r == Err(IllegalArgument))
      && (buffer.Length >= n && tileWidth == 0 ==> r == Err(Arithmetic))
      && (buffer.Length >= n && tileWidth <= n && tileWidth != 0 ==>
            var tile := CompositionTile(sector.value, m.levels.LastLevel(), tileWidth, JavaDiv(n, tileWidth));
            (m.retrieve(tile).Err? ==> r == Err(m.retrieve(tile).error))
            && (m.retrieve(tile).Ok? ==>
                  r == Ok(()) && buffer[..] == SparseOverwrite(old(buffer[..]),
                    Samples(m, tile, m.retrieve(tile).value, latlons.value), m.missingDataSignal)))
  {
    if sector.None? || latlons.None? || buffer == null {
      return Err(IllegalArgument);
    }
    var list := latlons.value;
    var n := |list|;
    if buffer.Length < n || tileWidth > n {
      return Err(IllegalArgument);
    }
    if tileWidth == 0 {
      return Err(Arithmetic);
    }
    var tile := CompositionTile(sector.value, m.levels.LastLevel(), tileWidth, JavaDiv(n, tileWidth));
    var data := m.retrieve(tile);
    if data.Err? {
      return Err(data.error);
    }
    ghost var before := buffer[..];
    ghost var target := SparseOverwrite(before, Samples(m, tile, data.value, list), m.missingDataSignal);
    var i := 0;
    while i < n
      invariant 0 <= i <= n
      invariant forall k :: 0 <= k < buffer.Length ==> buffer[k] == if k < i then target[k] else before[k]
    {
      var ll := list[i];
      if ll.Some? {
        var value := m.lookup(tile, data.value, ll.value);
        if value != m.missingDataSignal {
          buffer[i] := value;
        }
      }
      i := i + 1;
    }
    assert buffer[..] == target;
    return Ok(());
  }

  //////////////////////////////////////////////////////////////////////////////
  // ExportElevationBuffer
  //////////////////////////////////////////////////////////////////////////////

  /** One cell of the export partition with its samples, north row first. */
  datatype ExportElevationBuffer = ExportElevationBuffer(sector: Sector, row: nat, col: nat, width: nat, height: nat,
                                                         elevations: seq<real>)

  /** getFileName: `String.format("%d_%d.tif", row, col)`. */
  function FileName(b: ExportElevationBuffer): string {
    RowColStem(b.row, b.col) + ".tif"
  }

  /** Two buffers share a file name only when they are the same cell of the partition. */
  lemma FileNamesDistinct(a: ExportElevationBuffer, b: ExportElevationBuffer)
    requires FileName(a) == FileName(b)
    ensures a.row == b.row && a.col == b.col
  {
    var sa, sb := RowColStem(a.row, a.col), RowColStem(b.row, b.col);
    assert |sa| == |sb|;
    assert sa == FileName(a)[..|sa|] == FileName(b)[..|sb|] == sb;
    RowColStemInjective(a.row, a.col, b.row, b.col);
  }

  /** The georeferencing doSave writes next to the samples. */
  datatype RasterHeader = RasterHeader(sector: Sector, width: int, height: int, missingDataSignal: real)

  /** `(double) Short.MIN_VALUE`, the missing-data signal of every exported elevation raster. */
  const ShortMinValue: real := -32768.0

  /**
   * doSave: the raster's header carries the buffer's sector and size and the missing-data signal -32768;
   * the samples are copied top-down, so raster row 0 (north) holds the first width samples, which are the
   * northern row of the composed tile. A buffer shorter than width x height fails with the
   * IndexOutOfBoundsException of the copy. The file goes to the desktop directory under FileName.
   */
  method DoSave(b: ExportElevationBuffer, desktopPath: string)
    returns (r: Result<array2<real>>, header: RasterHeader, path: string)
    ensures path == desktopPath + "\\" + FileName(b)
    ensures header.sector == b.sector && header.width == b.width && header.height == b.height
    ensures header.missingDataSignal == ShortMinValue
    ensures r.Err? <==> b.width * b.height > |b.elevations|
    ensures r.Err? ==> r.error == IndexOutOfBounds
    ensures r.Ok? ==> fresh(r.value) && r.value.Length0 == b.height && r.value.Length1 == b.width
                      && forall y, x :: 0 <= y < b.height && 0 <= x < b.width ==>
                           RasterCopy.TopDownIndex(y, x, b.width) < |b.elevations|
                           && r.value[y, x] == b.elevations[RasterCopy.TopDownIndex(y, x, b.width)]
  {
    header := RasterHeader(b.sector, b.width, b.height, ShortMinValue);
    r := RasterCopy.CopyTopDown(Some(b.elevations), b.width, b.height);
    path := desktopPath + "\\" + FileName(b);
  }

  //////////////////////////////////////////////////////////////////////////////
  // computeSectorToTile
  //////////////////////////////////////////////////////////////////////////////

  /** The size ceiling of the partition: each part has fewer than 2048 samples per side. */
  const PartLimit := 2048

  /** The pixel sizes of the selected sector at the last level, the parts per side and the size of each part. */
  datatype Partition = Partition(sectorWidth: nat, sectorHeight: nat, numParts: nat, subWidth: nat, subHeight: nat)

  /**
   * `(int)(extent / boxExtent * pixels)`: the pixels an extent covers when boxExtent spans `pixels`
   * pixels, rounded down (and saturated at the largest int).
   */
  function PixelSide(extent: real, boxExtent: real, pixels: nat): (n: nat)
    requires extent >= 0.0 && boxExtent > 0.0
    ensures n as real <= Scaled(extent, boxExtent, pixels)
    ensures Scaled(extent, boxExtent, pixels) < IntMax as real ==> Scaled(extent, boxExtent, pixels) < n as real + 1.0
  {
    ScaledBounds(extent, boxExtent, pixels);
    CastToInt(Scaled(extent, boxExtent, pixels))
  }

  /** `extent / boxExtent * pixels`: the pixels an extent covers when boxExtent spans `pixels` pixels. */
  function Scaled(extent: real, boxExtent: real, pixels: nat): real
    requires boxExtent > 0.0
  {
    extent / boxExtent * pixels as real
  }

  lemma ScaledBounds(extent: real, boxExtent: real, pixels: nat)
    requires extent >= 0.0 && boxExtent > 0.0
    ensures Scaled(extent, boxExtent, pixels) >= 0.0
    ensures extent <= boxExtent ==> Scaled(extent, boxExtent, pixels) <= pixels as real
  {
    var ratio := extent / boxExtent;
    assert ratio >= 0.0;
    MulMonotone(0.0, ratio, pixels as real);
    if extent <= boxExtent {
      assert ratio <= 1.0;
      MulMonotone(ratio, 1.0, pixels as real);
    }
  }

  /** An extent no larger than the box's covers no more pixels than the box. */
  lemma PixelSideWithinBox(extent: real, boxExtent: real, pixels: nat)
    requires 0.0 <= extent <= boxExtent && boxExtent > 0.0
    ensures PixelSide(extent, boxExtent, pixels) <= pixels
  {
    ScaledBounds(extent, boxExtent, pixels);
    var n := PixelSide(extent, boxExtent, pixels);
    assert n as real <= pixels as real;
  }

  /**
   * The split of a sectorWidth x sectorHeight raster: the fewest parts per side that bring every part
   * below PartLimit, and the part size by integer division.
   */
  function Split(sectorWidth: nat, sectorHeight: nat): (p: Partition)
    ensures p.sectorWidth == sectorWidth && p.sectorHeight == sectorHeight
    ensures p.numParts >= 1
    ensures p.subWidth < PartLimit && p.subHeight < PartLimit
    ensures p.subWidth <= sectorWidth && p.subHeight <= sectorHeight
    ensures p.numParts > 1 ==>
              LongerSide(sectorWidth, sectorHeight) / (p.numParts - 1) >= PartLimit
  {
    var maxSide := LongerSide(sectorWidth, sectorHeight);
    PartSide(sectorWidth, maxSide);
    PartSide(sectorHeight, maxSide);
    var numParts := NumParts(maxSide, PartLimit);
    Partition(sectorWidth, sectorHeight, numParts, sectorWidth / numParts, sectorHeight / numParts)
  }

  /** `Math.max(sectorWidth, sectorHeight)`. */
  function LongerSide(sectorWidth: nat, sectorHeight: nat): (m: nat)
    ensures sectorWidth <= m && sectorHeight <= m && (m == sectorWidth || m == sectorHeight)
  {
    if sectorWidth > sectorHeight then sectorWidth else sectorHeight
  }

  /** A side no longer than maxSide, divided into NumParts(maxSide, PartLimit) parts, gives parts below the limit. */
  lemma PartSide(side: nat, maxSide: nat)
    requires side <= maxSide
    ensures side / NumParts(maxSide, PartLimit) < PartLimit && side / NumParts(maxSide, PartLimit) <= side
    ensures NumParts(maxSide, PartLimit) > 1 ==> maxSide / (NumParts(maxSide, PartLimit) - 1) >= PartLimit
  {
    NumPartsBound(side, maxSide, PartLimit);
    var n := NumParts(maxSide, PartLimit);
    var q := side / n;
    assert q * n <= side;
    RasterCopy.MulLeq(1, n, q);
  }

  /**
   * The sizes computeSectorToTile derives from a rows x cols grid of tiles whose union is `box`: the
   * sector's extent in pixels at the resolution of the grid, split as Split says.
   */
  function PartitionFor(sector: Sector, box: Sector, rows: nat, cols: nat, level: TileGrid.Level): (p: Partition)
    requires sector.WellFormed() && box.HasArea() && level.tileWidth > 0 && level.tileHeight > 0
  {
    Split(PixelSide(sector.DeltaLon(), box.DeltaLon(), cols * level.tileWidth),
          PixelSide(sector.DeltaLat(), box.DeltaLat(), rows * level.tileHeight))
  }

  /**
   * Part (row, col) of the partition: cell (row, col) of the sector, retrieved from the last level at the
   * part size, or the exception the retrieval raises.
   */
  function PartAt(m: WmsElevationModel, sector: Sector, p: Partition, row: nat, col: nat)
    : (r: Result<ExportElevationBuffer>)
    requires m.levels.Valid() && p.numParts > 0
    ensures r.Ok? ==> r.value.sector == Cell(sector, p.numParts, row, col) && r.value.row == row && r.value.col == col
                      && r.value.width == p.subWidth && r.value.height == p.subHeight
  {
    var sub := Cell(sector, p.numParts, row, col);
    match m.retrieve(CompositionTile(sub, m.levels.LastLevel(), p.subWidth, p.subHeight))
    case Ok(data) => Ok(ExportElevationBuffer(sub, row, col, p.subWidth, p.subHeight, data))
    case Err(e) => Err(e)
  }

  /** The buffers stored so far are those of the parts whose index they occupy. */
  ghost predicate PartsSoFar(m: WmsElevationModel, sector: Sector, p: Partition, buffers: seq<ExportElevationBuffer>)
    requires m.levels.Valid() && p.numParts > 0
  {
    forall rr, cc :: 0 <= rr < p.numParts && 0 <= cc < p.numParts
                     && RasterCopy.TopDownIndex(rr, cc, p.numParts) < |buffers| ==>
      PartAt(m, sector, p, rr, cc) == Ok(buffers[RasterCopy.TopDownIndex(rr, cc, p.numParts)])
  }

  /**
   * Part (row, col) is where the partition loop stops with exception e: every part before it in row-major
   * order was retrieved, and either its own retrieval raised e, or it was retrieved and is the first part
   * whose index `row * numParts + col` lies past the end of the `length`-element array (which happens
   * only when `numParts * numParts` overflowed).
   */
  ghost predicate FirstPartFailure(m: WmsElevationModel, sector: Sector, p: Partition, length: int, e: Error,
                                   row: nat, col: nat)
    requires m.levels.Valid() && p.numParts > 0
  {
    var n := p.numParts;
    row < n && col < n && RasterCopy.TopDownIndex(row, col, n) <= length
    && (forall rr, cc :: 0 <= rr < n && 0 <= cc < n && RasterCopy.Before(rr, cc, row, col) ==>
          PartAt(m, sector, p, rr, cc).Ok?)
    && (PartAt(m, sector, p, row, col) == Err(e)
        || (PartAt(m, sector, p, row, col).Ok? && RasterCopy.TopDownIndex(row, col, n) == length
            && e == IndexOutOfBounds))
  }

  /**
   * The outcome of the partition loop. The array has `numParts * numParts` elements, an int product: a
   * negative one is a NegativeArraySizeException. On success numParts x numParts buffers with part
   * (row, col) at index row * numParts + col; on failure the exception of the first part, in row-major
   * order, whose retrieval or store fails.
   */
  ghost predicate PartsResult(m: WmsElevationModel, sector: Sector, p: Partition,
                              r: Result<seq<ExportElevationBuffer>>)
    requires m.levels.Valid() && p.numParts > 0
  {
    var n := p.numParts;
    var length := Wrap32(n * n);
    (length < 0 ==> r == Err(NegativeArraySize))
    && (r.Ok? ==> n * n <= IntMax && |r.value| == n * n
                  && forall row, col :: 0 <= row < n && 0 <= col < n ==>
                       RasterCopy.TopDownIndex(row, col, n) < n * n
                       && PartAt(m, sector, p, row, col) == Ok(r.value[RasterCopy.TopDownIndex(row, col, n)]))
    && (length >= 0 && r.Err? ==> exists row, col :: FirstPartFailure(m, sector, p, length, r.error, row, col))
  }

  /**
   * Without overflow no store fails: the loop succeeds exactly when every part is retrieved, and otherwise
   * fails with the exception of the first part, in row-major order, whose retrieval fails.
   */
  lemma PartsWithoutOverflow(m: WmsElevationModel, sector: Sector, p: Partition, r: Result<seq<ExportElevationBuffer>>)
    requires m.levels.Valid() && p.numParts > 0
    requires p.numParts * p.numParts <= IntMax && PartsResult(m, sector, p, r)
    ensures r.Ok? <==> forall row, col :: 0 <= row < p.numParts && 0 <= col < p.numParts ==>
                         PartAt(m, sector, p, row, col).Ok?
    ensures r.Err? ==> exists row, col :: 0 <= row < p.numParts && 0 <= col < p.numParts
                         && PartAt(m, sector, p, row, col) == Err(r.error)
                         && forall rr, cc :: 0 <= rr < p.numParts && 0 <= cc < p.numParts && RasterCopy.Before(rr, cc, row, col) ==>
                              PartAt(m, sector, p, rr, cc).Ok?
  {
    var n := p.numParts;
    var length := Wrap32(n * n);
    assert length == n * n;
    if r.Err? {
      var row, col :| FirstPartFailure(m, sector, p, length, r.error, row, col);
      RasterCopy.TopDownBijection(row, col, 0, n, n);
      assert PartAt(m, sector, p, row, col) == Err(r.error);
    }
  }

  /** Every part before (row, col) in row-major order sits in a prefix of row * numParts + col buffers. */
  lemma EarlierPartsRetrieved(m: WmsElevationModel, sector: Sector, p: Partition, stored: seq<ExportElevationBuffer>,
                              row: nat, col: nat)
    requires m.levels.Valid() && p.numParts > 0 && row < p.numParts && col < p.numParts
    requires |stored| == RasterCopy.TopDownIndex(row, col, p.numParts) && PartsSoFar(m, sector, p, stored)
    ensures forall rr, cc :: 0 <= rr < p.numParts && 0 <= cc < p.numParts && RasterCopy.Before(rr, cc, row, col) ==>
              PartAt(m, sector, p, rr, cc).Ok?
  {
    forall rr, cc | 0 <= rr < p.numParts && 0 <= cc < p.numParts && RasterCopy.Before(rr, cc, row, col)
      ensures PartAt(m, sector, p, rr, cc).Ok?
    {
      RasterCopy.BeforeIndex(rr, cc, row, col, p.numParts);
    }
  }

  /** The tile sectors of the grid cells in traversal order, a null cell contributing none. */
  function SectorsOf(cells: seq<Option<TileGrid.Tile>>): seq<Sector> {
    if cells == [] then []
    else
      var last := cells[|cells| - 1];
      SectorsOf(cells[..|cells| - 1]) + (if last.Some? then [last.value.sector] else [])
  }

  predicate HasNull(tiles: array2<Option<TileGrid.Tile>>)
    reads tiles
  {
    exists i, j :: 0 <= i < tiles.Length0 && 0 <= j < tiles.Length1 && tiles[i, j].None?
  }

  /**
   * computeSectorToTile: an empty grid is an IllegalArgumentException and a null tile the
   * NullPointerException of tile.getSector(); otherwise the sizes are PartitionFor the union of the
   * tiles' sectors and the parts are retrieved in row-major order, as PartsResult says.
   */
  method ComputeSectorToTile(m: WmsElevationModel, sector: Sector, tiles: array2<Option<TileGrid.Tile>>)
    returns (r: Result<seq<ExportElevationBuffer>>)
    requires m.levels.Valid() && sector.WellFormed()
    requires forall i, j :: 0 <= i < tiles.Length0 && 0 <= j < tiles.Length1 && tiles[i, j].Some? ==>
               tiles[i, j].value.sector.HasArea()
    ensures tiles.Length0 == 0 || tiles.Length1 == 0 ==> r == Err(IllegalArgument)
    ensures tiles.Length0 > 0 && tiles.Length1 > 0 && HasNull(tiles) ==> r == Err(NullPointer)
    ensures tiles.Length0 > 0 && tiles.Length1 > 0 && !HasNull(tiles) ==>
              var box := Bounds(SectorsOf(TileGrid.Cells(tiles)));
              box.HasArea()
              && PartsResult(m, sector, PartitionFor(sector, box, tiles.Length0, tiles.Length1, m.levels.LastLevel()), r)
  {
    if tiles.Length0 == 0 || tiles.Length1 == 0 {
      return Err(IllegalArgument);
    }
    var sectors := CollectSectors(tiles);
    if sectors.Err? {
      return Err(sectors.error);
    }
    var box := Bounds(sectors.value);
    BoundsEnclose(sectors.value);
    assert box.ContainsSector(sectors.value[0]);
    var last := m.levels.LastLevel();
    var p := PartitionFor(sector, box, tiles.Length0, tiles.Length1, last);
    r := RetrieveParts(m, sector, p);
  }

  /**
   * `for (Tile[] row : tiles) for (Tile tile : row) sectors.add(tile.getSector())`: the tile sectors in
   * row-major order, or the NullPointerException of the first null tile.
   */
  method CollectSectors(tiles: array2<Option<TileGrid.Tile>>) returns (r: Result<seq<Sector>>)
    ensures r.Err? <==> HasNull(tiles)
    ensures r.Err? ==> r.error == NullPointer
    ensures r.Ok? ==> r.value == SectorsOf(TileGrid.Cells(tiles))
    ensures r.Ok? && tiles.Length0 > 0 && tiles.Length1 > 0 ==>
              tiles[0, 0].Some? && |r.value| > 0 && r.value[0] == tiles[0, 0].value.sector
  {
    var sectors: seq<Sector> := [];
    var i := 0;
    while i < tiles.Length0
      invariant 0 <= i <= tiles.Length0
      invariant sectors == SectorsOf(TileGrid.GridPrefix(tiles, i, 0))
      invariant i > 0 && tiles.Length1 > 0 ==> tiles[0, 0].Some? && |sectors| > 0 && sectors[0] == tiles[0, 0].value.sector
      invariant forall a, b :: 0 <= a < i && 0 <= b < tiles.Length1 ==> tiles[a, b].Some?
    {
      var j := 0;
      while j < tiles.Length1
        invariant 0 <= j <= tiles.Length1
        invariant sectors == SectorsOf(TileGrid.GridPrefix(tiles, i, j))
        invariant (i > 0 && tiles.Length1 > 0) || j > 0 ==> tiles[0, 0].Some? && |sectors| > 0 && sectors[0] == tiles[0, 0].value.sector
        invariant forall a, b :: 0 <= a < tiles.Length0 && 0 <= b < tiles.Length1 && (a < i || (a == i && b < j)) ==>
                    tiles[a, b].Some?
      {
        var tile := tiles[i, j];
        if tile.None? {
          return Err(NullPointer);
        }
        ghost var prefix := TileGrid.GridPrefix(tiles, i, j);
        assert (prefix + [tile])[..|prefix|] == prefix;
        sectors := sectors + [tile.value.sector];
        j := j + 1;
      }
      i := i + 1;
    }
    return Ok(sectors);
  }

  /**
   * The partition loop of computeSectorToTile: `new ExportElevationBuffer[numParts * numParts]`, then for
   * each part in row-major order its retrieval and the store at index `row * numParts + col` (both int
   * expressions). The stores go to consecutive indices, so the array is modelled by the stored buffers.
   */
  method RetrieveParts(m: WmsElevationModel, sector: Sector, p: Partition) returns (r: Result<seq<ExportElevationBuffer>>)
    requires m.levels.Valid() && p.numParts > 0
    ensures PartsResult(m, sector, p, r)
  {
    var n := p.numParts;
    var length := Wrap32(n * n);
    if length < 0 {
      return Err(NegativeArraySize);
    }
    var buffers: seq<ExportElevationBuffer> := [];
    var row := 0;
    while row < n
      invariant 0 <= row <= n && |buffers| == row * n && |buffers| <= length
      invariant PartsSoFar(m, sector, p, buffers)
    {
      var next := RetrieveRow(m, sector, p, length, row, buffers);
      if next.Err? {
        return Err(next.error);
      }
      buffers := next.value;
      RasterCopy.NextRow(row, n);
      row := row + 1;
    }
    RasterCopy.TopDownInRange(n, n);
    return Ok(buffers);
  }

  /**
   * The inner loop for one row: each part is retrieved and stored at the next index, unless the retrieval
   * fails or the index is past the end of the array.
   */
  method RetrieveRow(m: WmsElevationModel, sector: Sector, p: Partition, length: int, row: nat,
                     buffers: seq<ExportElevationBuffer>) returns (r: Result<seq<ExportElevationBuffer>>)
    requires m.levels.Valid() && p.numParts > 0 && row < p.numParts
    requires 0 <= length <= IntMax && |buffers| == row * p.numParts && |buffers| <= length
    requires PartsSoFar(m, sector, p, buffers)
    ensures r.Ok? ==> |r.value| == (row + 1) * p.numParts && |r.value| <= length && PartsSoFar(m, sector, p, r.value)
    ensures r.Err? ==> exists col :: FirstPartFailure(m, sector, p, length, r.error, row, col)
  {
    var n := p.numParts;
    var last := m.levels.LastLevel();
    var stored := buffers;
    var col := 0;
    while col < n
      invariant 0 <= col <= n && |stored| == row * n + col && |stored| <= length
      invariant PartsSoFar(m, sector, p, stored)
    {
      var sub := Cell(sector, n, row, col);
      var data := m.retrieve(CompositionTile(sub, last, p.subWidth, p.subHeight));
      EarlierPartsRetrieved(m, sector, p, stored, row, col);
      if data.Err? {
        assert PartAt(m, sector, p, row, col) == Err(data.error);
        assert FirstPartFailure(m, sector, p, length, data.error, row, col);
        return Err(data.error);
      }
      var b := ExportElevationBuffer(sub, row, col, p.subWidth, p.subHeight, data.value);
      assert PartAt(m, sector, p, row, col) == Ok(b);
      var index := Wrap32(row * n + col);
      if index < 0 || index >= length {
        assert FirstPartFailure(m, sector, p, length, IndexOutOfBounds, row, col);
        return Err(IndexOutOfBounds);
      }
      forall rr, cc | 0 <= rr < n && 0 <= cc < n && RasterCopy.TopDownIndex(rr, cc, n) == |stored|
        ensures rr == row && cc == col
      {
        RasterCopy.TopDownBijection(rr, cc, 0, n, n);
        RasterCopy.TopDownBijection(row, col, 0, n, n);
      }
      stored := stored + [b];
      col := col + 1;
    }
    RasterCopy.NextRow(row, n);
    return Ok(stored);
  }

  /**
   * Every part of a successful partition of the coverage-clipped sector lies inside the sector the caller
   * selected and inside the model's coverage, and adjacent parts share their edges; its file name is its
   * own.
   */
  lemma PartsInsideSelection(m: WmsElevationModel, selected: Sector, p: Partition, row: nat, col: nat)
    requires m.levels.Valid() && p.numParts > 0 && row < p.numParts && col < p.numParts
    requires Intersection(m.levels.sector, selected).Some?
    requires PartAt(m, Intersection(m.levels.sector, selected).value, p, row, col).Ok?
    ensures var b := PartAt(m, Intersection(m.levels.sector, selected).value, p, row, col).value;
            selected.ContainsSector(b.sector) && m.levels.sector.ContainsSector(b.sector)
            && FileName(b) == RowColStem(row, col) + ".tif"
    ensures var s := Intersection(m.levels.sector, selected).value;
            row + 1 < p.numParts ==> Cell(s, p.numParts, row, col).maxLat == Cell(s, p.numParts, row + 1, col).minLat
  {
    var s := Intersection(m.levels.sector, selected).value;
    CellsTileSector(s, p.numParts, row, col);
  }

  //////////////////////////////////////////////////////////////////////////////
  // composeElevations(sector)
  //////////////////////////////////////////////////////////////////////////////

  /**
   * composeElevations with a sector: a null sector, or one outside the model's coverage (a null
   * intersection handed to getTilesInSector), is an IllegalArgumentException. The clipped sector's tiles
   * at the last level are laid out; a negative grid dimension fails as getTilesInSector does, an empty
   * grid gives null, and otherwise the parts of computeSectorToTile are returned: each below PartLimit
   * samples per side, part (row, col) at index row * numParts + col.
   */
  method ComposeElevationsForSector(m: WmsElevationModel, sector: Option<Sector>)
    returns (r: Result<Option<seq<ExportElevationBuffer>>>)
    requires m.levels.Valid()
    ensures sector.None? ==> r == Err(IllegalArgument)
    ensures sector.Some? && Intersection(m.levels.sector, sector.value).None? ==> r == Err(IllegalArgument)
    ensures sector.Some? && Intersection(m.levels.sector, sector.value).Some? ==>
      var s := Intersection(m.levels.sector, sector.value).value;
      var g := TileGrid.Bounds(m.levels, m.levels.LastLevel(), s);
      (g.NumRows() < 0 || g.NumCols() < 0 ==> r == Err(NegativeArraySize))
      && (g.NumRows() >= 0 && g.NumCols() >= 0 && (g.NumRows() == 0 || g.NumCols() == 0) ==> r == Ok(None))
      && (g.NumRows() > 0 && g.NumCols() > 0 ==>
            (r.Ok? ==> r.value.Some?)
            && exists p: Partition :: p.numParts > 0 && p.subWidth < PartLimit && p.subHeight < PartLimit
                 && PartsResult(m, s, p, if r.Ok? then Ok(r.value.value) else Err(r.error)))
  {
    if sector.None? {
      return Err(IllegalArgument);
    }
    var intersection := Intersection(m.levels.sector, sector.value);
    var last := m.levels.LastLevel();
    var grid, level := TileGrid.TilesInSector(m.levels, intersection, last.levelNumber);
    if grid.Err? {
      return Err(grid.error);
    }
    var tiles := grid.value;
    assert level == last;
    if tiles.Length0 == 0 || tiles.Length1 == 0 {
      return Ok(None);
    }
    assert !HasNull(tiles);
    var parts := ComputeSectorToTile(m, intersection.value, tiles);
    ghost var p := PartitionFor(intersection.value, Bounds(SectorsOf(TileGrid.Cells(tiles))), tiles.Length0,
                                tiles.Length1, last);
    assert PartsResult(m, intersection.value, p, parts);
    if parts.Err? {
      return Err(parts.error);
    }
    return Ok(Some(parts.value));
  }
}
