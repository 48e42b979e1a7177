/**
 * The image and elevation exporter (ExportImageOrElevations.AppFrame): its file filters and destination
 * suffix, the level clamp, the per-tile failure policy of a sub-sector composition, the N x N partition of
 * the selection with an 8192-pixel ceiling, the JPEG world file of each part, and the top-down elevation
 * copy of its writeElevationsToFile.
 */
module ImageExport {
  import opened Wrappers
  import opened Geo
  import opened Text
  import TileGrid
  import RasterCopy
  import EM = ElevationModel
  import Sampling

  //////////////////////////////////////////////////////////////////////////////
  // File filters and the destination suffix
  //////////////////////////////////////////////////////////////////////////////

  /** The part of java.io.File a filter looks at. */
  datatype FileEntry = FileEntry(name: string, isDirectory: bool)

  datatype FilterKind = GeotiffFilter | JpegFilter | PngFilter

  /** The lower-case extensions each filter lists. */
  function Extensions(kind: FilterKind): seq<string> {
    match kind
    case GeotiffFilter => [".tif"]
    case JpegFilter => [".jpeg", ".jpg"]
    case PngFilter => [".png"]
  }

  /**
   * FileFilter.accept: a null file is an IllegalArgumentException; otherwise directories are accepted, and
   * files whose lower-cased name ends with one of the filter's extensions.
   */
  function Accept(kind: FilterKind, file: Option<FileEntry>): (r: Result<bool>)
    ensures file.None? <==> r == Err(IllegalArgument)
    ensures file.Some? ==> r.Ok? && (file.value.isDirectory ==> r.value)
  {
    if file.None? then Err(IllegalArgument)
    else
      Ok(file.value.isDirectory || Matches(kind, Lower(file.value.name)))
  }

  /** The extension test of each filter's accept, on the lower-cased name. */
  predicate Matches(kind: FilterKind, name: string) {
    match kind
    case GeotiffFilter => EndsWith(name, ".tif")
    case JpegFilter => EndsWith(name, ".jpeg") || EndsWith(name, ".jpg")
    case PngFilter => EndsWith(name, ".png")
  }

  /** A plain file is accepted exactly when its lower-cased name ends with one of the filter's extensions. */
  lemma AcceptMeaning(kind: FilterKind, name: string)
    ensures Accept(kind, Some(FileEntry(name, false))) == Ok(exists k :: 0 <= k < |Extensions(kind)|
                                                                   && EndsWith(Lower(name), Extensions(kind)[k]))
  {
    var exts := Extensions(kind);
    if kind == JpegFilter {
      if EndsWith(Lower(name), ".jpg") {
        assert EndsWith(Lower(name), exts[1]);
      }
    }
    if Accept(kind, Some(FileEntry(name, false))) == Ok(true) {
      assert EndsWith(Lower(name), exts[0]) || (kind == JpegFilter && EndsWith(Lower(name), exts[1]));
    }
  }

  /** The filters ignore the case of a name: "MAP.TIF" is accepted exactly when "map.tif" is. */
  lemma AcceptIgnoresCase(kind: FilterKind, name: string, isDirectory: bool)
    ensures Accept(kind, Some(FileEntry(name, isDirectory))) == Accept(kind, Some(FileEntry(Lower(name), isDirectory)))
  {
    LowerIdempotent(name);
  }

  /** No plain file is accepted by two different filters. */
  lemma FiltersDisjoint(k1: FilterKind, k2: FilterKind, name: string)
    requires k1 != k2
    requires Accept(k1, Some(FileEntry(name, false))) == Ok(true)
    ensures Accept(k2, Some(FileEntry(name, false))) == Ok(false)
  {
    var s := Lower(name);
    MatchesLastChars(k1, s);
    MatchesLastChars(k2, s);
  }

  /** The last two characters each filter's extensions end with: "if", "eg" or "pg", and "ng". */
  predicate LastCharsFit(kind: FilterKind, a: char, b: char) {
    match kind
    case GeotiffFilter => a == 'i' && b == 'f'
    case JpegFilter => (a == 'e' || a == 'p') && b == 'g'
    case PngFilter => a == 'n' && b == 'g'
  }

  lemma MatchesLastChars(kind: FilterKind, s: string)
    ensures Matches(kind, s) ==> |s| >= 2 && LastCharsFit(kind, s[|s| - 2], s[|s| - 1])
  {
    if EndsWith(s, ".tif") {
      LastChars(s, ".tif");
    }
    if EndsWith(s, ".jpeg") {
      LastChars(s, ".jpeg");
    }
    if EndsWith(s, ".jpg") {
      LastChars(s, ".jpg");
    }
    if EndsWith(s, ".png") {
      LastChars(s, ".png");
    }
  }

  /** A string ending with a suffix of at least two characters shares its last two characters. */
  lemma LastChars(s: string, suffix: string)
    requires |suffix| >= 2 && EndsWith(s, suffix)
    ensures s[|s| - 1] == suffix[|suffix| - 1] && s[|s| - 2] == suffix[|suffix| - 2]
  {
    assert s[|s| - |suffix|..][|suffix| - 1] == suffix[|suffix| - 1];
    assert s[|s| - |suffix|..][|suffix| - 2] == suffix[|suffix| - 2];
  }

  /**
   * selectDestinationFile: a cancelled dialog gives null; a chosen path not ending in ".tif" gets ".tif"
   * appended. The test is case-sensitive, unlike the filters. The chosen file's name is the end of its path,
   * so testing the name and testing the path agree.
   */
  function TifDestination(chosen: Option<string>): (r: Option<string>)
    ensures chosen.None? <==> r.None?
    ensures chosen.Some? ==> r.Some? && EndsWith(r.value, ".tif") && chosen.value <= r.value
    ensures chosen.Some? && EndsWith(chosen.value, ".tif") ==> r == chosen
  {
    if chosen.None? then None
    else if EndsWith(chosen.value, ".tif") then chosen
    else Some(chosen.value + ".tif")
  }

  /** Applying the suffix rule twice is applying it once. */
  lemma TifDestinationIdempotent(chosen: Option<string>)
    ensures TifDestination(TifDestination(chosen)) == TifDestination(chosen)
  {
  }

  /** A name the GeoTIFF filter accepts in upper case still gets a second suffix. */
  lemma UpperCaseTifGetsSuffix()
    ensures Accept(GeotiffFilter, Some(FileEntry("A.TIF", false))) == Ok(true)
    ensures TifDestination(Some("A.TIF")) == Some("A.TIF.tif")
  {
    assert Lower("A.TIF") == "a.tif";
    assert "A.TIF"[1..][1] == 'T';
    assert "A.TIF" + ".tif" == "A.TIF.tif";
  }

  //////////////////////////////////////////////////////////////////////////////
  // Level clamp
  //////////////////////////////////////////////////////////////////////////////

  /**
   * The clamp at the top of both compose methods: a negative level or one above the last becomes the last
   * level; a level in [0, last] is kept.
   */
  function ClampLevel(levelNumber: int, last: nat): (l: nat)
    ensures l <= last
    ensures 0 <= levelNumber <= last ==> l == levelNumber
    ensures levelNumber < 0 || levelNumber > last ==> l == last
  {
    if levelNumber < 0 then last
    else if levelNumber > last then last
    else levelNumber
  }

  /** Clamping a clamped level changes nothing. */
  lemma ClampLevelIdempotent(levelNumber: int, last: nat)
    ensures ClampLevel(ClampLevel(levelNumber, last), last) == ClampLevel(levelNumber, last)
  {
  }

  //////////////////////////////////////////////////////////////////////////////
  // Images and the canvas
  //////////////////////////////////////////////////////////////////////////////

  /** A tile image as TiledImageLayer.getImage returns it; pixel content is not interpreted here. */
  datatype TileImage = TileImage(width: int, height: int, pixels: seq<int>)

  /** One ImageUtil.mergeImage call: a tile image drawn into the canvas of a sector. */
  datatype Merge = Merge(canvasSector: Sector, tileSector: Sector, aspectRatio: real, image: TileImage)

  /** The content of a canvas: its size and the merges drawn into it, in order. */
  datatype ImageValue = ImageValue(width: int, height: int, merges: seq<Merge>)

  /** A tiled image layer: its level set and the image retrieval for a tile (getImage, then the interrupt probe). */
  datatype ImageLayer = ImageLayer(levels: TileGrid.LevelSet, getImage: TileGrid.Tile -> Result<Option<TileImage>>)

  /** A BufferedImage the composition draws into. */
  class Canvas {
    const width: int
    const height: int
    var merges: seq<Merge>

    /** `new BufferedImage(width, height, TYPE_INT_RGB)` for a size it accepts. */
    constructor (width: int, height: int)
      requires width > 0 && height > 0
      ensures this.width == width && this.height == height && merges == []
    {
      this.width := width;
      this.height := height;
      merges := [];
    }

    function Content(): ImageValue
      reads this
    {
      ImageValue(width, height, merges)
    }

    /** ImageUtil.mergeImage(canvasSector, tileSector, aspectRatio, image, this). */
    method MergeImage(canvasSector: Sector, tileSector: Sector, aspectRatio: real, image: TileImage)
      modifies this
      ensures merges == old(merges) + [Merge(canvasSector, tileSector, aspectRatio, image)]
    {
      merges := merges + [Merge(canvasSector, tileSector, aspectRatio, image)];
    }
  }

  /** `new BufferedImage(width, height, ...)`: a non-positive side is an IllegalArgumentException. */
  method NewCanvas(width: int, height: int) returns (r: Result<Canvas>)
    ensures width <= 0 || height <= 0 ==> r == Err(IllegalArgument)
    ensures width > 0 && height > 0 ==> r.Ok? && fresh(r.value) && r.value.Content() == ImageValue(width, height, [])
  {
    if width <= 0 || height <= 0 {
      return Err(IllegalArgument);
    }
    var c := new Canvas(width, height);
    return Ok(c);
  }

  //////////////////////////////////////////////////////////////////////////////
  // The per-tile failure policy of composeImageForSubSector
  //////////////////////////////////////////////////////////////////////////////

  /** An exception that ends the composition: an interrupt always, anything else when abortOnError is set. */
  predicate Fatal(e: Error, abortOnError: bool) {
    e == Interrupted || e == InterruptedIO || abortOnError
  }

  /** A grid cell whose retrieval ends the composition. */
  predicate FailsFatally(layer: ImageLayer, abortOnError: bool, cell: Option<TileGrid.Tile>) {
    cell.Some? && layer.getImage(cell.value).Err? && Fatal(layer.getImage(cell.value).error, abortOnError)
  }

  /**
   * One turn of the tile loop: a null cell is skipped; a failed retrieval ends the composition when fatal and
   * is logged and skipped otherwise; a retrieved image is merged, a null image is not.
   */
  function MergeStep(layer: ImageLayer, sector: Sector, aspectRatio: real, abortOnError: bool,
                     merges: seq<Merge>, cell: Option<TileGrid.Tile>): Result<seq<Merge>>
  {
    if cell.None? then Ok(merges)
    else
      var got := layer.getImage(cell.value);
      if got.Err? then (if Fatal(got.error, abortOnError) then Err(got.error) else Ok(merges))
      else if got.value.None? then Ok(merges)
      else Ok(merges + [Merge(sector, cell.value.sector, aspectRatio, got.value.value)])
  }

  /** The tile loop over the cells in traversal order: the merges made, or the exception that ended it. */
  function Plan(layer: ImageLayer, sector: Sector, aspectRatio: real, abortOnError: bool,
                cells: seq<Option<TileGrid.Tile>>): Result<seq<Merge>>
  {
    if cells == [] then Ok([])
    else
      var before := Plan(layer, sector, aspectRatio, abortOnError, cells[..|cells| - 1]);
      if before.Err? then before
      else MergeStep(layer, sector, aspectRatio, abortOnError, before.value, cells[|cells| - 1])
  }

  /** Every retrieved image of the cells, in order, whatever the failures around them. */
  function Fetched(layer: ImageLayer, sector: Sector, aspectRatio: real, cells: seq<Option<TileGrid.Tile>>): seq<Merge>
  {
    if cells == [] then []
    else
      var last := cells[|cells| - 1];
      Fetched(layer, sector, aspectRatio, cells[..|cells| - 1])
      + (if last.Some? && layer.getImage(last.value).Ok? && layer.getImage(last.value).value.Some?
         then [Merge(sector, last.value.sector, aspectRatio, layer.getImage(last.value).value.value)]
         else [])
  }

  /**
   * The failure policy: the composition fails exactly when some cell fails fatally, and then with the
   * exception of the first such cell; otherwise it merges every retrieved image in traversal order, so
   * non-fatal failures and null images only leave their tile out.
   */
  lemma {:induction false} PlanPolicy(layer: ImageLayer, sector: Sector, aspectRatio: real, abortOnError: bool,
                                      cells: seq<Option<TileGrid.Tile>>)
    ensures Plan(layer, sector, aspectRatio, abortOnError, cells).Err? <==>
              exists i :: 0 <= i < |cells| && FailsFatally(layer, abortOnError, cells[i])
    ensures Plan(layer, sector, aspectRatio, abortOnError, cells).Err? ==>
              exists i :: 0 <= i < |cells| && FailsFatally(layer, abortOnError, cells[i])
                && Plan(layer, sector, aspectRatio, abortOnError, cells).error == layer.getImage(cells[i].value).error
                && forall j :: 0 <= j < i ==> !FailsFatally(layer, abortOnError, cells[j])
    ensures Plan(layer, sector, aspectRatio, abortOnError, cells).Ok? ==>
              Plan(layer, sector, aspectRatio, abortOnError, cells).value == Fetched(layer, sector, aspectRatio, cells)
  {
    if cells != [] {
      var n := |cells| - 1;
      var prefix := cells[..n];
      PlanPolicy(layer, sector, aspectRatio, abortOnError, prefix);
      forall i | 0 <= i < n ensures cells[i] == prefix[i] { }
      var before := Plan(layer, sector, aspectRatio, abortOnError, prefix);
      if before.Err? {
        var i :| 0 <= i < n && FailsFatally(layer, abortOnError, prefix[i])
                 && before.error == layer.getImage(prefix[i].value).error
                 && forall j :: 0 <= j < i ==> !FailsFatally(layer, abortOnError, prefix[j]);
        assert cells[i] == prefix[i];
      } else if FailsFatally(layer, abortOnError, cells[n]) {
        assert forall j :: 0 <= j < n ==> !FailsFatally(layer, abortOnError, cells[j]);
      }
    }
  }

  /** Once the tile loop has failed, visiting more cells does not change its outcome. */
  lemma {:induction false} PlanFailureSticks(layer: ImageLayer, sector: Sector, aspectRatio: real, abortOnError: bool,
                                             xs: seq<Option<TileGrid.Tile>>, ys: seq<Option<TileGrid.Tile>>)
    requires xs <= ys && Plan(layer, sector, aspectRatio, abortOnError, xs).Err?
    ensures Plan(layer, sector, aspectRatio, abortOnError, ys) == Plan(layer, sector, aspectRatio, abortOnError, xs)
    decreases |ys|
  {
    if |ys| > |xs| {
      assert xs <= ys[..|ys| - 1];
      PlanFailureSticks(layer, sector, aspectRatio, abortOnError, xs, ys[..|ys| - 1]);
    } else {
      assert xs == ys;
    }
  }

  //////////////////////////////////////////////////////////////////////////////
  // composeImageForSubSector
  //////////////////////////////////////////////////////////////////////////////

  /**
   * What composeImageForSubSector produces: the tiles of the clamped level that cover the part of the
   * sector inside the layer's coverage; null when there are none; otherwise a new canvas of the given size
   * with the merges of the tile loop, or the exception that ended it.
   */
  function SubImage(layer: ImageLayer, sector: Sector, canvasWidth: int, canvasHeight: int, aspectRatio: real,
                    levelNumber: int, abortOnError: bool): Result<Option<ImageValue>>
    requires layer.levels.Valid()
  {
    var ls := layer.levels;
    var intersection := Intersection(ls.sector, sector);
    if intersection.None? then Err(IllegalArgument)
    else
      var level := ls.levels[TileGrid.LevelFor(ls, ClampLevel(levelNumber, ls.LastLevel().levelNumber))];
      var g := TileGrid.Bounds(ls, level, intersection.value);
      if g.NumRows() < 0 || g.NumCols() < 0 then Err(NegativeArraySize)
      else if g.NumRows() == 0 || g.NumCols() == 0 then Ok(None)
      else if canvasWidth <= 0 || canvasHeight <= 0 then Err(IllegalArgument)
      else
        var plan := Plan(layer, sector, aspectRatio, abortOnError, TileGrid.CoverTiles(ls, level, g));
        if plan.Err? then Err(plan.error) else Ok(Some(ImageValue(canvasWidth, canvasHeight, plan.value)))
  }

  /**
   * composeImageForSubSector, for the null `image` argument every caller passes: the result is a new
   * canvas holding SubImage's content, or SubImage's exception.
   */
  method ComposeImageForSubSector(layer: ImageLayer, sector: Sector, canvasWidth: int, canvasHeight: int,
                                  aspectRatio: real, levelNumber: int, abortOnError: bool)
    returns (r: Result<Option<Canvas>>)
    requires layer.levels.Valid()
    ensures var spec := SubImage(layer, sector, canvasWidth, canvasHeight, aspectRatio, levelNumber, abortOnError);
            (spec.Err? ==> r == Err(spec.error))
            && (spec.Ok? && spec.value.None? ==> r == Ok(None))
            && (spec.Ok? && spec.value.Some? ==>
                  r.Ok? && r.value.Some? && fresh(r.value.value) && r.value.value.Content() == spec.value.value)
  {
    var ls := layer.levels;
    var intersection := Intersection(ls.sector, sector);
    var level := ClampLevel(levelNumber, ls.LastLevel().levelNumber);
    var grid, tileLevel := TileGrid.TilesInSector(ls, intersection, level);
    if grid.Err? {
      return Err(grid.error);
    }
    var tiles := grid.value;
    if tiles.Length0 == 0 || tiles.Length1 == 0 {
      return Ok(None);
    }
    var made := NewCanvas(canvasWidth, canvasHeight);
    if made.Err? {
      return Err(made.error);
    }
    var image := made.value;
    TileGrid.CellsAreCoverTiles(tiles, ls, tileLevel, TileGrid.Bounds(ls, tileLevel, intersection.value));
    var merged := MergeTiles(layer, sector, aspectRatio, abortOnError, tiles, image);
    if merged.Err? {
      return Err(merged.error);
    }
    return Ok(Some(image));
  }

  /**
   * The tile loop of composeImageForSubSector over the grid, row by row: it ends with the plan's merges
   * drawn into the canvas, or with the plan's exception after the merges of the cells before the failure.
   */
  method MergeTiles(layer: ImageLayer, sector: Sector, aspectRatio: real, abortOnError: bool,
                    tiles: array2<Option<TileGrid.Tile>>, image: Canvas) returns (r: Result<()>)
    modifies image
    ensures var plan := Plan(layer, sector, aspectRatio, abortOnError, TileGrid.Cells(tiles));
            (plan.Err? ==> r == Err(plan.error))
            && (plan.Ok? ==> r == Ok(()) && image.merges == old(image.merges) + plan.value)
    ensures r.Err? ==>
              exists k :: 0 <= k <= |TileGrid.Cells(tiles)|
                && Plan(layer, sector, aspectRatio, abortOnError, TileGrid.Cells(tiles)[..k]).Ok?
                && image.merges == old(image.merges) + Plan(layer, sector, aspectRatio, abortOnError, TileGrid.Cells(tiles)[..k]).value
  {
    ghost var start := image.merges;
    var i := 0;
    while i < tiles.Length0
      invariant 0 <= i <= tiles.Length0
      invariant Plan(layer, sector, aspectRatio, abortOnError, TileGrid.GridPrefix(tiles, i, 0)).Ok?
      invariant image.merges == start + Plan(layer, sector, aspectRatio, abortOnError, TileGrid.GridPrefix(tiles, i, 0)).value
    {
      var row, j := MergeRow(layer, sector, aspectRatio, abortOnError, tiles, i, image, start);
      if row.Err? {
        ghost var prefix := TileGrid.GridPrefix(tiles, i, j);
        TileGrid.GridPrefixGrows(tiles, i, j + 1, tiles.Length0, 0);
        PlanFailureSticks(layer, sector, aspectRatio, abortOnError, TileGrid.GridPrefix(tiles, i, j + 1), TileGrid.Cells(tiles));
        TileGrid.GridPrefixGrows(tiles, i, j, tiles.Length0, 0);
        assert TileGrid.Cells(tiles)[..|prefix|] == prefix;
        return row;
      }
      assert TileGrid.GridPrefix(tiles, i + 1, 0) == TileGrid.GridPrefix(tiles, i, tiles.Length1);
      i := i + 1;
    }
    return Ok(());
  }

  /**
   * The inner tile loop over row i: each cell's image is merged into the canvas in turn, or the loop ends at
   * column j with the fatal exception of that cell's retrieval, the merges of the cells before it drawn.
   */
  method MergeRow(layer: ImageLayer, sector: Sector, aspectRatio: real, abortOnError: bool,
                  tiles: array2<Option<TileGrid.Tile>>, i: nat, image: Canvas, ghost start: seq<Merge>)
    returns (r: Result<()>, ghost j: nat)
    requires i < tiles.Length0
    requires Plan(layer, sector, aspectRatio, abortOnError, TileGrid.GridPrefix(tiles, i, 0)).Ok?
    requires image.merges == start + Plan(layer, sector, aspectRatio, abortOnError, TileGrid.GridPrefix(tiles, i, 0)).value
    modifies image
    ensures j <= tiles.Length1
    ensures r.Ok? ==> j == tiles.Length1
    ensures r.Err? ==> j < tiles.Length1
                       && Plan(layer, sector, aspectRatio, abortOnError, TileGrid.GridPrefix(tiles, i, j + 1)) == Err(r.error)
    ensures Plan(layer, sector, aspectRatio, abortOnError, TileGrid.GridPrefix(tiles, i, j)).Ok?
    ensures image.merges == start + Plan(layer, sector, aspectRatio, abortOnError, TileGrid.GridPrefix(tiles, i, j)).value
  {
    j := 0;
    var col := 0;
    while col < tiles.Length1
      invariant 0 <= col <= tiles.Length1 && j == col
      invariant Plan(layer, sector, aspectRatio, abortOnError, TileGrid.GridPrefix(tiles, i, col)).Ok?
      invariant image.merges == start + Plan(layer, sector, aspectRatio, abortOnError, TileGrid.GridPrefix(tiles, i, col)).value
    {
      ghost var prefix := TileGrid.GridPrefix(tiles, i, col);
      ghost var next := TileGrid.GridPrefix(tiles, i, col + 1);
      assert next[..|prefix|] == prefix && next[|prefix|] == tiles[i, col];
      var cell := tiles[i, col];
      if cell.Some? {
        var got := layer.getImage(cell.value);
        if got.Err? {
          if Fatal(got.error, abortOnError) {
            return Err(got.error), col;
          }
        } else if got.value.Some? {
          image.MergeImage(sector, cell.value.sector, aspectRatio, got.value.value);
        }
      }
      col := col + 1;
      j := col;
    }
    return Ok(()), col;
  }

  //////////////////////////////////////////////////////////////////////////////
  // composeImageForSector: the bounding-box fold
  //////////////////////////////////////////////////////////////////////////////

  /**
   * The fold of composeImageForSector over the grid: four running bounds that start at the far edges of the
   * globe and move out to each tile's bounds, and the tile count. A null cell is the NullPointerException of
   * `tile.getSector()`.
   */
  method FoldTileBounds(tiles: array2<Option<TileGrid.Tile>>) returns (r: Result<(Sector, nat)>)
    ensures r.Err? <==> EM.HasNull(tiles)
    ensures r.Err? ==> r.error == NullPointer
    ensures r.Ok? ==> r.value.0 == Bounds(EM.SectorsOf(TileGrid.Cells(tiles)))
                      && r.value.1 == tiles.Length0 * tiles.Length1
  {
    var box := EmptyBounds;
    var numTiles := 0;
    var i := 0;
    while i < tiles.Length0
      invariant 0 <= i <= tiles.Length0 && numTiles == i * tiles.Length1
      invariant box == Bounds(EM.SectorsOf(TileGrid.GridPrefix(tiles, i, 0)))
      invariant forall a, b :: 0 <= a < i && 0 <= b < tiles.Length1 ==> tiles[a, b].Some?
    {
      var row := FoldRow(tiles, i, box, numTiles);
      if row.Err? {
        ghost var b :| 0 <= b < tiles.Length1 && tiles[i, b].None?;
        assert EM.HasNull(tiles) by { assert tiles[i, b].None?; }
        return Err(row.error);
      }
      assert TileGrid.GridPrefix(tiles, i + 1, 0) == TileGrid.GridPrefix(tiles, i, tiles.Length1);
      box, numTiles := row.value.0, row.value.1;
      RasterCopy.NextRow(i, tiles.Length1);
      i := i + 1;
    }
    assert !EM.HasNull(tiles);
    return Ok((box, numTiles));
  }

  /**
   * The inner loop of the fold over row i, continuing from the box and the count of the rows before it:
   * the four bounds move out to each tile's sector in turn, or the first null tile fails.
   */
  method FoldRow(tiles: array2<Option<TileGrid.Tile>>, i: nat, box: Sector, count: nat)
    returns (r: Result<(Sector, nat)>)
    requires i < tiles.Length0
    requires box == Bounds(EM.SectorsOf(TileGrid.GridPrefix(tiles, i, 0)))
    ensures r.Err? <==> exists b :: 0 <= b < tiles.Length1 && tiles[i, b].None?
    ensures r.Err? ==> r.error == NullPointer
    ensures r.Ok? ==> r.value.0 == Bounds(EM.SectorsOf(TileGrid.GridPrefix(tiles, i, tiles.Length1)))
                      && r.value.1 == count + tiles.Length1
  {
    var minLatitude, maxLatitude, minLongitude, maxLongitude := box.minLat, box.maxLat, box.minLon, box.maxLon;
    var numTiles := count;
    ghost var seen := EM.SectorsOf(TileGrid.GridPrefix(tiles, i, 0));
    var j := 0;
    while j < tiles.Length1
      invariant 0 <= j <= tiles.Length1 && numTiles == count + j
      invariant seen == EM.SectorsOf(TileGrid.GridPrefix(tiles, i, j))
      invariant Sector(minLatitude, maxLatitude, minLongitude, maxLongitude) == Bounds(seen)
      invariant forall b :: 0 <= b < j ==> tiles[i, b].Some?
    {
      var tile := tiles[i, j];
      if tile.None? {
        return Err(NullPointer);
      }
      ghost var before := Sector(minLatitude, maxLatitude, minLongitude, maxLongitude);
      ghost var prefix := TileGrid.GridPrefix(tiles, i, j);
      assert (prefix + [tile])[..|prefix|] == prefix;
      BoundsSnoc(seen, tile.value.sector);
      seen := seen + [tile.value.sector];
      var s := tile.value.sector;
      if s.minLat < minLatitude {
        minLatitude := s.minLat;
      }
      if s.minLon < minLongitude {
        minLongitude := s.minLon;
      }
      if s.maxLat > maxLatitude {
        maxLatitude := s.maxLat;
      }
      if s.maxLon > maxLongitude {
        maxLongitude := s.maxLon;
      }
      assert Sector(minLatitude, maxLatitude, minLongitude, maxLongitude) == Extend(before, s);
      numTiles := numTiles + 1;
      j := j + 1;
    }
    return Ok((Sector(minLatitude, maxLatitude, minLongitude, maxLongitude), numTiles));
  }

  /** One step of the fold: appending a sector to the list moves the box out to that sector. */
  lemma BoundsSnoc(ss: seq<Sector>, s: Sector)
    ensures Bounds(ss + [s]) == Extend(Bounds(ss), s)
  {
    assert (ss + [s])[..|ss|] == ss;
  }

  //////////////////////////////////////////////////////////////////////////////
  // composeImageForSector: the partition
  //////////////////////////////////////////////////////////////////////////////

  /** The ceiling on a part's side in pixels. */
  const ImagePartLimit := 8192

  /**
   * The partition of the selection: its size in canvas pixels (doubles), the parts per side and the integer
   * size of each part.
   */
  datatype ImagePartition = ImagePartition(sectorWidth: real, sectorHeight: real, numParts: int,
                                           subWidth: int, subHeight: int)

  /**
   * `numParts = (int)(maxSide / 8192) + 1` and each part `(int)(side / numParts)`. The int addition wraps
   * when the cast saturates, giving the least int.
   */
  function ImageSplit(sectorWidth: real, sectorHeight: real): (p: ImagePartition)
    requires sectorWidth >= 0.0 && sectorHeight >= 0.0
    ensures p.sectorWidth == sectorWidth && p.sectorHeight == sectorHeight
    ensures p.numParts >= 1 || p.numParts == IntMin
    ensures p.numParts >= 1 ==>
              0 <= p.subWidth < ImagePartLimit && 0 <= p.subHeight < ImagePartLimit
              && p.subWidth as real <= sectorWidth && p.subHeight as real <= sectorHeight
    ensures p.numParts > 1 ==>
              ((p.numParts - 1) * ImagePartLimit) as real <= (if sectorWidth > sectorHeight then sectorWidth else sectorHeight)
  {
    var maxSide := if sectorWidth > sectorHeight then sectorWidth else sectorHeight;
    var q := CastToInt(maxSide / ImagePartLimit as real);
    var numParts := if q == IntMax then IntMin else q + 1;
    if numParts >= 1 then
      ImagePartSide(sectorWidth, maxSide, numParts);
      ImagePartSide(sectorHeight, maxSide, numParts);
      ImagePartition(sectorWidth, sectorHeight, numParts,
                     CastToInt(sectorWidth / numParts as real), CastToInt(sectorHeight / numParts as real))
    else
      ImagePartition(sectorWidth, sectorHeight, numParts,
                     CastToInt(sectorWidth / numParts as real), CastToInt(sectorHeight / numParts as real))
  }

  /** Multiplying by a positive factor keeps a strict order. */
  lemma MulStrict(a: real, b: real, c: real)
    requires a < b && c > 0.0
    ensures a * c < b * c
  {
    assert b * c - a * c == (b - a) * c;
  }

  /** Dividing by a positive divisor keeps the order. */
  lemma DivMonotone(a: real, b: real, d: real)
    requires a <= b && d > 0.0
    ensures a / d <= b / d
  {
    var qa, qb := a / d, b / d;
    assert qa * d == a && qb * d == b;
    if qa > qb {
      MulStrict(qb, qa, d);
      assert false;
    }
  }

  /** a < c * b with b positive gives a / b < c. */
  lemma DivBelow(a: real, b: real, c: real)
    requires b > 0.0 && a < c * b
    ensures a / b < c
  {
    var q := a / b;
    assert q * b == a;
    if q >= c {
      MulMonotone(c, q, b);
      assert false;
    }
  }

  /**
   * With n = (int)(maxSide / 8192) + 1 below the saturation bound, each side up to maxSide divided by n is
   * below 8192 and not above the side, and n - 1 parts would not have been enough.
   */
  lemma ImagePartSide(side: real, maxSide: real, n: int)
    requires 0.0 <= side <= maxSide && n >= 1
    requires n - 1 == CastToInt(maxSide / ImagePartLimit as real) && n - 1 < IntMax
    ensures 0.0 <= side / n as real <= side && side / n as real < ImagePartLimit as real
    ensures ((n - 1) * ImagePartLimit) as real <= maxSide
  {
    var limit := ImagePartLimit as real;
    var N := n as real;
    var x := maxSide / limit;
    assert x < N;
    assert maxSide < limit * N by {
      assert maxSide == x * limit;
      MulStrict(x, N, limit);
    }
    DivMonotone(side, maxSide, N);
    DivBelow(maxSide, N, limit);
    assert (n - 1) as real <= x;
    assert (n - 1) as real * limit <= maxSide by {
      MulMonotone((n - 1) as real, x, limit);
    }
    assert side / N <= side by {
      MulMonotone(1.0 / N, 1.0, side);
    }
  }

  /**
   * The partition for a selection whose covering tiles span the box `box` on a rows x cols grid of the
   * canvas level: the canvas is cols * tileWidth by rows * tileHeight pixels and the selection's size is
   * its share of the box, scaled to the canvas.
   */
  function ImagePartitionFor(select: Sector, box: Sector, rows: nat, cols: nat, canvasLevel: TileGrid.Level): ImagePartition
    requires select.WellFormed() && box.HasArea() && canvasLevel.tileWidth > 0 && canvasLevel.tileHeight > 0
  {
    EM.ScaledBounds(select.DeltaLon(), box.DeltaLon(), cols * canvasLevel.tileWidth);
    EM.ScaledBounds(select.DeltaLat(), box.DeltaLat(), rows * canvasLevel.tileHeight);
    ImageSplit(EM.Scaled(select.DeltaLon(), box.DeltaLon(), cols * canvasLevel.tileWidth),
               EM.Scaled(select.DeltaLat(), box.DeltaLat(), rows * canvasLevel.tileHeight))
  }

  //////////////////////////////////////////////////////////////////////////////
  // makeExportImage: file names and the world file
  //////////////////////////////////////////////////////////////////////////////

  /**
   * Where the files go and how numbers become text: the desktop directory (FileSystemView), the fixed-point
   * formatting of `%4.<precision>f` (None stands for the non-finite quotient of a division by a zero pixel
   * count) and the line separator of `%n`.
   */
  datatype Output = Output(desktopPath: string, fixed: (Option<real>, nat) -> string, lineSeparator: string)

  /** The six parameters of an ESRI world file. */
  datatype WorldFile = WorldFile(pixelWidth: Option<real>, rotationY: int, rotationX: int,
                                 pixelHeight: Option<real>, west: real, north: real)

  /** `x / n` with n a Java int promoted to double: non-finite (None) for n == 0. */
  function Quotient(x: real, n: int): Option<real> {
    if n == 0 then None else Some(x / n as real)
  }

  /** The world file of a part of xPixel x yPixel pixels showing `sector`: no rotation, origin at the north-west corner. */
  function WorldFileFor(sector: Sector, xPixel: int, yPixel: int): WorldFile {
    WorldFile(Quotient(sector.DeltaLon(), xPixel), 0, 0, Quotient(sector.DeltaLat(), yPixel), sector.minLon, sector.maxLat)
  }

  /** The lines of the .jgw text in file order; the fourth carries a literal minus sign. */
  function WorldFileLines(w: WorldFile, out: Output): (lines: seq<string>)
    ensures |lines| == 6
  {
    [out.fixed(w.pixelWidth, 17), IntToDecimal(w.rotationY), IntToDecimal(w.rotationX),
     "-" + out.fixed(w.pixelHeight, 17), out.fixed(Some(w.west), 15), out.fixed(Some(w.north), 15)]
  }

  /** Each line followed by the separator, as the StringBuilder appends them. */
  function JoinLines(lines: seq<string>, separator: string): string {
    if lines == [] then "" else JoinLines(lines[..|lines| - 1], separator) + lines[|lines| - 1] + separator
  }

  /**
   * The world file maps pixel corners to the part's sector: for positive pixel counts, pixel column c and
   * row r sit at longitude west + c * pixelWidth and latitude north - r * pixelHeight, so the corner
   * (0, 0) is the north-west corner and (xPixel, yPixel) the south-east corner of the sector.
   */
  lemma WorldFileGeoreferences(sector: Sector, xPixel: int, yPixel: int)
    requires xPixel > 0 && yPixel > 0
    ensures var w := WorldFileFor(sector, xPixel, yPixel);
            w.pixelWidth.Some? && w.pixelHeight.Some?
            && w.west == sector.minLon && w.north == sector.maxLat
            && w.west + xPixel as real * w.pixelWidth.value == sector.maxLon
            && w.north - yPixel as real * w.pixelHeight.value == sector.minLat
            && w.rotationX == 0 && w.rotationY == 0
  {
  }

  /** What makeExportImage returns: the image and the JPEG and world-file paths and text. */
  datatype ExportImagePackage = ExportImagePackage(image: Option<ImageValue>, imagePath: string,
                                                   jgw: string, jgwPath: string)

  /** makeExportImage: files "row_col.jpeg" and "row_col.jgw" on the desktop, and the world file text. */
  function MakeExportImage(out: Output, row: nat, col: nat, sector: Sector, xPixel: int, yPixel: int,
                           image: Option<ImageValue>): (p: ExportImagePackage)
    ensures p.image == image
    ensures p.jgw == JoinLines(WorldFileLines(WorldFileFor(sector, xPixel, yPixel), out), out.lineSeparator)
  {
    ExportImagePackage(image,
                       out.desktopPath + "\\" + RowColStem(row, col) + ".jpeg",
                       JoinLines(WorldFileLines(WorldFileFor(sector, xPixel, yPixel), out), out.lineSeparator),
                       out.desktopPath + "\\" + RowColStem(row, col) + ".jgw")
  }

  /** Different parts get different image and world-file paths, and each world file sits beside its image. */
  lemma PackagePathsDistinct(out: Output, r1: nat, c1: nat, r2: nat, c2: nat, s1: Sector, s2: Sector,
                             x1: int, y1: int, x2: int, y2: int, i1: Option<ImageValue>, i2: Option<ImageValue>)
    requires MakeExportImage(out, r1, c1, s1, x1, y1, i1).imagePath == MakeExportImage(out, r2, c2, s2, x2, y2, i2).imagePath
             || MakeExportImage(out, r1, c1, s1, x1, y1, i1).jgwPath == MakeExportImage(out, r2, c2, s2, x2, y2, i2).jgwPath
    ensures r1 == r2 && c1 == c2
  {
    var head := out.desktopPath + "\\";
    var a, b := RowColStem(r1, c1), RowColStem(r2, c2);
    var p1, p2 := MakeExportImage(out, r1, c1, s1, x1, y1, i1), MakeExportImage(out, r2, c2, s2, x2, y2, i2);
    if p1.jgwPath == p2.jgwPath {
      StemFromPath(head, a, b, ".jgw");
    } else {
      StemFromPath(head, a, b, ".jpeg");
    }
    RowColStemInjective(r1, c1, r2, c2);
  }

  /** Two paths with the same directory and extension name the same stem only. */
  lemma StemFromPath(head: string, a: string, b: string, ext: string)
    requires head + a + ext == head + b + ext
    ensures a == b
  {
    var pa, pb := head + a + ext, head + b + ext;
    assert |a| == |b|;
    assert a == pa[|head|..|head| + |a|];
    assert b == pb[|head|..|head| + |b|];
  }

  //////////////////////////////////////////////////////////////////////////////
  // composeImageForSector: the packages
  //////////////////////////////////////////////////////////////////////////////

  /**
   * The package of part (row, col): the equal-angle cell of the selection, composed at the canvas level with
   * abortOnError set, and packaged with its world file.
   */
  function PackageAt(layer: ImageLayer, select: Sector, p: ImagePartition, level: int, out: Output,
                     row: nat, col: nat): (r: Result<ExportImagePackage>)
    requires layer.levels.Valid() && p.numParts > 0
    ensures r.Ok? ==> r.value.imagePath == out.desktopPath + "\\" + RowColStem(row, col) + ".jpeg"
  {
    var sub := Cell(select, p.numParts, row, col);
    var image := SubImage(layer, sub, p.subWidth, p.subHeight, 1.0, level, true);
    if image.Err? then Err(image.error)
    else Ok(MakeExportImage(out, row, col, sub, p.subWidth, p.subHeight, image.value))
  }

  /**
   * Part (row, col) is where the package loops stop with exception e: every part before it in row-major
   * order was packaged, and either its own composition raised e, or it was packaged and is the first part
   * whose index `row * numParts + col` lies past the end of the `length`-element array (which happens only
   * when `numParts * numParts` overflowed).
   */
  ghost predicate FirstPackageFailure(layer: ImageLayer, select: Sector, p: ImagePartition, level: int, out: Output,
                                      length: int, e: Error, row: nat, col: nat)
    requires layer.levels.Valid() && p.numParts > 0
  {
    var n := p.numParts;
    row < n && col < n && RasterCopy.TopDownIndex(row, col, n) <= length
    && (forall rr, cc :: 0 <= rr < n && 0 <= cc < n && RasterCopy.Before(rr, cc, row, col) ==>
          PackageAt(layer, select, p, level, out, rr, cc).Ok?)
    && (PackageAt(layer, select, p, level, out, row, col) == Err(e)
        || (PackageAt(layer, select, p, level, out, row, col).Ok? && RasterCopy.TopDownIndex(row, col, n) == length
            && e == IndexOutOfBounds))
  }

  /**
   * The outcome of the package loops. The array has `numParts * numParts` elements, an int product: a
   * negative one is a NegativeArraySizeException. A non-positive numParts runs no loop. Otherwise success is
   * one package per part at index row * numParts + col, and failure the exception of the first part, in
   * row-major order, whose composition or store fails.
   */
  ghost predicate PackagesResult(layer: ImageLayer, select: Sector, p: ImagePartition, level: int, out: Output,
                                 r: Result<seq<ExportImagePackage>>)
    requires layer.levels.Valid()
  {
    var n := p.numParts;
    var length := Wrap32(n * n);
    (length < 0 ==> r == Err(NegativeArraySize))
    && (length >= 0 && n < 1 ==> r == Ok([]))
    && (n >= 1 ==>
          (r.Ok? ==> n * n <= IntMax && |r.value| == n * n
                     && forall row, col :: 0 <= row < n && 0 <= col < n ==>
                          RasterCopy.TopDownIndex(row, col, n) < n * n
                          && PackageAt(layer, select, p, level, out, row, col) == Ok(r.value[RasterCopy.TopDownIndex(row, col, n)]))
          && (length >= 0 && r.Err? ==>
                exists row, col :: FirstPackageFailure(layer, select, p, level, out, length, r.error, row, col)))
  }

  /**
   * Without overflow no store fails: the loops succeed exactly when every part is composed, and otherwise
   * fail with the exception of the first part, in row-major order, whose composition fails.
   */
  lemma PackagesWithoutOverflow(layer: ImageLayer, select: Sector, p: ImagePartition, level: int, out: Output,
                                r: Result<seq<ExportImagePackage>>)
    requires layer.levels.Valid() && p.numParts > 0
    requires p.numParts * p.numParts <= IntMax && PackagesResult(layer, select, p, level, out, r)
    ensures r.Ok? <==> forall row, col :: 0 <= row < p.numParts && 0 <= col < p.numParts ==>
                         PackageAt(layer, select, p, level, out, row, col).Ok?
    ensures r.Err? ==> exists row, col :: 0 <= row < p.numParts && 0 <= col < p.numParts
                         && PackageAt(layer, select, p, level, out, row, col) == Err(r.error)
                         && forall rr, cc :: 0 <= rr < p.numParts && 0 <= cc < p.numParts && RasterCopy.Before(rr, cc, row, col) ==>
                              PackageAt(layer, select, p, level, out, rr, cc).Ok?
  {
    var n := p.numParts;
    var length := Wrap32(n * n);
    assert length == n * n;
    if r.Err? {
      var row, col :| FirstPackageFailure(layer, select, p, level, out, length, r.error, row, col);
      RasterCopy.TopDownBijection(row, col, 0, n, n);
      assert PackageAt(layer, select, p, level, out, row, col) == Err(r.error);
    }
  }

  /** Every part before (row, col) in row-major order sits in a prefix of row * numParts + col packages. */
  lemma EarlierPackagesMade(layer: ImageLayer, select: Sector, p: ImagePartition, level: int, out: Output,
                            stored: seq<ExportImagePackage>, row: nat, col: nat)
    requires layer.levels.Valid() && p.numParts > 0 && row < p.numParts && col < p.numParts
    requires |stored| == RasterCopy.TopDownIndex(row, col, p.numParts)
    requires PackagesSoFar(layer, select, p, level, out, stored)
    ensures forall rr, cc :: 0 <= rr < p.numParts && 0 <= cc < p.numParts && RasterCopy.Before(rr, cc, row, col) ==>
              PackageAt(layer, select, p, level, out, rr, cc).Ok?
  {
    forall rr, cc | 0 <= rr < p.numParts && 0 <= cc < p.numParts && RasterCopy.Before(rr, cc, row, col)
      ensures PackageAt(layer, select, p, level, out, rr, cc).Ok?
    {
      RasterCopy.BeforeIndex(rr, cc, row, col, p.numParts);
    }
  }

  /**
   * The package loops of composeImageForSector: `new ExportImagePackage[numParts * numParts]` (an int
   * product), then for each part in row-major order the sub-sector composition, makeExportImage and the
   * store at index `row * numParts + col`. The stores go to consecutive indices, so the array is modelled by
   * the sequence of stored packages.
   */
  method MakePackages(layer: ImageLayer, select: Sector, p: ImagePartition, level: int, out: Output)
    returns (r: Result<seq<ExportImagePackage>>)
    requires layer.levels.Valid()
    ensures PackagesResult(layer, select, p, level, out, r)
  {
    var n := p.numParts;
    var length := Wrap32(n * n);
    if length < 0 {
      return Err(NegativeArraySize);
    }
    var packages: seq<ExportImagePackage> := [];
    var row := 0;
    while row < n
      invariant 0 <= row && (n >= 1 ==> row <= n) && (n < 1 ==> row == 0)
      invariant |packages| == row * n && |packages| <= length
      invariant PackagesSoFar(layer, select, p, level, out, packages)
    {
      var next := MakeRowPackages(layer, select, p, level, out, length, row, packages);
      if next.Err? {
        return Err(next.error);
      }
      packages := next.value;
      RasterCopy.NextRow(row, n);
      row := row + 1;
    }
    if n >= 1 {
      RasterCopy.TopDownInRange(n, n);
    }
    return Ok(packages);
  }

  /** The packages stored so far are those of the parts whose index they occupy. */
  ghost predicate PackagesSoFar(layer: ImageLayer, select: Sector, p: ImagePartition, level: int, out: Output,
                                packages: seq<ExportImagePackage>)
    requires layer.levels.Valid()
  {
    p.numParts > 0 ==>
      forall rr, cc :: 0 <= rr < p.numParts && 0 <= cc < p.numParts
                       && RasterCopy.TopDownIndex(rr, cc, p.numParts) < |packages| ==>
        PackageAt(layer, select, p, level, out, rr, cc) == Ok(packages[RasterCopy.TopDownIndex(rr, cc, p.numParts)])
  }

  /**
   * The inner loop for one row: each part's package is stored at the next index, unless the composition
   * fails or the index is past the end of the array (possible only when numParts * numParts overflowed).
   */
  method MakeRowPackages(layer: ImageLayer, select: Sector, p: ImagePartition, level: int, out: Output,
                         length: int, row: nat, packages: seq<ExportImagePackage>)
    returns (r: Result<seq<ExportImagePackage>>)
    requires layer.levels.Valid() && p.numParts >= 1 && row < p.numParts
    requires 0 <= length <= IntMax && |packages| == row * p.numParts && |packages| <= length
    requires PackagesSoFar(layer, select, p, level, out, packages)
    ensures r.Ok? ==> |r.value| == (row + 1) * p.numParts && |r.value| <= length
                      && PackagesSoFar(layer, select, p, level, out, r.value)
    ensures r.Err? ==> exists col :: FirstPackageFailure(layer, select, p, level, out, length, r.error, row, col)
  {
    var n := p.numParts;
    var stored := packages;
    var col := 0;
    while col < n
      invariant 0 <= col <= n && |stored| == row * n + col && |stored| <= length
      invariant PackagesSoFar(layer, select, p, level, out, stored)
    {
      var sub := Cell(select, n, row, col);
      var image := ComposeImageForSubSector(layer, sub, p.subWidth, p.subHeight, 1.0, level, true);
      EarlierPackagesMade(layer, select, p, level, out, stored, row, col);
      if image.Err? {
        assert PackageAt(layer, select, p, level, out, row, col) == Err(image.error);
        assert FirstPackageFailure(layer, select, p, level, out, length, image.error, row, col);
        return Err(image.error);
      }
      var content := if image.value.Some? then Some(image.value.value.Content()) else None;
      var package := MakeExportImage(out, row, col, sub, p.subWidth, p.subHeight, content);
      assert PackageAt(layer, select, p, level, out, row, col) == Ok(package);
      var index := Wrap32(row * n + col);
      if index < 0 || index >= length {
        assert FirstPackageFailure(layer, select, p, level, out, length, IndexOutOfBounds, row, col);
        return Err(IndexOutOfBounds);
      }
      forall rr, cc | 0 <= rr < n && 0 <= cc < n && RasterCopy.TopDownIndex(rr, cc, n) == |stored|
        ensures rr == row && cc == col
      {
        RasterCopy.TopDownBijection(rr, cc, 0, n, n);
        RasterCopy.TopDownBijection(row, col, 0, n, n);
      }
      stored := stored + [package];
      col := col + 1;
    }
    RasterCopy.NextRow(row, n);
    return Ok(stored);
  }

  /**
   * composeImageForSector: a null selection or one outside the layer's coverage is an
   * IllegalArgumentException; an empty grid of covering tiles gives null. Otherwise the packages of the
   * partition of the whole selection, whose size comes from the covering tiles' bounding box and the canvas
   * of the clamped level (the level asked for, not necessarily the level the tiles came from).
   */
  method ComposeImageForSector(layer: ImageLayer, selectSector: Option<Sector>, levelNumber: int, out: Output)
    returns (r: Result<Option<seq<ExportImagePackage>>>)
    requires layer.levels.Valid()
    requires selectSector.Some? ==> selectSector.value.WellFormed()
    ensures selectSector.None? ==> r == Err(IllegalArgument)
    ensures selectSector.Some? && !Intersects(layer.levels.sector, selectSector.value) ==> r == Err(IllegalArgument)
    ensures selectSector.Some? && Intersects(layer.levels.sector, selectSector.value) ==>
      var ls := layer.levels;
      var s := Intersection(ls.sector, selectSector.value).value;
      var clamped := ClampLevel(levelNumber, ls.LastLevel().levelNumber);
      var level := ls.levels[TileGrid.LevelFor(ls, clamped)];
      var g := TileGrid.Bounds(ls, level, s);
      (g.NumRows() < 0 || g.NumCols() < 0 ==> r == Err(NegativeArraySize))
      && (g.NumRows() >= 0 && g.NumCols() >= 0 && (g.NumRows() == 0 || g.NumCols() == 0) ==> r == Ok(None))
      && (g.NumRows() > 0 && g.NumCols() > 0 ==>
            var box := Bounds(EM.SectorsOf(TileGrid.CoverTiles(ls, level, g)));
            box.HasArea()
            && (r.Ok? ==> r.value.Some?)
            && PackagesResult(layer, selectSector.value,
                              ImagePartitionFor(selectSector.value, box, g.NumRows(), g.NumCols(), ls.levels[clamped]),
                              clamped, out, if r.Ok? then Ok(r.value.value) else Err(r.error)))
  {
    if selectSector.None? {
      return Err(IllegalArgument);
    }
    var select := selectSector.value;
    var ls := layer.levels;
    if !Intersects(ls.sector, select) {
      return Err(IllegalArgument);
    }
    var intersection := Intersection(ls.sector, select);
    var clamped := ClampLevel(levelNumber, ls.LastLevel().levelNumber);
    var grid, tileLevel := TileGrid.TilesInSector(ls, intersection, clamped);
    if grid.Err? {
      return Err(grid.error);
    }
    var tiles := grid.value;
    if tiles.Length0 == 0 || tiles.Length1 == 0 {
      return Ok(None);
    }
    ghost var g := TileGrid.Bounds(ls, tileLevel, intersection.value);
    TileGrid.CellsAreCoverTiles(tiles, ls, tileLevel, g);
    assert !EM.HasNull(tiles);
    // Every cell of the grid is counted, so the tile count is positive and the canvas is the grid's extent
    // at the clamped level, as ImagePartitionFor computes it.
    var fold := FoldTileBounds(tiles);
    var box := fold.value.0;
    BoxHasArea(tiles);
    var p := ImagePartitionFor(select, box, tiles.Length0, tiles.Length1, ls.levels[clamped]);
    var packages := MakePackages(layer, select, p, clamped, out);
    if packages.Err? {
      return Err(packages.error);
    }
    return Ok(Some(packages.value));
  }

  /** The bounding box of a full grid of tiles of positive extent has positive extent. */
  lemma BoxHasArea(tiles: array2<Option<TileGrid.Tile>>)
    requires tiles.Length0 > 0 && tiles.Length1 > 0
    requires forall i, j :: 0 <= i < tiles.Length0 && 0 <= j < tiles.Length1 ==>
               tiles[i, j].Some? && tiles[i, j].value.sector.HasArea()
    ensures Bounds(EM.SectorsOf(TileGrid.Cells(tiles))).HasArea()
  {
    var cells := TileGrid.Cells(tiles);
    TileGrid.GridPrefixAt(tiles, tiles.Length0, 0);
    assert TileGrid.CellIndex(0, 0, tiles.Length1) == 0;
    assert cells[0] == tiles[0, 0];
    var sectors := EM.SectorsOf(cells);
    SectorsOfKeepsFirst(cells);
    BoundsEnclose(sectors);
  }

  /** A cell list starting with a tile has that tile's sector first among its sectors. */
  lemma {:induction false} SectorsOfKeepsFirst(cells: seq<Option<TileGrid.Tile>>)
    requires |cells| > 0 && cells[0].Some?
    ensures |EM.SectorsOf(cells)| > 0 && EM.SectorsOf(cells)[0] == cells[0].value.sector
  {
    if |cells| > 1 {
      var prefix := cells[..|cells| - 1];
      assert prefix[0] == cells[0];
      SectorsOfKeepsFirst(prefix);
    } else {
      assert cells[..0] == [];
    }
  }

  //////////////////////////////////////////////////////////////////////////////
  // readElevations / writeElevationsToFile: the top-down copy
  //////////////////////////////////////////////////////////////////////////////

  /**
   * The exporter's writeElevationsToFile: the header declares the sector, the size and
   * `(double) Short.MIN_VALUE` as the missing-data signal, and the copy runs top-down (`for y = 0 to
   * height - 1`), as RasterCopy.CopyTopDown says.
   */
  method WriteElevationsToFile(sector: Sector, width: nat, height: nat, elevations: Option<seq<real>>)
    returns (r: Result<array2<real>>, header: EM.RasterHeader)
    ensures header == EM.RasterHeader(sector, width, height, EM.ShortMinValue)
    ensures r.Err? <==> width * height > 0 && (elevations.None? || |elevations.value| < width * height)
    ensures r.Err? ==> r.error == if elevations.None? then NullPointer else IndexOutOfBounds
    ensures r.Ok? ==> fresh(r.value) && r.value.Length0 == height && r.value.Length1 == width
    ensures r.Ok? && width * height > 0 ==>
              forall y, x :: 0 <= y < height && 0 <= x < width ==>
                RasterCopy.TopDownIndex(y, x, width) < |elevations.value|
                && r.value[y, x] == elevations.value[RasterCopy.TopDownIndex(y, x, width)]
  {
    header := EM.RasterHeader(sector, width, height, EM.ShortMinValue);
    r := RasterCopy.CopyTopDown(elevations, width, height);
  }

  /**
   * The overload taking an IExportElevationStream passes `stream.getBuffer()`, which an
   * ExportElevationBuffer answers with null: any raster with a cell fails with a NullPointerException.
   */
  method WriteStreamToFile(sector: Sector, stream: EM.ExportElevationBuffer)
    returns (r: Result<array2<real>>, header: EM.RasterHeader)
    ensures header == EM.RasterHeader(sector, stream.width, stream.height, EM.ShortMinValue)
    ensures stream.width * stream.height > 0 <==> r == Err(NullPointer)
    ensures r.Ok? ==> r.value.Length0 == stream.height && r.value.Length1 == stream.width
  {
    r, header := WriteElevationsToFile(sector, stream.width, stream.height, None);
  }

  /**
   * The exporter's readElevations emits the southern row of samples first (it is the same routine as
   * Sampling.ReadElevations), and the top-down copy stores it in raster row 0, the northern edge: raster
   * row y holds the samples taken y steps NORTH of the southern edge, so the raster comes out upside down.
   */
  lemma {:induction false} TopDownPutsSouthOnTop(s: Sector, width: nat, height: nat, y: nat, x: nat)
    requires y < height && x < width
    ensures var k := RasterCopy.TopDownIndex(y, x, width);
            var p := Sampling.SamplePoint(s, width, height, k / width, k % width);
            p.lat == s.minLat + y as real * Sampling.Step(s.minLat, s.maxLat, height)
            && p.lon == s.minLon + x as real * Sampling.Step(s.minLon, s.maxLon, width)
    ensures height >= 2 && s.minLat < s.maxLat && y == 0 ==>
              Sampling.SamplePoint(s, width, height, RasterCopy.TopDownIndex(y, x, width) / width,
                                   RasterCopy.TopDownIndex(y, x, width) % width).lat != s.maxLat
  {
    RasterCopy.TopDownBijection(y, x, 0, width, height);
  }
}
