/**
 * The tile pyramid of an elevation model or a tiled image layer and getTilesInSector: choosing the level
 * to read from and laying out the tiles that cover a sector in a north-to-south, west-to-east grid.
 */
module TileGrid {
  import opened Wrappers
  import opened Geo

  /** A level of the pyramid; `empty` is Level.isEmpty (no data is served at this level). */
  datatype Level = Level(levelNumber: int, tileDelta: LatLon, tileWidth: int, tileHeight: int,
                         cacheName: string, empty: bool)

  datatype TileKey = TileKey(levelNumber: int, row: int, column: int, cacheName: string)

  /** The tile at (row, column) of a level; the sector is the level set's computeSectorForKey. */
  datatype Tile = Tile(sector: Sector, level: Level, row: int, column: int)

  /**
   * A level set. The static Tile.computeRow / Tile.computeColumn (tile delta, angle, origin) and
   * LevelSet.computeSectorForKey are carried as functions, since their bodies are not part of this model.
   */
  datatype LevelSet = LevelSet(levels: seq<Level>, tileOrigin: LatLon, sector: Sector,
                               computeRow: (real, real, real) -> int,
                               computeColumn: (real, real, real) -> int,
                               sectorForKey: TileKey -> Sector)
  {
    /**
     * What a LevelSet guarantees by construction: at least one level, levels numbered by their position,
     * tiles of positive size, and tile sectors of positive extent.
     */
    ghost predicate Valid() {
      |levels| > 0
      && (forall i :: 0 <= i < |levels| ==> levels[i].levelNumber == i)
      && (forall i :: 0 <= i < |levels| ==> levels[i].tileWidth > 0 && levels[i].tileHeight > 0)
      && (forall k :: sectorForKey(k).HasArea())
    }

    function LastLevel(): (l: Level)
      requires Valid()
      ensures l == levels[|levels| - 1] && l.levelNumber == |levels| - 1
    {
      levels[|levels| - 1]
    }
  }

  /**
   * The level-choice loop of getTilesInSector: the last level when levelNumber is negative; otherwise the
   * first level from levelNumber on that is not empty, where only levels below the last are examined and the
   * last level is the fallback.
   */
  /** The level the search reaches from level i: the first non-empty level from i on below the last, else the last. */
  function LevelFrom(ls: LevelSet, i: nat): (t: nat)
    requires ls.Valid()
    ensures t < |ls.levels|
    decreases |ls.levels| - i
  {
    if i >= |ls.levels| - 1 then |ls.levels| - 1
    else if !ls.levels[i].empty then i
    else LevelFrom(ls, i + 1)
  }

  /** The level getTilesInSector reads for a requested level number. */
  function LevelFor(ls: LevelSet, levelNumber: int): (t: nat)
    requires ls.Valid()
    ensures t < |ls.levels|
  {
    if levelNumber < 0 then |ls.levels| - 1 else LevelFrom(ls, levelNumber)
  }

  /**
   * What the level choice means: a negative request reads the last level; otherwise the level read is at or
   * after the request, every level skipped is empty, and a level below the last is read only when it is not
   * empty. In particular a request for a non-empty level below the last reads that very level.
   */
  lemma {:induction false} LevelForMeaning(ls: LevelSet, levelNumber: int)
    requires ls.Valid()
    ensures levelNumber < 0 ==> LevelFor(ls, levelNumber) == |ls.levels| - 1
    ensures LevelFor(ls, levelNumber) < |ls.levels| - 1 ==>
              levelNumber <= LevelFor(ls, levelNumber) && !ls.levels[LevelFor(ls, levelNumber)].empty
    ensures levelNumber >= 0 ==> forall i :: levelNumber <= i < LevelFor(ls, levelNumber) ==> ls.levels[i].empty
    ensures 0 <= levelNumber < |ls.levels| - 1 && !ls.levels[levelNumber].empty ==> LevelFor(ls, levelNumber) == levelNumber
  {
    if levelNumber >= 0 {
      LevelFromMeaning(ls, levelNumber);
    }
  }

  lemma {:induction false} LevelFromMeaning(ls: LevelSet, from: nat)
    requires ls.Valid()
    ensures LevelFrom(ls, from) < |ls.levels| - 1 ==> from <= LevelFrom(ls, from) && !ls.levels[LevelFrom(ls, from)].empty
    ensures forall i :: from <= i < LevelFrom(ls, from) ==> ls.levels[i].empty
    decreases |ls.levels| - from
  {
    if from < |ls.levels| - 1 && ls.levels[from].empty {
      LevelFromMeaning(ls, from + 1);
    }
  }

  method ChooseLevel(ls: LevelSet, levelNumber: int) returns (target: nat)
    requires ls.Valid()
    ensures target == LevelFor(ls, levelNumber)
    ensures target < |ls.levels|
    ensures levelNumber < 0 ==> target == |ls.levels| - 1
    ensures target < |ls.levels| - 1 ==> levelNumber <= target && !ls.levels[target].empty
    ensures levelNumber >= 0 ==> forall i :: levelNumber <= i < target ==> ls.levels[i].empty
  {
    var last := ls.LastLevel();
    target := last.levelNumber;
    if levelNumber >= 0 {
      var i := levelNumber;
      while i < last.levelNumber
        invariant levelNumber <= i && (i <= last.levelNumber || i == levelNumber)
        invariant target == |ls.levels| - 1
        invariant forall j :: levelNumber <= j < i ==> ls.levels[j].empty
        invariant LevelFor(ls, levelNumber) == LevelFrom(ls, i)
      {
        if ls.levels[i].empty {
          i := i + 1;
          continue;
        }
        target := ls.levels[i].levelNumber;
        break;
      }
    }
  }

  /** The integer row and column bounds of the tiles of a level that cover a sector. */
  datatype GridBounds = GridBounds(nwRow: int, nwCol: int, seRow: int, seCol: int) {
    function NumRows(): int { nwRow - seRow + 1 }
    function NumCols(): int { seCol - nwCol + 1 }
  }

  function Bounds(ls: LevelSet, level: Level, s: Sector): GridBounds {
    var delta, origin := level.tileDelta, ls.tileOrigin;
    GridBounds(ls.computeRow(delta.lat, s.maxLat, origin.lat),
               ls.computeColumn(delta.lon, s.minLon, origin.lon),
               ls.computeRow(delta.lat, s.minLat, origin.lat),
               ls.computeColumn(delta.lon, s.maxLon, origin.lon))
  }

  function TileAt(ls: LevelSet, level: Level, row: int, col: int): Tile {
    Tile(ls.sectorForKey(TileKey(level.levelNumber, row, col, level.cacheName)), level, row, col)
  }

  /**
   * getTilesInSector: a null sector is an IllegalArgumentException; a negative row or column count is the
   * NegativeArraySizeException of `new Tile[numRows][numCols]`. Otherwise the grid is numRows x numCols,
   * and its cell [nwRow - row, col - nwCol] holds tile (row, col): row 0 is the northernmost row, column 0
   * the westernmost column, and every tile of the bounds appears exactly once, so no cell stays null.
   */
  method TilesInSector(ls: LevelSet, sector: Option<Sector>, levelNumber: int)
    returns (r: Result<array2<Option<Tile>>>, level: Level)
    requires ls.Valid()
    ensures sector.None? ==> r == Err(IllegalArgument)
    ensures sector.Some? ==>
      var g := Bounds(ls, level, sector.value);
      (r.Err? <==> g.NumRows() < 0 || g.NumCols() < 0)
      && (r.Err? ==> r.error == NegativeArraySize)
      && (r.Ok? ==> fresh(r.value) && r.value.Length0 == g.NumRows() && r.value.Length1 == g.NumCols()
                    && forall i, j :: 0 <= i < g.NumRows() && 0 <= j < g.NumCols() ==>
                         r.value[i, j] == Some(TileAt(ls, level, g.nwRow - i, g.nwCol + j)))
    ensures level == ls.levels[LevelFor(ls, levelNumber)]
  {
    var t := ChooseLevel(ls, levelNumber);
    level := ls.levels[t];
    if sector.None? {
      return Err(IllegalArgument), level;
    }
    var g := Bounds(ls, level, sector.value);
    if g.NumRows() < 0 || g.NumCols() < 0 {
      return Err(NegativeArraySize), level;
    }
    var tiles := new Option<Tile>[g.NumRows(), g.NumCols()]((i, j) => None);
    var row := g.nwRow;
    while row >= g.seRow
      invariant g.seRow - 1 <= row <= g.nwRow
      invariant forall i, j :: 0 <= i < g.NumRows() && 0 <= j < g.NumCols() ==>
                  tiles[i, j] == if i < g.nwRow - row then Some(TileAt(ls, level, g.nwRow - i, g.nwCol + j)) else None
    {
      var col := g.nwCol;
      while col <= g.seCol
        invariant g.nwCol <= col <= g.seCol + 1
        invariant forall i, j :: 0 <= i < g.NumRows() && 0 <= j < g.NumCols() ==>
                    tiles[i, j] == if i < g.nwRow - row || (i == g.nwRow - row && j < col - g.nwCol)
                                   then Some(TileAt(ls, level, g.nwRow - i, g.nwCol + j)) else None
      {
        tiles[g.nwRow - row, col - g.nwCol] := Some(TileAt(ls, level, row, col));
        col := col + 1;
      }
      row := row - 1;
    }
    return Ok(tiles), level;
  }

  //////////////////////////////////////////////////////////////////////////////
  // Row-major traversal of a tile grid (`for (Tile[] row : tiles) for (Tile tile : row)`)
  //////////////////////////////////////////////////////////////////////////////

  /** The cells the row-major traversal visits before reaching cell (i, j). */
  ghost function GridPrefix(a: array2<Option<Tile>>, i: nat, j: nat): seq<Option<Tile>>
    reads a
    requires i <= a.Length0 && j <= a.Length1 && (j > 0 ==> i < a.Length0)
    decreases i, j
  {
    if j > 0 then GridPrefix(a, i, j - 1) + [a[i, j - 1]]
    else if i > 0 then GridPrefix(a, i - 1, a.Length1)
    else []
  }

  /** Every cell of the grid in row-major order. */
  ghost function Cells(a: array2<Option<Tile>>): seq<Option<Tile>>
    reads a
  {
    GridPrefix(a, a.Length0, 0)
  }

  /** The position of cell (r, c) in a row-major traversal of rows `width` cells long. */
  function CellIndex(r: nat, c: nat, width: nat): nat { r * width + c }

  /** The traversal visits i full rows and j more cells before (i, j), each cell once, in row-major order. */
  lemma {:induction false} GridPrefixAt(a: array2<Option<Tile>>, i: nat, j: nat)
    requires i <= a.Length0 && j <= a.Length1 && (j > 0 ==> i < a.Length0)
    ensures |GridPrefix(a, i, j)| == CellIndex(i, j, a.Length1)
    ensures forall r, c :: 0 <= r < a.Length0 && 0 <= c < a.Length1 && (r < i || (r == i && c < j)) ==>
              CellIndex(r, c, a.Length1) < |GridPrefix(a, i, j)| && GridPrefix(a, i, j)[CellIndex(r, c, a.Length1)] == a[r, c]
    decreases i, j
  {
    if j > 0 {
      GridPrefixAt(a, i, j - 1);
      var p := GridPrefix(a, i, j - 1);
      assert GridPrefix(a, i, j) == p + [a[i, j - 1]];
      forall r, c | 0 <= r < a.Length0 && 0 <= c < a.Length1 && (r < i || (r == i && c < j))
        ensures CellIndex(r, c, a.Length1) < |GridPrefix(a, i, j)| && GridPrefix(a, i, j)[CellIndex(r, c, a.Length1)] == a[r, c]
      {
        if r == i && c == j - 1 {
          assert CellIndex(r, c, a.Length1) == |p|;
        } else {
          assert r < i || (r == i && c < j - 1);
        }
      }
    } else if i > 0 {
      GridPrefixAt(a, i - 1, a.Length1);
      assert (i - 1) * a.Length1 + a.Length1 == i * a.Length1;
      forall r, c | 0 <= r < a.Length0 && 0 <= c < a.Length1 && (r < i || (r == i && c < j))
        ensures CellIndex(r, c, a.Length1) < |GridPrefix(a, i, j)| && GridPrefix(a, i, j)[CellIndex(r, c, a.Length1)] == a[r, c]
      {
        assert r < i - 1 || (r == i - 1 && c < a.Length1);
      }
    }
  }

  /** The traversal visits the cells before (i, j) ahead of those before any later (i2, j2). */
  lemma {:induction false} GridPrefixGrows(a: array2<Option<Tile>>, i: nat, j: nat, i2: nat, j2: nat)
    requires i <= a.Length0 && j <= a.Length1 && (j > 0 ==> i < a.Length0)
    requires i2 <= a.Length0 && j2 <= a.Length1 && (j2 > 0 ==> i2 < a.Length0)
    requires i < i2 || (i == i2 && j <= j2)
    ensures GridPrefix(a, i, j) <= GridPrefix(a, i2, j2)
    decreases i2, j2
  {
    if i == i2 && j == j2 {
    } else if j2 > 0 {
      GridPrefixGrows(a, i, j, i2, j2 - 1);
    } else {
      GridPrefixGrows(a, i, j, i2 - 1, a.Length1);
    }
  }

  /**
   * The tiles of the bounds g of a level in the order the traversal of getTilesInSector's grid visits them:
   * row-major from the north-west tile, the cells before (i, j).
   */
  function RowMajor(ls: LevelSet, level: Level, g: GridBounds, i: nat, j: nat): (cells: seq<Option<Tile>>)
    requires i <= g.NumRows() && j <= g.NumCols() && (j > 0 ==> i < g.NumRows())
    decreases i, j
  {
    if j > 0 then RowMajor(ls, level, g, i, j - 1) + [Some(TileAt(ls, level, g.nwRow - i, g.nwCol + j - 1))]
    else if i > 0 then RowMajor(ls, level, g, i - 1, g.NumCols())
    else []
  }

  /** Every tile of the bounds, row-major from the north-west tile. */
  function CoverTiles(ls: LevelSet, level: Level, g: GridBounds): seq<Option<Tile>>
    requires g.NumRows() >= 0 && g.NumCols() >= 0
  {
    RowMajor(ls, level, g, g.NumRows(), 0)
  }

  /** A grid filled as getTilesInSector fills it is traversed as CoverTiles lists the tiles. */
  lemma CellsAreCoverTiles(a: array2<Option<Tile>>, ls: LevelSet, level: Level, g: GridBounds)
    requires a.Length0 == g.NumRows() && a.Length1 == g.NumCols()
    requires forall i, j :: 0 <= i < g.NumRows() && 0 <= j < g.NumCols() ==>
               a[i, j] == Some(TileAt(ls, level, g.nwRow - i, g.nwCol + j))
    ensures Cells(a) == CoverTiles(ls, level, g)
  {
    GridPrefixMatches(a, ls, level, g, a.Length0, 0);
  }

  lemma {:induction false} GridPrefixMatches(a: array2<Option<Tile>>, ls: LevelSet, level: Level, g: GridBounds, i: nat, j: nat)
    requires a.Length0 == g.NumRows() && a.Length1 == g.NumCols()
    requires forall i, j :: 0 <= i < g.NumRows() && 0 <= j < g.NumCols() ==>
               a[i, j] == Some(TileAt(ls, level, g.nwRow - i, g.nwCol + j))
    requires i <= a.Length0 && j <= a.Length1 && (j > 0 ==> i < a.Length0)
    ensures GridPrefix(a, i, j) == RowMajor(ls, level, g, i, j)
    decreases i, j
  {
    if j > 0 {
      GridPrefixMatches(a, ls, level, g, i, j - 1);
    } else if i > 0 {
      GridPrefixMatches(a, ls, level, g, i - 1, a.Length1);
    }
  }
}
