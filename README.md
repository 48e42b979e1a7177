# Elevation and image export of a WorldWind WMS elevation model, in Dafny

This project models the export path of a WorldWindJava fork. A user selects a sector of the globe. The
program then writes the imagery or the elevations of that sector to GeoTIFF/JPEG files on the desktop.
Three source files make up the core:

- `WMSBasicElevationModel` (the WMS-backed elevation model) contributes:
  - the defaulting of its configuration (`wmsSetFallbacks` and the tail of
    `getWMSElevationModelConfigParams`);
  - the GetMap request builder (`URLBuilder`);
  - the choice and layout of the tiles covering a sector (`getTilesInSector`);
  - the composition of elevations for a list of locations;
  - the partition of a selected sector into export tiles of fewer than 2048 samples per side
    (`composeElevations(Sector)`, `computeSectorToTile`);
  - the `ExportElevationBuffer` that writes one such tile.
- `ExportImageOrElevations` (the export application frame) contributes:
  - its file filters and the `.tif` destination suffix;
  - the sub-sector image composition with its failure policy;
  - the partition of the selection into JPEG parts of fewer than 8192 pixels per side;
  - the world file written beside each part;
  - a sampled elevation export (`adjustSize`, `readElevations`, `writeElevationsToFile`).
- `MesureToolRunable` contributes the same sampled export, with a bottom-up raster copy.

The modules follow that structure:

| module | models |
|---|---|
| `Wrappers` | Java's null, exceptions, truncating `int` division, `(int)` casts and 32-bit wrap-around |
| `Geo` | sectors, their intersection and union, and the equal-angle N x N partition |
| `Text` | lower-casing, substring and suffix tests, `%20` escaping, `%d` rendering |
| `Params` | the `AVList` of configuration parameters and its defaults |
| `WmsUrl` | `URLBuilder` |
| `TileGrid` | level choice and `getTilesInSector` |
| `ElevationModel` | `composeElevations` (both), `computeSectorToTile`, `ExportElevationBuffer` |
| `RasterCopy` | the top-down and bottom-up loops that copy samples into a raster |
| `Sampling` | `adjustSize`, `readElevations` and the bottom-up `writeElevationsToFile` |
| `ImageExport` | the rest of `ExportImageOrElevations` |

Code that updates state step by step is kept imperative:

- `AVList` and the URL builder's template cache are classes whose methods reassign fields.
- The canvas the tiles are merged into is a class with a list of merges.
- The tile grid is an `array2`.
- The copy loops write an `array2` raster.

The decision logic is stated as functions: the failure policy of the tile loop, the partitions, the file
names and the world file. Each loop is proved against them.

Several external pieces are parameters or fields of the model:

- the network and file retrieval of a tile;
- `getImage` of an image layer;
- the globe's great-circle `distance`;
- `WWUtil.compareVersions`;
- the tile row/column computation of a level set;
- number formatting.

## Model

| member | source | states |
|---|---|---|
| `Params.WmsSetFallbacks` | src/gov/nasa/worldwind/terrain/WMSBasicElevationModel.java:134-159 | the parameter list afterwards is the old one with each fallback key (level-zero delta 20°, 150x150 tiles, `.bil` suffix, missing-data signal -9999, 18 levels, 0 empty levels) filled in only where absent |
| `Params.FallbacksOnlyFillGaps` | src/gov/nasa/worldwind/terrain/WMSBasicElevationModel.java:134-159 | a value already present is never overwritten; every absent fallback key gets its fallback; the key set is the union; applying the fallbacks twice is applying them once |
| `Params.WithConfigDefaults` | src/gov/nasa/worldwind/terrain/WMSBasicElevationModel.java:333-356 | existing entries are kept; data type and byte order are always present afterwards; byte order defaults to little-endian; data type defaults to INT16 when the image format gives none; nothing but the four defaulted keys is added |
| `Params.ApplyConfigDefaults` | src/gov/nasa/worldwind/terrain/WMSBasicElevationModel.java:314-356 | fails with IllegalArgumentException exactly when the layer names are missing or empty, leaving the list unchanged; otherwise the list becomes `WithConfigDefaults` of the old list |
| `WmsUrl.SettleVersion` | src/gov/nasa/worldwind/terrain/WMSBasicElevationModel.java:183-197 | the `&crs=` key with version 1.3.0 and default CRS:84 is chosen exactly when no version is given or the given one is at least 1.3.0; otherwise the given version with `&srs=` and EPSG:4326 |
| `WmsUrl.SettleVersionIdempotent` | src/gov/nasa/worldwind/terrain/WMSBasicElevationModel.java:183-197 | settling the already settled version again changes nothing |
| `WmsUrl.CrsKeyMatchesVersion` | src/gov/nasa/worldwind/terrain/WMSBasicElevationModel.java:183-197 | the `&crs=` key is used exactly when the settled version is 1.3.0 |
| `WmsUrl.URLBuilder.constructor` | src/gov/nasa/worldwind/terrain/WMSBasicElevationModel.java:173-198 | records the settled version, the coordinate-system parameter (the configured one or the version's default), the layer, style and format names, and starts with no cached template |
| `WmsUrl.URLBuilder.GetURL` | src/gov/nasa/worldwind/terrain/WMSBasicElevationModel.java:200-263 | on the first call the prefix is built from the tile's service address and cached (a null address is a NullPointerException and caches nothing); later calls keep it; the URL text is the cached prefix plus the tile's width, height and bounding box in the version's axis order, with spaces escaped as `%20`, and it is a MalformedURLException exactly when `java.net.URL` rejects that text |
| `WmsUrl.URLBuilder.BuildTemplate` | src/gov/nasa/worldwind/terrain/WMSBasicElevationModel.java:205-223 | the template is the tile's service address, then `service=WMS` unless the lower-cased address already contains it, `request=GetMap`, the version, the coordinate system, layers, styles (empty when null) and the alternative format when one is given, else the configured one |
| `WmsUrl.URLBuilder.AppendTileQuery` | src/gov/nasa/worldwind/terrain/WMSBasicElevationModel.java:225-258 | appends exactly the per-tile part: width, height and the bounding box in the axis order of the version |
| `WmsUrl.PrefixNamesService` | src/gov/nasa/worldwind/terrain/WMSBasicElevationModel.java:203-223 | the prefix starts with the service address and names `service=WMS` |
| `WmsUrl.AxisOrderRule` | src/gov/nasa/worldwind/terrain/WMSBasicElevationModel.java:234-255 | the bounding box is written longitude first exactly when the version is at most 1.1.1 or the coordinate system is CRS:84, which holds in particular for the defaults |
| `WmsUrl.UrlShape` | src/gov/nasa/worldwind/terrain/WMSBasicElevationModel.java:200-262 | a URL has no spaces and ends with `&`, escaping distributes over prefix and tile part, and unescaping gives back the query when it holds no `%` |
| `TileGrid.LevelForMeaning` | src/gov/nasa/worldwind/terrain/WMSBasicElevationModel.java:371-382 | a negative level number selects the last level; otherwise the chosen level is the first non-empty one at or after the requested one, or the last level when all are empty |
| `TileGrid.ChooseLevel` | src/gov/nasa/worldwind/terrain/WMSBasicElevationModel.java:371-382 | the level loop returns the specified level: the last one for a negative number, else the first non-empty level at or after the request (or the last) |
| `TileGrid.TilesInSector` | src/gov/nasa/worldwind/terrain/WMSBasicElevationModel.java:362-406 | a null sector is an IllegalArgumentException; a negative row or column count is a NegativeArraySizeException; otherwise a fresh grid whose cell (i, j) is the tile at row nwRow - i and column nwCol + j, so rows run north to south and columns west to east |
| `TileGrid.GridPrefixAt` | src/gov/nasa/worldwind/terrain/WMSBasicElevationModel.java:385-405 | the row-major traversal of the grid visits cell (r, c) at position r * width + c |
| `TileGrid.GridPrefixMatches` | src/gov/nasa/worldwind/terrain/WMSBasicElevationModel.java:385-405 | the traversal of a laid-out grid is the row-major list of the covering tiles |
| `TileGrid.CellsAreCoverTiles` | src/gov/nasa/worldwind/terrain/WMSBasicElevationModel.java:385-405 | the full traversal of a laid-out grid is exactly the covering tiles |
| `Geo.Intersection` | src/gov/nasa/worldwind/terrain/WMSBasicElevationModel.java:598 | the intersection, when not null, lies in both sectors and contains every sector that lies in both |
| `Geo.BoundsEnclose` | src/gov/nasa/worldwind/terrain/WMSBasicElevationModel.java:625-629 | the union of the tile sectors contains each of them |
| `Geo.BoundsAttained` | src/gov/nasa/worldwind/terrain/WMSBasicElevationModel.java:625-629 | each bound of the union is the bound of some tile sector, so the union is the smallest enclosing sector |
| `Geo.CellsTileSector` | src/gov/nasa/worldwind/terrain/WMSBasicElevationModel.java:651-667 | the N x N parts lie in the sector, adjacent parts share their edges, and the first and last parts reach the sector's edges |
| `Geo.NumPartsBound` | src/gov/nasa/worldwind/terrain/WMSBasicElevationModel.java:641-644 | `maxSide / limit + 1` parts make each part's side smaller than the limit, and with more than one part the longer side really needed them |
| `ElevationModel.Samples` | src/gov/nasa/worldwind/terrain/WMSBasicElevationModel.java:509-521 | one sample per location, present exactly where the location is not null |
| `ElevationModel.SparseOverwriteMeaning` | src/gov/nasa/worldwind/terrain/WMSBasicElevationModel.java:509-521 | a buffer entry changes only to a present sample that is not the missing-data signal; every such sample is stored; an entry reads as the missing-data signal only if it already did; composing twice is composing once |
| `ElevationModel.ComposeElevations` | src/gov/nasa/worldwind/terrain/WMSBasicElevationModel.java:472-522 | null sector, list or buffer, a buffer shorter than the list, or a tile width above the list's length are IllegalArgumentException; a zero tile width is an ArithmeticException; a failed retrieval passes its exception on; otherwise the buffer becomes the sparse overwrite of its old contents with the samples; on failure the buffer is unchanged |
| `ElevationModel.FileNamesDistinct` | src/gov/nasa/worldwind/terrain/WMSBasicElevationModel.java:544 | two export buffers share a `row_col.tif` file name only when they are the same cell |
| `ElevationModel.DoSave` | src/gov/nasa/worldwind/terrain/WMSBasicElevationModel.java:548-586 | the file goes to the desktop under the buffer's name; the header carries the buffer's sector, size and the -32768 missing-data signal; the raster holds sample y * width + x at (y, x); a buffer shorter than width x height fails with an index-out-of-bounds error |
| `ElevationModel.PixelSide` | src/gov/nasa/worldwind/terrain/WMSBasicElevationModel.java:638-639 | `(int)(extent / boxExtent * pixels)` is the largest whole pixel count not above the scaled extent, saturated at the largest int |
| `ElevationModel.PixelSideWithinBox` | src/gov/nasa/worldwind/terrain/WMSBasicElevationModel.java:638-639 | a sector inside the tiles' union is no more pixels wide than the tiles |
| `ElevationModel.Split` | src/gov/nasa/worldwind/terrain/WMSBasicElevationModel.java:641-646 | at least one part per side; each part's size is below 2048 and at most the sector's; with more than one part, the longer side divided by one fewer part would still reach 2048 |
| `ElevationModel.PartSide` | src/gov/nasa/worldwind/terrain/WMSBasicElevationModel.java:641-646 | a side divided by the number of parts is below 2048 and not more than the side |
| `ElevationModel.PartAt` | src/gov/nasa/worldwind/terrain/WMSBasicElevationModel.java:651-665 | the buffer of part (row, col) covers cell (row, col) of the sector's N x N partition and has the part's size |
| `ElevationModel.CollectSectors` | src/gov/nasa/worldwind/terrain/WMSBasicElevationModel.java:625-627 | fails with NullPointerException exactly when a grid cell is null; otherwise it yields the tile sectors in traversal order, the first being cell (0, 0)'s |
| `ElevationModel.RetrieveParts` | src/gov/nasa/worldwind/terrain/WMSBasicElevationModel.java:649-667 | the array has `numParts * numParts` elements as a 32-bit int (negative: NegativeArraySizeException); success is the N x N part buffers with part (row, col) at `row * N + col`; failure is the exception of the first part in row-major order whose retrieval fails or whose index is past the array's end, every earlier part having been retrieved |
| `ElevationModel.RetrieveRow` | src/gov/nasa/worldwind/terrain/WMSBasicElevationModel.java:655-665 | one row of buffers is appended in order, or the failure is at the row's first part whose retrieval fails or whose index is past the array's end, all parts before it in row-major order having been retrieved |
| `ElevationModel.PartsWithoutOverflow` | src/gov/nasa/worldwind/terrain/WMSBasicElevationModel.java:649-667 | when `numParts * numParts` fits an int, the loop succeeds exactly when every part is retrieved, and otherwise fails with the retrieval exception of the first failing part in row-major order |
| `ElevationModel.ComputeSectorToTile` | src/gov/nasa/worldwind/terrain/WMSBasicElevationModel.java:610-688 | an empty grid is an IllegalArgumentException, a null cell a NullPointerException; otherwise the tiles' union has area and the result is that of the partition loop (`RetrieveParts`) over the partition computed from the sector's pixel size |
| `ElevationModel.PartsInsideSelection` | src/gov/nasa/worldwind/terrain/WMSBasicElevationModel.java:598-667 | every exported part lies inside both the selection and the model's coverage, is named `row_col.tif`, and vertically adjacent parts share their edge |
| `ElevationModel.ComposeElevationsForSector` | src/gov/nasa/worldwind/terrain/WMSBasicElevationModel.java:589-608 | a null sector, or one outside the coverage, is an IllegalArgumentException; a negative grid size is a NegativeArraySizeException; an empty grid yields null; otherwise the part buffers of a partition whose parts are below 2048 per side |
| `RasterCopy.TopDownBijection` | src/gov/nasa/worldwind/terrain/WMSBasicElevationModel.java:571-574 | the top-down copy puts each sample index below width x height on exactly one raster cell, (k / width, k % width) |
| `RasterCopy.BeforeIndex` | src/gov/nasa/worldwind/terrain/WMSBasicElevationModel.java:651-665 | a part comes before another in the row-then-column loop order exactly when its index `row * N + col` is smaller |
| `RasterCopy.BottomUpBijection` | src/gov/nasa/worldwindx/examples/util/MesureToolRunable.java:201-209 | the bottom-up copy puts each sample index on exactly one cell, with the rows reversed |
| `RasterCopy.CopyTopDown` | src/gov/nasa/worldwindx/examples/ExportImageOrElevations.java:808-817 | a null or short sample array fails (NullPointerException / index out of bounds) exactly when the raster has a cell; otherwise cell (y, x) holds sample y * width + x |
| `RasterCopy.CopyBottomUp` | src/gov/nasa/worldwindx/examples/util/MesureToolRunable.java:200-209 | the same failures; otherwise cell (y, x) holds sample (height - 1 - y) * width + x |
| `Sampling.AdjustSize` | src/gov/nasa/worldwindx/examples/ExportImageOrElevations.java:456-486 | a null sector or a non-positive size gives a square of that size; otherwise the side along the longer ground extent gets the desired size |
| `Sampling.AdjustSizeKeepsAspect` | src/gov/nasa/worldwindx/examples/util/MesureToolRunable.java:101-131 | the other side is the desired size scaled by the ratio of the shorter to the longer extent, rounded down, between 0 and the desired size; a zero extent gives a square |
| `Sampling.GridSpansSector` | src/gov/nasa/worldwindx/examples/util/MesureToolRunable.java:138-162 | the sample grid starts at the sector's south-west corner and its last row and column reach the northern and eastern edges |
| `Sampling.SampleGrid` | src/gov/nasa/worldwindx/examples/ExportImageOrElevations.java:715-739 | the grid lists width x height locations, south row first, location (y, x) at index y * width + x |
| `Sampling.ReadElevations` | src/gov/nasa/worldwindx/examples/ExportImageOrElevations.java:711-759 | a null sector is a NullPointerException and a negative 32-bit product `width * height` an IllegalArgumentException; otherwise the grid is sampled row by row from the south-west corner; the result is null exactly when the composition throws, and else the sentinel-filled buffer overwritten with the samples that are not the missing-data signal |
| `Sampling.SentinelMarksMissing` | src/gov/nasa/worldwindx/examples/util/MesureToolRunable.java:165-173 | an exported sample equals the -32768 sentinel exactly when its location had no sample, the sample was the missing-data signal, or it was the sentinel itself |
| `Sampling.WriteElevationsToFile` | src/gov/nasa/worldwindx/examples/util/MesureToolRunable.java:184-220 | the header carries the sector, size and the -32768 signal; the raster is the bottom-up copy of the samples, with the same failures as the copy |
| `Sampling.BottomUpPutsNorthOnTop` | src/gov/nasa/worldwindx/examples/util/MesureToolRunable.java:201-209 | with the bottom-up copy, raster row y holds the samples taken y steps south of the northern edge, so row 0 is north |
| `ImageExport.Accept` | src/gov/nasa/worldwindx/examples/ExportImageOrElevations.java:158-168 | a null file is an IllegalArgumentException; a directory is always accepted |
| `ImageExport.AcceptMeaning` | src/gov/nasa/worldwindx/examples/ExportImageOrElevations.java:156-209 | a plain file is accepted exactly when its lower-cased name ends with one of the filter's extensions (`.tif`; `.jpeg`/`.jpg`; `.png`) |
| `ImageExport.AcceptIgnoresCase` | src/gov/nasa/worldwindx/examples/ExportImageOrElevations.java:158-168 | acceptance does not depend on the case of the name |
| `ImageExport.FiltersDisjoint` | src/gov/nasa/worldwindx/examples/ExportImageOrElevations.java:156-209 | no plain file is accepted by two different filters |
| `ImageExport.TifDestination` | src/gov/nasa/worldwindx/examples/ExportImageOrElevations.java:266-271 | a chosen path ends with `.tif` afterwards, extends the chosen one, and is kept as is when it already ended with `.tif`; no choice stays no choice |
| `ImageExport.TifDestinationIdempotent` | src/gov/nasa/worldwindx/examples/ExportImageOrElevations.java:266-271 | applying the suffix rule twice is applying it once |
| `ImageExport.UpperCaseTifGetsSuffix` | src/gov/nasa/worldwindx/examples/ExportImageOrElevations.java:158-168 | the filter accepts `A.TIF` while the suffix rule still appends `.tif` to it |
| `ImageExport.ClampLevel` | src/gov/nasa/worldwindx/examples/ExportImageOrElevations.java:516-525 | a level number outside 0..last becomes the last level; one inside is kept |
| `ImageExport.ClampLevelIdempotent` | src/gov/nasa/worldwindx/examples/ExportImageOrElevations.java:608-617 | clamping a clamped level changes nothing |
| `ImageExport.Canvas.constructor` | src/gov/nasa/worldwindx/examples/ExportImageOrElevations.java:534-535 | a new canvas has the requested size and nothing merged |
| `ImageExport.Canvas.MergeImage` | src/gov/nasa/worldwindx/examples/ExportImageOrElevations.java:551-552 | merging appends one merge of the tile image into the canvas sector |
| `ImageExport.NewCanvas` | src/gov/nasa/worldwindx/examples/ExportImageOrElevations.java:534-535 | a non-positive canvas size is an IllegalArgumentException; otherwise an empty canvas of that size |
| `ImageExport.PlanPolicy` | src/gov/nasa/worldwindx/examples/ExportImageOrElevations.java:537-574 | the tile loop fails exactly when some tile fails fatally (an interrupt, or any error with abortOnError), with the exception of the first such tile; otherwise it merges every retrieved image in traversal order |
| `ImageExport.PlanFailureSticks` | src/gov/nasa/worldwindx/examples/ExportImageOrElevations.java:537-574 | once the loop has failed, further tiles do not change the outcome |
| `ImageExport.MergeTiles` | src/gov/nasa/worldwindx/examples/ExportImageOrElevations.java:537-574 | the loop over the grid ends as the policy says; on failure the canvas holds the merges of the tiles before the failing one |
| `ImageExport.MergeRow` | src/gov/nasa/worldwindx/examples/ExportImageOrElevations.java:540-572 | one grid row of the loop: the canvas holds the policy's merges up to where the row stopped, and a failure is the policy's failure at that tile |
| `ImageExport.ComposeImageForSubSector` | src/gov/nasa/worldwindx/examples/ExportImageOrElevations.java:511-577 | the result is the canvas the composition specifies: the clamped level's tiles merged by the policy, null for an empty grid, or the exception |
| `ImageExport.FoldTileBounds` | src/gov/nasa/worldwindx/examples/ExportImageOrElevations.java:619-649 | fails with NullPointerException exactly when a grid cell is null; otherwise yields the union of the tile sectors and the tile count |
| `ImageExport.FoldRow` | src/gov/nasa/worldwindx/examples/ExportImageOrElevations.java:633-648 | one grid row of the fold: the union grows to cover the row's sectors, or a null cell fails |
| `ImageExport.BoxHasArea` | src/gov/nasa/worldwindx/examples/ExportImageOrElevations.java:619-649 | the union of tile sectors that all have area has area, so the pixel sizes divide by positive extents |
| `ImageExport.ImageSplit` | src/gov/nasa/worldwindx/examples/ExportImageOrElevations.java:658-664 | with at least one part, each part is below 8192 pixels per side and at most the sector's size; more than one part only when the longer side needs it |
| `ImageExport.ImagePartSide` | src/gov/nasa/worldwindx/examples/ExportImageOrElevations.java:658-664 | a side divided by the number of parts is below 8192 and not more than the side |
| `ImageExport.WorldFileLines` | src/gov/nasa/worldwindx/examples/ExportImageOrElevations.java:699-705 | a world file has six lines |
| `ImageExport.WorldFileGeoreferences` | src/gov/nasa/worldwindx/examples/ExportImageOrElevations.java:699-705 | the world file puts the image's north-west corner at the sector's north-west corner, without rotation, and its pixel sizes span the sector exactly |
| `ImageExport.MakeExportImage` | src/gov/nasa/worldwindx/examples/ExportImageOrElevations.java:690-708 | the package carries the image and the world file text of the part's sector and pixel size |
| `ImageExport.PackagePathsDistinct` | src/gov/nasa/worldwindx/examples/ExportImageOrElevations.java:694-695 | two parts share an image or world-file path only when they are the same cell |
| `ImageExport.PackageAt` | src/gov/nasa/worldwindx/examples/ExportImageOrElevations.java:668-685 | the package of part (row, col) is written to `row_col.jpeg` on the desktop |
| `ImageExport.MakePackages` | src/gov/nasa/worldwindx/examples/ExportImageOrElevations.java:666-687 | the array has `numParts * numParts` elements as a 32-bit int (negative: NegativeArraySizeException); no part gives an empty result; success is the N x N packages with part (row, col) at `row * N + col`; failure is the exception of the first part in row-major order whose composition fails or whose index is past the array's end, every earlier part having been packaged |
| `ImageExport.MakeRowPackages` | src/gov/nasa/worldwindx/examples/ExportImageOrElevations.java:668-685 | one row of packages is appended in order, or the failure is at the row's first part whose composition fails or whose index is past the array's end, all parts before it in row-major order having been packaged |
| `ImageExport.PackagesWithoutOverflow` | src/gov/nasa/worldwindx/examples/ExportImageOrElevations.java:666-687 | when `numParts * numParts` fits an int, the loops succeed exactly when every part is composed, and otherwise fail with the composition exception of the first failing part in row-major order |
| `ImageExport.ComposeImageForSector` | src/gov/nasa/worldwindx/examples/ExportImageOrElevations.java:580-688 | a null or disjoint selection is an IllegalArgumentException; a negative grid is a NegativeArraySizeException; an empty grid yields null; otherwise the result of the package loops (`MakePackages`) over the partition computed from the clamped level's tiles |
| `ImageExport.WriteElevationsToFile` | src/gov/nasa/worldwindx/examples/ExportImageOrElevations.java:792-829 | the header carries the sector, size and the -32768 signal; the raster is the top-down copy of the samples |
| `ImageExport.TopDownPutsSouthOnTop` | src/gov/nasa/worldwindx/examples/ExportImageOrElevations.java:810-817 | with the top-down copy of the south-first grid, raster row y holds the samples y steps north of the southern edge, so row 0 is not the northern edge |
| `ImageExport.WriteStreamToFile` | src/gov/nasa/worldwindx/examples/ExportImageOrElevations.java:786-790 | writing an export buffer through its always-null `getBuffer()` fails with NullPointerException exactly when the raster has a cell; the header carries the given sector, the stream's size and the -32768 signal |

## Left out

- User interface: Swing dialogs, progress, menus and the threads that run the exports. Whether a file
  is shown in a chooser is modelled only through the filters.
- File and network I/O are left out: GeoTIFF and JPEG writing (`GeotiffWriter`, `ImageIO`), the HTTP
  download, and reading downloaded BIL files. Retrieval is the model's `retrieve` function, or the layer's
  `getImage`.
- `doSaveElevations`, `doSaveImage` and `ExportImagePackage.doSave` are left out. They only call the
  modelled routines and write files.
- The pixel work of `mergeImage` is not modelled. Each merge is recorded as a `Merge` value (canvas
  sector, tile sector, aspect ratio, image).
- The `image` argument of `composeImageForSubSector` is not modelled. Every caller passes null, so it is
  dropped. The timeout and MIME-type arguments are not modelled either, since they only reach
  the retrieval.
- Floating point is not modelled: angles and extents are exact reals in degrees. `Angle` arithmetic,
  radians and the globe's great-circle distance are a `distance` parameter.
- Number formatting is not modelled. The request's bounding box numbers are a `show` parameter, and the
  world file's `%4.17f` and `%4.15f` fields are the `Output.fixed` parameter.
- `ImageExport.Quotient`: a zero pixel count gives None, which merges Java's Infinity (a positive extent
  divided by zero) with NaN (a zero extent divided by zero); how `Output.fixed` prints them is left to it.
- `ImageExport.NewCanvas`: does not model the `width * height * 4` int overflow of the image buffer.
- The desktop directory (`FileSystemView`) is not modelled. It is a parameter. The elevation model
  behind the globe is taken to be the WMS model.
- The arrays of packages and buffers are sequences of the stored elements. Their 32-bit allocation size
  and the bounds check of the store at `row * numParts + col` are kept as explicit tests.
- `ElevationModel.ComputeSectorToTile`: the pixel sizes `tiles[0].length * tileWidth` and
  `tiles.length * tileHeight` (WMSBasicElevationModel.java:632-635) are unbounded products here, not
  wrapping 32-bit ints; they differ only for more than 2^31 samples across a side.
- `ImageExport.ComposeImageForSector`: the canvas sizes `tiles[0].length * tileWidth` and
  `tiles.length * tileHeight` (ExportImageOrElevations.java:653-654) are unbounded products here, not
  wrapping 32-bit ints; they differ only for more than 2^31 pixels across a side.
- `Sampling.ReadElevations`: running out of memory is not modelled. A grid whose 32-bit product
  `width * height` is non-negative but whose sample list or buffer the JVM cannot allocate succeeds here.
- `ImageExport.ComposeImageForSubSector`: the layer's `TiledImageLayer.getTilesInSector` and its level
  choice (ExportImageOrElevations.java:527 and :625, also used by `ImageExport.ComposeImageForSector`)
  are taken to be the elevation model's `TileGrid.TilesInSector` over the layer's level set.
  `TiledImageLayer` is not part of this model.
- `ImageExport.AcceptMeaning`: file names are lower-cased with the ASCII mapping, as `toLowerCase` does
  under a default locale other than Turkish or Azeri. Under those locales `A.TIF` becomes `a.tıf` and is
  rejected; non-ASCII case mappings are not modelled.
- `ImageExport.AcceptIgnoresCase`: holds for the ASCII lower-casing of the model only; under a Turkish or
  Azeri default locale an upper-case `I` does not lower-case to `i`.
- `ImageExport.UpperCaseTifGetsSuffix`: assumes the same ASCII lower-casing; under a Turkish or Azeri
  default locale the filter rejects `A.TIF` as well.
- `WmsUrl.URLBuilder.BuildTemplate`: the `service=wms` test lower-cases with the ASCII mapping; under a
  Turkish or Azeri default locale `SERVICE=WMS` in the address is not recognised and a second
  `service=WMS` is appended.
- `ElevationModel.ComposeElevationsForSector`: does not name the partition. It states only that the
  result is the parts of some partition with parts below 2048 per side. The exact partition is named by
  `ElevationModel.ComputeSectorToTile`, which it calls.
- `src/gov/nasa/worldwind/globes/IExportElevationStream.java` is modelled only as the
  `ExportElevationBuffer` datatype.
- `Sector`, `LevelSet`, `Tile` and `Logging` are not part of this model. Their behaviour is taken from
  their use here. Intersection and union are the min/max bounds, with no intersection when the
  sectors do not overlap.

## Findings

Both findings are latent in the program as shipped: the calls of `readElevations` and of the stream
`writeElevationsToFile` (ExportImageOrElevations.java:299 and :307) are commented out.

| source | as written | input that shows it | evidently intended | confidence | as-written member | corrected member |
|---|---|---|---|---|---|---|
| src/gov/nasa/worldwindx/examples/ExportImageOrElevations.java:810-817 | `readElevations` lists the samples south row first, and `writeElevationsToFile` copies them top-down, so raster row 0 (the north edge of a GeoTIFF) holds the southern samples | any sector with minLat < maxLat and height >= 2: raster row 0 holds latitude minLat, not maxLat | copy bottom-up as `MesureToolRunable.writeElevationsToFile` does, so row 0 holds the northern samples | not executed | `ImageExport.TopDownPutsSouthOnTop` | `Sampling.BottomUpPutsNorthOnTop` |
| src/gov/nasa/worldwindx/examples/ExportImageOrElevations.java:786-790 | `writeElevationsToFile(sector, stream, file)` passes `stream.getBuffer()`, which every `ExportElevationBuffer` returns as null (WMSBasicElevationModel.java:545) | any export buffer with width = height = 1: the copy dereferences null | write the buffer's own samples, as `ExportElevationBuffer.doSave` does | not executed | `ImageExport.WriteStreamToFile` | `ElevationModel.DoSave` |
