/**
 * The attribute-value list (AVList) that configures a WMS elevation model, and the two routines of
 * WMSBasicElevationModel that fill in its defaults: wmsSetFallbacks and the defaulting tail of
 * getWMSElevationModelConfigParams.
 */
module Params {
  import opened Wrappers

  /** The values stored under the keys this model touches. */
  datatype Value =
    | Text(s: string)
    | Int(i: int)
    | Real(r: real)
    | Delta(lat: real, lon: real)   // a LatLon of tile deltas in degrees

  // The AVKey names this model uses; each stands for the constant of the same name.
  const LevelZeroTileDelta := "LEVEL_ZERO_TILE_DELTA"
  const TileWidth := "TILE_WIDTH"
  const TileHeight := "TILE_HEIGHT"
  const FormatSuffix := "FORMAT_SUFFIX"
  const MissingDataSignal := "MISSING_DATA_SIGNAL"
  const NumLevels := "NUM_LEVELS"
  const NumEmptyLevels := "NUM_EMPTY_LEVELS"
  const LayerNames := "LAYER_NAMES"
  const StyleNames := "STYLE_NAMES"
  const ImageFormat := "IMAGE_FORMAT"
  const CoordinateSystem := "COORDINATE_SYSTEM"
  const ElevationMin := "ELEVATION_MIN"
  const ElevationMax := "ELEVATION_MAX"
  const DataType := "DATA_TYPE"
  const ByteOrder := "BYTE_ORDER"
  const Int16 := "INT16"
  const LittleEndian := "LITTLE_ENDIAN"

  /** AVList.getStringValue: the text stored under the key, None (null) when the key is absent. */
  function StringValue(m: map<string, Value>, key: string): Option<string> {
    if key in m && m[key].Text? then Some(m[key].s) else None
  }

  /** A mutable attribute-value list; an absent key is a null value. */
  class AVList {
    var values: map<string, Value>

    constructor (initial: map<string, Value>)
      ensures values == initial
    {
      values := initial;
    }

    method SetValue(key: string, v: Value)
      modifies this
      ensures values == old(values)[key := v]
    {
      values := values[key := v];
    }
  }

  //////////////////////////////////////////////////////////////////////////////
  // wmsSetFallbacks
  //////////////////////////////////////////////////////////////////////////////

  /** The defaults wmsSetFallbacks supplies: 20 degree level-zero tiles, 150 x 150 samples, ".bil", -9999, 18 levels, none empty. */
  const Fallbacks: map<string, Value> := map[
    LevelZeroTileDelta := Delta(20.0, 20.0),
    TileWidth := Int(150),
    TileHeight := Int(150),
    FormatSuffix := Text(".bil"),
    MissingDataSignal := Real(-9999.0),
    NumLevels := Int(18),
    NumEmptyLevels := Int(0)]

  /** The list after the fallbacks: a present key keeps its value, an absent listed key gets its default. */
  function WithFallbacks(m: map<string, Value>): map<string, Value> {
    Fallbacks + m
  }

  /** One `if (!params.hasKey(k)) params.setValue(k, v)` of the fallbacks, on the values. */
  function FillIfAbsent(m: map<string, Value>, k: string, v: Value): map<string, Value> {
    if k in m then m else m[k := v]
  }

  /** Filling a key absent from the defaults gathered so far extends those defaults by that key. */
  lemma FillStep(done: map<string, Value>, m: map<string, Value>, k: string, v: Value)
    requires k !in done
    ensures FillIfAbsent(done + m, k, v) == done[k := v] + m
  {
  }

  method WmsSetFallbacks(params: AVList)
    modifies params
    ensures params.values == WithFallbacks(old(params.values))
  {
    ghost var m := params.values;
    if LevelZeroTileDelta !in params.values {
      params.values := params.values[LevelZeroTileDelta := Delta(20.0, 20.0)];
    }
    FillStep(map[], m, LevelZeroTileDelta, Delta(20.0, 20.0));
    ghost var done := map[LevelZeroTileDelta := Delta(20.0, 20.0)];
    assert params.values == done + m;
    if TileWidth !in params.values {
      params.values := params.values[TileWidth := Int(150)];
    }
    FillStep(done, m, TileWidth, Int(150));
    done := done[TileWidth := Int(150)];
    if TileHeight !in params.values {
      params.values := params.values[TileHeight := Int(150)];
    }
    FillStep(done, m, TileHeight, Int(150));
    done := done[TileHeight := Int(150)];
    if FormatSuffix !in params.values {
      params.values := params.values[FormatSuffix := Text(".bil")];
    }
    FillStep(done, m, FormatSuffix, Text(".bil"));
    done := done[FormatSuffix := Text(".bil")];
    if MissingDataSignal !in params.values {
      params.values := params.values[MissingDataSignal := Real(-9999.0)];
    }
    FillStep(done, m, MissingDataSignal, Real(-9999.0));
    done := done[MissingDataSignal := Real(-9999.0)];
    if NumLevels !in params.values {
      params.values := params.values[NumLevels := Int(18)];
    }
    FillStep(done, m, NumLevels, Int(18));
    done := done[NumLevels := Int(18)];
    if NumEmptyLevels !in params.values {
      params.values := params.values[NumEmptyLevels := Int(0)];
    }
    FillStep(done, m, NumEmptyLevels, Int(0));
    done := done[NumEmptyLevels := Int(0)];
    assert done == Fallbacks;
  }

  /**
   * The fallbacks never overwrite: every key present before keeps its value, every listed key is present
   * afterwards with its default when it was absent, no other key appears, and a second call changes nothing.
   */
  lemma FallbacksOnlyFillGaps(m: map<string, Value>)
    ensures forall k :: k in m ==> k in WithFallbacks(m) && WithFallbacks(m)[k] == m[k]
    ensures forall k :: k in Fallbacks && k !in m ==> WithFallbacks(m)[k] == Fallbacks[k]
    ensures WithFallbacks(m).Keys == m.Keys + Fallbacks.Keys
    ensures WithFallbacks(WithFallbacks(m)) == WithFallbacks(m)
  {
  }

  //////////////////////////////////////////////////////////////////////////////
  // Defaulting tail of getWMSElevationModelConfigParams
  //////////////////////////////////////////////////////////////////////////////

  /** String.split(",") yields no names exactly when the text is non-empty and made of commas only. */
  predicate SplitsToNothing(names: string) {
    |names| > 0 && forall i :: 0 <= i < |names| ==> names[i] == ','
  }

  /** The layer names are unusable: absent, empty, or only commas. */
  predicate LayerNamesMissing(m: map<string, Value>) {
    var names := StringValue(m, LayerNames);
    names.None? || |names.value| == 0 || SplitsToNothing(names.value)
  }

  /** The extreme elevations the capabilities document gives for the layers; None for a null array. */
  datatype Extremes = Extremes(min: Option<real>, max: Option<real>)

  /**
   * The list after the defaulting tail: the extreme elevations fill absent ELEVATION_MIN / ELEVATION_MAX,
   * the data type is derived from the image format when absent (dataTypeFor stands for
   * WWIO.makeDataTypeForMimeType applied to the value's text), then INT16 and little-endian are the
   * last-resort defaults.
   */
  function WithConfigDefaults(m: map<string, Value>, extremes: Option<Extremes>,
                              dataTypeFor: Value -> Option<string>): (r: map<string, Value>)
    ensures forall k :: k in m ==> k in r && r[k] == m[k]
    ensures DataType in r && ByteOrder in r
    ensures r.Keys <= m.Keys + {ElevationMin, ElevationMax, DataType, ByteOrder}
    ensures ByteOrder !in m ==> r[ByteOrder] == Text(LittleEndian)
    ensures DataType !in m && (ImageFormat !in m || dataTypeFor(m[ImageFormat]).None?) ==> r[DataType] == Text(Int16)
  {
    var m1 := if ElevationMin !in m && extremes.Some? && extremes.value.min.Some?
              then m[ElevationMin := Real(extremes.value.min.value)] else m;
    var m2 := if ElevationMax !in m1 && extremes.Some? && extremes.value.max.Some?
              then m1[ElevationMax := Real(extremes.value.max.value)] else m1;
    var m3 := if DataType !in m2 && ImageFormat in m2 && dataTypeFor(m2[ImageFormat]).Some?
              then m2[DataType := Text(dataTypeFor(m2[ImageFormat]).value)] else m2;
    var m4 := if DataType !in m3 then m3[DataType := Text(Int16)] else m3;
    if ByteOrder !in m4 then m4[ByteOrder := Text(LittleEndian)] else m4
  }

  /**
   * The tail of getWMSElevationModelConfigParams after the capabilities have been read: the layer-name
   * check (IllegalArgumentException for absent, empty or comma-only names) and the defaults.
   */
  method ApplyConfigDefaults(params: AVList, extremes: Option<Extremes>, dataTypeFor: Value -> Option<string>)
    returns (r: Result<()>)
    modifies params
    ensures r.Err? <==> LayerNamesMissing(old(params.values))
    ensures r.Err? ==> r.error.IllegalArgument? && params.values == old(params.values)
    ensures r.Ok? ==> params.values == WithConfigDefaults(old(params.values), extremes, dataTypeFor)
  {
    var layerNames := StringValue(params.values, LayerNames);
    if layerNames.None? || |layerNames.value| == 0 {
      return Err(IllegalArgument);
    }
    if SplitsToNothing(layerNames.value) {
      return Err(IllegalArgument);
    }
    if ElevationMin !in params.values && extremes.Some? && extremes.value.min.Some? {
      params.SetValue(ElevationMin, Real(extremes.value.min.value));
    }
    if ElevationMax !in params.values && extremes.Some? && extremes.value.max.Some? {
      params.SetValue(ElevationMax, Real(extremes.value.max.value));
    }
    if DataType !in params.values && ImageFormat in params.values {
      var s := dataTypeFor(params.values[ImageFormat]);
      if s.Some? {
        params.SetValue(DataType, Text(s.value));
      }
    }
    if DataType !in params.values {
      params.SetValue(DataType, Text(Int16));
    }
    if ByteOrder !in params.values {
      params.SetValue(ByteOrder, Text(LittleEndian));
    }
    return Ok(());
  }
}
