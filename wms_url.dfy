/**
 * The GetMap request builder of the WMS elevation model (WMSBasicElevationModel.URLBuilder): the
 * constructor settles the protocol version and the coordinate-system parameter, and getURL builds a query
 * prefix once, caches it, and completes it per tile with the raster size and the bounding box.
 */
module WmsUrl {
  import opened Wrappers
  import opened Text
  import Geo
  import Params

  /** The newest protocol version the builder speaks; anything at or above it is spoken as it. */
  const MaxVersion := "1.3.0"

  /** What the constructor settles on: the version to request, the coordinate-system key and its default. */
  datatype VersionSetting = VersionSetting(wmsVersion: string, coordSystemKey: string, defaultCs: string)

  /**
   * A null version or one at least 1.3.0 is requested as 1.3.0 with the "&crs=" key and CRS:84; an older
   * version is kept, with the "&srs=" key and EPSG:4326. `compareVersion` stands for WWUtil.compareVersion.
   */
  function SettleVersion(version: Option<string>, compareVersion: (string, string) -> int): (v: VersionSetting)
    ensures v.coordSystemKey == "&crs=" || v.coordSystemKey == "&srs="
    ensures v.coordSystemKey == "&crs=" ==> v.wmsVersion == MaxVersion && v.defaultCs == "CRS:84"
    ensures v.coordSystemKey == "&srs=" ==> version.Some? && v.wmsVersion == version.value && v.defaultCs == "EPSG:4326"
    ensures v.coordSystemKey == "&crs=" <==> version.None? || compareVersion(version.value, MaxVersion) >= 0
  {
    if version.None? || compareVersion(version.value, MaxVersion) >= 0 then
      VersionSetting(MaxVersion, "&crs=", "CRS:84")
    else
      VersionSetting(version.value, "&srs=", "EPSG:4326")
  }

  /** The coordinate system actually requested: the configured one, else the version's default. */
  function EffectiveCs(setting: VersionSetting, coordinateSystem: Option<string>): string {
    if coordinateSystem.Some? then coordinateSystem.value else setting.defaultCs
  }

  /** The crs field: the key followed by the coordinate system. */
  function CrsParameter(setting: VersionSetting, coordinateSystem: Option<string>): string {
    setting.coordSystemKey + EffectiveCs(setting, coordinateSystem)
  }

  /**
   * Settling is idempotent: a builder rebuilt from a saved wmsVersion (the restorable state keeps only the
   * settled version) settles on the same version, key and default, provided compareVersion finds 1.3.0 not
   * older than itself.
   */
  lemma SettleVersionIdempotent(version: Option<string>, compareVersion: (string, string) -> int)
    requires compareVersion(MaxVersion, MaxVersion) >= 0
    ensures SettleVersion(Some(SettleVersion(version, compareVersion).wmsVersion), compareVersion)
            == SettleVersion(version, compareVersion)
  {
  }

  /** With the same assumption, the "&crs=" key is used exactly when the settled version is 1.3.0. */
  lemma CrsKeyMatchesVersion(version: Option<string>, compareVersion: (string, string) -> int)
    requires compareVersion(MaxVersion, MaxVersion) >= 0
    ensures var v := SettleVersion(version, compareVersion);
            v.coordSystemKey == "&crs=" <==> v.wmsVersion == MaxVersion
  {
  }

  //////////////////////////////////////////////////////////////////////////////
  // Query text
  //////////////////////////////////////////////////////////////////////////////

  /** StringBuffer.append of a possibly null String: a null appends the four letters "null". */
  function AppendText(s: Option<string>): string {
    if s.Some? then s.value else "null"
  }

  /**
   * The cached query prefix: the service address, "service=WMS" unless the lower-cased address already
   * names it, the request, version, coordinate system, layers, styles (empty when null) and format.
   */
  function Prefix(service: string, wmsVersion: string, crs: string, layerNames: Option<string>,
                  styleNames: Option<string>, format: Option<string>): string
  {
    (if Contains(Lower(service), "service=wms") then service else service + "service=WMS")
    + "&request=GetMap" + "&version=" + wmsVersion + crs
    + "&layers=" + AppendText(layerNames)
    + "&styles=" + (if styleNames.Some? then styleNames.value else "")
    + "&format=" + AppendText(format)
  }

  /** Every prefix names the WMS service, in the case-insensitive sense of the test that guards it. */
  lemma PrefixNamesService(service: string, wmsVersion: string, crs: string, layerNames: Option<string>,
                           styleNames: Option<string>, format: Option<string>)
    ensures Contains(Lower(Prefix(service, wmsVersion, crs, layerNames, styleNames, format)), "service=wms")
    ensures Prefix(service, wmsVersion, crs, layerNames, styleNames, format)[..|service|] == service
  {
    var p := Prefix(service, wmsVersion, crs, layerNames, styleNames, format);
    var head := if Contains(Lower(service), "service=wms") then service else service + "service=WMS";
    var tail := p[|head|..];
    assert p == head + tail;
    LowerConcat(head, tail);
    if Contains(Lower(service), "service=wms") {
      ContainsInConcat(Lower(head), Lower(tail), "service=wms");
    } else {
      LowerConcat(service, "service=WMS");
      assert Lower("service=WMS") == "service=wms";
      ContainsInConcat(Lower(service), "service=wms", "service=wms");
      assert OccursAt("service=wms", "service=wms", 0);
      ContainsInConcat(Lower(head), Lower(tail), "service=wms");
    }
  }

  /**
   * The bounding-box axis order: longitude first for version 1.1.1 and earlier and for CRS:84, latitude
   * first otherwise (the BBOX and CRS rules of the OGC Web Map Service 1.3.0 standard, OGC 06-042).
   */
  function LonLatOrder(wmsVersion: string, crs: string, compareVersion: (string, string) -> int): bool {
    compareVersion(wmsVersion, "1.1.1") <= 0 || Contains(crs, "CRS:84")
  }

  /** The bbox value, four numbers separated by commas; `show` stands for Double.toString. */
  function BboxText(s: Geo.Sector, lonLat: bool, show: real -> string): string {
    if lonLat then show(s.minLon) + "," + show(s.minLat) + "," + show(s.maxLon) + "," + show(s.maxLat)
    else show(s.minLat) + "," + show(s.minLon) + "," + show(s.maxLat) + "," + show(s.maxLon)
  }

  /** What a tile asks of the builder: its level's service address (possibly null), its size in samples and its sector. */
  datatype WmsTile = WmsTile(service: Option<string>, width: int, height: int, sector: Geo.Sector)

  /** The per-tile part of the query, terminated by "&". */
  function TileQuery(tile: WmsTile, lonLat: bool, show: real -> string): string {
    "&width=" + IntToDecimal(tile.width) + "&height=" + IntToDecimal(tile.height)
    + "&bbox=" + BboxText(tile.sector, lonLat, show) + "&"
  }

  /**
   * The three-way axis rule for a builder settled from a configured version and coordinate system: the
   * crs key never hides or fakes "CRS:84", so longitude comes first exactly when the settled version is at
   * most 1.1.1 or the requested coordinate system names CRS:84.
   */
  lemma AxisOrderRule(version: Option<string>, coordinateSystem: Option<string>,
                      compareVersion: (string, string) -> int)
    ensures var v := SettleVersion(version, compareVersion);
            LonLatOrder(v.wmsVersion, CrsParameter(v, coordinateSystem), compareVersion)
            <==> compareVersion(v.wmsVersion, "1.1.1") <= 0 || Contains(EffectiveCs(v, coordinateSystem), "CRS:84")
    ensures coordinateSystem.None? && (version.None? || compareVersion(version.value, MaxVersion) >= 0) ==>
            var v := SettleVersion(version, compareVersion);
            LonLatOrder(v.wmsVersion, CrsParameter(v, coordinateSystem), compareVersion)
  {
    var v := SettleVersion(version, compareVersion);
    ContainsAfterPrefix(v.coordSystemKey, EffectiveCs(v, coordinateSystem), "CRS:84");
    if coordinateSystem.None? && v.coordSystemKey == "&crs=" {
      assert OccursAt("CRS:84", "CRS:84", 0);
    }
  }

  //////////////////////////////////////////////////////////////////////////////
  // The builder
  //////////////////////////////////////////////////////////////////////////////

  class URLBuilder {
    const layerNames: Option<string>
    const styleNames: Option<string>
    const imageFormat: Option<string>
    const wmsVersion: string
    const crs: string
    /** WWUtil.compareVersion: negative, zero or positive as the first version is older, equal or newer. */
    const compareVersion: (string, string) -> int
    /** Double.toString of a number of degrees. */
    const show: real -> string
    /** The cached query prefix; None (null) until the first URL is built. */
    var urlTemplate: Option<string>

    constructor (version: Option<string>, params: Params.AVList,
                 compareVersion: (string, string) -> int, show: real -> string)
      ensures var v := SettleVersion(version, compareVersion);
              wmsVersion == v.wmsVersion
              && crs == CrsParameter(v, Params.StringValue(params.values, Params.CoordinateSystem))
      ensures layerNames == Params.StringValue(params.values, Params.LayerNames)
      ensures styleNames == Params.StringValue(params.values, Params.StyleNames)
      ensures imageFormat == Params.StringValue(params.values, Params.ImageFormat)
      ensures this.compareVersion == compareVersion && this.show == show
      ensures urlTemplate.None?
    {
      layerNames := Params.StringValue(params.values, Params.LayerNames);
      styleNames := Params.StringValue(params.values, Params.StyleNames);
      imageFormat := Params.StringValue(params.values, Params.ImageFormat);
      var v := SettleVersion(version, compareVersion);
      wmsVersion := v.wmsVersion;
      crs := CrsParameter(v, Params.StringValue(params.values, Params.CoordinateSystem));
      this.compareVersion := compareVersion;
      this.show := show;
      urlTemplate := None;
    }

    /** The prefix this builder would cache for the given service address and alternative format. */
    function PrefixFor(service: string, altImageFormat: Option<string>): string {
      Prefix(service, wmsVersion, crs, layerNames, styleNames,
             if altImageFormat.None? then imageFormat else altImageFormat)
    }

    /**
     * getURL: the first call builds and caches the prefix from its tile's service and format; every later
     * call starts from the cached prefix verbatim, whatever service or format it is given. The URL text is
     * the prefix and the tile's query with every space escaped. A null service address on a cache miss is
     * the NullPointerException of `new StringBuffer(null)`, before anything is cached. `urlParses` says
     * whether `new java.net.URL` accepts a text (it needs a known protocol); a text it refuses is a
     * MalformedURLException, and the prefix stays cached.
     */
    method GetURL(tile: WmsTile, altImageFormat: Option<string>, urlParses: string -> bool) returns (r: Result<string>)
      modifies this`urlTemplate
      ensures old(urlTemplate).None? && tile.service.None? ==> r == Err(NullPointer) && urlTemplate.None?
      ensures old(urlTemplate).Some? ==> urlTemplate == old(urlTemplate)
      ensures old(urlTemplate).None? && tile.service.Some? ==>
                urlTemplate == Some(PrefixFor(tile.service.value, altImageFormat))
      ensures urlTemplate.Some? ==>
                var text := EscapeSpaces(urlTemplate.value + TileQuery(tile, LonLatOrder(wmsVersion, crs, compareVersion), show));
                r == if urlParses(text) then Ok(text) else Err(MalformedURL)
    {
      var sb: string;
      if urlTemplate.None? {
        if tile.service.None? {
          return Err(NullPointer);
        }
        sb := BuildTemplate(tile.service.value, altImageFormat);
        urlTemplate := Some(sb);
      } else {
        sb := urlTemplate.value;
      }
      sb := AppendTileQuery(sb, tile);
      var text := EscapeSpaces(sb);
      if !urlParses(text) {
        return Err(MalformedURL);
      }
      return Ok(text);
    }

    /** The appends that build the prefix on a cache miss. */
    method BuildTemplate(service: string, altImageFormat: Option<string>) returns (sb: string)
      ensures sb == PrefixFor(service, altImageFormat)
    {
      sb := service;
      if !Contains(Lower(sb), "service=wms") {
        sb := sb + "service=WMS";
      }
      sb := sb + "&request=GetMap";
      sb := sb + "&version=";
      sb := sb + wmsVersion;
      sb := sb + crs;
      sb := sb + "&layers=";
      sb := sb + AppendText(layerNames);
      sb := sb + "&styles=";
      sb := sb + (if styleNames.Some? then styleNames.value else "");
      sb := sb + "&format=";
      if altImageFormat.None? {
        sb := sb + AppendText(imageFormat);
      } else {
        sb := sb + altImageFormat.value;
      }
    }

    /** The appends that complete a prefix for one tile: its size, its bbox in this builder's axis order and "&". */
    method AppendTileQuery(prefix: string, tile: WmsTile) returns (sb: string)
      ensures sb == prefix + TileQuery(tile, LonLatOrder(wmsVersion, crs, compareVersion), show)
    {
      sb := prefix;
      sb := sb + "&width=";
      ghost var query := "&width=";
      sb := sb + IntToDecimal(tile.width);
      query := query + IntToDecimal(tile.width);
      sb := sb + "&height=";
      query := query + "&height=";
      sb := sb + IntToDecimal(tile.height);
      query := query + IntToDecimal(tile.height);
      sb := sb + "&bbox=";
      query := query + "&bbox=";
      assert sb == prefix + query;
      var s := tile.sector;
      ghost var bbox := BboxText(s, LonLatOrder(wmsVersion, crs, compareVersion), show);
      if compareVersion(wmsVersion, "1.1.1") <= 0 || Contains(crs, "CRS:84") {
        sb := sb + show(s.minLon) + "," + show(s.minLat) + "," + show(s.maxLon) + "," + show(s.maxLat);
      } else {
        sb := sb + show(s.minLat) + "," + show(s.minLon) + "," + show(s.maxLat) + "," + show(s.maxLon);
      }
      assert sb == prefix + query + bbox;
      AppendAssoc(prefix, query, bbox);
      query := query + bbox;
      sb := sb + "&";
      AppendAssoc(prefix, query, "&");
      query := query + "&";
      assert query == TileQuery(tile, LonLatOrder(wmsVersion, crs, compareVersion), show);
    }
  }

  lemma AppendAssoc(a: string, b: string, c: string)
    ensures a + b + c == a + (b + c)
  {
  }

  /**
   * Every URL is the escaped prefix followed by "&width=W&height=H&bbox=...": it holds no space, it ends
   * with the "&" that terminates the query, and when neither part held a "%" decoding "%20" gives back the
   * unescaped query exactly.
   */
  lemma {:induction false} UrlShape(prefix: string, tile: WmsTile, lonLat: bool, show: real -> string)
    ensures var url := EscapeSpaces(prefix + TileQuery(tile, lonLat, show));
            ' ' !in url && |url| > 0 && url[|url| - 1] == '&'
            && url == EscapeSpaces(prefix) + EscapeSpaces(TileQuery(tile, lonLat, show))
    ensures var q := prefix + TileQuery(tile, lonLat, show);
            '%' !in q ==> UnescapeSpaces(EscapeSpaces(q)) == q
  {
    var query := TileQuery(tile, lonLat, show);
    var body := "&width=" + IntToDecimal(tile.width) + "&height=" + IntToDecimal(tile.height)
                + "&bbox=" + BboxText(tile.sector, lonLat, show);
    assert query == body + "&";
    EscapeConcat(prefix, query);
    EscapeConcat(body, "&");
    assert EscapeSpaces("&") == "&";
    var q := prefix + query;
    if '%' !in q {
      EscapeRoundTrip(q);
    }
  }
}
