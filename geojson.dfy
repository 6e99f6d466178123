/**
  Annotating the country features of a GeoJSON collection in place: every
  feature gets `value`, `elevation` and `fill_color` properties, taken from
  the row of `df_year` whose iso3 equals the feature's `ADM0_A3` property,
  or a fixed gray, zero default when there is no such row.
 */
module GeoJson {
  import opened Wrappers
  import opened Rows
  import opened Metric
  import Color

  /** A JSON value as parsed from the GeoJSON file. */
  datatype Json =
    | JNull
    | JBool(b: bool)
    | JNum(n: real)
    | JStr(s: string)
    | JArray(items: seq<Json>)
    | JObject(fields: map<string, Json>)

  /** A feature: its geometry and its mutable `properties` dictionary. */
  class Feature {
    var geometry: Json
    var properties: map<string, Json>

    constructor (geometry: Json, properties: map<string, Json>)
      ensures this.geometry == geometry && this.properties == properties
    {
      this.geometry := geometry;
      this.properties := properties;
    }
  }

  /** The parsed GeoJSON document: its `features` list. */
  class FeatureCollection {
    var features: seq<Feature>

    constructor (features: seq<Feature>)
      ensures this.features == features
    {
      this.features := features;
    }
  }

  /** The colour of features without data: a translucent gray. */
  const MissingColor: seq<int> := [120, 120, 120, 70]

  /** The properties every feature carries after annotation. */
  const Written: set<string> := {"value", "elevation", "fill_color"}

  /** A colour as the JSON list `[r, g, b, a]`. */
  function ColorJson(c: seq<int>): Json {
    JArray(seq(|c|, i requires 0 <= i < |c| => JNum(c[i] as real)))
  }

  /** Different colours are written as different JSON lists. */
  lemma ColorJsonInjective(a: seq<int>, b: seq<int>)
    ensures ColorJson(a) == ColorJson(b) ==> a == b
  {
    if ColorJson(a) == ColorJson(b) {
      assert |a| == |ColorJson(a).items| == |b|;
      forall k | 0 <= k < |a|
        ensures a[k] == b[k]
      {
        assert ColorJson(a).items[k] == ColorJson(b).items[k];
      }
    }
  }

  /** A list or an object cannot be a dictionary key: `lookup.get` raises
      `TypeError` when `ADM0_A3` is one of them. */
  predicate Unhashable(props: map<string, Json>) {
    "ADM0_A3" in props && (props["ADM0_A3"].JArray? || props["ADM0_A3"].JObject?)
  }

  /** `properties.get("ADM0_A3")`, as a lookup key: only a string can match
      one of the lookup's iso3 keys; an absent property, null, a boolean or a
      number matches none. */
  function IsoOf(props: map<string, Json>): (key: Option<string>)
    ensures key.Some? <==> "ADM0_A3" in props && props["ADM0_A3"].JStr?
    ensures key.Some? ==> props["ADM0_A3"] == JStr(key.value)
  {
    if "ADM0_A3" in props && props["ADM0_A3"].JStr? then Some(props["ADM0_A3"].s) else None
  }

  /** `lookup.get(iso3)`: the entry stored under the key, if there is one. */
  function Find(lookup: map<string, Entry>, key: Option<string>): (r: Option<Entry>)
    ensures r.Some? <==> key.Some? && key.value in lookup
    ensures r.Some? ==> r.value == lookup[key.value]
  {
    if key.Some? && key.value in lookup then Some(lookup[key.value]) else None
  }

  /** A feature's properties after the loop body has run on it: the three
      written properties are set (from the lookup entry, or to the gray
      default) and every other property keeps its value. */
  function Annotate(props: map<string, Json>, lookup: map<string, Entry>): (r: map<string, Json>)
    ensures r.Keys == props.Keys + Written
    ensures forall k :: k in props && k !in Written ==> r[k] == props[k]
    ensures IsoOf(r) == IsoOf(props) && Unhashable(r) == Unhashable(props)
  {
    match Find(lookup, IsoOf(props))
    case None =>
      props["value" := JNum(0.0)]["elevation" := JNum(0.0)]["fill_color" := ColorJson(MissingColor)]
    case Some(data) =>
      props["value" := JNum(data.value)]["elevation" := JNum(data.elevation)]["fill_color" := ColorJson(data.fillColor)]
  }

  /** Annotating an annotated feature changes nothing: the key it is looked
      up by is not one of the properties written. */
  lemma AnnotateIdempotent(props: map<string, Json>, lookup: map<string, Entry>)
    ensures Annotate(Annotate(props, lookup), lookup) == Annotate(props, lookup)
  {
    var once := Annotate(props, lookup);
    var twice := Annotate(once, lookup);
    assert twice.Keys == once.Keys;
    forall k | k in once
      ensures twice[k] == once[k]
    {
    }
  }

  /** Why `attach_metric_to_geojson` raises: the feature at `index` has an
      `ADM0_A3` that is a list or an object. */
  datatype AttachError = UnhashableIso3(index: nat)

  /** `attach_metric_to_geojson`: builds the lookup from `df_year`, then
      walks the features in order and writes each one's three properties.
      The feature list itself, the geometries and all other properties are
      left as they were; a feature listed twice ends up annotated once. The
      walk stops with an error at the first feature whose `ADM0_A3` is a list
      or an object: the features before it are annotated, the rest are not. */
  method AttachMetricToGeoJson(geojson: FeatureCollection, dfYear: seq<MergedRow>, metric: MetricKind,
                               scale: real, lg: real -> real)
    returns (result: Result<FeatureCollection, AttachError>)
    requires UniqueIso3(dfYear)
    modifies (set f | f in geojson.features)`properties
    ensures geojson.features == old(geojson.features)
    ensures forall f :: f in geojson.features ==> f.geometry == old(f.geometry)
    ensures result.Success? <==>
      forall j :: 0 <= j < |geojson.features| ==> !Unhashable(old(geojson.features[j].properties))
    ensures result.Success? ==> result.value == geojson
    ensures result.Success? ==> forall f :: f in geojson.features ==>
      f.properties == Annotate(old(f.properties), Lookup(dfYear, metric, scale, lg))
    ensures result.Failure? ==>
      var k := result.error.index;
      k < |geojson.features| && Unhashable(old(geojson.features[k].properties)) &&
      (forall j :: 0 <= j < k ==> !Unhashable(old(geojson.features[j].properties))) &&
      (forall f :: f in geojson.features[..k] ==>
        f.properties == Annotate(old(f.properties), Lookup(dfYear, metric, scale, lg))) &&
      (forall f :: f in geojson.features && f !in geojson.features[..k] ==> f.properties == old(f.properties))
  {
    var lookup := Lookup(dfYear, metric, scale, lg);
    var stop := AnnotateAll(geojson.features, lookup);
    if stop < |geojson.features| {
      result := Failure(UnhashableIso3(stop));
    } else {
      assert geojson.features[..stop] == geojson.features;
      result := Success(geojson);
    }
  }

  /** The loop of `attach_metric_to_geojson` over the features, in order,
      up to the first one whose `ADM0_A3` cannot be looked up (`stop`, or
      the number of features when there is none). */
  method AnnotateAll(features: seq<Feature>, lookup: map<string, Entry>) returns (stop: nat)
    modifies (set f | f in features)`properties
    ensures stop <= |features|
    ensures stop < |features| ==> Unhashable(old(features[stop].properties))
    ensures forall j :: 0 <= j < stop ==> !Unhashable(old(features[j].properties))
    ensures forall f :: f in features[..stop] ==> f.properties == Annotate(old(f.properties), lookup)
    ensures forall f :: f in features && f !in features[..stop] ==> f.properties == old(f.properties)
  {
    stop := 0;
    while stop < |features| && !Unhashable(features[stop].properties)
      invariant stop <= |features|
      invariant forall j :: 0 <= j < stop ==> !Unhashable(old(features[j].properties))
      invariant forall f :: f in features[..stop] ==> f.properties == Annotate(old(f.properties), lookup)
      invariant forall f :: f in features && f !in features[..stop] ==> f.properties == old(f.properties)
    {
      AnnotateIdempotent(old(features[stop].properties), lookup);
      AnnotateFeature(features[stop], lookup);
      assert features[..stop + 1] == features[..stop] + [features[stop]];
      stop := stop + 1;
    }
  }

  /** The loop body of `attach_metric_to_geojson` for one feature whose
      `ADM0_A3` can be looked up. */
  method AnnotateFeature(feature: Feature, lookup: map<string, Entry>)
    requires !Unhashable(feature.properties)
    modifies feature`properties
    ensures feature.properties == Annotate(old(feature.properties), lookup)
  {
    var data := Find(lookup, IsoOf(feature.properties));
    if data.None? {
      feature.properties := feature.properties["value" := JNum(0.0)];
      feature.properties := feature.properties["elevation" := JNum(0.0)];
      feature.properties := feature.properties["fill_color" := ColorJson(MissingColor)];
    } else {
      feature.properties := feature.properties["value" := JNum(data.value.value)];
      feature.properties := feature.properties["elevation" := JNum(data.value.elevation)];
      feature.properties := feature.properties["fill_color" := ColorJson(data.value.fillColor)];
    }
  }

  /** A feature whose `ADM0_A3` is the iso3 of a row of `df_year` gets that
      row's value (missing read as 0), elevation and colour. */
  lemma AnnotateMatched(props: map<string, Json>, dfYear: seq<MergedRow>, metric: MetricKind,
                        scale: real, lg: real -> real, i: nat)
    requires UniqueIso3(dfYear)
    requires i < |dfYear| && IsoOf(props) == Some(dfYear[i].iso3)
    ensures var r, row := Annotate(props, Lookup(dfYear, metric, scale, lg)), ComputeValues(dfYear, metric, scale, lg)[i];
      r["value"] == JNum(Coerce(MetricOf(dfYear[i], metric))) &&
      r["elevation"] == JNum(row.elevation) &&
      r["fill_color"] == ColorJson(row.fillColor)
  {
    ValuesAt(dfYear, metric, scale, lg, i);
  }

  /** A feature whose `ADM0_A3` is absent, null, a boolean, a number, or a
      string that is the iso3 of no row of `df_year` gets value 0, elevation
      0 and the gray colour. (A list or an object stops the loop instead.) */
  lemma AnnotateUnmatched(props: map<string, Json>, dfYear: seq<MergedRow>, metric: MetricKind,
                          scale: real, lg: real -> real)
    requires UniqueIso3(dfYear) && !Unhashable(props)
    requires forall i :: 0 <= i < |dfYear| ==> IsoOf(props) != Some(dfYear[i].iso3)
    ensures var r := Annotate(props, Lookup(dfYear, metric, scale, lg));
      r["value"] == JNum(0.0) && r["elevation"] == JNum(0.0) && r["fill_color"] == ColorJson(MissingColor)
  {
  }

  /** A feature matched to a row whose metric is missing (read as 0) or not
      positive is flat (elevation 0) but coloured with the low end of the
      ramp, not with the gray of unmatched features. */
  lemma AnnotateMatchedNoData(props: map<string, Json>, dfYear: seq<MergedRow>, metric: MetricKind,
                              scale: real, lg: real -> real, i: nat)
    requires UniqueIso3(dfYear)
    requires i < |dfYear| && IsoOf(props) == Some(dfYear[i].iso3)
    requires Coerce(MetricOf(dfYear[i], metric)) <= 0.0
    ensures var r := Annotate(props, Lookup(dfYear, metric, scale, lg));
      (MetricOf(dfYear[i], metric).None? ==> r["value"] == JNum(0.0)) &&
      r["elevation"] == JNum(0.0) &&
      r["fill_color"] == ColorJson([40, 150, 220, Color.Alpha]) &&
      r["fill_color"] != ColorJson(MissingColor)
  {
    var r := Annotate(props, Lookup(dfYear, metric, scale, lg));
    AnnotateMatched(props, dfYear, metric, scale, lg, i);
    ValueRowNonPositive(dfYear, metric, scale, lg, i);
    assert r["fill_color"] == ColorJson([40, 150, 220, Color.Alpha]);
    ColorJsonInjective([40, 150, 220, Color.Alpha], MissingColor);
  }
}
