/** Turning a geocoding response into coordinates (`postcode_converter` after
    its HTTP request), and dropping the postcodes whose coordinates are
    missing. The HTTP request, the pause after it and `json.loads` are not
    modelled: a response is given as the value `json.loads` returned, or as
    `None` when it raised. Coordinates are kept as the JSON values the service
    sent; only whether they are present matters. */
module Geo {
  import opened Wrappers
  import opened Tables
  import opened Records

  /** A value `json.loads` can return. */
  datatype Json =
    | JNull
    | JBool(b: bool)
    | JNumber(n: real)
    | JString(s: string)
    | JArray(items: seq<Json>)
    | JObject(members: map<string, Json>)

  /** `j[name]`, when it does not raise: only an object with that key can be
      subscripted by a string. */
  function Member(j: Json, name: string): Option<Json> {
    if j.JObject? && name in j.members then Some(j.members[name]) else None
  }

  /** The value at `result['data'][name]` of a parsed response, if reachable. */
  function DataField(parsed: Option<Json>, name: string): Option<Json> {
    if parsed.None? then None
    else
      var data := Member(parsed.value, "data");
      if data.None? then None else Member(data.value, name)
  }

  /** A JSON `null` arrives in Python as `None`, i.e. as a missing value. */
  function NoneIfNull(j: Json): (r: Option<Json>)
    ensures r.None? <==> j.JNull?
  {
    if j.JNull? then None else Some(j)
  }

  /** The `(longitude, latitude)` pair `postcode_converter` returns for a
      parsed response. Longitude is read first; a failure there abandons the
      latitude as well, whereas a missing latitude leaves the longitude. */
  function Extract(parsed: Option<Json>): (r: (Option<Json>, Option<Json>))
    ensures DataField(parsed, "longitude").None? ==> r == (None, None)
    ensures DataField(parsed, "longitude").Some? ==>
              && r.0 == NoneIfNull(DataField(parsed, "longitude").value)
              && r.1 == (if DataField(parsed, "latitude").Some?
                         then NoneIfNull(DataField(parsed, "latitude").value) else None)
    ensures r.1.Some? ==> DataField(parsed, "longitude").Some?
    ensures r.0 != Some(JNull) && r.1 != Some(JNull)
  {
    match parsed
    case None => (None, None)
    case Some(result) =>
      match Member(result, "data")
      case None => (None, None)
      case Some(data) =>
        match Member(data, "longitude")
        case None => (None, None)
        case Some(lon) =>
          (NoneIfNull(lon), match Member(data, "latitude")
                            case None => None
                            case Some(lat) => NoneIfNull(lat))
  }

  /** A response whose `data` has a longitude but no latitude yields a
      longitude without a latitude. */
  lemma LongitudeWithoutLatitude()
    ensures Extract(Some(JObject(map["data" := JObject(map["longitude" := JNumber(1.0)])])))
            == (Some(JNumber(1.0)), None)
  {
  }

  /** A JSON `null` longitude still lets the latitude through. */
  lemma LatitudeWithoutLongitude()
    ensures Extract(Some(JObject(map["data" := JObject(map["longitude" := JNull, "latitude" := JNumber(51.5)])])))
            == (None, Some(JNumber(51.5)))
  {
  }

  /** One row of the postcode table after the lookup. */
  datatype CoordinateRow = CoordinateRow(postcode: Cell, longitude: Option<Json>, latitude: Option<Json>)

  /** `postcode_converter` applied to one postcode, given the service's
      (parsed) answer for it. */
  function Geocode(postcode: Cell, lookup: Cell -> Option<Json>): (row: CoordinateRow)
    ensures row.postcode == postcode
    ensures (row.longitude, row.latitude) == Extract(lookup(postcode))
  {
    var e := Extract(lookup(postcode));
    CoordinateRow(postcode, e.0, e.1)
  }

  function CoordinatePostcode(row: CoordinateRow): Cell {
    row.postcode
  }

  /** A coordinate value `replace('', np.nan)` does not turn into NaN. */
  predicate Usable(v: Option<Json>) {
    v.Some? && v != Some(JString(""))
  }

  /** Both coordinates present and neither an empty string. */
  predicate Complete(row: CoordinateRow) {
    Usable(row.longitude) && Usable(row.latitude)
  }

  function BlankToNull(v: Option<Json>): (r: Option<Json>)
    ensures r.None? <==> !Usable(v)
    ensures Usable(v) ==> r == v
  {
    if v == Some(JString("")) then None else v
  }

  /** Line 52 on one row. */
  function BlankLongitudeToNull(row: CoordinateRow): CoordinateRow {
    row.(longitude := BlankToNull(row.longitude))
  }

  /** Line 53 on one row. */
  function BlankLatitudeToNull(row: CoordinateRow): CoordinateRow {
    row.(latitude := BlankToNull(row.latitude))
  }

  predicate HasLongitude(row: CoordinateRow) {
    row.longitude.Some?
  }

  predicate HasLatitude(row: CoordinateRow) {
    row.latitude.Some?
  }

  predicate HasBoth(row: CoordinateRow) {
    row.longitude.Some? && row.latitude.Some?
  }

  predicate LongitudePresentLatitudeUsable(row: CoordinateRow) {
    row.longitude.Some? && Usable(row.latitude)
  }

  /** Lines 52-55: blank coordinates become NaN, then rows lacking either
      coordinate are dropped. */
  function DropIncompleteCoordinates(rows: seq<CoordinateRow>): seq<CoordinateRow> {
    var blanked := MapRows(MapRows(rows, BlankLongitudeToNull), BlankLatitudeToNull);
    Filter(Filter(blanked, HasLongitude), HasLatitude)
  }

  /** The four steps of lines 52-55 amount to one stable filter keeping the
      rows with both coordinates usable: no surviving row is altered. */
  lemma DropIncompleteIsFilter(rows: seq<CoordinateRow>)
    ensures DropIncompleteCoordinates(rows) == Filter(rows, Complete)
  {
    var m1 := MapRows(rows, BlankLongitudeToNull);
    var m2 := MapRows(m1, BlankLatitudeToNull);
    BothFilters(m2);
    LatitudeStep(m1);
    LongitudeStep(rows);
  }

  lemma BothFilters(m2: seq<CoordinateRow>)
    ensures Filter(Filter(m2, HasLongitude), HasLatitude) == Filter(m2, HasBoth)
  {
    FilterFilter(m2, HasLongitude, HasLatitude, HasBoth);
  }

  lemma LatitudeStep(m1: seq<CoordinateRow>)
    ensures Filter(MapRows(m1, BlankLatitudeToNull), HasBoth) == Filter(m1, LongitudePresentLatitudeUsable)
  {
    FilterAfterMap(m1, BlankLatitudeToNull, HasBoth, LongitudePresentLatitudeUsable);
  }

  lemma LongitudeStep(rows: seq<CoordinateRow>)
    ensures Filter(MapRows(rows, BlankLongitudeToNull), LongitudePresentLatitudeUsable) == Filter(rows, Complete)
  {
    FilterAfterMap(rows, BlankLongitudeToNull, LongitudePresentLatitudeUsable, Complete);
  }

  /** After lines 52-55 every row has both coordinates, rows are only removed,
      and the survivors keep their order: a complete row survives, an
      incomplete one does not. */
  lemma DropIncompleteSpec(rows: seq<CoordinateRow>)
    ensures var r := DropIncompleteCoordinates(rows);
      && (forall i :: 0 <= i < |r| ==> Complete(r[i]) && r[i] in rows)
      && (forall i :: 0 <= i < |rows| && Complete(rows[i]) ==> rows[i] in r)
      && IsSubsequence(r, rows)
      && |r| == Count(rows, Complete)
  {
    DropIncompleteIsFilter(rows);
    FilterLength(rows, Complete);
  }
}
