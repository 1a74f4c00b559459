/** The postcode pipeline: sample the census postcodes, geocode each one, drop
    those without coordinates and restore the postcode's compact form. */
module PostcodePipeline {
  import opened Wrappers
  import opened Tables
  import opened Dedup
  import opened Records
  import opened Geo
  import Text

  /** The row cap of line 26. */
  const SampleSize: nat := 1000

  function RawPostcode(r: CensusRecord): Cell {
    r.postcode
  }

  function CellKey(c: Cell): Cell {
    c
  }

  /** Lines 23-27: the postcode column of the census, its first 1000 rows,
      duplicates dropped keeping the first. (The London filter of line 24
      discards its result, so every row takes part.) */
  function SamplePostcodes(census: seq<CensusRecord>): (r: seq<Cell>)
    ensures |r| <= SampleSize
  {
    DropDuplicatesFirst(Take(MapRows(census, RawPostcode), SampleSize), CellKey)
  }

  /** Line 28 on one cell: every space becomes '+'. */
  function PlusEncodeCell(c: Cell): (r: Cell)
    ensures r.None? <==> c.None?
  {
    match c
    case None => None
    case Some(s) => Some(Text.ReplaceChar(s, ' ', '+'))
  }

  /** Line 28. */
  function PlusEncode(sample: seq<Cell>): seq<Cell> {
    MapRows(sample, PlusEncodeCell)
  }

  /** Line 47: one geocoding call per sampled postcode, in order. */
  function LookupCoordinates(postcodes: seq<Cell>, lookup: Cell -> Option<Json>): (r: seq<CoordinateRow>)
    ensures |r| == |postcodes|
  {
    seq(|postcodes|, i requires 0 <= i < |postcodes| => Geocode(postcodes[i], lookup))
  }

  /** Line 56 on one row. */
  function DeletePlusRow(row: CoordinateRow): CoordinateRow {
    row.(postcode := RemoveCharCell(row.postcode, '+'))
  }

  /** Line 56. */
  function DeletePlus(rows: seq<CoordinateRow>): seq<CoordinateRow> {
    MapRows(rows, DeletePlusRow)
  }

  /** Line 47 raises when the sample is empty: unpacking `zip(*[])` into two
      columns finds no values. */
  datatype PipelineError = NothingToUnpack

  /** The coordinates found for the encoded sample, before line 56. */
  function FoundCoordinates(census: seq<CensusRecord>, lookup: Cell -> Option<Json>): seq<CoordinateRow> {
    DropIncompleteCoordinates(LookupCoordinates(PlusEncode(SamplePostcodes(census)), lookup))
  }

  /** Lines 22-56: the table written as `cleaned_postcodes_coordinates.csv`. */
  function PostcodeCoordinates(census: seq<CensusRecord>, lookup: Cell -> Option<Json>)
    : Result<seq<CoordinateRow>, PipelineError>
  {
    if |SamplePostcodes(census)| == 0 then Failure(NothingToUnpack)
    else Success(DeletePlus(FoundCoordinates(census, lookup)))
  }

  // ---------------------------------------------------------------------------

  /** No postcode occurs twice in the sample. */
  lemma SampleDistinct(census: seq<CensusRecord>)
    ensures var r := SamplePostcodes(census);
      forall i, j :: 0 <= i < j < |r| ==> r[i] != r[j]
  {
    var r := SamplePostcodes(census);
    DropFirstUnique(Take(MapRows(census, RawPostcode), SampleSize), CellKey);
    assert forall i, j :: 0 <= i < j < |r| ==> CellKey(r[i]) != CellKey(r[j]);
  }

  /** Every postcode among the first 1000 census rows is in the sample. */
  lemma SampleCovers(census: seq<CensusRecord>, i: nat)
    requires i < |census| && i < SampleSize
    ensures census[i].postcode in SamplePostcodes(census)
  {
    var raw := Take(MapRows(census, RawPostcode), SampleSize);
    var r := SamplePostcodes(census);
    assert CellKey(raw[i]) == census[i].postcode;
    DropFirstKeys(raw, CellKey, census[i].postcode);
    var k :| 0 <= k < |r| && CellKey(r[k]) == census[i].postcode;
  }

  /** Every sampled postcode comes from the first 1000 census rows. */
  lemma SampleFromCensus(census: seq<CensusRecord>, i: nat)
    requires i < |SamplePostcodes(census)|
    ensures SamplePostcodes(census)[i] in MapRows(Take(census, SampleSize), RawPostcode)
  {
    var raw := Take(MapRows(census, RawPostcode), SampleSize);
    var r := SamplePostcodes(census);
    SubsequenceMembers(r, raw);
    var k :| 0 <= k < |raw| && raw[k] == r[i];
    assert MapRows(Take(census, SampleSize), RawPostcode)[k] == r[i];
  }

  /** Keep-first order: a postcode sampled before another already occurred in
      the census before any occurrence of the other. */
  lemma SampleOrder(census: seq<CensusRecord>, a: nat, b: nat, j: nat)
    requires a < b < |SamplePostcodes(census)|
    requires j < |census| && j < SampleSize && census[j].postcode == SamplePostcodes(census)[b]
    ensures SamplePostcodes(census)[a] in MapRows(census[..j], RawPostcode)
  {
    var raw := Take(MapRows(census, RawPostcode), SampleSize);
    var r := SamplePostcodes(census);
    assert CellKey(raw[j]) == CellKey(r[b]);
    DropFirstOrder(raw, CellKey, a, b, j);
    var i :| 0 <= i < |raw[..j]| && CellKey(raw[..j][i]) == CellKey(r[a]);
    assert MapRows(census[..j], RawPostcode)[i] == r[a];
  }

  /** Lines 23-27 together: the sample holds at most 1000 postcodes, no two
      equal; every postcode among the first 1000 census rows is in it and
      nothing else is; and they appear in order of first appearance, so each
      kept entry is the first occurrence of its postcode. */
  lemma SampleSpec(census: seq<CensusRecord>)
    ensures var r := SamplePostcodes(census);
      && |r| <= SampleSize
      && (forall i, j :: 0 <= i < j < |r| ==> r[i] != r[j])
      && (forall i :: 0 <= i < |census| && i < SampleSize ==> census[i].postcode in r)
      && (forall i :: 0 <= i < |r| ==> r[i] in MapRows(Take(census, SampleSize), RawPostcode))
      && (forall a, b, j :: 0 <= a < b < |r| && 0 <= j < |census| && j < SampleSize
            && census[j].postcode == r[b]
            ==> r[a] in MapRows(census[..j], RawPostcode))
  {
    var r := SamplePostcodes(census);
    SampleDistinct(census);
    forall i | 0 <= i < |census| && i < SampleSize ensures census[i].postcode in r {
      SampleCovers(census, i);
    }
    forall i | 0 <= i < |r| ensures r[i] in MapRows(Take(census, SampleSize), RawPostcode) {
      SampleFromCensus(census, i);
    }
    forall a, b, j | 0 <= a < b < |r| && 0 <= j < |census| && j < SampleSize && census[j].postcode == r[b]
      ensures r[a] in MapRows(census[..j], RawPostcode)
    {
      SampleOrder(census, a, b, j);
    }
  }

  /** Encoding spaces as '+' and deleting '+' afterwards yields the same
      compact postcode as deleting spaces (the key form of line 93), for every
      postcode that held no '+' of its own. */
  lemma PlusRoundTripCell(c: Cell)
    requires c.Some? ==> '+' !in c.value
    ensures RemoveCharCell(PlusEncodeCell(c), '+') == RemoveCharCell(c, ' ')
  {
    if c.Some? {
      Text.PlusRoundTrip(c.value);
    }
  }

  /** The pipeline raises exactly when the census is empty. */
  lemma FailsOnlyOnEmptyCensus(census: seq<CensusRecord>, lookup: Cell -> Option<Json>)
    ensures PostcodeCoordinates(census, lookup).Failure? <==> |census| == 0
  {
    if |census| > 0 {
      SampleCovers(census, 0);
    }
  }

  /** A sampled postcode has a row among the found coordinates exactly when
      the service answered it with both coordinates usable: a failed lookup
      removes the postcode from the output, never anything else. */
  lemma FoundIffComplete(census: seq<CensusRecord>, lookup: Cell -> Option<Json>, pc: Cell)
    requires pc in PlusEncode(SamplePostcodes(census))
    ensures HasKey(FoundCoordinates(census, lookup), CoordinatePostcode, pc)
            <==> Complete(Geocode(pc, lookup))
  {
    var encoded := PlusEncode(SamplePostcodes(census));
    DropIncompleteIsFilter(LookupCoordinates(encoded, lookup));
    if HasKey(FoundCoordinates(census, lookup), CoordinatePostcode, pc) {
      FoundOnlyComplete(encoded, lookup, pc);
    }
    if Complete(Geocode(pc, lookup)) {
      CompleteIsFound(encoded, lookup, pc);
    }
  }

  lemma FoundOnlyComplete(encoded: seq<Cell>, lookup: Cell -> Option<Json>, pc: Cell)
    requires HasKey(Filter(LookupCoordinates(encoded, lookup), Complete), CoordinatePostcode, pc)
    ensures Complete(Geocode(pc, lookup))
  {
    var looked := LookupCoordinates(encoded, lookup);
    var found := Filter(looked, Complete);
    var i :| 0 <= i < |found| && CoordinatePostcode(found[i]) == pc;
    var k :| 0 <= k < |looked| && looked[k] == found[i];
    assert looked[k] == Geocode(encoded[k], lookup);
  }

  lemma CompleteIsFound(encoded: seq<Cell>, lookup: Cell -> Option<Json>, pc: Cell)
    requires pc in encoded && Complete(Geocode(pc, lookup))
    ensures HasKey(Filter(LookupCoordinates(encoded, lookup), Complete), CoordinatePostcode, pc)
  {
    var looked := LookupCoordinates(encoded, lookup);
    var found := Filter(looked, Complete);
    var k :| 0 <= k < |encoded| && encoded[k] == pc;
    assert looked[k] == Geocode(pc, lookup);
    var i :| 0 <= i < |found| && found[i] == looked[k];
    assert CoordinatePostcode(found[i]) == pc;
  }

  /** The written table: at most 1000 rows, every one with both coordinates,
      and each row the answer for one sampled postcode with its '+' deleted. */
  lemma PostcodeCoordinatesSpec(census: seq<CensusRecord>, lookup: Cell -> Option<Json>)
    requires PostcodeCoordinates(census, lookup).Success?
    ensures var out := PostcodeCoordinates(census, lookup).value;
      var sample := SamplePostcodes(census);
      && |out| <= SampleSize
      && (forall i :: 0 <= i < |out| ==> Complete(out[i]))
      && (forall i :: 0 <= i < |out| ==> out[i].postcode.Some? ==> '+' !in out[i].postcode.value)
      && (forall i :: 0 <= i < |out| ==>
            (exists k :: 0 <= k < |sample| && out[i] == DeletePlusRow(Geocode(PlusEncodeCell(sample[k]), lookup))))
  {
    var sample := SamplePostcodes(census);
    var encoded := PlusEncode(sample);
    var looked := LookupCoordinates(encoded, lookup);
    var found := FoundCoordinates(census, lookup);
    var out := PostcodeCoordinates(census, lookup).value;
    DropIncompleteSpec(looked);
    forall i | 0 <= i < |out|
      ensures Complete(out[i])
      ensures exists k :: 0 <= k < |sample| && out[i] == DeletePlusRow(Geocode(PlusEncodeCell(sample[k]), lookup))
    {
      assert out[i] == DeletePlusRow(found[i]);
      var k :| 0 <= k < |looked| && looked[k] == found[i];
      assert looked[k] == Geocode(PlusEncodeCell(sample[k]), lookup);
    }
  }
}
