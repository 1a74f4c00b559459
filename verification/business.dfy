/** The business-census pipeline: clean and deduplicate the census, attach
    the geocoded coordinates with a right merge and the borough code with a
    left merge, and project the fixed output columns. */
module BusinessPipeline {
  import opened Wrappers
  import opened Tables
  import opened Dedup
  import opened Join
  import opened Records
  import opened Geo
  import opened Synonyms
  import Text

  function PostcodeOf(r: CensusRecord): Cell {
    r.postcode
  }

  // ---------------------------------------------------------------------------
  // Lines 87-88: strip every text column.

  function StripRecord(r: CensusRecord): CensusRecord {
    CensusRecord(StripCell(r.companyNumber), StripCell(r.incorporationDate),
                 StripCell(r.addressLine1), StripCell(r.addressLine2),
                 StripCell(r.postTown), StripCell(r.postcode), StripCell(r.companyCategory))
  }

  function StripText(t: seq<CensusRecord>): seq<CensusRecord> {
    MapRows(t, StripRecord)
  }

  // ---------------------------------------------------------------------------
  // Lines 91-94: postcode cleaning.

  function BlankPostcodeToNull(r: CensusRecord): CensusRecord {
    r.(postcode := NullIfEmpty(r.postcode))
  }

  predicate HasPostcode(r: CensusRecord) {
    r.postcode.Some?
  }

  function DespacePostcode(r: CensusRecord): CensusRecord {
    r.(postcode := RemoveCharCell(r.postcode, ' '))
  }

  /** Lines 91-93: empty postcodes become NaN, rows without a postcode are
      dropped, and the spaces are deleted from the rest. */
  function KeyedPostcodes(t: seq<CensusRecord>): seq<CensusRecord> {
    MapRows(Filter(MapRows(t, BlankPostcodeToNull), HasPostcode), DespacePostcode)
  }

  /** Line 94: one row per postcode, the first. */
  function CleanPostcodes(t: seq<CensusRecord>): seq<CensusRecord> {
    DropDuplicatesFirst(KeyedPostcodes(t), PostcodeOf)
  }

  /** A postcode of the form line 93 produces from stripped text: present,
      non-empty and without spaces. */
  predicate CompactPostcode(c: Cell) {
    c.Some? && c.value != "" && ' ' !in c.value
  }

  /** After lines 87-93 every postcode is compact: stripping first makes a
      present non-blank postcode start with a non-space, so deleting its
      spaces cannot empty it. */
  lemma KeyedPostcodesCompact(census: seq<CensusRecord>, i: nat)
    requires i < |KeyedPostcodes(StripText(census))|
    ensures CompactPostcode(KeyedPostcodes(StripText(census))[i].postcode)
  {
    var m := MapRows(StripText(census), BlankPostcodeToNull);
    var f := Filter(m, HasPostcode);
    assert KeyedPostcodes(StripText(census))[i] == DespacePostcode(f[i]);
    assert f[i] in m;
    var j :| 0 <= j < |m| && m[j] == f[i];
    var c := census[j].postcode;
    assert f[i].postcode == NullIfEmpty(StripCell(c));
    var v := Text.Strip(c.value);
    assert f[i].postcode == Some(v) && v != "";
    Text.DespacedStrippedNonEmpty(v);
  }

  /** Lines 87-94: no row has an empty or missing postcode, no postcode holds
      a space, postcodes are pairwise distinct, and each kept row is the first
      row carrying its postcode after lines 91-93. */
  lemma CleanPostcodesSpec(census: seq<CensusRecord>)
    ensures var keyed := KeyedPostcodes(StripText(census));
      var r := CleanPostcodes(StripText(census));
      && (forall i :: 0 <= i < |r| ==> CompactPostcode(r[i].postcode))
      && UniqueOn(r, PostcodeOf)
      && (forall k, i :: (0 <= k < |r| && IsFirstOccurrence(keyed, PostcodeOf, i)
                          && keyed[i].postcode == r[k].postcode) ==> r[k] == keyed[i])
      && (forall j :: 0 <= j < |census| && KeepsPostcode(census[j]) ==> HasKey(r, PostcodeOf, CleanKey(census[j])))
      && (forall k :: 0 <= k < |r| ==>
            exists j :: 0 <= j < |census| && KeepsPostcode(census[j]) && r[k].postcode == CleanKey(census[j]))
  {
    DropFirstUnique(KeyedPostcodes(StripText(census)), PostcodeOf);
    CleanPostcodesCompact(census);
    CleanPostcodesFirst(census);
    CleanPostcodesCovers(census);
    CleanPostcodesFrom(census);
  }

  /** Each row kept by line 94 is the first row carrying its postcode. */
  lemma CleanPostcodesFirst(census: seq<CensusRecord>)
    ensures var keyed := KeyedPostcodes(StripText(census));
      var r := CleanPostcodes(StripText(census));
      forall k, i :: (0 <= k < |r| && IsFirstOccurrence(keyed, PostcodeOf, i)
                      && keyed[i].postcode == r[k].postcode) ==> r[k] == keyed[i]
  {
    var keyed := KeyedPostcodes(StripText(census));
    var r := CleanPostcodes(StripText(census));
    forall k, i | 0 <= k < |r| && IsFirstOccurrence(keyed, PostcodeOf, i) && keyed[i].postcode == r[k].postcode
      ensures r[k] == keyed[i]
    {
      DropFirstKeepsFirst(keyed, PostcodeOf, k, i);
    }
  }

  /** A census row whose postcode is present and not blank once stripped,
      so that lines 91-92 keep it. */
  predicate KeepsPostcode(r: CensusRecord) {
    StripCell(r.postcode).Some? && StripCell(r.postcode).value != ""
  }

  /** The postcode lines 87-93 make of a census row's postcode. */
  function CleanKey(r: CensusRecord): Cell {
    RemoveCharCell(StripCell(r.postcode), ' ')
  }

  /** Every census row with a non-blank postcode has its cleaned postcode in
      the output of line 94. */
  lemma CleanPostcodesCovers(census: seq<CensusRecord>)
    ensures var r := CleanPostcodes(StripText(census));
      forall j :: 0 <= j < |census| && KeepsPostcode(census[j]) ==> HasKey(r, PostcodeOf, CleanKey(census[j]))
  {
    var keyed := KeyedPostcodes(StripText(census));
    forall j | 0 <= j < |census| && KeepsPostcode(census[j])
      ensures HasKey(CleanPostcodes(StripText(census)), PostcodeOf, CleanKey(census[j]))
    {
      KeyedCovers(census, j);
      DropFirstKeys(keyed, PostcodeOf, CleanKey(census[j]));
    }
  }

  /** Every postcode in the output of line 94 is the cleaned postcode of a
      census row with a non-blank postcode. */
  lemma CleanPostcodesFrom(census: seq<CensusRecord>)
    ensures var r := CleanPostcodes(StripText(census));
      forall k :: 0 <= k < |r| ==>
        exists j :: 0 <= j < |census| && KeepsPostcode(census[j]) && r[k].postcode == CleanKey(census[j])
  {
    var r := CleanPostcodes(StripText(census));
    forall k | 0 <= k < |r|
      ensures exists j :: 0 <= j < |census| && KeepsPostcode(census[j]) && r[k].postcode == CleanKey(census[j])
    {
      var i := KeptPostcodeOrigin(census, k);
      KeyedFrom(census, i);
    }
  }

  lemma KeyedCovers(census: seq<CensusRecord>, j: nat)
    requires j < |census| && KeepsPostcode(census[j])
    ensures HasKey(KeyedPostcodes(StripText(census)), PostcodeOf, CleanKey(census[j]))
  {
    var m := MapRows(StripText(census), BlankPostcodeToNull);
    var f := Filter(m, HasPostcode);
    assert m[j] == BlankPostcodeToNull(StripRecord(census[j]));
    assert m[j].postcode == StripCell(census[j].postcode);
    assert HasPostcode(m[j]);
    var i :| 0 <= i < |f| && f[i] == m[j];
    assert KeyedPostcodes(StripText(census))[i] == DespacePostcode(f[i]);
  }

  lemma KeyedFrom(census: seq<CensusRecord>, i: nat)
    requires i < |KeyedPostcodes(StripText(census))|
    ensures exists j :: 0 <= j < |census| && KeepsPostcode(census[j])
                        && KeyedPostcodes(StripText(census))[i].postcode == CleanKey(census[j])
  {
    var m := MapRows(StripText(census), BlankPostcodeToNull);
    var f := Filter(m, HasPostcode);
    assert KeyedPostcodes(StripText(census))[i] == DespacePostcode(f[i]);
    var j :| 0 <= j < |m| && m[j] == f[i];
    assert m[j] == BlankPostcodeToNull(StripRecord(census[j]));
    assert f[i].postcode == NullIfEmpty(StripCell(census[j].postcode));
    assert KeepsPostcode(census[j]);
  }

  lemma CleanPostcodesCompact(census: seq<CensusRecord>)
    ensures var r := CleanPostcodes(StripText(census));
      forall i :: 0 <= i < |r| ==> CompactPostcode(r[i].postcode)
  {
    var r := CleanPostcodes(StripText(census));
    forall k | 0 <= k < |r| ensures CompactPostcode(r[k].postcode) {
      var i := KeptPostcodeOrigin(census, k);
      KeyedPostcodesCompact(census, i);
    }
  }

  /** Each postcode kept by line 94 is the postcode of some row after lines
      91-93. */
  lemma KeptPostcodeOrigin(census: seq<CensusRecord>, k: nat) returns (i: nat)
    requires k < |CleanPostcodes(StripText(census))|
    ensures i < |KeyedPostcodes(StripText(census))|
    ensures KeyedPostcodes(StripText(census))[i].postcode == CleanPostcodes(StripText(census))[k].postcode
  {
    var keyed := KeyedPostcodes(StripText(census));
    var r := DropDuplicatesFirst(keyed, PostcodeOf);
    var c := r[k].postcode;
    assert PostcodeOf(r[k]) == c;
    DropFirstKeys(keyed, PostcodeOf, c);
    i :| 0 <= i < |keyed| && PostcodeOf(keyed[i]) == c;
  }

  // ---------------------------------------------------------------------------
  // Lines 97-100: company category.

  const LimitedCompanyVariants: seq<string> := [
    "PRI/LTD BY GUAR/NSC (Private, limited by guarantee, no share capital)",
    "PRI/LBG/NSC (Private, Limited by guarantee, no share capital, use of 'Limited' exemption)",
    "PRIV LTD SECT. 30 (Private limited company, section 30 of the Companies Act)"]

  /** Lines 97 and 98, in that order. The canonical spelling "Comapany" is the
      source's own. */
  const CategoryRules: seq<Synonym> := [
    Synonym(LimitedCompanyVariants, "Private Limited Comapany"),
    Synonym(["Private Unlimited"], "Private Unlimited Company")]

  /** Line 99: '' replaced by ''. */
  const EmptyCategoryRule: seq<Synonym> := [Synonym([""], "")]

  function NormalizeCategoryRecord(r: CensusRecord): CensusRecord {
    r.(companyCategory := RewriteCell(RewriteCell(r.companyCategory, CategoryRules), EmptyCategoryRule))
  }

  predicate HasCategory(r: CensusRecord) {
    r.companyCategory.Some?
  }

  /** Lines 97-100. */
  function NormalizeCategory(t: seq<CensusRecord>): seq<CensusRecord> {
    Filter(MapRows(t, NormalizeCategoryRecord), HasCategory)
  }

  /** The category table maps exactly the three listed long forms to
      "Private Limited Comapany" and "Private Unlimited" to "Private Unlimited
      Company"; every other value is unchanged. */
  lemma CategoryMapping(v: string)
    ensures Rewrite(v, CategoryRules) ==
      if v in LimitedCompanyVariants then "Private Limited Comapany"
      else if v == "Private Unlimited" then "Private Unlimited Company"
      else v
  {
    assert CategoryRules[1..] == [Synonym(["Private Unlimited"], "Private Unlimited Company")];
    assert CategoryRules[1..][1..] == [];
    assert "Private Limited Comapany" != "Private Unlimited";
    assert "Private Unlimited" !in LimitedCompanyVariants;
  }

  /** Line 99 changes nothing. */
  lemma EmptyCategoryRuleIsNoOp(v: string)
    ensures Rewrite(v, EmptyCategoryRule) == v
  {
    assert EmptyCategoryRule[1..] == [];
  }

  /** The category mapping is idempotent, and a category that has been
      through it is never one of the listed variants. */
  lemma CategoryIdempotent(v: string)
    ensures Rewrite(Rewrite(v, CategoryRules), CategoryRules) == Rewrite(v, CategoryRules)
    ensures !IsVariant(Rewrite(v, CategoryRules), CategoryRules)
  {
    CategoryRulesResolved();
    ResolvedUnchained(CategoryRules);
    RewriteIdempotent(v, CategoryRules);
    RewriteLeavesNoVariant(v, CategoryRules);
  }

  /** No canonical category is itself listed as a variant. */
  lemma CategoryRulesResolved()
    ensures Resolved(CategoryRules)
  {
    assert "Private Limited Comapany" !in LimitedCompanyVariants;
    assert "Private Unlimited Company" !in LimitedCompanyVariants;
  }

  /** Lines 97-100 drop exactly the rows whose category is missing, keep the
      others in order, and change nothing in a kept row but its category,
      which is then never a listed variant. */
  lemma NormalizeCategorySpec(t: seq<CensusRecord>)
    ensures NormalizeCategory(t) == MapRows(Filter(t, HasCategory), NormalizeCategoryRecord)
    ensures |NormalizeCategory(t)| == Count(t, HasCategory)
    ensures forall i :: 0 <= i < |NormalizeCategory(t)| ==>
              NormalizeCategory(t)[i].companyCategory.Some?
              && !IsVariant(NormalizeCategory(t)[i].companyCategory.value, CategoryRules)
  {
    FilterMapCommute(t, NormalizeCategoryRecord, HasCategory);
    FilterLength(t, HasCategory);
    var f := Filter(t, HasCategory);
    forall i | 0 <= i < |f|
      ensures !IsVariant(NormalizeCategoryRecord(f[i]).companyCategory.value, CategoryRules)
    {
      var v := f[i].companyCategory.value;
      EmptyCategoryRuleIsNoOp(Rewrite(v, CategoryRules));
      CategoryIdempotent(v);
    }
  }

  // ---------------------------------------------------------------------------
  // Lines 102-108: dates and address lines.

  /** Line 102 (`pd.to_datetime`, given as `toDatetime`) and lines 105-108
      (`astype(str)` then `string.capwords`, given as `capwords`). */
  function FinishRecord(r: CensusRecord, toDatetime: Cell -> Cell, capwords: string -> string): CensusRecord {
    r.(incorporationDate := toDatetime(r.incorporationDate),
       addressLine1 := Some(capwords(CellText(r.addressLine1))),
       addressLine2 := Some(capwords(CellText(r.addressLine2))))
  }

  function FinishRecords(t: seq<CensusRecord>, toDatetime: Cell -> Cell, capwords: string -> string)
    : (r: seq<CensusRecord>)
    ensures |r| == |t|
    ensures forall i :: 0 <= i < |t| ==> r[i].postcode == t[i].postcode
  {
    seq(|t|, i requires 0 <= i < |t| => FinishRecord(t[i], toDatetime, capwords))
  }

  /** Lines 78-108: the census table as it enters the merge. */
  function CleanBusiness(census: seq<CensusRecord>, toDatetime: Cell -> Cell, capwords: string -> string)
    : seq<CensusRecord>
  {
    FinishRecords(NormalizeCategory(CleanPostcodes(StripText(census))), toDatetime, capwords)
  }

  /** When the merge runs, the census table is unique on postcode and every
      postcode is compact. */
  lemma CleanBusinessSpec(census: seq<CensusRecord>, toDatetime: Cell -> Cell, capwords: string -> string)
    ensures var b := CleanBusiness(census, toDatetime, capwords);
      && UniqueOn(b, PostcodeOf)
      && (forall i :: 0 <= i < |b| ==> CompactPostcode(b[i].postcode))
  {
    var c := CleanPostcodes(StripText(census));
    CleanPostcodesSpec(census);
    NormalizeCategoryKeepsPostcodes(c);
  }

  /** Lines 97-108 keep uniqueness and compactness of postcodes. */
  lemma NormalizeCategoryKeepsPostcodes(c: seq<CensusRecord>)
    ensures UniqueOn(c, PostcodeOf) ==> UniqueOn(NormalizeCategory(c), PostcodeOf)
    ensures (forall i :: 0 <= i < |c| ==> CompactPostcode(c[i].postcode)) ==>
            forall i :: 0 <= i < |NormalizeCategory(c)| ==> CompactPostcode(NormalizeCategory(c)[i].postcode)
  {
    var m := MapRows(c, NormalizeCategoryRecord);
    var n := NormalizeCategory(c);
    if UniqueOn(c, PostcodeOf) {
      MapKeepsUnique(c, NormalizeCategoryRecord, PostcodeOf, PostcodeOf);
      SubsequenceKeepsUnique(n, m, PostcodeOf);
    }
    SubsequenceMembers(n, m);
  }

  // ---------------------------------------------------------------------------
  // Line 114: right merge with the coordinates.

  /** Line 114: `pd.merge(df, coordinates, on='postcode', how='right')`. */
  function AttachCoordinates(business: seq<CensusRecord>, coords: seq<CoordinateRow>)
    : seq<(Option<CensusRecord>, CoordinateRow)>
  {
    RightMerge(business, coords, PostcodeOf, CoordinatePostcode)
  }

  /** Because the cleaned census is unique on postcode, the right merge yields
      exactly one row per coordinates row, in order: the census row with that
      postcode when there is one, otherwise missing business columns. */
  lemma AttachCoordinatesOnePerRow(census: seq<CensusRecord>, toDatetime: Cell -> Cell, capwords: string -> string,
                                   coords: seq<CoordinateRow>)
    ensures var b := CleanBusiness(census, toDatetime, capwords);
      var e := AttachCoordinates(b, coords);
      && |e| == |coords|
      && (forall i :: 0 <= i < |coords| ==> e[i].1 == coords[i])
      && (forall i :: 0 <= i < |coords| ==>
            (e[i].0.None? <==> !HasKey(b, PostcodeOf, coords[i].postcode)))
      && (forall i :: 0 <= i < |coords| && e[i].0.Some? ==>
            e[i].0.value in b && e[i].0.value.postcode == coords[i].postcode)
  {
    var b := CleanBusiness(census, toDatetime, capwords);
    CleanBusinessSpec(census, toDatetime, capwords);
    RightMergeUniqueLeft(b, coords, PostcodeOf, CoordinatePostcode);
    forall i | 0 <= i < |coords| {
      LookupSpec(b, PostcodeOf, coords[i].postcode);
    }
  }

  // ---------------------------------------------------------------------------
  // Lines 118-123: borough codes.

  datatype BoroughPostcode = BoroughPostcode(postcode: Cell, boroughCode: Cell)

  function BoroughPostcodeOf(b: BoroughPostcode): Cell {
    b.postcode
  }

  function ToBoroughPostcode(r: LondonPostcodeRecord): BoroughPostcode {
    BoroughPostcode(RemoveCharCell(r.pcd, ' '), r.oslaua)
  }

  /** Lines 118-122: the postcode lookup with spaces deleted from `pcd`, which
      becomes `postcode`, and `oslaua` renamed `borough_code`. */
  function BoroughLookup(london: seq<LondonPostcodeRecord>): seq<BoroughPostcode> {
    MapRows(london, ToBoroughPostcode)
  }

  function EnrichedPostcode(e: (Option<CensusRecord>, CoordinateRow)): Cell {
    e.1.postcode
  }

  /** Line 123: `pd.merge(new_df, borough_code, on='postcode', how='left')`. */
  function AttachBoroughs(enriched: seq<(Option<CensusRecord>, CoordinateRow)>, boroughs: seq<BoroughPostcode>)
    : seq<((Option<CensusRecord>, CoordinateRow), Option<BoroughPostcode>)>
  {
    LeftMerge(enriched, boroughs, EnrichedPostcode, BoroughPostcodeOf)
  }

  // ---------------------------------------------------------------------------
  // Line 127: the output columns.

  /** The nine output columns, in the order of line 127: companynumber,
      incorporationdate, addressline1, addressline2, posttown, postcode,
      latitude, longitude, borough_code. */
  datatype FinalRow = FinalRow(
    companyNumber: Cell,
    incorporationDate: Cell,
    addressLine1: Cell,
    addressLine2: Cell,
    postTown: Cell,
    postcode: Cell,
    latitude: Option<Json>,
    longitude: Option<Json>,
    boroughCode: Cell)

  function BusinessField(b: Option<CensusRecord>, f: CensusRecord -> Cell): Cell {
    if b.Some? then f(b.value) else None
  }

  function CompanyNumberOf(r: CensusRecord): Cell { r.companyNumber }
  function IncorporationDateOf(r: CensusRecord): Cell { r.incorporationDate }
  function AddressLine1Of(r: CensusRecord): Cell { r.addressLine1 }
  function AddressLine2Of(r: CensusRecord): Cell { r.addressLine2 }
  function PostTownOf(r: CensusRecord): Cell { r.postTown }

  /** Line 127 on one merged row. */
  function Project(row: ((Option<CensusRecord>, CoordinateRow), Option<BoroughPostcode>)): FinalRow {
    var b := row.0.0;
    var c := row.0.1;
    FinalRow(
      BusinessField(b, CompanyNumberOf), BusinessField(b, IncorporationDateOf),
      BusinessField(b, AddressLine1Of), BusinessField(b, AddressLine2Of),
      BusinessField(b, PostTownOf), c.postcode, c.latitude, c.longitude,
      if row.1.Some? then row.1.value.boroughCode else None)
  }

  /** Lines 78-127: the table written as `cleaned_business_census.csv`. */
  function BusinessCensus(census: seq<CensusRecord>, coords: seq<CoordinateRow>, london: seq<LondonPostcodeRecord>,
                          toDatetime: Cell -> Cell, capwords: string -> string): seq<FinalRow>
  {
    var enriched := AttachCoordinates(CleanBusiness(census, toDatetime, capwords), coords);
    MapRows(AttachBoroughs(enriched, BoroughLookup(london)), Project)
  }

  /** The left merge keeps every merged row at least once, so every
      coordinates row reaches the output with its postcode and coordinates,
      and the output is at least as long as the coordinates table. */
  lemma BusinessCensusKeepsCoordinates(census: seq<CensusRecord>, coords: seq<CoordinateRow>,
                                       london: seq<LondonPostcodeRecord>,
                                       toDatetime: Cell -> Cell, capwords: string -> string, i: nat)
    requires i < |coords|
    ensures var out := BusinessCensus(census, coords, london, toDatetime, capwords);
      && |out| >= |coords|
      && exists j :: 0 <= j < |out| && out[j].postcode == coords[i].postcode
           && out[j].latitude == coords[i].latitude && out[j].longitude == coords[i].longitude
  {
    var b := CleanBusiness(census, toDatetime, capwords);
    var e := AttachCoordinates(b, coords);
    AttachCoordinatesOnePerRow(census, toDatetime, capwords, coords);
    var m := AttachBoroughs(e, BoroughLookup(london));
    LeftMergeKeepsLeft(e, BoroughLookup(london), EnrichedPostcode, BoroughPostcodeOf, i);
    var j :| 0 <= j < |m| && m[j].0 == e[i];
    var out := BusinessCensus(census, coords, london, toDatetime, capwords);
    assert out[j] == Project(m[j]);
  }

  /** When the borough lookup is unique on postcode (the code does not check
      this), the output has exactly one row per coordinates row, in order,
      carrying its postcode, coordinates and the borough code found for it. */
  lemma BusinessCensusUniqueBoroughs(census: seq<CensusRecord>, coords: seq<CoordinateRow>,
                                     london: seq<LondonPostcodeRecord>,
                                     toDatetime: Cell -> Cell, capwords: string -> string)
    requires UniqueOn(BoroughLookup(london), BoroughPostcodeOf)
    ensures var out := BusinessCensus(census, coords, london, toDatetime, capwords);
      var boroughs := BoroughLookup(london);
      && |out| == |coords|
      && forall i :: 0 <= i < |coords| ==>
           && out[i].postcode == coords[i].postcode
           && out[i].latitude == coords[i].latitude
           && out[i].longitude == coords[i].longitude
           && out[i].boroughCode ==
                (var l := Lookup(boroughs, BoroughPostcodeOf, coords[i].postcode);
                 if l.Some? then l.value.boroughCode else None)
  {
    var b := CleanBusiness(census, toDatetime, capwords);
    var e := AttachCoordinates(b, coords);
    AttachCoordinatesOnePerRow(census, toDatetime, capwords, coords);
    LeftMergeUniqueRight(e, BoroughLookup(london), EnrichedPostcode, BoroughPostcodeOf);
  }

  /** The five business columns of an output row are those of one census row. */
  predicate CarriesBusiness(r: FinalRow, b: Option<CensusRecord>) {
    && r.companyNumber == BusinessField(b, CompanyNumberOf)
    && r.incorporationDate == BusinessField(b, IncorporationDateOf)
    && r.addressLine1 == BusinessField(b, AddressLine1Of)
    && r.addressLine2 == BusinessField(b, AddressLine2Of)
    && r.postTown == BusinessField(b, PostTownOf)
  }

  /** Every output row carries, unchanged, the business columns of the cleaned
      census row with its postcode, and all five are missing when the cleaned
      census has no row with that postcode. */
  lemma BusinessCensusBusinessColumns(census: seq<CensusRecord>, coords: seq<CoordinateRow>,
                                      london: seq<LondonPostcodeRecord>,
                                      toDatetime: Cell -> Cell, capwords: string -> string)
    ensures var out := BusinessCensus(census, coords, london, toDatetime, capwords);
      var b := CleanBusiness(census, toDatetime, capwords);
      forall j :: 0 <= j < |out| ==>
        && CarriesBusiness(out[j], Lookup(b, PostcodeOf, out[j].postcode))
        && (!HasKey(b, PostcodeOf, out[j].postcode) ==>
              && out[j].companyNumber.None? && out[j].incorporationDate.None?
              && out[j].addressLine1.None? && out[j].addressLine2.None? && out[j].postTown.None?)
  {
    var out := BusinessCensus(census, coords, london, toDatetime, capwords);
    forall j | 0 <= j < |out| {
      BusinessColumnsAt(census, coords, london, toDatetime, capwords, j);
    }
  }

  lemma BusinessColumnsAt(census: seq<CensusRecord>, coords: seq<CoordinateRow>,
                          london: seq<LondonPostcodeRecord>,
                          toDatetime: Cell -> Cell, capwords: string -> string, j: nat)
    requires j < |BusinessCensus(census, coords, london, toDatetime, capwords)|
    ensures var out := BusinessCensus(census, coords, london, toDatetime, capwords);
      var b := CleanBusiness(census, toDatetime, capwords);
      && CarriesBusiness(out[j], Lookup(b, PostcodeOf, out[j].postcode))
      && (!HasKey(b, PostcodeOf, out[j].postcode) ==>
            && out[j].companyNumber.None? && out[j].incorporationDate.None?
            && out[j].addressLine1.None? && out[j].addressLine2.None? && out[j].postTown.None?)
  {
    var b := CleanBusiness(census, toDatetime, capwords);
    var e := AttachCoordinates(b, coords);
    var boroughs := BoroughLookup(london);
    var m := AttachBoroughs(e, boroughs);
    var out := BusinessCensus(census, coords, london, toDatetime, capwords);
    CleanBusinessSpec(census, toDatetime, capwords);
    RightMergeUniqueLeft(b, coords, PostcodeOf, CoordinatePostcode);
    LeftMergeRow(e, boroughs, EnrichedPostcode, BoroughPostcodeOf, j);
    var k :| 0 <= k < |e| && e[k] == m[j].0;
    assert out[j] == Project(m[j]);
    LookupSpec(b, PostcodeOf, out[j].postcode);
  }

  /** With a borough lookup unique on postcode, output row `i` carries the
      business columns of the census row matching coordinates row `i`. */
  lemma BusinessColumnsByCoordinates(census: seq<CensusRecord>, coords: seq<CoordinateRow>,
                                     london: seq<LondonPostcodeRecord>,
                                     toDatetime: Cell -> Cell, capwords: string -> string, i: nat)
    requires UniqueOn(BoroughLookup(london), BoroughPostcodeOf) && i < |coords|
    ensures var out := BusinessCensus(census, coords, london, toDatetime, capwords);
      var b := CleanBusiness(census, toDatetime, capwords);
      && i < |out|
      && CarriesBusiness(out[i], Lookup(b, PostcodeOf, coords[i].postcode))
  {
    BusinessCensusUniqueBoroughs(census, coords, london, toDatetime, capwords);
    BusinessColumnsAt(census, coords, london, toDatetime, capwords, i);
  }

  /** Fed by the postcode pipeline, whose rows all have both coordinates,
      every output row has a latitude and a longitude. */
  lemma BusinessCensusHasCoordinates(census: seq<CensusRecord>, coords: seq<CoordinateRow>,
                                     london: seq<LondonPostcodeRecord>,
                                     toDatetime: Cell -> Cell, capwords: string -> string)
    requires forall i :: 0 <= i < |coords| ==> Complete(coords[i])
    ensures var out := BusinessCensus(census, coords, london, toDatetime, capwords);
      forall j :: 0 <= j < |out| ==> out[j].latitude.Some? && out[j].longitude.Some?
  {
    var b := CleanBusiness(census, toDatetime, capwords);
    var e := AttachCoordinates(b, coords);
    var m := AttachBoroughs(e, BoroughLookup(london));
    var out := BusinessCensus(census, coords, london, toDatetime, capwords);
    forall j | 0 <= j < |out| ensures out[j].latitude.Some? && out[j].longitude.Some? {
      LeftMergeRow(e, BoroughLookup(london), EnrichedPostcode, BoroughPostcodeOf, j);
      var k :| 0 <= k < |e| && e[k] == m[j].0;
      LeftMergeRow(coords, b, CoordinatePostcode, PostcodeOf, k);
      assert e[k] == Swap(LeftMerge(coords, b, CoordinatePostcode, PostcodeOf)[k]);
      var c :| 0 <= c < |coords| && coords[c] == e[k].1;
      assert Complete(coords[c]);
      assert out[j] == Project(m[j]);
    }
  }

  // ---------------------------------------------------------------------------
  // Scenarios.

  /** A coordinates row whose postcode no census row has survives the right
      merge with its coordinates and missing business columns. */
  lemma UnmatchedCoordinatesKept(business: seq<CensusRecord>, coords: seq<CoordinateRow>, i: nat)
    requires i < |coords| && !HasKey(business, PostcodeOf, coords[i].postcode)
    ensures (None, coords[i]) in AttachCoordinates(business, coords)
  {
    RightMergeUnmatched(business, coords, PostcodeOf, CoordinatePostcode, i);
  }

  /** The postcode "SW1A 1AA" survives stripping and loses its space. The
      postcode is a parameter, not a literal, so that the verifier does not
      unfold `Strip` and `RemoveChar` on it. */
  lemma ScenarioPostcodeCell(p: string)
    requires p == "SW1A 1AA"
    ensures StripCell(Some(p)) == Some(p)
    ensures RemoveCharCell(Some(p), ' ') == Some("SW1A1AA")
  {
    Text.StripTrimmed(p);
    ScenarioDespace(p);
  }

  lemma ScenarioDespace(p: string)
    requires p == "SW1A 1AA"
    ensures Text.RemoveChar(p, ' ') == "SW1A1AA"
  {
    ScenarioHalves(p, "SW1A", "1AA");
  }

  lemma ScenarioHalves(p: string, a: string, c: string)
    requires a == "SW1A" && c == "1AA" && p == "SW1A 1AA"
    ensures Text.RemoveChar(p, ' ') == a + c
  {
    assert p == a + " " + c;
    Text.RemoveSpaceBetween(a, c);
  }

  /** "Private Unlimited" is renamed "Private Unlimited Company". */
  lemma ScenarioCategoryCell()
    ensures RewriteCell(RewriteCell(Some("Private Unlimited"), CategoryRules), EmptyCategoryRule)
            == Some("Private Unlimited Company")
  {
    CategoryMapping("Private Unlimited");
    EmptyCategoryRuleIsNoOp("Private Unlimited Company");
  }

  /** A one-row census whose stripped postcode is non-empty keeps its row
      through lines 91-94, with the postcode's spaces deleted. */
  lemma SingleRowClean(row: CensusRecord)
    requires StripRecord(row).postcode.Some? && StripRecord(row).postcode != Some("")
    ensures CleanPostcodes(StripText([row])) == [DespacePostcode(StripRecord(row))]
  {
    var k := KeyedPostcodes(StripText([row]));
    SingleRowKeyed(row);
    DropFirstOfUnique(k, PostcodeOf);
  }

  lemma SingleRowKeyed(row: CensusRecord)
    requires StripRecord(row).postcode.Some? && StripRecord(row).postcode != Some("")
    ensures KeyedPostcodes(StripText([row])) == [DespacePostcode(StripRecord(row))]
  {
    var x := StripRecord(row);
    var s := StripText([row]);
    assert s == [x];
    var m := MapRows(s, BlankPostcodeToNull);
    assert m == [x];
    FilterAll(m, HasPostcode);
  }

  /** A one-row table with a category keeps its row through lines 97-100. */
  lemma SingleRowCategory(row: CensusRecord)
    requires row.companyCategory.Some?
    ensures NormalizeCategory([row]) == [NormalizeCategoryRecord(row)]
  {
    FilterAll(MapRows([row], NormalizeCategoryRecord), HasCategory);
  }

  /** A one-row census whose postcode survives cleaning and whose category is
      present leaves lines 87-100 as one row: its postcode cleaned by lines
      87-93 and its stripped category renamed by lines 97-99. */
  lemma OneRowCensus(row: CensusRecord)
    requires KeepsPostcode(row) && row.companyCategory.Some?
    ensures var r := NormalizeCategory(CleanPostcodes(StripText([row])));
      && |r| == 1
      && r[0].postcode == CleanKey(row)
      && r[0].companyCategory
         == RewriteCell(RewriteCell(StripCell(row.companyCategory), CategoryRules), EmptyCategoryRule)
  {
    var x := DespacePostcode(StripRecord(row));
    SingleRowClean(row);
    SingleRowCategory(x);
  }
}
