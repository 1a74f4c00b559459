/** The cultural-venue pipeline (`all_sites.csv` to the cleaned venue table)
    and the borough mapping derived from the same file. */
module VenuePipeline {
  import opened Wrappers
  import opened Tables
  import opened Dedup
  import opened Records
  import opened Synonyms
  import Text

  /** Line 137 keeps the first 1000 sites. */
  const SiteLimit: nat := 1000

  /** Lines 159-163, in that order; `DataFrame.replace` applies them to every
      column. */
  const BoroughNameRules: seq<Synonym> := [
    Synonym(["City And County Of Th", "City And County Of The Cit", "City And County Of The City Of London"],
            "City Of London"),
    Synonym(["Hammersmith & Fulham", "Hammersmith And Fulha"], "Hammersmith And Fulham"),
    Synonym(["Kensington & Chelsea", "Kensington And Chelse"], "Kensington And Chelsea"),
    Synonym(["Westminster"], "City Of Westminster"),
    Synonym(["Barking"], "Barking And Dagenham")]

  /** No canonical borough name is itself listed as a variant. */
  lemma BoroughNameRulesResolved()
    ensures Resolved(BoroughNameRules)
  {
  }

  /** Borough names, once rewritten, are never rewritten again, and no listed
      variant survives the rewrite. */
  lemma BoroughNameRewriteSettled(v: string)
    ensures Rewrite(Rewrite(v, BoroughNameRules), BoroughNameRules) == Rewrite(v, BoroughNameRules)
    ensures !IsVariant(Rewrite(v, BoroughNameRules), BoroughNameRules)
  {
    BoroughNameRulesResolved();
    ResolvedUnchained(BoroughNameRules);
    RewriteIdempotent(v, BoroughNameRules);
    RewriteLeavesNoVariant(v, BoroughNameRules);
  }

  /** Applying lines 159-163 in sequence is one lookup in the borough-name
      table: a listed value becomes its rule's canonical name, any other value
      is unchanged. */
  lemma BoroughNameMapping(v: string)
    ensures Rewrite(v, BoroughNameRules) ==
      match FirstCanonical(v, BoroughNameRules) case None => v case Some(c) => c
    ensures !IsVariant(v, BoroughNameRules) ==> Rewrite(v, BoroughNameRules) == v
  {
    BoroughNameRulesResolved();
    ResolvedUnchained(BoroughNameRules);
    RewriteIsLookup(v, BoroughNameRules);
  }

  // ---------------------------------------------------------------------------
  // Lines 136-163: the cleaned venue table.

  /** A row of the cleaned venue table. After line 148-150 every column is
      text, so no cell is missing. */
  datatype Venue = Venue(venueType: string, boroughCode: string, boroughName: string)

  /** Lines 142-143. */
  function BlankBoroughToNull(r: SiteRecord): SiteRecord {
    r.(boroughCode := NullIfEmpty(r.boroughCode), boroughName := NullIfEmpty(r.boroughName))
  }

  predicate HasBoroughCode(r: SiteRecord) {
    r.boroughCode.Some?
  }

  predicate HasBoroughName(r: SiteRecord) {
    r.boroughName.Some?
  }

  /** The rows lines 142-145 keep: both borough columns present and non-empty. */
  predicate KeptSite(r: SiteRecord) {
    r.boroughCode.Some? && r.boroughCode != Some("")
    && r.boroughName.Some? && r.boroughName != Some("")
  }

  /** Lines 148-163 on one row: text conversion, stripping, title case of the
      name (`str.title`, given as `title`), and the borough-name rules on
      every column. */
  function CleanVenueRow(r: SiteRecord, title: string -> string): Venue {
    Venue(Rewrite(Text.Strip(CellText(r.venueType)), BoroughNameRules),
          Rewrite(Text.Strip(CellText(r.boroughCode)), BoroughNameRules),
          Rewrite(title(Text.Strip(CellText(r.boroughName))), BoroughNameRules))
  }

  function CleanVenueRows(t: seq<SiteRecord>, title: string -> string): (r: seq<Venue>)
    ensures |r| == |t|
    ensures forall i :: 0 <= i < |t| ==> r[i] == CleanVenueRow(t[i], title)
  {
    seq(|t|, i requires 0 <= i < |t| => CleanVenueRow(t[i], title))
  }

  /** Lines 142-145. */
  function DropBlankBoroughs(t: seq<SiteRecord>): seq<SiteRecord> {
    Filter(Filter(MapRows(t, BlankBoroughToNull), HasBoroughCode), HasBoroughName)
  }

  /** Lines 136-163: the table written as
      `cleaned_cultural_venue_infrastructure.csv`. */
  function CleanVenues(sites: seq<SiteRecord>, title: string -> string): seq<Venue> {
    CleanVenueRows(DropBlankBoroughs(Take(sites, SiteLimit)), title)
  }

  /** Lines 142-145 keep exactly the rows with a present, non-empty borough
      code and name, unchanged and in order. */
  lemma DropBlankBoroughsIsFilter(t: seq<SiteRecord>)
    ensures DropBlankBoroughs(t) == Filter(t, KeptSite)
  {
    var m := MapRows(t, BlankBoroughToNull);
    FilterFilter(m, HasBoroughCode, HasBoroughName, HasBothBoroughColumns);
    FilterAfterMap(t, BlankBoroughToNull, HasBothBoroughColumns, KeptSite);
  }

  predicate HasBothBoroughColumns(r: SiteRecord) {
    r.boroughCode.Some? && r.boroughName.Some?
  }

  /** The cleaned venue table has one row per kept site among the first 1000,
      in order, each cleaned by lines 148-163; so it has at most 1000 rows, and
      no column of any row holds a listed borough-name variant, and
      re-applying the replacements of lines 159-163 changes no name. */
  lemma CleanVenuesSpec(sites: seq<SiteRecord>, title: string -> string)
    ensures var t := Take(sites, SiteLimit);
      var r := CleanVenues(sites, title);
      && r == CleanVenueRows(Filter(t, KeptSite), title)
      && |r| == Count(t, KeptSite)
      && |r| <= SiteLimit
      && forall i :: 0 <= i < |r| ==>
           && !IsVariant(r[i].venueType, BoroughNameRules)
           && !IsVariant(r[i].boroughCode, BoroughNameRules)
           && !IsVariant(r[i].boroughName, BoroughNameRules)
           && Rewrite(r[i].boroughName, BoroughNameRules) == r[i].boroughName
  {
    var t := Take(sites, SiteLimit);
    DropBlankBoroughsIsFilter(t);
    FilterLength(t, KeptSite);
    var r := CleanVenues(sites, title);
    forall i | 0 <= i < |r|
      ensures && !IsVariant(r[i].venueType, BoroughNameRules)
              && !IsVariant(r[i].boroughCode, BoroughNameRules)
              && !IsVariant(r[i].boroughName, BoroughNameRules)
              && Rewrite(r[i].boroughName, BoroughNameRules) == r[i].boroughName
    {
      var x := Filter(t, KeptSite)[i];
      BoroughNameRewriteSettled(Text.Strip(CellText(x.venueType)));
      BoroughNameRewriteSettled(Text.Strip(CellText(x.boroughCode)));
      BoroughNameRewriteSettled(title(Text.Strip(CellText(x.boroughName))));
    }
  }

  /** A site with a present, non-empty borough code and name among the first
      1000 gives exactly one cleaned row. */
  lemma SingleVenue(site: SiteRecord, title: string -> string)
    requires KeptSite(site)
    ensures CleanVenues([site], title) == [CleanVenueRow(site, title)]
  {
    assert Take([site], SiteLimit) == [site];
    SingleSiteKept(site);
    SingleVenueRow(site, title);
  }

  lemma SingleSiteKept(site: SiteRecord)
    requires KeptSite(site)
    ensures DropBlankBoroughs([site]) == [site]
  {
    FilterAll([site], KeptSite);
    DropBlankBoroughsIsFilter([site]);
  }

  lemma SingleVenueRow(site: SiteRecord, title: string -> string)
    ensures CleanVenueRows([site], title) == [CleanVenueRow(site, title)]
  {
  }

  /** A site named "Westminster" (already in title case) is listed under
      "City Of Westminster". */
  lemma VenueWestminsterScenario(site: SiteRecord, title: string -> string)
    requires site.boroughCode == Some("E09000033") && site.boroughName == Some("Westminster")
    requires title("Westminster") == "Westminster"
    ensures CleanVenues([site], title) == [CleanVenueRow(site, title)]
    ensures CleanVenues([site], title)[0].boroughName == "City Of Westminster"
  {
    SingleVenue(site, title);
    WestminsterName(title);
  }

  lemma WestminsterName(title: string -> string)
    requires title("Westminster") == "Westminster"
    ensures Rewrite(title(Text.Strip("Westminster")), BoroughNameRules) == "City Of Westminster"
  {
    WestminsterStrip("Westminster");
    WestminsterRewrite();
  }

  /** Stripping leaves "Westminster" unchanged. The name is a parameter, not
      a literal, so that the verifier does not unfold `Strip` on it. */
  lemma WestminsterStrip(v: string)
    requires v == "Westminster"
    ensures Text.Strip(v) == v
  {
    Text.StripTrimmed(v);
  }

  lemma WestminsterRewrite()
    ensures Rewrite("Westminster", BoroughNameRules) == "City Of Westminster"
  {
    var v, rules := "Westminster", BoroughNameRules;
    assert ApplyRule(v, rules[0]) == v;
    assert ApplyRule(v, rules[1]) == v;
    assert ApplyRule(v, rules[2]) == v;
    assert ApplyRule(v, rules[3]) == "City Of Westminster";
    assert ApplyRule("City Of Westminster", rules[4]) == "City Of Westminster";
    assert rules[1..][1..][1..][1..][1..] == [];
  }

  // ---------------------------------------------------------------------------
  // Lines 171-197: the borough mapping.

  datatype BoroughRow = BoroughRow(boroughCode: Cell, boroughName: Cell)

  function CodeOf(r: BoroughRow): Cell {
    r.boroughCode
  }

  function NameOf(r: BoroughRow): Cell {
    r.boroughName
  }

  function ToBoroughRow(r: SiteRecord): BoroughRow {
    BoroughRow(r.boroughCode, r.boroughName)
  }

  /** Lines 176-177: keep the last row of each name, then the last row of
      each code among those. */
  function DedupBoroughs(rows: seq<BoroughRow>): seq<BoroughRow> {
    DropDuplicatesLast(DropDuplicatesLast(rows, NameOf), CodeOf)
  }

  /** Lines 180-185 on one row: strip both columns, then `astype(str)` and
      `str.title` (given as `title`) on the name. */
  function FinishBoroughRow(r: BoroughRow, title: string -> string): BoroughRow {
    BoroughRow(StripCell(r.boroughCode), Some(title(CellText(StripCell(r.boroughName)))))
  }

  function FinishBoroughRows(t: seq<BoroughRow>, title: string -> string): (r: seq<BoroughRow>)
    ensures |r| == |t|
    ensures forall i :: 0 <= i < |t| ==> r[i] == FinishBoroughRow(t[i], title)
  {
    seq(|t|, i requires 0 <= i < |t| => FinishBoroughRow(t[i], title))
  }

  predicate HasCode(r: BoroughRow) {
    r.boroughCode.Some?
  }

  predicate HasName(r: BoroughRow) {
    r.boroughName.Some?
  }

  /** Lines 171-197: the table written as `borough_mapping.csv`. The rewrites
      of lines 188-192 and 195 return new tables that are discarded, so they
      change nothing. */
  function BoroughMapping(sites: seq<SiteRecord>, title: string -> string): seq<BoroughRow> {
    var d := DedupBoroughs(MapRows(sites, ToBoroughRow));
    Filter(Filter(FinishBoroughRows(d, title), HasCode), HasName)
  }

  /** Right after lines 176-177 names and codes are both unique, the second
      pass only removes rows from the first pass's output, and the surviving
      rows are input rows in their original order. */
  lemma DedupBoroughsSpec(rows: seq<BoroughRow>)
    ensures var d := DedupBoroughs(rows);
      && UniqueOn(d, NameOf)
      && UniqueOn(d, CodeOf)
      && IsSubsequence(d, DropDuplicatesLast(rows, NameOf))
      && IsSubsequence(d, rows)
  {
    var byName := DropDuplicatesLast(rows, NameOf);
    var d := DedupBoroughs(rows);
    DropLastUnique(byName, CodeOf);
    DropLastUnique(rows, NameOf);
    SubsequenceKeepsUnique(d, byName, NameOf);
    SubsequenceTrans(d, byName, rows);
  }

  /** The first pass keeps, for each name, the last input row carrying it. */
  lemma DedupBoroughsKeepsLastName(rows: seq<BoroughRow>, k: nat, i: nat)
    requires k < |DropDuplicatesLast(rows, NameOf)|
    requires IsLastOccurrence(rows, NameOf, i)
    requires rows[i].boroughName == DropDuplicatesLast(rows, NameOf)[k].boroughName
    ensures DropDuplicatesLast(rows, NameOf)[k] == rows[i]
  {
    DropLastKeepsLast(rows, NameOf, k, i);
  }

  /** The second pass keeps, for each code, the last row carrying it among the
      rows the first pass kept. */
  lemma DedupBoroughsKeepsLastCode(rows: seq<BoroughRow>, k: nat, i: nat)
    requires k < |DedupBoroughs(rows)|
    requires IsLastOccurrence(DropDuplicatesLast(rows, NameOf), CodeOf, i)
    requires DropDuplicatesLast(rows, NameOf)[i].boroughCode == DedupBoroughs(rows)[k].boroughCode
    ensures DedupBoroughs(rows)[k] == DropDuplicatesLast(rows, NameOf)[i]
  {
    DropLastKeepsLast(DropDuplicatesLast(rows, NameOf), CodeOf, k, i);
  }

  /** Every row of the mapping has a code and a name: the drop of missing
      names at line 197 removes nothing, because line 184 has already turned a
      missing name into the text "nan". */
  lemma BoroughMappingSpec(sites: seq<SiteRecord>, title: string -> string)
    ensures var d := DedupBoroughs(MapRows(sites, ToBoroughRow));
      var f := FinishBoroughRows(d, title);
      var r := BoroughMapping(sites, title);
      && r == Filter(f, HasCode)
      && IsSubsequence(r, f)
      && |r| == Count(d, HasCode)
      && (forall i :: 0 <= i < |r| ==> r[i].boroughCode.Some? && r[i].boroughName.Some?)
  {
    FinishedRowsFiltered(DedupBoroughs(MapRows(sites, ToBoroughRow)), title);
  }

  /** Lines 180-197 on any deduplicated table: the name filter keeps every
      row with a code, and as many rows survive as had a code. */
  lemma FinishedRowsFiltered(d: seq<BoroughRow>, title: string -> string)
    ensures var f := FinishBoroughRows(d, title);
      var r := Filter(Filter(f, HasCode), HasName);
      && r == Filter(f, HasCode)
      && IsSubsequence(r, f)
      && |r| == Count(d, HasCode)
      && (forall i :: 0 <= i < |r| ==> r[i].boroughCode.Some? && r[i].boroughName.Some?)
  {
    var f := FinishBoroughRows(d, title);
    FinishedNamesPresent(f, title, d);
    FilterLength(f, HasCode);
    CountFinished(d, title);
  }

  /** Every finished row has a name, so the drop of missing names is a no-op. */
  lemma FinishedNamesPresent(f: seq<BoroughRow>, title: string -> string, d: seq<BoroughRow>)
    requires f == FinishBoroughRows(d, title)
    ensures Filter(Filter(f, HasCode), HasName) == Filter(f, HasCode)
  {
    FilterAll(Filter(f, HasCode), HasName);
  }

  /** Stripping keeps a code missing exactly when it was missing. */
  lemma {:induction false} CountFinished(d: seq<BoroughRow>, title: string -> string)
    ensures Count(FinishBoroughRows(d, title), HasCode) == Count(d, HasCode)
    decreases |d|
  {
    if |d| > 0 {
      var d' := d[..|d| - 1];
      assert FinishBoroughRows(d, title)[..|d| - 1] == FinishBoroughRows(d', title);
      CountFinished(d', title);
    }
  }

  /** Unlike the venue table, the mapping never corrects a name: a lone
      "Westminster" row keeps that name. */
  lemma WestminsterNotCorrected(code: string, title: string -> string)
    requires title("Westminster") == "Westminster"
    ensures var r := BoroughMapping([SiteRecord(None, Some(code), Some("Westminster"))], title);
      |r| == 1 && r[0].boroughName == Some("Westminster")
  {
    var row := BoroughRow(Some(code), Some("Westminster"));
    SingleBoroughRow(row, title);
    WestminsterStrip("Westminster");
  }

  /** A one-row mapping input with a code passes through lines 176-197. */
  lemma SingleBoroughRow(row: BoroughRow, title: string -> string)
    requires row.boroughCode.Some?
    ensures BoroughMapping([SiteRecord(None, row.boroughCode, row.boroughName)], title)
            == [FinishBoroughRow(row, title)]
  {
    var rows := MapRows([SiteRecord(None, row.boroughCode, row.boroughName)], ToBoroughRow);
    assert rows == [row];
    DropLastOfUnique(rows, NameOf);
    DropLastOfUnique(rows, CodeOf);
    var f := FinishBoroughRows(rows, title);
    FilterAll(f, HasCode);
    FilterAll(f, HasName);
  }

  /** Two spellings of Westminster under one code collapse to the later row. */
  lemma WestminsterDuplicateScenario(a: BoroughRow, b: BoroughRow)
    requires a == BoroughRow(Some("E09000033"), Some("Westminster"))
    requires b == BoroughRow(Some("E09000033"), Some("City Of Westminster"))
    ensures DedupBoroughs([a, b]) == [b]
  {
    assert NameOf(a) != NameOf(b);
    DropLastOfUnique([a, b], NameOf);
    assert [a, b][1..] == [b];
    DropLastOfUnique([b], CodeOf);
    assert HasKey([b], CodeOf, CodeOf(a));
  }

  /** Deduplicating on the name first can lose a code altogether: two codes
      sharing a name leave only the later code in the mapping. */
  lemma NameFirstDropsCode(a: BoroughRow, b: BoroughRow)
    requires a.boroughName == b.boroughName && a.boroughCode != b.boroughCode
    ensures DedupBoroughs([a, b]) == [b]
    ensures !HasKey(DedupBoroughs([a, b]), CodeOf, a.boroughCode)
  {
    assert [a, b][1..] == [b];
    DropLastOfUnique([b], NameOf);
    assert HasKey([b], NameOf, NameOf(a));
    DropLastOfUnique([b], CodeOf);
  }

  /** Two mapping inputs with distinct names and distinct present codes both
      pass through lines 176-197, in order. */
  lemma TwoBoroughRows(a: BoroughRow, b: BoroughRow, title: string -> string)
    requires a.boroughCode.Some? && b.boroughCode.Some?
    requires a.boroughName != b.boroughName && a.boroughCode != b.boroughCode
    ensures BoroughMapping([SiteRecord(None, a.boroughCode, a.boroughName),
                            SiteRecord(None, b.boroughCode, b.boroughName)], title)
            == [FinishBoroughRow(a, title), FinishBoroughRow(b, title)]
  {
    var rows := MapRows([SiteRecord(None, a.boroughCode, a.boroughName),
                         SiteRecord(None, b.boroughCode, b.boroughName)], ToBoroughRow);
    assert rows == [a, b];
    DistinctPairDeduped(a, b);
    FinishedRowsPresent(rows, title);
  }

  /** Two rows differing in both name and code survive lines 176-177. */
  lemma DistinctPairDeduped(a: BoroughRow, b: BoroughRow)
    requires a.boroughName != b.boroughName && a.boroughCode != b.boroughCode
    ensures DedupBoroughs([a, b]) == [a, b]
  {
    assert UniqueOn([a, b], NameOf) && UniqueOn([a, b], CodeOf);
    DropLastOfUnique([a, b], NameOf);
    DropLastOfUnique([a, b], CodeOf);
  }

  /** When every code is present, lines 196-197 keep every finished row. */
  lemma FinishedRowsPresent(rows: seq<BoroughRow>, title: string -> string)
    requires forall i :: 0 <= i < |rows| ==> rows[i].boroughCode.Some?
    ensures Filter(Filter(FinishBoroughRows(rows, title), HasCode), HasName) == FinishBoroughRows(rows, title)
  {
    var f := FinishBoroughRows(rows, title);
    FilterAll(f, HasCode);
    FilterAll(f, HasName);
  }

  /** The mapping is not unique on name: stripping after deduplication can
      merge two names the deduplication told apart. */
  lemma MappingNamesNotUnique(title: string -> string)
    requires title("Camden") == "Camden"
    ensures var r := BoroughMapping([SiteRecord(None, Some("E1"), Some("Camden")),
                                     SiteRecord(None, Some("E2"), Some("Camden "))], title);
      |r| == 2 && r[0].boroughName == r[1].boroughName
  {
    CamdenDiffers();
    TwoBoroughRows(BoroughRow(Some("E1"), Some("Camden")), BoroughRow(Some("E2"), Some("Camden ")), title);
    CamdenStrip("Camden", "Camden ");
  }

  lemma CamdenDiffers()
    ensures "Camden" != "Camden "
  {
    assert |"Camden"| != |"Camden "|;
  }

  /** Both spellings strip to "Camden". The names are parameters, not
      literals, so that the verifier does not unfold `Strip` on them. */
  lemma CamdenStrip(u: string, v: string)
    requires u == "Camden" && v == "Camden "
    ensures Text.Strip(u) == u && Text.Strip(v) == u
  {
    Text.StripTrimmed(u);
    assert v == u + " ";
    Text.StripTrailingSpace(u);
  }
}
