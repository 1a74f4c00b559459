/** Cells and the raw records the pipelines read. A cell is a pandas value of
    a text column: `None` stands for NaN (a missing value), and the empty
    string is a present value distinct from NaN. */
module Records {
  import opened Wrappers
  import Text
  import Synonyms

  type Cell = Option<string>

  /** `replace('', np.nan)` on one cell: an empty string becomes missing. */
  function NullIfEmpty(c: Cell): (r: Cell)
    ensures r.Some? ==> r.value != ""
    ensures c == Some("") ==> r.None?
    ensures c != Some("") ==> r == c
  {
    if c == Some("") then None else c
  }

  /** `.str.strip()` on one cell; a missing cell stays missing. */
  function StripCell(c: Cell): (r: Cell)
    ensures r.None? <==> c.None?
  {
    match c
    case None => None
    case Some(s) => Some(Text.Strip(s))
  }

  /** `.str.replace(ch, '')` on one cell; a missing cell stays missing. */
  function RemoveCharCell(c: Cell, ch: char): (r: Cell)
    ensures r.None? <==> c.None?
    ensures r.Some? ==> ch !in r.value
  {
    match c
    case None => None
    case Some(s) => Some(Text.RemoveChar(s, ch))
  }

  /** `.astype(str)` on one cell: a missing value becomes the text "nan". */
  function CellText(c: Cell): string {
    match c
    case None => "nan"
    case Some(s) => s
  }

  /** Whole-value `replace` on one cell: only present values can match. */
  function RewriteCell(c: Cell, rules: seq<Synonyms.Synonym>): (r: Cell)
    ensures r.None? <==> c.None?
  {
    match c
    case None => None
    case Some(s) => Some(Synonyms.Rewrite(s, rules))
  }

  /** A row of `business_census.csv`, reduced to the columns the transforms
      read or emit. */
  datatype CensusRecord = CensusRecord(
    companyNumber: Cell,
    incorporationDate: Cell,
    addressLine1: Cell,
    addressLine2: Cell,
    postTown: Cell,
    postcode: Cell,
    companyCategory: Cell)

  /** A row of `london_postcodes.csv`: the postcode (`pcd`) and the code of
      the local authority it lies in (`oslaua`). */
  datatype LondonPostcodeRecord = LondonPostcodeRecord(pcd: Cell, oslaua: Cell)

  /** A row of `all_sites.csv`, reduced to the columns the transforms read. */
  datatype SiteRecord = SiteRecord(venueType: Cell, boroughCode: Cell, boroughName: Cell)
}
