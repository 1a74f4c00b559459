# ETL table transformations, modelled in Dafny

The ETL job in `ingestion.py` reads three CSV files:
- a business census;
- the London postcode directory;
- a list of cultural-venue sites.

From them it writes four tables:
- the geocoded postcode sample, `cleaned_postcodes_coordinates.csv`;
- the cleaned business census with coordinates and borough codes, `cleaned_business_census.csv`;
- the cleaned venue table, `cleaned_cultural_venue_infrastructure.csv`;
- a borough code/name mapping, `borough_mapping.csv`.

This project models every pandas step of those pipelines as a pure function on immutable tables. It proves what each step, and each pipeline as a whole, does to the rows.

Tables are `seq`s of rows. A text cell is `Option<string>`: `None` is pandas' NaN, and the empty string is a present value distinct from NaN. The modules follow the structure of the job.

- `Wrappers`: `Option` and `Result`.
- `Text`: Python's `str.strip()`, using exactly the characters `str.isspace()` accepts, plus single-character deletion and substitution.
- `Tables`: row slicing, column maps, stable filters (`dropna`, boolean masks), uniqueness on a key, and order-preserving subsequences.
- `Dedup`: `drop_duplicates(subset=key, keep='first' | 'last')`.
- `Join`: `pd.merge(..., how='left' | 'right')`.
  - A left merge emits one row per matching right row, or a single row with missing right columns when nothing matches.
  - A right merge is the left merge with the sides exchanged, as pandas computes it.
  - Keys compare with `==`, so a missing key matches a missing key, as NaN keys do in pandas.
- `Synonyms`: whole-value `replace(to_replace=[...], value=v)`, applied one call after another.
- `Records`: cells and the raw rows of the three input files.
- `Geo`: `postcode_converter` after its HTTP request, and the coordinate clean-up of lines 52-55.
- `PostcodePipeline`, `BusinessPipeline` and `VenuePipeline`: the three pipelines composed from the above.

Several steps of the job return a new table that nobody keeps, so they have no effect, and the model does not apply them:
- the London filters of lines 24 and 79 (every census row takes part);
- the borough-name corrections of lines 188-192;
- the blank-to-NaN step of line 195.

Line 99 is applied in place, but it replaces `''` by `''`, so it changes nothing (`BusinessPipeline.EmptyCategoryRuleIsNoOp`).

Lines 176-177 deduplicate the borough mapping before stripping and title-casing it. So the mapping that is written need not be unique (`MappingNamesNotUnique`).

The mapping's names are never corrected (`WestminsterNotCorrected`), because lines 188-192 discard their results. The venue table, by contrast, is corrected (`VenueWestminsterScenario`).

The model follows the code where it does something unexpected:
- A coordinate pair can be half present, and only lines 52-55 drop such rows afterwards.
  - The code reads the longitude first and keeps it when the latitude is missing (`Geo.LongitudeWithoutLatitude`).
  - A JSON `null` longitude next to a present latitude gives a missing longitude with that latitude (`Geo.LatitudeWithoutLongitude`).
- Business rows are keyed by postcode, not by company number. Nothing makes company numbers unique.
- The borough mapping is not unique per name or per code once it is written.
- An empty census is fatal to the whole job. Unpacking the empty result of line 47 raises an uncaught `ValueError`, so the business and venue pipelines never run either (`PostcodePipeline.FailsOnlyOnEmptyCensus`).
- The sample cap of 1000 rows (lines 26 and 137) is the constant `SampleSize` / `SiteLimit`.

The single-character `str.replace` calls of lines 56, 93 and 119 delete the character literally. Line 28 replaces every space with `+`.

## Model

| member | source | states |
|---|---|---|
| Text.Strip | ingestion.py:87-88 | `str.strip()` on one value: the result neither starts nor ends with a whitespace character |
| Text.StripInfix | ingestion.py:87-88 | the stripped value is the infix of the original left between two all-whitespace runs |
| Text.StripBlank | ingestion.py:88-91 | stripping yields the empty string exactly when the value was all whitespace, which is when line 91 then turns it into NaN |
| Text.StripIdempotent | ingestion.py:87-88 | stripping a stripped value changes nothing |
| Text.RemoveChar | ingestion.py:93 | `str.replace(c, '')`: no `c` remains, and every other character keeps its multiplicity. The order of the kept characters is stated by `Text.RemoveCharConcat` |
| Text.RemoveCharConcat | ingestion.py:93 | deleting a character from a concatenation deletes it from each part and concatenates the results, so the kept characters stay in order |
| Text.ReplaceChar | ingestion.py:28 | `replace(' ', '+', regex=True)`: position by position, every space becomes `+` and nothing else changes |
| Text.PlusRoundTrip | ingestion.py:28-56 | for a value without `+`, encoding spaces as `+` (line 28) and deleting `+` (line 56) equals deleting spaces (line 93) |
| Text.PlusInRawPostcodeIsLost | ingestion.py:28-56 | a `+` already in a postcode is deleted too, so the round trip then differs from deleting spaces |
| Text.DespacedStrippedNonEmpty | ingestion.py:87-93 | a non-blank stripped postcode stays non-empty when its spaces are deleted |
| Tables.Take | ingestion.py:26 | `df[:n]`: the first `min(n, len)` rows, unchanged and in order |
| Tables.Filter | ingestion.py:92 | `dropna`/mask: the kept rows are exactly the rows satisfying the predicate, in input order |
| Tables.FilterLength | ingestion.py:144-145 | a filter keeps as many rows as satisfy its predicate, counted independently |
| Tables.FilterFilter | ingestion.py:144-145 | two successive `dropna` calls are one filter on the conjunction |
| Tables.FilterAfterMap | ingestion.py:142-145 | blank-to-NaN followed by `dropna` is a filter on the original rows |
| Tables.SubsequenceKeepsUnique | ingestion.py:176-177 | deleting rows cannot break uniqueness on a key |
| Dedup.DropFirstSpec | ingestion.py:94 | `keep='first'`: the result is unique on the key and has the same key set; each kept row is the first input row with its key, in order of first appearance |
| Dedup.DropFirstIdempotent | ingestion.py:94 | deduplicating twice with `keep='first'` is deduplicating once |
| Dedup.DropLastSpec | ingestion.py:176 | `keep='last'`: the result is unique on the key and has the same key set; each kept row is the last input row with its key, in order of last appearance |
| Dedup.DropLastIdempotent | ingestion.py:176-177 | deduplicating twice with `keep='last'` is deduplicating once |
| Join.LeftMergeRows | ingestion.py:123 | every output row of a left merge pairs a left row with a right row of the same key, or with nothing when no right row has that key |
| Join.LeftMergeComplete | ingestion.py:123 | every left row and every right row with the same key appear together in some output row of the left merge |
| Join.LeftMergeKeepsLeft | ingestion.py:123 | every left row appears in the left-merge output |
| Join.LeftMergeUniqueRight | ingestion.py:123 | against a right side unique on the key, the left merge has exactly one row per left row, in order, carrying the first matching right row |
| Join.LeftMergeCanGrow | ingestion.py:123 | with duplicate right keys a left merge has more rows than its left side |
| Join.RightMergeRows | ingestion.py:114 | every output row of a right merge pairs a right row with a left row of the same key, or with nothing when no left row has that key |
| Join.RightMergeComplete | ingestion.py:114 | every left row and every right row with the same key appear together in some output row of the right merge |
| Join.RightMergeUnmatched | ingestion.py:114 | a right row whose key no left row has appears in the output with a missing left side |
| Join.RightMergeKeepsRight | ingestion.py:114 | every right row appears in the right-merge output |
| Join.RightMergeUniqueLeft | ingestion.py:114 | against a left side unique on the key, the right merge has exactly one row per right row, in order |
| Synonyms.Rewrite | ingestion.py:97-98 | after successive `replace` calls a value that no rule lists is unchanged, and any value is either unchanged or some rule's canonical value |
| Synonyms.RewriteIsLookup | ingestion.py:159-163 | for rules that never rewrite a canonical value, applying them in sequence equals a lookup of the first rule listing the value |
| Synonyms.RewriteIdempotent | ingestion.py:159-163 | for such rules, replacing twice is replacing once |
| Synonyms.ChainedRulesCompose | ingestion.py:159-163 | without that condition a value can be carried through two rules, so the sequence is not a lookup |
| Records.NullIfEmpty | ingestion.py:91 | `replace('', np.nan)`: an empty string becomes missing and any other value is untouched |
| Geo.Extract | ingestion.py:39-45 | a failed parse, or a response without `data.longitude`, gives `(None, None)`. Otherwise the longitude is returned, plus the latitude only if `data.latitude` exists. JSON `null` reads as missing |
| Geo.LongitudeWithoutLatitude | ingestion.py:41-44 | a response with a longitude but no latitude yields a longitude without a latitude |
| Geo.LatitudeWithoutLongitude | ingestion.py:41-44 | a response whose longitude is JSON `null` but whose latitude is present yields a latitude without a longitude |
| Geo.DropIncompleteIsFilter | ingestion.py:52-55 | the four clean-up steps are one stable filter keeping rows whose coordinates are both present and not empty strings |
| Geo.DropIncompleteSpec | ingestion.py:52-55 | after clean-up every row has both coordinates, rows are only removed, and order is kept |
| PostcodePipeline.SampleSpec | ingestion.py:23-27 | the sample has at most 1000 distinct postcodes. It holds every postcode of the first 1000 census rows and nothing else, in order of first appearance |
| PostcodePipeline.PlusRoundTripCell | ingestion.py:28-56 | for a postcode cell without `+`, lines 28 and 56 together delete exactly the spaces |
| PostcodePipeline.FailsOnlyOnEmptyCensus | ingestion.py:47 | for a text postcode column, the pipeline fails exactly when the census is empty |
| PostcodePipeline.FoundIffComplete | ingestion.py:47-55 | a sampled postcode reaches the output exactly when its lookup gave both coordinates |
| PostcodePipeline.PostcodeCoordinatesSpec | ingestion.py:22-56 | the written table has at most 1000 rows, all with both coordinates, each the lookup for one sampled postcode with `+` deleted |
| BusinessPipeline.CleanPostcodesSpec | ingestion.py:87-94 | after postcode cleaning no postcode is missing, empty or contains a space. Postcodes are pairwise distinct, and each kept row is the first occurrence of its postcode. Every census row whose stripped postcode is non-blank has its despaced postcode in the output, and every output postcode comes from such a row |
| BusinessPipeline.CategoryMapping | ingestion.py:97-98 | the three listed long categories become "Private Limited Comapany" and "Private Unlimited" becomes "Private Unlimited Company"; every other value is unchanged |
| BusinessPipeline.EmptyCategoryRuleIsNoOp | ingestion.py:99 | line 99 changes no value |
| BusinessPipeline.CategoryIdempotent | ingestion.py:97-98 | the category mapping is idempotent and leaves no listed variant |
| BusinessPipeline.NormalizeCategorySpec | ingestion.py:97-100 | rows with a missing category are dropped and the others kept in order. Only their category changes, and it is never a listed variant afterwards |
| BusinessPipeline.CleanBusinessSpec | ingestion.py:87-108 | when the merge runs, the census table is unique on postcode and every postcode is present, non-empty and space-free |
| BusinessPipeline.AttachCoordinatesOnePerRow | ingestion.py:94-114 | the right merge yields exactly one row per coordinates row, in order. It carries the census row with that postcode, or missing business columns exactly when there is none |
| BusinessPipeline.UnmatchedCoordinatesKept | ingestion.py:114 | for any census table, a coordinates row whose postcode no census row has survives the merge with missing business columns |
| BusinessPipeline.BusinessCensusKeepsCoordinates | ingestion.py:114-127 | the output has at least as many rows as the coordinates table, and every coordinates row reaches it with its postcode and coordinates |
| BusinessPipeline.BusinessCensusUniqueBoroughs | ingestion.py:118-127 | when the borough lookup is unique on postcode, the output has exactly one row per coordinates row, in order, with the borough code found for its postcode |
| BusinessPipeline.BusinessCensusBusinessColumns | ingestion.py:114-127 | every output row carries, unchanged, the five business columns of the cleaned census row with its postcode. All five are missing when no cleaned census row has that postcode |
| BusinessPipeline.BusinessColumnsByCoordinates | ingestion.py:114-127 | with a borough lookup unique on postcode, output row i carries the business columns of the census row matching coordinates row i |
| BusinessPipeline.BusinessCensusHasCoordinates | ingestion.py:114-127 | fed with complete coordinates, every output row has a latitude and a longitude |
| BusinessPipeline.OneRowCensus | ingestion.py:87-100 | a one-row census whose postcode is non-blank once stripped, and whose category is present, leaves lines 87-100 as one row. That row has the stripped, despaced postcode and the stripped category after the renames of lines 97-99 |
| BusinessPipeline.ScenarioPostcodeCell | ingestion.py:87-93 | the postcode "SW1A 1AA" is unchanged by stripping and becomes "SW1A1AA" |
| BusinessPipeline.ScenarioCategoryCell | ingestion.py:97-99 | the category "Private Unlimited" becomes "Private Unlimited Company" |
| VenuePipeline.BoroughNameMapping | ingestion.py:159-163 | the borough-name replacements are a lookup: a listed value becomes its canonical name and any other value is unchanged |
| VenuePipeline.BoroughNameRewriteSettled | ingestion.py:159-163 | the borough-name replacements are idempotent and leave no listed variant |
| VenuePipeline.DropBlankBoroughsIsFilter | ingestion.py:142-145 | lines 142-145 keep exactly the rows with a present, non-empty code and name, unchanged and in order |
| VenuePipeline.CleanVenuesSpec | ingestion.py:136-163 | the venue table has one cleaned row per kept site among the first 1000, so at most 1000 rows. No column holds a listed variant, and re-applying the replacements changes no name |
| VenuePipeline.VenueWestminsterScenario | ingestion.py:159-163 | a site named "Westminster" is listed under "City Of Westminster" |
| VenuePipeline.DedupBoroughsSpec | ingestion.py:176-177 | after lines 176-177 names and codes are both unique. The second pass only removes rows of the first pass's output, and all rows keep input order |
| VenuePipeline.DedupBoroughsKeepsLastName | ingestion.py:176 | the first pass keeps, for each name, the last row carrying it |
| VenuePipeline.DedupBoroughsKeepsLastCode | ingestion.py:177 | the second pass keeps, for each code, the last row carrying it among the first pass's rows |
| VenuePipeline.BoroughMappingSpec | ingestion.py:171-197 | the mapping is the finished deduplicated rows that have a code, in order. Every row has a code and a name, because line 197 can drop nothing after line 184 |
| VenuePipeline.WestminsterNotCorrected | ingestion.py:188-192 | the mapping never corrects a name: a lone "Westminster" row keeps it |
| VenuePipeline.WestminsterDuplicateScenario | ingestion.py:176-177 | two spellings of Westminster under one code collapse to the later row |
| VenuePipeline.NameFirstDropsCode | ingestion.py:176-177 | two codes sharing a name leave only the later code in the mapping |
| VenuePipeline.MappingNamesNotUnique | ingestion.py:176-185 | stripping after deduplication can give two mapping rows the same name |

## Left out

- `PostcodePipeline.FailsOnlyOnEmptyCensus`: does not model a second failure. When the census's postcode column is missing in every row, `read_csv` gives it dtype float64. The `.str` calls of lines 56 and 93 then raise `AttributeError`, even on an empty column. Cells are always text in the model, so it returns a result on that input.
- `helper/helper.py`: the S3 downloads and uploads and the Redshift loads are I/O with no transformation logic.
- The HTTP request, the 0.1 s pause and `json.loads` in `postcode_converter` (lines 34-40) are network and foreign parsing. The service is the parameter `lookup`, which returns the parsed response or `None` when parsing raised.
- An exception from `requests.get` itself is outside the `try` block, so it would abort the job. The model has no network, so it has no such failure.
- JSON numbers are `JNumber(real)` values, and only whether a coordinate is present matters to the model. A JSON `NaN` number, which `dropna` would also remove, is not represented.
- `pd.to_datetime` (line 102), `string.capwords` (lines 107-108) and `str.title` (lines 156 and 185) are the parameters `toDatetime`, `capwords` and `title`. Their parsing and casing rules are not modelled.
- `pd.to_datetime` raises on an unparseable date at line 102, which aborts the job. The parameter `toDatetime` is a total function, so the model cannot express that failure.
- The CSV round trips between the pipelines are not modelled; in particular, the coordinates table is re-read at line 113. The business pipeline takes the coordinates table as a parameter, so any dtype change a re-read would cause is not covered.
- Configuration parsing (lines 62-70) and the `print` and logging calls are left out.
- The census columns dropped at line 84, and the numeric columns that `select_dtypes(object)` skips, are not represented. A census row carries only the columns the job reads or writes.
- `BusinessPipeline.BusinessCensusUniqueBoroughs`: requires the borough lookup to be unique on postcode, which the code never checks. Without it, the bound of `BusinessCensusKeepsCoordinates` and the per-row business columns of `BusinessCensusBusinessColumns` still hold, but rows are not aligned with coordinates rows.
- Unicode case folding and normalisation: strings are sequences of code points.
