# Affiliation resolution for PubMed author records

This project models, in Dafny, how the PubMed pipeline turns each author's raw
affiliation field into resolved rows. The model follows `transform.py` and the
`transform` function of `pipeline.py`:

1. `split_affiliations` fans each record out into one row per `;`-separated
   segment. The split works on `str(affiliation)`, and only the segment `"nan"` becomes None.
2. `add_email_to_dataframe` and `add_postcodes_to_dataframe` fill the email and
   postcode columns in place from four fixed regular expressions. The British
   capture is the base, an American capture overwrites it, and a Canadian
   capture overwrites that.
3. `extract_country_and_org` runs the language model on a truthy segment. It keeps
   the converter's name for the last place entity when that name is a standard
   country name, and the text after the final `", "` of the last organisation entity.
4. `get_match` scores the organisation against the GRID institute registry,
   restricted to the row's country when that is truthy. It uses normalised
   Levenshtein similarity with an inclusive cutoff of 0.9. It takes the GRID id of
   the first row of that pool (the registry restricted to the country when the
   country is truthy) that carries the winning name, and sets organisation and
   identity to None when nothing reaches the cutoff.
5. `transform` runs these stages in that order and keeps 14 columns in a fixed order.

Modules:
- `Frame` holds the cells (`Null` for None, `NaN` for pandas' missing value, `Str`), Python truthiness and the row types.
- `Text` models `str.split` and `str.find`.
- `Patterns` holds the four regexes as leftmost-match functions.
- `Levenshtein` holds the edit distance, the similarity and the cutoff.
- `Entities` selects the country and the organisation.
- `Registry` models the registry filter and `extractOne`.
- `Transform` holds the stages. Row stages are methods on row values; frame stages are methods on arrays.
- `Pipeline` holds the composition.

Each method is proved against a specification function. The properties the
pipeline promises are proved about those functions.

In these places the code does something other than a first reading suggests, and the model follows the code:
- Empty or whitespace-only segments stay strings. Only `"nan"` becomes None. A trailing `"; "` therefore leaves a segment `" "`, which is truthy and goes through the language model.
- A None affiliation is split as the text `"None"`.
- A segment that is None or empty does not make every derived field None:
  - `extract_country_and_org` returns such a row without country and organisation, so pandas fills those columns with NaN.
  - That NaN organisation is truthy, and the NaN country selects no registry row.
  - So the output has NaN email, postcode and country, and None organisation and identity. The record's own GRID id is lost.
- The organisation is cut at `", "` (comma and space), not at a bare comma.
- A Canadian postcode beats an American one.

## Model

| member | source | states |
|---|---|---|
| Text.Split | transform.py:30 | `str.split` with a non-empty separator, as used at transform.py:30 and transform.py:86; JoinSplit, SplitPieces and SplitCount state what it promises |
| Text.JoinSplit | transform.py:30 | joining the pieces of `split(';')` with `;` gives back the whole text, so no character is lost or reordered |
| Text.SplitPieces | transform.py:30 | there is at least one piece, and no piece contains the separator |
| Text.SplitCount | transform.py:30 | splitting on one character gives one more piece than the character's occurrences |
| Text.LastPieceShape | transform.py:86 | `split(", ")[-1]` is a suffix with no `", "` in it; it is the whole text when there is no `", "`, and otherwise a `", "` stands right before it |
| Transform.SegmentCell | transform.py:34 | a segment becomes None exactly when it is `"nan"`; every other segment is kept verbatim as a string, never NaN |
| Transform.RowsOf | transform.py:30-34 | one record yields `count(';') + 1` rows, in segment order; the segments join back to `str(affiliation)` and hold no `;`; each row copies every other column, and the later stages' columns are missing |
| Transform.Exploded | transform.py:32 | the exploded frame has one row per segment over all records, the stage columns are missing, and no affiliation is NaN |
| Transform.TrailingSeparator | transform.py:30-34 | `"Dept A; Dept B; "` splits into `"Dept A"`, `" Dept B"` and `" "`, and `" "` stays a string |
| Transform.SplitAffiliations | transform.py:27-36 | the new frame is exactly the exploded rows of the records |
| Transform.ExtractColumn | transform.py:42 | the column `str.extract` builds holds, row by row, the extraction from that row's affiliation |
| Transform.AddEmail | transform.py:39-42 | in place: each row's email becomes the email extracted from its affiliation, and nothing else changes |
| Transform.Overwrite | transform.py:52-53 | one cell of `DataFrame.update` keeps one of its two values, and the result is missing only when both are; the other value wins whenever it is present (OverwritePresent) |
| Transform.OverwritePresent | transform.py:52-53 | a present value (a string) always replaces the base value: the other column wins |
| Transform.OverwriteMissing | transform.py:52-53 | a None or NaN value overwrites nothing, and repeating an update with the same column changes nothing more |
| Transform.OverwriteAssociative | transform.py:52-53 | updating with the American and then the Canadian column equals updating once with the American column overwritten by the Canadian one; with OverwritePresent, the last present capture wins |
| Transform.Update | transform.py:52-53 | in place: every target cell becomes its overwrite by the other column |
| Transform.PostcodeColumn | transform.py:48-53 | the British column updated by the American and then the Canadian one holds, row by row, the postcode of that row's affiliation |
| Transform.AddPostcodes | transform.py:45-55 | in place: each row's postcode becomes the Canadian-over-American-over-British postcode of its affiliation, and nothing else changes |
| Transform.WithCountryAndOrg | transform.py:57-88 | a falsy affiliation leaves the row unchanged; otherwise only country and organisation change, and they are the country and organisation resolved from the entities the model finds in `str(affiliation)`; the country is None or a standard country name |
| Transform.ExtractCountryAndOrg | transform.py:57-88 | the field-by-field procedure returns exactly the row of the specification |
| Transform.Pool | transform.py:97-100 | for a truthy country the pool is the registry rows of exactly that country; otherwise it is the whole registry |
| Transform.MatchedFirstInRegistry | transform.py:97-115 | for a truthy country the matched institute, whose GRID id is taken, is the first registry row with that country and the winning name |
| Transform.MatchOutcome | transform.py:94-121 | a falsy organisation leaves the row alone; no match happens exactly when no pool name reaches the cutoff; a match is a registry row of the row's country whose name reaches the cutoff, the first one in the pool with the top score |
| Transform.NoneAccepted | transform.py:102-107 | when `extractOne` finds nothing, no pool name reaches the cutoff |
| Transform.BestRow | transform.py:102-112 | the row `extractOne` picks reaches the cutoff, scores as high as any pool row and higher than every row before it, and is the first pool row carrying its name, whose GRID id is taken |
| Transform.WithMatch | transform.py:91-121 | a falsy organisation leaves the row, identity included, unchanged; only organisation and identity change; they become None together; a truthy result is a registry name with that row's GRID id and, for a truthy country, that row's country; no match sets both to None, and a match sets them to the matched institute's name and GRID id |
| Transform.GetMatch | transform.py:91-121 | the field-by-field procedure returns exactly the row of the specification |
| Patterns.BritishUnique | transform.py:14 | at most one length of the `{2,4}` prefix can match at a given start |
| Patterns.EmailAt | transform.py:17 | an email match at a position starts with the whole class run ending at its `@` and ends at the last `.` the greedy domain can give back to; there is none when no such shape exists |
| Patterns.EmailAtSign | transform.py:17 | in any email shape at a position, the `@` is where the class run from that position ends: the local part is always the whole run |
| Patterns.MatchAt | transform.py:14-17 | an attempted match spans text inside the string, from its start on |
| Patterns.Search | transform.py:42 | `re.search`: the first position with a match, or none when no position matches |
| Patterns.Extract | transform.py:42 | `str.extract`: the capture of the leftmost match; NaN exactly when nothing matches; NaN for a cell that is not a string |
| Patterns.LeftmostUnique | transform.py:42 | the leftmost match position is unique |
| Patterns.EmailExtracted | transform.py:17 | the leftmost email capture is a non-empty class run, an `@` and a non-empty class run, followed by a `.` in the text |
| Patterns.CapturedEmail | transform.py:17 | an email capture has exactly one `@`, which is neither its first nor its last character; every other character is in `[a-z0-9.-]` |
| Patterns.CapturedCode | transform.py:14-16 | a British capture is 2 to 4 of `[A-Z0-9]`, a space, a digit and two capitals; an American capture is five digits; a Canadian capture is letter, digit, letter, space, digit, letter, digit; every postcode capture ends at a word boundary, an American one follows a word boundary, two capitals and a space, and a Canadian one starts at a word boundary |
| Patterns.ExtractedCode | transform.py:42-50 | an extracted value comes from a string cell, occurs in it, and has its pattern's shape; an extracted postcode stands in its pattern's context in the cell |
| Patterns.ExtractedEmailDot | transform.py:17 | an extracted email stands in the affiliation right before a `.` |
| Patterns.PostcodeOf | transform.py:48-55 | the Canadian capture when there is one, else the American one, else the British one; missing exactly when none of the three patterns matches anywhere |
| Patterns.PostcodeCode | transform.py:48-55 | a postcode has the shape of a Canadian, an American or a British code |
| Levenshtein.Distance | transform.py:105 | the Levenshtein distance rapidfuzz computes, with unit insert, delete and substitute costs; DistanceSelf, DistanceZero, DistanceUpper, DistanceLower, DistanceAppend and DistancePositive state its properties |
| Levenshtein.DistanceSelf | transform.py:105 | a name is at distance 0 from itself |
| Levenshtein.DistanceZero | transform.py:105 | distance 0 means equal names |
| Levenshtein.DistanceUpper | transform.py:105 | the distance is at most the longer length |
| Levenshtein.DistanceLower | transform.py:105 | the distance is at least the difference of the lengths |
| Levenshtein.DistanceAppend | transform.py:105 | adding one character costs exactly one edit |
| Levenshtein.DistancePositive | transform.py:105 | different names are at a positive distance, at most the longer length |
| Levenshtein.Similarity | transform.py:105 | the normalised similarity lies in [0, 1] and is 1 exactly for equal names |
| Levenshtein.AcceptsIff | transform.py:19 | a name passes the 0.9 cutoff exactly when `10 * (m - d) >= 9 * m`, with `m` the longer length and `d` the distance |
| Levenshtein.EmptyNameRejected | transform.py:102-107 | no non-empty organisation is accepted against an empty registry name, so a match never leaves a falsy organisation |
| Levenshtein.CutoffInclusive | transform.py:19 | a 9-character name against itself plus one character scores exactly 0.9 and passes, so the cutoff is inclusive |
| Levenshtein.BelowCutoffRejected | transform.py:19 | an 8-character name against itself plus one character scores 8/9 and fails |
| Levenshtein.LengthGapRejected | transform.py:102-107 | names whose lengths differ by more than a tenth of the longer can never match |
| Entities.LastIndex | transform.py:69-74 | the position of the last entity with a label, or none when no entity has it |
| Entities.LastOfTexts | transform.py:81-86 | `[e.text for e in ents if e.label_ == l][-1]` is the text of the last entity labelled `l`, and the list is empty exactly when there is none |
| Entities.ResolvedCountry | transform.py:69-79 | None without a place entity; otherwise the converter's name for the last place entity when it is a standard country name, and None when it is not |
| Entities.ResolvedOrganisation | transform.py:81-86 | None exactly when there is no organisation entity; otherwise the suffix of the last one after its final `", "`, or all of it when it holds no `", "` |
| Registry.RowsIn | transform.py:98 | the registry rows whose country equals the cell; NaN and None equal none |
| Registry.RowsInAppend | transform.py:98 | the filter keeps registry order: filtering a concatenation is concatenating the filtered parts |
| Registry.RowsInSingle | transform.py:98 | a single row is kept exactly when its country equals the cell |
| Registry.FirstInPool | transform.py:97-112 | the first row named `n` in the registry restricted to a country is the first registry row with that country and name `n` |
| Registry.ExtractOne | transform.py:102-107 | the first name with the top similarity, provided it reaches the cutoff; none exactly when no name reaches it |
| Registry.FirstNamed | transform.py:112 | the first row carrying a name, or none when no row carries it |
| Pipeline.Resolved | pipeline.py:31-37 | one exploded row after the email, postcode, country-and-organisation and match stages, in that order; ResolvedColumns, ResolvedIdentity and ResolvedFalsy state what it yields |
| Pipeline.Project | pipeline.py:39-42 | the 14-column selection in its fixed order; OutputRowFacts states what each output column holds |
| Pipeline.ApplyCountryAndOrg | pipeline.py:36 | row by row the country and organisation stage; the two columns exist exactly when some affiliation is truthy |
| Pipeline.ApplyMatch | pipeline.py:37 | row by row the matching stage |
| Pipeline.TransformFrame | pipeline.py:28-44 | fails exactly when no segment is truthy; otherwise one output row per segment, in order, each the projection of the row after all stages in their fixed order |
| Pipeline.NoAffiliationFails | pipeline.py:36-37 | one author with an empty affiliation list yields a single None segment, which is enough to make `transform` fail |
| Pipeline.TransformAll | pipeline.py:28-44 | with the missing columns treated as missing values, every input yields one output row per segment, each the projection of the fully resolved row |
| Pipeline.FalsyAffiliationFields | transform.py:42-55 | a None or empty segment has no email and no postcode |
| Pipeline.ResolvedColumns | pipeline.py:31-37 | the record's columns and the segment pass through; email and postcode depend on the segment alone, not on the language model, converter or registry; the country is missing, None or a standard name |
| Pipeline.ResolvedIdentity | pipeline.py:36-37 | a truthy resolved organisation is a registry name with its GRID id, from the resolved country when that is truthy; with a falsy resolved organisation the identity is the record's own or None, never a registry id |
| Pipeline.ResolvedFalsy | pipeline.py:31-37 | a None or empty segment ends with NaN email, postcode and country, and None organisation and identity |
| Pipeline.OutputRowFacts | pipeline.py:39-42 | every output row carries the columns above in the 14-column order, with all the facts of the three lemmas before it |

## Left out

- extract.py is not part of this model. It reads the S3 bucket and parses the XML. Its output appears only as the input records: bibliographic columns, an optional GRID identity, and an affiliation that is a string, None or NaN.
- comp_data.py is not part of this model. The standard country names and the GRID registry rows (`grid_id`, `name`, `country`) are immutable inputs.
- The spaCy language model is a parameter `ner` from text to labelled entities. Entities with other labels are kept in its output, and the selection ignores them.
- The `country_converter` lookup is an uninterpreted parameter `convert`. Logging setup is left out.
- rapidfuzz is replaced by the model's own Levenshtein distance and an exact rational similarity. The model does not reproduce floating-point rounding at the cutoff.
- Registry.ExtractOne: assumes that, among equal top scores, the first name in pool order wins, and that no string preprocessing applies. Both are library-version behaviour.
- Transform.MatchOutcome: assumes that a NaN organisation matches nothing, as rapidfuzz treats a missing query.
- Patterns: `\b` and `\w` are ASCII only (`[A-Za-z0-9_]`). Python's Unicode word characters are not modelled.
- Pipeline.ApplyCountryAndOrg: does not model the dtype re-inference pandas applies when it rebuilds each chunk from the returned rows. In a chunk where a country or organisation column holds no string but does hold a NaN (a row whose affiliation is falsy and returns without the key), the None values there become NaN. Such a NaN is truthy, so at transform.py:94-98 the row's pool is empty or its organisation is a truthy NaN. The row then ends with organisation and identity None, and its own GRID id is lost. The model keeps None there, so it may match such a row against the registry or keep its identity. The chunk boundaries depend on pandarallel's worker count, which the model does not have.
- Pipeline.ApplyMatch: the matching stage's returned rows go through the same re-inference. An organisation or identity column that holds only None and NaN in a chunk ends as NaN in the output; the model keeps None.
- Pipeline.ApplyCountryAndOrg and Pipeline.ApplyMatch process the rows one after another; pandarallel's worker processes and chunking are left out.
- Apart from that re-inference, the frame's index, dtypes and the pandas rules for combining the returned rows are reduced to two facts. Missing keys are filled with NaN. A column no row returns does not exist.
- Pipeline.TransformFrame: an empty input reports the same missing-column failure as the projection would. The exact pandas error text is not modelled.
- `replace("nan", None)` is modelled as pandas 1.4 and later treat it: the matching cells become None.
- The `__main__` block of pipeline.py is left out: environment loading, timing, printing and the CSV upload.

## Findings

| source | as written | input that shows it | evidently intended | confidence | as-written member | corrected member |
|---|---|---|---|---|---|---|
| pipeline.py:36-37 | `extract_country_and_org` adds the country and organisation columns only to rows with a truthy affiliation. When no row has one, `get_match` looks up a column that does not exist and the run fails. | one author whose affiliation list is empty, which pandas explodes to NaN and the split turns into a None segment | the batch resolves, and every such row ends with no organisation and no identity | high for the reasoning about pandas, not executed | Pipeline.TransformFrame, Pipeline.NoAffiliationFails | Pipeline.TransformAll |
