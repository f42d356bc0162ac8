# city-spellcheck in Dafny

A model of the two pieces of logic in the city-spellcheck repository:

- **The subsequence fuzzy matcher `fuzzy_match`** in `tests/unit_test.rs`. It has three phases.
  - It builds one row of candidate cells per pattern character. A row holds every position of the choice string whose character equals that pattern character up to ASCII case, provided the position lies after the first cell of the row before.
  - It sweeps the rows left to right as a dynamic program. Each cell picks the best predecessor in the row above, or inherits the predecessor of its left neighbour.
  - It takes the last maximal cell of the last row and follows back-references to recover the matched positions.
- **The struct-of-arrays city store `CityData`** in `src/lib.rs`. This covers adding and reading cities, the display label of a search hit, the search filter, and the line-by-line loop of `populate_from_file`.

Modules, in dependency order:

| module | file | what it holds |
|---|---|---|
| `Wrappers` | wrappers.dfy | `Option` |
| `Ascii` | ascii.dfy | upper case, ASCII lower-casing, the separator characters |
| `Subsequence` | subsequence.dfy | case-insensitive embeddings, the reference notion of "matches", and the greedy step |
| `Scoring` | scoring.dfy | `fuzzy_score`, its three terms, the gap bonus, and the score of a whole alignment (`PathScore`) |
| `MatchRows` | match_rows.dfy | `MatchingStatus` and the candidate-row phase |
| `MatchSweep` | match_sweep.dfy | the in-place update of one cell, of one row, and of all rows |
| `FuzzyMatcher` | fuzzy_match.dfy | the traceback, `fuzzy_match` as written, and the corrected matcher |
| `MatcherFindings` | findings.dfy | the two inputs on which the matcher as written departs from its evident intent |
| `Fields` | fields.dfy | `str::split(',')` and its inverse |
| `Cities` | cities.dfy | `CityData`, `City`, `FuzzyResult`, `new`, `add_city`, `get_city`, `FuzzyResult::new`, `search`, and the loading loop |

How the program's types are represented:

- Integers (`i64`, `usize`) are unbounded `int` and `nat`.
- `f32` coordinates and scores are the reals they denote.
- The search cut-off `1.4` is the `f32` value nearest to 1.4, which is 11744051 / 2^23.
- The external string distance `sift3` is a function parameter of `Found`, `Search` and `SearchHits`.
- Parsing a coordinate is a function parameter of the loading loop. It returns `None` where `str::parse::<f32>` fails.

The matcher is defined once and read in two ways, selected by `Variant`:

- `AsWritten` follows the source.
- `Corrected` repairs the two defects listed under Findings.

The rest of the model, and every property of the corrected matcher, uses the corrected definitions.

## Model

| member | source | states |
|---|---|---|
| `Ascii.ToLower` | tests/unit_test.rs:73 | `to_ascii_lowercase` maps exactly 'A'..'Z' to the matching lower-case letter and leaves every other character unchanged |
| `Scoring.LeadingPenalty` | tests/unit_test.rs:32-34 | the leading penalty lies in [-18, 0], is 0 exactly at index 0, is -6 per index below 3, and is capped at -18 from index 3 on |
| `Scoring.FuzzyScore` | tests/unit_test.rs:13-37 | `fuzzy_score` can only be called with index at least 1 because it reads the character before the index; its value lies in [-19, 18], and beyond the first pattern character it is one of -1, 7, 10, 18 |
| `Scoring.PathScoreSnoc` | tests/unit_test.rs:115-122 | extending an alignment by one match adds that match's local score and the gap score: +10 when the two matches are adjacent, -2 per skipped character otherwise |
| `Scoring.ExactUpperBeatsCaseOnly` | tests/unit_test.rs:19-23 | an exact upper-case match scores 11 more than a match at the same place that is equal only up to case |
| `Scoring.SeparatorWorthEight` | tests/unit_test.rs:25-30 | a separator before the matched character is worth exactly 8, everything else being equal |
| `Scoring.LeadingPenaltyOnlyFirst` | tests/unit_test.rs:32-34 | only the first pattern character pays the leading penalty, and the penalty is between -18 and 0 |
| `Subsequence.NoOccurrence` | tests/unit_test.rs:86-89 | when a pattern character has no occurrence after the bound, the rest of the pattern cannot be embedded there, so answering `None` is right |
| `Subsequence.GreedyStep` | tests/unit_test.rs:68-91 | bounding the next row by the first occurrence of the current character loses no embedding: the rest embeds after the old bound exactly when the remainder embeds after that occurrence |
| `MatchRows.CandidateRowCells` | tests/unit_test.rs:73-83 | every pushed cell sits on a character equal to the pattern character up to case, lies above `prev_matched_idx`, and starts fresh with final score equal to its local score, one skipped character and back-reference 0 |
| `MatchRows.CandidateRowIncreasing` | tests/unit_test.rs:73-83 | the cells of a row are in strictly increasing position order |
| `MatchRows.CandidateRowComplete` | tests/unit_test.rs:73-83 | every matching position above `prev_matched_idx` gets a cell |
| `MatchRows.CandidateRowSpec` | tests/unit_test.rs:68-90 | a row is increasing, holds only pushable cells, and holds one for every matching position above the bound |
| `MatchRows.RowHead` | tests/unit_test.rs:86-90 | a row is empty exactly when the character has no occurrence above the bound; otherwise its first cell, which becomes the next `prev_matched_idx`, is the earliest occurrence |
| `MatchRows.BuildStep` | tests/unit_test.rs:68-93 | one pass of the loop: an empty row means the rest of the pattern cannot embed; otherwise the extended rows are still the builder's rows, the next bound is the new row's first position, and the rest embeds after the old bound exactly when it embeds after the new one |
| `MatchRows.Build` | tests/unit_test.rs:68-93 | row building gives up exactly when the rest of the pattern cannot be embedded after the last row's first position; otherwise it yields one row per pattern character |
| `MatchRows.Rows` | tests/unit_test.rs:65-93 | the rows exist, one per pattern character, exactly when the pattern is a case-insensitive subsequence of the choice |
| `MatchRows.BuiltRowsLayered` | tests/unit_test.rs:68-92 | built rows are increasing and each lies above the first position of the row before; row 0 may start at 0 and later rows never do; every cell matches its pattern character and carries its local score |
| `MatchSweep.TakeWhileBelow` | tests/unit_test.rs:113 | `take_while` stops at the first cell at or beyond the bound, and every cell before that is below it |
| `MatchSweep.SkipWhileBelow` | tests/unit_test.rs:114 | `skip_while` starts at the first cell at or beyond the bound, and every skipped cell is below it |
| `MatchSweep.LastArgMax` | tests/unit_test.rs:124 | `max_by_key` returns a maximal position, and every later position holds strictly less, so ties go to the last maximum |
| `MatchSweep.UpdateCell` | tests/unit_test.rs:99-141 | an updated cell keeps its position and local score, and its back-reference points into the row above at a cell strictly to its left, whether chosen or inherited; in the corrected reading its skip count and final score are exact for its predecessor |
| `MatchSweep.UpdateCellChoice` | tests/unit_test.rs:106-141 | the cell's final score is at least every direct chain in the `take_while`/`skip_while` window and, after the first cell, at least `score_before_idx`; the cell either chains to the last maximal direct candidate (the `max_by_key` tie rule) or inherits its left neighbour's predecessor, and it chains directly whenever some direct chain scores at least `score_before_idx` (always for the first cell, whose window is never empty); the recorded skip count is fixed in every case: as written it is that of the window's last maximal direct candidate whenever the window is non-empty, even when the cell inherits instead (the `adj_num` of the rejected candidate, line 131), and the neighbour's when the window is empty; in the corrected reading it is always the real count since the chosen predecessor |
| `MatchSweep.SweepRowLast` | tests/unit_test.rs:99-141 | each step of the in-place loop keeps the cells already updated and appends the update of the next cell from its already-updated left neighbour, or from `MatchingStatus::empty()` for the first cell |
| `MatchSweep.SweepRow` | tests/unit_test.rs:99-142 | sweeping a row left to right keeps every cell's position and score and leaves every back-reference valid |
| `MatchSweep.SweepRows` | tests/unit_test.rs:95-143 | the outer loop keeps the rows already done unchanged and keeps the rows increasing and stacked; every row after the first ends up linked into the row above |
| `MatchSweep.Sweep` | tests/unit_test.rs:95-143 | after the sweep the first row is untouched, every cell keeps its position and local score, and every back-reference of row p+1 is a valid position of row p holding a smaller string index |
| `MatchSweep.SweepRowsBelow` | tests/unit_test.rs:95-98 | the outer loop sweeps each remaining row in place below the row it has just swept (`cur_row` is the already-swept `scores[pattern_idx]`), row after row |
| `MatchSweep.SweptRowByRow` | tests/unit_test.rs:95-143 | the swept rows are the input rows with row 1 swept below row 0 and every later row swept below the swept row above it, so `SweepRowLast` and `UpdateCellChoice` describe every cell of the result |
| `FuzzyMatcher.Swept` | tests/unit_test.rs:65-143 | the swept rows exist exactly when the pattern is a case-insensitive subsequence; they are layered (one row per pattern character, each cell a match with its local score), linked into the row above, with row 0 untouched, and in the corrected reading every cell's bookkeeping is exact |
| `FuzzyMatcher.Traceback` | tests/unit_test.rs:151-158 | the trace from a cell of row p has one position per row and ends at that cell's position |
| `FuzzyMatcher.TracebackFollows` | tests/unit_test.rs:151-158 | the trace is read along the back-references: there is a column per row, the last being the start cell, such that each listed position is that column's cell and each cell's `back_ref` is the column of the row before |
| `FuzzyMatcher.FollowsBackRefsUnique` | tests/unit_test.rs:151-158 | two back-reference chains of the same length that end at the same cell list the same positions: the loop's `next_col = status.back_ref` leaves no choice |
| `FuzzyMatcher.EndsAtLastMaxUnique` | tests/unit_test.rs:145-159 | at most one answer ends at the last maximal cell of the last row, carries its score and follows its back-references |
| `FuzzyMatcher.EndsAtLastMaxOfSweptUnique` | tests/unit_test.rs:60-160 | the description used by `FuzzyMatch` and `FuzzyMatchCorrected` fixes the answer: any two matches that meet it are equal |
| `FuzzyMatcher.TracebackOccurs` | tests/unit_test.rs:151-158 | each traced position is the position of a cell of its row, and the traced positions strictly increase |
| `FuzzyMatcher.TracebackEmbeds` | tests/unit_test.rs:145-159 | the recovered positions form a case-insensitive embedding of the pattern into the choice |
| `FuzzyMatcher.ChainExact` | tests/unit_test.rs:106-141 | in the corrected reading the bookkeeping along every back-reference chain is exact |
| `FuzzyMatcher.TracebackScore` | tests/unit_test.rs:106-141 | along an exact chain, a cell's final score is the score of the alignment its trace recovers |
| `FuzzyMatcher.Finish` | tests/unit_test.rs:145-159 | the answer is a match whose positions embed the pattern, are read along the back-references from the last cell of maximal final score in the last row (`max_by_key`'s last maximum), and carry that cell's score; corrected, that score is the score of the returned alignment |
| `FuzzyMatcher.Run` | tests/unit_test.rs:65-159 | past the empty-pattern check, the matcher answers `None` exactly when the pattern is not a case-insensitive subsequence, and otherwise returns an embedding read along the back-references from the last maximal cell of the last swept row, with that cell's score |
| `FuzzyMatcher.FirstRowAtZero` | tests/unit_test.rs:68-75 | row 0 holds position 0 exactly when the first choice character matches the first pattern character |
| `FuzzyMatcher.FuzzyMatch` | tests/unit_test.rs:60-160 | an empty pattern gives `(0, [])`; the program panics exactly when row 0 holds position 0; otherwise it answers `None` exactly for non-subsequences, and a match reports the score of the last cell of maximal final score in the last swept row, with positions that embed the pattern and are read along the back-references from that cell, one per row |
| `FuzzyMatcher.FuzzyMatchCorrected` | tests/unit_test.rs:60-160 | with both corrections the matcher never panics and answers `None` exactly for non-subsequences; a match reports the score of the last cell of maximal final score in the last swept row, its positions are read along the back-references from that cell, and that score is the score of the returned embedding |
| `MatcherFindings.LondonPanics` | tests/unit_test.rs:25 | matching "London" against itself, the repository's own unit test, panics in `fuzzy_score` |
| `MatcherFindings.LondonCorrected` | tests/unit_test.rs:166-171 | corrected, "London" against itself matches positions 0 to 5 with score 55 |
| `MatcherFindings.SelfMatch` | tests/unit_test.rs:166-171 | corrected, any string matched against itself aligns every character with itself |
| `MatcherFindings.OnlyEmbeddingOfItself` | tests/unit_test.rs:151-158 | the only embedding of a string into itself is the identity |
| `MatcherFindings.StaleGapCounterexample` | tests/unit_test.rs:125-133 | as written, "_Axbab_B" against "AB" returns positions 1 and 7 with score 10, although that alignment scores 20 |
| `MatcherFindings.StaleGapCorrected` | tests/unit_test.rs:125-133 | corrected, on the same input the reported score is the score of the returned alignment |
| `MatcherFindings.StaleRows` | tests/unit_test.rs:68-93 | the candidate rows of the example are 'A'/'a' at 1 and 4, then 'b'/'B' at 3, 5 and 7 |
| `MatcherFindings.StaleSweptAsWritten` | tests/unit_test.rs:99-141 | as written, the example's second row is swept to final scores 9, 5, 10, and the cells at 5 and 7 carry a skip count of 0 |
| `Fields.Split` | src/lib.rs:92 | `split(',')` yields at least one piece, and no piece contains the separator |
| `Fields.JoinSplit` | src/lib.rs:92 | gluing the pieces of a split back together with the separator restores the line |
| `Fields.SplitJoin` | src/lib.rs:92 | splitting separator-free pieces glued with the separator gives back exactly those pieces |
| `Cities.NewCityData` | src/lib.rs:73-81 | a new store has five empty columns, holds no city, and has no readable position |
| `Cities.AddCity` | src/lib.rs:104-110 | `add_city` grows each column by exactly one and leaves every stored value unchanged; it keeps the columns of equal length (and only then); the new city is readable at the old size |
| `Cities.HasIffBelowSize` | src/lib.rs:112-120 | in a store with equal-length columns, `get_city(idx)` is safe exactly when `idx` is below the number of names |
| `Cities.GetAfterAdd` | src/lib.rs:104-120 | adding a city leaves every city already stored readable and unchanged |
| `Cities.NewAddGet` | src/lib.rs:148-160 | adding one city to a new store and reading position 0 gives back exactly the values passed in |
| `Cities.NewFuzzyResult` | src/lib.rs:54-68 | a result copies the latitude, longitude and score unchanged, and for comma-free fields its label reads back as name, region, country, in that order |
| `Cities.LabelRoundTrip` | src/lib.rs:62 | a label built from comma-free fields reads back as exactly those fields, with region before country |
| `Cities.ParseLabelSound` | src/lib.rs:62 | any string that reads back as a label is the label of the fields it reads back as |
| `Cities.FoundScored` | src/lib.rs:125-131 | every collected pair is a position of `names` with its `sift3` score against the term, and that score is below the cut-off |
| `Cities.FoundAscending` | src/lib.rs:125-131 | the collected positions are in increasing order: the parallel collect keeps input order |
| `Cities.FoundComplete` | src/lib.rs:125-131 | every position scoring below the cut-off is collected |
| `Cities.FoundSpec` | src/lib.rs:125-131 | the collected pairs are exactly the positions scoring below the cut-off, each with its score, in increasing order |
| `Cities.Search` | src/lib.rs:122-141 | `search` returns one result per collected pair, in the same order, built by `FuzzyResult::new` from `get_city` at that position and its score |
| `Cities.SearchHits` | src/lib.rs:125-131 | a position gets a search result exactly when its score is strictly below the cut-off |
| `Cities.Records` | src/lib.rs:90-93 | every record kept from the lines has exactly five fields |
| `Cities.LoadLines` | src/lib.rs:90-101 | loading only extends the store and keeps the columns of equal length |
| `Cities.LoadLinesSpec` | src/lib.rs:90-101 | loading succeeds exactly when every five-field line's coordinates parse; the store then gains one city per such line, in file order, read from its fields |
| `Cities.Populate` | src/lib.rs:83-102 | `populate_from_file` only extends the store and keeps the columns of equal length |
| `Cities.PopulateSpec` | src/lib.rs:85-99 | the first line is a header that never becomes a city; the load succeeds exactly when every five-field line after it parses, and then adds one city per such line, in order |


Definitions that carry no contract of their own are specified by the rows above:

- `Scoring.CaseTerm` (tests/unit_test.rs:19-23) by `Scoring.ExactUpperBeatsCaseOnly` and `Scoring.FuzzyScore`.
- `Scoring.SeparatorTerm` (tests/unit_test.rs:27-30) by `Scoring.SeparatorWorthEight` and `Scoring.FuzzyScore`.
- `Scoring.GapBonus` (tests/unit_test.rs:116-121) by `Scoring.PathScoreSnoc` and `FuzzyMatcher.TracebackScore`.
- `MatchRows.EmptyStatus` (`MatchingStatus::empty`, tests/unit_test.rs:49-57) by `MatchSweep.UpdateCellChoice` and `MatchSweep.SweepRowLast`: the first cell of a row is updated from it and always chains directly.
- `MatchRows.CandidateRow` (tests/unit_test.rs:73-84) by `MatchRows.CandidateRowCells`, `MatchRows.CandidateRowIncreasing`, `MatchRows.CandidateRowComplete`, `MatchRows.CandidateRowSpec` and `MatchRows.RowHead`.
- `MatchSweep.ChainScore` (tests/unit_test.rs:115-122) and `MatchSweep.InheritedScore` (lines 106-108) by `MatchSweep.UpdateCellChoice`; along exact chains `ChainScore` adds up to `PathScore`, by `FuzzyMatcher.TracebackScore`.
- `Cities.GetCity` (src/lib.rs:112-120) by `Cities.AddCity`, `Cities.HasIffBelowSize`, `Cities.GetAfterAdd` and `Cities.NewAddGet`.
- `Cities.Label` (src/lib.rs:62) by `Cities.LabelRoundTrip`, `Cities.ParseLabelSound` and `Cities.NewFuzzyResult`.
- `Cities.Found` (src/lib.rs:125-131) by `Cities.FoundScored`, `Cities.FoundAscending`, `Cities.FoundComplete` and `Cities.FoundSpec`.

## Left out

- Reading the file in `populate_from_file` (src/lib.rs:84-85) is left out because it is I/O. The model starts from the file's lines, so the `\r` stripping of `str::lines` is not modelled.
- Parsing `f32` coordinates (src/lib.rs:94-95) is a parameter of the loading loop.
- `sift3` from the external `distance` crate (src/lib.rs:129) is a parameter, because its source is not available here.
- `rayon`'s parallel iterator (src/lib.rs:127) is modelled as a sequential filter. The indexed parallel `collect` keeps input order, so the two agree.
- `src/main.rs` is not modelled. It holds the HTTP route, `lazy_static` caching and JSON serialisation. It also calls a two-argument `search` and a `Coordinate` type that `src/lib.rs` does not define.
- The `Country` enum (src/lib.rs:31-34) is unused by the code, so it is left out.
- `Debug` formatting and `serde` derivation are left out. The tests at src/lib.rs:148-160 are covered by `Cities.NewAddGet`, which is stated for all inputs rather than through the printed text.
- The tests at src/lib.rs:162-175 read a data file that is not part of this model.
- `i64` overflow in scores and `usize` wrap-around are not modelled, because the model's integers are unbounded.
  - The scores stay tiny compared with `i64`.
  - The `usize` subtractions at tests/unit_test.rs:107 and 116 never underflow. The model proves both operands are in order.
  - The only subtraction that does underflow is the one at line 25, which is Finding 1.
- `f32` rounding and NaN are left out; reals stand for the `f32` values.
- `char::is_uppercase` is Unicode-aware, but the model restricts it to ASCII 'A'..'Z', to match the ASCII-only lower-casing.
- The `expect` at tests/unit_test.rs:150 is not modelled as a failure. The last row is never empty once row building has succeeded, and `Finish` always returns a match.
- The expectation `Some((100, vec![0,0]))` at tests/unit_test.rs:170 is not used as an oracle, for two reasons. The program panics on that input (`MatcherFindings.LondonPanics`), and a match always has one position per pattern character.
- The traceback is built in ascending order directly, instead of pushing positions and reversing the vector (tests/unit_test.rs:152-158). The result is the same sequence.
- The `RefCell` borrows are not modelled. Rows are immutable values in the model, and each sweep step produces the next row.
- `FuzzyMatcher.FuzzyMatch` decides the panic before building any row. In the source the panic happens while row 0 is being built. The outcome is the same, because nothing is returned before it.
- `Cities.Search`: its precondition asks that every position of `names` exists in the other four columns. The source panics only when a position that scores below the cut-off is missing from a shorter column, so for some inputs the model asks more than the source needs.
- `MatcherFindings.StaleGapCorrected`: the corrected matcher's exact answer on the Finding 2 input is not computed. The lemma states the corrected property on that input instead: the reported score is the score of the returned alignment.

## Findings

| source | as written | input that shows it | evidently intended | confidence | as-written member | corrected member |
|---|---|---|---|---|---|---|
| tests/unit_test.rs:25 | `fuzzy_score` reads `string[index - 1]`. Row 0 has no lower bound, so when the first choice character matches the first pattern character it is called with index 0, and the `usize` subtraction underflows and panics. | choice "London", pattern "London" (the repository's own unit test at line 170) | a match at position 0 has no preceding character and earns no separator bonus; the match succeeds | high (not executed) | `MatcherFindings.LondonPanics` | `MatcherFindings.LondonCorrected` |
| tests/unit_test.rs:125-133 | A cell that inherits its left neighbour's predecessor (`back_ref: prev.back_ref`) keeps an `adj_num` that belongs to a different chain: the neighbour's count, or the rejected direct candidate's. The next cell then applies the adjacency correction at line 108 to a gap that does not exist, so the final score no longer matches the alignment the traceback returns. | choice "_Axbab_B", pattern "AB": as written the result is (10, [1, 7]), while the alignment [1, 7] scores 12 + 18 - 2 * 5 = 20 | an inherited cell records the real number of characters skipped since its inherited predecessor, so the returned score is the score of the returned alignment | medium (not executed) | `MatcherFindings.StaleGapCounterexample` | `MatcherFindings.StaleGapCorrected` |
