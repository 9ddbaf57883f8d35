# lmarena leaderboard scraper: a verified model of its text-processing core

`scrape-lmarena.mjs` opens every LMArena leaderboard page ("arena") in a headless
browser. It reads the table rows as cell texts, turns each data row into a record
`{rankUB, model, score, votes, organization, license}`, and maps the records onto
rows of the `lm_arena_leaderboard_snapshots` table. It then upserts those rows
with one shared `scraped_at` timestamp. This project models the deterministic
part of that pipeline in Dafny and proves what it does:

- `Normalize`: the numeric normalisers `toInt` and `toFloat`. `toInt` deletes
  every full stop and reads the leftmost `-?\d+`. `toFloat` turns the first comma
  into a full stop and reads the leftmost `-?\d+(\.\d+)?`. Values are exact
  integers and rationals.
- `Classify`: the row filter. A row is kept when it has a cell, its lower-cased
  `" | "`-joined text holds a score-like number, and it does not look like the
  header row.
- `Extract`: the field rules, which are "first cell such that …" searches with
  `??` fallbacks, and `extractTableRows` itself. The latter is a loop over the
  rendered rows. It tidies each cell's text (trim, then one space for every
  run of white space), pushes one record per kept row and finally drops
  records without a model name or a non-zero score.
- `Scrape`: `scrapeArena`'s mapping of records to table rows, with a rank
  position, the arena slug and the page URL. Also the upsert payload.
- `Run`: the top-level loop over the nine arenas. Each arena yields exactly one
  logged outcome, and a failure in one arena never stops the others.
- `Text`, `Lists` and `Optional`: the string, sequence and `??` helpers these
  modules share.

A rendered row enters the model as the `innerText` of its cells plus the text
of its first link, if it has one. Loading a page and the database's answer to an upsert are
inputs to the run, looked up per arena.

The model follows the code where its behaviour is surprising:

- The uncertainty marker searched for at line 56 is the two characters `Â±`
  (U+00C2 U+00B1), not `±`. A page that shows `1234 ± 5` therefore gets its
  score from the first cell that starts with three digits. When the rank is 100
  or more, that cell is the rank (`Extract.RankReadAsScore`).
- `toInt` treats only full stops as thousands separators. `"12,345 votes"`
  gives 12, not 12345 (`Normalize.ToIntCommaVotes`).
- The vote fallback takes the third-last cell (the first cell in rows of fewer
  than three cells) even when that cell does not parse. It never looks further
  for a cell that does (`Extract.VotesFallbackDoesNotScan`).
- A score of zero (`"000"`) passes the row filter, but the record is dropped at
  line 67 (`Extract.ZeroScoreRowKept`, `Extract.ZeroScoreDropped`).
- `rank_position` keeps a parsed rank of 0. Only a missing rank is replaced by
  the position (`Scrape.RankKept`).
- `row_json` is the mapped table row itself, not the raw cells
  (`Scrape.PayloadRows`).

## Model

| member | source | states |
|---|---|---|
| Optional.Option.OrElse | scrape-lmarena.mjs:56-57 | `a ?? b` is `a` when `a` is present and `b` otherwise |
| Text.Trim | scrape-lmarena.mjs:54 | `trim()` returns a contiguous slice of the text that neither begins nor ends with white space, with only white space cut away; it is empty exactly when the text is all white space |
| Text.ContainsJoin | scrape-lmarena.mjs:40-44 | a word none of whose letters is in the separator occurs in the joined text exactly when it occurs in one of the cells |
| Text.DigitRunJoin | scrape-lmarena.mjs:40-43 | three digits in a row occur in the joined text exactly when they occur in one cell, since the separator holds no digit |
| Text.TidyText | scrape-lmarena.mjs:39 | a cell text after `trim().replace(/\s+/g,' ')` has no white space at either end and none inside but single plain spaces; it is empty exactly when the text was all white space |
| Text.CollapseShape | scrape-lmarena.mjs:39 | after every run of white space is replaced by one space, the only white space left is single plain spaces |
| Text.CollapseEnds | scrape-lmarena.mjs:39 | collapsing empties only the empty text, and the result starts or ends with white space exactly when the text does |
| Text.CollapseFixed | scrape-lmarena.mjs:39 | a text whose only white space is single plain spaces is left unchanged by the replacement |
| Text.TrimFixed | scrape-lmarena.mjs:39 | `trim()` leaves a text with no white space at either end unchanged |
| Text.TidyFixed | scrape-lmarena.mjs:39 | a tidy cell text is its own tidied form |
| Text.TidyIdempotent | scrape-lmarena.mjs:39 | tidying a tidied text changes nothing |
| Text.CollapseKeepsVisible | scrape-lmarena.mjs:39 | the replacement keeps every character other than white space, in order |
| Text.TrimKeepsVisible | scrape-lmarena.mjs:39 | `trim()` keeps every character other than white space, in order |
| Text.TidyKeepsVisible | scrape-lmarena.mjs:39 | tidying a cell text loses no character other than white space and reorders none |
| Text.CollapseSplit | scrape-lmarena.mjs:39 | `replace(/\s+/g,' ')` turns every run of white space between two visible characters into exactly one plain space, and collapses each side on its own |
| Text.TidyJoin | scrape-lmarena.mjs:39 | two tidy texts with white space between them tidy to the two joined by exactly one space: words stay apart and are never run together |
| Text.TidyOpenModel | scrape-lmarena.mjs:39 | `"Open \t Model"` is tidied to `"Open Model"`, the spelling the license pattern searches for |
| Normalize.RemoveDotsMembers | scrape-lmarena.mjs:16 | deleting the full stops keeps exactly the characters that are not full stops |
| Normalize.ReplaceFirstCommaPointwise | scrape-lmarena.mjs:21 | replacing the first comma changes no character except a comma, which becomes a full stop; the length is kept |
| Normalize.ReplaceFirstCommaAppend | scrape-lmarena.mjs:21 | a comma-free prefix is left alone and the replacement happens in what follows it |
| Normalize.FirstMatchLeftmost | scrape-lmarena.mjs:16-17 | the match found is the leftmost start of `-?\d+`, and when none is found no position starts a match |
| Normalize.DigitRunIs | scrape-lmarena.mjs:16 | the greedy `\d+` takes exactly the digits up to the first non-digit or the end |
| Normalize.DigitRunStops | scrape-lmarena.mjs:16 | the digit run ends at the end of the text or before a non-digit |
| Normalize.DigitsValue | scrape-lmarena.mjs:17 | `parseInt` of k decimal digits is below 10^k |
| Normalize.MatchExistsIffDigit | scrape-lmarena.mjs:16-17 | `-?\d+` matches somewhere exactly when the text holds a digit |
| Normalize.ToIntNoneIffNoDigit | scrape-lmarena.mjs:14-18 | `toInt` gives null exactly when its input is null or holds no ASCII digit |
| Normalize.ToFloatNoneIffNoDigit | scrape-lmarena.mjs:19-23 | `toFloat` gives null exactly when its input is null or holds no ASCII digit |
| Normalize.ToIntIgnoresDots | scrape-lmarena.mjs:16 | `toInt` gives the same result whether or not the full stops were deleted first |
| Normalize.ToIntStopsAtComma | scrape-lmarena.mjs:16-17 | digits followed by a comma read as those digits alone, whatever follows |
| Normalize.ToIntIgnoresThousandsDot | scrape-lmarena.mjs:16-17 | `whole.rest` with digit strings reads as the digits of `whole` and `rest` run together |
| Normalize.NegativeDigits | scrape-lmarena.mjs:16-17 | a minus sign followed by digits reads as the negated number |
| Normalize.ToFloatCommaDecimal | scrape-lmarena.mjs:21-22 | `whole,frac` reads as `whole + 0.frac`, that is `whole + frac / 10^|frac|`: the first comma is the decimal point |
| Normalize.DecimalDigits | scrape-lmarena.mjs:21-22 | `whole.frac` reads as `whole + 0.frac`, that is `whole + frac / 10^|frac|` |
| Normalize.DigitsFractionValue | scrape-lmarena.mjs:21-22 | the fraction digits `d1…dk` denote exactly the integer `d1…dk` divided by `10^k` |
| Normalize.DigitsValueFront | scrape-lmarena.mjs:17 | a digit string read from the front is its first digit times `10^(k-1)` plus the value of the rest |
| Normalize.ToFloatAgreesWithToInt | scrape-lmarena.mjs:14-23 | without full stops or commas, `toFloat` is null exactly when `toInt` is, and otherwise equals it |
| Normalize.ReadsDigitPrefix | scrape-lmarena.mjs:14-23 | digits followed by nothing, or by a non-digit with no full stop or comma after it, read as those digits under both normalisers |
| Normalize.ToIntFormatInt | scrape-lmarena.mjs:14-18 | `toInt` reads every integer back from its decimal rendering |
| Normalize.ToFloatFormatInt | scrape-lmarena.mjs:19-23 | `toFloat` reads every integer back from its decimal rendering |
| Normalize.ToIntDropsFullStop | scrape-lmarena.mjs:16-17 | `"2.5"` gives 25 under `toInt` |
| Normalize.ToIntCommaVotes | scrape-lmarena.mjs:16-17 | `"12,345 votes"` gives 12 under `toInt` |
| Normalize.ToFloatCommaExample | scrape-lmarena.mjs:21-22 | `"123,4"` gives 123.4 under `toFloat` |
| Normalize.ToFloatZeros | scrape-lmarena.mjs:21-22 | `"000"` gives 0 under `toFloat` |
| Normalize.ToFloatHundred | scrape-lmarena.mjs:21-22 | `"100"` gives 100 under `toFloat` |
| Normalize.ReadsOne | scrape-lmarena.mjs:14-23 | `"1"` gives 1 under both normalisers |
| Normalize.ToFloatScoreWithMargin | scrape-lmarena.mjs:21-22 | `"1234 ± 5"` gives 1234 under `toFloat`: the match stops before the margin |
| Normalize.NotANumber | scrape-lmarena.mjs:14-23 | `"n/a"` gives null under both normalisers |
| Classify.ScorePatternIsDigitRun | scrape-lmarena.mjs:43 | `/\d{3,4}(\.\d+)?/` matches somewhere in a text exactly when three digits stand in a row |
| Classify.IsDataRowByCells | scrape-lmarena.mjs:36-45 | a row is kept exactly when it has a cell, some cell holds three digits in a row, and not both "rank" and "model" occur (case-insensitively) in its cells |
| Classify.DataRowWithoutRank | scrape-lmarena.mjs:36-45 | a row with a three-digit run and no cell mentioning "rank" is kept |
| Classify.HeaderRowRejected | scrape-lmarena.mjs:44-45 | the header row `Rank, Model, Score, Votes` is skipped |
| Extract.CellAt | scrape-lmarena.mjs:49-51 | `textCells[i]` is the cell when `i` is an index of the row, and undefined otherwise, negative `i` included |
| Extract.FirstIndex | scrape-lmarena.mjs:56-63 | the search returns the first index whose cell satisfies the test, and nothing exactly when no cell does |
| Extract.FirstIndexIs | scrape-lmarena.mjs:56-63 | an index whose cell passes the test, with no earlier cell passing it, is the one found |
| Extract.Find | scrape-lmarena.mjs:56-63 | `find` returns the cell at the first index that passes the test |
| Extract.ReadRow | scrape-lmarena.mjs:38-39 | a row is read into one tidied text per cell, in column order, with its link text kept |
| Extract.TidyCells | scrape-lmarena.mjs:38-39 | the loop over the cells pushes exactly the tidied text of every cell, in column order |
| Extract.ReadRowTidy | scrape-lmarena.mjs:38-39 | every cell read is tidy, keeps its text's characters other than white space in order, and is empty exactly when the text is all white space |
| Extract.ReadRowFixed | scrape-lmarena.mjs:38-39 | a row whose cell texts are already tidy is read as it is |
| Extract.ExtractTableRows | scrape-lmarena.mjs:30-67 | the loop returns the records of the kept rows, read with tidied cells, in row order, less those without a model name or a non-zero score; every returned record has both |
| Extract.SurvivorsAppend | scrape-lmarena.mjs:31-67 | the records of two runs of rows are those of the first followed by those of the second, so output order follows row order |
| Extract.SurvivorsOfOne | scrape-lmarena.mjs:36-67 | one row yields its record exactly when it passes the filter and the record has a model name and a non-zero score |
| Extract.SurvivorsMembership | scrape-lmarena.mjs:36-67 | a record is returned exactly when it has a model name and a non-zero score and some kept row extracts to it |
| Extract.SurvivorsBound | scrape-lmarena.mjs:30-67 | no row yields more than one record |
| Extract.MissingModelDropped | scrape-lmarena.mjs:51-67 | a one-cell row without a link, or a row whose link text is blank, has no model name and is never returned |
| Extract.ScoreMissing | scrape-lmarena.mjs:56 | the score is null exactly when the first marker cell holds no digit, or when no cell has the marker and none starts with three digits |
| Extract.ScoreFromFallback | scrape-lmarena.mjs:56 | without a marker cell the score is read from the first cell starting with three digits |
| Extract.VotesFromCell | scrape-lmarena.mjs:57 | the votes are read from the first cell mentioning "vote" in any case |
| Extract.VotesFallback | scrape-lmarena.mjs:57 | without such a cell the votes are read from the third-last cell, or the first cell when the row has fewer than three |
| Extract.TypicalRowKept | scrape-lmarena.mjs:40-45 | the row `1, Model-Z, 1234 ± 5, 12,345 votes, OpenAI, Proprietary` is kept |
| Extract.TypicalRowScore | scrape-lmarena.mjs:56 | in that row no cell has the two-character marker, so the score comes from `1234 ± 5` through the fallback |
| Extract.RankReadAsScore | scrape-lmarena.mjs:56 | in the row `100, Model-Z, 1234 ± 5, 5,000 votes` the rank cell is taken as the score, which reads 100 |
| Extract.TypicalRowVotes | scrape-lmarena.mjs:57 | the typical row's votes come from `12,345 votes` and read 12 |
| Extract.TypicalRowOrganization | scrape-lmarena.mjs:60 | the typical row's organization is `OpenAI`, the first cell naming one |
| Extract.TypicalRowLicense | scrape-lmarena.mjs:62 | the typical row's license is `Proprietary`, the first cell naming one |
| Extract.TypicalRowRecord | scrape-lmarena.mjs:49-63 | without a link, the typical row gives the record rank 1, model `Model-Z`, score 1234, votes 12, organization `OpenAI`, license `Proprietary` |
| Extract.TidiedOpenModelIsLicense | scrape-lmarena.mjs:62 | a cell `"Open \t Model"` names a license once line 39 has tidied it, because its words are kept apart by one space |
| Extract.TypicalCellsNameNothing | scrape-lmarena.mjs:60-62 | `Model-Z`, `1234 ± 5` and `12,345 votes` name neither an organization nor a license |
| Extract.TypicalOrganizationCell | scrape-lmarena.mjs:60-62 | `OpenAI` names an organization and no license |
| Extract.NamesNoOrganization | scrape-lmarena.mjs:60 | a cell holding none of the letters p, a, g, i, n, c, b, q in either case matches no alternative of the organization pattern |
| Extract.NamesNoLicense | scrape-lmarena.mjs:62 | a cell holding none of the letters i, a, p, c, g in either case matches no alternative of the license pattern |
| Extract.MentionsNoneBy | scrape-lmarena.mjs:60-62 | a case-insensitive alternation does not match a cell when every alternative holds a letter that the cell lacks in both cases |
| Extract.VotesFallbackDoesNotScan | scrape-lmarena.mjs:57 | in `1, Model-A, 1234, n/a, -, 5000` the votes come from `n/a`, although `5000` parses |
| Extract.ModelNameTakenAsOrganization | scrape-lmarena.mjs:60-61 | in `2, Mistral-Large, 1251, 3200, Mistral` the organization is the model-name cell |
| Extract.ZeroScoreRowKept | scrape-lmarena.mjs:43-45 | the row `1, Model-Q, 000` passes the filter |
| Extract.ZeroScoreRowScore | scrape-lmarena.mjs:56 | its score is read from `000` and is zero |
| Extract.ZeroScoreDropped | scrape-lmarena.mjs:67 | a row whose score reads as zero is never returned |
| Scrape.ArenaUrl | scrape-lmarena.mjs:71 | the page URL is the base, a slash, then the slug |
| Scrape.ArenaUrlInjective | scrape-lmarena.mjs:71-84 | two arenas share a source URL exactly when they are the same arena |
| Scrape.Shape | scrape-lmarena.mjs:76-85 | the mapping yields one table row per record |
| Scrape.ScrapeArenaRows | scrape-lmarena.mjs:75-85 | each table row names the arena and its page, and carries the rank position, model, score, organization, votes and license of the record at the same position |
| Scrape.ScrapeArenaTruthy | scrape-lmarena.mjs:67-85 | every table row has a non-empty model name and a non-zero score |
| Scrape.ScrapeArenaEmpty | scrape-lmarena.mjs:75-76 | an arena yields no table rows exactly when no record survives extraction |
| Scrape.RankKept | scrape-lmarena.mjs:78 | a parsed rank, zero included, is the rank position |
| Scrape.RankFallback | scrape-lmarena.mjs:78 | a record without a parsed rank is ranked by its 1-based position among the returned records |
| Scrape.FallbackKeysDistinct | scrape-lmarena.mjs:78-105 | when no record has a parsed rank, no two payload rows agree on the conflict-key columns |
| Scrape.SameRankSameKey | scrape-lmarena.mjs:78-105 | two records with the same parsed rank and model name agree on the conflict-key columns |
| Scrape.Payload | scrape-lmarena.mjs:101 | the payload has one element per table row |
| Scrape.PayloadRows | scrape-lmarena.mjs:101 | every payload row carries the run's timestamp, its table row's fields, and that same row as `row_json` |
| Run.Logs | scrape-lmarena.mjs:94-116 | the run logs one entry per arena |
| Run.RunArenas | scrape-lmarena.mjs:94-116 | the loop's log and upserts are those of each arena taken on its own, in list order |
| Run.ScrapeAll | scrape-lmarena.mjs:88-116 | the run over the nine arenas, with one timestamp, logs and sends what `Logs` and `Sent` say |
| Run.NextArena | scrape-lmarena.mjs:94-116 | visiting one more arena appends exactly its own log entry and its upsert, if it sends one |
| Run.LogFollowsArenas | scrape-lmarena.mjs:94-116 | the k-th log entry is about the k-th arena |
| Run.ArenasIsolated | scrape-lmarena.mjs:95-115 | in the per-arena specification the loop is checked against, an arena's logged outcome depends only on its own page and upsert; that the loop meets it is `Run.RunArenas` with `Run.LogFollowsArenas` |
| Run.SentAppend | scrape-lmarena.mjs:94-105 | the upserts of a run split into those of its two halves |
| Run.SentMembership | scrape-lmarena.mjs:96-105 | an upsert is sent exactly for the arenas whose page loaded and gave at least one row |
| Run.UpsertedArenas | scrape-lmarena.mjs:96-100 | an arena is among those reaching the upsert exactly when it is visited, its page rendered and it gave at least one row; there are no more of them than arenas visited |
| Run.SentCount | scrape-lmarena.mjs:96-105 | one upsert is sent per arena that reaches it, and no other |
| Run.UpsertedIffLogged | scrape-lmarena.mjs:96-114 | an arena reached the upsert exactly when it logged OK, an upsert error, or a failure thrown by the upsert |
| Run.OkMatchesBatch | scrape-lmarena.mjs:103-110 | an arena logs OK exactly when its upsert was sent and stored, and the count logged is the number of rows sent, never zero |
| Run.SentBatchesWellFormed | scrape-lmarena.mjs:91-105 | every upsert goes to the snapshot table with the conflict key, is non-empty, and all its rows carry the run's timestamp, one arena and its page, and `row_json` equal to their own fields |
| Run.AllPagesThrow | scrape-lmarena.mjs:94-116 | when every page throws, the run logs nine failures and sends nothing |

## Left out

- Browser access is not modelled. This covers launching the browser and loading
  and waiting for pages (lines 72-74). It also covers locating rows and cells
  (lines 27-34), reading `innerText`, and the anchor lookup with its swallowed
  exception (lines 52-55). A row arrives as its cell texts and the optional
  first-link text.
- Line 32 reads `.length` of a promise. The condition is therefore always false,
  and the `td, div[role="cell"]` locator is always used. This choice concerns
  only the DOM.
- The Supabase client and the upsert are not modelled (lines 2-6, 103-105). An
  upsert's result is an input. The conflict key and the table name are recorded
  as constants. What the database does on a conflict is the database's
  behaviour.
- Environment variables and `new Date().toISOString()` are left out. The
  timestamp is a parameter of the run.
- Closing the browser in `finally` is left out, and so is async sequencing.
- Log output is reduced to the kind of outcome, the slug and the OK count. The
  message texts and error objects are not modelled.
- Normalize.ToFloat: the value is the exact decimal number that the matched
  text denotes. `parseFloat`'s rounding to a double is not modelled.
- Normalize.ToInt: the value is the exact integer. `parseInt`'s loss of
  precision above 2^53, and its overflow to `Infinity`, are not modelled.
- Text.Lower: lower-casing and the `/i` flag act on ASCII letters only.
  Unicode case folding is not modelled.
- Text.Trim: the white-space set is JavaScript's, as a fixed set of characters.
  Strings are sequences of characters, not of UTF-16 code units.
