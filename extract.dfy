/**
 * Field extraction in `extractTableRows` (scrape-lmarena.mjs, lines 25-68):
 * every kept row's cell texts are mapped onto the record
 * `{rankUB, model, score, votes, organization, license}`, and records without
 * a model name or without a non-zero score are dropped at the end.
 *
 * The page layer (locating rows and cells, reading `innerText`, looking up
 * the row's first link) is not modelled: a row arrives as the `innerText` of
 * its cells and the text of its first link, if it has one. Line 39's tidying
 * of each cell text is modelled.
 */
module Extract {
  import opened Optional
  import opened Text
  import opened Normalize
  import opened Classify
  import opened Lists

  /**
   * One rendered row as the page gives it: the `innerText` of each cell in
   * column order, and the text of the row's first `a[href]` (`None` when the
   * row has no link, or reading it failed).
   */
  datatype PageRow = PageRow(texts: seq<string>, link: Option<string>)

  /** A row after line 39: its tidied cell texts and its link text. */
  datatype RawRow = RawRow(cells: seq<string>, link: Option<string>)

  /** Line 39, `textCells.push(text.trim().replace(/\s+/g, ' '))` for every cell in turn. */
  function ReadRow(p: PageRow): (row: RawRow)
    ensures |row.cells| == |p.texts| && row.link == p.link
  {
    RawRow(seq(|p.texts|, k requires 0 <= k < |p.texts| => TidyText(p.texts[k])), p.link)
  }

  /** Every row read in turn. */
  function ReadRows(ps: seq<PageRow>): (rows: seq<RawRow>)
    ensures |rows| == |ps|
  {
    seq(|ps|, i requires 0 <= i < |ps| => ReadRow(ps[i]))
  }

  /** The record pushed for a kept row; every field may be missing. */
  datatype Item = Item(
    rankUB: Option<int>,
    model: Option<string>,
    score: Option<real>,
    votes: Option<int>,
    organization: Option<string>,
    license: Option<string>)

  // ---------------------------------------------------------------------------
  // Looking cells up
  // ---------------------------------------------------------------------------

  /** `textCells[i]`: the cell at `i`, or `undefined` outside the array (negative indices included). */
  function CellAt(cells: seq<string>, i: int): (r: Option<string>)
    ensures r.Some? <==> 0 <= i < |cells|
    ensures r.Some? ==> r.value == cells[i]
  {
    if 0 <= i < |cells| then Some(cells[i]) else None
  }

  /** The index of the first cell satisfying `p`, scanning in column order. */
  function FirstIndex(cells: seq<string>, p: string -> bool): (r: Option<nat>)
    ensures r.Some? ==> r.value < |cells| && p(cells[r.value])
    ensures r.Some? ==> forall j :: 0 <= j < r.value ==> !p(cells[j])
    ensures r.None? <==> forall j :: 0 <= j < |cells| ==> !p(cells[j])
    decreases |cells|
  {
    if cells == [] then None
    else if p(cells[0]) then Some(0)
    else match FirstIndex(cells[1..], p)
      case None => None
      case Some(i) => Some(i + 1)
  }

  /** An index holding the first cell that satisfies `p` is the one the scan finds. */
  lemma FirstIndexIs(cells: seq<string>, p: string -> bool, i: nat)
    requires i < |cells| && p(cells[i])
    requires forall j :: 0 <= j < i ==> !p(cells[j])
    ensures FirstIndex(cells, p) == Some(i)
  {
  }

  /** `textCells.find(p)`: the first cell satisfying `p`, or `undefined`. */
  function Find(cells: seq<string>, p: string -> bool): (r: Option<string>)
    ensures r.Some? <==> FirstIndex(cells, p).Some?
    ensures r.Some? ==> r.value == cells[FirstIndex(cells, p).value] && p(r.value)
  {
    match FirstIndex(cells, p)
    case None => None
    case Some(i) => Some(cells[i])
  }

  // ---------------------------------------------------------------------------
  // The patterns of lines 56-63, as string predicates
  // ---------------------------------------------------------------------------

  /**
   * The uncertainty marker of line 56 is the two characters U+00C2 U+00B1
   * (the UTF-8 bytes of `±` read as Latin-1), not the single character `±`.
   */
  const UncertaintyMarker: string := "\U{00C2}\U{00B1}"

  /** `/Â±/.test(t)`: the cell contains the marker (case matters). */
  predicate HasUncertainty(t: string) {
    Contains(t, UncertaintyMarker)
  }

  /** `/^\d{3,4}/.test(t)`: the cell starts with three digits. */
  predicate StartsWithScore(t: string) {
    |t| >= 3 && IsDigit(t[0]) && IsDigit(t[1]) && IsDigit(t[2])
  }

  /** `/vote/i.test(t)`. */
  predicate MentionsVotes(t: string) {
    Contains(Lower(t), "vote")
  }

  /** The alternatives of the organization pattern, lower-cased (`z\.ai` is the text `z.ai`). */
  const OrganizationTokens: seq<string> := [
    "openai", "anthropic", "google", "meta", "alibaba", "minimax", "mistral", "z.ai",
    "microsoft", "tencent", "bytedance", "cohere", "stepfun", "perplexity", "nvidia",
    "qwen", "moonshot", "deepseek", "gemma", "gemini", "llama", "api", "ai",
    ".com", ".cn", ".co"]

  /** The alternatives of the license pattern, lower-cased. */
  const LicenseTokens: seq<string> := [
    "mit", "apache", "proprietary", "llama", "open model", "cc-", "gemma"]

  /** A case-insensitive alternation of lower-case ASCII words: one of them occurs in `t`. */
  predicate MentionsAny(t: string, tokens: seq<string>) {
    exists k | 0 <= k < |tokens| :: Contains(Lower(t), tokens[k])
  }

  /** The organization pattern of line 60 matches the cell. */
  predicate NamesOrganization(t: string) {
    MentionsAny(t, OrganizationTokens)
  }

  /** The license pattern of line 62 matches the cell. */
  predicate NamesLicense(t: string) {
    MentionsAny(t, LicenseTokens)
  }

  // ---------------------------------------------------------------------------
  // The field rules of lines 49-63
  // ---------------------------------------------------------------------------

  /** Line 51-55: the first link's trimmed text when there is a link, else the second cell. */
  function ModelText(row: RawRow): (r: Option<string>) {
    if row.link.Some? then Some(Trim(row.link.value)) else CellAt(row.cells, 1)
  }

  /** Line 56: the first cell with the marker, else the first cell starting with three digits. */
  function ScoreCell(cells: seq<string>): (r: Option<string>) {
    Find(cells, HasUncertainty).OrElse(Find(cells, StartsWithScore))
  }

  /**
   * Line 57: the first cell mentioning votes, else the third-last cell, else the
   * second-last, else the last. `??` only skips indices outside the row, never
   * a cell that does not parse.
   */
  function VotesCell(cells: seq<string>): (r: Option<string>) {
    Find(cells, MentionsVotes)
      .OrElse(CellAt(cells, |cells| - 3))
      .OrElse(CellAt(cells, |cells| - 2))
      .OrElse(CellAt(cells, |cells| - 1))
  }

  /** The record pushed at line 65 for a row that passed the filter. */
  function ExtractFields(row: RawRow): (r: Item) {
    Item(
      ToInt(CellAt(row.cells, 0)),
      ModelText(row),
      ToFloat(ScoreCell(row.cells)),
      ToInt(VotesCell(row.cells)),
      Find(row.cells, NamesOrganization),
      Find(row.cells, NamesLicense))
  }

  /** Line 67, `r.model && r.score`: a non-empty model name and a score that is neither missing nor zero. */
  predicate Truthy(item: Item) {
    item.model.Some? && item.model.value != "" && item.score.Some? && item.score.value != 0.0
  }

  // ---------------------------------------------------------------------------
  // The loop over the rows (lines 30-67)
  // ---------------------------------------------------------------------------

  /** The row passes the filter of lines 31-45: it has cells, a score-like number, and is not the header. */
  predicate Kept(row: RawRow) {
    IsDataRow(row.cells)
  }

  /** The records pushed for `rows`, in row order: one per row that passes the filter. */
  function Candidates(rows: seq<RawRow>): (r: seq<Item>) {
    FilterMap(rows, Kept, ExtractFields)
  }

  /** What `extractTableRows` returns for `rows`: the pushed records with a model name and a score. */
  function Survivors(rows: seq<RawRow>): (r: seq<Item>) {
    Filter(Candidates(rows), Truthy)
  }

  /**
   * `extractTableRows`: walks the rows in order, skips rows without cells,
   * without a score-like number or that look like the header, pushes the
   * extracted record of every other row, and finally drops records without a
   * model name or score.
   */
  method ExtractTableRows(rows: seq<PageRow>) returns (result: seq<Item>)
    ensures result == Survivors(ReadRows(rows))
    ensures forall k :: 0 <= k < |result| ==> Truthy(result[k])
  {
    var items: seq<Item> := [];
    for i := 0 to |rows|
      invariant items == Candidates(ReadRows(rows[..i]))
    {
      CandidatesStep(rows, i);
      var texts := rows[i].texts;
      if |texts| == 0 {
        continue;
      }
      var cells := TidyCells(rows[i]);
      var joined := Joined(cells);
      var hasScore := HasScore(joined);
      var looksLikeHeader := LooksLikeHeader(joined);
      if !hasScore || looksLikeHeader {
        continue;
      }
      var rankUB := ToInt(CellAt(cells, 0));
      var model := CellAt(cells, 1);
      if rows[i].link.Some? {
        model := Some(Trim(rows[i].link.value));
      }
      var score := ToFloat(ScoreCell(cells));
      var votes := ToInt(VotesCell(cells));
      var organization := Find(cells, NamesOrganization);
      var license := Find(cells, NamesLicense);
      items := items + [Item(rankUB, model, score, votes, organization, license)];
    }
    assert rows[..|rows|] == rows;
    result := Filter(items, Truthy);
  }

  /** Reading one more row adds that row's record, when it is kept, to the records pushed. */
  lemma CandidatesStep(rows: seq<PageRow>, i: nat)
    requires i < |rows|
    ensures Candidates(ReadRows(rows[..i + 1]))
            == Candidates(ReadRows(rows[..i])) + (if Kept(ReadRow(rows[i])) then [ExtractFields(ReadRow(rows[i]))] else [])
  {
    var read := ReadRows(rows[..i + 1]);
    assert read[..i] == ReadRows(rows[..i]);
  }

  /** Lines 38-39: the loop pushing each cell's tidied text, in column order. */
  method TidyCells(p: PageRow) returns (cells: seq<string>)
    ensures cells == ReadRow(p).cells
  {
    cells := [];
    for j := 0 to |p.texts|
      invariant |cells| == j
      invariant forall k :: 0 <= k < j ==> cells[k] == TidyText(p.texts[k])
    {
      cells := cells + [TidyText(p.texts[j])];
    }
  }

  /**
   * Every cell a row is read into is tidy, keeps the characters of its text
   * other than white space in order, and is empty exactly when the text is
   * all white space.
   */
  lemma ReadRowTidy(p: PageRow)
    ensures forall k :: 0 <= k < |p.texts| ==>
              var cell := ReadRow(p).cells[k];
              Tidy(cell) && Visible(cell) == Visible(p.texts[k])
              && (cell == "" <==> forall j :: 0 <= j < |p.texts[k]| ==> IsJsSpace(p.texts[k][j]))
  {
    forall k | 0 <= k < |p.texts| ensures Visible(ReadRow(p).cells[k]) == Visible(p.texts[k]) {
      TidyKeepsVisible(p.texts[k]);
    }
  }

  /** A row whose cell texts are already tidy is read as it is. */
  lemma ReadRowFixed(p: PageRow)
    requires forall k :: 0 <= k < |p.texts| ==> Tidy(p.texts[k])
    ensures ReadRow(p) == RawRow(p.texts, p.link)
  {
    forall k | 0 <= k < |p.texts| ensures ReadRow(p).cells[k] == p.texts[k] {
      TidyFixed(p.texts[k]);
    }
  }

  // ---------------------------------------------------------------------------
  // Properties of the returned records
  // ---------------------------------------------------------------------------

  /** Extraction commutes with splitting the rows: output order follows row order. */
  lemma SurvivorsAppend(a: seq<RawRow>, b: seq<RawRow>)
    ensures Survivors(a + b) == Survivors(a) + Survivors(b)
  {
    FilterMapAppend(a, b, Kept, ExtractFields);
    FilterAppend(Candidates(a), Candidates(b), Truthy);
  }

  /** A single row yields its record exactly when it passes the filter and the record is truthy. */
  lemma SurvivorsOfOne(row: RawRow)
    ensures Survivors([row]) == if Kept(row) && Truthy(ExtractFields(row)) then [ExtractFields(row)] else []
  {
    assert [row][..0] == [];
  }

  /**
   * A record is returned exactly when some row passes the filter and extracts
   * to that record, and the record has a model name and a non-zero score.
   */
  lemma SurvivorsMembership(rows: seq<RawRow>, x: Item)
    ensures x in Survivors(rows) <==>
              Truthy(x) && exists i :: 0 <= i < |rows| && IsDataRow(rows[i].cells) && ExtractFields(rows[i]) == x
  {
    FilterMembership(Candidates(rows), Truthy, x);
    FilterMapMembership(rows, Kept, ExtractFields, x);
  }

  /** No row yields more than one record. */
  lemma SurvivorsBound(rows: seq<RawRow>)
    ensures |Survivors(rows)| <= |rows|
  {
  }

  /** A row whose model ends up missing or empty is never returned: a one-cell row without a link, or a blank link. */
  lemma MissingModelDropped(row: RawRow)
    requires (row.link.None? && |row.cells| < 2)
          || (row.link.Some? && forall k :: 0 <= k < |row.link.value| ==> IsJsSpace(row.link.value[k]))
    ensures !Truthy(ExtractFields(row))
    ensures Survivors([row]) == []
  {
    SurvivorsOfOne(row);
  }

  /**
   * The score is missing exactly when the first marker cell holds no digit
   * (the `??` fallback is then not taken), or when no cell has the marker and
   * no cell starts with three digits.
   */
  lemma ScoreMissing(cells: seq<string>)
    ensures ToFloat(ScoreCell(cells)).None? <==>
              match FirstIndex(cells, HasUncertainty)
              case Some(i) => forall c :: c in cells[i] ==> !IsDigit(c)
              case None => forall k :: 0 <= k < |cells| ==> !StartsWithScore(cells[k])
  {
    ToFloatNoneIffNoDigit(ScoreCell(cells));
    match FirstIndex(cells, HasUncertainty)
    case Some(i) =>
    case None =>
      match FirstIndex(cells, StartsWithScore)
      case None =>
      case Some(j) =>
        assert cells[j][0] in cells[j];
  }

  /**
   * Without a cell mentioning votes, the vote count is read from the third-last
   * cell (the first cell in rows of one or two cells), whether or not it parses.
   */
  lemma VotesFallback(cells: seq<string>)
    requires |cells| >= 1
    requires forall k :: 0 <= k < |cells| ==> !MentionsVotes(cells[k])
    ensures VotesCell(cells) == Some(cells[if |cells| >= 3 then |cells| - 3 else 0])
  {
  }

  /** With no marker cell, the score is read from the first cell starting with three digits. */
  lemma ScoreFromFallback(cells: seq<string>, i: nat)
    requires forall k :: 0 <= k < |cells| ==> !HasUncertainty(cells[k])
    requires i < |cells| && StartsWithScore(cells[i])
    requires forall k :: 0 <= k < i ==> !StartsWithScore(cells[k])
    ensures ScoreCell(cells) == Some(cells[i])
  {
    FirstIndexIs(cells, StartsWithScore, i);
  }

  /** The vote count is read from the first cell mentioning votes. */
  lemma VotesFromCell(cells: seq<string>, i: nat)
    requires i < |cells| && MentionsVotes(cells[i])
    requires forall k :: 0 <= k < i ==> !MentionsVotes(cells[k])
    ensures VotesCell(cells) == Some(cells[i])
  {
    FirstIndexIs(cells, MentionsVotes, i);
  }

  // ---------------------------------------------------------------------------
  // Rows the scraper's behaviour is known by
  // ---------------------------------------------------------------------------

  /**
   * A typical row: rank, name, `1234 ± 5`, `12,345 votes`, organization,
   * license. It is a data row: it holds a three-digit run and no cell
   * mentions "rank".
   */
  lemma TypicalRowKept(cells: seq<string>)
    requires cells == ["1", "Model-Z", "1234 \U{00B1} 5", "12,345 votes", "OpenAI", "Proprietary"]
    ensures IsDataRow(cells)
  {
    AbsentLetter(cells[0], "rank", 3);
    AbsentLetter(cells[1], "rank", 3);
    AbsentLetter(cells[2], "rank", 3);
    AbsentLetter(cells[3], "rank", 3);
    AbsentLetter(cells[4], "rank", 3);
    AbsentLetter(cells[5], "rank", 3);
    assert DigitsAt3(cells[2], 0);
    DataRowWithoutRank(cells, 2);
  }

  /**
   * The typical row's score comes from the three-digit fallback: the page
   * shows the single character `±`, never the two-character marker.
   */
  lemma TypicalRowScore(cells: seq<string>)
    requires cells == ["1", "Model-Z", "1234 \U{00B1} 5", "12,345 votes", "OpenAI", "Proprietary"]
    ensures ScoreCell(cells) == Some(cells[2])
  {
    forall k | 0 <= k < |cells| ensures !HasUncertainty(cells[k]) {
      AbsentChar(cells[k], UncertaintyMarker, 0);
    }
    ScoreFromFallback(cells, 2);
  }

  /**
   * The typical row's organization is `OpenAI`: it is the first cell naming
   * an organization.
   */
  lemma TypicalRowOrganization(cells: seq<string>)
    requires cells == ["1", "Model-Z", "1234 \U{00B1} 5", "12,345 votes", "OpenAI", "Proprietary"]
    ensures Find(cells, NamesOrganization) == Some("OpenAI")
  {
    OrganizationTokensLong();
    TooShortToName(cells[0], OrganizationTokens);
    TypicalCellsNameNothing(cells[1], cells[2], cells[3]);
    TypicalOrganizationCell(cells[4]);
    FirstIndexIs(cells, NamesOrganization, 4);
  }

  /** The typical row's license is `Proprietary`: it is the first cell naming a license. */
  lemma TypicalRowLicense(cells: seq<string>)
    requires cells == ["1", "Model-Z", "1234 \U{00B1} 5", "12,345 votes", "OpenAI", "Proprietary"]
    ensures Find(cells, NamesLicense) == Some("Proprietary")
  {
    TooShortToName(cells[0], LicenseTokens);
    TypicalCellsNameNothing(cells[1], cells[2], cells[3]);
    TypicalOrganizationCell(cells[4]);
    assert LicenseTokens[2] == "proprietary";
    MentionsAtStart(cells[5], LicenseTokens, 2);
    FirstIndexIs(cells, NamesLicense, 5);
  }

  /** A license cell with a tab between `Open` and `Model` still names a license once tidied. */
  lemma TidiedOpenModelIsLicense(s: string)
    requires s == "Open \t Model"
    ensures NamesLicense(TidyText(s))
  {
    TidyOpenModel(s);
    var t := TidyText(s);
    assert LicenseTokens[4] == "open model";
    assert forall j :: 0 <= j < |LicenseTokens[4]| ==> LowerChar(t[j]) == LicenseTokens[4][j];
    MentionsAtStart(t, LicenseTokens, 4);
  }

  /** The typical row's name, score and vote cells name neither an organization nor a license. */
  lemma TypicalCellsNameNothing(name: string, score: string, votes: string)
    requires name == "Model-Z" && score == "1234 \U{00B1} 5" && votes == "12,345 votes"
    ensures !NamesOrganization(name) && !NamesLicense(name)
    ensures !NamesOrganization(score) && !NamesLicense(score)
    ensures !NamesOrganization(votes) && !NamesLicense(votes)
  {
    NamesNoOrganization(name);
    NamesNoLicense(name);
    NamesNoOrganization(score);
    NamesNoLicense(score);
    NamesNoOrganization(votes);
    NamesNoLicense(votes);
  }

  /**
   * `OpenAI` names an organization but no license: every license token holds
   * one of `m c r l g`, and the cell holds none of them in either case.
   */
  lemma TypicalOrganizationCell(t: string)
    requires t == "OpenAI"
    ensures NamesOrganization(t) && !NamesLicense(t)
  {
    assert OrganizationTokens[0] == "openai";
    MentionsAtStart(t, OrganizationTokens, 0);
    var w, clues := [0, 3, 1, 0, 5, 0, 0], {'m', 'c', 'r', 'l', 'g', 'M', 'C', 'R', 'L', 'G'};
    assert forall k :: 0 <= k < |LicenseTokens| ==> w[k] < |LicenseTokens[k]| && LicenseTokens[k][w[k]] in clues;
    MentionsNoneBy(t, LicenseTokens, w, clues);
  }

  /**
   * A cell holding none of the letters `p a g i n c b q`, in either case,
   * names no organization: every organization token contains one of them.
   */
  lemma NamesNoOrganization(t: string)
    requires forall j :: 0 <= j < |t| ==> t[j] !in OrganizationClues
    ensures !NamesOrganization(t)
  {
    var w := [1, 0, 0, 3, 0, 1, 1, 2, 1, 2, 0, 0, 3, 0, 0, 0, 3, 3, 0, 0, 2, 0, 0, 1, 1, 1];
    assert forall k :: 0 <= k < |OrganizationTokens| ==>
             w[k] < |OrganizationTokens[k]| && OrganizationTokens[k][w[k]] in OrganizationClues;
    MentionsNoneBy(t, OrganizationTokens, w, OrganizationClues);
  }

  /** Letters of which every organization token holds at least one, in both cases. */
  const OrganizationClues: set<char> :=
    {'p', 'a', 'g', 'i', 'n', 'c', 'b', 'q', 'P', 'A', 'G', 'I', 'N', 'C', 'B', 'Q'}

  /**
   * A cell holding none of the letters `i a p c g`, in either case, names no
   * license: every license token contains one of them.
   */
  lemma NamesNoLicense(t: string)
    requires forall j :: 0 <= j < |t| ==> t[j] !in LicenseClues
    ensures !NamesLicense(t)
  {
    var w := [1, 0, 0, 2, 1, 0, 0];
    assert forall k :: 0 <= k < |LicenseTokens| ==> w[k] < |LicenseTokens[k]| && LicenseTokens[k][w[k]] in LicenseClues;
    MentionsNoneBy(t, LicenseTokens, w, LicenseClues);
  }

  /** Letters of which every license token holds at least one, in both cases. */
  const LicenseClues: set<char> := {'i', 'a', 'p', 'c', 'g', 'I', 'A', 'P', 'C', 'G'}

  /** The whole record read from the typical row when the name is not a link. */
  lemma TypicalRowRecord(cells: seq<string>)
    requires cells == ["1", "Model-Z", "1234 \U{00B1} 5", "12,345 votes", "OpenAI", "Proprietary"]
    ensures ExtractFields(RawRow(cells, None))
            == Item(Some(1), Some("Model-Z"), Some(1234.0), Some(12), Some("OpenAI"), Some("Proprietary"))
  {
    ReadsOne(cells[0]);
    TypicalRowScore(cells);
    ToFloatScoreWithMargin(cells[2]);
    TypicalRowVotes(cells);
    TypicalRowOrganization(cells);
    TypicalRowLicense(cells);
  }

  /**
   * With the page's single-character `±`, a rank of 100 or more starts with
   * three digits and is read as the score: the rank column comes before the
   * score column.
   */
  lemma RankReadAsScore(cells: seq<string>)
    requires cells == ["100", "Model-Z", "1234 \U{00B1} 5", "5,000 votes"]
    ensures ScoreCell(cells) == Some(cells[0])
    ensures ToFloat(ScoreCell(cells)) == Some(100.0)
  {
    AbsentChar(cells[0], UncertaintyMarker, 0);
    AbsentChar(cells[1], UncertaintyMarker, 0);
    AbsentChar(cells[2], UncertaintyMarker, 0);
    AbsentChar(cells[3], UncertaintyMarker, 0);
    ScoreFromFallback(cells, 0);
    ToFloatHundred(cells[0]);
  }

  /** The typical row's vote count is read from the cell mentioning votes, `12,345 votes`, which gives 12. */
  lemma TypicalRowVotes(cells: seq<string>)
    requires cells == ["1", "Model-Z", "1234 \U{00B1} 5", "12,345 votes", "OpenAI", "Proprietary"]
    ensures VotesCell(cells) == Some(cells[3])
    ensures ToInt(VotesCell(cells)) == Some(12)
  {
    forall k | 0 <= k < 3 ensures !MentionsVotes(cells[k]) {
      AbsentLetter(cells[k], "vote", 0);
    }
    assert OccursAt(Lower(cells[3]), "vote", 7);
    VotesFromCell(cells, 3);
    ToIntCommaVotes(cells[3]);
  }

  /**
   * The vote fallback takes the third-last cell even when it does not parse:
   * `n/a` gives no vote count although the last cell holds a number.
   */
  lemma VotesFallbackDoesNotScan(cells: seq<string>)
    requires cells == ["1", "Model-A", "1234", "n/a", "-", "5000"]
    ensures VotesCell(cells) == Some("n/a")
  {
    forall k | 0 <= k < |cells| ensures !MentionsVotes(cells[k]) {
      AbsentLetter(cells[k], "vote", 0);
    }
    VotesFallback(cells);
  }

  /**
   * The organization is the first cell naming one, so a model name that
   * mentions its maker is taken for the organization.
   */
  lemma ModelNameTakenAsOrganization(cells: seq<string>)
    requires cells == ["2", "Mistral-Large", "1251", "3200", "Mistral"]
    ensures Find(cells, NamesOrganization) == Some(cells[1])
  {
    OrganizationTokensLong();
    TooShortToName(cells[0], OrganizationTokens);
    assert OrganizationTokens[6] == "mistral";
    MentionsAtStart(cells[1], OrganizationTokens, 6);
    FirstIndexIs(cells, NamesOrganization, 1);
  }

  /** Every organization token has at least two characters. */
  lemma OrganizationTokensLong()
    ensures forall k :: 0 <= k < |OrganizationTokens| ==> |OrganizationTokens[k]| >= 2
  {
  }

  /** A cell of fewer than two characters names nothing from a list of longer tokens. */
  lemma TooShortToName(t: string, tokens: seq<string>)
    requires |t| < 2
    requires forall k :: 0 <= k < |tokens| ==> |tokens[k]| >= 2
    ensures !MentionsAny(t, tokens)
  {
  }

  /**
   * A cell names none of the tokens when each token holds, at the index `w`
   * gives, one of the characters `clues`, the cell holds none of them, and
   * `clues` holds every lower-case letter in upper case too.
   */
  lemma MentionsNoneBy(t: string, tokens: seq<string>, w: seq<nat>, clues: set<char>)
    requires |w| == |tokens|
    requires forall k :: 0 <= k < |tokens| ==> w[k] < |tokens[k]| && tokens[k][w[k]] in clues
    requires forall c | c in clues :: 'a' <= c <= 'z' ==> (c as int - 32) as char in clues
    requires forall j :: 0 <= j < |t| ==> t[j] !in clues
    ensures !MentionsAny(t, tokens)
  {
    forall j | 0 <= j < |t| ensures Lower(t)[j] !in clues {
      if 'A' <= t[j] <= 'Z' {
        assert (LowerChar(t[j]) as int - 32) as char == t[j];
      }
    }
    forall k | 0 <= k < |tokens| ensures !Contains(Lower(t), tokens[k]) {
      assert tokens[k][w[k]] !in Lower(t);
      AbsentChar(Lower(t), tokens[k], w[k]);
    }
  }

  /** A cell whose lower-cased text starts with a token mentions it. */
  lemma MentionsAtStart(t: string, tokens: seq<string>, k: nat)
    requires k < |tokens| && |tokens[k]| <= |t|
    requires forall j :: 0 <= j < |tokens[k]| ==> LowerChar(t[j]) == tokens[k][j]
    ensures MentionsAny(t, tokens)
  {
    assert OccursAt(Lower(t), tokens[k], 0);
  }

  /** A row scoring `000` passes the filter ... */
  lemma ZeroScoreRowKept(cells: seq<string>)
    requires cells == ["1", "Model-Q", "000"]
    ensures IsDataRow(cells)
  {
    AbsentLetter(cells[0], "rank", 0);
    AbsentLetter(cells[1], "rank", 0);
    AbsentLetter(cells[2], "rank", 0);
    assert DigitsAt3(cells[2], 0);
    DataRowWithoutRank(cells, 2);
  }

  /** ... but reads its score from `000`, which is zero, so it is dropped. */
  lemma ZeroScoreRowScore(cells: seq<string>)
    requires cells == ["1", "Model-Q", "000"]
    ensures ScoreCell(cells) == Some(cells[2])
    ensures ToFloat(ScoreCell(cells)) == Some(0.0)
  {
    AbsentChar(cells[0], UncertaintyMarker, 0);
    AbsentChar(cells[1], UncertaintyMarker, 0);
    AbsentChar(cells[2], UncertaintyMarker, 0);
    ScoreFromFallback(cells, 2);
    ToFloatZeros(cells[2]);
  }

  /** A row whose score reads as zero is dropped even though it passed the filter. */
  lemma ZeroScoreDropped(row: RawRow)
    requires ToFloat(ScoreCell(row.cells)) == Some(0.0)
    ensures Survivors([row]) == []
  {
    SurvivorsOfOne(row);
  }
}
