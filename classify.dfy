/**
 * The row filter of `extractTableRows` (scrape-lmarena.mjs, lines 36 and 40-45):
 * a rendered row is kept for extraction when it has a cell, its lower-cased
 * `" | "`-joined text holds a score-like number, and that text does not look
 * like the header row (it does not mention both "rank" and "model").
 */
module Classify {
  import opened Text

  /** The separator the cell texts are joined with. */
  const Separator: string := " | "

  /** `textCells.join(' | ').toLowerCase()`. */
  function Joined(cells: seq<string>): (r: string) {
    Lower(Join(cells, Separator))
  }

  /**
   * `/\d{3,4}(\.\d+)?/.test(joined)`. The optional fourth digit and fraction can
   * always match the empty string, so the test succeeds exactly when three digits
   * stand in a row; `ScorePatternIsDigitRun` proves this against the pattern's language.
   */
  predicate HasScore(joined: string) {
    HasDigitRun3(joined)
  }

  /** `joined.includes('rank') && joined.includes('model')`. */
  predicate LooksLikeHeader(joined: string) {
    Contains(joined, "rank") && Contains(joined, "model")
  }

  /** The row reaches extraction: it has cells, a score-like number, and is not the header. */
  predicate IsDataRow(cells: seq<string>) {
    |cells| > 0 && HasScore(Joined(cells)) && !LooksLikeHeader(Joined(cells))
  }

  // ---------------------------------------------------------------------------
  // The score pattern's language
  // ---------------------------------------------------------------------------

  /** `w` is `n` digits, optionally followed by a full stop and at least one digit. */
  ghost predicate ScoreLiteralWith(w: string, n: nat) {
    n <= |w| && AllDigits(w[..n])
    && (|w| == n || (w[n] == '.' && |w| >= n + 2 && AllDigits(w[n + 1..])))
  }

  /** `w` belongs to the language of `\d{3,4}(\.\d+)?`. */
  ghost predicate ScoreLiteral(w: string) {
    ScoreLiteralWith(w, 3) || ScoreLiteralWith(w, 4)
  }

  /** Some substring of `s` belongs to that language: what `RegExp.prototype.test` answers. */
  ghost predicate ScorePatternMatches(s: string) {
    exists i, j :: 0 <= i <= j <= |s| && ScoreLiteral(s[i..j])
  }

  /** The score test is exactly "three digits in a row". */
  lemma ScorePatternIsDigitRun(s: string)
    ensures ScorePatternMatches(s) <==> HasScore(s)
  {
    if ScorePatternMatches(s) {
      var i, j :| 0 <= i <= j <= |s| && ScoreLiteral(s[i..j]);
      var w := s[i..j];
      assert w[..3][0] == s[i] && w[..3][1] == s[i + 1] && w[..3][2] == s[i + 2];
      assert DigitsAt3(s, i);
    }
    if HasScore(s) {
      var i :| 0 <= i < |s| && DigitsAt3(s, i);
      var w := s[i..i + 3];
      assert w[..3] == w;
      assert ScoreLiteralWith(w, 3);
    }
  }

  // ---------------------------------------------------------------------------
  // The filter, cell by cell
  // ---------------------------------------------------------------------------

  /** Some cell, lower-cased, contains `pat`. */
  predicate SomeCellMentions(cells: seq<string>, pat: string) {
    exists k | 0 <= k < |cells| :: Contains(Lower(cells[k]), pat)
  }

  /** Some cell holds three digits in a row. */
  predicate SomeCellHasDigitRun(cells: seq<string>) {
    exists k | 0 <= k < |cells| :: HasDigitRun3(cells[k])
  }

  /**
   * The joined-text tests, read cell by cell: neither three digits nor the words
   * "rank" and "model" can straddle the separator, so a row is kept exactly when
   * it has a cell, some cell has three digits in a row, and not both words occur
   * (each in some cell, case-insensitively).
   */
  lemma {:induction false} IsDataRowByCells(cells: seq<string>)
    ensures IsDataRow(cells) <==>
              |cells| >= 1
              && SomeCellHasDigitRun(cells)
              && !(SomeCellMentions(cells, "rank") && SomeCellMentions(cells, "model"))
  {
    var lowered := LowerAll(cells);
    LowerJoin(cells, Separator);
    assert Joined(cells) == Join(lowered, Separator);
    DigitRunJoin(lowered, Separator);
    ContainsJoin(lowered, Separator, "rank");
    ContainsJoin(lowered, Separator, "model");
    forall k | 0 <= k < |cells| ensures HasDigitRun3(lowered[k]) <==> HasDigitRun3(cells[k]) {
      DigitRunLower(cells[k]);
    }
  }

  /** A row with a three-digit run in some cell and no cell mentioning "rank" is a data row. */
  lemma DataRowWithoutRank(cells: seq<string>, i: nat)
    requires i < |cells| && HasDigitRun3(cells[i])
    requires forall k :: 0 <= k < |cells| ==> !Contains(Lower(cells[k]), "rank")
    ensures IsDataRow(cells)
  {
    IsDataRowByCells(cells);
  }

  /** The header row `Rank | Model | Score | Votes` never reaches extraction. */
  lemma HeaderRowRejected()
    ensures !IsDataRow(["Rank", "Model", "Score", "Votes"])
  {
    var cells := ["Rank", "Model", "Score", "Votes"];
    IsDataRowByCells(cells);
    assert Contains(Lower(cells[0]), "rank") by {
      assert Lower(cells[0]) == "rank";
      assert OccursAt(Lower(cells[0]), "rank", 0);
    }
    assert Contains(Lower(cells[1]), "model") by {
      assert Lower(cells[1]) == "model";
      assert OccursAt(Lower(cells[1]), "model", 0);
    }
  }
}
