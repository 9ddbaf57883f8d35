/**
 * Character and string helpers shared by the normalisers, the row classifier
 * and the field extractor: ASCII digits and lower-casing (what `\d` and the `/i`
 * flag mean for the scraper's ASCII patterns), substring search, the
 * `Array.prototype.join` of the cell texts and `String.prototype.trim`.
 */
module Text {
  import opened Lists

  /** `\d` without the `u` flag: an ASCII decimal digit. */
  predicate IsDigit(c: char) {
    '0' <= c <= '9'
  }

  /** Every character of `ds` is an ASCII digit. */
  predicate AllDigits(ds: string) {
    forall k :: 0 <= k < |ds| ==> IsDigit(ds[k])
  }

  /** Lower-casing of one character, restricted to ASCII letters. */
  function LowerChar(c: char): (r: char)
    ensures IsDigit(r) <==> IsDigit(c)
    ensures 'A' <= c <= 'Z' ==> 'a' <= r <= 'z'
    ensures !('A' <= c <= 'Z') ==> r == c
  {
    if 'A' <= c <= 'Z' then (c as int + 32) as char else c
  }

  /** `toLowerCase()` on ASCII letters; every other character is kept. */
  function Lower(s: string): (r: string)
    ensures |r| == |s|
    ensures forall i :: 0 <= i < |s| ==> r[i] == LowerChar(s[i])
  {
    seq(|s|, i requires 0 <= i < |s| => LowerChar(s[i]))
  }

  /** `pat` occurs in `s` starting at position `i`. */
  predicate OccursAt(s: string, pat: string, i: int) {
    0 <= i <= |s| - |pat| && s[i..i + |pat|] == pat
  }

  /** `s.includes(pat)`: `pat` occurs in `s` at some position. */
  predicate Contains(s: string, pat: string) {
    exists i | 0 <= i <= |s| - |pat| :: OccursAt(s, pat, i)
  }

  /** A pattern holding a character that `s` lacks does not occur in `s`. */
  lemma AbsentChar(s: string, pat: string, k: nat)
    requires k < |pat| && pat[k] !in s
    ensures !Contains(s, pat)
  {
    forall i | 0 <= i <= |s| - |pat| ensures !OccursAt(s, pat, i) {
      assert s[i + k] in s;
      assert s[i..i + |pat|][k] == s[i + k];
    }
  }

  /** The same for a lower-case letter that `s` lacks in both cases, searched case-insensitively. */
  lemma AbsentLetter(s: string, pat: string, k: nat)
    requires k < |pat| && 'a' <= pat[k] <= 'z'
    requires pat[k] !in s && (pat[k] as int - 32) as char !in s
    ensures !Contains(Lower(s), pat)
  {
    forall i | 0 <= i < |s| ensures Lower(s)[i] != pat[k] {
      assert s[i] in s;
    }
    AbsentChar(Lower(s), pat, k);
  }

  /** Three ASCII digits in a row start at position `i` of `s`. */
  predicate DigitsAt3(s: string, i: int) {
    0 <= i && i + 2 < |s| && IsDigit(s[i]) && IsDigit(s[i + 1]) && IsDigit(s[i + 2])
  }

  /** `s` holds a run of at least three ASCII digits. */
  predicate HasDigitRun3(s: string) {
    exists i | 0 <= i < |s| :: DigitsAt3(s, i)
  }

  /** `cells.join(sep)`: the cells in order, `sep` between neighbours. */
  function Join(cells: seq<string>, sep: string): (r: string)
    decreases |cells|
  {
    if |cells| == 0 then ""
    else if |cells| == 1 then cells[0]
    else cells[0] + sep + Join(cells[1..], sep)
  }

  /** The characters `String.prototype.trim` removes: white space and line terminators. */
  const JsSpaces: set<char> := {
    '\t', '\n', '\U{000B}', '\U{000C}', '\r', ' ', '\U{00A0}', '\U{1680}',
    '\U{2000}', '\U{2001}', '\U{2002}', '\U{2003}', '\U{2004}', '\U{2005}', '\U{2006}',
    '\U{2007}', '\U{2008}', '\U{2009}', '\U{200A}',
    '\U{2028}', '\U{2029}', '\U{202F}', '\U{205F}', '\U{3000}', '\U{FEFF}'}

  predicate IsJsSpace(c: char) {
    c in JsSpaces
  }

  /** The end of the white space starting at `i`. */
  function SkipSpaces(s: string, i: nat): (j: nat)
    requires i <= |s|
    ensures i <= j <= |s|
    ensures forall k :: i <= k < j ==> IsJsSpace(s[k])
    ensures j < |s| ==> !IsJsSpace(s[j])
    decreases |s| - i
  {
    if i < |s| && IsJsSpace(s[i]) then SkipSpaces(s, i + 1) else i
  }

  /** The start of the white space ending at `j`, going no further back than `lo`. */
  function SkipSpacesBack(s: string, lo: nat, j: nat): (e: nat)
    requires lo <= j <= |s|
    ensures lo <= e <= j
    ensures forall k :: e <= k < j ==> IsJsSpace(s[k])
    ensures e > lo ==> !IsJsSpace(s[e - 1])
    decreases j
  {
    if j > lo && IsJsSpace(s[j - 1]) then SkipSpacesBack(s, lo, j - 1) else j
  }

  /**
   * `s.trim()`: the slice of `s` left when white space is cut from both ends.
   * The result is empty exactly when `s` is all white space.
   */
  function Trim(s: string): (r: string)
    ensures exists i, j :: 0 <= i <= j <= |s| && r == s[i..j]
                           && (forall k :: 0 <= k < i ==> IsJsSpace(s[k]))
                           && (forall k :: j <= k < |s| ==> IsJsSpace(s[k]))
    ensures |r| > 0 ==> !IsJsSpace(r[0]) && !IsJsSpace(r[|r| - 1])
    ensures r == "" <==> forall k :: 0 <= k < |s| ==> IsJsSpace(s[k])
  {
    var i := SkipSpaces(s, 0);
    var j := SkipSpacesBack(s, i, |s|);
    assert j > i ==> s[i..j][0] == s[i] && s[i..j][j - i - 1] == s[j - 1];
    s[i..j]
  }

  // ---------------------------------------------------------------------------
  // Tidying a cell's text: `.trim().replace(/\s+/g, ' ')`
  // ---------------------------------------------------------------------------

  /** `s.replace(/\s+/g, ' ')`: each maximal run of white space becomes one plain space. */
  function CollapseSpaces(s: string): (r: string)
    ensures |r| <= |s|
    decreases |s|
  {
    if s == [] then []
    else if IsJsSpace(s[0]) then
      var j := SkipSpaces(s, 0);
      assert j > 0;
      [' '] + CollapseSpaces(s[j..])
    else [s[0]] + CollapseSpaces(s[1..])
  }

  /** The only white space in `s` is single plain spaces. */
  predicate Collapsed(s: string) {
    forall k :: 0 <= k < |s| && IsJsSpace(s[k]) ==> s[k] == ' ' && (k + 1 < |s| ==> !IsJsSpace(s[k + 1]))
  }

  /** A tidied text: collapsed, with no white space at either end. */
  predicate Tidy(s: string) {
    Collapsed(s) && (|s| > 0 ==> !IsJsSpace(s[0]) && !IsJsSpace(s[|s| - 1]))
  }

  /**
   * `text.trim().replace(/\s+/g, ' ')`: the result is tidy, and empty exactly
   * when the text is all white space.
   */
  function TidyText(s: string): (r: string)
    ensures Tidy(r)
    ensures r == "" <==> forall k :: 0 <= k < |s| ==> IsJsSpace(s[k])
  {
    var t := Trim(s);
    CollapseShape(t);
    CollapseEnds(t);
    CollapseSpaces(t)
  }

  /** Collapsing empties only the empty text, and starts and ends with white space exactly when the text does. */
  lemma {:induction false} CollapseEnds(s: string)
    ensures CollapseSpaces(s) == [] <==> s == []
    ensures |s| > 0 ==> var r := CollapseSpaces(s);
              (IsJsSpace(r[0]) <==> IsJsSpace(s[0])) && (IsJsSpace(r[|r| - 1]) <==> IsJsSpace(s[|s| - 1]))
    decreases |s|
  {
    if s != [] {
      var rest := if IsJsSpace(s[0]) then s[SkipSpaces(s, 0)..] else s[1..];
      var head := if IsJsSpace(s[0]) then ' ' else s[0];
      assert CollapseSpaces(s) == [head] + CollapseSpaces(rest);
      if rest != [] {
        CollapseEnds(rest);
        assert s[|s| - 1] == rest[|rest| - 1];
      } else if IsJsSpace(s[0]) {
        assert IsJsSpace(s[|s| - 1]);
      }
    }
  }

  /** Collapsing leaves only single plain spaces. */
  lemma {:induction false} CollapseShape(s: string)
    ensures Collapsed(CollapseSpaces(s))
    decreases |s|
  {
    if s != [] {
      var r := CollapseSpaces(s);
      var rest := if IsJsSpace(s[0]) then s[SkipSpaces(s, 0)..] else s[1..];
      var head := if IsJsSpace(s[0]) then ' ' else s[0];
      var tail := CollapseSpaces(rest);
      assert r == [head] + tail;
      CollapseShape(rest);
      CollapseEnds(rest);
      assert rest != [] ==> !IsJsSpace(s[0]) || !IsJsSpace(rest[0]);
      forall k | 0 <= k < |r| && IsJsSpace(r[k]) ensures r[k] == ' ' && (k + 1 < |r| ==> !IsJsSpace(r[k + 1])) {
        if k > 0 {
          assert r[k] == tail[k - 1];
        }
      }
    }
  }

  /** Collapsing a collapsed text changes nothing. */
  lemma {:induction false} CollapseFixed(s: string)
    requires Collapsed(s)
    ensures CollapseSpaces(s) == s
    decreases |s|
  {
    if s != [] {
      assert forall k :: 0 <= k < |s| - 1 ==> s[1..][k] == s[k + 1];
      if IsJsSpace(s[0]) {
        assert SkipSpaces(s, 1) == 1;
      }
      CollapseFixed(s[1..]);
      assert s == [s[0]] + s[1..];
    }
  }

  /** The white space starting at `i` ends at `k` when `k` is where it stops. */
  lemma {:induction false} SkipSpacesTo(s: string, i: nat, k: nat)
    requires i <= k <= |s|
    requires forall m :: i <= m < k ==> IsJsSpace(s[m])
    requires k == |s| || !IsJsSpace(s[k])
    ensures SkipSpaces(s, i) == k
  {
  }

  /** A text opening with the white space `s[..j]` collapses to one space and the rest. */
  lemma {:induction false} CollapseSpaceHead(s: string, j: nat)
    requires 0 < j <= |s| && forall m :: 0 <= m < j ==> IsJsSpace(s[m])
    requires j == |s| || !IsJsSpace(s[j])
    ensures CollapseSpaces(s) == " " + CollapseSpaces(s[j..])
  {
    SkipSpacesTo(s, 0, j);
  }

  /** A text opening with another character keeps it and collapses the rest. */
  lemma CollapseWordHead(s: string)
    requires |s| > 0 && !IsJsSpace(s[0])
    ensures CollapseSpaces(s) == [s[0]] + CollapseSpaces(s[1..])
  {
  }

  /** Text ending in a visible character collapses on its own when white space follows it. */
  lemma {:induction false} CollapseBefore(a: string, t: string)
    requires a == [] || !IsJsSpace(a[|a| - 1])
    requires |t| > 0 && IsJsSpace(t[0])
    ensures CollapseSpaces(a + t) == CollapseSpaces(a) + CollapseSpaces(t)
    decreases |a|
  {
    if a != [] {
      var s := a + t;
      if IsJsSpace(a[0]) {
        var j := SkipSpaces(a, 0);
        var rest := a[j..];
        assert 0 < j < |a| && rest[|rest| - 1] == a[|a| - 1];
        assert s[j] == a[j] && s[j..] == rest + t;
        CollapseSpaceHead(s, j);
        CollapseSpaceHead(a, j);
        CollapseBefore(rest, t);
      } else {
        var rest := a[1..];
        assert rest == [] || rest[|rest| - 1] == a[|a| - 1];
        assert s[1..] == rest + t;
        CollapseWordHead(s);
        CollapseWordHead(a);
        CollapseBefore(rest, t);
      }
    } else {
      assert a + t == t;
    }
  }

  /**
   * A run of white space between two words becomes exactly one plain space,
   * and each side is collapsed on its own.
   */
  lemma {:induction false} CollapseSplit(a: string, w: string, b: string)
    requires |w| > 0 && forall k :: 0 <= k < |w| ==> IsJsSpace(w[k])
    requires a == [] || !IsJsSpace(a[|a| - 1])
    requires b == [] || !IsJsSpace(b[0])
    ensures CollapseSpaces(a + w + b) == CollapseSpaces(a) + " " + CollapseSpaces(b)
  {
    var t := w + b;
    assert t[0] == w[0] && t[|w|..] == b;
    calc {
      CollapseSpaces(a + w + b);
      { assert a + w + b == a + t; }
      CollapseSpaces(a + t);
      { CollapseBefore(a, t); }
      CollapseSpaces(a) + CollapseSpaces(t);
      { CollapseSpaceHead(t, |w|); }
      CollapseSpaces(a) + (" " + CollapseSpaces(b));
      CollapseSpaces(a) + " " + CollapseSpaces(b);
    }
  }

  /** Trimming a text with no white space at either end changes nothing. */
  lemma TrimFixed(s: string)
    requires |s| > 0 ==> !IsJsSpace(s[0]) && !IsJsSpace(s[|s| - 1])
    ensures Trim(s) == s
  {
    var i, j :| 0 <= i <= j <= |s| && Trim(s) == s[i..j]
                && (forall k :: 0 <= k < i ==> IsJsSpace(s[k]))
                && (forall k :: j <= k < |s| ==> IsJsSpace(s[k]));
    assert i == 0 && j == |s|;
  }

  /** A tidy text is its own tidied form. */
  lemma TidyFixed(s: string)
    requires Tidy(s)
    ensures TidyText(s) == s
  {
    TrimFixed(s);
    CollapseFixed(s);
  }

  /** A word without white space is tidy. */
  lemma WordTidy(s: string)
    requires forall k :: 0 <= k < |s| ==> Printing(s[k])
    ensures Tidy(s)
  {
  }

  /** Two tidy texts with white space between them are tidied to the two joined by one plain space. */
  lemma {:induction false} TidyJoin(a: string, w: string, b: string)
    requires |a| > 0 && Tidy(a) && |b| > 0 && Tidy(b)
    requires |w| > 0 && forall k :: 0 <= k < |w| ==> IsJsSpace(w[k])
    ensures TidyText(a + w + b) == a + " " + b
  {
    var s := a + w + b;
    assert s[0] == a[0] && s[|s| - 1] == b[|b| - 1];
    TrimFixed(s);
    CollapseSplit(a, w, b);
    CollapseFixed(a);
    CollapseFixed(b);
  }

  /** The words of `Open Model` stay apart: a tab and spaces between them become one space. */
  lemma TidyOpenModel(s: string)
    requires s == "Open \t Model"
    ensures TidyText(s) == "Open Model"
  {
    var a, w, b := "Open", " \t ", "Model";
    assert s == a + w + b;
    assert forall k :: 0 <= k < |a| ==> Printing(a[k]);
    assert forall k :: 0 <= k < |b| ==> Printing(b[k]);
    WordTidy(a);
    WordTidy(b);
    TidyJoin(a, w, b);
  }

  /** Tidying twice is tidying once. */
  lemma TidyIdempotent(s: string)
    ensures TidyText(TidyText(s)) == TidyText(s)
  {
    TidyFixed(TidyText(s));
  }

  /** A character other than white space. */
  predicate Printing(c: char) {
    !IsJsSpace(c)
  }

  /** The characters of `s` other than white space, in order. */
  function Visible(s: string): (r: string) {
    Filter(s, Printing)
  }

  /** Collapsing keeps every other character, in order. */
  lemma {:induction false} CollapseKeepsVisible(s: string)
    ensures Visible(CollapseSpaces(s)) == Visible(s)
    decreases |s|
  {
    if s != [] {
      if IsJsSpace(s[0]) {
        var j := SkipSpaces(s, 0);
        assert s == s[..j] + s[j..];
        FilterAppend(s[..j], s[j..], Printing);
        FilterNone(s[..j], Printing);
        CollapseKeepsVisible(s[j..]);
        FilterAppend([' '], CollapseSpaces(s[j..]), Printing);
      } else {
        assert s == [s[0]] + s[1..];
        FilterAppend([s[0]], s[1..], Printing);
        CollapseKeepsVisible(s[1..]);
        FilterAppend([s[0]], CollapseSpaces(s[1..]), Printing);
      }
    }
  }

  /** Trimming keeps every character other than white space, in order. */
  lemma TrimKeepsVisible(s: string)
    ensures Visible(Trim(s)) == Visible(s)
  {
    var i, j :| 0 <= i <= j <= |s| && Trim(s) == s[i..j]
                && (forall k :: 0 <= k < i ==> IsJsSpace(s[k]))
                && (forall k :: j <= k < |s| ==> IsJsSpace(s[k]));
    var front, middle, back := s[..i], s[i..j], s[j..];
    assert s == front + (middle + back);
    FilterNone(front, Printing);
    FilterNone(back, Printing);
    FilterAppend(middle, back, Printing);
    FilterAppend(front, middle + back, Printing);
  }

  /** Tidying a text keeps its characters other than white space, in order. */
  lemma TidyKeepsVisible(s: string)
    ensures Visible(TidyText(s)) == Visible(s)
  {
    TrimKeepsVisible(s);
    CollapseKeepsVisible(Trim(s));
  }

  // ---------------------------------------------------------------------------
  // Searching a joined string cell by cell
  // ---------------------------------------------------------------------------

  /** Lower-casing commutes with concatenation. */
  lemma LowerAppend(a: string, b: string)
    ensures Lower(a + b) == Lower(a) + Lower(b)
  {
  }

  /** The lower-cased cells, one by one. */
  function LowerAll(cells: seq<string>): (r: seq<string>)
    ensures |r| == |cells|
    ensures forall k :: 0 <= k < |cells| ==> r[k] == Lower(cells[k])
  {
    seq(|cells|, k requires 0 <= k < |cells| => Lower(cells[k]))
  }

  /** Lower-casing the joined text is joining the lower-cased cells, for a separator without capitals. */
  lemma {:induction false} LowerJoin(cells: seq<string>, sep: string)
    requires Lower(sep) == sep
    ensures Lower(Join(cells, sep)) == Join(LowerAll(cells), sep)
    decreases |cells|
  {
    if |cells| >= 2 {
      LowerJoin(cells[1..], sep);
      assert LowerAll(cells)[1..] == LowerAll(cells[1..]);
      LowerAppend(cells[0], sep);
      LowerAppend(cells[0] + sep, Join(cells[1..], sep));
    }
  }

  /**
   * A pattern sharing no character with the separator occurs in `a + sep + b`
   * exactly when it occurs in `a` or in `b`: no occurrence straddles the separator.
   */
  lemma ContainsAcross(a: string, sep: string, b: string, pat: string)
    requires |pat| > 0 && |sep| > 0
    requires forall k :: 0 <= k < |pat| ==> pat[k] !in sep
    ensures Contains(a + sep + b, pat) <==> Contains(a, pat) || Contains(b, pat)
  {
    var s := a + sep + b;
    if Contains(a, pat) {
      var i :| 0 <= i <= |a| - |pat| && OccursAt(a, pat, i);
      OccursShifted(a, s, pat, i, 0);
    }
    if Contains(b, pat) {
      var i :| 0 <= i <= |b| - |pat| && OccursAt(b, pat, i);
      OccursShifted(b, s, pat, i, |a| + |sep|);
    }
    if Contains(s, pat) {
      var i :| 0 <= i <= |s| - |pat| && OccursAt(s, pat, i);
      OccursBesideSeparator(a, sep, b, pat, i);
    }
  }

  /** An occurrence inside a piece of `s` placed at offset `o` is an occurrence in `s`, and back. */
  lemma OccursShifted(t: string, s: string, pat: string, i: nat, o: nat)
    requires o + |t| <= |s| && s[o..o + |t|] == t
    requires i + |pat| <= |t|
    ensures OccursAt(t, pat, i) <==> OccursAt(s, pat, o + i)
  {
    forall m | o + i <= m < o + i + |pat| ensures s[m] == t[m - o] {
      assert s[o..o + |t|][m - o] == s[m];
    }
    assert s[o + i..o + i + |pat|] == t[i..i + |pat|];
  }

  /** An occurrence in `a + sep + b` lies inside `a` or inside `b` when the pattern shares no character with `sep`. */
  lemma OccursBesideSeparator(a: string, sep: string, b: string, pat: string, i: nat)
    requires |pat| > 0 && |sep| > 0
    requires forall k :: 0 <= k < |pat| ==> pat[k] !in sep
    requires OccursAt(a + sep + b, pat, i)
    ensures i + |pat| <= |a| || i >= |a| + |sep|
    ensures i + |pat| <= |a| ==> OccursAt(a, pat, i)
    ensures i >= |a| + |sep| ==> OccursAt(b, pat, i - |a| - |sep|)
  {
    var s := a + sep + b;
    var o := |a| + |sep|;
    assert s[..|a|] == a && s[|a|..o] == sep && s[o..] == b;
    if i + |pat| > |a| {
      // the first character of the occurrence at or after the end of `a`
      var j := if i >= |a| then i else |a|;
      assert pat[j - i] == s[j];
      assert forall k | |a| <= k < o :: s[k] == sep[k - |a|];
      assert i >= o;
      OccursShifted(b, s, pat, i - o, o);
    } else {
      OccursShifted(a, s, pat, i, 0);
    }
  }

  /** The same for a run of three digits, across a separator without digits. */
  lemma DigitRunAcross(a: string, sep: string, b: string)
    requires |sep| > 0
    requires forall k :: 0 <= k < |sep| ==> !IsDigit(sep[k])
    ensures HasDigitRun3(a + sep + b) <==> HasDigitRun3(a) || HasDigitRun3(b)
  {
    var s := a + sep + b;
    var o := |a| + |sep|;
    if HasDigitRun3(a) {
      var i :| 0 <= i < |a| && DigitsAt3(a, i);
      assert DigitsAt3(s, i);
    }
    if HasDigitRun3(b) {
      var i :| 0 <= i < |b| && DigitsAt3(b, i);
      assert s[o + i] == b[i] && s[o + i + 1] == b[i + 1] && s[o + i + 2] == b[i + 2];
      assert DigitsAt3(s, o + i);
    }
    if HasDigitRun3(s) {
      var i :| 0 <= i < |s| && DigitsAt3(s, i);
      if i + 2 < |a| {
        assert DigitsAt3(a, i);
      } else if i >= o {
        assert s[i] == b[i - o] && s[i + 1] == b[i - o + 1] && s[i + 2] == b[i - o + 2];
        assert DigitsAt3(b, i - o);
      } else {
        assert false;
      }
    }
  }

  /** A separator-free pattern occurs in the joined cells exactly when it occurs in one cell. */
  lemma {:induction false} ContainsJoin(cells: seq<string>, sep: string, pat: string)
    requires |pat| > 0 && |sep| > 0
    requires forall k :: 0 <= k < |pat| ==> pat[k] !in sep
    ensures Contains(Join(cells, sep), pat) <==> exists k :: 0 <= k < |cells| && Contains(cells[k], pat)
    decreases |cells|
  {
    if |cells| == 0 {
      assert !Contains("", pat);
    } else if |cells| >= 2 {
      ContainsJoin(cells[1..], sep, pat);
      ContainsAcross(cells[0], sep, Join(cells[1..], sep), pat);
      if exists k :: 0 <= k < |cells| && Contains(cells[k], pat) {
        var k :| 0 <= k < |cells| && Contains(cells[k], pat);
        if k > 0 { assert cells[1..][k - 1] == cells[k]; }
      }
    }
  }

  /** A run of three digits occurs in the joined cells exactly when it occurs in one cell. */
  lemma {:induction false} DigitRunJoin(cells: seq<string>, sep: string)
    requires |sep| > 0
    requires forall k :: 0 <= k < |sep| ==> !IsDigit(sep[k])
    ensures HasDigitRun3(Join(cells, sep)) <==> exists k :: 0 <= k < |cells| && HasDigitRun3(cells[k])
    decreases |cells|
  {
    if |cells| >= 2 {
      DigitRunJoin(cells[1..], sep);
      DigitRunAcross(cells[0], sep, Join(cells[1..], sep));
      if exists k :: 0 <= k < |cells| && HasDigitRun3(cells[k]) {
        var k :| 0 <= k < |cells| && HasDigitRun3(cells[k]);
        if k > 0 { assert cells[1..][k - 1] == cells[k]; }
      }
    }
  }

  /** Lower-casing does not create or destroy digit runs. */
  lemma DigitRunLower(s: string)
    ensures HasDigitRun3(Lower(s)) <==> HasDigitRun3(s)
  {
    var l := Lower(s);
    if HasDigitRun3(s) {
      var i :| 0 <= i < |s| && DigitsAt3(s, i);
      assert DigitsAt3(l, i);
    }
    if HasDigitRun3(l) {
      var i :| 0 <= i < |l| && DigitsAt3(l, i);
      assert DigitsAt3(s, i);
    }
  }
}
