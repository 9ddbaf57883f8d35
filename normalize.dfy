/**
 * The scraper's two numeric normalisers, `toInt` and `toFloat`
 * (scrape-lmarena.mjs, lines 14-23).
 *
 * `toInt` deletes every `.` and returns the leftmost match of `-?\d+`;
 * `toFloat` turns the FIRST `,` into `.` and returns the leftmost match of
 * `-?\d+(\.\d+)?`. Both give `None` for an absent input or when nothing
 * matches, and neither can fail. Decimals are exact rationals here.
 */
module Normalize {
  import opened Optional
  import opened Text
  import opened Lists

  // ---------------------------------------------------------------------------
  // The textual rewrites done before matching
  // ---------------------------------------------------------------------------

  predicate NotFullStop(c: char) {
    c != '.'
  }

  /** `s.replace(/\./g, '')`: `s` with every full stop deleted, order kept. */
  function RemoveDots(s: string): (r: string) {
    Filter(s, NotFullStop)
  }

  /** `s.replace(',', '.')`: only the first comma becomes a full stop. */
  function ReplaceFirstComma(s: string): (r: string)
    ensures |r| == |s|
  {
    if s == [] then []
    else if s[0] == ',' then ['.'] + s[1..]
    else [s[0]] + ReplaceFirstComma(s[1..])
  }

  /** Deleting full stops keeps exactly the other characters. */
  lemma RemoveDotsMembers(s: string)
    ensures forall c :: c in RemoveDots(s) <==> c in s && c != '.'
  {
    forall c ensures c in RemoveDots(s) <==> c in s && c != '.' {
      FilterMembership(s, NotFullStop, c);
    }
  }

  /** Text without full stops is left alone. */
  lemma RemoveDotsNoDot(s: string)
    requires '.' !in s
    ensures RemoveDots(s) == s
  {
    assert forall k :: 0 <= k < |s| ==> s[k] in s;
    FilterAll(s, NotFullStop);
  }

  lemma RemoveDotsAppend(a: string, b: string)
    ensures RemoveDots(a + b) == RemoveDots(a) + RemoveDots(b)
  {
    FilterAppend(a, b, NotFullStop);
  }

  /** Each character is kept, or is a comma turned into a full stop. */
  lemma {:induction false} ReplaceFirstCommaPointwise(s: string)
    ensures forall i :: 0 <= i < |s| ==>
              ReplaceFirstComma(s)[i] == s[i] || (s[i] == ',' && ReplaceFirstComma(s)[i] == '.')
    decreases |s|
  {
    if s != [] && s[0] != ',' {
      ReplaceFirstCommaPointwise(s[1..]);
      var r := ReplaceFirstComma(s);
      assert forall i :: 1 <= i < |s| ==> r[i] == ReplaceFirstComma(s[1..])[i - 1];
    }
  }

  /** Text without commas is left alone. */
  lemma {:induction false} ReplaceFirstCommaNoComma(s: string)
    requires ',' !in s
    ensures ReplaceFirstComma(s) == s
    decreases |s|
  {
    if s != [] {
      assert s[0] in s;
      assert forall c :: c in s[1..] ==> c in s;
      ReplaceFirstCommaNoComma(s[1..]);
    }
  }

  // ---------------------------------------------------------------------------
  // The leftmost match of `-?\d+`
  // ---------------------------------------------------------------------------

  /**
   * A match of `-?\d+` can start at `p`: a digit is there, or a minus sign
   * followed by a digit. (At a lone `-` the optional sign backtracks and `\d+`
   * fails, so no match starts there.)
   */
  predicate MatchAt(s: string, p: int) {
    0 <= p < |s| && (IsDigit(s[p]) || (s[p] == '-' && p + 1 < |s| && IsDigit(s[p + 1])))
  }

  /** The regular-expression engine's scan: the first position at or after `from` where a match starts. */
  function FirstMatch(s: string, from: nat): (r: Option<nat>)
    requires from <= |s|
    ensures r.Some? ==> from <= r.value && MatchAt(s, r.value)
    decreases |s| - from
  {
    if from == |s| then None
    else if MatchAt(s, from) then Some(from)
    else FirstMatch(s, from + 1)
  }

  /** The scan finds the leftmost start: none lies before it, and none at all when it finds nothing. */
  lemma {:induction false} FirstMatchLeftmost(s: string, from: nat)
    requires from <= |s|
    ensures FirstMatch(s, from).Some? ==> forall q :: from <= q < FirstMatch(s, from).value ==> !MatchAt(s, q)
    ensures FirstMatch(s, from).None? ==> forall q :: from <= q < |s| ==> !MatchAt(s, q)
    decreases |s| - from
  {
    if from < |s| && !MatchAt(s, from) {
      FirstMatchLeftmost(s, from + 1);
    }
  }

  /** The greedy `\d+`: how many digits follow position `i` without a break. */
  function DigitRun(s: string, i: nat): (n: nat)
    requires i <= |s|
    ensures i + n <= |s| && AllDigits(s[i..i + n])
    decreases |s| - i
  {
    if i < |s| && IsDigit(s[i]) then
      var n := DigitRun(s, i + 1);
      assert s[i..i + 1 + n] == [s[i]] + s[i + 1..i + 1 + n];
      1 + n
    else 0
  }

  /** The run is exactly the digits up to the first non-digit: `\d+` is greedy and takes no more. */
  lemma {:induction false} DigitRunIs(s: string, i: nat, n: nat)
    requires i + n <= |s|
    requires forall k :: i <= k < i + n ==> IsDigit(s[k])
    requires i + n == |s| || !IsDigit(s[i + n])
    ensures DigitRun(s, i) == n
    decreases n
  {
    if n > 0 {
      DigitRunIs(s, i + 1, n - 1);
    }
  }

  /** The run stops at the end of the text or before a non-digit. */
  lemma {:induction false} DigitRunStops(s: string, i: nat)
    requires i <= |s|
    ensures i + DigitRun(s, i) == |s| || !IsDigit(s[i + DigitRun(s, i)])
    decreases |s| - i
  {
    if i < |s| && IsDigit(s[i]) {
      DigitRunStops(s, i + 1);
    }
  }

  function Pow10(n: nat): (p: nat)
    ensures p >= 1
  {
    if n == 0 then 1 else 10 * Pow10(n - 1)
  }

  /** `parseInt(ds, 10)` of a string of decimal digits. */
  function DigitsValue(ds: string): (v: nat)
    requires AllDigits(ds)
    ensures v < Pow10(|ds|)
  {
    if |ds| == 0 then 0
    else
      var high := DigitsValue(ds[..|ds| - 1]);
      var d := ds[|ds| - 1] as int - '0' as int;
      assert high * 10 + d < Pow10(|ds|) by {
        assert high + 1 <= Pow10(|ds| - 1);
        assert (high + 1) * 10 <= Pow10(|ds| - 1) * 10;
      }
      high * 10 + d
  }

  /** The pieces of a match at `p`: whether it is negative, and where its digits start and end. */
  datatype IntMatch = IntMatch(negative: bool, start: nat, end: nat)

  function MatchedInt(s: string, p: nat): (m: IntMatch)
    requires MatchAt(s, p)
    ensures m.start == (if m.negative then p + 1 else p) && m.negative == (s[p] == '-')
    ensures m.start < m.end <= |s| && AllDigits(s[m.start..m.end])
  {
    var negative := s[p] == '-';
    var start := if negative then p + 1 else p;
    var n := DigitRun(s, start);
    IntMatch(negative, start, start + n)
  }

  /** The integer a match denotes. */
  function IntValue(s: string, m: IntMatch): (r: int)
    requires m.start <= m.end <= |s| && AllDigits(s[m.start..m.end])
  {
    var v: int := DigitsValue(s[m.start..m.end]);
    if m.negative then -v else v
  }

  /** The first signed integer literal of `s`, or `None` when `s` holds no digit run. */
  function LeadingInt(s: string): (r: Option<int>) {
    match FirstMatch(s, 0)
    case None => None
    case Some(p) => Some(IntValue(s, MatchedInt(s, p)))
  }

  /** `toInt(s)`. */
  function ToInt(s: Option<string>): (r: Option<int>) {
    match s
    case None => None
    case Some(t) => LeadingInt(RemoveDots(t))
  }

  // ---------------------------------------------------------------------------
  // The leftmost match of `-?\d+(\.\d+)?`
  // ---------------------------------------------------------------------------

  /** After the integer digits, the optional group `(\.\d+)` matches: a full stop and a digit. */
  predicate HasFraction(s: string, end: nat) {
    end + 1 < |s| && s[end] == '.' && IsDigit(s[end + 1])
  }

  /** The value of the optional fraction `.d1d2…dk` after position `end`, or 0 when the group is empty. */
  function FractionValue(s: string, end: nat): (f: real)
    requires end <= |s|
  {
    if HasFraction(s, end) then DigitsFraction(s[end + 1..end + 1 + DigitRun(s, end + 1)]) else 0.0
  }

  /** `0.d1d2…dk` for the digit string `d1d2…dk`: `(d1 + 0.d2…dk) / 10`. */
  function DigitsFraction(ds: string): (f: real)
    requires AllDigits(ds)
    ensures 0.0 <= f < 1.0
  {
    if ds == [] then 0.0
    else ((ds[0] as int - '0' as int) as real + DigitsFraction(ds[1..])) / 10.0
  }

  /** Appending a digit to `d·p + x` shifts both parts one place. */
  lemma ShiftLeft(d: int, p: int, x: int, last: int)
    ensures (d * p + x) * 10 + last == d * (p * 10) + (x * 10 + last)
  {
  }

  /** Read from the front, a digit string is its first digit times a power of ten plus the rest. */
  lemma {:induction false} DigitsValueFront(ds: string)
    requires |ds| > 0 && AllDigits(ds)
    ensures DigitsValue(ds) == (ds[0] as int - '0' as int) * Pow10(|ds| - 1) + DigitsValue(ds[1..])
    decreases |ds|
  {
    var n := |ds|;
    if n == 1 {
      assert ds[..0] == [] && ds[1..] == [];
    } else {
      var init, tail := ds[..n - 1], ds[1..];
      var last := ds[n - 1] as int - '0' as int;
      assert init[0] == ds[0] && tail[..n - 2] == init[1..] && tail[n - 2] == ds[n - 1];
      DigitsValueFront(init);
      var d0, p, x := ds[0] as int - '0' as int, Pow10(n - 2), DigitsValue(init[1..]);
      assert DigitsValue(init) == d0 * p + x;
      assert DigitsValue(tail) == x * 10 + last;
      assert DigitsValue(ds) == DigitsValue(init) * 10 + last;
      assert Pow10(n - 1) == p * 10;
      ShiftLeft(d0, p, x, last);
    }
  }

  /** One step of reading a fraction: prefixing the digit `d` to `x / p` gives `(d·p + x) / 10p`. */
  lemma FractionStep(d: int, p: nat, x: nat, f: real, v: int)
    requires p > 0 && f == x as real / p as real && v == d * p + x
    ensures (d as real + f) / 10.0 == v as real / (10 * p) as real
  {
    var dr, pr, xr := d as real, p as real, x as real;
    assert v as real == dr * pr + xr;
    assert (dr + xr / pr) / 10.0 == (dr * pr + xr) / (10.0 * pr);
  }

  /** `0.d1d2…dk` is the integer `d1d2…dk` divided by `10^k`. */
  lemma {:induction false} DigitsFractionValue(ds: string)
    requires AllDigits(ds)
    ensures DigitsFraction(ds) == DigitsValue(ds) as real / Pow10(|ds|) as real
    decreases |ds|
  {
    if ds != [] {
      var n := |ds|;
      var d0, p, x := ds[0] as int - '0' as int, Pow10(n - 1), DigitsValue(ds[1..]);
      DigitsFractionValue(ds[1..]);
      DigitsValueFront(ds);
      FractionStep(d0, p, x, DigitsFraction(ds[1..]), DigitsValue(ds));
      assert Pow10(n) == 10 * p;
    }
  }

  /** The first signed decimal literal of `s`, as an exact number. */
  function LeadingDecimal(s: string): (r: Option<real>) {
    match FirstMatch(s, 0)
    case None => None
    case Some(p) => Some(DecimalValue(s, MatchedInt(s, p)))
  }

  /** The number a match of `-?\d+(\.\d+)?` denotes: the integer digits, the optional fraction, the sign. */
  function DecimalValue(s: string, m: IntMatch): (r: real)
    requires m.start <= m.end <= |s| && AllDigits(s[m.start..m.end])
  {
    var magnitude := DigitsValue(s[m.start..m.end]) as real + FractionValue(s, m.end);
    if m.negative then -magnitude else magnitude
  }

  /** `toFloat(s)`. */
  function ToFloat(s: Option<string>): (r: Option<real>) {
    match s
    case None => None
    case Some(t) => LeadingDecimal(ReplaceFirstComma(t))
  }

  // ---------------------------------------------------------------------------
  // Properties
  // ---------------------------------------------------------------------------

  /** A match starts somewhere exactly when the string holds a digit. */
  lemma MatchExistsIffDigit(s: string)
    ensures FirstMatch(s, 0).Some? <==> exists c :: c in s && IsDigit(c)
  {
    FirstMatchLeftmost(s, 0);
    if exists c :: c in s && IsDigit(c) {
      var c :| c in s && IsDigit(c);
      var q :| 0 <= q < |s| && s[q] == c;
      assert MatchAt(s, q);
    }
    if FirstMatch(s, 0).Some? {
      var p := FirstMatch(s, 0).value;
      if IsDigit(s[p]) { assert s[p] in s; } else { assert s[p + 1] in s; }
    }
  }

  /** `toInt` yields nothing exactly when its input is absent or holds no ASCII digit. */
  lemma ToIntNoneIffNoDigit(s: Option<string>)
    ensures ToInt(s).None? <==> s.None? || forall c :: c in s.value ==> !IsDigit(c)
  {
    if s.Some? {
      MatchExistsIffDigit(RemoveDots(s.value));
      RemoveDotsMembers(s.value);
    }
  }

  /** `toFloat` yields nothing exactly when its input is absent or holds no ASCII digit. */
  lemma ToFloatNoneIffNoDigit(s: Option<string>)
    ensures ToFloat(s).None? <==> s.None? || forall c :: c in s.value ==> !IsDigit(c)
  {
    if s.Some? {
      var t := s.value;
      var r := ReplaceFirstComma(t);
      MatchExistsIffDigit(r);
      ReplaceFirstCommaPointwise(t);
      if exists c :: c in t && IsDigit(c) {
        var c :| c in t && IsDigit(c);
        var q :| 0 <= q < |t| && t[q] == c;
        assert r[q] in r;
      }
      if exists c :: c in r && IsDigit(c) {
        var c :| c in r && IsDigit(c);
        var q :| 0 <= q < |r| && r[q] == c;
        assert t[q] in t;
      }
    }
  }

  /** Deleting the full stops first changes nothing: `toInt` already ignores them. */
  lemma ToIntIgnoresDots(s: string)
    ensures ToInt(Some(s)) == ToInt(Some(RemoveDots(s)))
  {
    RemoveDotsMembers(s);
    RemoveDotsNoDot(RemoveDots(s));
  }

  /** A literal starting at the very first character is the one both normalisers read. */
  lemma LeadingAtStart(s: string)
    requires MatchAt(s, 0)
    ensures LeadingInt(s) == Some(IntValue(s, MatchedInt(s, 0)))
    ensures LeadingDecimal(s) == Some(DecimalValue(s, MatchedInt(s, 0)))
  {
    assert FirstMatch(s, 0) == Some(0);
  }

  /**
   * A comma ends `toInt`'s digit run: `"12,345 votes"` reads as 12, because
   * only full stops are treated as thousands separators.
   */
  lemma ToIntStopsAtComma(whole: string, rest: string)
    requires |whole| > 0 && AllDigits(whole)
    ensures ToInt(Some(whole + "," + rest)) == Some(DigitsValue(whole))
  {
    var tail := "," + RemoveDots(rest);
    RemoveDotsAround(whole, ',', rest);
    DigitsFollowedBy(whole, tail);
  }

  /** Deleting the full stops of `whole + [c] + rest`, where `whole` has none and `c` is not one. */
  lemma RemoveDotsAround(whole: string, c: char, rest: string)
    requires '.' !in whole && c != '.'
    ensures RemoveDots(whole + [c] + rest) == whole + ([c] + RemoveDots(rest))
  {
    assert whole + [c] + rest == whole + ([c] + rest);
    RemoveDotsNoDot(whole);
    RemoveDotsNoDot([c]);
    RemoveDotsAppend(whole, [c] + rest);
    RemoveDotsAppend([c], rest);
  }

  lemma NoDotInDigits(ds: string)
    requires AllDigits(ds)
    ensures '.' !in ds && ',' !in ds
  {
  }

  /** A digit string followed by nothing or by a non-digit reads as that digit string. */
  lemma DigitsFollowedBy(ds: string, tail: string)
    requires |ds| > 0 && AllDigits(ds)
    requires tail == [] || !IsDigit(tail[0])
    ensures MatchAt(ds + tail, 0)
    ensures MatchedInt(ds + tail, 0) == IntMatch(false, 0, |ds|)
    ensures (ds + tail)[0..|ds|] == ds
    ensures LeadingInt(ds + tail) == Some(DigitsValue(ds))
  {
    var t := ds + tail;
    assert t[0] == ds[0];
    assert MatchAt(t, 0);
    assert |ds| < |t| ==> t[|ds|] == tail[0];
    assert forall k :: 0 <= k < |ds| ==> t[k] == ds[k];
    DigitRunIs(t, 0, |ds|);
    assert t[0..|ds|] == ds;
    LeadingAtStart(t);
  }

  /**
   * `toFloat` reads the first comma as the decimal point: `whole,frac` is
   * `whole + frac / 10^|frac|`.
   */
  lemma ToFloatCommaDecimal(whole: string, frac: string)
    requires |whole| > 0 && AllDigits(whole)
    requires |frac| > 0 && AllDigits(frac)
    ensures ToFloat(Some(whole + "," + frac)) ==
            Some(DigitsValue(whole) as real + DigitsFraction(frac))
    ensures ToFloat(Some(whole + "," + frac)) ==
            Some(DigitsValue(whole) as real + DigitsValue(frac) as real / Pow10(|frac|) as real)
  {
    DigitsFractionValue(frac);
    assert whole + "," + frac == whole + ("," + frac);
    assert ReplaceFirstComma(whole + ("," + frac)) == whole + ("." + frac) by {
      NoDotInDigits(whole);
      ReplaceFirstCommaAppend(whole, "," + frac);
    }
    DecimalDigits(whole, frac);
  }

  lemma {:induction false} ReplaceFirstCommaAppend(a: string, b: string)
    requires ',' !in a
    ensures ReplaceFirstComma(a + b) == a + ReplaceFirstComma(b)
    decreases |a|
  {
    if a != [] {
      assert a[0] in a;
      assert (a + b)[0] == a[0] && (a + b)[1..] == a[1..] + b;
      calc {
        ReplaceFirstComma(a + b);
        [a[0]] + ReplaceFirstComma(a[1..] + b);
        { ReplaceFirstCommaAppend(a[1..], b); }
        [a[0]] + (a[1..] + ReplaceFirstComma(b));
        { assert a == [a[0]] + a[1..]; }
        a + ReplaceFirstComma(b);
      }
    } else {
      assert a + b == b;
    }
  }

  /** `whole.frac` reads as `whole + frac / 10^|frac|`. */
  lemma {:induction false} DecimalDigits(whole: string, frac: string)
    requires |whole| > 0 && AllDigits(whole)
    requires |frac| > 0 && AllDigits(frac)
    ensures LeadingDecimal(whole + ("." + frac)) ==
            Some(DigitsValue(whole) as real + DigitsFraction(frac))
    ensures LeadingDecimal(whole + ("." + frac)) ==
            Some(DigitsValue(whole) as real + DigitsValue(frac) as real / Pow10(|frac|) as real)
  {
    var t := whole + ("." + frac);
    DigitsFollowedBy(whole, "." + frac);
    LeadingAtStart(t);
    PointThenFraction(whole, frac);
    FractionAfter(t, |whole|, frac);
    UnsignedDecimal(t, IntMatch(false, 0, |whole|), DigitsValue(whole), DigitsFraction(frac));
    DigitsFractionValue(frac);
  }

  lemma PointThenFraction(whole: string, frac: string)
    ensures (whole + ("." + frac))[|whole|] == '.'
    ensures (whole + ("." + frac))[|whole| + 1..] == frac
  {
    var t := whole + ("." + frac);
    assert t[|whole| + 1..] == frac by {
      forall k | 0 <= k < |frac| ensures t[|whole| + 1..][k] == frac[k] {
        assert t[|whole| + 1 + k] == ("." + frac)[1 + k];
      }
    }
  }

  /** An unsigned match whose digits and fraction have the given values denotes their sum. */
  lemma UnsignedDecimal(t: string, m: IntMatch, whole: nat, frac: real)
    requires m.start <= m.end <= |t| && AllDigits(t[m.start..m.end]) && !m.negative
    requires DigitsValue(t[m.start..m.end]) == whole && FractionValue(t, m.end) == frac
    ensures DecimalValue(t, m) == whole as real + frac
  {
  }

  /** A full stop and the digit string `frac` ending the text form the fraction `0.frac`. */
  lemma FractionAfter(t: string, e: nat, frac: string)
    requires |frac| > 0 && AllDigits(frac)
    requires e < |t| && t[e] == '.' && t[e + 1..] == frac
    ensures FractionValue(t, e) == DigitsFraction(frac)
  {
    assert t[e + 1] == frac[0];
    assert HasFraction(t, e);
    DigitRunToEnd(t, e + 1);
    assert t[e + 1..e + 1 + |frac|] == frac;
  }

  /** When only digits follow `i`, the greedy run takes them all. */
  lemma DigitRunToEnd(s: string, i: nat)
    requires i <= |s| && AllDigits(s[i..])
    ensures DigitRun(s, i) == |s| - i
  {
    forall k | i <= k < |s| ensures IsDigit(s[k]) {
      assert s[i..][k - i] == s[k];
    }
    DigitRunIs(s, i, |s| - i);
  }

  /** Without full stops or commas the two normalisers agree: `toFloat` is `toInt` read as a number. */
  lemma ToFloatAgreesWithToInt(s: string)
    requires '.' !in s && ',' !in s
    ensures ToFloat(Some(s)).Some? == ToInt(Some(s)).Some?
    ensures ToInt(Some(s)).Some? ==> ToFloat(Some(s)).value == ToInt(Some(s)).value as real
  {
    RemoveDotsNoDot(s);
    ReplaceFirstCommaNoComma(s);
    match FirstMatch(s, 0)
    case None =>
    case Some(p) =>
      var m := MatchedInt(s, p);
      assert m.end < |s| ==> s[m.end] != '.';
      assert FractionValue(s, m.end) == 0.0;
  }

  // ---------------------------------------------------------------------------
  // Round trip with the decimal rendering of an integer
  // ---------------------------------------------------------------------------

  function DigitChar(d: nat): (c: char)
    requires d < 10
    ensures IsDigit(c) && c as int - '0' as int == d
  {
    ('0' as int + d) as char
  }

  /** The decimal digits of `n`, most significant first, without leading zeros. */
  function NatDigits(n: nat): (ds: string)
    ensures |ds| > 0 && AllDigits(ds)
    decreases n
  {
    if n < 10 then [DigitChar(n)] else NatDigits(n / 10) + [DigitChar(n % 10)]
  }

  /** The decimal rendering of an integer, `-` in front when negative. */
  function FormatInt(n: int): (r: string) {
    if n < 0 then "-" + NatDigits(-n) else NatDigits(n)
  }

  lemma {:induction false} NatDigitsValue(n: nat)
    ensures DigitsValue(NatDigits(n)) == n
    decreases n
  {
    if n >= 10 {
      NatDigitsValue(n / 10);
      var ds := NatDigits(n);
      assert ds[..|ds| - 1] == NatDigits(n / 10);
    }
  }

  /** `toInt` reads back every integer from its decimal rendering. */
  lemma ToIntFormatInt(n: int)
    ensures ToInt(Some(FormatInt(n))) == Some(n)
  {
    var m: nat := if n < 0 then -n else n;
    NatDigitsValue(m);
    if n < 0 {
      NegativeDigits(NatDigits(m));
    } else {
      ReadsDigitPrefix(NatDigits(m), "");
      assert NatDigits(m) + "" == NatDigits(m);
    }
  }

  /** A minus sign followed by digits only reads as the negated digit string. */
  lemma NegativeDigits(ds: string)
    requires |ds| > 0 && AllDigits(ds)
    ensures ToInt(Some("-" + ds)) == Some(-(DigitsValue(ds) as int))
  {
    NoDotInDigits(ds);
    assert '.' !in "-" + ds;
    RemoveDotsNoDot("-" + ds);
    NegativeLeading(ds);
  }

  lemma NegativeLeading(ds: string)
    requires |ds| > 0 && AllDigits(ds)
    ensures LeadingInt("-" + ds) == Some(-(DigitsValue(ds) as int))
  {
    var s := "-" + ds;
    assert s[0] == '-';
    assert forall k :: 1 <= k < |s| ==> s[k] == ds[k - 1];
    assert MatchAt(s, 0);
    DigitRunIs(s, 1, |ds|);
    var m := MatchedInt(s, 0);
    assert m == IntMatch(true, 1, |s|);
    assert s[1..|s|] == ds;
    IntValueOf(s, m, ds);
    LeadingAtStart(s);
  }

  /** The value of a match is that of its digit string, negated after a minus sign. */
  lemma IntValueOf(s: string, m: IntMatch, ds: string)
    requires m.start <= m.end <= |s| && AllDigits(ds) && s[m.start..m.end] == ds
    ensures IntValue(s, m) == if m.negative then -(DigitsValue(ds) as int) else DigitsValue(ds)
  {
  }

  /** `toFloat` reads back every integer from its decimal rendering, exactly. */
  lemma ToFloatFormatInt(n: int)
    ensures ToFloat(Some(FormatInt(n))) == Some(n as real)
  {
    var s := FormatInt(n);
    var ds := NatDigits(if n < 0 then -n else n);
    assert ',' !in s && '.' !in s by {
      if n < 0 { assert s == "-" + ds; }
    }
    ToIntFormatInt(n);
    ToFloatAgreesWithToInt(s);
  }

  // ---------------------------------------------------------------------------
  // Digit strings followed by other text
  // ---------------------------------------------------------------------------

  /** A digit string followed by nothing, or by a non-digit without full stops or commas, reads as that digit string. */
  lemma ReadsDigitPrefix(ds: string, tail: string)
    requires |ds| > 0 && AllDigits(ds)
    requires tail == [] || !IsDigit(tail[0])
    requires '.' !in tail && ',' !in tail
    ensures ToInt(Some(ds + tail)) == Some(DigitsValue(ds))
    ensures ToFloat(Some(ds + tail)) == Some(DigitsValue(ds) as real)
  {
    var s := ds + tail;
    NoDotInDigits(ds);
    assert '.' !in s && ',' !in s;
    RemoveDotsNoDot(s);
    DigitsFollowedBy(ds, tail);
    ToFloatAgreesWithToInt(s);
  }

  /** The full stop between two dot-free texts is deleted. */
  lemma RemoveDotsSkips(whole: string, rest: string)
    requires '.' !in whole && '.' !in rest
    ensures RemoveDots(whole + "." + rest) == whole + rest
  {
    assert whole + "." + rest == whole + ("." + rest);
    RemoveDotsNoDot(whole);
    RemoveDotsNoDot(rest);
    RemoveDotsAppend(whole, "." + rest);
    RemoveDotsAppend(".", rest);
    assert RemoveDots(".") == [];
  }

  /** A full stop between digits is dropped by `toInt`: `"12.345"` reads as the digits `12345`. */
  lemma ToIntIgnoresThousandsDot(whole: string, rest: string)
    requires |whole| > 0 && AllDigits(whole) && AllDigits(rest)
    ensures ToInt(Some(whole + "." + rest)) == Some(DigitsValue(whole + rest))
  {
    NoDotInDigits(whole);
    NoDotInDigits(rest);
    RemoveDotsSkips(whole, rest);
    assert AllDigits(whole + rest);
    DigitsFollowedBy(whole + rest, "");
    assert whole + rest + "" == whole + rest;
  }

  // ---------------------------------------------------------------------------
  // The examples the scraper's behaviour is known by
  // ---------------------------------------------------------------------------

  /** `"2.5"` is 25: `toInt` never reads a full stop as a decimal point. */
  lemma ToIntDropsFullStop(s: string)
    requires s == "2.5"
    ensures ToInt(Some(s)) == Some(25)
  {
    assert s == "2" + "." + "5";
    ToIntIgnoresThousandsDot("2", "5");
    assert "2" + "5" == "25";
    assert DigitsValue("25") == 25;
  }

  /** `"12,345 votes"` is 12, not 12345: a comma is not a thousands separator for `toInt`. */
  lemma ToIntCommaVotes(s: string)
    requires s == "12,345 votes"
    ensures ToInt(Some(s)) == Some(12)
  {
    assert s == "12" + "," + "345 votes";
    ToIntStopsAtComma("12", "345 votes");
    assert DigitsValue("12") == 12;
  }

  /** `"123,4"` is 123.4: the comma is read as the decimal point. */
  lemma ToFloatCommaExample(s: string)
    requires s == "123,4"
    ensures ToFloat(Some(s)) == Some(123.4)
  {
    assert s == "123" + "," + "4";
    ToFloatCommaDecimal("123", "4");
    assert DigitsValue("123") == 123;
    assert DigitsFraction("4") == 0.4;
  }

  /** `"100"` is the number 100. */
  lemma ToFloatHundred(s: string)
    requires s == "100"
    ensures ToFloat(Some(s)) == Some(100.0)
  {
    ReadsDigitPrefix(s, "");
    assert s + "" == s;
    assert DigitsValue(s[..2]) == 10;
  }

  /** `"1"`, the typical rank cell, is 1 for both readers. */
  lemma ReadsOne(s: string)
    requires s == "1"
    ensures ToInt(Some(s)) == Some(1) && ToFloat(Some(s)) == Some(1.0)
  {
    ReadsDigitPrefix(s, "");
    assert s + "" == s;
  }

  /** `"1234 ± 5"` is the score 1234: the reading stops at the space before the margin. */
  lemma ToFloatScoreWithMargin(s: string)
    requires s == "1234 \U{00B1} 5"
    ensures ToFloat(Some(s)) == Some(1234.0)
  {
    var ds, tail := s[..4], s[4..];
    assert s == ds + tail;
    FourDigits(ds);
    ReadsDigitPrefix(ds, tail);
  }

  /** The digits `1234` are worth 1234. */
  lemma FourDigits(ds: string)
    requires ds == "1234"
    ensures AllDigits(ds) && DigitsValue(ds) == 1234
  {
    assert DigitsValue("1") == 1;
    assert "12"[..1] == "1";
    assert DigitsValue("12") == 12;
    assert "123"[..2] == "12";
    assert DigitsValue("123") == 123;
    assert ds[..3] == "123";
  }

  /** `"000"` is the score zero. */
  lemma ToFloatZeros(s: string)
    requires s == "000"
    ensures ToFloat(Some(s)) == Some(0.0)
  {
    ReadsDigitPrefix(s, "");
    assert s + "" == s;
    DigitsValueZeros(s);
  }

  /** A string of zeros reads as zero. */
  lemma {:induction false} DigitsValueZeros(ds: string)
    requires forall k :: 0 <= k < |ds| ==> ds[k] == '0'
    ensures AllDigits(ds) && DigitsValue(ds) == 0
    decreases |ds|
  {
    if ds != [] {
      DigitsValueZeros(ds[..|ds| - 1]);
    }
  }

  /** `"n/a"` is nothing. */
  lemma NotANumber(s: string)
    requires s == "n/a"
    ensures ToInt(Some(s)) == None && ToFloat(Some(s)) == None
  {
    forall c | c in s ensures !IsDigit(c) {
      var i :| 0 <= i < |s| && s[i] == c;
    }
    ToIntNoneIffNoDigit(Some(s));
    ToFloatNoneIffNoDigit(Some(s));
  }
}
