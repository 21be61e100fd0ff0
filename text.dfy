/**
 * Character classes and the small string operations the cleaner relies on:
 * `str.strip()`, `str.upper()`, and the two regular-expression searches
 * `\d+` and `\d+(\.\d+)?` (leftmost match, greedy).
 */
module Text {

  import opened Wrappers

  /** The ASCII blanks a numeric parse skips around a number: space, tab,
      line feed, vertical tab, form feed and carriage return. */
  predicate IsNumericSpace(c: char)
  {
    c == ' ' || c == '\t' || c == '\n' || c == '\r' || c == '\U{000B}' || c == '\U{000C}'
  }

  /** The ASCII information separators U+001C to U+001F. */
  predicate IsSeparator(c: char)
  {
    '\U{001C}' <= c <= '\U{001F}'
  }

  /** ASCII whitespace as removed by `str.strip()`: the numeric blanks and
      the information separators. */
  predicate IsWhitespace(c: char)
  {
    IsNumericSpace(c) || IsSeparator(c)
  }

  /** The characters matched by `\d`. */
  predicate IsDigit(c: char)
  {
    '0' <= c <= '9'
  }

  predicate AllWhitespace(s: string)
  {
    forall k :: 0 <= k < |s| ==> IsWhitespace(s[k])
  }

  predicate AllDigits(s: string)
  {
    forall k :: 0 <= k < |s| ==> IsDigit(s[k])
  }

  predicate HasDigit(s: string)
  {
    exists k :: 0 <= k < |s| && IsDigit(s[k])
  }

  // ---------------------------------------------------------------- strip

  /** First position at or after `i` that is not whitespace, or `|s|`. */
  function SkipWhitespace(s: string, i: nat): (j: nat)
    requires i <= |s|
    ensures i <= j <= |s|
    ensures forall k :: i <= k < j ==> IsWhitespace(s[k])
    ensures j < |s| ==> !IsWhitespace(s[j])
    decreases |s| - i
  {
    if i < |s| && IsWhitespace(s[i]) then SkipWhitespace(s, i + 1) else i
  }

  /** End of `s[lo..j]` with trailing whitespace removed. */
  function TrimEnd(s: string, lo: nat, j: nat): (e: nat)
    requires lo <= j <= |s|
    ensures lo <= e <= j
    ensures forall k :: e <= k < j ==> IsWhitespace(s[k])
    ensures e > lo ==> !IsWhitespace(s[e - 1])
    decreases j - lo
  {
    if j > lo && IsWhitespace(s[j - 1]) then TrimEnd(s, lo, j - 1) else j
  }

  /** The trimmed text: a contiguous piece of `s` with only whitespace cut
      from either end, and no whitespace left at either end. */
  predicate IsTrimOf(s: string, r: string)
  {
    exists i, j :: 0 <= i <= j <= |s| && r == s[i..j] && AllWhitespace(s[..i]) && AllWhitespace(s[j..])
  }

  predicate NoEdgeWhitespace(r: string)
  {
    r == [] || (!IsWhitespace(r[0]) && !IsWhitespace(r[|r| - 1]))
  }

  /** `str.strip()` with no argument. */
  function Strip(s: string): (r: string)
    ensures IsTrimOf(s, r)
    ensures NoEdgeWhitespace(r)
  {
    var a := SkipWhitespace(s, 0);
    var b := TrimEnd(s, a, |s|);
    assert AllWhitespace(s[..a]);
    assert AllWhitespace(s[b..]);
    assert a < b ==> s[a..b][0] == s[a] && s[a..b][b - a - 1] == s[b - 1];
    s[a..b]
  }

  lemma {:induction false} StripOfTrimmed(s: string)
    requires NoEdgeWhitespace(s)
    ensures Strip(s) == s
  {
  }

  /** Trimming twice is trimming once. */
  lemma StripIdempotent(s: string)
    ensures Strip(Strip(s)) == Strip(s)
  {
    StripOfTrimmed(Strip(s));
  }

  /** `"\x1cA\x1f".strip()` is `"A"`. */
  lemma StripOfSeparators(s: string)
    requires s == "\U{001C}A\U{001F}"
    ensures Strip(s) == "A"
  {
    assert SkipWhitespace(s, 0) == 1;
    assert TrimEnd(s, 1, 3) == 2;
  }

  // ---------------------------------------------------------------- numeric trim

  predicate AllNumericSpace(s: string)
  {
    forall k :: 0 <= k < |s| ==> IsNumericSpace(s[k])
  }

  predicate NoEdgeNumericSpace(r: string)
  {
    r == [] || (!IsNumericSpace(r[0]) && !IsNumericSpace(r[|r| - 1]))
  }

  /** First position at or after `i` that is not a numeric blank, or `|s|`. */
  function SkipNumericSpace(s: string, i: nat): (j: nat)
    requires i <= |s|
    ensures i <= j <= |s|
    ensures forall k :: i <= k < j ==> IsNumericSpace(s[k])
    ensures j < |s| ==> !IsNumericSpace(s[j])
    decreases |s| - i
  {
    if i < |s| && IsNumericSpace(s[i]) then SkipNumericSpace(s, i + 1) else i
  }

  /** End of `s[lo..j]` with trailing numeric blanks removed. */
  function TrimNumericEnd(s: string, lo: nat, j: nat): (e: nat)
    requires lo <= j <= |s|
    ensures lo <= e <= j
    ensures forall k :: e <= k < j ==> IsNumericSpace(s[k])
    ensures e > lo ==> !IsNumericSpace(s[e - 1])
    decreases j - lo
  {
    if j > lo && IsNumericSpace(s[j - 1]) then TrimNumericEnd(s, lo, j - 1) else j
  }

  /** The text a numeric parse reads: `s` without the numeric blanks at
      either end. Unlike `Strip`, it keeps the information separators, so
      a separator next to a number makes the parse fail. */
  function NumericTrim(s: string): (r: string)
    ensures exists i, j :: 0 <= i <= j <= |s| && r == s[i..j] && AllNumericSpace(s[..i]) && AllNumericSpace(s[j..])
    ensures NoEdgeNumericSpace(r)
  {
    var a := SkipNumericSpace(s, 0);
    var b := TrimNumericEnd(s, a, |s|);
    assert AllNumericSpace(s[..a]);
    assert AllNumericSpace(s[b..]);
    assert a < b ==> s[a..b][0] == s[a] && s[a..b][b - a - 1] == s[b - 1];
    s[a..b]
  }

  lemma {:induction false} NumericTrimOfTrimmed(s: string)
    requires NoEdgeNumericSpace(s)
    ensures NumericTrim(s) == s
  {
  }

  /** A character that is not a numeric blank survives the numeric trim. */
  lemma NumericTrimKeeps(s: string, k: nat) returns (m: nat)
    requires k < |s| && !IsNumericSpace(s[k])
    ensures m < |NumericTrim(s)| && NumericTrim(s)[m] == s[k]
  {
    var a := SkipNumericSpace(s, 0);
    var b := TrimNumericEnd(s, a, |s|);
    assert NumericTrim(s) == s[a..b];
    m := k - a;
  }

  /** A digit the numeric trim keeps is a digit of the text. */
  lemma HasDigitOfNumericTrim(s: string)
    requires HasDigit(NumericTrim(s))
    ensures HasDigit(s)
  {
    var a := SkipNumericSpace(s, 0);
    var b := TrimNumericEnd(s, a, |s|);
    var r := NumericTrim(s);
    assert r == s[a..b];
    var k :| 0 <= k < |r| && IsDigit(r[k]);
    assert s[a + k] == r[k];
  }

  // ---------------------------------------------------------------- upper

  /** `str.upper()` on ASCII letters. */
  function UpperChar(c: char): char
  {
    if 'a' <= c <= 'z' then (c as int - 32) as char else c
  }

  function Upper(s: string): string
  {
    seq(|s|, k requires 0 <= k < |s| => UpperChar(s[k]))
  }

  // ---------------------------------------------------------------- digits

  /** The integer value of a run of decimal digits (as `int(...)` reads it). */
  function DigitsValue(ds: string): nat
    requires AllDigits(ds)
  {
    if ds == [] then 0 else 10 * DigitsValue(ds[..|ds| - 1]) + (ds[|ds| - 1] as int - '0' as int)
  }

  lemma DigitsValueSnoc(ds: string, c: char)
    requires AllDigits(ds) && IsDigit(c)
    ensures AllDigits(ds + [c])
    ensures DigitsValue(ds + [c]) == 10 * DigitsValue(ds) + (c as int - '0' as int)
  {
    assert (ds + [c])[..|ds|] == ds;
  }

  function Pow10(n: nat): (p: nat)
    ensures p >= 1
  {
    if n == 0 then 1 else 10 * Pow10(n - 1)
  }

  /** Position of the first digit of `s`, or `|s|` if there is none. */
  function FirstDigitFrom(s: string, i: nat): (j: nat)
    requires i <= |s|
    ensures i <= j <= |s|
    ensures j < |s| ==> IsDigit(s[j])
    ensures forall k :: i <= k < j ==> !IsDigit(s[k])
    decreases |s| - i
  {
    if i == |s| || IsDigit(s[i]) then i else FirstDigitFrom(s, i + 1)
  }

  /** End of the maximal digit run that starts at `i` (greedy `\d+`). */
  function DigitRunEnd(s: string, i: nat): (j: nat)
    requires i <= |s|
    ensures i <= j <= |s|
    ensures forall k :: i <= k < j ==> IsDigit(s[k])
    ensures j == |s| || !IsDigit(s[j])
    decreases |s| - i
  {
    if i < |s| && IsDigit(s[i]) then DigitRunEnd(s, i + 1) else i
  }

  /** Leftmost match of `\d+`: the first maximal run of digits. */
  function FirstDigitRun(s: string): (r: Option<string>)
    ensures r.None? <==> !HasDigit(s)
    ensures r.Some? ==> exists i: nat, j: nat :: IsDigitRunMatch(s, i, j) && r.value == s[i..j]
  {
    var i := FirstDigitFrom(s, 0);
    if i == |s| then None
    else
      var j := DigitRunEnd(s, i);
      assert IsDigitRunMatch(s, i, j);
      Some(s[i..j])
  }

  /** `s[i..j]` is the leftmost match of `\d+` in `s`. */
  predicate IsDigitRunMatch(s: string, i: nat, j: nat)
  {
    && i < j <= |s|
    && (forall k :: 0 <= k < i ==> !IsDigit(s[k]))
    && (forall k :: i <= k < j ==> IsDigit(s[k]))
    && (j == |s| || !IsDigit(s[j]))
  }

  // ---------------------------------------------------------------- decimals

  /** A match of `\d+(\.\d+)?`: the whole-number digits and the fraction
      digits (empty when the optional group did not match). */
  datatype Decimal = Decimal(whole: string, frac: string)

  predicate IsDecimal(d: Decimal)
  {
    |d.whole| > 0 && AllDigits(d.whole) && AllDigits(d.frac)
  }

  /** The matched text, `m.group(1)`. */
  function DecimalText(d: Decimal): string
  {
    if d.frac == [] then d.whole else d.whole + "." + d.frac
  }

  /** The exact value of the matched text, as `float(m.group(1))` means it. */
  function DecimalValue(d: Decimal): real
    requires IsDecimal(d)
  {
    FixedPoint(d.whole, d.frac)
  }

  /** The exact value of the digits `whole.frac`. */
  function FixedPoint(whole: string, frac: string): real
    requires AllDigits(whole) && AllDigits(frac)
  {
    DigitsValue(whole) as real + DigitsValue(frac) as real / Pow10(|frac|) as real
  }

  /** What follows the whole-number digits ending at `j`: the fraction
      digits when `.` and a digit come next (greedy), nothing otherwise. */
  predicate FracFollows(s: string, j: nat, frac: string)
  {
    if frac == [] then
      !(j + 1 < |s| && s[j] == '.' && IsDigit(s[j + 1]))
    else
      && j + 1 + |frac| <= |s|
      && s[j] == '.'
      && s[j + 1..j + 1 + |frac|] == frac
      && (j + 1 + |frac| == |s| || !IsDigit(s[j + 1 + |frac|]))
  }

  /** The leftmost match of `\d+(\.\d+)?` in `s` starts at `i` and is `d`. */
  predicate IsDecimalMatch(s: string, i: nat, d: Decimal)
  {
    && IsDecimal(d)
    && IsDigitRunMatch(s, i, i + |d.whole|)
    && s[i..i + |d.whole|] == d.whole
    && FracFollows(s, i + |d.whole|, d.frac)
  }

  lemma DigitsSlice(s: string, i: nat, j: nat)
    requires i <= j <= |s| && forall k :: i <= k < j ==> IsDigit(s[k])
    ensures AllDigits(s[i..j])
  {
    forall m | 0 <= m < j - i ensures IsDigit(s[i..j][m]) {
      assert s[i..j][m] == s[i + m];
    }
  }

  /** The optional group `(\.\d+)` after the digits ending at `j`: taken
      whenever `.` and a digit follow, and then as long as digits last. */
  function FracAfter(s: string, j: nat): (frac: string)
    requires j <= |s|
    ensures AllDigits(frac) && FracFollows(s, j, frac)
  {
    if j + 1 < |s| && s[j] == '.' && IsDigit(s[j + 1]) then
      var k := DigitRunEnd(s, j + 1);
      DigitsSlice(s, j + 1, k);
      s[j + 1..k]
    else []
  }

  /** `re.search(r"(\d+(\.\d+)?)", s)`. */
  function FirstDecimal(s: string): (r: Option<Decimal>)
    ensures r.Some? ==> IsDecimal(r.value)
  {
    var i := FirstDigitFrom(s, 0);
    if i == |s| then None
    else
      var j := DigitRunEnd(s, i);
      DigitsSlice(s, i, j);
      Some(Decimal(s[i..j], FracAfter(s, j)))
  }

  /** The search finds nothing exactly when there is no digit, and otherwise
      a match at the first digit. */
  lemma FirstDecimalSpec(s: string)
    ensures FirstDecimal(s).None? <==> !HasDigit(s)
    ensures FirstDecimal(s).Some? ==> IsDecimalMatch(s, FirstDigitFrom(s, 0), FirstDecimal(s).value)
  {
    var i := FirstDigitFrom(s, 0);
    if i < |s| {
      var j := DigitRunEnd(s, i);
      assert IsDigitRunMatch(s, i, j);
    }
  }

  /** `m.group(1)` is the text the match covers: it starts where the match
      starts, and is the whole-number digits, followed by `.` and the
      fraction digits when the optional group matched. */
  lemma DecimalMatchText(s: string, i: nat, d: Decimal)
    requires IsDecimalMatch(s, i, d)
    ensures i + |DecimalText(d)| <= |s| && s[i..i + |DecimalText(d)|] == DecimalText(d)
  {
    var j := i + |d.whole|;
    assert s[i..j] == d.whole;
    if d.frac != [] {
      var k := j + 1 + |d.frac|;
      assert k <= |s| && s[j] == '.' && s[j + 1..k] == d.frac;
      var t := d.whole + "." + d.frac;
      assert DecimalText(d) == t;
      assert s[i..k] == s[i..j] + [s[j]] + s[j + 1..k];
    }
  }

  // ---------------------------------------------------------------- facts

  lemma StripWitness(s: string) returns (a: nat, b: nat)
    ensures a <= b <= |s| && Strip(s) == s[a..b]
    ensures AllWhitespace(s[..a]) && AllWhitespace(s[b..])
  {
    a, b :| a <= b <= |s| && Strip(s) == s[a..b] && AllWhitespace(s[..a]) && AllWhitespace(s[b..]);
  }

  /** The results of the two searches are fixed by their defining properties. */
  lemma FirstDigitFromUnique(s: string, i: nat, j: nat)
    requires i <= j <= |s|
    requires j < |s| ==> IsDigit(s[j])
    requires forall k :: i <= k < j ==> !IsDigit(s[k])
    ensures FirstDigitFrom(s, i) == j
  {
  }

  lemma DigitRunEndUnique(s: string, i: nat, j: nat)
    requires i <= j <= |s|
    requires forall k :: i <= k < j ==> IsDigit(s[k])
    requires j == |s| || !IsDigit(s[j])
    ensures DigitRunEnd(s, i) == j
  {
  }

  /** A leftmost match, wherever it is found, is what `FirstDecimal` returns. */
  lemma DecimalMatchIsFirstDecimal(s: string, i: nat, d: Decimal)
    requires IsDecimalMatch(s, i, d)
    ensures FirstDecimal(s) == Some(d)
  {
    var j := i + |d.whole|;
    FirstDigitFromUnique(s, 0, i);
    DigitRunEndUnique(s, i, j);
    FracAfterUnique(s, j, d.frac);
  }

  lemma FracAfterUnique(s: string, j: nat, frac: string)
    requires j <= |s| && AllDigits(frac) && FracFollows(s, j, frac)
    ensures FracAfter(s, j) == frac
  {
    if frac != [] {
      FracRunEnd(s, j, frac);
    }
  }

  /** The fraction digits that follow a match end where the digit run does. */
  lemma FracRunEnd(s: string, j: nat, frac: string)
    requires frac != [] && AllDigits(frac) && FracFollows(s, j, frac)
    ensures j + 1 < |s| && s[j] == '.' && IsDigit(s[j + 1])
    ensures DigitRunEnd(s, j + 1) == j + 1 + |frac|
  {
    var k := j + 1 + |frac|;
    forall m | j + 1 <= m < k ensures IsDigit(s[m]) {
      assert s[m] == s[j + 1..k][m - (j + 1)];
    }
    DigitRunEndUnique(s, j + 1, k);
  }

  /** Same digits, same dots, in the same places. */
  predicate SameSkeleton(s: string, t: string)
  {
    && |s| == |t|
    && (forall k :: 0 <= k < |s| ==> (IsDigit(s[k]) <==> IsDigit(t[k])))
    && (forall k :: 0 <= k < |s| ==> (s[k] == '.' <==> t[k] == '.'))
    && (forall k :: 0 <= k < |s| && IsDigit(s[k]) ==> s[k] == t[k])
  }

  lemma SkeletonSlice(s: string, t: string, i: nat, j: nat)
    requires SameSkeleton(s, t) && i <= j <= |s|
    requires AllDigits(s[i..j])
    ensures t[i..j] == s[i..j]
  {
    forall k | i <= k < j ensures t[k] == s[k] {
      assert IsDigit(s[i..j][k - i]);
    }
  }

  lemma SkeletonMatch(s: string, t: string, i: nat, d: Decimal)
    requires SameSkeleton(s, t) && IsDecimalMatch(s, i, d)
    ensures IsDecimalMatch(t, i, d)
  {
    var j := i + |d.whole|;
    SkeletonSlice(s, t, i, j);
    assert IsDigitRunMatch(t, i, j);
    if d.frac != [] {
      SkeletonSlice(s, t, j + 1, j + 1 + |d.frac|);
    }
    assert FracFollows(t, j, d.frac);
  }

  lemma FirstDecimalOfSkeleton(s: string, t: string)
    requires SameSkeleton(s, t)
    ensures FirstDecimal(t) == FirstDecimal(s)
  {
    if HasDigit(s) {
      var k :| 0 <= k < |s| && IsDigit(s[k]);
      assert IsDigit(t[k]);
      FirstDecimalSpec(s);
      var d := FirstDecimal(s).value;
      var i := FirstDigitFrom(s, 0);
      SkeletonMatch(s, t, i, d);
      DecimalMatchIsFirstDecimal(t, i, d);
    } else {
      assert !HasDigit(t);
      FirstDecimalSpec(s);
      FirstDecimalSpec(t);
    }
  }

  /** Upper-casing leaves digits and '.' where they are, so the leftmost
      decimal of the upper-cased text is that of the text. */
  lemma FirstDecimalOfUpper(t: string)
    ensures FirstDecimal(Upper(t)) == FirstDecimal(t)
  {
    FirstDecimalOfSkeleton(t, Upper(t));
  }

  /** `s[a..b]` with only whitespace around it. */
  predicate WhitespaceAround(s: string, a: nat, b: nat)
  {
    a <= b <= |s| && (forall k :: 0 <= k < a ==> IsWhitespace(s[k])) && (forall k :: b <= k < |s| ==> IsWhitespace(s[k]))
  }

  lemma WhitespaceAroundOfStrip(s: string, a: nat, b: nat)
    requires a <= b <= |s| && AllWhitespace(s[..a]) && AllWhitespace(s[b..])
    ensures WhitespaceAround(s, a, b)
  {
    forall k | 0 <= k < a ensures IsWhitespace(s[k]) { assert s[k] == s[..a][k]; }
    forall k | b <= k < |s| ensures IsWhitespace(s[k]) { assert s[k] == s[b..][k - b]; }
  }

  lemma TrimmedRun(s: string, a: nat, b: nat, i: nat, j: nat)
    requires WhitespaceAround(s, a, b) && IsDigitRunMatch(s[a..b], i, j)
    ensures IsDigitRunMatch(s, a + i, a + j) && s[a + i..a + j] == s[a..b][i..j]
  {
    var m := s[a..b];
    assert forall k :: 0 <= k < |m| ==> m[k] == s[a + k];
  }

  lemma TrimmedFrac(s: string, a: nat, b: nat, j: nat, frac: string)
    requires WhitespaceAround(s, a, b) && j <= b - a && FracFollows(s[a..b], j, frac)
    requires j > 0 && IsDigit(s[a + j - 1])
    ensures FracFollows(s, a + j, frac)
  {
    var m := s[a..b];
    assert forall k :: 0 <= k < |m| ==> m[k] == s[a + k];
    if frac != [] {
      assert s[a + j + 1..a + j + 1 + |frac|] == m[j + 1..j + 1 + |frac|];
    }
  }

  lemma TrimmedMatch(s: string, a: nat, b: nat, i: nat, d: Decimal)
    requires WhitespaceAround(s, a, b) && IsDecimalMatch(s[a..b], i, d)
    ensures IsDecimalMatch(s, a + i, d)
  {
    var j := i + |d.whole|;
    TrimmedRun(s, a, b, i, j);
    assert s[a + j - 1] == s[a..b][j - 1];
    TrimmedFrac(s, a, b, j, d.frac);
  }

  /** Cutting whitespace from both ends does not move the leftmost decimal. */
  lemma FirstDecimalOfTrimmed(s: string, a: nat, b: nat)
    requires WhitespaceAround(s, a, b)
    ensures FirstDecimal(s[a..b]) == FirstDecimal(s)
  {
    var m := s[a..b];
    HasDigitOfTrimmed(s, a, b);
    FirstDecimalSpec(m);
    FirstDecimalSpec(s);
    if HasDigit(m) {
      FirstDecimalOfTrimmedDigits(s, a, b);
    }
  }

  lemma FirstDecimalOfTrimmedDigits(s: string, a: nat, b: nat)
    requires WhitespaceAround(s, a, b) && HasDigit(s[a..b])
    ensures FirstDecimal(s[a..b]) == FirstDecimal(s)
  {
    var m := s[a..b];
    FirstDecimalSpec(m);
    var d := FirstDecimal(m).value;
    var i := FirstDigitFrom(m, 0);
    TrimmedMatch(s, a, b, i, d);
    DecimalMatchIsFirstDecimal(s, a + i, d);
  }

  lemma HasDigitOfTrimmed(s: string, a: nat, b: nat)
    requires WhitespaceAround(s, a, b)
    ensures HasDigit(s[a..b]) <==> HasDigit(s)
  {
    var m := s[a..b];
    assert forall k :: 0 <= k < |m| ==> m[k] == s[a + k];
    if HasDigit(s) {
      var k :| 0 <= k < |s| && IsDigit(s[k]);
      assert m[k - a] == s[k];
    }
  }

  /** The leftmost decimal of the trimmed text is that of the text. */
  lemma FirstDecimalOfStrip(s: string)
    ensures FirstDecimal(Strip(s)) == FirstDecimal(s)
  {
    var a, b := StripWitness(s);
    WhitespaceAroundOfStrip(s, a, b);
    FirstDecimalOfTrimmed(s, a, b);
  }

  lemma HasDigitOfUpper(t: string)
    ensures HasDigit(Upper(t)) <==> HasDigit(t)
  {
    if HasDigit(t) {
      var k :| 0 <= k < |t| && IsDigit(t[k]);
      assert IsDigit(Upper(t)[k]);
    }
  }
}
