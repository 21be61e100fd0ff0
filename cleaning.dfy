/**
 * The per-value normalisers of `clean_data` (imdb/imdb.py:37-89): each is a
 * total function from one raw cell (absent = pandas NaN) to a cleaned value.
 */
module Cleaning {

  import opened Wrappers
  import opened Text
  import Seqs

  // ---------------------------------------------------------------- numeric literals

  /** Index of the first '.' at or after `i`, or `|s|`. */
  function DotFrom(s: string, i: nat): (j: nat)
    requires i <= |s|
    ensures i <= j <= |s|
    ensures j < |s| ==> s[j] == '.'
    ensures forall k :: i <= k < j ==> s[k] != '.'
    decreases |s| - i
  {
    if i == |s| || s[i] == '.' then i else DotFrom(s, i + 1)
  }

  /** An unsigned literal `\d+`, `\d+\.\d*` or `\.\d+`, with its exact value. */
  function ParseUnsigned(b: string): Option<real>
  {
    var dot := DotFrom(b, 0);
    if dot == |b| then
      if |b| > 0 && AllDigits(b) then Some(DigitsValue(b) as real) else None
    else
      var whole, frac := b[..dot], b[dot + 1..];
      if AllDigits(whole) && AllDigits(frac) && |whole| + |frac| > 0 then Some(FixedPoint(whole, frac))
      else None
  }

  /** An optional sign and a plain decimal literal. */
  function ParseSigned(t: string): Option<real>
  {
    var signed := |t| > 0 && (t[0] == '-' || t[0] == '+');
    match ParseUnsigned(if signed then t[1..] else t)
    case None => None
    case Some(v) => Some(if signed && t[0] == '-' then -v else v)
  }

  /** The direct `float(x)` attempt of `clean_rating`: an optional sign and
      a plain decimal literal, between numeric blanks. */
  function ParseFloatLiteral(s: string): Option<real>
  {
    ParseSigned(NumericTrim(s))
  }

  lemma ParseUnsignedNeedsDigit(b: string)
    requires ParseUnsigned(b).Some?
    ensures HasDigit(b)
  {
    var dot := DotFrom(b, 0);
    if dot == |b| {
      assert IsDigit(b[0]);
    } else if dot > 0 {
      assert IsDigit(b[..dot][0]);
    } else {
      assert IsDigit(b[dot + 1..][0]);
    }
  }

  /** Every accepted numeric literal has a digit. */
  lemma ParseFloatNeedsDigit(s: string)
    requires ParseFloatLiteral(s).Some?
    ensures HasDigit(NumericTrim(s)) && HasDigit(s)
  {
    var t := NumericTrim(s);
    assert ParseSigned(t).Some?;
    if |t| > 0 && (t[0] == '-' || t[0] == '+') {
      ParseUnsignedNeedsDigit(t[1..]);
      var k :| 0 <= k < |t[1..]| && IsDigit(t[1..][k]);
      assert IsDigit(t[k + 1]);
    } else {
      ParseUnsignedNeedsDigit(t);
    }
    HasDigitOfNumericTrim(s);
  }

  /** A character that no plain decimal literal contains. */
  predicate IsForeignToLiteral(c: char)
  {
    !IsDigit(c) && c != '.' && c != '-' && c != '+' && !IsNumericSpace(c)
  }

  lemma ParseUnsignedRejects(b: string, m: nat)
    requires m < |b| && !IsDigit(b[m]) && b[m] != '.'
    ensures ParseUnsigned(b).None?
  {
    var dot := DotFrom(b, 0);
    if dot < |b| {
      if m < dot {
        assert b[..dot][m] == b[m];
      } else {
        assert m != dot;
        assert b[dot + 1..][m - dot - 1] == b[m];
      }
    }
  }

  lemma ParseSignedRejects(t: string, m: nat)
    requires m < |t| && IsForeignToLiteral(t[m])
    ensures ParseSigned(t).None?
  {
    if |t| > 0 && (t[0] == '-' || t[0] == '+') {
      assert m > 0;
      assert t[1..][m - 1] == t[m];
      ParseUnsignedRejects(t[1..], m - 1);
    } else {
      ParseUnsignedRejects(t, m);
    }
  }

  /** Text holding a character other than digits, `.`, a sign or a numeric
      blank fails the direct numeric parse. */
  lemma ParseFloatRejects(s: string, k: nat)
    requires k < |s| && IsForeignToLiteral(s[k])
    ensures ParseFloatLiteral(s).None?
  {
    var m := NumericTrimKeeps(s, k);
    ParseSignedRejects(NumericTrim(s), m);
  }

  // ---------------------------------------------------------------- rating

  /** Upper-cased labels that mean "no rating". */
  const RatingSentinels: set<string> :=
    {"NOT RATED", "UNRATED", "N/A", "NA", "NONE", "TBD", "NOT RATED/NOT RATED"}

  /** The value of a leftmost `\d+(\.\d+)?` match, absent when there is none. */
  function MatchedValue(m: Option<Decimal>): Option<real>
    requires m.Some? ==> IsDecimal(m.value)
  {
    match m
    case None => None
    case Some(d) => Some(DecimalValue(d))
  }

  /** `clean_rating`. */
  function CleanRating(x: Option<string>): (r: Option<real>)
    ensures x.None? ==> r.None?
  {
    match x
    case None => None
    case Some(s) =>
      var f := ParseFloatLiteral(s);
      if f.Some? then f
      else
        var u := Upper(Strip(s));
        if u in RatingSentinels then None
        else MatchedValue(FirstDecimal(u))
  }

  lemma SentinelsHaveNoDigit(u: string)
    requires u in RatingSentinels
    ensures !HasDigit(u)
  {
  }

  /** A sentinel label (after trimming and upper-casing) is never a rating. */
  lemma SentinelRatingIsAbsent(s: string)
    requires Upper(Strip(s)) in RatingSentinels
    ensures CleanRating(Some(s)) == None
  {
    SentinelsHaveNoDigit(Upper(Strip(s)));
    HasDigitOfUpper(Strip(s));
    FirstDecimalOfStrip(s);
    FirstDecimalSpec(s);
    FirstDecimalSpec(Strip(s));
    if ParseFloatLiteral(s).Some? {
      ParseFloatNeedsDigit(s);
    }
  }

  /** A rating that is not a numeric literal is the value of the leftmost
      `\d+(\.\d+)?` match in its text, or absent when the text has no digit.
      The sentinel test never changes this outcome: no sentinel has a digit. */
  lemma NonNumericRating(s: string)
    requires ParseFloatLiteral(s).None?
    ensures CleanRating(Some(s)) == MatchedValue(FirstDecimal(s))
    ensures CleanRating(Some(s)).None? <==> !HasDigit(s)
  {
    var u := Upper(Strip(s));
    FirstDecimalOfUpper(Strip(s));
    FirstDecimalOfStrip(s);
    FirstDecimalSpec(s);
    assert FirstDecimal(u) == FirstDecimal(s);
    if u in RatingSentinels {
      SentinelsHaveNoDigit(u);
    }
  }

  // Worked examples. Each takes its text as a parameter so that the
  // verifier reasons about it step by step instead of unfolding the
  // recursive definitions on a literal.

  lemma ParseFloatOfUnsignedText(s: string)
    requires NoEdgeNumericSpace(s) && (s == [] || (s[0] != '-' && s[0] != '+'))
    ensures ParseFloatLiteral(s) == ParseUnsigned(s)
  {
    NumericTrimOfTrimmed(s);
  }

  /** `float("\x1c8")` fails: the separator is not skipped. The rating
      then comes from the regex search. */
  lemma RatingAfterSeparator(s: string)
    requires s == "\U{001C}8"
    ensures ParseFloatLiteral(s).None?
    ensures CleanRating(Some(s)) == Some(8.0)
  {
    ParseFloatRejects(s, 0);
    assert IsDecimalMatch(s, 1, Decimal("8", "")) by {
      assert !IsDigit(s[0]) && IsDigit(s[1]);
      assert s[1..2] == "8";
    }
    RatingOfMatch(s, 1, Decimal("8", ""));
    FixedPointValues();
  }

  lemma RatingOfMatch(s: string, i: nat, d: Decimal)
    requires ParseFloatLiteral(s).None? && IsDecimalMatch(s, i, d)
    ensures CleanRating(Some(s)) == Some(DecimalValue(d))
  {
    NonNumericRating(s);
    DecimalMatchIsFirstDecimal(s, i, d);
  }

  lemma SingleDigitValue(c: char)
    requires IsDigit(c)
    ensures AllDigits([c]) && DigitsValue([c]) == c as int - '0' as int
  {
    DigitsValueSnoc([], c);
    assert [] + [c] == [c];
  }

  lemma SevenHalfOutOfTenParts(s: string)
    requires s == "7.5/10"
    ensures ParseFloatLiteral(s).None?
    ensures IsDecimalMatch(s, 0, Decimal("7", "5"))
  {
    ParseFloatRejects(s, 3);
    SevenHalfMatch(s);
  }

  lemma SevenHalfMatch(s: string)
    requires s == "7.5/10"
    ensures IsDecimalMatch(s, 0, Decimal("7", "5"))
  {
    assert IsDigit(s[0]) && s[1] == '.' && IsDigit(s[2]) && !IsDigit(s[3]);
    assert s[0..1] == "7" && s[2..3] == "5";
  }

  lemma FixedPointValues()
    ensures AllDigits("7") && AllDigits("5") && AllDigits("8") && AllDigits("1") && AllDigits("6")
    ensures FixedPoint("7", "5") == 7.5 && FixedPoint("7", "") == 7.0
    ensures FixedPoint("8", "") == 8.0 && FixedPoint("8", "1") == 8.1 && FixedPoint("6", "") == 6.0
  {
    SingleDigitValue('7');
    SingleDigitValue('5');
    SingleDigitValue('8');
    SingleDigitValue('1');
    SingleDigitValue('6');
  }

  lemma RatingSevenHalfOutOfTen(s: string)
    requires s == "7.5/10"
    ensures CleanRating(Some(s)) == Some(7.5)
  {
    SevenHalfOutOfTenParts(s);
    RatingOfMatch(s, 0, Decimal("7", "5"));
    FixedPointValues();
  }

  lemma RatedEightDigitRun(s: string)
    requires s == "Rated 8"
    ensures IsDigitRunMatch(s, 6, 7) && s[6..7] == "8"
  {
  }

  lemma RatedEightParts(s: string)
    requires s == "Rated 8"
    ensures ParseFloatLiteral(s).None?
    ensures IsDecimalMatch(s, 6, Decimal("8", ""))
  {
    ParseFloatRejects(s, 0);
    RatedEightDigitRun(s);
  }

  lemma RatingRatedEight(s: string)
    requires s == "Rated 8"
    ensures CleanRating(Some(s)) == Some(8.0)
  {
    RatedEightParts(s);
    RatingOfMatch(s, 6, Decimal("8", ""));
    FixedPointValues();
  }

  lemma SixOutOfTenParts(s: string)
    requires s == "6/10"
    ensures ParseFloatLiteral(s).None?
    ensures IsDecimalMatch(s, 0, Decimal("6", ""))
  {
    ParseFloatRejects(s, 1);
    assert s[0..1] == "6";
  }

  lemma RatingSixOutOfTen(s: string)
    requires s == "6/10"
    ensures CleanRating(Some(s)) == Some(6.0)
  {
    SixOutOfTenParts(s);
    RatingOfMatch(s, 0, Decimal("6", ""));
    FixedPointValues();
  }

  lemma ParsedLiteral(s: string, whole: string, frac: string)
    requires NoEdgeWhitespace(s) && s == whole + "." + frac
    requires |whole| > 0 && AllDigits(whole) && AllDigits(frac)
    ensures ParseFloatLiteral(s) == Some(FixedPoint(whole, frac))
  {
    ParseFloatOfUnsignedText(s);
    assert s[|whole|] == '.';
    forall k | 0 <= k < |whole| ensures s[k] != '.' { assert s[k] == whole[k]; }
    assert DotFrom(s, 0) == |whole|;
    assert s[..|whole|] == whole && s[|whole| + 1..] == frac;
  }

  lemma RatingSevenDot(s: string)
    requires s == "7."
    ensures CleanRating(Some(s)) == Some(7.0)
  {
    FixedPointValues();
    ParsedLiteral(s, "7", "");
  }

  lemma RatingEightPointOne(s: string)
    requires s == "8.1"
    ensures CleanRating(Some(s)) == Some(8.1)
  {
    FixedPointValues();
    ParsedLiteral(s, "8", "1");
  }

  lemma UpperNotRated(s: string)
    requires s == "Not Rated"
    ensures Upper(s) == "NOT RATED"
  {
    var u := Upper(s);
    assert |u| == 9;
    forall k | 0 <= k < 9 ensures u[k] == "NOT RATED"[k] { }
  }

  lemma RatingNotRated(s: string)
    requires s == "Not Rated"
    ensures CleanRating(Some(s)) == None
  {
    StripOfTrimmed(s);
    UpperNotRated(s);
    SentinelRatingIsAbsent(s);
  }

  // ---------------------------------------------------------------- runtime

  /** `clean_runtime`: the first run of digits, read as an integer. */
  function CleanRuntime(x: Option<string>): (r: Option<nat>)
    ensures r.None? <==> x.None? || !HasDigit(x.value)
    ensures r.Some? ==> exists i: nat, j: nat ::
      IsDigitRunMatch(x.value, i, j) && AllDigits(x.value[i..j]) && r.value == DigitsValue(x.value[i..j])
  {
    match x
    case None => None
    case Some(s) =>
      match FirstDigitRun(s)
      case None => None
      case Some(ds) => Some(DigitsValue(ds))
  }

  lemma ThreeDigitValue(ds: string)
    requires ds == "142"
    ensures AllDigits(ds) && DigitsValue(ds) == 142
  {
    SingleDigitValue('1');
    DigitsValueSnoc("1", '4');
    assert "1" + ['4'] == "14";
    DigitsValueSnoc("14", '2');
    assert "14" + ['2'] == "142";
  }

  lemma RuntimeWithUnit(s: string)
    requires s == "142 min" || s == "142"
    ensures CleanRuntime(Some(s)) == Some(142)
  {
    FirstDigitFromUnique(s, 0, 0);
    DigitRunEndUnique(s, 0, 3);
    ThreeDigitValue(s[0..3]);
  }

  lemma RuntimeUnknown(s: string)
    requires s == "unknown"
    ensures CleanRuntime(Some(s)) == None
  {
    assert !HasDigit(s);
  }

  // ---------------------------------------------------------------- genre

  predicate IsGenreDelimiter(c: char)
  {
    c == ',' || c == ';' || c == '/' || c == '|'
  }

  predicate HasNoDelimiter(s: string)
  {
    forall k :: 0 <= k < |s| ==> !IsGenreDelimiter(s[k])
  }

  function DelimiterFrom(s: string, i: nat): (j: nat)
    requires i <= |s|
    ensures i <= j <= |s|
    ensures j < |s| ==> IsGenreDelimiter(s[j])
    ensures forall k :: i <= k < j ==> !IsGenreDelimiter(s[k])
    decreases |s| - i
  {
    if i == |s| || IsGenreDelimiter(s[i]) then i else DelimiterFrom(s, i + 1)
  }

  /** `re.split('[,;/|]', s)`: the pieces between delimiters, empty ones included. */
  function SplitGenres(s: string): (pieces: seq<string>)
    ensures |pieces| >= 1
    ensures forall p :: p in pieces ==> HasNoDelimiter(p)
    decreases |s|
  {
    var i := DelimiterFrom(s, 0);
    if i == |s| then [s] else [s[..i]] + SplitGenres(s[i + 1..])
  }

  /** The delimiter characters of `s`, in order. */
  function Delimiters(s: string): string
  {
    if s == [] then [] else (if IsGenreDelimiter(s[0]) then [s[0]] else []) + Delimiters(s[1..])
  }

  /** Glue pieces back together with the given separators between them. */
  function Join(pieces: seq<string>, seps: string): string
    requires |pieces| == |seps| + 1
  {
    if seps == [] then pieces[0] else pieces[0] + [seps[0]] + Join(pieces[1..], seps[1..])
  }

  lemma {:induction false} DelimitersAppend(a: string, b: string)
    ensures Delimiters(a + b) == Delimiters(a) + Delimiters(b)
  {
    if a != [] {
      assert (a + b)[1..] == a[1..] + b;
      DelimitersAppend(a[1..], b);
    } else {
      assert a + b == b;
    }
  }

  lemma {:induction false} DelimitersOfDelimiterFree(s: string)
    requires HasNoDelimiter(s)
    ensures Delimiters(s) == []
  {
    if s != [] {
      DelimitersOfDelimiterFree(s[1..]);
    }
  }

  /** Splitting loses nothing but the delimiters: joining the pieces with the
      delimiters of `s`, in order, gives `s` back. */
  lemma {:induction false} JoinSplitGenres(s: string)
    ensures |SplitGenres(s)| == |Delimiters(s)| + 1
    ensures Join(SplitGenres(s), Delimiters(s)) == s
    decreases |s|
  {
    var i := DelimiterFrom(s, 0);
    if i == |s| {
      DelimitersOfDelimiterFree(s);
    } else {
      var rest := s[i + 1..];
      assert s == s[..i] + [s[i]] + rest;
      DelimitersAppend(s[..i] + [s[i]], rest);
      DelimitersAppend(s[..i], [s[i]]);
      DelimitersOfDelimiterFree(s[..i]);
      assert Delimiters([s[i]]) == [s[i]];
      JoinSplitGenres(rest);
    }
  }

  lemma DelimiterFromUnique(s: string, i: nat, j: nat)
    requires i <= j <= |s|
    requires j < |s| ==> IsGenreDelimiter(s[j])
    requires forall k :: i <= k < j ==> !IsGenreDelimiter(s[k])
    ensures DelimiterFrom(s, i) == j
    decreases j - i
  {
    if i < j {
      DelimiterFromUnique(s, i + 1, j);
    }
  }

  /** Split distributes over a delimiter: the pieces of `a`, then those of `b`. */
  lemma {:induction false} SplitGenresAppend(a: string, d: char, b: string)
    requires IsGenreDelimiter(d)
    ensures SplitGenres(a + [d] + b) == SplitGenres(a) + SplitGenres(b)
    decreases |a|
  {
    var s := a + [d] + b;
    var i := DelimiterFrom(a, 0);
    forall k | 0 <= k < i ensures !IsGenreDelimiter(s[k]) {
      assert s[k] == a[k];
    }
    if i == |a| {
      assert s[|a|] == d;
      DelimiterFromUnique(s, 0, |a|);
      assert s[..|a|] == a;
      assert s[|a| + 1..] == b;
      assert SplitGenres(a) == [a];
      assert SplitGenres(s) == [a] + SplitGenres(b);
    } else {
      assert s[i] == a[i];
      DelimiterFromUnique(s, 0, i);
      assert s[..i] == a[..i];
      assert s[i + 1..] == a[i + 1..] + [d] + b;
      SplitGenresAppend(a[i + 1..], d, b);
      assert SplitGenres(s) == [a[..i]] + SplitGenres(s[i + 1..]);
      assert SplitGenres(a) == [a[..i]] + SplitGenres(a[i + 1..]);
    }
  }

  /** A cleaned genre: non-empty, trimmed, free of delimiters. */
  predicate IsGenreToken(g: string)
  {
    g != [] && NoEdgeWhitespace(g) && HasNoDelimiter(g)
  }

  /** Strip every piece and keep the non-empty ones, in order. */
  function Tokens(pieces: seq<string>): (r: seq<string>)
    requires forall p :: p in pieces ==> HasNoDelimiter(p)
    ensures forall g :: g in r ==> IsGenreToken(g)
  {
    if pieces == [] then []
    else
      var t := Strip(pieces[0]);
      StripKeepsNoDelimiter(pieces[0]);
      (if t == [] then [] else [t]) + Tokens(pieces[1..])
  }

  lemma StripKeepsNoDelimiter(p: string)
    requires HasNoDelimiter(p)
    ensures HasNoDelimiter(Strip(p))
  {
    var a, b := StripWitness(p);
    assert forall k :: 0 <= k < b - a ==> Strip(p)[k] == p[a + k];
  }

  lemma {:induction false} TokensAppend(p: seq<string>, q: seq<string>)
    requires forall x :: x in p ==> HasNoDelimiter(x)
    requires forall x :: x in q ==> HasNoDelimiter(x)
    ensures Tokens(p + q) == Tokens(p) + Tokens(q)
  {
    if p == [] {
      assert p + q == q;
    } else {
      var head := if Strip(p[0]) == [] then [] else [Strip(p[0])];
      assert (p + q)[0] == p[0] && (p + q)[1..] == p[1..] + q;
      assert Tokens(p + q) == head + Tokens(p[1..] + q);
      TokensAppend(p[1..], q);
      assert Tokens(p) == head + Tokens(p[1..]);
      Seqs.AppendAssoc(head, Tokens(p[1..]), Tokens(q));
    }
  }

  /** The `genre_list` of one row: `fillna('')`, split, strip, drop empties. */
  function GenreList(x: Option<string>): (r: seq<string>)
    ensures forall g :: g in r ==> IsGenreToken(g)
  {
    Tokens(SplitGenres(match x case None => "" case Some(s) => s))
  }

  /** Source order: the genres of `a`, a delimiter, then `b` are those of `a`
      followed by those of `b`. */
  lemma GenreListAppend(a: string, d: char, b: string)
    requires IsGenreDelimiter(d)
    ensures GenreList(Some(a + [d] + b)) == GenreList(Some(a)) + GenreList(Some(b))
  {
    SplitGenresAppend(a, d, b);
    TokensAppend(SplitGenres(a), SplitGenres(b));
  }

  /** Text without a delimiter is one genre, its trimmed self, unless blank. */
  lemma GenreListOfDelimiterFree(s: string)
    requires HasNoDelimiter(s)
    ensures GenreList(Some(s)) == if Strip(s) == [] then [] else [Strip(s)]
  {
    assert DelimiterFrom(s, 0) == |s|;
    assert SplitGenres(s) == [s];
    var t := Strip(s);
    assert [s][1..] == [];
    assert Tokens([s]) == (if t == [] then [] else [t]) + Tokens([]);
  }

  lemma GenreListOfAbsent()
    ensures GenreList(None) == []
    ensures GenreList(Some("")) == []
  {
    GenreListOfDelimiterFree("");
  }

  /** A single word without edge whitespace or delimiter is one genre. */
  lemma GenreOfWord(w: string)
    requires w != [] && NoEdgeWhitespace(w) && HasNoDelimiter(w)
    ensures GenreList(Some(w)) == [w]
  {
    StripOfTrimmed(w);
    GenreOfTrimmedWord(w, w);
  }

  /** Delimiter-free text that trims to a non-empty word is that one genre. */
  lemma GenreOfTrimmedWord(s: string, w: string)
    requires HasNoDelimiter(s) && Strip(s) == w && w != []
    ensures GenreList(Some(s)) == [w]
  {
    GenreListOfDelimiterFree(s);
  }

  /** One leading whitespace character is trimmed away. */
  lemma StripOfSpaced(c: char, w: string)
    requires IsWhitespace(c) && w != [] && NoEdgeWhitespace(w)
    ensures Strip([c] + w) == w
  {
    var s := [c] + w;
    assert s[1..] == w;
    StripOfTrimmed(w);
  }

  /** A word after one whitespace character is the word alone. */
  lemma GenreOfSpacedWord(c: char, w: string)
    requires IsWhitespace(c) && w != [] && NoEdgeWhitespace(w) && HasNoDelimiter(w)
    ensures GenreList(Some([c] + w)) == [w]
  {
    var s := [c] + w;
    StripOfSpaced(c, w);
    forall k | 0 <= k < |s| ensures !IsGenreDelimiter(s[k]) {
      if k > 0 { assert s[k] == w[k - 1]; }
    }
    GenreOfTrimmedWord(s, w);
  }

  predicate IsPlainWord(w: string)
  {
    w != [] && NoEdgeWhitespace(w) && HasNoDelimiter(w)
  }

  /** A spaced word, a delimiter and a word give the two words. */
  lemma GenreListOfTwoWords(sp: char, b: string, d: char, c: string)
    requires IsWhitespace(sp) && IsGenreDelimiter(d) && IsPlainWord(b) && IsPlainWord(c)
    ensures GenreList(Some([sp] + b + [d] + c)) == [b, c]
  {
    GenreListAppend([sp] + b, d, c);
    GenreOfSpacedWord(sp, b);
    GenreOfWord(c);
  }

  /** A word, a delimiter, then two words as above give the three words. */
  lemma GenreListOfThreeWords(a: string, d: char, rest: string, b: string, c: string)
    requires IsGenreDelimiter(d) && IsPlainWord(a)
    requires GenreList(Some(rest)) == [b, c]
    ensures GenreList(Some(a + [d] + rest)) == [a, b, c]
  {
    GenreListAppend(a, d, rest);
    GenreOfWord(a);
  }

  lemma PlainWordsOf(a: string, b: string, c: string)
    requires a == "Action" && b == "Drama" && c == "Thriller"
    ensures IsPlainWord(a) && IsPlainWord(b) && IsPlainWord(c)
  {
  }

  /** `"Action, Drama/Thriller"` gives `["Action", "Drama", "Thriller"]`. */
  lemma GenreListExample(a: string, b: string, c: string)
    requires a == "Action" && b == "Drama" && c == "Thriller"
    ensures GenreList(Some(a + [','] + ([' '] + b + ['/'] + c))) == [a, b, c]
  {
    PlainWordsOf(a, b, c);
    GenreListOfTwoWords(' ', b, '/', c);
    GenreListOfThreeWords(a, ',', [' '] + b + ['/'] + c, b, c);
  }

  // ---------------------------------------------------------------- director, title, year

  /** `fillna('')` on the director column: absent is the empty string. */
  function FillDirector(x: Option<string>): (r: string)
    ensures x.Some? ==> r == x.value
    ensures r == "" <==> x.None? || x.value == ""
  {
    match x
    case None => ""
    case Some(s) => s
  }

  /** `astype(str).str.strip()` on the title column; NaN renders as "nan". */
  function CleanTitle(x: Option<string>): (r: string)
    ensures NoEdgeWhitespace(r)
    ensures IsTrimOf(if x.None? then "nan" else x.value, r)
  {
    Strip(match x case None => "nan" case Some(s) => s)
  }

  /** An optionally signed integer literal, else absent. */
  function ParseInteger(t: string): (r: Option<int>)
    ensures r.Some? ==> HasDigit(t)
  {
    var neg := |t| > 0 && t[0] == '-';
    var body := if |t| > 0 && (t[0] == '-' || t[0] == '+') then t[1..] else t;
    if |body| > 0 && AllDigits(body) then
      assert IsDigit(body[0]);
      assert body[0] == t[|t| - |body|];
      Some(if neg then -(DigitsValue(body) as int) else DigitsValue(body))
    else None
  }

  /** The coerced year: an optionally signed integer literal between
      numeric blanks, else absent. */
  function ParseYear(x: Option<string>): (r: Option<int>)
    ensures r.Some? ==> x.Some? && HasDigit(NumericTrim(x.value))
  {
    match x
    case None => None
    case Some(s) => ParseInteger(NumericTrim(s))
  }

  /** An unsigned integer literal is read as its value. */
  lemma ParseYearOfDigits(ds: string)
    requires ds != [] && AllDigits(ds)
    ensures ParseYear(Some(ds)) == Some(DigitsValue(ds) as int)
  {
    assert !IsNumericSpace(ds[0]) && !IsNumericSpace(ds[|ds| - 1]);
    NumericTrimOfTrimmed(ds);
    ParseIntegerOfDigits(ds);
  }

  lemma ParseIntegerOfDigits(ds: string)
    requires ds != [] && AllDigits(ds)
    ensures ParseInteger(ds) == Some(DigitsValue(ds) as int)
  {
    assert ds[0] != '-' && ds[0] != '+';
  }

  /** A minus sign before the digits negates the value. */
  lemma ParseYearOfNegative(ds: string)
    requires ds != [] && AllDigits(ds)
    ensures ParseYear(Some("-" + ds)) == Some(-(DigitsValue(ds) as int))
  {
    var m := "-" + ds;
    assert m[1..] == ds;
    assert NoEdgeNumericSpace(m) by {
      assert m[|m| - 1] == ds[|ds| - 1];
    }
    NumericTrimOfTrimmed(m);
    ParseIntegerOfNegative(m, ds);
  }

  lemma ParseIntegerOfNegative(m: string, ds: string)
    requires ds != [] && AllDigits(ds) && |m| > 0 && m[0] == '-' && m[1..] == ds
    ensures ParseInteger(m) == Some(-(DigitsValue(ds) as int))
  {
  }
}
