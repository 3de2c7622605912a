/**
 * Character classes and the small string operations the bot applies to
 * document lines and user messages: Python's `str.strip()`, `str.startswith`,
 * `str.isdigit()`, `re.search(r"\d+", ...)` and `str.split(":", 1)[1]`.
 * Strings are sequences of Unicode scalar values, as Python's `str` is.
 */
module Text {

  /** Python's `str.isspace()` characters: what `strip()` with no argument removes. */
  predicate IsSpace(c: char) {
    c == ' ' || ('\t' <= c <= '\r') || ('\U{1C}' <= c <= '\U{1F}') ||
    c == '\U{85}' || c == '\U{A0}' || c == '\U{1680}' ||
    ('\U{2000}' <= c <= '\U{200A}') || c == '\U{2028}' || c == '\U{2029}' ||
    c == '\U{202F}' || c == '\U{205F}' || c == '\U{3000}'
  }

  /**
   * Decimal digits (Unicode category Nd), what `\d` matches in a Python
   * `str` pattern. The blocks listed cover ASCII, Arabic-Indic and the
   * Extended Arabic-Indic (Persian) digits, plus Devanagari and fullwidth.
   */
  predicate IsDecimalDigit(c: char) {
    ('0' <= c <= '9') || ('٠' <= c <= '٩') || ('۰' <= c <= '۹') ||
    ('०' <= c <= '९') || ('０' <= c <= '９')
  }

  /**
   * What `str.isdigit()` accepts per character: every decimal digit, and also
   * the superscript, subscript and circled digits, which `\d` does not match.
   */
  predicate IsDigitChar(c: char) {
    IsDecimalDigit(c) ||
    c == '²' || c == '³' || c == '¹' || c == '⁰' ||
    ('⁴' <= c <= '⁹') || ('₀' <= c <= '₉') ||
    ('①' <= c <= '⑨')
  }

  /** `s.isdigit()`: non-empty and made of digit characters only. */
  predicate IsDigits(s: string) {
    |s| > 0 && forall i :: 0 <= i < |s| ==> IsDigitChar(s[i])
  }

  /**
   * `s.startswith(prefix)`, compared character by character as Python does.
   * `StartsWithPrefix` shows it is Dafny's prefix relation `prefix <= s`; the
   * position-by-position form lets the label lemmas compare one character at
   * a time instead of whole slices.
   */
  predicate StartsWith(s: string, prefix: string) {
    MatchesFrom(s, prefix, 0)
  }

  /** `s` agrees with `prefix` from position `i` up to the end of `prefix`. */
  predicate MatchesFrom(s: string, prefix: string, i: nat)
    requires i <= |prefix| && i <= |s|
    decreases |s| - i
  {
    i == |prefix| || (i < |s| && s[i] == prefix[i] && MatchesFrom(s, prefix, i + 1))
  }

  lemma {:induction false} MatchesFromAll(s: string, prefix: string, i: nat)
    requires i <= |prefix| && i <= |s|
    ensures MatchesFrom(s, prefix, i) <==>
      |prefix| <= |s| && forall j :: i <= j < |prefix| ==> s[j] == prefix[j]
    decreases |s| - i
  {
    if i < |prefix| && i < |s| {
      MatchesFromAll(s, prefix, i + 1);
    }
  }

  /** `startswith` holds exactly when `prefix` is a prefix of `s`. */
  lemma {:induction false} StartsWithPrefix(s: string, prefix: string)
    ensures StartsWith(s, prefix) <==> prefix <= s
  {
    MatchesFromAll(s, prefix, 0);
  }

  /** The index of the first non-space at or after `i`, or `|s|`. */
  function SkipSpaces(s: string, i: nat): (k: nat)
    requires i <= |s|
    ensures i <= k <= |s|
    decreases |s| - i
  {
    if i < |s| && IsSpace(s[i]) then SkipSpaces(s, i + 1) else i
  }

  /** `SkipSpaces` passes over whitespace only and stops at a non-space or the end. */
  lemma {:induction false} SkipSpacesStops(s: string, i: nat)
    requires i <= |s|
    ensures var k := SkipSpaces(s, i);
      (forall j :: i <= j < k ==> IsSpace(s[j])) && (k < |s| ==> !IsSpace(s[k]))
    decreases |s| - i
  {
    if i < |s| && IsSpace(s[i]) {
      SkipSpacesStops(s, i + 1);
    }
  }

  /** The index just after the last non-space before `j`, or 0. */
  function SkipSpacesBack(s: string, j: nat): (k: nat)
    requires j <= |s|
    ensures k <= j
  {
    if j > 0 && IsSpace(s[j - 1]) then SkipSpacesBack(s, j - 1) else j
  }

  /** `SkipSpacesBack` passes back over whitespace only and stops after a non-space or at the start. */
  lemma {:induction false} SkipSpacesBackStops(s: string, j: nat)
    requires j <= |s|
    ensures var k := SkipSpacesBack(s, j);
      (forall i :: k <= i < j ==> IsSpace(s[i])) && (k > 0 ==> !IsSpace(s[k - 1]))
  {
    if j > 0 && IsSpace(s[j - 1]) {
      SkipSpacesBackStops(s, j - 1);
    }
  }

  /** Removes leading whitespace. */
  function TrimStart(s: string): string {
    s[SkipSpaces(s, 0)..]
  }

  /** Removes trailing whitespace. */
  function TrimEnd(s: string): string {
    s[..SkipSpacesBack(s, |s|)]
  }

  /** `s.strip()`. */
  function Strip(s: string): string {
    TrimEnd(TrimStart(s))
  }

  /**
   * `strip()` keeps exactly the middle of `s`: a slice `s[i..j]` with only
   * whitespace before and after it, and no whitespace at either of its ends.
   */
  lemma {:induction false} StripSlice(s: string)
    ensures var r := Strip(s);
      exists i, j :: 0 <= i <= j <= |s| && r == s[i..j] &&
        (forall k :: 0 <= k < i ==> IsSpace(s[k])) &&
        (forall k :: j <= k < |s| ==> IsSpace(s[k])) &&
        (r == [] || (!IsSpace(r[0]) && !IsSpace(r[|r| - 1])))
  {
    var i := SkipSpaces(s, 0);
    var t := s[i..];
    var n := SkipSpacesBack(t, |t|);
    SkipSpacesStops(s, 0);
    SkipSpacesBackStops(t, |t|);
    var j := i + n;
    assert Strip(s) == t[..n] == s[i..j];
    assert forall k :: j <= k < |s| ==> s[k] == t[k - i];
  }

  /** Stripping twice is stripping once. */
  lemma {:induction false} StripIdempotent(s: string)
    ensures Strip(Strip(s)) == Strip(s)
  {
    var t := TrimStart(s);
    var r := Strip(s);
    SkipSpacesStops(s, 0);
    SkipSpacesBackStops(t, |t|);
    assert r == t[..SkipSpacesBack(t, |t|)];
    if r != [] {
      assert r[0] == t[0];
      assert SkipSpaces(r, 0) == 0;
      assert SkipSpacesBack(r, |r|) == |r|;
      assert r[0..] == r && r[..|r|] == r;
    }
  }

  /** Leading whitespace does not survive `TrimStart`. */
  lemma {:induction false} TrimStartSpace(c: char, s: string)
    requires IsSpace(c)
    ensures TrimStart([c] + s) == TrimStart(s)
  {
    SkipSpacesShift(c, s, 0);
    assert ([c] + s)[1 + SkipSpaces(s, 0)..] == s[SkipSpaces(s, 0)..];
  }

  lemma {:induction false} SkipSpacesShift(c: char, s: string, i: nat)
    requires IsSpace(c) && i <= |s|
    ensures SkipSpaces([c] + s, i + 1) == 1 + SkipSpaces(s, i)
    decreases |s| - i
  {
    if i < |s| && IsSpace(s[i]) {
      SkipSpacesShift(c, s, i + 1);
    }
  }

  /** The index of the first decimal digit at or after `i`, or `|s|`. */
  function DigitFrom(s: string, i: nat): (k: nat)
    requires i <= |s|
    ensures i <= k <= |s|
    ensures forall j :: i <= j < k ==> !IsDecimalDigit(s[j])
    ensures k < |s| ==> IsDecimalDigit(s[k])
    decreases |s| - i
  {
    if i == |s| || IsDecimalDigit(s[i]) then i else DigitFrom(s, i + 1)
  }

  /** The index just after the run of decimal digits that starts at `i`. */
  function DigitRunEnd(s: string, i: nat): (k: nat)
    requires i <= |s|
    ensures i <= k <= |s|
    ensures forall j :: i <= j < k ==> IsDecimalDigit(s[j])
    ensures k < |s| ==> !IsDecimalDigit(s[k])
    decreases |s| - i
  {
    if i < |s| && IsDecimalDigit(s[i]) then DigitRunEnd(s, i + 1) else i
  }

  /**
   * `m.group() if m else ""` for `m = re.search(r"\d+", s)`: the leftmost
   * maximal run of decimal digits, or the empty string when `s` has no digit.
   */
  function FirstDigitRun(s: string): (r: string)
    ensures r == [] <==> forall i :: 0 <= i < |s| ==> !IsDecimalDigit(s[i])
    ensures forall i :: 0 <= i < |r| ==> IsDecimalDigit(r[i])
    ensures r != [] ==>
      var k := DigitFrom(s, 0);
      k + |r| <= |s| && r == s[k..k + |r|] && (k + |r| == |s| || !IsDecimalDigit(s[k + |r|]))
  {
    var k := DigitFrom(s, 0);
    s[k..DigitRunEnd(s, k)]
  }

  /** The index of the first ASCII colon at or after `i`, or `|s|`. */
  function ColonFrom(s: string, i: nat): (k: nat)
    requires i <= |s|
    ensures i <= k <= |s|
    ensures forall j :: i <= j < k ==> s[j] != ':'
    ensures k < |s| ==> s[k] == ':'
    decreases |s| - i
  {
    if i == |s| || s[i] == ':' then i else ColonFrom(s, i + 1)
  }

  /**
   * `s.split(":", 1)[1]`: the text after the first colon. Only the labelled
   * lines reach it, and they always hold a colon (`AfterLabel`); without one
   * the result is empty.
   */
  function AfterFirstColon(s: string): string {
    var k := ColonFrom(s, 0);
    if k < |s| then s[k + 1..] else []
  }

  /**
   * For a label whose only colon is its last character, the first colon of a
   * line that starts with the label is the label's own, so the text after it
   * is the rest of the line after the label.
   */
  lemma {:induction false} AfterLabel(tag: string, line: string)
    requires |tag| > 0 && tag[|tag| - 1] == ':'
    requires forall i :: 0 <= i < |tag| - 1 ==> tag[i] != ':'
    requires StartsWith(line, tag)
    ensures |tag| <= |line| && ':' in line
    ensures AfterFirstColon(line) == line[|tag|..]
  {
    StartsWithPrefix(line, tag);
    assert line[|tag| - 1] == ':';
    assert forall i :: 0 <= i < |tag| - 1 ==> line[i] == tag[i];
  }
}
