/** Characters and their classes, as Rust's `char` and `u8` methods see them.

    Text is a sequence of characters. Every byte that the program looks for is
    ASCII, and every byte of a character beyond ASCII is at least 128, so the
    byte loops of the program stop at the same characters. */
module Chars {

  // The Unicode tables beyond ASCII. They have no value here, so everything
  // proved holds for every table.
  const ALPHABETIC_BEYOND_ASCII: char -> bool
  const NUMERIC_BEYOND_ASCII: char -> bool
  const WHITESPACE_BEYOND_ASCII: char -> bool

  predicate IsAscii(c: char) { c as int < 128 }

  predicate IsAsciiDigit(c: char) { '0' <= c <= '9' }

  predicate IsAsciiAlphabetic(c: char) { 'a' <= c <= 'z' || 'A' <= c <= 'Z' }

  predicate IsAsciiAlphanumeric(c: char) { IsAsciiAlphabetic(c) || IsAsciiDigit(c) }

  /** `u8::is_ascii_whitespace`: it leaves out the vertical tab. */
  predicate IsAsciiWhitespace(c: char) { c in " \t\n\r\U{0C}" }

  predicate IsAlphabetic(c: char) {
    if IsAscii(c) then IsAsciiAlphabetic(c) else ALPHABETIC_BEYOND_ASCII(c)
  }

  predicate IsAlphanumeric(c: char) {
    if IsAscii(c) then IsAsciiAlphanumeric(c) else ALPHABETIC_BEYOND_ASCII(c) || NUMERIC_BEYOND_ASCII(c)
  }

  /** `char::is_whitespace`. No Unicode whitespace character is alphanumeric. */
  predicate IsWhitespace(c: char) {
    if IsAscii(c) then IsAsciiWhitespace(c) || c == '\U{0B}'
    else WHITESPACE_BEYOND_ASCII(c) && !IsAlphanumeric(c)
  }

  predicate IsWordChar(c: char) { IsAlphanumeric(c) || c == '_' }

  predicate IsLineBreak(c: char) { c == '\n' || c == '\r' }

  /** `text.trim().is_empty()` */
  predicate IsBlank(text: string) { forall i :: 0 <= i < |text| ==> IsWhitespace(text[i]) }

  predicate HasLineBreak(text: string) { exists i :: 0 <= i < |text| && IsLineBreak(text[i]) }

  function Lower(c: char): char {
    if 'A' <= c <= 'Z' then (c as int + 32) as char else c
  }

  function Upper(c: char): char {
    if 'a' <= c <= 'z' then (c as int - 32) as char else c
  }

  function LowerText(text: string): (lower: string)
    ensures |lower| == |text|
    ensures forall i :: 0 <= i < |text| ==> lower[i] == Lower(text[i])
  {
    seq(|text|, i requires 0 <= i < |text| => Lower(text[i]))
  }

  function UpperText(text: string): (upper: string)
    ensures |upper| == |text|
    ensures forall i :: 0 <= i < |text| ==> upper[i] == Upper(text[i])
  {
    seq(|text|, i requires 0 <= i < |text| => Upper(text[i]))
  }

  /** `eq_ignore_ascii_case` */
  predicate SameLetters(a: string, b: string) {
    |a| == |b| && forall i :: 0 <= i < |a| ==> Lower(a[i]) == Lower(b[i])
  }

  /** The place of the first `needle` in `hay`, as `str::find`. */
  function Find(hay: string, needle: string): (at: int)
    ensures at == -1 || 0 <= at <= |hay| - |needle|
    ensures at >= 0 ==> hay[at..at + |needle|] == needle
  {
    if needle <= hay then 0
    else if hay == "" then -1
    else
      var rest := Find(hay[1..], needle);
      assert rest >= 0 ==> hay[rest + 1..rest + 1 + |needle|] == hay[1..][rest..rest + |needle|];
      if rest < 0 then -1 else rest + 1
  }

  /** `Find` gives the first occurrence, and -1 exactly when there is none. */
  lemma {:induction false} FindIsFirst(hay: string, needle: string, k: nat)
    requires k + |needle| <= |hay| && hay[k..k + |needle|] == needle
    ensures 0 <= Find(hay, needle) <= k
  {
    if k == 0 {
      assert needle <= hay;
    } else {
      assert hay[1..][k - 1..k - 1 + |needle|] == needle;
      FindIsFirst(hay[1..], needle, k - 1);
    }
  }

  /** A search with the same outcome in a text that is equal up to the find. */
  lemma {:induction false} FindSamePrefix(hay: string, other: string, needle: string)
    requires 0 <= Find(hay, needle) <= |other| - |needle|
    requires other[..Find(hay, needle) + |needle|] == hay[..Find(hay, needle) + |needle|]
    ensures Find(other, needle) == Find(hay, needle)
  {
    hide Find;
    var end := Find(hay, needle) + |needle|;
    SamePart(hay, other, end, Find(hay, needle), |needle|);
    FindIsFirst(other, needle, Find(hay, needle));
    SamePart(hay, other, end, Find(other, needle), |needle|);
    FindIsFirst(hay, needle, Find(other, needle));
  }

  lemma SamePart(a: string, b: string, end: nat, at: nat, n: nat)
    requires at + n <= end <= |a| && end <= |b| && a[..end] == b[..end]
    ensures a[at..at + n] == b[at..at + n]
  {
  }

  function TrimStart(text: string): (rest: string)
    ensures |rest| <= |text|
  {
    if text != "" && IsWhitespace(text[0]) then TrimStart(text[1..]) else text
  }

  function TrimEnd(text: string): (rest: string)
    ensures |rest| <= |text|
  {
    if text != "" && IsWhitespace(text[|text| - 1]) then TrimEnd(text[..|text| - 1]) else text
  }

  /** `str::trim` */
  function Trim(text: string): string { TrimEnd(TrimStart(text)) }

  /** No white space at either end. */
  predicate IsTrimmed(text: string) {
    text != "" ==> !IsWhitespace(text[0]) && !IsWhitespace(text[|text| - 1])
  }

  lemma {:induction false} TrimStartFacts(text: string)
    ensures var rest := TrimStart(text); rest != "" ==> !IsWhitespace(rest[0])
  {
    if text != "" && IsWhitespace(text[0]) {
      TrimStartFacts(text[1..]);
    }
  }

  lemma {:induction false} TrimEndFacts(text: string)
    requires text != "" ==> !IsWhitespace(text[0])
    ensures IsTrimmed(TrimEnd(text))
  {
    hide IsWhitespace;
    if text != "" && IsWhitespace(text[|text| - 1]) {
      TrimEndFacts(text[..|text| - 1]);
    }
  }

  lemma TrimIsTrimmed(text: string)
    ensures IsTrimmed(Trim(text))
    ensures IsTrimmed(text) ==> Trim(text) == text
  {
    TrimStartFacts(text);
    TrimEndFacts(TrimStart(text));
  }
}
