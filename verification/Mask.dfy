/** Hiding quoted tokens from the layout and restoring them, in `format_layout`
    of src/sql.rs. */
module Mask {
  import opened Chars
  import opened Numerals
  import opened Lexer
  import opened Statements
  import Recase

  /** A part of the text that the layout must not see. */
  datatype Cut = Cut(start: nat, end: nat)

  const BASE := "__qrow_format_token_"

  /** The markers' prefix with `extra` more underscores. */
  function Prefix(extra: nat): string {
    if extra == 0 then BASE else Prefix(extra - 1) + "_"
  }

  function Marker(prefix: string, n: nat): string { "'" + (prefix + (Decimal(n) + "'")) }

  function Replace(text: string, needle: string, replacement: string): string
    requires needle != ""
    decreases |text|
  {
    var at := Find(text, needle);
    if at < 0 then text
    else text[..at] + replacement + Replace(text[at + |needle|..], needle, replacement)
  }

  /** The cuts are in order, apart, and start at `from` or later. */
  ghost predicate InOrder(sql: string, from: nat, cuts: seq<Cut>)
    decreases cuts
  {
    if cuts == [] then from <= |sql|
    else from <= cuts[0].start <= cuts[0].end <= |sql| && InOrder(sql, cuts[0].end, cuts[1..])
  }

  /** `sql` from place `from` with the cuts replaced by markers from number `n`. */
  function Masked(sql: string, prefix: string, from: nat, cuts: seq<Cut>, n: nat): string
    requires InOrder(sql, from, cuts)
    decreases cuts
  {
    if cuts == [] then sql[from..]
    else sql[from..cuts[0].start] + (Marker(prefix, n) + Masked(sql, prefix, cuts[0].end, cuts[1..], n + 1))
  }

  /** The markers from number `n` on replaced by what they stand for. */
  function Restored(text: string, sql: string, prefix: string, from: nat, cuts: seq<Cut>, n: nat): string
    requires InOrder(sql, from, cuts)
    decreases cuts
  {
    if cuts == [] then text
    else
      MarkerNotEmpty(prefix, n);
      var next := Replace(text, Marker(prefix, n), sql[cuts[0].start..cuts[0].end]);
      Restored(next, sql, prefix, cuts[0].end, cuts[1..], n + 1)
  }

  // ----- Where a marker can stand

  predicate Occurs(text: string, needle: string, at: nat) {
    at + |needle| <= |text| && forall i :: 0 <= i < |needle| ==> text[at + i] == needle[i]
  }

  ghost predicate Nowhere(text: string, needle: string) {
    forall at :: 0 <= at <= |text| - |needle| ==> !Occurs(text, needle, at)
  }

  lemma OccursIsFound(text: string, needle: string, at: nat)
    requires Occurs(text, needle, at)
    ensures 0 <= Find(text, needle) <= at
  {
    assert text[at..at + |needle|] == needle;
    FindIsFirst(text, needle, at);
  }

  lemma FoundOccurs(text: string, needle: string)
    requires Find(text, needle) >= 0
    ensures Occurs(text, needle, Find(text, needle))
  {
    var at := Find(text, needle);
    assert forall k :: at <= k < at + |needle| ==> text[k] == text[at..at + |needle|][k - at];
  }

  ghost predicate NoQuote(text: string) { forall i :: 0 <= i < |text| ==> text[i] != '\'' }

  lemma {:induction false} PrefixHasNoQuote(extra: nat)
    ensures NoQuote(Prefix(extra)) && Prefix(extra) != ""
  {
    if extra > 0 {
      PrefixHasNoQuote(extra - 1);
    }
  }

  /** An occurrence of a text without quotes lies beside every quote. */
  lemma OccursBeside(text: string, needle: string, at: nat, k: nat)
    requires NoQuote(needle) && Occurs(text, needle, at) && k < |text| && text[k] == '\''
    ensures k < at || at + |needle| <= k
  {
    forall j | at <= j < at + |needle|
      ensures text[j] != '\''
    {
      assert text[at + (j - at)] == needle[j - at];
    }
  }

  lemma OccursBefore(a: string, b: string, needle: string, at: nat)
    ensures at + |needle| <= |a| ==> Occurs(a + b, needle, at) == Occurs(a, needle, at)
  {
  }

  lemma OccursAfter(a: string, b: string, needle: string, at: nat)
    ensures Occurs(a + b, needle, |a| + at) == Occurs(b, needle, at)
  {
  }

  lemma OccursInside(text: string, low: nat, high: nat, needle: string, at: nat)
    requires low <= high <= |text| && Occurs(text[low..high], needle, at)
    ensures Occurs(text, needle, low + at)
  {
  }

  lemma NowhereInside(text: string, low: nat, high: nat, needle: string)
    requires low <= high <= |text| && Nowhere(text, needle)
    ensures Nowhere(text[low..high], needle)
  {
    forall at | 0 <= at <= high - low - |needle|
      ensures !Occurs(text[low..high], needle, at)
    {
      if Occurs(text[low..high], needle, at) {
        OccursInside(text, low, high, needle, at);
      }
    }
  }

  /** A marker that occurs holds its quote and then its prefix. */
  lemma MarkerHolds(text: string, prefix: string, n: nat, at: nat)
    requires Occurs(text, Marker(prefix, n), at)
    ensures text[at] == '\'' && Occurs(text, prefix, at + 1)
  {
    var marker := Marker(prefix, n);
    assert marker[0] == '\'';
    forall i | 0 <= i < |prefix|
      ensures text[at + 1 + i] == prefix[i]
    {
      assert text[at + (i + 1)] == marker[i + 1];
    }
  }

  lemma SameFirstQuote(text: string, k: nat, l: nat)
    requires k < |text| && l < |text| && text[k] == '\'' && text[l] == '\''
    requires NoQuote(text[..k]) && NoQuote(text[..l])
    ensures k == l
  {
  }

  lemma DigitsEnd(d: string, e: string, more: string)
    requires NoQuote(d) && NoQuote(e)
    requires Occurs(d + ("'" + more), e + "'", 0)
    ensures d == e
  {
    var text, needle := d + ("'" + more), e + "'";
    assert text[..|d|] == d;
    assert text[..|e| + 1] == needle by {
      assert forall i :: 0 <= i < |needle| ==> text[0 + i] == needle[i];
    }
    assert text[..|e|] == text[..|e| + 1][..|e|] == e;
    assert text[|e|] == needle[|e|] == '\'';
    SameFirstQuote(text, |d|, |e|);
  }

  lemma DigitsAreNoQuotes(d: string)
    requires forall i :: 0 <= i < |d| ==> '0' <= d[i] <= '9'
    ensures NoQuote(d)
  {
  }

  /** The same number, when two markers stand in the same place. */
  lemma MarkerNumber(prefix: string, m: nat, n: nat, more: string)
    requires Occurs(Marker(prefix, m) + more, Marker(prefix, n), 0)
    ensures m == n
  {
    var text, needle := Marker(prefix, m) + more, Marker(prefix, n);
    var d, e := Decimal(m), Decimal(n);
    DigitsAreNoQuotes(d);
    DigitsAreNoQuotes(e);
    forall i | 0 <= i < |e| + 1
      ensures i < |d| + 1 + |more| && (d + ("'" + more))[i] == (e + "'")[i]
    {
      assert text[0 + (1 + |prefix| + i)] == needle[1 + |prefix| + i];
      assert needle[1 + |prefix| + i] == (e + "'")[i];
      assert text[1 + |prefix| + i] == (d + ("'" + more))[i];
    }
    DigitsEnd(d, e, more);
    DecimalIsInjective(m, n);
  }

  /** Inside a marker only its last character is a quote. */
  lemma MarkerQuotes(prefix: string, m: nat, i: nat)
    requires NoQuote(prefix) && 0 < i < |Marker(prefix, m)| - 1
    ensures Marker(prefix, m)[i] != '\''
  {
  }

  /** A marker occurs only where one was put, or later. */
  lemma MarkerPlace(a: string, prefix: string, m: nat, more: string, n: nat, at: nat)
    requires NoQuote(prefix) && prefix != "" && Nowhere(a, prefix) && !Occurs(more, prefix, 0)
    requires Occurs(a + (Marker(prefix, m) + more), Marker(prefix, n), at)
    ensures (at == |a| && m == n)
         || (at >= |a| + |Marker(prefix, m)| && Occurs(more, Marker(prefix, n), at - |a| - |Marker(prefix, m)|))
  {
    hide Occurs;
    var marker := Marker(prefix, m);
    var text := a + (marker + more);
    assert text == (a + marker) + more;
    MarkerHolds(text, prefix, n, at);
    MarkerEnds(prefix, m);
    OccursBeside(text, prefix, at + 1, |a|);
    OccursBefore(a, marker + more, prefix, at + 1);
    OccursAfter(a + marker, more, prefix, 0);
    assert at >= |a| && at + 1 != |a + marker|;
    forall k | |a| < k < |a| + |marker| - 1
      ensures text[k] != '\''
    {
      assert text[k] == marker[k - |a|];
      MarkerQuotes(prefix, m, k - |a|);
    }
    if at == |a| {
      OccursAfter(a, marker + more, Marker(prefix, n), 0);
      MarkerNumber(prefix, m, n, more);
    } else {
      OccursAfter(a + marker, more, Marker(prefix, n), at - |a + marker|);
    }
  }

  lemma MarkerEnds(prefix: string, m: nat)
    ensures |Marker(prefix, m)| > 1 + |prefix| && Marker(prefix, m)[0] == '\''
  {
  }

  lemma MaskedStart(sql: string, prefix: string, from: nat, cuts: seq<Cut>, n: nat)
    requires InOrder(sql, from, cuts) && NoQuote(prefix) && prefix != "" && Nowhere(sql, prefix)
    ensures !Occurs(Masked(sql, prefix, from, cuts, n), prefix, 0)
  {
    hide Occurs, Marker;
    if Occurs(Masked(sql, prefix, from, cuts, n), prefix, 0) {
      if cuts == [] {
        assert sql[from..] == sql[from..|sql|];
        OccursFits(sql, prefix, from);
        OccursInside(sql, from, |sql|, prefix, 0);
      } else {
        var a := sql[from..cuts[0].start];
        var rest := Masked(sql, prefix, cuts[0].end, cuts[1..], n + 1);
        MarkerEnds(prefix, n);
        assert (a + (Marker(prefix, n) + rest))[|a|] == Marker(prefix, n)[0];
        OccursFits(sql, prefix, from);
        OccursBeside(a + (Marker(prefix, n) + rest), prefix, 0, |a|);
        OccursBefore(a, Marker(prefix, n) + rest, prefix, 0);
        OccursInside(sql, from, cuts[0].start, prefix, 0);
      }
    }
  }

  lemma OccursFits(text: string, needle: string, at: nat)
    ensures Occurs(text, needle, at) ==> at <= |text| - |needle|
    ensures Nowhere(text, needle) ==> !Occurs(text, needle, at)
  {
  }

  /** No marker of a smaller number is left. */
  lemma {:induction false} NoSmallerMarker(sql: string, prefix: string, from: nat, cuts: seq<Cut>, m: nat, n: nat)
    requires InOrder(sql, from, cuts) && NoQuote(prefix) && prefix != "" && Nowhere(sql, prefix) && n < m
    ensures Nowhere(Masked(sql, prefix, from, cuts, m), Marker(prefix, n))
    decreases cuts
  {
    hide Marker;
    var text := Masked(sql, prefix, from, cuts, m);
    forall at | 0 <= at <= |text| - |Marker(prefix, n)|
      ensures !Occurs(text, Marker(prefix, n), at)
    {
      if Occurs(text, Marker(prefix, n), at) {
        if cuts == [] {
          assert sql[from..] == sql[from..|sql|];
          NowhereInside(sql, from, |sql|, prefix);
          OccursFits(text, prefix, at + 1);
          MarkerHolds(text, prefix, n, at);
        } else {
          var rest := Masked(sql, prefix, cuts[0].end, cuts[1..], m + 1);
          NowhereInside(sql, from, cuts[0].start, prefix);
          MaskedStart(sql, prefix, cuts[0].end, cuts[1..], m + 1);
          MarkerPlace(sql[from..cuts[0].start], prefix, m, rest, n, at);
          NoSmallerMarker(sql, prefix, cuts[0].end, cuts[1..], m + 1, n);
        }
      }
    }
  }

  lemma ReplaceOne(before: string, needle: string, rest: string, replacement: string)
    requires needle != "" && Find(before + (needle + rest), needle) == |before| && Find(rest, needle) < 0
    ensures Replace(before + (needle + rest), needle, replacement) == before + replacement + rest
  {
    hide Find;
    var text := before + (needle + rest);
    assert text[..|before|] == before && text[|before| + |needle|..] == rest;
  }

  lemma FindMarker(a: string, prefix: string, n: nat, more: string)
    requires NoQuote(prefix) && prefix != "" && Nowhere(a, prefix) && !Occurs(more, prefix, 0)
    ensures Find(a + (Marker(prefix, n) + more), Marker(prefix, n)) == |a|
  {
    hide Marker, Find, Occurs;
    var text, marker := a + (Marker(prefix, n) + more), Marker(prefix, n);
    OccursHere(marker, more);
    OccursAfter(a, marker + more, marker, 0);
    OccursIsFound(text, marker, |a|);
    FoundOccurs(text, marker);
    MarkerPlace(a, prefix, n, more, n, Find(text, marker));
    MarkerEnds(prefix, n);
  }

  lemma OccursHere(needle: string, more: string)
    ensures Occurs(needle + more, needle, 0)
  {
  }

  lemma MaskedFirst(sql: string, prefix: string, from: nat, cuts: seq<Cut>, n: nat)
    requires InOrder(sql, from, cuts) && cuts != []
    ensures sql[..from] + Masked(sql, prefix, from, cuts, n)
         == sql[..cuts[0].start] + (Marker(prefix, n) + Masked(sql, prefix, cuts[0].end, cuts[1..], n + 1))
  {
    hide Marker;
    var more := Marker(prefix, n) + Masked(sql, prefix, cuts[0].end, cuts[1..], n + 1);
    Associative(sql[..from], sql[from..cuts[0].start], more);
    assert sql[..from] + sql[from..cuts[0].start] == sql[..cuts[0].start];
  }

  /** Restoring one marker puts back exactly the text it stands for. */
  lemma RestoreOne(sql: string, prefix: string, from: nat, cuts: seq<Cut>, n: nat)
    requires InOrder(sql, from, cuts) && NoQuote(prefix) && prefix != "" && Nowhere(sql, prefix) && cuts != []
    ensures Marker(prefix, n) != ""
    ensures var (start, end) := (cuts[0].start, cuts[0].end);
            Replace(sql[..from] + Masked(sql, prefix, from, cuts, n), Marker(prefix, n), sql[start..end])
            == sql[..end] + Masked(sql, prefix, end, cuts[1..], n + 1)
  {
    hide Marker, Replace, Find, Occurs, Nowhere, Masked;
    var start, end, marker := cuts[0].start, cuts[0].end, Marker(prefix, n);
    var rest := Masked(sql, prefix, end, cuts[1..], n + 1);
    MarkerNotEmpty(prefix, n);
    MaskedFirst(sql, prefix, from, cuts, n);
    assert sql[0..start] == sql[..start];
    NowhereInside(sql, 0, start, prefix);
    MaskedStart(sql, prefix, end, cuts[1..], n + 1);
    FindMarker(sql[..start], prefix, n, rest);
    NoSmallerMarker(sql, prefix, end, cuts[1..], n + 1, n);
    NowhereIsNotFound(rest, marker);
    ReplaceOne(sql[..start], marker, rest, sql[start..end]);
    assert sql[..start] + sql[start..end] == sql[..end];
  }

  lemma NowhereIsNotFound(text: string, needle: string)
    requires Nowhere(text, needle)
    ensures Find(text, needle) < 0
  {
    if Find(text, needle) >= 0 {
      FoundOccurs(text, needle);
    }
  }

  lemma MarkerNotEmpty(prefix: string, n: nat)
    ensures Marker(prefix, n) != ""
  {
  }

  /** Masking and then restoring gives back the text. */
  lemma {:induction false} RestoreMasked(sql: string, prefix: string, from: nat, cuts: seq<Cut>, n: nat)
    requires InOrder(sql, from, cuts) && NoQuote(prefix) && prefix != "" && Nowhere(sql, prefix)
    ensures Restored(sql[..from] + Masked(sql, prefix, from, cuts, n), sql, prefix, from, cuts, n) == sql
    decreases cuts
  {
    hide Marker, Replace;
    if cuts == [] {
      assert sql[..from] + sql[from..] == sql;
    } else {
      RestoreOne(sql, prefix, from, cuts, n);
      RestoreMasked(sql, prefix, cuts[0].end, cuts[1..], n + 1);
    }
  }

  // ----- The prefix, the cuts and the loops

  lemma {:induction false} PrefixLength(extra: nat)
    ensures |Prefix(extra)| == |BASE| + extra
  {
    if extra > 0 {
      PrefixLength(extra - 1);
    }
  }

  /** The first prefix with `extra` or more underscores that `sql` does not hold. */
  function FreshPrefix(sql: string, extra: nat): (prefix: string)
    ensures Find(sql, prefix) < 0
    decreases |sql| + 1 - extra
  {
    PrefixLength(extra);
    if Find(sql, Prefix(extra)) < 0 then Prefix(extra) else FreshPrefix(sql, extra + 1)
  }

  lemma {:induction false} FreshPrefixFacts(sql: string, extra: nat)
    ensures NoQuote(FreshPrefix(sql, extra)) && FreshPrefix(sql, extra) != ""
    decreases |sql| + 1 - extra
  {
    PrefixLength(extra);
    PrefixHasNoQuote(extra);
    if Find(sql, Prefix(extra)) >= 0 {
      FreshPrefixFacts(sql, extra + 1);
    }
  }

  lemma NotFoundIsNowhere(text: string, needle: string)
    requires Find(text, needle) < 0
    ensures Nowhere(text, needle)
  {
    forall at | 0 <= at <= |text| - |needle|
      ensures !Occurs(text, needle, at)
    {
      if Occurs(text, needle, at) {
        OccursIsFound(text, needle, at);
      }
    }
  }

  method FindPrefix(sql: string) returns (prefix: string)
    ensures prefix == FreshPrefix(sql, 0)
  {
    hide Find;
    prefix := BASE;
    ghost var extra := 0;
    while Find(sql, prefix) >= 0
      invariant prefix == Prefix(extra) && FreshPrefix(sql, 0) == FreshPrefix(sql, extra)
      decreases |sql| - |prefix|
    {
      PrefixLength(extra);
      PrefixLength(extra + 1);
      prefix := prefix + "_";
      extra := extra + 1;
    }
  }

  /** A literal prefix that must stay with the string after it. */
  predicate IsLiteralPrefix(t: Token) {
    t.kind == Plain && (LowerText(t.text) in Recase.LITERAL_PREFIXES || LowerText(t.text) in {"e", "x", "b", "n"})
  }

  predicate HasPrefix(tokens: seq<Token>, i: nat)
    requires i < |tokens|
  {
    tokens[i].kind == String && tokens[i].text != "" && tokens[i].text[0] == '\'' && i > 0
        && IsLiteralPrefix(tokens[i - 1])
  }

  predicate IsHidden(db: Database, tokens: seq<Token>, i: nat)
    requires i < |tokens|
  {
    (tokens[i].kind == String || tokens[i].kind == Identifier) && (db != Kyuubi || HasPrefix(tokens, i))
  }

  function CutOf(tokens: seq<Token>, spans: seq<Span>, i: nat): Cut
    requires i < |tokens| == |spans|
  {
    Cut(if HasPrefix(tokens, i) then spans[i - 1].start else spans[i].start, spans[i].end)
  }

  function CutsFrom(db: Database, tokens: seq<Token>, spans: seq<Span>, i: nat): seq<Cut>
    requires i <= |tokens| == |spans|
    decreases |tokens| - i
  {
    if i == |tokens| then []
    else (if IsHidden(db, tokens, i) then [CutOf(tokens, spans, i)] else []) + CutsFrom(db, tokens, spans, i + 1)
  }

  function Cuts(db: Database, sql: string): seq<Cut> { CutsFrom(db, Tokens(db, sql), Spans(Tokens(db, sql), 0), 0) }

  /** Widening a cut over a literal prefix never reaches into an earlier cut. */
  lemma {:induction false} CutsInOrder(db: Database, sql: string, i: nat, from: nat)
    requires i <= |Tokens(db, sql)| && from <= |sql|
    requires i < |Tokens(db, sql)| ==> from <= Spans(Tokens(db, sql), 0)[i].start
    requires i > 0 && Tokens(db, sql)[i - 1].kind == Plain ==> from <= Spans(Tokens(db, sql), 0)[i - 1].start
    ensures InOrder(sql, from, CutsFrom(db, Tokens(db, sql), Spans(Tokens(db, sql), 0), i))
    decreases |Tokens(db, sql)| - i
  {
    hide Lex, Spans, LowerText;
    var tokens, spans := Tokens(db, sql), Spans(Tokens(db, sql), 0);
    if i < |tokens| {
      NextPlace(db, sql, i);
      if i > 0 {
        NextPlace(db, sql, i - 1);
      }
      var hidden := IsHidden(db, tokens, i);
      CutsInOrder(db, sql, i + 1, if hidden then spans[i].end else from);
      if hidden {
        var cut, rest := CutOf(tokens, spans, i), CutsFrom(db, tokens, spans, i + 1);
        assert CutsFrom(db, tokens, spans, i) == [cut] + rest && ([cut] + rest)[1..] == rest;
        assert from <= cut.start <= cut.end <= |sql|;
        assert InOrder(sql, cut.end, rest);
      } else {
        assert CutsFrom(db, tokens, spans, i) == CutsFrom(db, tokens, spans, i + 1);
      }
    }
  }

  /** Masking the quoted tokens of any text and restoring them is the identity. */
  lemma MaskThenRestore(db: Database, sql: string)
    ensures InOrder(sql, 0, Cuts(db, sql))
    ensures Restored(Masked(sql, FreshPrefix(sql, 0), 0, Cuts(db, sql), 0), sql, FreshPrefix(sql, 0), 0,
            Cuts(db, sql), 0) == sql
  {
    hide Lex, FreshPrefix, CutsFrom, Masked, Restored;
    var prefix := FreshPrefix(sql, 0);
    FreshPrefixFacts(sql, 0);
    NotFoundIsNowhere(sql, prefix);
    TokensAreSound(db, sql);
    CutsInOrder(db, sql, 0, 0);
    RestoreMasked(sql, prefix, 0, Cuts(db, sql), 0);
    assert sql[..0] == "";
    assert "" + Masked(sql, prefix, 0, Cuts(db, sql), 0) == Masked(sql, prefix, 0, Cuts(db, sql), 0);
  }
}
