/** Formatting one statement, `format_statement_for` of src/sql.rs. The layout
    engine is any function from text to text. */
module Format {
  import opened Chars
  import opened Lexer
  import opened Options
  import opened Statements
  import opened TokenEquivalence
  import opened Whitespace
  import opened Mask
  import opened MarkerGaps
  import opened Skeletons
  import opened Respacing
  import opened Recase
  import opened WordSpacing
  import AcceptedText

  type Layout = string -> string

  datatype Mode = Assistant | Manual

  datatype Outcome = Formatted(text: string) | TooShort | Unsupported | Unchanged | Rejected

  /** What the layout engine returns for the masked text. */
  function FromLayout(db: Database, sql: string, layout: Layout): string {
    var normalized := Normalized(db, sql);
    MaskThenRestore(db, normalized);
    var masked := Masked(normalized, FreshPrefix(normalized, 0), 0, Cuts(db, normalized), 0);
    layout(Normalized(db, layout(masked)))
  }

  /** `format_layout` */
  function LaidOut(db: Database, sql: string, layout: Layout): string {
    var normalized := Normalized(db, sql);
    MaskThenRestore(db, normalized);
    Restored(FromLayout(db, sql, layout), normalized, FreshPrefix(normalized, 0), 0, Cuts(db, normalized), 0)
  }

  // ----- What formatting keeps

  /** The gaps around the markers that the layout engine left in their order. */
  ghost predicate AreGaps(db: Database, sql: string, layout: Layout, gaps: seq<string>) {
    var normalized := Normalized(db, sql);
    && |gaps| == |Cuts(db, normalized)| + 1 && NoneHolds(gaps, FreshPrefix(normalized, 0))
    && FromLayout(db, sql, layout) == WithMarkers(FreshPrefix(normalized, 0), gaps, 0)
  }

  lemma {:induction false} FreshIsPrefix(sql: string, extra: nat) returns (k: nat)
    ensures FreshPrefix(sql, extra) == Prefix(k)
    decreases |sql| + 1 - extra
  {
    PrefixLength(extra);
    if Find(sql, Prefix(extra)) < 0 {
      k := extra;
    } else {
      k := FreshIsPrefix(sql, extra + 1);
    }
  }

  /** What holds of the prefix and the cuts of any text. */
  lemma CutsOfText(db: Database, sql: string)
    ensures var prefix, cuts := FreshPrefix(sql, 0), Cuts(db, sql);
            && InOrder(sql, 0, cuts) && AllFenced(sql, prefix, 0, cuts)
            && NoQuote(prefix) && prefix != "" && IsPrefixText(prefix) && Nowhere(sql, prefix)
  {
    hide Lex, Spans, CutsFrom, AllFenced, FreshPrefix, IsPrefixText, NoQuote, Nowhere;
    var k := FreshIsPrefix(sql, 0);
    MaskThenRestore(db, sql);
    CutsAreFenced(db, sql, k, 0, 0);
    PrefixTails(k);
    FreshPrefixFacts(sql, 0);
    NotFoundIsNowhere(sql, FreshPrefix(sql, 0));
  }

  /** If the engine leaves the markers in their order, between gaps that do not hold their
      prefix, every hidden token stands verbatim in the place of its marker, and the gaps stay. */
  lemma HiddenTokensStay(db: Database, sql: string, layout: Layout, gaps: seq<string>)
    requires AreGaps(db, sql, layout, gaps)
    ensures var normalized := Normalized(db, sql);
            && InOrder(normalized, 0, Cuts(db, normalized))
            && LaidOut(db, sql, layout) == WithOriginals(normalized, 0, Cuts(db, normalized), gaps)
  {
    hide Lex, NormalizedFrom, CutsFrom, AllFenced, FreshPrefix, IsPrefixText, NoQuote, Nowhere, Restored, FromLayout;
    var normalized := Normalized(db, sql);
    CutsOfText(db, normalized);
    assert "" + gaps[0] == gaps[0];
    EmptyBefore(WithMarkers(FreshPrefix(normalized, 0), gaps, 0));
    EmptyBefore(WithOriginals(normalized, 0, Cuts(db, normalized), gaps));
    GapAt(gaps, FreshPrefix(normalized, 0), 0);
    RestoreBetween("", normalized, FreshPrefix(normalized, 0), 0, Cuts(db, normalized), gaps, 0);
  }

  lemma EmptyBefore(text: string)
    ensures "" + text == text
  {
  }

  lemma GapAt(gaps: seq<string>, prefix: string, k: nat)
    requires NoneHolds(gaps, prefix) && k < |gaps|
    ensures Nowhere(gaps[k], prefix)
  {
  }

  /** An engine that changes how much white space stands where there is some, and nothing
      else, keeps every hidden token verbatim and everything else up to that. */
  lemma RespacingKeeps(db: Database, sql: string, layout: Layout) returns (gaps: seq<string>)
    requires forall text :: Skeleton(layout(text)) == Skeleton(text)
    ensures AreGaps(db, sql, layout, gaps)
    ensures var normalized := Normalized(db, sql);
            && InOrder(normalized, 0, Cuts(db, normalized))
            && LaidOut(db, sql, layout) == WithOriginals(normalized, 0, Cuts(db, normalized), gaps)
            && SameSkeletons(gaps, GapsOf(normalized, 0, Cuts(db, normalized)))
    ensures Skeleton(LaidOut(db, sql, layout)) == Skeleton(sql)
  {
    hide Lex, NormalizedFrom, CutsFrom, AllFenced, FreshPrefix, IsPrefixText;
    hide NoQuote, Nowhere, Restored, Skeleton, LaidOut, Masked;
    var normalized := Normalized(db, sql);
    var prefix, cuts := FreshPrefix(normalized, 0), Cuts(db, normalized);
    CutsOfText(db, normalized);
    MaskedBetween(normalized, prefix, 0, cuts, 0);
    var masked := Masked(normalized, prefix, 0, cuts, 0);
    NormalizedSkeleton(db, layout(masked));
    gaps := SameGaps(FromLayout(db, sql, layout), prefix, GapsOf(normalized, 0, cuts), 0);
    SameHoldNothing(gaps, normalized, prefix, cuts);
    HiddenTokensStay(db, sql, layout, gaps);
    SameWhole(normalized, 0, cuts, GapsOf(normalized, 0, cuts), gaps);
    assert normalized[0..] == normalized;
    NormalizedSkeleton(db, sql);
  }

  lemma SameHoldNothing(gaps: seq<string>, sql: string, prefix: string, cuts: seq<Cut>)
    requires InOrder(sql, 0, cuts) && Nowhere(sql, prefix) && prefix != "" && IsPrefixText(prefix)
    requires SameSkeletons(gaps, GapsOf(sql, 0, cuts))
    ensures NoneHolds(gaps, prefix)
  {
    hide Skeleton, Nowhere, GapsOf;
    GapsHoldNothing(sql, prefix, 0, cuts);
    SolidPrefix(prefix);
    forall k | 0 <= k < |gaps|
      ensures Nowhere(gaps[k], prefix)
    {
      SolidIsKept(GapsOf(sql, 0, cuts)[k], gaps[k], prefix);
    }
  }

  lemma SolidPrefix(prefix: string)
    requires IsPrefixText(prefix)
    ensures IsSolidText(prefix)
  {
    assert forall i :: 0 <= i < |prefix| ==> IsPrefixChar(prefix[i]);
  }

  /** With an engine that changes nothing, formatting changes only white space outside the hidden tokens. */
  lemma IdentityKeeps(db: Database, sql: string) returns (gaps: seq<string>)
    ensures var normalized := Normalized(db, sql);
            && InOrder(normalized, 0, Cuts(db, normalized))
            && SameSkeletons(gaps, GapsOf(normalized, 0, Cuts(db, normalized)))
            && LaidOut(db, sql, text => text) == WithOriginals(normalized, 0, Cuts(db, normalized), gaps)
    ensures Skeleton(LaidOut(db, sql, text => text)) == Skeleton(sql)
  {
    hide Lex, NormalizedFrom, CutsFrom, FreshPrefix, Skeleton, LaidOut, FromLayout;
    var layout: Layout := text => text;
    gaps := RespacingKeeps(db, sql, layout);
  }

  /** An engine may change letter case and, except between two words, put white space in or
      take it out. If it keeps markers whole, every hidden token stays verbatim and the words
      between the tokens stay, unless the text holds the markers' prefix in other letters. */
  lemma EngineKeeps(db: Database, sql: string, layout: Layout) returns (gaps: seq<string>)
    requires forall text :: WordsIn(layout(text)) == WordsIn(text)
    requires forall text, m :: HoldsMarkers(text, FreshPrefix(Normalized(db, sql), 0), 0, m) ==>
               HoldsMarkers(layout(text), FreshPrefix(Normalized(db, sql), 0), 0, m)
    requires Nowhere(LowerText(Normalized(db, sql)), FreshPrefix(Normalized(db, sql), 0))
    ensures AreGaps(db, sql, layout, gaps)
    ensures var normalized := Normalized(db, sql);
            && InOrder(normalized, 0, Cuts(db, normalized))
            && LaidOut(db, sql, layout) == WithOriginals(normalized, 0, Cuts(db, normalized), gaps)
            && SameWords(gaps, GapsOf(normalized, 0, Cuts(db, normalized)))
  {
    hide Lex, NormalizedFrom, CutsFrom, AllFenced, FreshPrefix, IsPrefixText;
    hide NoQuote, Nowhere, Restored, WordsFrom, LaidOut, Masked, HoldsMarkers;
    var normalized := Normalized(db, sql);
    var prefix, cuts := FreshPrefix(normalized, 0), Cuts(db, normalized);
    CutsOfText(db, normalized);
    var before := GapsOf(normalized, 0, cuts);
    MaskedBetween(normalized, prefix, 0, cuts, 0);
    var masked := Masked(normalized, prefix, 0, cuts, 0);
    MarkersAreThere(prefix, before, 0);
    NormalizedWords(db, layout(masked), prefix, |cuts|);
    WordsBetween(prefix, before, 0);
    WordGapsHoldNothing(normalized, prefix, cuts);
    gaps := SameMarkers(FromLayout(db, sql, layout), prefix, WordsOf(before), 0);
    HiddenTokensStay(db, sql, layout, gaps);
  }

  // ----- The mask loop

  /** The cuts from place `done` on are those of the tokens from `i` on. */
  ghost predicate CutsLeft(db: Database, sql: string, i: nat, from: nat, done: nat)
    requires i <= |Tokens(db, sql)|
  {
    && done <= |Cuts(db, sql)|
    && Cuts(db, sql)[done..] == CutsFrom(db, Tokens(db, sql), Spans(Tokens(db, sql), 0), i)
    && InOrder(sql, from, Cuts(db, sql)[done..])
  }

  lemma FirstCut(db: Database, sql: string, i: nat, from: nat, done: nat)
    requires i < |Tokens(db, sql)| && CutsLeft(db, sql, i, from, done)
    ensures var tokens, spans, cuts := Tokens(db, sql), Spans(Tokens(db, sql), 0), Cuts(db, sql);
            if IsHidden(db, tokens, i) then
              && done < |cuts| && cuts[done] == CutOf(tokens, spans, i)
              && from <= cuts[done].start <= cuts[done].end <= |sql|
              && CutsLeft(db, sql, i + 1, cuts[done].end, done + 1)
            else CutsLeft(db, sql, i + 1, from, done)
  {
    hide Lex, Spans, HasPrefix, IsHidden;
    var tokens, spans, cuts := Tokens(db, sql), Spans(Tokens(db, sql), 0), Cuts(db, sql);
    if IsHidden(db, tokens, i) {
      assert cuts[done..][0] == CutOf(tokens, spans, i);
      assert cuts[done..][1..] == cuts[done + 1..] == CutsFrom(db, tokens, spans, i + 1);
    } else {
      assert CutsFrom(db, tokens, spans, i) == CutsFrom(db, tokens, spans, i + 1);
    }
  }

  lemma FirstMask(masked: string, sql: string, prefix: string, from: nat, cuts: seq<Cut>, n: nat)
    requires InOrder(sql, from, cuts) && cuts != []
    ensures masked + Masked(sql, prefix, from, cuts, n)
         == masked + sql[from..cuts[0].start] + Marker(prefix, n) + Masked(sql, prefix, cuts[0].end, cuts[1..], n + 1)
  {
  }

  /** The mask loop: the masked text, and what each marker stands for. */
  method MaskQuoted(sql: string, prefix: string, db: Database)
    returns (masked: string, protected: seq<(string, string)>)
    requires InOrder(sql, 0, Cuts(db, sql))
    ensures masked == Masked(sql, prefix, 0, Cuts(db, sql), 0)
    ensures IsProtected(sql, prefix, Cuts(db, sql), protected)
  {
    hide Lex, Spans, HasPrefix, CutsFrom, Masked, Marker, CutsLeft, LowerText;
    masked, protected := "", [];
    var end: nat := 0;
    var tokens := TokensFor(sql, db);
    ghost var toks, cuts := Tokens(db, sql), Cuts(db, sql);
    StartCuts(db, sql);
    ghost var done: nat := 0;
    for i := 0 to |tokens|
      invariant end <= |sql| && done == |protected| <= |cuts| && CutsLeft(db, sql, i, end, done)
      invariant InOrder(sql, end, cuts[done..])
      invariant masked + Masked(sql, prefix, end, cuts[done..], done) == Masked(sql, prefix, 0, cuts, 0)
      invariant IsProtected(sql, prefix, cuts[..done], protected)
    {
      FirstCut(db, sql, i, end, done);
      LeftFacts(db, sql, i, end, done);
      var hidden, start := ExamineQuoted(sql, tokens, i, db);
      if hidden {
        FirstMask(masked, sql, prefix, end, cuts[done..], done);
        assert cuts[done..][1..] == cuts[done + 1..];
        masked := masked + sql[end..start] + Marker(prefix, |protected|);
        protected := protected + [(Marker(prefix, |protected|), sql[start..tokens[i].end])];
        end := tokens[i].end;
        done := done + 1;
      }
      LeftFacts(db, sql, i + 1, end, done);
    }
    NoCutsLeft(db, sql, prefix, |tokens|, end, done);
    masked := masked + sql[end..];
    assert cuts[..done] == cuts;
  }

  /** What each marker stands for. */
  ghost predicate IsProtected(sql: string, prefix: string, cuts: seq<Cut>, protected: seq<(string, string)>) {
    && |protected| == |cuts|
    && forall n :: 0 <= n < |cuts| ==>
         cuts[n].start <= cuts[n].end <= |sql| && protected[n] == (Marker(prefix, n), sql[cuts[n].start..cuts[n].end])
  }

  lemma StartCuts(db: Database, sql: string)
    requires InOrder(sql, 0, Cuts(db, sql))
    ensures CutsLeft(db, sql, 0, 0, 0)
  {
  }

  lemma LeftFacts(db: Database, sql: string, i: nat, from: nat, done: nat)
    requires i <= |Tokens(db, sql)| && CutsLeft(db, sql, i, from, done)
    ensures done <= |Cuts(db, sql)| && InOrder(sql, from, Cuts(db, sql)[done..])
  {
  }

  lemma NoCutsLeft(db: Database, sql: string, prefix: string, i: nat, from: nat, done: nat)
    requires i == |Tokens(db, sql)| && CutsLeft(db, sql, i, from, done)
    ensures done == |Cuts(db, sql)| && from <= |sql| && InOrder(sql, from, Cuts(db, sql)[done..])
    ensures Masked(sql, prefix, from, Cuts(db, sql)[done..], done) == sql[from..]
  {
  }

  /** One round of the mask loop: whether token `i` is hidden, and from where. */
  method ExamineQuoted(sql: string, tokens: seq<Span>, i: nat, db: Database) returns (hidden: bool, start: nat)
    requires tokens == Spans(Tokens(db, sql), 0) && i < |tokens|
    ensures hidden == IsHidden(db, Tokens(db, sql), i)
    ensures hidden ==> start == CutOf(Tokens(db, sql), tokens, i).start
  {
    hide Lex, Spans, LowerText;
    NextPlace(db, sql, i);
    start := tokens[i].start;
    if tokens[i].kind != String && tokens[i].kind != Identifier {
      return false, start;
    }
    var adjacentPrefix := false;
    if tokens[i].kind == String && tokens[i].start < |sql| && sql[tokens[i].start] == '\'' && i > 0 {
      NextPlace(db, sql, i - 1);
      var prefix := LowerText(sql[tokens[i - 1].start..tokens[i - 1].end]);
      adjacentPrefix := tokens[i - 1].kind == Plain && tokens[i - 1].end == tokens[i].start
                     && (prefix in LITERAL_PREFIXES || prefix in {"e", "x", "b", "n"});
    }
    assert sql[tokens[i].start..tokens[i].end][0] == sql[tokens[i].start];
    if adjacentPrefix {
      start := tokens[i - 1].start;
    }
    hidden := db != Kyuubi || adjacentPrefix;
  }

  /** The restore loop. */
  method RestoreMarkers(text: string, protected: seq<(string, string)>, ghost sql: string, ghost prefix: string,
                        ghost cuts: seq<Cut>)
    returns (formatted: string)
    requires InOrder(sql, 0, cuts) && IsProtected(sql, prefix, cuts, protected)
    ensures formatted == Restored(text, sql, prefix, 0, cuts, 0)
  {
    hide Replace, Marker;
    formatted := text;
    ghost var from: nat := 0;
    assert cuts[0..] == cuts;
    for n := 0 to |protected|
      invariant InOrder(sql, from, cuts[n..])
      invariant Restored(formatted, sql, prefix, from, cuts[n..], n) == Restored(text, sql, prefix, 0, cuts, 0)
    {
      MarkerNotEmpty(prefix, n);
      assert cuts[n..][0] == cuts[n] && cuts[n..][1..] == cuts[n + 1..];
      formatted := Replace(formatted, protected[n].0, protected[n].1);
      from := cuts[n].end;
    }
  }

  /** `format_layout` */
  method FormatLayout(sql: string, layout: Layout, db: Database) returns (formatted: string)
    ensures formatted == LaidOut(db, sql, layout)
    ensures InOrder(Normalized(db, sql), 0, Cuts(db, Normalized(db, sql)))
    ensures forall gaps :: AreGaps(db, sql, layout, gaps) ==>
              formatted == WithOriginals(Normalized(db, sql), 0, Cuts(db, Normalized(db, sql)), gaps)
  {
    hide Masked, Restored, Cuts, NormalizedFrom, Marker, FreshPrefix, Lex;
    var normalized := NormalizeLayoutWhitespace(sql, db);
    var prefix := FindPrefix(normalized);
    MaskThenRestore(db, normalized);
    var masked, protected := MaskQuoted(normalized, prefix, db);
    var canonical := layout(masked);
    canonical := NormalizeLayoutWhitespace(canonical, db);
    formatted := layout(canonical);
    formatted := RestoreMarkers(formatted, protected, normalized, prefix, Cuts(db, normalized));
    forall gaps | AreGaps(db, sql, layout, gaps)
      ensures formatted == WithOriginals(normalized, 0, Cuts(db, normalized), gaps)
    {
      HiddenTokensStay(db, sql, layout, gaps);
    }
  }

  // ----- The outcome

  const FORMATTABLE := {"SELECT", "WITH", "FROM", "VALUES", "INSERT", "CREATE", "EXPLAIN", "MERGE", "UPDATE", "DELETE"}

  function Length(tokens: seq<Significant>): nat {
    if tokens == [] then 0
    else |tokens[0].text| + (if tokens[0].spaceBefore then 1 else 0) + Length(tokens[1..])
  }

  function FirstCode(tokens: seq<Significant>): Option<Significant> {
    if tokens == [] then None
    else if tokens[0].kind != Comment then Some(tokens[0])
    else FirstCode(tokens[1..])
  }

  predicate IsTooShort(db: Database, sql: string, mode: Mode) {
    mode == Assistant && Length(SignificantTokens(db, sql)) <= 80
  }

  predicate IsFormattable(db: Database, sql: string) {
    var first := FirstCode(SignificantTokens(db, sql)); first.Some? && UpperText(first.value.text) in FORMATTABLE
  }

  /** `format_statement_for`: whatever the layout engine returns, accepted text has
      the tokens of the original and splits into as many statements. */
  method FormatStatementFor(sql: string, letters: KeywordCase, layout: Layout, mode: Mode, db: Database)
    returns (outcome: Outcome)
    ensures outcome.Formatted? ==>
              && SameTokens(db, sql, outcome.text) && outcome.text != sql
              && AcceptedText.IsKept(db, SignificantTokens(db, sql), SignificantTokens(db, outcome.text))
              && |StatementRanges(db, outcome.text)| == |StatementRanges(db, sql)|
              && Recased(db, outcome.text, letters) == outcome.text
    ensures outcome == TooShort <==> IsTooShort(db, sql, mode)
    ensures outcome == Unsupported <==> !IsTooShort(db, sql, mode) && !IsFormattable(db, sql)
    ensures !IsTooShort(db, sql, mode) && IsFormattable(db, sql) ==>
              var text := Recased(db, Trim(LaidOut(db, sql, layout)), letters);
              outcome == if !SameTokens(db, sql, text) then Rejected else if text == sql then Unchanged
                  else Formatted(text)
  {
    hide Lex, Recased, LaidOut, Trim, SameToken, SignificantFrom, Ranges, AreGaps, WithOriginals;
    hide AcceptedText.IsKept;
    var tokens := SignificantOf(sql, db);
    if mode == Assistant && Length(tokens) <= 80 {
      return TooShort;
    }
    var first := FirstCode(tokens);
    if first.None? || UpperText(first.value.text) !in FORMATTABLE {
      return Unsupported;
    }
    var formatted := FormatLayout(sql, layout, db);
    var text := Trim(formatted);
    formatted := CaseOtherKeywords(text, letters, db);
    if !SameTokens(db, sql, formatted) {
      return Rejected;
    }
    SameTokensSplitAlike(db, sql, formatted);
    AcceptedText.AcceptedIsKept(db, sql, formatted);
    RecaseTwice(db, text, letters);
    outcome := if formatted == sql then Unchanged else Formatted(formatted);
  }
}
