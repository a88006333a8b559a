/** Statement ranges, single-statement validation and the statement at a
    cursor, all of src/sql.rs. */
module Statements {
  import opened Chars
  import opened Lexer
  import opened Options

  datatype Range = Range(start: nat, end: nat)

  /** Tokens that are not skipped: everything but blanks and comments. */
  predicate IsContent(t: Token) { t.kind != Comment && !IsBlank(t.text) }

  predicate IsCode(t: Token) { IsContent(t) && t.kind != Separator }

  /** The ranges of the statements in tokens that start at `at`. `open` is the
      start of the statement that is not ended yet and `end` the end of its last token. */
  function Ranges(tokens: seq<Token>, at: nat, open: Option<nat>, end: nat): seq<Range> {
    if tokens == [] then
      if open.Some? then [Range(open.value, end)] else []
    else
      var next := at + |tokens[0].text|;
      if !IsContent(tokens[0]) then Ranges(tokens[1..], next, open, end)
      else if tokens[0].kind == Separator then
        (if open.Some? then [Range(open.value, next)] else []) + Ranges(tokens[1..], next, None, end)
      else Ranges(tokens[1..], next, Some(if open.Some? then open.value else at), next)
  }

  function StatementRanges(db: Database, sql: string): seq<Range> { Ranges(Tokens(db, sql), 0, None, 0) }

  /** How many statements the tokens hold; `content` says whether one is open. */
  function Count(tokens: seq<Token>, content: bool): nat {
    if tokens == [] then if content then 1 else 0
    else if !IsContent(tokens[0]) then Count(tokens[1..], content)
    else if tokens[0].kind == Separator then (if content then 1 else 0) + Count(tokens[1..], false)
    else Count(tokens[1..], true)
  }

  lemma RangesStep(tokens: seq<Token>, i: nat, at: nat, open: Option<nat>, end: nat)
    requires i < |tokens|
    ensures var t, rest, next := tokens[i], tokens[i + 1..], at + |tokens[i].text|;
            Ranges(tokens[i..], at, open, end)
            == if !IsContent(t) then Ranges(rest, next, open, end)
               else if t.kind == Separator then
                 (if open.Some? then [Range(open.value, next)] else []) + Ranges(rest, next, None, end)
               else Ranges(rest, next, Some(if open.Some? then open.value else at), next)
  {
    assert tokens[i..][1..] == tokens[i + 1..];
  }

  lemma NoRanges(at: nat, open: Option<nat>, end: nat)
    ensures Ranges([], at, open, end) == if open.Some? then [Range(open.value, end)] else []
  {
  }

  lemma NothingFirst(ranges: seq<Range>)
    ensures [] + ranges == ranges
  {
  }

  lemma {:induction false} RangesCount(tokens: seq<Token>, at: nat, open: Option<nat>, end: nat)
    ensures |Ranges(tokens, at, open, end)| == Count(tokens, open.Some?)
  {
    if tokens != [] {
      var next := at + |tokens[0].text|;
      RangesCount(tokens[1..], next, open, end);
      RangesCount(tokens[1..], next, None, end);
      RangesCount(tokens[1..], next, Some(if open.Some? then open.value else at), next);
    }
  }

  // ----- What the ranges are

  /** The ranges come in order and do not overlap. */
  ghost predicate Ordered(ranges: seq<Range>, low: nat, high: nat) {
    && (forall i :: 0 <= i < |ranges| ==> low <= ranges[i].start < ranges[i].end <= high)
    && forall i :: 0 <= i < |ranges| - 1 ==> ranges[i].end <= ranges[i + 1].start
  }

  ghost predicate AllNonEmpty(tokens: seq<Token>) { forall t :: t in tokens ==> t.text != "" }

  lemma {:induction false} RangesAreOrdered(tokens: seq<Token>, at: nat, open: Option<nat>, end: nat)
    requires AllNonEmpty(tokens)
    requires open.Some? ==> open.value < end <= at
    ensures Ordered(Ranges(tokens, at, open, end), if open.Some? then open.value else at, at + |Flatten(tokens)|)
    decreases tokens
  {
    hide Ranges, Flatten, IsContent;
    if tokens == [] {
      NoRanges(at, open, end);
      NoTokens(Kyuubi, false, at);
    } else {
      var next := at + |tokens[0].text|;
      assert tokens[0] in tokens;
      assert tokens == [tokens[0]] + tokens[1..] && tokens[0..] == tokens;
      FlattenCons(tokens[0], tokens[1..]);
      RangesStep(tokens, 0, at, open, end);
      if !IsContent(tokens[0]) {
        RangesAreOrdered(tokens[1..], next, open, end);
      } else if tokens[0].kind == Separator {
        RangesAreOrdered(tokens[1..], next, None, end);
      } else {
        RangesAreOrdered(tokens[1..], next, Some(if open.Some? then open.value else at), next);
      }
    }
  }

  predicate Within(span: Span, range: Range) { range.start <= span.start && span.end <= range.end }

  /** What becomes of token `i`: code lies in a statement, and a separator
      ends one or lies between two. */
  ghost predicate Placed(t: Token, span: Span, ranges: seq<Range>) {
    && (IsCode(t) ==> exists j :: 0 <= j < |ranges| && Within(span, ranges[j]))
    && (t.kind == Separator && IsContent(t) ==>
          forall j :: 0 <= j < |ranges| ==>
            ranges[j].end == span.end || ranges[j].end <= span.start || span.end <= ranges[j].start)
  }

  lemma {:induction false} RangesPlaceTokens(tokens: seq<Token>, at: nat, open: Option<nat>, end: nat, i: nat)
    requires AllNonEmpty(tokens) && i < |tokens|
    requires open.Some? ==> open.value < end <= at
    ensures Placed(tokens[i], Spans(tokens, at)[i], Ranges(tokens, at, open, end))
    decreases tokens
  {
    var next := at + |tokens[0].text|;
    var span := Spans(tokens, at)[i];
    var ranges := Ranges(tokens, at, open, end);
    assert tokens[0] in tokens;
    OpenComesFirst(tokens, at, open, end);
    SpansAreAfter(tokens, at, i);
    if i == 0 {
      var rest := tokens[1..];
      if IsCode(tokens[0]) {
        OpenComesFirst(rest, next, Some(if open.Some? then open.value else at), next);
        assert Within(span, ranges[0]);
      } else if tokens[0].kind == Separator && IsContent(tokens[0]) {
        RangesAreOrdered(rest, next, None, end);
      }
    } else if !IsContent(tokens[0]) {
      RangesPlaceTokens(tokens[1..], next, open, end, i - 1);
    } else if tokens[0].kind == Separator {
      RangesPlaceTokens(tokens[1..], next, None, end, i - 1);
      var first := if open.Some? then [Range(open.value, next)] else [];
      PlacedAfter(tokens[i], span, first, Ranges(tokens[1..], next, None, end));
    } else {
      RangesPlaceTokens(tokens[1..], next, Some(if open.Some? then open.value else at), next, i - 1);
    }
  }

  lemma PlacedAfter(t: Token, span: Span, first: seq<Range>, rest: seq<Range>)
    requires Placed(t, span, rest)
    requires forall r :: r in first ==> r.end <= span.start
    ensures Placed(t, span, first + rest)
  {
    if IsCode(t) {
      var j :| 0 <= j < |rest| && Within(span, rest[j]);
      assert Within(span, (first + rest)[|first| + j]);
    }
  }

  lemma {:induction false} SpansAreAfter(tokens: seq<Token>, at: nat, i: nat)
    requires i < |tokens|
    ensures at + (if i > 0 then |tokens[0].text| else 0) <= Spans(tokens, at)[i].start
  {
    if i > 0 {
      SpansAreAfter(tokens[1..], at + |tokens[0].text|, i - 1);
    }
  }

  /** An open statement becomes the first range. */
  lemma {:induction false} OpenComesFirst(tokens: seq<Token>, at: nat, open: Option<nat>, end: nat)
    requires AllNonEmpty(tokens)
    requires open.Some? ==> open.value < end <= at
    ensures open.Some? ==>
              var ranges := Ranges(tokens, at, open, end);
              ranges != [] && ranges[0].start == open.value && end <= ranges[0].end
    decreases tokens
  {
    if tokens != [] && open.Some? {
      var next := at + |tokens[0].text|;
      assert tokens[0] in tokens;
      OpenComesFirst(tokens[1..], next, open, end);
      OpenComesFirst(tokens[1..], next, open, next);
    }
  }

  predicate StartsAt(tokens: seq<Token>, at: nat, i: nat, start: nat)
    requires i < |tokens|
  {
    IsCode(tokens[i]) && Spans(tokens, at)[i].start == start
  }

  /** Token `i` ends a statement: a separator, or the last code token. */
  predicate EndsAt(tokens: seq<Token>, at: nat, i: nat, end: nat, last: bool)
    requires i < |tokens|
  {
    && IsContent(tokens[i])
    && Spans(tokens, at)[i].end == end
    && (tokens[i].kind == Separator || (last && forall k :: i < k < |tokens| ==> !IsContent(tokens[k])))
  }

  /** A statement starts with its first code token, and ends with its separator
      or, when nothing but blanks and comments follows, with its last token. */
  ghost predicate Bounded(tokens: seq<Token>, at: nat, range: Range, last: bool) {
    HasStart(tokens, at, range.start) && HasEnd(tokens, at, range.end, last)
  }

  ghost predicate HasStart(tokens: seq<Token>, at: nat, start: nat) {
    exists i :: 0 <= i < |tokens| && StartsAt(tokens, at, i, start)
  }

  ghost predicate HasEnd(tokens: seq<Token>, at: nat, end: nat, last: bool) {
    exists i :: 0 <= i < |tokens| && EndsAt(tokens, at, i, end, last)
  }

  predicate NoContent(tokens: seq<Token>) { forall k :: 0 <= k < |tokens| ==> !IsContent(tokens[k]) }

  ghost predicate BoundedOrOpen(tokens: seq<Token>, at: nat, open: Option<nat>, end: nat, j: nat, range: Range,
                                last: bool) {
    && (HasStart(tokens, at, range.start) || (open.Some? && j == 0 && range.start == open.value))
    && (HasEnd(tokens, at, range.end, last) || (open.Some? && last && range.end == end && NoContent(tokens)))
  }

  lemma {:induction false} RangesAreBounded(tokens: seq<Token>, at: nat, open: Option<nat>, end: nat, j: nat)
    requires j < |Ranges(tokens, at, open, end)|
    ensures var ranges := Ranges(tokens, at, open, end);
            BoundedOrOpen(tokens, at, open, end, j, ranges[j], j == |ranges| - 1)
    decreases tokens
  {
    hide Ranges, IsContent, Spans, HasStart, HasEnd, NoContent;
    var ranges := Ranges(tokens, at, open, end);
    if tokens == [] {
      NoRanges(at, open, end);
      NoneHaveContent();
    } else {
      var next := at + |tokens[0].text|;
      var rest := tokens[1..];
      assert tokens[0..] == tokens;
      RangesStep(tokens, 0, at, open, end);
      BoundsShift(tokens, at, ranges[j], j == |ranges| - 1);
      if !IsContent(tokens[0]) {
        RangesAreBounded(rest, next, open, end, j);
      } else if tokens[0].kind == Separator {
        if !(open.Some? && j == 0) {
          RangesAreBounded(rest, next, None, end, if open.Some? then j - 1 else j);
        }
      } else {
        RangesAreBounded(rest, next, Some(if open.Some? then open.value else at), next, j);
        if NoContent(rest) {
          EndsFirst(tokens, at, next, j == |ranges| - 1);
        }
      }
    }
  }

  lemma NoneHaveContent()
    ensures NoContent([])
  {
  }

  lemma EndsFirst(tokens: seq<Token>, at: nat, end: nat, last: bool)
    requires tokens != [] && EndsAt(tokens, at, 0, end, true)
    ensures last ==> HasEnd(tokens, at, end, last)
  {
  }

  /** What bounds a range in the rest of the tokens bounds it in all of them. */
  lemma BoundsShift(tokens: seq<Token>, at: nat, range: Range, last: bool)
    requires tokens != []
    ensures var rest, next := tokens[1..], at + |tokens[0].text|;
            && (HasStart(rest, next, range.start) ==> HasStart(tokens, at, range.start))
            && (HasEnd(rest, next, range.end, last) ==> HasEnd(tokens, at, range.end, last))
            && (NoContent(rest) && !IsContent(tokens[0]) ==> NoContent(tokens))
            && (NoContent(rest) && IsContent(tokens[0]) ==> EndsAt(tokens, at, 0, next, true))
            && (IsCode(tokens[0]) ==> HasStart(tokens, at, at))
            && (tokens[0].kind == Separator && IsContent(tokens[0]) ==> HasEnd(tokens, at, next, last))
  {
    hide IsContent, Spans;
    var rest, next := tokens[1..], at + |tokens[0].text|;
    assert tokens == [tokens[0]] + rest;
    SpansCons(tokens[0], rest, at);
    assert forall k :: 0 < k < |tokens| ==> tokens[k] == rest[k - 1];
    assert IsCode(tokens[0]) ==> StartsAt(tokens, at, 0, at);
    assert tokens[0].kind == Separator && IsContent(tokens[0]) ==> EndsAt(tokens, at, 0, next, last);
    if HasStart(rest, next, range.start) {
      var i :| 0 <= i < |rest| && StartsAt(rest, next, i, range.start);
      assert StartsAt(tokens, at, i + 1, range.start);
    }
    if HasEnd(rest, next, range.end, last) {
      var i :| 0 <= i < |rest| && EndsAt(rest, next, i, range.end, last);
      assert EndsAt(tokens, at, i + 1, range.end, last);
    }
  }

  /** The statements of a text: in order, apart, holding every code token,
      each from its first code token to its separator or last token. */
  lemma {:induction false} StatementsAreSound(db: Database, sql: string)
    ensures var tokens, ranges := Tokens(db, sql), StatementRanges(db, sql);
            && Ordered(ranges, 0, |sql|)
            && (forall i :: 0 <= i < |tokens| ==> Placed(tokens[i], Spans(tokens, 0)[i], ranges))
            && (forall j :: 0 <= j < |ranges| ==> Bounded(tokens, 0, ranges[j], j == |ranges| - 1))
  {
    hide Ranges, Lex, Spans, Flatten, Placed;
    var tokens, ranges := Tokens(db, sql), StatementRanges(db, sql);
    LexCovers(db, false, sql);
    RangesAreOrdered(tokens, 0, None, 0);
    forall i | 0 <= i < |tokens|
      ensures Placed(tokens[i], Spans(tokens, 0)[i], ranges)
    {
      RangesPlaceTokens(tokens, 0, None, 0, i);
    }
    forall j | 0 <= j < |ranges|
      ensures Bounded(tokens, 0, ranges[j], j == |ranges| - 1)
    {
      RangesAreBounded(tokens, 0, None, 0, j);
    }
  }

  /** A token that makes a statement: neither a comment nor a separator, and not blank. */
  ghost predicate IsText(t: Token) {
    t.kind != Comment && t.kind != Separator && exists k :: 0 <= k < |t.text| && !IsWhitespace(t.text[k])
  }

  /** Which text a range holds: it starts with a token that makes a statement, goes on to a
      separator or, when none follows, to the last such token, and has no separator before its end. */
  ghost predicate HoldsOne(tokens: seq<Token>, range: Range, last: bool) {
    var spans := Spans(tokens, 0);
    && (exists i :: 0 <= i < |tokens| && IsText(tokens[i]) && spans[i].start == range.start)
    && (exists i :: 0 <= i < |tokens| && spans[i].end == range.end
                    && (tokens[i].kind == Separator || (last && IsText(tokens[i]) && NothingFollows(tokens, i))))
    && (forall i :: 0 <= i < |tokens| && tokens[i].kind == Separator ==>
          range.end == spans[i].end || range.end <= spans[i].start || spans[i].end <= range.start)
  }

  ghost predicate NothingFollows(tokens: seq<Token>, i: nat) {
    forall k :: i < k < |tokens| ==> tokens[k].kind != Separator && !IsText(tokens[k])
  }

  lemma TextIsCode(db: Database, sql: string)
    ensures var tokens := Tokens(db, sql);
            forall i :: 0 <= i < |tokens| ==>
              (IsText(tokens[i]) <==> IsCode(tokens[i]))
              && (IsText(tokens[i]) || tokens[i].kind == Separator <==> IsContent(tokens[i]))
  {
    hide Lex, IsWhitespace;
    var tokens := Tokens(db, sql);
    forall i | 0 <= i < |tokens|
      ensures IsText(tokens[i]) <==> IsCode(tokens[i])
      ensures IsText(tokens[i]) || tokens[i].kind == Separator <==> IsContent(tokens[i])
    {
      if tokens[i].kind == Separator {
        SeparatorIsContent(db, sql, i);
      }
    }
  }

  lemma BoundedHoldsOne(db: Database, sql: string, range: Range, last: bool)
    requires Bounded(Tokens(db, sql), 0, range, last)
    requires forall i :: 0 <= i < |Tokens(db, sql)| && Tokens(db, sql)[i].kind == Separator ==>
               var span := Spans(Tokens(db, sql), 0)[i];
               range.end == span.end || range.end <= span.start || span.end <= range.start
    ensures HoldsOne(Tokens(db, sql), range, last)
  {
    hide Lex, Spans, IsContent, IsText;
    TextIsCode(db, sql);
  }

  lemma PlacedIs(db: Database, sql: string, i: nat)
    requires i < |Tokens(db, sql)| && Placed(Tokens(db, sql)[i], Spans(Tokens(db, sql), 0)[i], StatementRanges(db, sql))
    ensures var (t, span, ranges) := (Tokens(db, sql)[i], Spans(Tokens(db, sql), 0)[i], StatementRanges(db, sql));
            && (IsText(t) ==>
                  exists j :: 0 <= j < |ranges| && ranges[j].start <= span.start && span.end <= ranges[j].end)
            && (t.kind == Separator ==> forall j :: 0 <= j < |ranges| ==>
                  ranges[j].end == span.end || ranges[j].end <= span.start || span.end <= ranges[j].start)
  {
    hide Lex, Spans, IsContent, IsText, Ranges;
    TextIsCode(db, sql);
  }

  /** The statements by the kinds of the tokens alone; this leaves one list of ranges. */
  lemma StatementsByKind(db: Database, sql: string)
    ensures var tokens, ranges := Tokens(db, sql), StatementRanges(db, sql);
            && Ordered(ranges, 0, |sql|)
            && (forall j :: 0 <= j < |ranges| ==> HoldsOne(tokens, ranges[j], j == |ranges| - 1))
            && (forall i :: 0 <= i < |tokens| && IsText(tokens[i]) ==>
                  exists j :: 0 <= j < |ranges| && ranges[j].start <= Spans(tokens, 0)[i].start
                              && Spans(tokens, 0)[i].end <= ranges[j].end)
  {
    hide Ranges, Lex, Spans, IsText, Bounded, Placed, HoldsOne, Ordered;
    StatementsAreSound(db, sql);
    var tokens, ranges := Tokens(db, sql), StatementRanges(db, sql);
    forall i | 0 <= i < |tokens|
      ensures IsText(tokens[i]) ==>
                exists j :: 0 <= j < |ranges| && ranges[j].start <= Spans(tokens, 0)[i].start
                            && Spans(tokens, 0)[i].end <= ranges[j].end
      ensures tokens[i].kind == Separator ==> forall j :: 0 <= j < |ranges| ==>
                var span := Spans(tokens, 0)[i];
                ranges[j].end == span.end || ranges[j].end <= span.start || span.end <= ranges[j].start
    {
      PlacedIs(db, sql, i);
    }
    forall j | 0 <= j < |ranges|
      ensures HoldsOne(tokens, ranges[j], j == |ranges| - 1)
    {
      BoundedHoldsOne(db, sql, ranges[j], j == |ranges| - 1);
    }
  }

  /** A separator is a semicolon, so it is never blank. */
  lemma {:induction false} SeparatorText(db: Database, afterE: bool, r: string)
    ensures forall t :: t in Lex(db, afterE, r) && t.kind == Separator ==> t.text == ";"
    decreases |r|
  {
    hide Lex, Head;
    LexStep(db, afterE, r);
    if r != "" {
      var n := Head(db, afterE, r).0;
      SeparatorHead(db, afterE, r);
      SeparatorText(db, IsE(r[n - 1]), r[n..]);
    }
  }

  lemma SeparatorHead(db: Database, afterE: bool, r: string)
    requires r != ""
    ensures Head(db, afterE, r).1 == Separator ==> r[..Head(db, afterE, r).0] == ";"
  {
    hide QuoteEnd, LineEnd, BlockEnd, DollarOpen, DollarEnd, NumberEnd, WordEnd, BlankEnd;
  }

  lemma SeparatorIsContent(db: Database, sql: string, i: nat)
    requires i < |Tokens(db, sql)| && Tokens(db, sql)[i].kind == Separator
    ensures IsContent(Tokens(db, sql)[i])
  {
    SeparatorText(db, false, sql);
    assert Tokens(db, sql)[i] in Tokens(db, sql);
    assert !IsWhitespace(";"[0]);
  }

  // ----- The loops

  /** `statement_ranges_in` */
  method StatementRangesIn(sql: string, tokens: seq<Span>, ghost db: Database) returns (ranges: seq<Range>)
    requires tokens == Spans(Tokens(db, sql), 0)
    ensures ranges == StatementRanges(db, sql)
  {
    hide Lex, Ranges, IsBlank, Spans;
    var start: Option<nat> := None;
    var end: nat := 0;
    ranges := [];
    ghost var toks := Tokens(db, sql);
    ghost var at := 0;
    assert toks[0..] == toks;
    NothingFirst(Ranges(toks, 0, None, 0));
    TokensAreSound(db, sql);
    for i := 0 to |tokens|
      invariant at == if i < |tokens| then tokens[i].start else |sql|
      invariant ranges + Ranges(toks[i..], at, start, end) == StatementRanges(db, sql)
    {
      NextPlace(db, sql, i);
      RangesStep(toks, i, at, start, end);
      ghost var before := ranges;
      at := tokens[i].end;
      var kind := tokens[i].kind;
      if kind == Comment || IsBlank(sql[tokens[i].start..tokens[i].end]) {
        continue;
      }
      if kind == Separator {
        if start.Some? {
          ranges := ranges + [Range(start.value, tokens[i].end)];
          start := None;
          Associative(before, [ranges[|before|]], Ranges(toks[i + 1..], at, None, end));
        } else {
          NothingFirst(Ranges(toks[i + 1..], at, None, end));
        }
      } else {
        start := Some(if start.Some? then start.value else tokens[i].start);
        end := tokens[i].end;
      }
    }
    assert toks[|tokens|..] == [] && ranges + [] == ranges;
    NoRanges(at, start, end);
    if start.Some? {
      ranges := ranges + [Range(start.value, end)];
    }
  }

  lemma NextPlace(db: Database, sql: string, i: nat)
    requires i < |Tokens(db, sql)|
    ensures var span := Spans(Tokens(db, sql), 0)[i];
            && 0 <= span.start < span.end == span.start + |Tokens(db, sql)[i].text| <= |sql|
            && sql[span.start..span.end] == Tokens(db, sql)[i].text
            && span.kind == Tokens(db, sql)[i].kind
            && span.end == if i + 1 < |Tokens(db, sql)| then Spans(Tokens(db, sql), 0)[i + 1].start else |sql|
  {
    TokenPlace(db, sql, i);
    TokensAreSound(db, sql);
  }

  datatype Verdict = Single | NoStatement | SeveralStatements

  /** `validate_single_for` */
  method ValidateSingleFor(sql: string, db: Database) returns (verdict: Verdict)
    ensures verdict == Single <==> |StatementRanges(db, sql)| == 1
    ensures verdict == NoStatement <==> StatementRanges(db, sql) == []
  {
    hide Lex, Head;
    var statements := 0;
    var content := false;
    var tokens := TokensFor(sql, db);
    ghost var toks := Tokens(db, sql);
    assert toks[0..] == toks;
    for i := 0 to |tokens|
      invariant statements >= 0
      invariant statements + Count(toks[i..], content) == Count(toks, false)
    {
      NextPlace(db, sql, i);
      assert toks[i..][1..] == toks[i + 1..];
      if tokens[i].kind == Separator {
        SeparatorIsContent(db, sql, i);
        if content {
          statements := statements + 1;
          content := false;
        }
      } else if tokens[i].kind != Comment && !IsBlank(sql[tokens[i].start..tokens[i].end]) {
        content := true;
      }
    }
    statements := statements + if content then 1 else 0;
    RangesCount(toks, 0, None, 0);
    verdict := if statements == 0 then NoStatement else if statements == 1 then Single else SeveralStatements;
  }
}
