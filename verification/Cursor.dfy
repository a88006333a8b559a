/** The statement at a cursor and the range to highlight for it, of src/sql.rs. */
module Cursor {
  import opened Chars
  import opened Lexer
  import opened Options
  import opened Statements

  predicate SameLineSpace(text: string) {
    forall i :: 0 <= i < |text| ==> IsWhitespace(text[i]) && !IsLineBreak(text[i])
  }

  predicate Contains(range: Range, offset: nat) { range.start <= offset < range.end }

  function Comments(spans: seq<Span>): seq<Range> {
    if spans == [] then []
    else (if spans[0].kind == Comment then [Range(spans[0].start, spans[0].end)] else []) + Comments(spans[1..])
  }

  predicate InSome(ranges: seq<Range>, offset: nat) { exists i :: 0 <= i < |ranges| && Contains(ranges[i], offset) }

  /** The text between a statement and an offset outside it. */
  predicate Reaches(sql: string, range: Range, offset: nat)
    requires offset <= |sql| && range.start <= range.end <= |sql|
  {
    if offset < range.start then SameLineSpace(sql[offset..range.start])
    else if range.end <= offset then SameLineSpace(sql[range.end..offset])
    else true
  }

  ghost predicate Inside(ranges: seq<Range>, sql: string) {
    forall i :: 0 <= i < |ranges| ==> ranges[i].start <= ranges[i].end <= |sql|
  }

  function FirstContaining(ranges: seq<Range>, offset: nat): (found: Option<Range>)
    ensures found.Some? <==> InSome(ranges, offset)
    ensures found.Some? ==> found.value in ranges && Contains(found.value, offset)
  {
    if ranges == [] then None
    else if Contains(ranges[0], offset) then
      assert InSome(ranges, offset);
      Some(ranges[0])
    else
      var found := FirstContaining(ranges[1..], offset);
      assert forall i :: 0 < i < |ranges| ==> ranges[i] == ranges[1..][i - 1];
      assert forall i :: 0 <= i < |ranges[1..]| ==> ranges[1..][i] == ranges[i + 1];
      found
  }

  function FirstReaching(sql: string, ranges: seq<Range>, offset: nat): (found: Option<Range>)
    requires offset <= |sql| && Inside(ranges, sql)
    ensures found.Some? ==> found.value in ranges && Reaches(sql, found.value, offset)
    ensures found.None? ==> forall i :: 0 <= i < |ranges| ==> !Reaches(sql, ranges[i], offset)
  {
    if ranges == [] then None
    else if Reaches(sql, ranges[0], offset) then Some(ranges[0])
    else FirstReaching(sql, ranges[1..], offset)
  }

  /** `StatementIndex::range_at` on an index of `sql` */
  function RangeAt(sql: string, statements: seq<Range>, comments: seq<Range>, offset: nat): Option<Range>
    requires Inside(statements, sql)
  {
    if offset > |sql| then None
    else
      var found := FirstContaining(statements, offset);
      if found.Some? then found
      else if InSome(comments, offset) then None
      else FirstReaching(sql, statements, offset)
  }

  function LineStart(sql: string, at: nat): (start: nat)
    requires at <= |sql|
    ensures start <= at && (start == 0 || sql[start - 1] == '\n')
    ensures forall i :: start <= i < at ==> sql[i] != '\n'
  {
    if at == 0 || sql[at - 1] == '\n' then at else LineStart(sql, at - 1)
  }

  function LineStop(sql: string, at: nat): (stop: nat)
    requires at <= |sql|
    ensures at <= stop <= |sql| && (stop == |sql| || IsLineBreak(sql[stop]))
    ensures forall i :: at <= i < stop ==> !IsLineBreak(sql[i])
    decreases |sql| - at
  {
    if at == |sql| || IsLineBreak(sql[at]) then at else LineStop(sql, at + 1)
  }

  /** `run_highlight` for the statement that `range_at` found */
  function Highlight(sql: string, range: Range): Range
    requires range.start <= range.end <= |sql|
  {
    var lineStart, lineStop := LineStart(sql, range.start), LineStop(sql, range.end);
    Range(if SameLineSpace(sql[lineStart..range.start]) then lineStart else range.start,
          if SameLineSpace(sql[range.end..lineStop]) then lineStop else range.end)
  }

  /** A statement holds a character that is not white space. */
  lemma StatementIsNotBlank(db: Database, sql: string, j: nat) returns (k: nat)
    requires j < |StatementRanges(db, sql)|
    ensures var r := StatementRanges(db, sql)[j];
            r.start < r.end <= |sql| && r.start <= k < r.end && !IsWhitespace(sql[k])
  {
    hide Lex, Ranges, Flatten, Spans, Placed, IsContent;
    var tokens, r, last := Tokens(db, sql), StatementRanges(db, sql)[j], j == |StatementRanges(db, sql)| - 1;
    StatementsAreSound(db, sql);
    assert Bounded(tokens, 0, r, last);
    var i :| 0 <= i < |tokens| && StartsAt(tokens, 0, i, r.start);
    var e :| 0 <= e < |tokens| && EndsAt(tokens, 0, e, r.end, last);
    NextPlace(db, sql, e);
    SpansInOrder(db, sql, i, e);
    k := CodeIsNotBlank(db, sql, i);
  }

  lemma CodeIsNotBlank(db: Database, sql: string, i: nat) returns (k: nat)
    requires i < |Tokens(db, sql)| && IsCode(Tokens(db, sql)[i])
    ensures var span := Spans(Tokens(db, sql), 0)[i];
            span.start <= k < span.end <= |sql| && !IsWhitespace(sql[k])
  {
    hide Lex, Spans;
    var text, span := Tokens(db, sql)[i].text, Spans(Tokens(db, sql), 0)[i];
    NextPlace(db, sql, i);
    var n :| 0 <= n < |text| && !IsWhitespace(text[n]);
    k := span.start + n;
    assert sql[span.start..span.end][n] == sql[k];
  }

  lemma {:induction false} SpansInOrder(db: Database, sql: string, i: nat, e: nat)
    requires i < |Tokens(db, sql)| && e < |Tokens(db, sql)|
    ensures var spans := Spans(Tokens(db, sql), 0);
            (i < e ==> spans[i].end <= spans[e].start) && (spans[i].start < spans[e].end ==> i <= e)
    decreases if i < e then e - i else i - e
  {
    hide Lex;
    TokensAreSound(db, sql);
    if i < e {
      SpansInOrder(db, sql, i, e - 1);
    } else if e < i {
      SpansInOrder(db, sql, i - 1, e);
    }
  }

  /** No statement lies between the two. */
  ghost predicate NoneBetween(sql: string, statements: seq<Range>, range: Range, offset: nat) {
    forall j :: 0 <= j < |statements| ==>
      !(range.end <= statements[j].start && statements[j].end <= offset)
      && !(offset <= statements[j].start && statements[j].end <= range.start)
  }

  /** The cursor statement is the one that holds the offset. Only when there is
      none, and the offset is in no comment, it is one that only white space of
      the same line, and so no other statement, parts from the offset. When
      there is no such statement the result is None. */
  lemma {:induction false} CursorStatement(db: Database, sql: string, offset: nat)
    requires offset <= |sql|
    ensures var statements := StatementRanges(db, sql);
            var comments := Comments(Spans(Tokens(db, sql), 0));
            && Inside(statements, sql)
            && var result := RangeAt(sql, statements, comments, offset);
            && (result.Some? ==> result.value in statements)
            && (result.Some? && !Contains(result.value, offset) ==>
                  && !InSome(statements, offset) && !InSome(comments, offset)
                  && Reaches(sql, result.value, offset)
                  && NoneBetween(sql, statements, result.value, offset))
            && (result.None? <==>
                  (!InSome(statements, offset)
                   && (InSome(comments, offset) || forall j :: 0 <= j < |statements| ==>
                       !Reaches(sql, statements[j], offset))))
  {
    hide Lex, Ranges, Spans, Flatten, Placed, Bounded, StatementRanges, Tokens, Reaches, Comments;
    var statements := StatementRanges(db, sql);
    var comments := Comments(Spans(Tokens(db, sql), 0));
    StatementsAreSound(db, sql);
    var result := RangeAt(sql, statements, comments, offset);
    if result.Some? && !Contains(result.value, offset) {
      forall j | 0 <= j < |statements|
        ensures !(result.value.end <= statements[j].start && statements[j].end <= offset)
        ensures !(offset <= statements[j].start && statements[j].end <= result.value.start)
      {
        GapHoldsNoStatement(db, sql, j, result.value, offset);
      }
    }
  }

  /** No character from `low` to `high` is anything but white space of the same line. */
  ghost predicate OnlySpace(sql: string, low: nat, high: nat)
    requires high <= |sql|
  {
    forall k :: low <= k < high ==> IsWhitespace(sql[k]) && sql[k] != '\n' && sql[k] != '\r'
  }

  /** The offset is before or after the statement, on its line, with only white space between. */
  ghost predicate IsNear(sql: string, range: Range, offset: nat)
    requires offset <= |sql| && range.start <= range.end <= |sql|
  {
    && (offset < range.start ==> OnlySpace(sql, offset, range.start))
    && (range.end <= offset ==> OnlySpace(sql, range.end, offset))
  }

  ghost predicate IsInComment(tokens: seq<Token>, offset: nat) {
    exists i :: 0 <= i < |tokens| && IsComment(tokens, 0, i, offset)
  }

  ghost predicate IsFirstNear(sql: string, statements: seq<Range>, i: nat, offset: nat)
    requires offset <= |sql| && Inside(statements, sql) && i < |statements|
  {
    IsNear(sql, statements[i], offset) && forall j :: 0 <= j < i ==> !IsNear(sql, statements[j], offset)
  }

  /** The statement of an offset: the one around it; else, in a comment, none; else the first
      of those that only white space of the same line parts from it. */
  lemma CursorIsRight(db: Database, sql: string, offset: nat)
    requires offset <= |sql|
    ensures var tokens, statements := Tokens(db, sql), StatementRanges(db, sql);
            && Inside(statements, sql)
            && var result := RangeAt(sql, statements, Comments(Spans(tokens, 0)), offset);
            && (forall j :: 0 <= j < |statements| && statements[j].start <= offset < statements[j].end ==>
                  result == Some(statements[j]))
            && ((forall j :: 0 <= j < |statements| ==> !(statements[j].start <= offset < statements[j].end)) ==>
                  if IsInComment(tokens, offset) then result.None?
                  else
                    && (forall i :: 0 <= i < |statements| && IsFirstNear(sql, statements, i, offset) ==>
                          result == Some(statements[i]))
                    && ((forall i :: 0 <= i < |statements| ==> !IsNear(sql, statements[i], offset)) ==>
                          result.None?))
  {
    hide Lex, Ranges, Spans, Flatten, Placed, Bounded, StatementRanges, Tokens, Reaches, Comments, IsNear;
    var tokens, statements := Tokens(db, sql), StatementRanges(db, sql);
    StatementsAreSound(db, sql);
    InCommentIs(tokens, offset);
    forall j | 0 <= j < |statements| && statements[j].start <= offset < statements[j].end
      ensures RangeAt(sql, statements, Comments(Spans(tokens, 0)), offset) == Some(statements[j])
    {
      OnlyOneContains(statements, offset, j, |sql|);
      assert InSome(statements, offset);
    }
    forall i | 0 <= i < |statements|
      ensures Reaches(sql, statements[i], offset) <==> IsNear(sql, statements[i], offset)
    {
      NearIs(sql, statements[i], offset);
    }
    forall i | 0 <= i < |statements| && IsFirstNear(sql, statements, i, offset)
      ensures FirstReaching(sql, statements, offset) == Some(statements[i])
    {
      FirstReachingIs(sql, statements, offset, i);
    }
  }

  lemma OnlyOneContains(statements: seq<Range>, offset: nat, j: nat, high: nat)
    requires Ordered(statements, 0, high) && j < |statements| && statements[j].start <= offset < statements[j].end
    ensures forall r :: r in statements && Contains(r, offset) ==> r == statements[j]
  {
    forall i | 0 <= i < |statements| && Contains(statements[i], offset)
      ensures i == j
    {
      OrderedApart(statements, 0, high, i, j);
      OrderedApart(statements, 0, high, j, i);
    }
  }

  lemma {:induction false} OrderedApart(statements: seq<Range>, low: nat, high: nat, i: nat, j: nat)
    requires Ordered(statements, low, high) && i < |statements| && j < |statements|
    ensures i < j ==> statements[i].end <= statements[j].start
  {
    if i + 1 < j {
      OrderedApart(statements, low, high, i, j - 1);
    }
  }

  ghost predicate IsComment(tokens: seq<Token>, at: nat, i: nat, offset: nat)
    requires i < |tokens|
  {
    tokens[i].kind == Comment && Spans(tokens, at)[i].start <= offset < Spans(tokens, at)[i].end
  }

  lemma {:induction false} CommentsAre(tokens: seq<Token>, at: nat, offset: nat)
    ensures InSome(Comments(Spans(tokens, at)), offset)
            <==> exists i :: 0 <= i < |tokens| && IsComment(tokens, at, i, offset)
    decreases tokens
  {
    if tokens != [] {
      hide IsComment, InSome;
      var next, spans, rest := at + |tokens[0].text|, Spans(tokens, at), tokens[1..];
      CommentsAre(rest, next, offset);
      FirstComment(tokens, at, offset);
      forall i | 0 <= i < |rest|
        ensures IsComment(tokens, at, i + 1, offset) <==> IsComment(rest, next, i, offset)
      {
        LaterComment(tokens, at, i, offset);
      }
      if i :| 0 <= i < |tokens| && IsComment(tokens, at, i, offset) {
        assert i > 0 ==> IsComment(rest, next, i - 1, offset);
      }
    }
  }

  lemma FirstComment(tokens: seq<Token>, at: nat, offset: nat)
    requires tokens != []
    ensures InSome(Comments(Spans(tokens, at)), offset)
            <==> IsComment(tokens, at, 0, offset) || InSome(Comments(Spans(tokens[1..], at + |tokens[0].text|)), offset)
  {
    hide InSome;
    var spans := Spans(tokens, at);
    InSomePush(if spans[0].kind == Comment then [Range(spans[0].start, spans[0].end)] else [], Comments(spans[1..]),
               offset);
    NoneContains(offset);
    OneContains(Range(spans[0].start, spans[0].end), offset);
  }

  lemma NoneContains(offset: nat)
    ensures !InSome([], offset)
  {
  }

  lemma OneContains(range: Range, offset: nat)
    ensures InSome([range], offset) <==> range.start <= offset < range.end
  {
    if range.start <= offset < range.end {
      assert Contains([range][0], offset);
    }
  }

  lemma LaterComment(tokens: seq<Token>, at: nat, i: nat, offset: nat)
    requires tokens != [] && i < |tokens| - 1
    ensures IsComment(tokens, at, i + 1, offset) <==> IsComment(tokens[1..], at + |tokens[0].text|, i, offset)
  {
  }

  lemma InSomePush(first: seq<Range>, rest: seq<Range>, offset: nat)
    ensures InSome(first + rest, offset) <==> InSome(first, offset) || InSome(rest, offset)
  {
    if i :| 0 <= i < |rest| && Contains(rest[i], offset) {
      assert (first + rest)[|first| + i] == rest[i];
    }
    if i :| 0 <= i < |first| && Contains(first[i], offset) {
      assert (first + rest)[i] == first[i];
    }
  }

  lemma InCommentIs(tokens: seq<Token>, offset: nat)
    ensures InSome(Comments(Spans(tokens, 0)), offset) <==> IsInComment(tokens, offset)
  {
    CommentsAre(tokens, 0, offset);
  }

  lemma NearIs(sql: string, range: Range, offset: nat)
    requires offset <= |sql| && range.start <= range.end <= |sql|
    ensures Reaches(sql, range, offset) <==> IsNear(sql, range, offset)
  {
    if offset < range.start {
      SpaceIs(sql, offset, range.start);
    } else if range.end <= offset {
      SpaceIs(sql, range.end, offset);
    }
  }

  lemma SpaceIs(sql: string, low: nat, high: nat)
    requires low <= high <= |sql|
    ensures SameLineSpace(sql[low..high]) <==> OnlySpace(sql, low, high)
  {
    hide IsWhitespace;
    var gap := sql[low..high];
    assert forall k :: low <= k < high ==> sql[k] == gap[k - low];
    assert forall i :: 0 <= i < |gap| ==> gap[i] == sql[low + i];
  }

  lemma {:induction false} FirstReachingIs(sql: string, ranges: seq<Range>, offset: nat, i: nat)
    requires offset <= |sql| && Inside(ranges, sql) && i < |ranges| && Reaches(sql, ranges[i], offset)
    requires forall j :: 0 <= j < i ==> !Reaches(sql, ranges[j], offset)
    ensures FirstReaching(sql, ranges, offset) == Some(ranges[i])
  {
    hide Reaches;
    if i > 0 {
      FirstReachingIs(sql, ranges[1..], offset, i - 1);
    }
  }

  lemma GapHoldsNoStatement(db: Database, sql: string, j: nat, range: Range, offset: nat)
    requires j < |StatementRanges(db, sql)| && offset <= |sql| && range.start <= range.end <= |sql|
    requires !Contains(range, offset) && Reaches(sql, range, offset)
    ensures var s := StatementRanges(db, sql)[j];
            !(range.end <= s.start && s.end <= offset) && !(offset <= s.start && s.end <= range.start)
  {
    hide Lex, Ranges;
    var k := StatementIsNotBlank(db, sql, j);
    if offset < range.start {
      BlankGap(sql, offset, range.start);
    } else {
      BlankGap(sql, range.end, offset);
    }
  }

  lemma BlankGap(sql: string, low: nat, high: nat)
    requires low <= high <= |sql| && SameLineSpace(sql[low..high])
    ensures forall i :: low <= i < high ==> IsWhitespace(sql[i])
  {
  }

  /** The highlight holds the statement and adds only white space of its first
      and last line: each side stays at the statement or goes to the line's edge. */
  lemma HighlightIsSound(sql: string, range: Range)
    requires range.start <= range.end <= |sql|
    ensures var h := Highlight(sql, range);
            && h.start <= range.start && range.end <= h.end <= |sql|
            && SameLineSpace(sql[h.start..range.start]) && SameLineSpace(sql[range.end..h.end])
            && (h.start == 0 || sql[h.start - 1] == '\n'
                || (h.start == range.start && !SameLineSpace(sql[LineStart(sql, range.start)..range.start])))
            && (h.end == |sql| || IsLineBreak(sql[h.end])
                || (h.end == range.end && !SameLineSpace(sql[range.end..LineStop(sql, range.end)])))
  {
    hide LineStart, LineStop, SameLineSpace;
    NoSpace(sql, range.start);
    NoSpace(sql, range.end);
  }

  lemma NoSpace(sql: string, at: nat)
    requires at <= |sql|
    ensures SameLineSpace(sql[at..at])
  {
  }
}
