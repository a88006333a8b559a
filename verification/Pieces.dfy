/** The statements of a text, each cut out and read on its own, as the program
    does when it runs the statement at the cursor: src/sql.rs. */
module Pieces {
  import opened Chars
  import opened Lexer
  import opened Options
  import opened Statements
  import opened TokenEquivalence
  import opened Stability

  /** The text of a range. */
  function TextOf(sql: string, range: Range): string {
    if range.start <= range.end <= |sql| then sql[range.start..range.end] else ""
  }

  // ----- The tokens of each statement

  /** The tokens of each statement: `current` are those of the one that is open, up to
      its last one that is neither blank nor a comment, and `pending` those after it. */
  function Split(tokens: seq<Token>, current: seq<Token>, pending: seq<Token>): seq<seq<Token>> {
    if tokens == [] then
      if current != [] then [current] else []
    else
      var t, rest := tokens[0], tokens[1..];
      if !IsContent(t) then Split(rest, current, if current != [] then pending + [t] else [])
      else if t.kind == Separator then
        (if current != [] then [current + pending + [t]] else []) + Split(rest, [], [])
      else Split(rest, current + pending + [t], [])
  }

  // ----- A text that is cut after a token

  /** The cut behind `a` goes through no token: it follows a separator, ends the text,
      or stands before a character that no token takes. */
  ghost predicate IsCut(a: string, b: string) {
    a != "" && (a[|a| - 1] == ';' || b == "" || (!IsWordChar(b[0]) && b[0] !in "$'\""))
  }

  lemma {:induction false} CutTags(o: string, b: string)
    requires IsCut(o, b)
    ensures TagEnds(o + b) == TagEnds(o)
  {
    assert (o + b)[0] == o[0] && (o + b)[1..] == o[1..] + b;
    if |o| == 1 {
      assert o[1..] + b == b;
      assert !TagEnds("");
    } else {
      CutTags(o[1..], b);
    }
  }

  lemma CutIsSimilar(o: string, b: string)
    requires IsCut(o, b)
    ensures Similar(o + b, o)
  {
    hide IsWordChar, IsWhitespace;
    assert (o + b)[0] == o[0] && (o + b)[1..] == o[1..] + b;
    if |o| == 1 {
      assert o[1..] + b == b;
      assert !TagEnds("");
      NoTagAfter(b, o[0] == ';');
      assert b != "" ==> (o + b)[1] == b[0];
    } else {
      assert (o + b)[1] == o[1];
      CutTags(o[1..], b);
    }
  }

  lemma NoTagAfter(b: string, semicolon: bool)
    requires semicolon || b == "" || (!IsWordChar(b[0]) && b[0] !in "$'\"")
    ensures !semicolon ==> !TagEnds(b)
  {
  }

  /** A blank token stays as it is when the text is cut somewhere behind it. */
  lemma BlankStays(db: Database, afterE: bool, text: string, rest: string, other: string, kind: Kind)
    requires text != "" && IsBlank(text) && (other == "" || (rest != "" && rest[0] == other[0]))
    requires Head(db, afterE, text + rest) == (|text|, kind)
    ensures Head(db, afterE, text + other) == (|text|, kind)
  {
    hide Head, IsWhitespace, IsAsciiWhitespace, StartsWord, NumberEnd, BlankEnd, WordEnd;
    var r, s := text + rest, text + other;
    assert r[0] == s[0] == text[0] && IsWhitespace(text[0]);
    assert r[1..] == text[1..] + rest && s[1..] == text[1..] + other;
    BlankRunsOn(db, afterE, r);
    BlankRunsOn(db, afterE, s);
    if StartsWord(text[0]) {
      WordOfBlank(text, rest, other);
    } else if IsAsciiWhitespace(text[0]) {
      BlankRun(text, rest, other);
    }
  }

  lemma BlankRunsOn(db: Database, afterE: bool, r: string)
    requires r != "" && IsWhitespace(r[0])
    ensures Head(db, afterE, r) == RunHead(r) && !IsAsciiDigit(r[0])
  {
    hide DollarOpen, DollarEnd, QuoteEnd, LineEnd, BlockEnd, NumberEnd, BlankEnd, WordEnd;
    assert r[0] != '-' && r[0] != '/' && r[0] != '$' && r[0] != 'U' && r[0] != 'u' && !IsQuote(r[0]);
  }

  lemma WordOfBlank(text: string, rest: string, other: string)
    requires text != "" && IsBlank(text) && (other == "" || (rest != "" && rest[0] == other[0]))
    requires 1 + WordEnd(text[1..] + rest) == |text|
    ensures 1 + WordEnd(text[1..] + other) == |text|
  {
    RunEnds(text[1..] + rest);
    WordStable(text[1..], rest, other);
  }

  lemma {:induction false} BlankRun(text: string, rest: string, other: string)
    requires BlankEnd(text + rest) == |text| && (other == "" || (rest != "" && rest[0] == other[0]))
    ensures BlankEnd(text + other) == |text|
  {
    if text == "" {
      assert text + rest == rest && text + other == other;
    } else {
      assert (text + rest)[1..] == text[1..] + rest && (text + other)[1..] == text[1..] + other;
      BlankRun(text[1..], rest, other);
    }
  }

  /** The first token stays as it is when the text is cut behind a later token, or behind itself. */
  lemma HeadCut(db: Database, afterE: bool, text: string, o: string, b: string, kind: Kind)
    requires text != "" && (o != "" ==> IsCut(o, b))
    requires Head(db, afterE, text + (o + b)) == (|text|, kind)
    ensures Head(db, afterE, text + o) == (|text|, kind)
  {
    hide Head, Similar, IsCut;
    if o != "" {
      CutIsSimilar(o, b);
      assert (o + b)[0] == o[0];
    }
    if IsBlank(text) {
      BlankStays(db, afterE, text, o + b, o, kind);
    } else {
      LineCommentEnds(db, afterE, text, o + b, kind);
      HeadStable(db, afterE, text, o + b, o, kind);
    }
  }

  lemma LineCommentEnds(db: Database, afterE: bool, text: string, rest: string, kind: Kind)
    requires text != "" && Head(db, afterE, text + rest) == (|text|, kind)
    ensures Starts(text, '-', '-') && rest != "" ==> rest[0] == '\n'
  {
    hide BlockEnd, QuoteEnd, DollarOpen, DollarEnd, RunHead;
    RunEnds(text + rest);
  }

  lemma FirstToken(db: Database, afterE: bool, r: string, tokens: seq<Token>)
    requires Lex(db, afterE, r) == tokens && tokens != []
    ensures var t := tokens[0];
            && t.text != "" && t.text <= r && Head(db, afterE, r) == (|t.text|, t.kind)
            && Lex(db, IsE(r[|t.text| - 1]), r[|t.text|..]) == tokens[1..]
  {
    hide Head;
  }

  lemma CutTail(text: string, o: string, b: string)
    requires text + o != "" && IsCut(text + o, b)
    ensures o != "" ==> IsCut(o, b)
  {
    assert o != "" ==> (text + o)[|text + o| - 1] == o[|o| - 1];
  }

  lemma CutStep(db: Database, afterE: bool, t: Token, rest: seq<Token>)
    requires t.text != "" && Head(db, afterE, t.text + Flatten(rest)) == (|t.text|, t.kind)
    requires Lex(db, IsE(t.text[|t.text| - 1]), Flatten(rest)) == rest
    ensures Lex(db, afterE, Flatten([t] + rest)) == [t] + rest
  {
    hide Lex, Head, Flatten;
    FlattenCons(t, rest);
    LexFirst(db, afterE, t.text, Flatten(rest), t.kind);
  }

  lemma CutFirst(db: Database, afterE: bool, t: Token, rest: seq<Token>, more: seq<Token>, b: string)
    requires Lex(db, afterE, Flatten([t] + rest) + b) == [t] + (rest + more)
    requires Flatten([t] + rest) != "" ==> IsCut(Flatten([t] + rest), b)
    ensures t.text != "" && Head(db, afterE, t.text + Flatten(rest)) == (|t.text|, t.kind)
    ensures Lex(db, IsE(t.text[|t.text| - 1]), Flatten(rest) + b) == rest + more
    ensures Flatten(rest) != "" ==> IsCut(Flatten(rest), b)
  {
    hide Head, IsCut, Flatten, Lex;
    var o := Flatten(rest);
    FlattenCons(t, rest);
    Associative(t.text, o, b);
    var r := t.text + (o + b);
    FirstToken(db, afterE, r, [t] + (rest + more));
    assert r[|t.text|..] == o + b && r[|t.text| - 1] == t.text[|t.text| - 1];
    CutTail(t.text, o, b);
    HeadCut(db, afterE, t.text, o, b, t.kind);
  }

  lemma Uncons(first: seq<Token>, more: seq<Token>)
    requires first != []
    ensures first == [first[0]] + first[1..] && first + more == [first[0]] + (first[1..] + more)
  {
  }

  /** The first tokens of a text, cut out, are read as themselves. */
  lemma {:induction false} CutLex(db: Database, afterE: bool, first: seq<Token>, more: seq<Token>, b: string)
    requires Lex(db, afterE, Flatten(first) + b) == first + more
    requires Flatten(first) != "" ==> IsCut(Flatten(first), b)
    ensures Lex(db, afterE, Flatten(first)) == first
    decreases |first|
  {
    hide Head, IsCut, Flatten, Lex;
    if first == [] {
      NoTokens(db, afterE, 0);
    } else {
      Uncons(first, more);
      CutFirst(db, afterE, first[0], first[1..], more, b);
      CutLex(db, IsE(first[0].text[|first[0].text| - 1]), first[1..], more, b);
      CutStep(db, afterE, first[0], first[1..]);
    }
  }

  // ----- The splitting loop, with the tokens of the statement that is open

  predicate IsGap(t: Token) {
    !IsContent(t) && t.text != "" && (IsWhitespace(t.text[0]) || t.text[0] in "-/")
  }

  predicate EndsPiece(t: Token) { IsContent(t) && t.kind == Separator }

  /** One statement: it starts with code, and ends with a separator or with code. */
  ghost predicate IsPiece(piece: seq<Token>) {
    && piece != [] && IsCode(piece[0]) && IsContent(piece[|piece| - 1])
    && forall i :: 0 <= i < |piece| - 1 ==> !EndsPiece(piece[i])
  }

  /** The tokens of the open statement, read from its start. */
  ghost predicate IsOpen(db: Database, sql: string, tokens: seq<Token>, at: nat, open: nat, end: nat,
                         current: seq<Token>, pending: seq<Token>) {
    && open <= end <= at <= |sql|
    && IsPiece(current) && !EndsPiece(current[|current| - 1])
    && (forall t :: t in pending ==> IsGap(t))
    && Flatten(current) == sql[open..end] && Flatten(pending) == sql[end..at]
    && Lex(db, false, sql[open..]) == (current + pending) + tokens
  }

  ghost predicate Reading(db: Database, sql: string, afterE: bool, tokens: seq<Token>, at: nat, open: Option<nat>,
                          end: nat, current: seq<Token>, pending: seq<Token>) {
    && at <= |sql| && tokens == Lex(db, afterE, sql[at..])
    && if open.Some? then IsOpen(db, sql, tokens, at, open.value, end, current, pending)
       else current == [] && pending == [] && (afterE && at < |sql| ==> sql[at] == '\n')
  }

  /** What the first token says about the texts around it. */
  lemma FirstFacts(db: Database, afterE: bool, r: string, tokens: seq<Token>)
    requires Lex(db, afterE, r) == tokens && tokens != []
    ensures var t, n := tokens[0], |tokens[0].text|;
            && 0 < n <= |r| && t.text == r[..n] && Lex(db, IsE(r[n - 1]), r[n..]) == tokens[1..]
            && (!IsContent(t) ==> IsGap(t))
            && (!IsContent(t) || t.kind == Separator ==> IsE(r[n - 1]) && n < |r| ==> r[n] == '\n')
            && (EndsPiece(t) ==> t.text == ";")
            && (r[0] == '\n' ==> !IsContent(t))
  {
    hide Head, Lex;
    FirstToken(db, afterE, r, tokens);
    FirstKind(db, afterE, r, |tokens[0].text|, tokens[0].kind);
  }

  lemma FirstKind(db: Database, afterE: bool, r: string, n: nat, kind: Kind)
    requires r != "" && 0 < n <= |r| && Head(db, afterE, r) == (n, kind)
    ensures kind == Comment || IsBlank(r[..n]) ==> IsWhitespace(r[0]) || r[0] in "-/"
    ensures kind == Comment || IsBlank(r[..n]) || kind == Separator ==> IsE(r[n - 1]) && n < |r| ==> r[n] == '\n'
    ensures kind == Separator ==> r[..n] == ";"
    ensures r[0] == '\n' ==> kind == Comment || IsBlank(r[..n])
  {
    hide QuoteEnd, DollarOpen, DollarEnd, NumberEnd, WordEnd, BlankEnd;
    assert IsBlank(r[..n]) ==> IsWhitespace(r[..n][0]) && IsWhitespace(r[..n][n - 1]);
    RunEnds(r);
    if Starts(r, '/', '*') {
      BlockCloses(r[2..], 1);
    }
    if r[0] == '\n' {
      BlankEndIsBlank(r);
    }
  }

  /** A block comment that ends before its text does ends with a slash. */
  lemma {:induction false} BlockCloses(r: string, depth: nat)
    requires depth > 0
    ensures BlockEnd(r, depth) < |r| ==> BlockEnd(r, depth) > 0 && r[BlockEnd(r, depth) - 1] == '/'
  {
    if r != "" {
      if Starts(r, '/', '*') {
        BlockCloses(r[2..], depth + 1);
      } else if Starts(r, '*', '/') {
        if depth > 1 {
          BlockCloses(r[2..], depth - 1);
        }
      } else {
        BlockCloses(r[1..], depth);
      }
    }
  }

  lemma PieceAppend(current: seq<Token>, pending: seq<Token>, t: Token)
    requires IsPiece(current) && !EndsPiece(current[|current| - 1]) && IsContent(t)
    requires forall g :: g in pending ==> IsGap(g)
    ensures IsPiece((current + pending) + [t])
  {
    hide IsContent;
    var piece := (current + pending) + [t];
    assert forall i :: |current| <= i < |piece| - 1 ==> piece[i] in pending;
  }

  lemma FlattenThree(a: seq<Token>, b: seq<Token>, t: Token, x: string, y: string)
    requires Flatten(a) == x && Flatten(b) == y
    ensures Flatten((a + b) + [t]) == (x + y) + t.text
    ensures Flatten(b + [t]) == y + t.text
  {
    hide Flatten;
    FlattenAppend(a, b);
    FlattenAppend(a + b, [t]);
    FlattenAppend(b, [t]);
    OneToken(t);
  }

  lemma TwoParts(text: string, a: nat, b: nat, c: nat)
    requires a <= b <= c <= |text|
    ensures text[a..b] + text[b..c] == text[a..c]
    ensures text[a..b] + text[b..] == text[a..]
  {
  }

  /** The open statement and the rest of the text. */
  lemma OpenText(sql: string, open: nat, end: nat, at: nat, next: nat)
    requires open <= end <= at <= next <= |sql|
    ensures sql[open..end] + sql[end..] == sql[open..]
    ensures (sql[open..end] + sql[end..at]) + sql[at..next] == sql[open..next]
    ensures sql[open..next] + sql[next..] == sql[open..] && sql[end..at] + sql[at..next] == sql[end..next]
  {
    TwoParts(sql, open, end, at);
    TwoParts(sql, open, at, next);
    TwoParts(sql, open, next, |sql|);
    TwoParts(sql, end, at, next);
  }

  lemma Regroup(head: seq<Token>, t: Token, rest: seq<Token>)
    ensures head + ([t] + rest) == (head + [t]) + rest
  {
  }

  /** The open statement after one more token. */
  lemma OpenGrows(db: Database, sql: string, tokens: seq<Token>, at: nat, open: nat, end: nat,
                  current: seq<Token>, pending: seq<Token>)
    requires IsOpen(db, sql, tokens, at, open, end, current, pending) && tokens != []
    requires at + |tokens[0].text| <= |sql| && tokens[0].text == sql[at..at + |tokens[0].text|]
    ensures var t, rest, next := tokens[0], tokens[1..], at + |tokens[0].text|;
            && (IsGap(t) ==> IsOpen(db, sql, rest, next, open, end, current, pending + [t]))
            && (IsCode(t) ==> IsOpen(db, sql, rest, next, open, next, current + pending + [t], []))
  {
    hide Lex, Flatten, IsContent, IsPiece, IsGap;
    var t, rest, next := tokens[0], tokens[1..], at + |tokens[0].text|;
    OpenText(sql, open, end, at, next);
    FlattenThree(current, pending, t, sql[open..end], sql[end..at]);
    Associative(current, pending, [t]);
    assert tokens == [t] + rest;
    Regroup(current + pending, t, rest);
    if IsCode(t) {
      PieceAppend(current, pending, t);
      NoTokens(db, false, 0);
      var more := current + pending + [t];
      assert more + [] == more && sql[next..next] == "" && more[|more| - 1] == t;
    }
  }

  /** A token that is skipped. */
  lemma SkipGap(db: Database, sql: string, afterE: bool, tokens: seq<Token>, at: nat, open: Option<nat>, end: nat,
                current: seq<Token>, pending: seq<Token>) returns (nextE: bool)
    requires Reading(db, sql, afterE, tokens, at, open, end, current, pending)
    requires tokens != [] && !IsContent(tokens[0])
    ensures Reading(db, sql, nextE, tokens[1..], at + |tokens[0].text|, open, end, current,
                    if current != [] then pending + [tokens[0]] else [])
  {
    hide Lex, Flatten, IsContent, IsPiece, IsGap, IsOpen;
    OpenIsCurrent(db, sql, afterE, tokens, at, open, end, current, pending);
    var t, next := tokens[0], at + |tokens[0].text|;
    FirstFacts(db, afterE, sql[at..], tokens);
    nextE := IsE(sql[next - 1]);
    assert sql[at..][|t.text|..] == sql[next..] && t.text == sql[at..next];
    if open.Some? {
      OpenGrows(db, sql, tokens, at, open.value, end, current, pending);
    }
  }

  /** A code token opens a statement or goes on with it. */
  lemma TakeCode(db: Database, sql: string, afterE: bool, tokens: seq<Token>, at: nat, open: Option<nat>, end: nat,
                 current: seq<Token>, pending: seq<Token>) returns (nextE: bool)
    requires Reading(db, sql, afterE, tokens, at, open, end, current, pending)
    requires tokens != [] && IsCode(tokens[0])
    ensures var next := at + |tokens[0].text|;
            Reading(db, sql, nextE, tokens[1..], next, Some(if open.Some? then open.value else at), next,
                    current + pending + [tokens[0]], [])
  {
    hide Lex, Flatten, IsPiece, IsGap, IsOpen;
    var t, next := tokens[0], at + |tokens[0].text|;
    FirstFacts(db, afterE, sql[at..], tokens);
    nextE := IsE(sql[next - 1]);
    assert sql[at..][|t.text|..] == sql[next..] && t.text == sql[at..next];
    if open.Some? {
      OpenGrows(db, sql, tokens, at, open.value, end, current, pending);
    } else {
      assert !afterE;
      assert [] + [] + [t] == [t];
      OpenStarts(db, sql, tokens, at);
    }
  }

  lemma OpenStarts(db: Database, sql: string, tokens: seq<Token>, at: nat)
    requires tokens != [] && IsCode(tokens[0]) && at + |tokens[0].text| <= |sql|
    requires tokens == Lex(db, false, sql[at..]) && tokens[0].text == sql[at..at + |tokens[0].text|]
    ensures var t, next := tokens[0], at + |tokens[0].text|;
            IsOpen(db, sql, tokens[1..], next, at, next, [t], [])
  {
    hide Lex, Flatten;
    var t, rest, next := tokens[0], tokens[1..], at + |tokens[0].text|;
    NoTokens(db, false, 0);
    OneToken(t);
    assert tokens == [t] + rest && [t] + [] == [t] && sql[next..next] == "";
  }

  /** A separator ends the open statement, which is read as itself. */
  lemma TakeSeparator(db: Database, sql: string, afterE: bool, tokens: seq<Token>, at: nat, open: Option<nat>,
                      end: nat, current: seq<Token>, pending: seq<Token>) returns (nextE: bool)
    requires Reading(db, sql, afterE, tokens, at, open, end, current, pending)
    requires tokens != [] && EndsPiece(tokens[0])
    ensures Reading(db, sql, nextE, tokens[1..], at + |tokens[0].text|, None, end, [], [])
    ensures open.Some? ==>
              IsStatement(db, sql, Range(open.value, at + |tokens[0].text|), current + pending + [tokens[0]])
  {
    hide Lex, Flatten, IsGap, IsContent;
    var t, rest, next := tokens[0], tokens[1..], at + |tokens[0].text|;
    FirstFacts(db, afterE, sql[at..], tokens);
    nextE := IsE(sql[next - 1]);
    assert sql[at..][|t.text|..] == sql[next..] && t.text == sql[at..next];
    if open.Some? {
      var piece := (current + pending) + [t];
      OpenText(sql, open.value, end, at, next);
      FlattenThree(current, pending, t, sql[open.value..end], sql[end..at]);
      assert tokens == [t] + rest;
      Regroup(current + pending, t, rest);
      PieceAppend(current, pending, t);
      CutLex(db, false, piece, rest, sql[next..]);
    }
  }

  /** At the end of the text the open statement ends with its last code token. */
  lemma CloseLast(db: Database, sql: string, afterE: bool, at: nat, open: nat, end: nat,
                  current: seq<Token>, pending: seq<Token>)
    requires Reading(db, sql, afterE, [], at, Some(open), end, current, pending)
    ensures IsStatement(db, sql, Range(open, end), current)
  {
    hide Lex, Flatten, IsContent;
    OpenText(sql, open, end, at, |sql|);
    AllRead(db, afterE, sql[at..]);
    assert (current + pending) + [] == current + pending;
    if pending != [] {
      GapStart(pending, sql[end..at]);
      assert sql[end..][0] == sql[end..at][0];
    }
    NoTokens(db, false, 0);
    CutLex(db, false, current, pending, sql[end..]);
  }

  lemma AllRead(db: Database, afterE: bool, r: string)
    requires Lex(db, afterE, r) == []
    ensures r == ""
  {
  }

  lemma GapStart(pending: seq<Token>, text: string)
    requires pending != [] && IsGap(pending[0]) && Flatten(pending) == text
    ensures text != "" && !IsWordChar(text[0]) && text[0] !in "$'\""
  {
  }

  /** The text of the range has the tokens of the piece, which is one statement. */
  ghost predicate IsStatement(db: Database, sql: string, range: Range, piece: seq<Token>) {
    range.start <= range.end <= |sql| && IsPiece(piece) && Tokens(db, sql[range.start..range.end]) == piece
  }

  /** Every range of the loop is a statement that is read as itself. */
  lemma {:induction false} SplitReads(db: Database, sql: string, afterE: bool, tokens: seq<Token>, at: nat,
                                      open: Option<nat>, end: nat, current: seq<Token>, pending: seq<Token>)
    requires Reading(db, sql, afterE, tokens, at, open, end, current, pending)
    ensures AreStatements(db, sql, Ranges(tokens, at, open, end), Split(tokens, current, pending))
    decreases |tokens|
  {
    hide Reading, IsStatement, AreStatements, IsContent, Lex, Flatten, Ranges, Split;
    OpenIsCurrent(db, sql, afterE, tokens, at, open, end, current, pending);
    SplitStep(tokens, current, pending);
    assert tokens[0..] == tokens;
    if tokens == [] {
      NoRanges(at, open, end);
      NoStatements(db, sql);
      if open.Some? {
        CloseLast(db, sql, afterE, at, open.value, end, current, pending);
        StatementsCons(db, sql, Range(open.value, end), current, [], []);
      }
    } else {
      RangesStep(tokens, 0, at, open, end);
      var next := at + |tokens[0].text|;
      if !IsContent(tokens[0]) {
        var nextE := SkipGap(db, sql, afterE, tokens, at, open, end, current, pending);
        SplitReads(db, sql, nextE, tokens[1..], next, open, end, current,
                   if current != [] then pending + [tokens[0]] else []);
      } else if tokens[0].kind == Separator {
        var nextE := TakeSeparator(db, sql, afterE, tokens, at, open, end, current, pending);
        SplitReads(db, sql, nextE, tokens[1..], next, None, end, [], []);
        var ranges, pieces := Ranges(tokens[1..], next, None, end), Split(tokens[1..], [], []);
        StatementsBehind(db, sql, open, next, current + pending + [tokens[0]], ranges, pieces);
      } else {
        var nextE := TakeCode(db, sql, afterE, tokens, at, open, end, current, pending);
        SplitReads(db, sql, nextE, tokens[1..], next, Some(if open.Some? then open.value else at), next,
                   current + pending + [tokens[0]], []);
      }
    }
  }

  lemma SplitStep(tokens: seq<Token>, current: seq<Token>, pending: seq<Token>)
    ensures Split(tokens, current, pending)
         == if tokens == [] then if current != [] then [current] else []
            else
              var t, rest := tokens[0], tokens[1..];
              if !IsContent(t) then Split(rest, current, if current != [] then pending + [t] else [])
              else if t.kind == Separator then
                (if current != [] then [current + pending + [t]] else []) + Split(rest, [], [])
              else Split(rest, current + pending + [t], [])
  {
  }

  lemma NoStatements(db: Database, sql: string)
    ensures AreStatements(db, sql, [], [])
  {
  }

  lemma StatementsCons(db: Database, sql: string, range: Range, piece: seq<Token>, ranges: seq<Range>,
                       pieces: seq<seq<Token>>)
    requires IsStatement(db, sql, range, piece) && AreStatements(db, sql, ranges, pieces)
    ensures AreStatements(db, sql, [range] + ranges, [piece] + pieces)
    ensures ranges == [] && pieces == [] ==> AreStatements(db, sql, [range], [piece])
  {
    hide IsStatement;
    assert ranges == [] ==> [range] + ranges == [range];
    assert pieces == [] ==> [piece] + pieces == [piece];
  }

  lemma StatementsBehind(db: Database, sql: string, open: Option<nat>, next: nat, piece: seq<Token>,
                         ranges: seq<Range>, pieces: seq<seq<Token>>)
    requires open.Some? ==> IsStatement(db, sql, Range(open.value, next), piece)
    requires AreStatements(db, sql, ranges, pieces)
    ensures AreStatements(db, sql, (if open.Some? then [Range(open.value, next)] else []) + ranges,
                          (if open.Some? then [piece] else []) + pieces)
  {
    hide IsStatement, AreStatements;
    NothingBefore(ranges, pieces);
    if open.Some? {
      StatementsCons(db, sql, Range(open.value, next), piece, ranges, pieces);
    }
  }

  lemma OpenIsCurrent(db: Database, sql: string, afterE: bool, tokens: seq<Token>, at: nat, open: Option<nat>,
                      end: nat, current: seq<Token>, pending: seq<Token>)
    requires Reading(db, sql, afterE, tokens, at, open, end, current, pending)
    ensures open.Some? <==> current != []
  {
  }

  ghost predicate AreStatements(db: Database, sql: string, ranges: seq<Range>, pieces: seq<seq<Token>>) {
    |pieces| == |ranges| && forall j :: 0 <= j < |ranges| ==> IsStatement(db, sql, ranges[j], pieces[j])
  }

  // ----- A statement that is cut out is one statement

  lemma {:induction false} PieceGoesOn(tokens: seq<Token>, at: nat, open: nat, end: nat)
    requires tokens != [] && IsContent(tokens[|tokens| - 1])
    requires forall i :: 0 <= i < |tokens| - 1 ==> !EndsPiece(tokens[i])
    ensures Ranges(tokens, at, Some(open), end) == [Range(open, at + |Flatten(tokens)|)]
  {
    var t, rest, next := tokens[0], tokens[1..], at + |tokens[0].text|;
    if rest == [] {
      assert Ranges(rest, next, None, end) == [];
      assert Ranges(rest, next, Some(open), next) == [Range(open, next)];
    } else {
      PieceGoesOn(rest, next, open, if IsContent(t) then next else end);
    }
  }

  lemma RangesOpen(t: Token, rest: seq<Token>)
    requires IsCode(t)
    ensures Ranges([t] + rest, 0, None, 0) == Ranges(rest, |t.text|, Some(0), |t.text|)
    ensures Ranges([], |t.text|, Some(0), |t.text|) == [Range(0, |t.text|)]
  {
    assert ([t] + rest)[1..] == rest;
  }

  lemma PieceIsOne(piece: seq<Token>)
    requires IsPiece(piece)
    ensures Ranges(piece, 0, None, 0) == [Range(0, |Flatten(piece)|)]
  {
    hide Ranges, Flatten, IsContent;
    var t, rest := piece[0], piece[1..];
    assert piece == [t] + rest;
    RangesOpen(t, rest);
    FlattenCons(t, rest);
    if rest == [] {
      assert piece == [t];
      OneToken(t);
    } else {
      PieceGoesOn(rest, |t.text|, 0, |t.text|);
    }
  }

  /** Every statement of a text, cut out, is one statement from its start to its end, so
      `validate_single_for` accepts it; its tokens are those that the text has there. */
  lemma EveryStatementIsSingle(db: Database, sql: string, j: nat)
    requires j < |StatementRanges(db, sql)|
    ensures var cut := TextOf(sql, StatementRanges(db, sql)[j]);
            && StatementRanges(db, cut) == [Range(0, |cut|)] && cut != ""
            && j < |Split(Tokens(db, sql), [], [])| && Tokens(db, cut) == Split(Tokens(db, sql), [], [])[j]
  {
    hide Lex, Ranges, Split;
    assert sql[0..] == sql;
    SplitReads(db, sql, false, Tokens(db, sql), 0, None, 0, [], []);
    var range := StatementRanges(db, sql)[j];
    assert IsStatement(db, sql, range, Split(Tokens(db, sql), [], [])[j]);
    var cut := sql[range.start..range.end];
    LexCovers(db, false, cut);
    PieceIsOne(Tokens(db, cut));
    NoTokens(db, false, 0);
  }

  // ----- The significant tokens of each statement

  /** What is known of white space and line breaks after the tokens. */
  function After(tokens: seq<Token>, space: bool, lineBreak: bool): (bool, bool) {
    if tokens == [] then (space, lineBreak)
    else
      var t := tokens[0];
      if IsBlank(t.text) then After(tokens[1..], true, lineBreak || HasLineBreak(t.text))
      else After(tokens[1..], false, t.kind == Comment && (lineBreak || HasLineBreak(t.text)))
  }

  /** The tokens with nothing before them. */
  function Fresh(tokens: seq<Significant>): seq<Significant> {
    if tokens == [] then [] else [tokens[0].(spaceBefore := false, lineBreakBefore := false)] + tokens[1..]
  }

  /** The places of the statements among the significant tokens from place `k` on. */
  function Parts(tokens: seq<Significant>, k: nat, open: Option<nat>, end: nat): seq<Range> {
    if tokens == [] then
      if open.Some? then [Range(open.value, end)] else []
    else if tokens[0].kind == Comment then Parts(tokens[1..], k + 1, open, end)
    else if tokens[0].kind == Separator then
      (if open.Some? then [Range(open.value, k + 1)] else []) + Parts(tokens[1..], k + 1, None, end)
    else Parts(tokens[1..], k + 1, Some(if open.Some? then open.value else k), k + 1)
  }

  lemma {:induction false} SameKindsParts(a: seq<Significant>, b: seq<Significant>, k: nat, open: Option<nat>, end: nat)
    requires |a| == |b| && forall i :: 0 <= i < |a| ==> a[i].kind == b[i].kind
    ensures Parts(a, k, open, end) == Parts(b, k, open, end)
  {
    if a != [] {
      var rest := if open.Some? then open.value else k;
      SameKindsParts(a[1..], b[1..], k + 1, open, end);
      SameKindsParts(a[1..], b[1..], k + 1, None, end);
      SameKindsParts(a[1..], b[1..], k + 1, Some(rest), k + 1);
    }
  }

  lemma SignificantFirst(t: Token, rest: seq<Token>, space: bool, lineBreak: bool)
    ensures var (s, l) := After([t], space, lineBreak);
            && SignificantFrom([t] + rest, space, lineBreak)
               == SignificantFrom([t], space, lineBreak) + SignificantFrom(rest, s, l)
            && After([t] + rest, space, lineBreak) == After(rest, s, l)
    ensures SignificantFrom([t], space, lineBreak)
         == if IsBlank(t.text) then [] else [Significant(t.kind, t.text, space, lineBreak)]
    ensures IsCode(t) ==> After([t], space, lineBreak) == (false, false)
  {
    assert ([t] + rest)[1..] == rest && [t][1..] == [];
  }

  lemma NothingSeen(space: bool, lineBreak: bool)
    ensures SignificantFrom([], space, lineBreak) == [] && After([], space, lineBreak) == (space, lineBreak)
  {
  }

  lemma {:induction false} SignificantLast(x: seq<Token>, t: Token, space: bool, lineBreak: bool)
    ensures var (s, l) := After(x, space, lineBreak);
            && SignificantFrom(x + [t], space, lineBreak)
               == SignificantFrom(x, space, lineBreak) + SignificantFrom([t], s, l)
            && After(x + [t], space, lineBreak) == After([t], s, l)
    decreases |x|
  {
    hide SignificantFrom, After;
    if x == [] {
      NothingSeen(space, lineBreak);
      assert x + [t] == [t];
    } else {
      var first, rest := x[0], x[1..];
      var (s, l) := After([first], space, lineBreak);
      assert x == [first] + rest && x + [t] == [first] + (rest + [t]);
      SignificantFirst(first, rest, space, lineBreak);
      SignificantFirst(first, rest + [t], space, lineBreak);
      SignificantLast(rest, t, s, l);
      var (u, v) := After(rest, s, l);
      Associative(SignificantFrom([first], space, lineBreak), SignificantFrom(rest, s, l), SignificantFrom([t], u, v));
    }
  }

  /** The significant tokens of the open statement are those from place `open` on. */
  ghost predicate IsMarked(done: seq<Significant>, x: seq<Token>, open: nat, space: bool, lineBreak: bool) {
    && open < |done| && done[open].kind != Comment
    && SignificantFrom(x, false, false) == Fresh(done[open..]) && After(x, false, false) == (space, lineBreak)
  }

  lemma MarkOpens(done: seq<Significant>, t: Token, space: bool, lineBreak: bool)
    requires IsCode(t)
    ensures var (s, l) := After([t], space, lineBreak);
            IsMarked(done + SignificantFrom([t], space, lineBreak), [t], |done|, s, l)
  {
    var one := SignificantFrom([t], space, lineBreak);
    SignificantFirst(t, [], space, lineBreak);
    SignificantFirst(t, [], false, false);
    assert (done + one)[|done|..] == one;
  }

  lemma MarkGoesOn(done: seq<Significant>, x: seq<Token>, open: nat, space: bool, lineBreak: bool, t: Token)
    requires IsMarked(done, x, open, space, lineBreak)
    ensures var (s, l) := After([t], space, lineBreak);
            IsMarked(done + SignificantFrom([t], space, lineBreak), x + [t], open, s, l)
  {
    hide SignificantFrom, After;
    var one := SignificantFrom([t], space, lineBreak);
    SignificantLast(x, t, false, false);
    assert (done + one)[open..] == done[open..] + one;
    assert Fresh(done[open..] + one) == Fresh(done[open..]) + one;
  }

  ghost predicate IsPart(tokens: seq<Significant>, part: Range, piece: seq<Token>) {
    && part.start < part.end <= |tokens| && tokens[part.start].kind != Comment
    && SignificantFrom(piece, false, false) == Fresh(tokens[part.start..part.end])
  }

  ghost predicate AreParts(tokens: seq<Significant>, parts: seq<Range>, pieces: seq<seq<Token>>) {
    |parts| == |pieces| && forall j :: 0 <= j < |parts| ==> IsPart(tokens, parts[j], pieces[j])
  }

  ghost predicate Marking(done: seq<Significant>, space: bool, lineBreak: bool, open: Option<nat>, end: nat,
                          current: seq<Token>, pending: seq<Token>) {
    && (open.Some? <==> current != [])
    && (open.None? ==> pending == [])
    && (open.Some? ==>
          && IsMarked(done, current + pending, open.value, space, lineBreak)
          && end <= |done| && IsPart(done, Range(open.value, end), current))
  }

  lemma PartStays(done: seq<Significant>, more: seq<Significant>, part: Range, piece: seq<Token>)
    requires IsPart(done, part, piece)
    ensures IsPart(done + more, part, piece)
  {
    assert (done + more)[part.start..part.end] == done[part.start..part.end];
  }

  lemma MarkedIsPart(done: seq<Significant>, x: seq<Token>, open: nat, space: bool, lineBreak: bool)
    requires IsMarked(done, x, open, space, lineBreak)
    ensures IsPart(done, Range(open, |done|), x)
  {
    assert done[open..] == done[open..|done|];
  }

  lemma PartsCons(tokens: seq<Significant>, part: Range, piece: seq<Token>, parts: seq<Range>, pieces: seq<seq<Token>>)
    requires IsPart(tokens, part, piece) && AreParts(tokens, parts, pieces)
    ensures AreParts(tokens, [part] + parts, [piece] + pieces)
  {
    hide IsPart;
  }

  lemma NothingBefore(parts: seq<Range>, pieces: seq<seq<Token>>)
    ensures [] + parts == parts && [] + pieces == pieces
  {
  }

  lemma PartsFirst(t: Token, space: bool, lineBreak: bool, later: seq<Significant>, k: nat, open: Option<nat>,
                   end: nat)
    ensures var one := SignificantFrom([t], space, lineBreak);
            var next := k + |one|;
            Parts(one + later, k, open, end)
            == if !IsContent(t) then Parts(later, next, open, end)
               else if t.kind == Separator then
                 (if open.Some? then [Range(open.value, next)] else []) + Parts(later, next, None, end)
               else Parts(later, next, Some(if open.Some? then open.value else k), next)
  {
    var one := SignificantFrom([t], space, lineBreak);
    SignificantFirst(t, [], space, lineBreak);
    if one == [] {
      assert one + later == later;
    } else {
      assert (one + later)[0] == one[0] && (one + later)[1..] == later;
    }
  }

  /** What is marked after one more token. */
  lemma MarkNext(done: seq<Significant>, space: bool, lineBreak: bool, open: Option<nat>, end: nat,
                 current: seq<Token>, pending: seq<Token>, t: Token)
    requires Marking(done, space, lineBreak, open, end, current, pending)
    ensures var all := done + SignificantFrom([t], space, lineBreak);
            var (s, l), x := After([t], space, lineBreak), current + pending + [t];
            && Marking(all, s, l, open, end, current, if current != [] then pending + [t] else [])
            && (open.Some? ==> IsPart(all, Range(open.value, |all|), x))
            && (IsCode(t) ==> Marking(all, s, l, Some(if open.Some? then open.value else |done|), |all|, x, []))
  {
    hide SignificantFrom, After, IsMarked, IsPart, IsBlank;
    var one := SignificantFrom([t], space, lineBreak);
    var (s, l) := After([t], space, lineBreak);
    var all, x := done + one, current + pending + [t];
    assert x + [] == x;
    if open.Some? {
      MarkGoesOn(done, current + pending, open.value, space, lineBreak, t);
      PartStays(done, one, Range(open.value, end), current);
      MarkedIsPart(all, x, open.value, s, l);
      Associative(current, pending, [t]);
    } else if IsCode(t) {
      MarkOpens(done, t, space, lineBreak);
      MarkedIsPart(all, [t], |done|, s, l);
      assert x == [t];
    }
  }

  lemma MarkNothing(done: seq<Significant>, space: bool, lineBreak: bool, end: nat)
    ensures Marking(done, space, lineBreak, None, end, [], [])
  {
  }

  lemma MarkLast(done: seq<Significant>, space: bool, lineBreak: bool, open: Option<nat>, end: nat,
                 current: seq<Token>, pending: seq<Token>)
    requires Marking(done, space, lineBreak, open, end, current, pending)
    ensures AreParts(done, Parts([], |done|, open, end), Split([], current, pending))
    ensures open.Some? <==> current != []
  {
    hide IsPart, IsMarked;
  }

  /** The pieces hold the significant tokens of the parts. */
  lemma {:induction false} SplitMarks(tokens: seq<Token>, done: seq<Significant>, space: bool, lineBreak: bool,
                                      open: Option<nat>, end: nat, current: seq<Token>, pending: seq<Token>)
    requires Marking(done, space, lineBreak, open, end, current, pending)
    ensures var more := SignificantFrom(tokens, space, lineBreak);
            AreParts(done + more, Parts(more, |done|, open, end), Split(tokens, current, pending))
    decreases |tokens|
  {
    hide SignificantFrom, After, IsPart, IsBlank, AreParts, Marking, Parts, IsContent;
    var more := SignificantFrom(tokens, space, lineBreak);
    MarkLast(done, space, lineBreak, open, end, current, pending);
    if tokens == [] {
      NothingSeen(space, lineBreak);
      assert done + more == done;
    } else {
      var t, rest := tokens[0], tokens[1..];
      assert tokens == [t] + rest;
      SignificantFirst(t, rest, space, lineBreak);
      MarkNext(done, space, lineBreak, open, end, current, pending, t);
      var one := SignificantFrom([t], space, lineBreak);
      var (s, l) := After([t], space, lineBreak);
      var all, later := done + one, SignificantFrom(rest, s, l);
      Associative(done, one, later);
      PartsFirst(t, space, lineBreak, later, |done|, open, end);
      if !IsContent(t) {
        SplitMarks(rest, all, s, l, open, end, current, if current != [] then pending + [t] else []);
      } else if t.kind == Separator {
        MarkNothing(all, s, l, end);
        SplitMarks(rest, all, s, l, None, end, [], []);
        var x := current + pending + [t];
        if open.Some? {
          PartStays(all, later, Range(open.value, |all|), x);
          PartsCons(done + more, Range(open.value, |all|), x, Parts(later, |all|, None, end), Split(rest, [], []));
        }
        NothingBefore(Parts(later, |all|, None, end), Split(rest, [], []));
      } else {
        SplitMarks(rest, all, s, l, Some(if open.Some? then open.value else |done|), |all|,
                   current + pending + [t], []);
      }
    }
  }

  // ----- Accepted formatting, statement by statement

  /** A cut-out statement holds the significant tokens that the text has there. */
  lemma CutSignificant(db: Database, sql: string, j: nat)
    requires j < |StatementRanges(db, sql)|
    ensures var tokens := SignificantTokens(db, sql);
            var parts := Parts(tokens, 0, None, 0);
            && |parts| == |StatementRanges(db, sql)|
            && parts[j].start < parts[j].end <= |tokens| && tokens[parts[j].start].kind != Comment
            && SignificantTokens(db, TextOf(sql, StatementRanges(db, sql)[j]))
               == Fresh(tokens[parts[j].start..parts[j].end])
  {
    hide Lex, Ranges, Split, SignificantFrom, Parts, Fresh;
    EveryStatementIsSingle(db, sql, j);
    SplitCount(db, sql);
    SplitMarks(Tokens(db, sql), [], false, false, None, 0, [], []);
    assert [] + SignificantTokens(db, sql) == SignificantTokens(db, sql);
    var tokens := SignificantTokens(db, sql);
    assert IsPart(tokens, Parts(tokens, 0, None, 0)[j], Split(Tokens(db, sql), [], [])[j]);
  }

  lemma SplitCount(db: Database, sql: string)
    ensures |Split(Tokens(db, sql), [], [])| == |StatementRanges(db, sql)|
  {
    hide Lex, Ranges, Split;
    assert sql[0..] == sql;
    SplitReads(db, sql, false, Tokens(db, sql), 0, None, 0, [], []);
  }

  /** The check looks at nothing outside a statement, except to forbid more. */
  lemma SliceSame(db: Database, a: seq<Significant>, b: seq<Significant>, part: Range)
    requires SameSignificant(db, a, b) && part.start < part.end <= |a| && a[part.start].kind != Comment
    ensures SameSignificant(db, Fresh(a[part.start..part.end]), Fresh(b[part.start..part.end]))
  {
    hide SameToken, Fresh;
    var x, y := Fresh(a[part.start..part.end]), Fresh(b[part.start..part.end]);
    FreshView(a[part.start..part.end]);
    FreshView(b[part.start..part.end]);
    forall i | 0 <= i < |x|
      ensures SameToken(db, x, y, i)
    {
      assert SameToken(db, a, b, part.start + i);
      SameInSlice(db, a, b, part, i);
    }
  }

  lemma FreshView(tokens: seq<Significant>)
    ensures |Fresh(tokens)| == |tokens|
    ensures forall i :: 0 <= i < |tokens| ==>
              Fresh(tokens)[i].kind == tokens[i].kind && Fresh(tokens)[i].text == tokens[i].text
    ensures forall i :: 0 < i < |tokens| ==> Fresh(tokens)[i] == tokens[i]
    ensures tokens != [] ==> !Fresh(tokens)[0].spaceBefore && !Fresh(tokens)[0].lineBreakBefore
  {
  }

  lemma SameInSlice(db: Database, a: seq<Significant>, b: seq<Significant>, part: Range, i: nat)
    requires |a| == |b| && part.start + i < part.end <= |a| && a[part.start].kind != Comment
    requires SameToken(db, a, b, part.start + i)
    ensures |Fresh(a[part.start..part.end])| == |Fresh(b[part.start..part.end])| == part.end - part.start
    ensures SameToken(db, Fresh(a[part.start..part.end]), Fresh(b[part.start..part.end]), i)
  {
    hide EndsInString, IsWord, IsSymbol, Fresh, SameLetters, IsQualified, KeepsSpace, ContinuesString;
    FreshView(a[part.start..part.end]);
    FreshView(b[part.start..part.end]);
    var x := Fresh(a[part.start..part.end]);
    SameClass(x[i], a[part.start + i]);
    SlicesContext(db, a, part, i);
  }

  lemma SameClass(t: Significant, u: Significant)
    requires t.kind == u.kind && t.text == u.text
    ensures IsWord(t) == IsWord(u) && IsSymbol(t) == IsSymbol(u)
  {
  }

  /** What the check asks about the tokens around one in a statement. */
  lemma SlicesContext(db: Database, a: seq<Significant>, part: Range, i: nat)
    requires part.start + i < part.end <= |a| && a[part.start].kind != Comment
    ensures var x := Fresh(a[part.start..part.end]);
            && |x| == part.end - part.start
            && (IsQualified(x, i) ==> IsQualified(a, part.start + i))
            && (ContinuesString(db, x, i) ==> i > 0 && ContinuesString(db, a, part.start + i))
            && (i > 0 ==> KeepsSpace(x, i) == KeepsSpace(a, part.start + i))
  {
    hide EndsInString, IsWord, IsSymbol, Fresh;
    var x := Fresh(a[part.start..part.end]);
    FreshView(a[part.start..part.end]);
    if i > 0 {
      SameClass(x[i], a[part.start + i]);
      SameClass(x[i - 1], a[part.start + i - 1]);
      EndsAlike(x[..i], a[..part.start + i], part.start);
    } else {
      assert x[..i] == [];
      NoStringYet();
    }
  }

  lemma NoStringYet()
    ensures !EndsInString([])
  {
  }

  /** Behind a token that is no comment the last one of that kind is the same. */
  lemma {:induction false} EndsAlike(x: seq<Significant>, y: seq<Significant>, before: nat)
    requires x != [] && x[0].kind != Comment && |y| == before + |x|
    requires forall i :: 0 <= i < |x| ==> x[i].kind == y[before + i].kind
    ensures EndsInString(x) == EndsInString(y)
  {
    var n := |x| - 1;
    assert x[n].kind == y[before + n].kind;
    if n > 0 {
      EndsAlike(x[..n], y[..before + n], before);
    }
  }

  /** Formatting that is accepted for a text is accepted for each of its statements: each
      keeps its own tokens, and none of them moves to another statement. */
  lemma SameTokensByStatement(db: Database, original: string, formatted: string, j: nat)
    requires SameTokens(db, original, formatted) && j < |StatementRanges(db, original)|
    ensures |StatementRanges(db, formatted)| == |StatementRanges(db, original)|
    ensures SameTokens(db, TextOf(original, StatementRanges(db, original)[j]),
                       TextOf(formatted, StatementRanges(db, formatted)[j]))
  {
    hide Lex, Ranges, SignificantFrom, Parts, Fresh, SameToken;
    var a, b := SignificantTokens(db, original), SignificantTokens(db, formatted);
    SameTokensSplitAlike(db, original, formatted);
    forall i | 0 <= i < |a|
      ensures a[i].kind == b[i].kind
    {
      SameTokenView(db, a, b, i);
    }
    SameKindsParts(a, b, 0, None, 0);
    CutSignificant(db, original, j);
    CutSignificant(db, formatted, j);
    SliceSame(db, a, b, Parts(a, 0, None, 0)[j]);
  }
}
