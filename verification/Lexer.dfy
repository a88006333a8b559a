/** The SQL tokenizer of src/sql.rs: what the next token is, the token list of
    a text, and the loop that computes it. */
module Lexer {
  import opened Chars

  datatype Database = Kyuubi | Postgres | Trino

  datatype Kind = Plain | String | Comment | Number | Identifier | Separator

  datatype Token = Token(text: string, kind: Kind)

  /** A token as the program returns it: a range of the text and a kind. */
  datatype Span = Span(start: nat, end: nat, kind: Kind)

  /** `bytes.starts_with(ab)` */
  predicate Starts(r: string, a: char, b: char) { |r| > 1 && r[0] == a && r[1] == b }

  // ----- Where a token that starts the text ends

  function LineEnd(r: string): (n: nat)
    ensures n <= |r|
  {
    if r == "" || r[0] == '\n' then 0 else 1 + LineEnd(r[1..])
  }

  /** The rest of a block comment with `depth` comments open. */
  function BlockEnd(r: string, depth: nat): (n: nat)
    ensures n <= |r|
  {
    if r == "" || depth == 0 then 0
    else if Starts(r, '/', '*') then 2 + BlockEnd(r[2..], depth + 1)
    else if Starts(r, '*', '/') then 2 + BlockEnd(r[2..], depth - 1)
    else 1 + BlockEnd(r[1..], depth)
  }

  /** The rest of a quoted token. With `escapes`, a backslash hides the next character. */
  function QuoteEnd(r: string, quote: char, escapes: bool): (n: nat)
    ensures n <= |r|
  {
    if r == "" then 0
    else if escapes && r[0] == '\\' then
      if |r| == 1 then 1 else 2 + QuoteEnd(r[2..], quote, escapes)
    else if r[0] == quote then
      if |r| > 1 && r[1] == quote then 2 + QuoteEnd(r[2..], quote, escapes) else 1
    else 1 + QuoteEnd(r[1..], quote, escapes)
  }

  predicate IsNumberChar(c: char) { IsAsciiAlphanumeric(c) || c == '.' || c == '_' }

  function NumberEnd(r: string): (n: nat)
    ensures n <= |r|
  {
    if r == "" || !IsNumberChar(r[0]) then 0 else 1 + NumberEnd(r[1..])
  }

  function WordEnd(r: string): (n: nat)
    ensures n <= |r|
  {
    if r == "" || !IsWordChar(r[0]) then 0 else 1 + WordEnd(r[1..])
  }

  function BlankEnd(r: string): (n: nat)
    ensures n <= |r|
  {
    if r == "" || !IsAsciiWhitespace(r[0]) then 0 else 1 + BlankEnd(r[1..])
  }

  predicate IsTag(tag: string) {
    tag == "" || ((IsAlphabetic(tag[0]) || tag[0] == '_') && forall i :: 0 <= i < |tag| ==> IsWordChar(tag[i]))
  }

  /** The length of the opening delimiter of a dollar quote, or 0 when there is none. */
  function DollarOpen(r: string): (n: nat)
    requires r != ""
    ensures n <= |r|
  {
    var length := Find(r[1..], "$");
    if length < 0 || !IsTag(r[1..][..length]) then 0 else length + 2
  }

  /** The length of a dollar-quoted string. Without a closing delimiter it takes all the text. */
  function DollarEnd(r: string): (n: nat)
    requires r != "" && DollarOpen(r) > 0
    ensures DollarOpen(r) <= n <= |r|
  {
    var open := DollarOpen(r);
    var close := Find(r[open..], r[..open]);
    if close < 0 then |r| else open + close + open
  }

  predicate IsQuote(c: char) { c == '\'' || c == '"' || c == '`' }

  /** `U&'…'` and `U&"…"` */
  predicate UnicodePrefix(r: string) {
    |r| > 2 && (r[0] == 'U' || r[0] == 'u') && r[1] == '&' && (r[2] == '\'' || r[2] == '"')
  }

  predicate IsE(c: char) { c == 'E' || c == 'e' }

  predicate Escapes(db: Database, afterE: bool, quote: char) {
    quote != '`' && (db == Kyuubi || (db == Postgres && quote == '\'' && afterE))
  }

  function QuoteKind(db: Database, quote: char): Kind {
    if quote == '`' || (quote == '"' && db != Kyuubi) then Identifier else String
  }

  predicate IsQuoted(db: Database, r: string)
    requires r != ""
  {
    IsQuote(r[0]) || (db != Kyuubi && UnicodePrefix(r))
  }

  function QuotePlace(r: string): nat
    requires r != ""
  {
    if r[0] == 'U' || r[0] == 'u' then 2 else 0
  }

  predicate IsDollarQuoted(db: Database, r: string)
    requires r != ""
  {
    db != Trino && r[0] == '$' && DollarOpen(r) > 0
  }

  predicate StartsWord(c: char) { IsAsciiAlphabetic(c) || c == '_' || !IsAscii(c) }

  /** The first token of a text that starts with no comment and no quote. */
  function RunHead(r: string): (head: (nat, Kind))
    requires r != ""
    ensures 1 <= head.0 <= |r|
  {
    if IsAsciiDigit(r[0]) then (1 + NumberEnd(r[1..]), Number)
    else if StartsWord(r[0]) then (1 + WordEnd(r[1..]), Plain)
    else if IsAsciiWhitespace(r[0]) then (BlankEnd(r), Plain)
    else (1, if r[0] == ';' then Separator else Plain)
  }

  /** The length and the kind of the first token of `r`. `afterE` says whether
      the character before it is an E, which can make it a Postgres escape string. */
  function Head(db: Database, afterE: bool, r: string): (head: (nat, Kind))
    requires r != ""
    ensures 1 <= head.0 <= |r|
  {
    if Starts(r, '-', '-') then (LineEnd(r), Comment)
    else if Starts(r, '/', '*') then (2 + BlockEnd(r[2..], 1), Comment)
    else if IsDollarQuoted(db, r) then (DollarEnd(r), String)
    else if IsQuoted(db, r) then
      var quote := r[QuotePlace(r)];
      (QuotePlace(r) + 1 + QuoteEnd(r[QuotePlace(r) + 1..], quote, Escapes(db, afterE, quote)), QuoteKind(db, quote))
    else RunHead(r)
  }

  function Lex(db: Database, afterE: bool, r: string): (tokens: seq<Token>)
    decreases |r|
  {
    if r == "" then []
    else
      var (n, kind) := Head(db, afterE, r);
      [Token(r[..n], kind)] + Lex(db, IsE(r[n - 1]), r[n..])
  }

  function Tokens(db: Database, sql: string): seq<Token> { Lex(db, false, sql) }

  function Flatten(tokens: seq<Token>): string {
    if tokens == [] then "" else tokens[0].text + Flatten(tokens[1..])
  }

  /** The ranges of tokens that start at place `at`. */
  function Spans(tokens: seq<Token>, at: nat): (spans: seq<Span>)
    ensures |spans| == |tokens|
  {
    if tokens == [] then []
    else [Span(at, at + |tokens[0].text|, tokens[0].kind)] + Spans(tokens[1..], at + |tokens[0].text|)
  }

  // ----- The tokens cover the text

  lemma Associative<T>(a: seq<T>, b: seq<T>, c: seq<T>)
    ensures a + (b + c) == (a + b) + c
  {
  }

  lemma FlattenCons(t: Token, rest: seq<Token>)
    ensures Flatten([t] + rest) == t.text + Flatten(rest)
  {
    assert ([t] + rest)[1..] == rest;
  }

  lemma NoTokens(db: Database, afterE: bool, at: nat)
    ensures Lex(db, afterE, "") == [] && Flatten([]) == "" && Spans([], at) == []
  {
  }

  lemma OneToken(t: Token)
    ensures Flatten([t]) == t.text
  {
  }

  /** No token is empty, and the tokens one after the other are the text. */
  lemma {:induction false} LexCovers(db: Database, afterE: bool, r: string)
    ensures Flatten(Lex(db, afterE, r)) == r
    ensures forall t :: t in Lex(db, afterE, r) ==> t.text != ""
    decreases |r|
  {
    hide Head, Lex, Flatten;
    if r == "" {
      NoTokens(db, afterE, 0);
    } else {
      var (n, kind) := Head(db, afterE, r);
      assert r[0..] == r && r[0..n] == r[..n];
      LexUnfold(db, afterE, r, 0, n, kind);
      LexCovers(db, IsE(r[n - 1]), r[n..]);
      FlattenCons(Token(r[..n], kind), Lex(db, IsE(r[n - 1]), r[n..]));
      assert r == r[..n] + r[n..];
    }
  }

  lemma LexStep(db: Database, afterE: bool, r: string)
    ensures r == "" <==> Lex(db, afterE, r) == []
    ensures r != "" ==>
              var (n, kind) := Head(db, afterE, r);
              Lex(db, afterE, r) == [Token(r[..n], kind)] + Lex(db, IsE(r[n - 1]), r[n..])
  {
    hide Head;
  }

  /** A text that starts with the token `text`. */
  lemma {:induction false} LexFirst(db: Database, afterE: bool, text: string, rest: string, kind: Kind)
    requires text != "" && Head(db, afterE, text + rest) == (|text|, kind)
    ensures Lex(db, afterE, text + rest) == [Token(text, kind)] + Lex(db, IsE(text[|text| - 1]), rest)
  {
    hide Head;
    var r := text + rest;
    assert r[..|text|] == text && r[|text|..] == rest && r[|text| - 1] == text[|text| - 1];
  }

  lemma {:induction false} FlattenAppend(a: seq<Token>, b: seq<Token>)
    ensures Flatten(a + b) == Flatten(a) + Flatten(b)
  {
    hide Flatten;
    if a == [] {
      NoTokens(Kyuubi, false, 0);
      assert a + b == b;
    } else {
      var t, rest := a[0], a[1..];
      FlattenAppend(rest, b);
      assert a == [t] + rest && a + b == [t] + (rest + b);
      FlattenCons(t, rest);
      FlattenCons(t, rest + b);
      Associative(t.text, Flatten(rest), Flatten(b));
    }
  }

  lemma SpansCons(t: Token, rest: seq<Token>, at: nat)
    ensures Spans([t] + rest, at) == [Span(at, at + |t.text|, t.kind)] + Spans(rest, at + |t.text|)
  {
    assert ([t] + rest)[1..] == rest;
  }

  lemma {:induction false} SpansAppend(a: seq<Token>, b: seq<Token>, at: nat)
    ensures Spans(a + b, at) == Spans(a, at) + Spans(b, at + |Flatten(a)|)
  {
    hide Spans, Flatten;
    if a == [] {
      NoTokens(Kyuubi, false, at);
      assert a + b == b;
    } else {
      var t, rest := a[0], a[1..];
      var next := at + |t.text|;
      SpansAppend(rest, b, next);
      assert a == [t] + rest && a + b == [t] + (rest + b);
      SpansCons(t, rest, at);
      SpansCons(t, rest + b, at);
      FlattenCons(t, rest);
      Associative([Span(at, next, t.kind)], Spans(rest, next), Spans(b, next + |Flatten(rest)|));
    }
  }

  /** The range of each token is its place in the text. */
  lemma {:induction false} SpanText(tokens: seq<Token>, i: nat, before: string)
    requires i < |tokens|
    ensures Spans(tokens, |before|)[i].kind == tokens[i].kind
    ensures Spans(tokens, |before|)[i].start == |before| + |Flatten(tokens[..i])|
    ensures Spans(tokens, |before|)[i].end
            == Spans(tokens, |before|)[i].start + |tokens[i].text| <= |before| + |Flatten(tokens)|
    ensures (before + Flatten(tokens))[Spans(tokens, |before|)[i].start..Spans(tokens, |before|)[i].end]
            == tokens[i].text
  {
    var text := tokens[0].text;
    if i == 0 {
      assert (before + (text + Flatten(tokens[1..])))[|before|..|before| + |text|] == text;
    } else {
      SpanText(tokens[1..], i - 1, before + text);
      assert before + Flatten(tokens) == before + text + Flatten(tokens[1..]);
      assert tokens[..i] == [tokens[0]] + tokens[1..][..i - 1];
      assert tokens[..i][1..] == tokens[1..][..i - 1];
    }
  }

  /** Where token `i` of a text lies. */
  lemma {:induction false} TokenPlace(db: Database, sql: string, i: nat)
    requires i < |Tokens(db, sql)|
    ensures var span := Spans(Tokens(db, sql), 0)[i];
            && span.start == |Flatten(Tokens(db, sql)[..i])|
            && span.end == |Flatten(Tokens(db, sql)[..i + 1])|
            && span.start < span.end <= |sql|
            && span.kind == Tokens(db, sql)[i].kind
            && sql[span.start..span.end] == Tokens(db, sql)[i].text
  {
    hide Lex, Flatten, Spans;
    var tokens := Tokens(db, sql);
    LexCovers(db, false, sql);
    SpanText(tokens, i, "");
    assert tokens[i] in tokens;
    assert "" + sql == sql;
    FlattenAppend(tokens[..i], [tokens[i]]);
    OneToken(tokens[i]);
    assert tokens[..i + 1] == tokens[..i] + [tokens[i]];
  }

  /** The tokens of a text are not empty, start where the last one ended, and
      cover the text from its start to its end. */
  lemma {:induction false} TokensAreSound(db: Database, sql: string)
    ensures var spans := Spans(Tokens(db, sql), 0);
            && (forall i :: 0 <= i < |spans| ==> spans[i].start < spans[i].end <= |sql|)
            && (forall i :: 0 <= i < |spans| - 1 ==> spans[i].end == spans[i + 1].start)
            && (sql == "" <==> spans == [])
            && (spans != [] ==> spans[0].start == 0 && spans[|spans| - 1].end == |sql|)
  {
    hide Lex, Flatten, Spans;
    var tokens := Tokens(db, sql);
    var spans := Spans(tokens, 0);
    LexCovers(db, false, sql);
    NoTokens(db, false, 0);
    forall i | 0 <= i < |spans|
      ensures spans[i].start < spans[i].end <= |sql|
    {
      TokenPlace(db, sql, i);
    }
    forall i | 0 <= i < |spans| - 1
      ensures spans[i].end == spans[i + 1].start
    {
      TokenPlace(db, sql, i);
      TokenPlace(db, sql, i + 1);
    }
    if tokens != [] {
      TokenPlace(db, sql, 0);
      TokenPlace(db, sql, |tokens| - 1);
      assert tokens[..|tokens|] == tokens && tokens[..0] == [];
    }
  }

  // ----- The loop

  /** `dollar_quote_end`: the end of the opening delimiter, and the end of the
      string when a closing delimiter follows. */
  method DollarQuoteEnd(sql: string, start: nat) returns (found: bool, delimiterEnd: nat, closed: bool, stringEnd: nat)
    requires start < |sql|
    ensures found == (DollarOpen(sql[start..]) > 0)
    ensures found ==> delimiterEnd - start == DollarOpen(sql[start..])
    ensures found ==> delimiterEnd <= |sql| && (closed ==> delimiterEnd <= stringEnd <= |sql|)
    ensures found ==> (if closed then stringEnd else |sql|) - start == DollarEnd(sql[start..])
  {
    var suffix := sql[start + 1..];
    assert sql[start..][1..] == suffix;
    var length := Find(suffix, "$");
    found, delimiterEnd, closed, stringEnd := false, 0, false, 0;
    if length < 0 || !IsTag(suffix[..length]) {
      return;
    }
    found, delimiterEnd := true, start + length + 2;
    var delimiter := sql[start..delimiterEnd];
    assert sql[start..][..length + 2] == delimiter;
    assert sql[start..][length + 2..] == sql[delimiterEnd..];
    var offset := Find(sql[delimiterEnd..], delimiter);
    if offset >= 0 {
      closed, stringEnd := true, delimiterEnd + offset + |delimiter|;
    }
  }

  /** Adding one token to the tokens read so far. */
  lemma {:induction false} AppendToken(done: seq<Token>, token: Token)
    ensures Flatten(done + [token]) == Flatten(done) + token.text
    ensures Spans(done + [token], 0)
         == Spans(done, 0) + [Span(|Flatten(done)|, |Flatten(done)| + |token.text|, token.kind)]
  {
    SpansAppend(done, [token], 0);
    FlattenAppend(done, [token]);
    assert Flatten([token]) == token.text;
  }

  lemma {:induction false} LexUnfold(db: Database, afterE: bool, sql: string, i: nat, end: nat, kind: Kind)
    requires i < end <= |sql|
    requires (end - i, kind) == Head(db, afterE, sql[i..])
    ensures Lex(db, afterE, sql[i..]) == [Token(sql[i..end], kind)] + Lex(db, IsE(sql[end - 1]), sql[end..])
  {
    hide Head;
    var r, n := sql[i..], end - i;
    assert r[..n] == sql[i..end];
    assert r[n..] == sql[end..];
    assert r[n - 1] == sql[end - 1];
  }

  /** `done` are the tokens of the first `i` characters. */
  ghost predicate IsRead(db: Database, sql: string, i: nat, done: seq<Token>)
    requires i <= |sql|
  {
    && Flatten(done) == sql[..i]
    && Tokens(db, sql) == done + Lex(db, i > 0 && IsE(sql[i - 1]), sql[i..])
  }

  lemma {:induction false} ReadStep(db: Database, sql: string, i: nat, done: seq<Token>, end: nat, kind: Kind)
    requires i < end <= |sql| && IsRead(db, sql, i, done)
    requires (end - i, kind) == Head(db, i > 0 && IsE(sql[i - 1]), sql[i..])
    ensures IsRead(db, sql, end, done + [Token(sql[i..end], kind)])
  {
    hide Head, Lex, Flatten;
    LexUnfold(db, i > 0 && IsE(sql[i - 1]), sql, i, end, kind);
    AppendToken(done, Token(sql[i..end], kind));
    assert sql[..end] == sql[..i] + sql[i..end];
  }

  lemma {:induction false} ReadAll(db: Database, sql: string, done: seq<Token>)
    ensures IsRead(db, sql, 0, [])
    ensures IsRead(db, sql, |sql|, done) ==> done == Tokens(db, sql)
  {
    hide Head;
    assert sql[0..] == sql && sql[|sql|..] == "";
    assert done + [] == done;
  }

  /** `tokens_for` */
  method TokensFor(sql: string, db: Database) returns (tokens: seq<Span>)
    ensures tokens == Spans(Tokens(db, sql), 0)
  {
    hide Head, Lex, IsRead;
    tokens := [];
    var i: nat := 0;
    ghost var done: seq<Token> := [];
    ReadAll(db, sql, done);
    while i < |sql|
      invariant i <= |sql|
      invariant IsRead(db, sql, i, done)
      invariant tokens == Spans(done, 0) && i == |Flatten(done)|
    {
      var end, kind := NextToken(sql, i, db);
      ReadStep(db, sql, i, done, end, kind);
      AppendToken(done, Token(sql[i..end], kind));
      done := done + [Token(sql[i..end], kind)];
      tokens := tokens + [Span(i, end, kind)];
      i := end;
    }
    ReadAll(db, sql, done);
  }

  /** One round of the token loop. */
  method NextToken(sql: string, start: nat, db: Database) returns (i: nat, kind: Kind)
    requires start < |sql|
    ensures (i - start, kind) == Head(db, start > 0 && IsE(sql[start - 1]), sql[start..])
    ensures start < i <= |sql|
  {
    hide LineEnd, BlockEnd, QuoteEnd, DollarOpen, DollarEnd, RunHead;
    ghost var r := sql[start..];
    if Starts(sql[start..], '-', '-') {
      i := SkipLine(sql, start);
      return i, Comment;
    }
    if Starts(sql[start..], '/', '*') {
      assert r[2..] == sql[start + 2..];
      i := SkipBlock(sql, start + 2);
      return i, Comment;
    }
    var dollar, delimiterEnd, closed, stringEnd := DollarQuoteEnd(sql, start);
    if db != Trino && sql[start] == '$' && dollar {
      // `delimiterEnd` is never the larger one.
      i := if closed then stringEnd else |sql|;
      return i, String;
    }
    if IsQuote(sql[start]) || (db != Kyuubi && UnicodePrefix(sql[start..])) {
      i, kind := SkipQuoted(sql, start, db);
      return;
    }
    i, kind := NextRun(sql, start);
  }

  method NextRun(sql: string, start: nat) returns (i: nat, kind: Kind)
    requires start < |sql|
    ensures (i - start, kind) == RunHead(sql[start..])
    ensures start < i <= |sql|
  {
    hide NumberEnd, WordEnd, BlankEnd;
    assert sql[start..][1..] == sql[start + 1..];
    if IsAsciiDigit(sql[start]) {
      i := SkipNumber(sql, start + 1);
      return i, Number;
    }
    if StartsWord(sql[start]) {
      i := SkipWord(sql, start + 1);
      return i, Plain;
    }
    if IsAsciiWhitespace(sql[start]) {
      i := SkipBlanks(sql, start);
      return i, Plain;
    }
    return start + 1, if sql[start] == ';' then Separator else Plain;
  }

  method SkipLine(sql: string, start: nat) returns (i: nat)
    requires start <= |sql|
    ensures start <= i <= |sql| && i - start == LineEnd(sql[start..])
  {
    i := start;
    while i < |sql| && sql[i] != '\n'
      invariant start <= i <= |sql|
      invariant LineEnd(sql[start..]) == i - start + LineEnd(sql[i..])
    {
      assert sql[i..][1..] == sql[i + 1..];
      i := i + 1;
    }
  }

  lemma BlockStep(sql: string, i: nat, depth: nat)
    requires i < |sql| && depth > 0
    ensures BlockEnd(sql[i..], depth)
         == if Starts(sql[i..], '/', '*') then 2 + BlockEnd(sql[i + 2..], depth + 1)
            else if Starts(sql[i..], '*', '/') then 2 + BlockEnd(sql[i + 2..], depth - 1)
            else 1 + BlockEnd(sql[i + 1..], depth)
    ensures Starts(sql[i..], '/', '*') || Starts(sql[i..], '*', '/') ==> i + 2 <= |sql|
  {
    assert sql[i..][1..] == sql[i + 1..];
    assert i + 2 <= |sql| ==> sql[i..][2..] == sql[i + 2..];
  }

  lemma BlockDone(r: string, depth: nat)
    ensures r == "" || depth == 0 ==> BlockEnd(r, depth) == 0
  {
  }

  method SkipBlock(sql: string, start: nat) returns (i: nat)
    requires start <= |sql|
    ensures start <= i <= |sql| && i - start == BlockEnd(sql[start..], 1)
  {
    hide BlockEnd, Starts;
    i := start;
    var depth: nat := 1;
    while i < |sql| && depth > 0
      invariant start <= i <= |sql|
      invariant BlockEnd(sql[start..], 1) == i - start + BlockEnd(sql[i..], depth)
    {
      BlockStep(sql, i, depth);
      if Starts(sql[i..], '/', '*') {
        depth := depth + 1;
        i := i + 2;
      } else if Starts(sql[i..], '*', '/') {
        depth := depth - 1;
        i := i + 2;
      } else {
        i := i + 1;
      }
    }
    BlockDone(sql[i..], depth);
  }

  method SkipNumber(sql: string, start: nat) returns (i: nat)
    requires start <= |sql|
    ensures start <= i <= |sql| && i - start == NumberEnd(sql[start..])
  {
    i := start;
    while i < |sql| && IsNumberChar(sql[i])
      invariant start <= i <= |sql|
      invariant NumberEnd(sql[start..]) == i - start + NumberEnd(sql[i..])
    {
      assert sql[i..][1..] == sql[i + 1..];
      i := i + 1;
    }
  }

  method SkipWord(sql: string, start: nat) returns (i: nat)
    requires start <= |sql|
    ensures start <= i <= |sql| && i - start == WordEnd(sql[start..])
  {
    i := start;
    while i < |sql|
      invariant start <= i <= |sql|
      invariant WordEnd(sql[start..]) == i - start + WordEnd(sql[i..])
    {
      if !IsWordChar(sql[i]) {
        break;
      }
      assert sql[i..][1..] == sql[i + 1..];
      i := i + 1;
    }
  }

  method SkipBlanks(sql: string, start: nat) returns (i: nat)
    requires start <= |sql|
    ensures start <= i <= |sql| && i - start == BlankEnd(sql[start..])
  {
    i := start;
    while i < |sql| && IsAsciiWhitespace(sql[i])
      invariant start <= i <= |sql|
      invariant BlankEnd(sql[start..]) == i - start + BlankEnd(sql[i..])
    {
      assert sql[i..][1..] == sql[i + 1..];
      i := i + 1;
    }
  }

  method SkipQuoted(sql: string, start: nat, db: Database) returns (i: nat, kind: Kind)
    requires start < |sql| && IsQuoted(db, sql[start..])
    ensures var place := QuotePlace(sql[start..]);
            && start + place < i <= |sql|
            && i - start == place + 1 + QuoteEnd(sql[start..][place + 1..], sql[start + place],
                                                 Escapes(db, start > 0 && IsE(sql[start - 1]), sql[start + place]))
            && kind == QuoteKind(db, sql[start + place])
  {
    i := if sql[start] == 'U' || sql[start] == 'u' then start + 2 else start;
    var quote := sql[i];
    i := i + 1;
    assert sql[start..][i - start..] == sql[i..];
    i := QuotedToken(sql, i, quote, Escapes(db, start > 0 && IsE(sql[start - 1]), quote));
    kind := if quote == '`' || (quote == '"' && db != Kyuubi) then Identifier else String;
  }

  /** The loop over a quoted token, from the place after its opening quote. */
  method QuotedToken(sql: string, start: nat, quote: char, escapes: bool) returns (i: nat)
    requires start <= |sql|
    ensures start <= i <= |sql|
    ensures i - start == QuoteEnd(sql[start..], quote, escapes)
  {
    i := start;
    while i < |sql|
      invariant start <= i <= |sql|
      invariant QuoteEnd(sql[start..], quote, escapes) == i - start + QuoteEnd(sql[i..], quote, escapes)
    {
      assert sql[i..][1..] == sql[i + 1..];
      if sql[i] == '\\' && escapes {
        if i + 1 < |sql| {
          assert sql[i..][2..] == sql[i + 2..];
        }
        i := if i + 2 < |sql| then i + 2 else |sql|;
      } else if sql[i] == quote {
        i := i + 1;
        if i < |sql| && sql[i] == quote {
          assert sql[i - 1..][2..] == sql[i + 1..];
          i := i + 1;
        } else {
          return;
        }
      } else {
        i := i + 1;
      }
    }
  }
}
