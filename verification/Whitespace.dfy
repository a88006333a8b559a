/** White space before layout, `normalize_layout_whitespace` of src/sql.rs. */
module Whitespace {
  import opened Chars
  import opened Lexer
  import opened Statements
  import opened TokenEquivalence
  import opened Stability

  predicate IsLineComment(t: Token) { t.kind == Comment && Starts(t.text, '-', '-') }

  function NewBlank(text: string, afterLineComment: bool): string {
    if afterLineComment && HasLineBreak(text) then "\n" else " "
  }

  /** The text of `tokens` with each blank token made one character. */
  function NormalizedFrom(tokens: seq<Token>, afterLineComment: bool): string {
    if tokens == [] then ""
    else if IsBlank(tokens[0].text) then
      NewBlank(tokens[0].text, afterLineComment) + NormalizedFrom(tokens[1..], afterLineComment)
    else tokens[0].text + NormalizedFrom(tokens[1..], IsLineComment(tokens[0]))
  }

  function Normalized(db: Database, sql: string): string { NormalizedFrom(Tokens(db, sql), false) }

  /** The loop of `normalize_layout_whitespace` */
  method NormalizeLayoutWhitespace(sql: string, db: Database) returns (normalized: string)
    ensures normalized == Normalized(db, sql)
  {
    hide Lex, Head, HasLineBreak, IsBlank, Spans, NormalizedFrom, Starts;
    normalized := "";
    var afterLineComment := false;
    var tokens := TokensFor(sql, db);
    ghost var toks := Tokens(db, sql);
    assert toks[0..] == toks;
    for i := 0 to |tokens|
      invariant normalized + NormalizedFrom(toks[i..], afterLineComment) == Normalized(db, sql)
    {
      NextPlace(db, sql, i);
      var token := sql[tokens[i].start..tokens[i].end];
      assert toks[i..] == [toks[i]] + toks[i + 1..] && toks[i] == Token(token, tokens[i].kind);
      NormalizedCons(toks[i], toks[i + 1..], afterLineComment);
      if IsBlank(token) {
        Associative(normalized, NewBlank(token, afterLineComment), NormalizedFrom(toks[i + 1..], afterLineComment));
        normalized := normalized + if afterLineComment && HasLineBreak(token) then "\n" else " ";
      } else {
        Associative(normalized, token, NormalizedFrom(toks[i + 1..], IsLineComment(toks[i])));
        normalized := normalized + token;
        afterLineComment := tokens[i].kind == Comment && Starts(token, '-', '-');
      }
    }
    NormalizedNone(afterLineComment);
  }

  lemma NormalizedNone(afterLineComment: bool)
    ensures NormalizedFrom([], afterLineComment) == ""
  {
  }

  lemma NormalizedCons(t: Token, rest: seq<Token>, afterLineComment: bool)
    ensures NormalizedFrom([t] + rest, afterLineComment)
         == if IsBlank(t.text) then NewBlank(t.text, afterLineComment) + NormalizedFrom(rest, afterLineComment)
            else t.text + NormalizedFrom(rest, IsLineComment(t))
  {
  }

  // ----- What becomes of each token

  /** The last token before place `k` that is not blank is a line comment. */
  ghost predicate FollowsLineComment(tokens: seq<Token>, k: nat)
    requires k <= |tokens|
  {
    exists j :: 0 <= j < k && tokens[j].kind == Comment && "--" <= tokens[j].text
                && forall m :: j < m < k ==> IsBlank(tokens[m].text)
  }

  /** A blank becomes one space, or one line break when it ends the line of a comment. */
  ghost predicate BecomesPart(tokens: seq<Token>, k: nat, part: Token)
    requires k < |tokens|
  {
    var t := tokens[k];
    part == if !IsBlank(t.text) then t
            else if FollowsLineComment(tokens, k) && ('\n' in t.text || '\r' in t.text) then t.(text := "\n")
            else t.(text := " ")
  }

  lemma NormalizedParts(db: Database, sql: string) returns (parts: seq<Token>)
    ensures Normalized(db, sql) == Flatten(parts) && |parts| == |Tokens(db, sql)|
    ensures forall k :: 0 <= k < |parts| ==> BecomesPart(Tokens(db, sql), k, parts[k])
  {
    hide Lex, NormalizedFrom, Flatten, BecomesPart;
    var tokens := Tokens(db, sql);
    assert tokens[0..] == tokens;
    parts := PartsFrom(tokens, 0, false);
    forall k | 0 <= k < |parts|
      ensures BecomesPart(tokens, k, parts[k])
    {
      assert BecomesPart(tokens, 0 + k, parts[k]);
    }
  }

  lemma {:induction false} PartsFrom(tokens: seq<Token>, i: nat, afterLineComment: bool) returns (parts: seq<Token>)
    requires i <= |tokens| && afterLineComment == FollowsLineComment(tokens, i)
    ensures NormalizedFrom(tokens[i..], afterLineComment) == Flatten(parts) && |parts| == |tokens| - i
    ensures forall k :: 0 <= k < |parts| ==> BecomesPart(tokens, i + k, parts[k])
    decreases |tokens| - i
  {
    hide FollowsLineComment, BecomesPart;
    if i == |tokens| {
      parts := [];
    } else {
      var t, rest := tokens[i], tokens[i + 1..];
      assert tokens[i..] == [t] + rest;
      NormalizedCons(t, rest, afterLineComment);
      FollowsNext(tokens, i);
      var part := if IsBlank(t.text) then t.(text := NewBlank(t.text, afterLineComment)) else t;
      PartIs(tokens, i, part);
      var more := PartsFrom(tokens, i + 1, if IsBlank(t.text) then afterLineComment else IsLineComment(t));
      parts := [part] + more;
      assert parts[1..] == more;
      forall k | 0 <= k < |parts|
        ensures BecomesPart(tokens, i + k, parts[k])
      {
        if k > 0 {
          assert i + k == (i + 1) + (k - 1) && parts[k] == more[k - 1];
        }
      }
    }
  }

  lemma FollowsNext(tokens: seq<Token>, i: nat)
    requires i < |tokens|
    ensures FollowsLineComment(tokens, i + 1)
         <==> if IsBlank(tokens[i].text) then FollowsLineComment(tokens, i) else IsLineComment(tokens[i])
  {
    hide IsBlank;
    var text := tokens[i].text;
    assert "--" <= text <==> Starts(text, '-', '-') by {
      assert "--" <= text <==> |text| >= 2 && text[0] == '-' && text[1] == '-';
    }
    assert Starts(text, '-', '-') ==> !IsBlank(text) by {
      DashIsText(text);
    }
  }

  lemma DashIsText(text: string)
    ensures text != "" && text[0] == '-' ==> !IsBlank(text)
  {
    assert !IsWhitespace('-');
  }

  lemma PartIs(tokens: seq<Token>, i: nat, part: Token)
    requires i < |tokens|
    requires part == if IsBlank(tokens[i].text)
                     then tokens[i].(text := NewBlank(tokens[i].text, FollowsLineComment(tokens, i))) else tokens[i]
    ensures BecomesPart(tokens, i, part)
  {
    hide FollowsLineComment, IsBlank;
  }

  // ----- What the next pass sees

  /** The significant tokens of `tokens` after normalization: a blank keeps its
      line break only after a line comment. */
  function KeptFrom(tokens: seq<Token>, space: bool, lineBreak: bool, afterLineComment: bool): seq<Significant> {
    if tokens == [] then []
    else
      var t := tokens[0];
      if IsBlank(t.text) then
        KeptFrom(tokens[1..], true, lineBreak || (afterLineComment && HasLineBreak(t.text)), afterLineComment)
      else
        [Significant(t.kind, t.text, space, lineBreak)]
        + KeptFrom(tokens[1..], false, t.kind == Comment && (lineBreak || HasLineBreak(t.text)), IsLineComment(t))
  }

  function KeptTokens(db: Database, sql: string): seq<Significant> {
    KeptFrom(Tokens(db, sql), false, false, false)
  }

  /** Both lists hold the same tokens, and no line break is new. */
  lemma {:induction false} KeptIsSignificant(tokens: seq<Token>, space: bool, a: bool, b: bool, afterLineComment: bool)
    requires b ==> a
    ensures var s, k := SignificantFrom(tokens, space, a), KeptFrom(tokens, space, b, afterLineComment);
            |s| == |k| && forall i :: 0 <= i < |s| ==>
              k[i] == s[i].(lineBreakBefore := k[i].lineBreakBefore) && (k[i].lineBreakBefore ==> s[i].lineBreakBefore)
  {
    hide IsBlank, HasLineBreak, IsLineComment;
    if tokens != [] {
      var t := tokens[0];
      if IsBlank(t.text) {
        var kept := b || (afterLineComment && HasLineBreak(t.text));
        KeptIsSignificant(tokens[1..], true, a || HasLineBreak(t.text), kept, afterLineComment);
      } else {
        KeptIsSignificant(tokens[1..], false, t.kind == Comment && (a || HasLineBreak(t.text)),
                          t.kind == Comment && (b || HasLineBreak(t.text)), IsLineComment(t));
      }
    }
  }

  // ----- The rest of the text stays similar

  lemma BlankHead(db: Database, afterE: bool, r: string)
    requires r != "" && IsAsciiWhitespace(r[0])
    ensures Head(db, afterE, r) == (BlankEnd(r), Plain)
    ensures BlankEnd(r) == 1 + BlankEnd(r[1..])
    ensures IsBlank(r[..BlankEnd(r)]) && !IsE(r[BlankEnd(r) - 1])
  {
    hide IsAsciiWhitespace, BlankEnd, IsBlank;
    hide DollarOpen, DollarEnd, QuoteEnd, LineEnd, BlockEnd, NumberEnd, WordEnd;
    SpaceOpensNothing(r[0]);
    BlankEndIsBlank(r);
    BlankEndFirst(r);
    SpacesAreBlank(r[..BlankEnd(r)]);
  }

  lemma SpaceOpensNothing(c: char)
    requires IsAsciiWhitespace(c)
    ensures c != '-' && c != '/' && c != '$' && c != 'U' && c != 'u' && !IsQuote(c) && !IsAsciiDigit(c)
    ensures !StartsWord(c) && !IsE(c)
  {
  }

  lemma BlankEndFirst(r: string)
    requires r != "" && IsAsciiWhitespace(r[0])
    ensures BlankEnd(r) == 1 + BlankEnd(r[1..])
  {
  }

  lemma SpacesAreBlank(text: string)
    requires forall i :: 0 <= i < |text| ==> IsAsciiWhitespace(text[i])
    ensures IsBlank(text) && forall i :: 0 <= i < |text| ==> !IsE(text[i])
  {
  }

  lemma BlankStart(text: string)
    requires text != "" && IsBlank(text)
    ensures IsWhitespace(text[0]) && !TagOpens(text) && !IsWordChar(text[0]) && text[0] != '$'
  {
  }

  /** The pieces of a text that is not empty. */
  lemma LexHead(db: Database, afterE: bool, r: string) returns (text: string, rest: string, kind: Kind)
    requires r != ""
    ensures text != "" && r == text + rest && |rest| < |r|
    ensures Head(db, afterE, r) == (|text|, kind)
    ensures Lex(db, afterE, r) == [Token(text, kind)] + Lex(db, IsE(text[|text| - 1]), rest)
  {
    hide Head;
    var n := Head(db, afterE, r).0;
    text, rest, kind := r[..n], r[n..], Head(db, afterE, r).1;
    assert r == text + rest;
    LexFirst(db, afterE, text, rest, kind);
  }

  lemma {:induction false} NormalizedTags(db: Database, afterE: bool, r: string, afterLineComment: bool)
    ensures TagEnds(r) == TagEnds(NormalizedFrom(Lex(db, afterE, r), afterLineComment))
    decreases |r|
  {
    if r != "" {
      hide Lex, Head, NormalizedFrom, IsBlank, TagEnds;
      var text, rest, kind := LexHead(db, afterE, r);
      var more := Lex(db, IsE(text[|text| - 1]), rest);
      NormalizedCons(Token(text, kind), more, afterLineComment);
      if IsBlank(text) {
        BlankOpens(text, rest, NewBlank(text, afterLineComment), NormalizedFrom(more, afterLineComment));
      } else {
        var next := IsLineComment(Token(text, kind));
        NormalizedTags(db, IsE(text[|text| - 1]), rest, next);
        TagEndsAfter(text, rest, NormalizedFrom(more, next));
      }
    }
  }

  lemma NormalizedStart(db: Database, afterE: bool, r: string, afterLineComment: bool)
    ensures SimilarStart(r, NormalizedFrom(Lex(db, afterE, r), afterLineComment))
  {
    if r != "" {
      hide Lex, Head, NormalizedFrom, IsBlank;
      var text, rest, kind := LexHead(db, afterE, r);
      var more := Lex(db, IsE(text[|text| - 1]), rest);
      NormalizedCons(Token(text, kind), more, afterLineComment);
      if IsBlank(text) {
        BlankStart(text);
      }
    }
  }

  lemma AndHead(db: Database, afterE: bool, r: string)
    requires r != "" && r[0] == '&'
    ensures Head(db, afterE, r) == (1, Plain)
  {
    hide DollarOpen, DollarEnd;
  }

  lemma SecondIsQuote(text: string, rest: string, other: string)
    requires |text| == 1 && SimilarStart(rest, other)
    ensures QuoteSecond(text + rest) == QuoteSecond(text + other)
  {
  }

  lemma NormalizedSimilar(db: Database, afterE: bool, r: string, afterLineComment: bool)
    ensures Similar(r, NormalizedFrom(Lex(db, afterE, r), afterLineComment))
  {
    NormalizedStart(db, afterE, r, afterLineComment);
    if r != "" {
      hide Lex, Head, NormalizedFrom, IsBlank, TagOpens, SimilarStart, QuoteSecond;
      var text, rest, kind := LexHead(db, afterE, r);
      var more := Lex(db, IsE(text[|text| - 1]), rest);
      NormalizedCons(Token(text, kind), more, afterLineComment);
      if IsBlank(text) {
        BlankOpens(text, rest, NewBlank(text, afterLineComment), NormalizedFrom(more, afterLineComment));
      } else {
        var next := IsLineComment(Token(text, kind));
        var other := NormalizedFrom(more, next);
        NormalizedTags(db, IsE(text[|text| - 1]), rest, next);
        TagOpensAfter(text, rest, other);
        if r[0] == '&' {
          AndHead(db, afterE, r);
          NormalizedStart(db, IsE(text[|text| - 1]), rest, next);
          SecondIsQuote(text, rest, other);
        }
      }
    } else {
      assert NormalizedFrom(Lex(db, afterE, r), afterLineComment) == "";
    }
  }

  lemma BlankOpens(text: string, rest: string, blank: string, other: string)
    requires text != "" && IsBlank(text) && (blank == " " || blank == "\n")
    ensures !TagOpens(text + rest) && !TagOpens(blank + other)
    ensures !TagEnds(text + rest) && !TagEnds(blank + other)
    ensures (text + rest)[0] != '&'
  {
    assert (text + rest)[0] == text[0] && (blank + other)[0] == blank[0];
  }

  /** After a line comment comes nothing, or a line break that stays. */
  lemma LineBreakStays(db: Database, afterE: bool, r: string, rest: string, text: string)
    requires r == text + rest && Starts(text, '-', '-') && Head(db, afterE, r).0 == |text|
    ensures var other := NormalizedFrom(Lex(db, IsE(text[|text| - 1]), rest), true); other == "" || other[0] == '\n'
  {
    hide Lex, NormalizedFrom;
    RunEnds(r);
    assert Starts(r, '-', '-');
    var e := IsE(text[|text| - 1]);
    if rest == "" {
      EmptyNormalized(db, e);
    } else {
      assert rest[0] == r[|text|] == '\n';
      var blank, more, kind := LexHead(db, e, rest);
      BlankHead(db, e, rest);
      assert rest[..BlankEnd(rest)] == blank;
      assert blank[0] == '\n';
      NormalizedCons(Token(blank, kind), Lex(db, IsE(blank[|blank| - 1]), more), true);
    }
  }

  lemma EmptyNormalized(db: Database, afterE: bool)
    ensures NormalizedFrom(Lex(db, afterE, ""), true) == ""
  {
  }

  // ----- Reading the normalized text again

  /** One more blank in front only adds blanks before the first token. */
  lemma BlankMerges(db: Database, afterE: bool, blank: string, other: string, space: bool, lineBreak: bool)
    requires blank == " " || blank == "\n"
    ensures SignificantFrom(Lex(db, afterE, blank + other), space, lineBreak)
         == SignificantFrom(Lex(db, false, other), true, lineBreak || HasLineBreak(blank))
  {
    hide Lex, Head, HasLineBreak, SignificantFrom, IsBlank, BlankEnd;
    var r := blank + other;
    var n := BlankEnd(other);
    BlankHead(db, afterE, r);
    assert r[1..] == other && r == (blank + other[..n]) + other[n..];
    assert r[..BlankEnd(r)] == blank + other[..n];
    BlankIsSkipped(db, afterE, blank + other[..n], other[n..], space, lineBreak);
    BreakOfBoth(blank, other[..n]);
    if n > 0 {
      BlankEndIsBlank(other);
      BlankHead(db, false, other);
      assert other == other[..n] + other[n..];
      BlankIsSkipped(db, false, other[..n], other[n..], true, lineBreak || HasLineBreak(blank));
    } else {
      assert other[n..] == other && blank + other[..n] == blank;
    }
  }

  lemma BlankIsSkipped(db: Database, afterE: bool, blank: string, rest: string, space: bool, lineBreak: bool)
    requires blank != "" && IsBlank(blank) && Head(db, afterE, blank + rest) == (|blank|, Plain)
    requires !IsE(blank[|blank| - 1])
    ensures SignificantFrom(Lex(db, afterE, blank + rest), space, lineBreak)
         == SignificantFrom(Lex(db, false, rest), true, lineBreak || HasLineBreak(blank))
  {
    hide Lex, Head, HasLineBreak, SignificantFrom, IsBlank;
    LexFirst(db, afterE, blank, rest, Plain);
    SignificantCons(Token(blank, Plain), Lex(db, false, rest), space, lineBreak);
  }

  lemma BreakOfBoth(a: string, b: string)
    ensures HasLineBreak(a + b) == (HasLineBreak(a) || HasLineBreak(b))
  {
    if HasLineBreak(a) {
      var i :| 0 <= i < |a| && IsLineBreak(a[i]);
      assert (a + b)[i] == a[i];
    }
    if HasLineBreak(b) {
      var i :| 0 <= i < |b| && IsLineBreak(b[i]);
      assert (a + b)[|a| + i] == b[i];
    }
  }

  lemma BreakOfBlank(text: string, afterLineComment: bool)
    ensures HasLineBreak(NewBlank(text, afterLineComment)) == (afterLineComment && HasLineBreak(text))
  {
    assert IsLineBreak("\n"[0]);
  }

  lemma SignificantCons(t: Token, rest: seq<Token>, space: bool, lineBreak: bool)
    ensures SignificantFrom([t] + rest, space, lineBreak)
         == if IsBlank(t.text) then SignificantFrom(rest, true, lineBreak || HasLineBreak(t.text))
            else [Significant(t.kind, t.text, space, lineBreak)]
                 + SignificantFrom(rest, false, t.kind == Comment && (lineBreak || HasLineBreak(t.text)))
  {
  }

  lemma KeptCons(t: Token, rest: seq<Token>, space: bool, lineBreak: bool, afterLineComment: bool)
    ensures KeptFrom([t] + rest, space, lineBreak, afterLineComment)
         == if IsBlank(t.text)
             then KeptFrom(rest, true, lineBreak || (afterLineComment && HasLineBreak(t.text)), afterLineComment)
            else [Significant(t.kind, t.text, space, lineBreak)]
                 + KeptFrom(rest, false, t.kind == Comment && (lineBreak || HasLineBreak(t.text)), IsLineComment(t))
  {
  }

  lemma {:induction false} NormalizeFromKeeps(db: Database, afterE: bool, r: string, afterLineComment: bool,
                                              space: bool, lineBreak: bool)
    ensures SignificantFrom(Lex(db, afterE, NormalizedFrom(Lex(db, afterE, r), afterLineComment)), space, lineBreak)
         == KeptFrom(Lex(db, afterE, r), space, lineBreak, afterLineComment)
    decreases |r|
  {
    if r != "" {
      hide Lex, Head, NormalizedFrom, SignificantFrom, KeptFrom, IsBlank, Similar, Starts, HasLineBreak, NewBlank;
      var text, rest, kind := LexHead(db, afterE, r);
      var e := IsE(text[|text| - 1]);
      var t, more := Token(text, kind), Lex(db, e, rest);
      NormalizedCons(t, more, afterLineComment);
      KeptCons(t, more, space, lineBreak, afterLineComment);
      if IsBlank(text) {
        BlankLast(text);
        BreakOfBlank(text, afterLineComment);
        var kept := lineBreak || (afterLineComment && HasLineBreak(text));
        NormalizeFromKeeps(db, false, rest, afterLineComment, true, kept);
        NewBlankIs(text, afterLineComment);
        BlankMerges(db, afterE, NewBlank(text, afterLineComment), NormalizedFrom(more, afterLineComment), space,
            lineBreak);
      } else {
        NormalizeTokenKeeps(db, afterE, text, rest, kind, space, lineBreak);
      }
    }
  }

  lemma NewBlankIs(text: string, afterLineComment: bool)
    ensures NewBlank(text, afterLineComment) == " " || NewBlank(text, afterLineComment) == "\n"
  {
  }

  lemma {:induction false} NormalizeTokenKeeps(db: Database, afterE: bool, text: string, rest: string, kind: Kind,
                                               space: bool, lineBreak: bool)
    requires text != "" && !IsBlank(text) && Head(db, afterE, text + rest) == (|text|, kind)
    ensures var e, t := IsE(text[|text| - 1]), Token(text, kind);
            var lines := kind == Comment && (lineBreak || HasLineBreak(text));
            SignificantFrom(Lex(db, afterE, text + NormalizedFrom(Lex(db, e, rest), IsLineComment(t))), space,
                lineBreak)
            == [Significant(kind, text, space, lineBreak)] + KeptFrom(Lex(db, e, rest), false, lines, IsLineComment(t))
    decreases |text + rest|, 0
  {
    hide Lex, Head, NormalizedFrom, SignificantFrom, KeptFrom, IsBlank, Starts, HasLineBreak;
    var e, t := IsE(text[|text| - 1]), Token(text, kind);
    var other := NormalizedFrom(Lex(db, e, rest), IsLineComment(t));
    NormalizeFromKeeps(db, e, rest, IsLineComment(t), false, kind == Comment && (lineBreak || HasLineBreak(text)));
    TokenStays(db, afterE, text, rest, kind);
    SignificantCons(t, Lex(db, e, other), space, lineBreak);
  }

  /** A token that is not blank is read again before the normalized rest. */
  lemma TokenStays(db: Database, afterE: bool, text: string, rest: string, kind: Kind)
    requires text != "" && !IsBlank(text) && Head(db, afterE, text + rest) == (|text|, kind)
    ensures var e, t := IsE(text[|text| - 1]), Token(text, kind);
            var other := NormalizedFrom(Lex(db, e, rest), IsLineComment(t));
            Lex(db, afterE, text + other) == [t] + Lex(db, e, other)
  {
    hide Lex, Head, NormalizedFrom, IsBlank, Similar, Starts;
    var e, t := IsE(text[|text| - 1]), Token(text, kind);
    var other := NormalizedFrom(Lex(db, e, rest), IsLineComment(t));
    NormalizedSimilar(db, e, rest, IsLineComment(t));
    if IsLineComment(t) {
      LineBreakStays(db, afterE, text + rest, rest, text);
    }
    HeadStable(db, afterE, text, rest, other, kind);
    LexFirst(db, afterE, text, other, kind);
  }

  lemma BlankLast(text: string)
    requires text != "" && IsBlank(text)
    ensures !IsE(text[|text| - 1])
  {
  }

  /** Normalizing white space keeps every token that is not blank: its kind, its
      text, its order, and whether blanks come before it. Of the line breaks
      only those in or after comments stay. */
  lemma NormalizeKeepsTokens(db: Database, sql: string)
    ensures var before, after := SignificantTokens(db, sql), SignificantTokens(db, Normalized(db, sql));
            && |after| == |before|
            && (forall i :: 0 <= i < |before| ==> after[i] == before[i].(lineBreakBefore := after[i].lineBreakBefore))
            && after == KeptTokens(db, sql)
  {
    NormalizeFromKeeps(db, false, sql, false, false, false);
    KeptIsSignificant(Tokens(db, sql), false, false, false, false);
  }

  /** In Postgres a string can go on in a string on a later line. The line break
      before it survives when a comment holds it or a line comment ends with it. */
  ghost predicate BreaksSurvive(db: Database, sql: string)
    requires |KeptTokens(db, sql)| == |SignificantTokens(db, sql)|
  {
    var tokens, kept := SignificantTokens(db, sql), KeptTokens(db, sql);
    forall i :: 0 <= i < |tokens| && ContinuesString(db, tokens, i) && tokens[i].lineBreakBefore ==>
        kept[i].lineBreakBefore
  }

  /** Normalized text passes `same_tokens_for` exactly when those breaks survive. */
  lemma NormalizePassesCheck(db: Database, sql: string)
    ensures |KeptTokens(db, sql)| == |SignificantTokens(db, sql)|
    ensures SameTokens(db, sql, Normalized(db, sql)) <==> BreaksSurvive(db, sql)
    ensures db != Postgres ==> SameTokens(db, sql, Normalized(db, sql))
  {
    hide Lex, SignificantFrom, KeptFrom, ContinuesString, KeepsSpace, IsQualified, SameLetters;
    var a, b := SignificantTokens(db, sql), SignificantTokens(db, Normalized(db, sql));
    NormalizeKeepsTokens(db, sql);
    KeptIsSignificant(Tokens(db, sql), false, false, false, false);
    forall i | 0 <= i < |a|
      ensures SameToken(db, a, b, i) <==> !ContinuesString(db, a, i) || a[i].lineBreakBefore == b[i].lineBreakBefore
      ensures db != Postgres ==> !ContinuesString(db, a, i)
    {
      assert b[i].text == a[i].text && b[i].kind == a[i].kind;
      NotPostgres(db, a, i);
    }
  }

  lemma NotPostgres(db: Database, tokens: seq<Significant>, i: nat)
    requires i < |tokens|
    ensures db != Postgres ==> !ContinuesString(db, tokens, i)
  {
  }

  // ----- A text that fails the check

  /** Two Postgres literals that a line break joins. */
  const CONTINUED := "''" + ("\n" + "''")

  lemma EmptyLiteral(rest: string)
    requires rest == "" || rest[0] != '\''
    ensures Head(Postgres, false, "''" + rest) == (2, String)
  {
    hide DollarOpen, DollarEnd, RunHead, LineEnd, BlockEnd;
    var r := "''" + rest;
    assert r[0] == r[1] == '\'' && r[1..][1..] == rest;
  }

  lemma LastLiteral()
    ensures Lex(Postgres, false, "''") == [Token("''", String)]
  {
    hide Head;
    assert "''" + "" == "''";
    EmptyLiteral("");
    LexFirst(Postgres, false, "''", "", String);
  }

  lemma BreakAndLiteral()
    ensures Lex(Postgres, false, "\n" + "''") == [Token("\n", Plain), Token("''", String)]
  {
    hide Head, BlankEnd, Lex;
    BlankHead(Postgres, false, "\n" + "''");
    assert ("\n" + "''")[1..] == "''";
    NoBlank("''");
    LexFirst(Postgres, false, "\n", "''", Plain);
    LastLiteral();
  }

  lemma ContinuedTokens()
    ensures Tokens(Postgres, CONTINUED) == [Token("''", String), Token("\n", Plain), Token("''", String)]
  {
    hide Head, Lex;
    EmptyLiteral("\n" + "''");
    LexFirst(Postgres, false, "''", "\n" + "''", String);
    BreakAndLiteral();
  }

  lemma NoBlank(r: string)
    requires r == "" || !IsAsciiWhitespace(r[0])
    ensures BlankEnd(r) == 0
  {
  }

  lemma ContinuedSignificant()
    ensures var first, second := Token("''", String), Token("\n", Plain);
            SignificantFrom([first, second, first], false, false)
            == [Significant(String, "''", false, false), Significant(String, "''", true, true)]
  {
    hide SignificantFrom;
    var first, second := Token("''", String), Token("\n", Plain);
    assert IsLineBreak("\n"[0]) && IsWhitespace("\n"[0]) && !IsWhitespace("''"[0]);
    assert [first, second, first] == [first] + ([second] + [first]) && [first] == [first] + [];
    SignificantCons(first, [second] + [first], false, false);
    SignificantCons(second, [first], false, false);
    SignificantCons(first, [], true, true);
    NothingSignificant();
  }

  lemma NothingSignificant()
    ensures SignificantFrom([], false, false) == [] && KeptFrom([], false, false, false) == []
  {
  }

  lemma ContinuedKept()
    ensures var first, second := Token("''", String), Token("\n", Plain);
            KeptFrom([first, second, first], false, false, false)
            == [Significant(String, "''", false, false), Significant(String, "''", true, false)]
  {
    hide KeptFrom;
    var first, second := Token("''", String), Token("\n", Plain);
    assert IsWhitespace("\n"[0]) && !IsWhitespace("''"[0]);
    assert [first, second, first] == [first] + ([second] + [first]) && [first] == [first] + [];
    KeptCons(first, [second] + [first], false, false, false);
    KeptCons(second, [first], false, false, false);
    KeptCons(first, [], true, false, false);
    NothingSignificant();
  }

  /** The break between them becomes a space, so the check refuses the normalized text. */
  lemma ContinuedStringFails()
    ensures !SameTokens(Postgres, CONTINUED, Normalized(Postgres, CONTINUED))
  {
    hide Lex, SignificantFrom, KeptFrom;
    ContinuedTokens();
    ContinuedSignificant();
    ContinuedKept();
    NormalizePassesCheck(Postgres, CONTINUED);
    var tokens := SignificantTokens(Postgres, CONTINUED);
    assert tokens[..1] == [tokens[0]];
    assert ContinuesString(Postgres, tokens, 1);
  }
}
