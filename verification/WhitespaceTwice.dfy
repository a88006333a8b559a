/** When normalizing white space twice is normalizing it once,
    `normalize_layout_whitespace` of src/sql.rs. */
module WhitespaceTwice {
  import opened Chars
  import opened Lexer
  import opened Whitespace

  /** Two blank tokens stand next to each other, as a vertical tab and a space do. */
  predicate HasAdjacentBlanks(tokens: seq<Token>) {
    |tokens| >= 2 && ((IsBlank(tokens[0].text) && IsBlank(tokens[1].text)) || HasAdjacentBlanks(tokens[1..]))
  }

  /** The normalized text and the one normalized again, from any point of the text on. */
  lemma {:induction false} TwiceFrom(db: Database, afterE: bool, r: string, afterLineComment: bool)
    ensures var once := NormalizedFrom(Lex(db, afterE, r), afterLineComment);
            var twice := NormalizedFrom(Lex(db, afterE, once), afterLineComment);
            |twice| <= |once| && (twice == once <==> !HasAdjacentBlanks(Lex(db, afterE, r)))
    decreases |r|, 0
  {
    if r != "" {
      hide Lex, Head, NormalizedFrom, IsBlank, HasAdjacentBlanks, NewBlank;
      var text, rest, kind := LexHead(db, afterE, r);
      var t, more := Token(text, kind), Lex(db, IsE(text[|text| - 1]), rest);
      NormalizedCons(t, more, afterLineComment);
      if IsBlank(text) {
        BlankLast(text);
        BlankTwice(db, afterE, text, rest, kind, afterLineComment);
      } else {
        var other := NormalizedFrom(more, IsLineComment(t));
        TwiceFrom(db, IsE(text[|text| - 1]), rest, IsLineComment(t));
        TokenStays(db, afterE, text, rest, kind);
        NormalizedCons(t, Lex(db, IsE(text[|text| - 1]), other), afterLineComment);
        NotAdjacent(t, more);
      }
    } else {
      assert NormalizedFrom(Lex(db, afterE, r), afterLineComment) == "";
    }
  }

  lemma NotAdjacent(t: Token, more: seq<Token>)
    ensures more != [] && IsBlank(t.text) && IsBlank(more[0].text) ==> HasAdjacentBlanks([t] + more)
    ensures !(more != [] && IsBlank(t.text) && IsBlank(more[0].text)) ==>
            HasAdjacentBlanks([t] + more) == HasAdjacentBlanks(more)
  {
    assert ([t] + more)[1..] == more;
  }

  /** A text that starts with a blank token. */
  lemma {:induction false} BlankTwice(db: Database, afterE: bool, text: string, rest: string, kind: Kind,
                                      afterLineComment: bool)
    requires text != "" && IsBlank(text)
    ensures var once := NewBlank(text, afterLineComment) + NormalizedFrom(Lex(db, false, rest), afterLineComment);
            var twice := NormalizedFrom(Lex(db, afterE, once), afterLineComment);
            |twice| <= |once| && (twice == once <==> !HasAdjacentBlanks([Token(text, kind)] + Lex(db, false, rest)))
    decreases |rest|, 1
  {
    hide Lex, Head, NormalizedFrom, IsBlank, HasAdjacentBlanks, NewBlank, BlankEnd;
    var blank, tokens := NewBlank(text, afterLineComment), Lex(db, false, rest);
    var other := NormalizedFrom(tokens, afterLineComment);
    TwiceFrom(db, false, rest, afterLineComment);
    NotAdjacent(Token(text, kind), tokens);
    NewBlankIs(text, afterLineComment);
    NewBlankStays(text, afterLineComment);
    StartOfRest(db, rest, afterLineComment);
    BlankTakes(db, afterE, blank, other, afterLineComment);
    var n, again := BlankEnd(other), NormalizedFrom(Lex(db, false, other), afterLineComment);
    var twice := NormalizedFrom(Lex(db, afterE, blank + other), afterLineComment);
    if n == 0 {
      assert blank + other[..n] == blank && other[n..] == other;
      assert twice == blank + again && twice[1..] == again && (blank + other)[1..] == other;
    } else {
      assert |twice| == |again| < |blank + other|;
    }
  }

  /** A new blank takes the blanks that follow it into one token. */
  lemma BlankTakes(db: Database, afterE: bool, blank: string, other: string, afterLineComment: bool)
    requires blank == " " || blank == "\n"
    ensures var n := BlankEnd(other);
            NormalizedFrom(Lex(db, afterE, blank + other), afterLineComment)
            == NewBlank(blank + other[..n], afterLineComment)
                + NormalizedFrom(Lex(db, false, other[n..]), afterLineComment)
    ensures BlankEnd(other) > 0 ==>
              var n := BlankEnd(other);
              NormalizedFrom(Lex(db, false, other), afterLineComment)
              == NewBlank(other[..n], afterLineComment) + NormalizedFrom(Lex(db, false, other[n..]), afterLineComment)
    ensures |NewBlank(blank + other[..BlankEnd(other)], afterLineComment)| == 1
            == |NewBlank(other[..BlankEnd(other)], afterLineComment)|
  {
    hide Lex, Head, NormalizedFrom, IsBlank, BlankEnd, NewBlank;
    var r := blank + other;
    var n := BlankEnd(other);
    BlankHead(db, afterE, r);
    assert r[1..] == other && r == (blank + other[..n]) + other[n..];
    assert r[..BlankEnd(r)] == blank + other[..n];
    BlankFirst(db, afterE, blank + other[..n], other[n..], afterLineComment);
    OneBlank(blank + other[..n], afterLineComment);
    OneBlank(other[..n], afterLineComment);
    if n > 0 {
      FirstIsBlank(other);
      BlankHead(db, false, other);
      assert other == other[..n] + other[n..];
      BlankFirst(db, false, other[..n], other[n..], afterLineComment);
    }
  }

  lemma BlankFirst(db: Database, afterE: bool, blank: string, rest: string, afterLineComment: bool)
    requires blank != "" && IsBlank(blank) && Head(db, afterE, blank + rest) == (|blank|, Plain)
    requires !IsE(blank[|blank| - 1])
    ensures NormalizedFrom(Lex(db, afterE, blank + rest), afterLineComment)
         == NewBlank(blank, afterLineComment) + NormalizedFrom(Lex(db, false, rest), afterLineComment)
  {
    hide Lex, Head, NormalizedFrom, IsBlank, NewBlank;
    LexFirst(db, afterE, blank, rest, Plain);
    NormalizedCons(Token(blank, Plain), Lex(db, false, rest), afterLineComment);
  }

  lemma OneBlank(text: string, afterLineComment: bool)
    ensures |NewBlank(text, afterLineComment)| == 1
  {
  }

  lemma FirstIsBlank(r: string)
    ensures BlankEnd(r) > 0 <==> r != "" && IsAsciiWhitespace(r[0])
  {
  }

  lemma NewBlankStays(text: string, afterLineComment: bool)
    ensures NewBlank(NewBlank(text, afterLineComment), afterLineComment) == NewBlank(text, afterLineComment)
  {
    BreakOfBlank(text, afterLineComment);
  }

  /** The normalized rest starts with a blank exactly when the rest starts with a blank token. */
  lemma StartOfRest(db: Database, rest: string, afterLineComment: bool)
    ensures var tokens := Lex(db, false, rest);
            BlankEnd(NormalizedFrom(tokens, afterLineComment)) > 0 <==> tokens != [] && IsBlank(tokens[0].text)
  {
    hide Head, NormalizedFrom, IsBlank, BlankEnd;
    var tokens := Lex(db, false, rest);
    FirstIsBlank(NormalizedFrom(tokens, afterLineComment));
    if rest == "" {
      NormalizedNone(afterLineComment);
    } else {
      hide Lex;
      var text, more, kind := LexHead(db, false, rest);
      NormalizedCons(Token(text, kind), Lex(db, IsE(text[|text| - 1]), more), afterLineComment);
      NewBlankIs(text, afterLineComment);
      if IsAsciiWhitespace(rest[0]) {
        BlankHead(db, false, rest);
        assert rest[..BlankEnd(rest)] == text;
      }
    }
  }

  /** Normalizing twice is normalizing once exactly when no two blank tokens are next to each other. */
  lemma NormalizeTwice(db: Database, sql: string)
    ensures Normalized(db, Normalized(db, sql)) == Normalized(db, sql) <==> !HasAdjacentBlanks(Tokens(db, sql))
  {
    TwiceFrom(db, false, sql, false);
  }

  lemma TabHead(db: Database, rest: string)
    ensures Head(db, false, "\U{0B}" + rest) == (1, Plain)
  {
    hide DollarOpen, DollarEnd, LineEnd, BlockEnd, QuoteEnd;
    assert ("\U{0B}" + rest)[0] == '\U{0B}';
  }

  /** A vertical tab is white space for `trim` but not for the tokenizer, so it is a token of its own. */
  lemma VerticalTabFails(db: Database)
    ensures Normalized(db, Normalized(db, "\U{0B} ")) != Normalized(db, "\U{0B} ")
  {
    hide Head, BlankEnd, NormalizedFrom;
    assert "\U{0B}" + " " == "\U{0B} " && " " + "" == " ";
    TabHead(db, " ");
    LexFirst(db, false, "\U{0B}", " ", Plain);
    BlankHead(db, false, " ");
    NoBlank("");
    assert " "[1..] == "";
    LexFirst(db, false, " ", "", Plain);
    NotAdjacent(Token("\U{0B}", Plain), Lex(db, false, " "));
    NormalizeTwice(db, "\U{0B} ");
  }
}
