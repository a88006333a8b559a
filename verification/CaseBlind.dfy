/** The tokenizer does not see the letter case of ASCII letters, except in the
    delimiters of dollar quotes. */
module CaseBlind {
  import opened Chars
  import opened Lexer

  lemma {:induction false} LineBlind(r: string, s: string)
    requires SameLetters(r, s)
    ensures LineEnd(r) == LineEnd(s)
  {
    if r != "" {
      LineBlind(r[1..], s[1..]);
    }
  }

  lemma {:induction false} BlockBlind(r: string, s: string, depth: nat)
    requires SameLetters(r, s)
    ensures BlockEnd(r, depth) == BlockEnd(s, depth)
  {
    if r != "" && depth > 0 {
      assert Starts(r, '/', '*') == Starts(s, '/', '*') && Starts(r, '*', '/') == Starts(s, '*', '/');
      BlockBlind(r[1..], s[1..], depth);
      if |r| > 1 {
        BlockBlind(r[2..], s[2..], depth + 1);
        BlockBlind(r[2..], s[2..], depth - 1);
      }
    }
  }

  /** Quotes and backslashes are the same in every letter case. */
  lemma SameEnds(r: string, s: string, quote: char)
    requires SameLetters(r, s) && IsQuote(quote)
    ensures |r| == |s|
    ensures r != "" ==> SameLetters(r[1..], s[1..])
    ensures |r| > 1 ==> SameLetters(r[2..], s[2..])
    ensures forall i :: 0 <= i < |r| ==> (r[i] == quote <==> s[i] == quote) && (r[i] == '\\' <==> s[i] == '\\')
  {
  }

  lemma {:induction false} QuoteBlind(r: string, s: string, quote: char, escapes: bool)
    requires SameLetters(r, s) && IsQuote(quote)
    ensures QuoteEnd(r, quote, escapes) == QuoteEnd(s, quote, escapes)
  {
    hide Lower, SameLetters;
    SameEnds(r, s, quote);
    if r != "" {
      QuoteBlind(r[1..], s[1..], quote, escapes);
      if |r| > 1 {
        QuoteBlind(r[2..], s[2..], quote, escapes);
      }
    }
  }

  lemma {:induction false} RunBlind(r: string, s: string)
    requires SameLetters(r, s)
    ensures NumberEnd(r) == NumberEnd(s) && WordEnd(r) == WordEnd(s) && BlankEnd(r) == BlankEnd(s)
  {
    if r != "" {
      RunBlind(r[1..], s[1..]);
    }
  }

  lemma {:induction false} FindDollarBlind(r: string, s: string)
    requires SameLetters(r, s)
    ensures Find(r, "$") == Find(s, "$")
  {
    if r != "" {
      FindDollarBlind(r[1..], s[1..]);
      assert "$" <= r <==> r[0] == '$';
      assert "$" <= s <==> s[0] == '$';
    }
  }

  lemma DollarOpenBlind(r: string, s: string)
    requires r != "" && SameLetters(r, s)
    ensures DollarOpen(r) == DollarOpen(s)
  {
    hide Find, IsTag;
    FindDollarBlind(r[1..], s[1..]);
    var length := Find(r[1..], "$");
    if length >= 0 {
      TagBlind(r[1..][..length], s[1..][..length]);
    }
  }

  lemma TagBlind(a: string, b: string)
    requires SameLetters(a, b)
    ensures IsTag(a) == IsTag(b)
  {
  }

  /** A dollar-quoted string ends in the same place when its own text is the same. */
  lemma DollarSame(r: string, s: string)
    requires r != "" && SameLetters(r, s) && DollarOpen(r) > 0
    requires s[..DollarEnd(r)] == r[..DollarEnd(r)]
    ensures DollarOpen(s) > 0 && DollarEnd(s) == DollarEnd(r)
  {
    hide DollarOpen, Find;
    DollarOpenBlind(r, s);
    var open := DollarOpen(r);
    var hay, other, needle := r[open..], s[open..], r[..open];
    assert s[..open] == s[..DollarEnd(r)][..open] == r[..DollarEnd(r)][..open] == needle;
    var close := Find(hay, needle);
    if close >= 0 {
      assert other[..close + open] == s[..DollarEnd(r)][open..] == r[..DollarEnd(r)][open..] == hay[..close + open];
      FindSamePrefix(hay, other, needle);
    } else {
      assert s == s[..|r|] == r[..|r|] == r;
    }
  }

  lemma RunHeadBlind(r: string, s: string)
    requires r != "" && SameLetters(r, s)
    ensures RunHead(r) == RunHead(s)
  {
    hide NumberEnd, WordEnd, BlankEnd;
    RunBlind(r[1..], s[1..]);
    RunBlind(r, s);
  }

  /** The next token has the same length and kind, unless it is a dollar-quoted
      string whose text changed. */
  lemma HeadBlind(db: Database, afterE: bool, r: string, s: string)
    requires r != "" && SameLetters(r, s)
    requires IsDollarQuoted(db, r) ==> s[..DollarEnd(r)] == r[..DollarEnd(r)]
    ensures Head(db, afterE, s) == Head(db, afterE, r)
  {
    hide LineEnd, BlockEnd, QuoteEnd, DollarOpen, DollarEnd, RunHead, IsQuoted, QuotePlace;
    assert Starts(r, '-', '-') == Starts(s, '-', '-') && Starts(r, '/', '*') == Starts(s, '/', '*');
    LineBlind(r, s);
    if Starts(r, '/', '*') {
      BlockBlind(r[2..], s[2..], 1);
    }
    DollarOpenBlind(r, s);
    assert IsDollarQuoted(db, r) == IsDollarQuoted(db, s);
    if IsDollarQuoted(db, r) {
      DollarSame(r, s);
    }
    QuotedBlind(db, afterE, r, s);
    RunHeadBlind(r, s);
  }

  lemma QuotedBlind(db: Database, afterE: bool, r: string, s: string)
    requires r != "" && SameLetters(r, s)
    ensures IsQuoted(db, r) == IsQuoted(db, s)
    ensures IsQuoted(db, r) ==>
              var place := QuotePlace(r);
              && QuotePlace(s) == place && s[place] == r[place]
              && QuoteEnd(s[place + 1..], r[place], Escapes(db, afterE, r[place]))
              == QuoteEnd(r[place + 1..], r[place], Escapes(db, afterE, r[place]))
  {
    assert UnicodePrefix(r) == UnicodePrefix(s);
    if IsQuoted(db, r) {
      var place := QuotePlace(r);
      QuoteBlind(r[place + 1..], s[place + 1..], r[place], Escapes(db, afterE, r[place]));
    }
  }

  // ----- Reading a text again after its words changed case

  ghost predicate IsDollarString(t: Token) { t.kind == String && t.text != "" && t.text[0] == '$' }

  /** `b` is `a` with other letter case, but the same dollar-quoted text. */
  ghost predicate SameShape(a: Token, b: Token) {
    a.kind == b.kind && SameLetters(a.text, b.text) && (IsDollarString(a) ==> a.text == b.text)
  }

  ghost predicate SameShapes(a: seq<Token>, b: seq<Token>) {
    |a| == |b| && forall i :: 0 <= i < |a| ==> SameShape(a[i], b[i])
  }

  lemma {:induction false} FlattenSameLetters(a: seq<Token>, b: seq<Token>)
    requires SameShapes(a, b)
    ensures SameLetters(Flatten(a), Flatten(b))
  {
    if a != [] {
      assert SameShape(a[0], b[0]);
      FlattenSameLetters(a[1..], b[1..]);
    }
  }

  /** Tokens with other letter case, written one after the other, are read as
      exactly those tokens again. */
  lemma {:induction false} RelexSameShapes(db: Database, afterE: bool, r: string, tokens: seq<Token>)
    requires SameShapes(Lex(db, afterE, r), tokens)
    ensures Lex(db, afterE, Flatten(tokens)) == tokens
    decreases |r|
  {
    hide Lex, Head, Flatten;
    LexStep(db, afterE, r);
    if r == "" {
      NoTokens(db, afterE, 0);
    } else {
      var n, rest := LexParts(db, afterE, r, tokens);
      SameHead(db, afterE, r, tokens[0].text + rest, tokens[0].text);
      LexFirst(db, afterE, tokens[0].text, rest, tokens[0].kind);
      RelexSameShapes(db, IsE(r[n - 1]), r[n..], tokens[1..]);
    }
  }

  /** The first token, and the rest of both texts. */
  lemma {:induction false} LexParts(db: Database, afterE: bool, r: string, tokens: seq<Token>)
    returns (n: nat, rest: string)
    requires r != "" && SameShapes(Lex(db, afterE, r), tokens)
    ensures tokens != [] && (n, tokens[0].kind) == Head(db, afterE, r) && 0 < n <= |r|
    ensures SameShape(Token(r[..n], tokens[0].kind), tokens[0])
    ensures Flatten(tokens) == tokens[0].text + rest && rest == Flatten(tokens[1..])
    ensures SameLetters(r, tokens[0].text + rest)
    ensures SameShapes(Lex(db, IsE(r[n - 1]), r[n..]), tokens[1..])
  {
    hide Head, Lex, Flatten, SameShapes, SameShape, SameLetters;
    n := Head(db, afterE, r).0;
    var before := Lex(db, afterE, r);
    LexStep(db, afterE, r);
    ShapesTail(before, tokens);
    assert before[1..] == Lex(db, IsE(r[n - 1]), r[n..]);
    rest := Flatten(tokens[1..]);
    FlattenCons(tokens[0], tokens[1..]);
    LexCovers(db, afterE, r);
    FlattenSameLetters(before, tokens);
  }

  lemma ShapesTail(a: seq<Token>, b: seq<Token>)
    requires SameShapes(a, b) && a != []
    ensures b != [] && b == [b[0]] + b[1..] && SameShape(a[0], b[0]) && SameShapes(a[1..], b[1..])
    ensures a[0].kind == b[0].kind
  {
  }

  lemma SameHead(db: Database, afterE: bool, r: string, s: string, text: string)
    requires r != "" && SameLetters(r, s) && text <= s && |text| == Head(db, afterE, r).0
    requires SameShape(Token(r[..|text|], Head(db, afterE, r).1), Token(text, Head(db, afterE, r).1))
    ensures Head(db, afterE, s) == Head(db, afterE, r) && IsE(r[|text| - 1]) == IsE(text[|text| - 1])
  {
    hide Head, DollarOpen, DollarEnd;
    DollarHead(db, afterE, r);
    assert s[..|text|] == text;
    HeadBlind(db, afterE, r, s);
    assert Lower(r[..|text|][|text| - 1]) == Lower(text[|text| - 1]);
  }

  lemma DollarHead(db: Database, afterE: bool, r: string)
    requires r != ""
    ensures IsDollarQuoted(db, r) ==> Head(db, afterE, r) == (DollarEnd(r), String) && r[0] == '$'
  {
  }

  /** The same ranges, too. */
  lemma {:induction false} SameShapesSameSpans(a: seq<Token>, b: seq<Token>, at: nat)
    requires SameShapes(a, b)
    ensures Spans(a, at) == Spans(b, at)
  {
    if a != [] {
      assert SameShape(a[0], b[0]);
      SameShapesSameSpans(a[1..], b[1..], at + |a[0].text|);
    }
  }
}
