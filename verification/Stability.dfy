/** The first token of a text depends on little of what follows it: replacing
    the rest by a similar one leaves it as it is. */
module Stability {
  import opened Chars
  import opened Lexer

  // ----- Dollar quotes, character by character

  /** Word characters, then a dollar sign. */
  predicate TagEnds(r: string) {
    r != "" && (r[0] == '$' || (IsWordChar(r[0]) && TagEnds(r[1..])))
  }

  /** What follows a dollar sign that opens a dollar quote. */
  predicate TagOpens(r: string) {
    r != "" && (r[0] == '$' || ((IsAlphabetic(r[0]) || r[0] == '_') && TagEnds(r[1..])))
  }

  lemma {:induction false} TagEndsIsFind(r: string)
    ensures TagEnds(r) <==> Find(r, "$") >= 0 && forall i :: 0 <= i < Find(r, "$") ==> IsWordChar(r[i])
  {
    if r != "" {
      TagEndsIsFind(r[1..]);
      assert "$" <= r <==> r[0] == '$';
      var at := Find(r[1..], "$");
      if r[0] != '$' && at >= 0 {
        assert forall i :: 0 < i <= at ==> r[i] == r[1..][i - 1];
        assert forall i :: 0 <= i < at ==> r[1..][i] == r[i + 1];
      }
    }
  }

  lemma DollarOpenIsTag(r: string)
    requires r != ""
    ensures DollarOpen(r) > 0 <==> TagOpens(r[1..])
  {
    var s := r[1..];
    TagEndsIsFind(s);
    if s != "" {
      assert "$" <= s <==> s[0] == '$';
      TagEndsIsFind(s[1..]);
      var length := Find(s, "$");
      if length >= 0 {
        assert forall i :: 0 <= i < length ==> s[..length][i] == s[i];
      }
      TagTail(s);
    }
  }

  lemma TagTail(s: string)
    ensures s != "" && s[0] != '$' && IsWordChar(s[0]) ==> TagEnds(s) == TagEnds(s[1..])
  {
  }

  lemma {:induction false} TagEndsAfter(text: string, a: string, b: string)
    requires TagEnds(a) == TagEnds(b)
    ensures TagEnds(text + a) == TagEnds(text + b)
  {
    if text == "" {
      assert text + a == a && text + b == b;
    } else {
      assert (text + a)[1..] == text[1..] + a && (text + b)[1..] == text[1..] + b;
      TagEndsAfter(text[1..], a, b);
    }
  }

  lemma TagOpensAfter(text: string, a: string, b: string)
    requires text != "" && TagEnds(a) == TagEnds(b)
    ensures TagOpens(text + a) == TagOpens(text + b)
  {
    assert (text + a)[1..] == text[1..] + a && (text + b)[1..] == text[1..] + b;
    TagEndsAfter(text[1..], a, b);
  }

  // ----- Similar rests

  /** The first characters are the same, or both are white space. */
  ghost predicate SimilarStart(a: string, b: string) {
    && (a == "" <==> b == "")
    && (a != "" && b != "" ==> a[0] == b[0] || (IsWhitespace(a[0]) && IsWhitespace(b[0])))
  }

  predicate QuoteSecond(r: string) { |r| > 1 && (r[1] == '\'' || r[1] == '"') }

  ghost predicate Similar(a: string, b: string) {
    && SimilarStart(a, b)
    && (a != "" && a[0] == '&' ==> QuoteSecond(a) == QuoteSecond(b))
    && TagOpens(a) == TagOpens(b)
  }

  // ----- Each kind of token

  lemma {:induction false} LineStable(b: string, rest: string, other: string)
    requires LineEnd(b + rest) == |b| && (other == "" || other[0] == '\n')
    ensures LineEnd(b + other) == |b|
  {
    if b == "" {
      assert b + other == other;
    } else {
      assert (b + rest)[1..] == b[1..] + rest && (b + other)[1..] == b[1..] + other;
      LineStable(b[1..], rest, other);
    }
  }

  lemma {:induction false} BlockStable(b: string, rest: string, other: string, depth: nat)
    requires BlockEnd(b + rest, depth) == |b| && rest != ""
    ensures BlockEnd(b + other, depth) == |b|
  {
    if b == "" {
      assert b + rest == rest && b + other == other;
    } else {
      assert (b + rest)[1..] == b[1..] + rest && (b + other)[1..] == b[1..] + other;
      if |b| > 1 {
        assert (b + rest)[2..] == b[2..] + rest && (b + other)[2..] == b[2..] + other;
        if Starts(b, '/', '*') {
          BlockStable(b[2..], rest, other, depth + 1);
        } else if Starts(b, '*', '/') {
          BlockStable(b[2..], rest, other, depth - 1);
        } else {
          BlockStable(b[1..], rest, other, depth);
        }
      } else {
        BlockGoesOn(rest, depth);
      }
    }
  }

  lemma BlockGoesOn(rest: string, depth: nat)
    requires rest != ""
    ensures depth > 0 ==> BlockEnd(rest, depth) > 0
  {
  }

  lemma {:induction false} QuoteStable(b: string, rest: string, other: string, quote: char, escapes: bool)
    requires b != "" && rest != "" && QuoteEnd(b + rest, quote, escapes) == |b|
    requires other != "" && other[0] == quote ==> rest[0] == quote
    ensures QuoteEnd(b + other, quote, escapes) == |b|
  {
    assert (b + rest)[1..] == b[1..] + rest && (b + other)[1..] == b[1..] + other;
    if |b| > 1 {
      assert (b + rest)[2..] == b[2..] + rest && (b + other)[2..] == b[2..] + other;
      if (escapes && b[0] == '\\') || (b[0] == quote && b[1] == quote) {
        QuoteGoesOn(b[2..], rest, quote, escapes);
        QuoteStable(b[2..], rest, other, quote, escapes);
      } else if b[0] != quote {
        QuoteStable(b[1..], rest, other, quote, escapes);
      }
    }
  }

  /** A quoted token does not end before its text does. */
  lemma QuoteGoesOn(b: string, rest: string, quote: char, escapes: bool)
    requires rest != "" && QuoteEnd(b + rest, quote, escapes) == |b|
    ensures b != ""
  {
  }

  lemma {:induction false} NumberStable(b: string, rest: string, other: string)
    requires NumberEnd(b + rest) == |b| && (other == "" || !IsNumberChar(other[0]))
    ensures NumberEnd(b + other) == |b|
  {
    if b == "" {
      assert b + other == other;
    } else {
      assert (b + rest)[1..] == b[1..] + rest && (b + other)[1..] == b[1..] + other;
      NumberStable(b[1..], rest, other);
    }
  }

  lemma {:induction false} WordStable(b: string, rest: string, other: string)
    requires WordEnd(b + rest) == |b| && (other == "" || !IsWordChar(other[0]))
    ensures WordEnd(b + other) == |b|
  {
    if b == "" {
      assert b + other == other;
    } else {
      assert (b + rest)[1..] == b[1..] + rest && (b + other)[1..] == b[1..] + other;
      WordStable(b[1..], rest, other);
    }
  }

  lemma {:induction false} RunEnds(r: string)
    ensures NumberEnd(r) < |r| ==> !IsNumberChar(r[NumberEnd(r)])
    ensures WordEnd(r) < |r| ==> !IsWordChar(r[WordEnd(r)])
    ensures LineEnd(r) < |r| ==> r[LineEnd(r)] == '\n'
  {
    if r != "" {
      RunEnds(r[1..]);
    }
  }

  /** A closed dollar-quoted string holds all that decides about it. */
  lemma DollarStable(text: string, rest: string, other: string)
    requires text != "" && rest != ""
    requires DollarOpen(text + rest) > 0 && DollarEnd(text + rest) == |text|
    ensures DollarOpen(text + other) == DollarOpen(text + rest) && DollarEnd(text + other) == |text|
  {
    hide Find, IsTag;
    var r, s := text + rest, text + other;
    var open := DollarOpen(r);
    assert open <= |text|;
    FindStable(r[1..], s[1..], "$", |text| - 1, text[1..]);
    assert r[1..][..open - 2] == text[1..][..open - 2] == s[1..][..open - 2];
    assert DollarOpen(s) == open;
    assert r[..open] == text[..open] == s[..open];
    FindStable(r[open..], s[open..], text[..open], |text| - open, text[open..]);
  }

  lemma FindStable(hay: string, other: string, needle: string, end: nat, part: string)
    requires part <= hay && part <= other && |part| == end
    requires 0 <= Find(hay, needle) <= end - |needle|
    ensures Find(other, needle) == Find(hay, needle)
  {
    hide Find;
    var stop := Find(hay, needle) + |needle|;
    assert hay[..stop] == part[..stop] == other[..stop];
    FindSamePrefix(hay, other, needle);
  }

  // ----- The first token

  lemma RunHeadStable(text: string, rest: string, other: string, kind: Kind)
    requires text != "" && rest != "" && !IsBlank(text) && (other == "" || SimilarStart(rest, other))
    requires RunHead(text + rest) == (|text|, kind)
    ensures RunHead(text + other) == (|text|, kind)
  {
    hide NumberEnd, WordEnd;
    var r, s := text + rest, text + other;
    assert r[0] == text[0] == s[0];
    assert r[1..] == text[1..] + rest && s[1..] == text[1..] + other;
    if IsAsciiDigit(text[0]) {
      RunEnds(text[1..] + rest);
      assert !IsNumberChar(rest[0]);
      NumberStable(text[1..], rest, other);
    } else if StartsWord(text[0]) {
      RunEnds(text[1..] + rest);
      assert !IsWordChar(rest[0]);
      WordStable(text[1..], rest, other);
    } else if IsAsciiWhitespace(text[0]) {
      BlankText(text, rest);
    }
  }

  lemma BlankText(text: string, rest: string)
    requires |text| <= BlankEnd(text + rest)
    ensures IsBlank(text)
  {
    BlankEndIsBlank(text + rest);
    assert forall i :: 0 <= i < |text| ==> text[i] == (text + rest)[i];
  }

  lemma {:induction false} BlankEndIsBlank(r: string)
    ensures forall i :: 0 <= i < BlankEnd(r) ==> IsAsciiWhitespace(r[i])
    ensures BlankEnd(r) < |r| ==> !IsAsciiWhitespace(r[BlankEnd(r)])
  {
    if r != "" {
      BlankEndIsBlank(r[1..]);
    }
  }

  lemma QuotedStable(db: Database, afterE: bool, text: string, rest: string, other: string, kind: Kind)
    requires text != "" && rest != "" && (other == "" || Similar(rest, other))
    requires Head(db, afterE, text + rest) == (|text|, kind)
    ensures IsQuoted(db, text + rest) && !IsDollarQuoted(db, text + rest) ==>
              && IsQuoted(db, text + other) && QuotePlace(text + other) == QuotePlace(text + rest) < |text|
              && (text + other)[QuotePlace(text + rest)] == (text + rest)[QuotePlace(text + rest)]
              && var place, quote := QuotePlace(text + rest), (text + rest)[QuotePlace(text + rest)];
                 QuoteEnd((text + other)[place + 1..], quote, Escapes(db, afterE, quote)) == |text| - place - 1
  {
    hide QuoteEnd, DollarOpen, DollarEnd, RunHead, LineEnd, BlockEnd, TagOpens;
    var r, s := text + rest, text + other;
    if IsQuoted(db, r) && !IsDollarQuoted(db, r) {
      var place := QuotePlace(r);
      var quote := r[place];
      QuoteNotEmpty(r[place + 1..], quote, Escapes(db, afterE, quote));
      assert r[place + 1..] == text[place + 1..] + rest && s[place + 1..] == text[place + 1..] + other;
      QuoteStable(text[place + 1..], rest, other, quote, Escapes(db, afterE, quote));
    }
  }

  lemma QuoteNotEmpty(r: string, quote: char, escapes: bool)
    ensures r != "" ==> QuoteEnd(r, quote, escapes) > 0
  {
  }

  /** The first token stays as it is when what follows becomes something similar, or nothing. */
  lemma HeadStable(db: Database, afterE: bool, text: string, rest: string, other: string, kind: Kind)
    requires text != "" && !IsBlank(text) && (other == "" || Similar(rest, other))
    requires Head(db, afterE, text + rest) == (|text|, kind)
    requires kind == Comment && Starts(text, '-', '-') ==> other == "" || other[0] == '\n'
    ensures Head(db, afterE, text + other) == (|text|, kind)
  {
    hide QuoteEnd, DollarOpen, DollarEnd, RunHead, LineEnd, BlockEnd, TagOpens, IsQuoted, QuotePlace, Starts, IsBlank;
    var r, s := text + rest, text + other;
    if rest == "" {
      return;
    }
    if Starts(r, '-', '-') {
      LineCommentStable(text, rest, other);
    } else if Starts(r, '/', '*') {
      BlockCommentStable(text, rest, other);
    } else {
      NoCommentStable(text, rest, other);
      if IsDollarQuoted(db, r) {
        DollarStable(text, rest, other);
      } else if IsQuoted(db, r) {
        NoDollarStable(db, text, rest, other, kind);
        QuotedStable(db, afterE, text, rest, other, kind);
      } else {
        NoDollarStable(db, text, rest, other, kind);
        NoQuoteStable(db, text, rest, other, kind);
        RunHeadStable(text, rest, other, kind);
      }
    }
  }

  lemma LineCommentStable(text: string, rest: string, other: string)
    requires Starts(text + rest, '-', '-') && LineEnd(text + rest) == |text|
    requires Starts(text, '-', '-') ==> other == "" || other[0] == '\n'
    ensures Starts(text + other, '-', '-') && LineEnd(text + other) == |text|
  {
    var r := text + rest;
    assert LineEnd(r) == 1 + LineEnd(r[1..]) == 2 + LineEnd(r[1..][1..]);
    assert text[0] == r[0] && text[1] == r[1];
    LineStable(text, rest, other);
  }

  lemma BlockCommentStable(text: string, rest: string, other: string)
    requires rest != "" && Starts(text + rest, '/', '*') && 2 + BlockEnd((text + rest)[2..], 1) == |text|
    ensures Starts(text + other, '/', '*') && !Starts(text + other, '-', '-')
    ensures 2 + BlockEnd((text + other)[2..], 1) == |text|
  {
    var r := text + rest;
    assert text[0] == r[0] && text[1] == r[1];
    assert r[2..] == text[2..] + rest && (text + other)[2..] == text[2..] + other;
    BlockStable(text[2..], rest, other, 1);
  }

  lemma NoCommentStable(text: string, rest: string, other: string)
    requires text != "" && rest != "" && (other == "" || SimilarStart(rest, other))
    requires !Starts(text + rest, '-', '-') && !Starts(text + rest, '/', '*')
    ensures !Starts(text + other, '-', '-') && !Starts(text + other, '/', '*')
  {
  }

  lemma NoDollarStable(db: Database, text: string, rest: string, other: string, kind: Kind)
    requires text != "" && rest != "" && (other == "" || Similar(rest, other))
    requires !IsDollarQuoted(db, text + rest)
    requires !IsQuoted(db, text + rest) ==> RunHead(text + rest) == (|text|, kind)
    ensures !IsDollarQuoted(db, text + other)
  {
    hide DollarOpen, TagOpens;
    var r, s := text + rest, text + other;
    assert r[0] == s[0] == text[0];
    if r[0] == '$' {
      assert |text| == 1;
      assert r[1..] == rest && s[1..] == other;
      NoTag();
      DollarOpenIsTag(r);
      DollarOpenIsTag(s);
    }
  }

  lemma NoTag()
    ensures !TagOpens("")
  {
  }

  lemma NoQuoteStable(db: Database, text: string, rest: string, other: string, kind: Kind)
    requires text != "" && rest != "" && (other == "" || Similar(rest, other))
    requires !IsQuoted(db, text + rest) && RunHead(text + rest) == (|text|, kind)
    ensures !IsQuoted(db, text + other)
  {
    hide TagOpens;
    var r, s := text + rest, text + other;
    assert r[0] == s[0] == text[0];
    if s[0] == 'U' || s[0] == 'u' {
      assert |text| == 1 + WordEnd(r[1..]);
      if |text| > 1 {
        assert IsWordChar(r[1]) && r[1] == text[1] == s[1];
      } else if other != "" {
        assert r[1] == rest[0] && s[1] == other[0];
        assert r[2..] == rest[1..] && s[2..] == other[1..];
      }
    }
  }
}
