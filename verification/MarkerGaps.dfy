/** Restoring quoted tokens in a text that the layout changed around their
    markers, in `format_layout` of src/sql.rs. */
module MarkerGaps {
  import opened Chars
  import opened Lexer
  import opened Mask
  import opened Statements

  // ----- Markers and originals between the same gaps

  function WithMarkers(prefix: string, gaps: seq<string>, n: nat): string
    requires gaps != []
  {
    if |gaps| == 1 then gaps[0] else gaps[0] + (Marker(prefix, n) + WithMarkers(prefix, gaps[1..], n + 1))
  }

  function Original(sql: string, cut: Cut): string
    requires cut.start <= cut.end <= |sql|
  {
    sql[cut.start..cut.end]
  }

  function WithOriginals(sql: string, from: nat, cuts: seq<Cut>, gaps: seq<string>): string
    requires InOrder(sql, from, cuts) && |gaps| == |cuts| + 1
    decreases cuts
  {
    if cuts == [] then gaps[0]
    else gaps[0] + (Original(sql, cuts[0]) + WithOriginals(sql, cuts[0].end, cuts[1..], gaps[1..]))
  }

  ghost predicate NoneHolds(gaps: seq<string>, prefix: string) {
    forall k :: 0 <= k < |gaps| ==> Nowhere(gaps[k], prefix)
  }

  // ----- Fences: the prefix cannot reach over the ends of an original

  predicate IsPrefixChar(c: char) { 'a' <= c <= 'z' || c == '_' }

  predicate IsPrefixText(text: string) { forall i :: 0 <= i < |text| ==> IsPrefixChar(text[i]) }

  /** No end of the prefix starts the text. */
  ghost predicate FencedStart(prefix: string, text: string) {
    forall j :: 0 < j < |prefix| ==> !Occurs(text, prefix[j..], 0)
  }

  predicate FencedEnd(text: string) { text != "" && !IsPrefixChar(text[|text| - 1]) }

  /** Every original is fenced, the last one perhaps only in front: it can be unclosed. */
  ghost predicate AllFenced(sql: string, prefix: string, from: nat, cuts: seq<Cut>)
    requires InOrder(sql, from, cuts)
    decreases cuts
  {
    cuts == []
    || (FencedStart(prefix, Original(sql, cuts[0])) && (|cuts| > 1 ==> FencedEnd(Original(sql, cuts[0])))
        && AllFenced(sql, prefix, cuts[0].end, cuts[1..]))
  }

  lemma OccursInPrefixChars(text: string, prefix: string, at: nat)
    requires IsPrefixText(prefix) && Occurs(text, prefix, at)
    ensures forall k :: at <= k < at + |prefix| ==> IsPrefixChar(text[k])
  {
    forall k | at <= k < at + |prefix|
      ensures IsPrefixChar(text[k])
    {
      assert text[at + (k - at)] == prefix[k - at];
    }
  }

  /** What reaches over the start of a text leaves an end of it there. */
  lemma EndIsThere(a: string, o: string, prefix: string, at: nat)
    ensures at < |a| < at + |prefix| <= |a + o| && Occurs(a + o, prefix, at) ==> Occurs(o, prefix[|a| - at..], 0)
  {
    if at < |a| < at + |prefix| <= |a + o| && Occurs(a + o, prefix, at) {
      var j := |a| - at;
      forall i | 0 <= i < |prefix| - j
        ensures o[i] == prefix[j..][i]
      {
        assert (a + o)[at + (j + i)] == prefix[j + i];
      }
    }
  }

  /** Around a fenced text an occurrence lies in one of the three parts. */
  lemma GlueAt(a: string, o: string, g: string, prefix: string, at: nat)
    requires prefix != "" && IsPrefixText(prefix) && FencedStart(prefix, o) && FencedEnd(o)
    requires Occurs((a + o) + g, prefix, at)
    ensures Occurs(a, prefix, at)
         || (at >= |a| && Occurs(o, prefix, at - |a|))
         || (at >= |a + o| && Occurs(g, prefix, at - |a + o|))
  {
    hide IsPrefixChar, Occurs;
    var text := (a + o) + g;
    assert text[|a| + |o| - 1] == o[|o| - 1];
    OccursInPrefixChars(text, prefix, at);
    if at >= |a + o| {
      OccursAfter(a + o, g, prefix, at - |a + o|);
    } else {
      OccursBefore(a + o, g, prefix, at);
      EndIsThere(a, o, prefix, at);
      if at >= |a| {
        OccursAfter(a, o, prefix, at - |a|);
      } else {
        OccursBefore(a, o, prefix, at);
      }
    }
  }

  /** A fenced text between two others makes no new occurrence. */
  lemma Glue(a: string, o: string, g: string, prefix: string)
    requires prefix != "" && IsPrefixText(prefix) && FencedStart(prefix, o) && FencedEnd(o)
    requires Nowhere(a, prefix) && Nowhere(o, prefix) && Nowhere(g, prefix)
    ensures Nowhere((a + o) + g, prefix)
  {
    hide FencedStart, FencedEnd, IsPrefixText, Occurs;
    forall at | 0 <= at <= |a + o + g| - |prefix|
      ensures !Occurs((a + o) + g, prefix, at)
    {
      OccursFits(a, prefix, at);
      if at >= |a| {
        OccursFits(o, prefix, at - |a|);
      }
      if at >= |a + o| {
        OccursFits(g, prefix, at - |a + o|);
      }
      if Occurs((a + o) + g, prefix, at) {
        GlueAt(a, o, g, prefix, at);
      }
    }
  }

  // ----- Restoring between gaps

  lemma MarkersStart(prefix: string, gaps: seq<string>, n: nat)
    requires gaps != [] && NoQuote(prefix) && prefix != "" && Nowhere(gaps[0], prefix)
    ensures !Occurs(WithMarkers(prefix, gaps, n), prefix, 0)
  {
    hide Occurs, Marker, Nowhere;
    var text := WithMarkers(prefix, gaps, n);
    if Occurs(text, prefix, 0) {
      if |gaps| == 1 {
        OccursFits(gaps[0], prefix, 0);
      } else {
        var rest := Marker(prefix, n) + WithMarkers(prefix, gaps[1..], n + 1);
        MarkerEnds(prefix, n);
        assert (gaps[0] + rest)[|gaps[0]|] == Marker(prefix, n)[0];
        OccursBeside(text, prefix, 0, |gaps[0]|);
        OccursBefore(gaps[0], rest, prefix, 0);
        OccursFits(gaps[0], prefix, 0);
      }
    }
  }

  /** No marker of a smaller number stands between the gaps. */
  lemma {:induction false} NoSmallerBetween(prefix: string, gaps: seq<string>, m: nat, n: nat)
    requires gaps != [] && NoneHolds(gaps, prefix) && NoQuote(prefix) && prefix != "" && n < m
    ensures Nowhere(WithMarkers(prefix, gaps, m), Marker(prefix, n))
    decreases |gaps|
  {
    hide Marker;
    var text := WithMarkers(prefix, gaps, m);
    forall at | 0 <= at <= |text| - |Marker(prefix, n)|
      ensures !Occurs(text, Marker(prefix, n), at)
    {
      if Occurs(text, Marker(prefix, n), at) {
        if |gaps| == 1 {
          OccursFits(text, prefix, at + 1);
          MarkerHolds(text, prefix, n, at);
        } else {
          MarkersStart(prefix, gaps[1..], m + 1);
          MarkerPlace(gaps[0], prefix, m, WithMarkers(prefix, gaps[1..], m + 1), n, at);
          NoSmallerBetween(prefix, gaps[1..], m + 1, n);
        }
      }
    }
  }

  /** Restoring the first marker after a text that does not hold the prefix. */
  lemma RestoreFirst(done: string, prefix: string, gaps: seq<string>, n: nat, original: string)
    requires |gaps| > 1 && NoneHolds(gaps, prefix) && NoQuote(prefix) && prefix != "" && Nowhere(done + gaps[0], prefix)
    ensures Marker(prefix, n) != ""
    ensures Replace(done + WithMarkers(prefix, gaps, n), Marker(prefix, n), original)
         == ((done + gaps[0]) + original) + WithMarkers(prefix, gaps[1..], n + 1)
  {
    hide Marker, Replace, Find, Occurs, Nowhere;
    var marker, more := Marker(prefix, n), WithMarkers(prefix, gaps[1..], n + 1);
    MarkerNotEmpty(prefix, n);
    assert done + WithMarkers(prefix, gaps, n) == (done + gaps[0]) + (marker + more);
    MarkersStart(prefix, gaps[1..], n + 1);
    FindMarker(done + gaps[0], prefix, n, more);
    NoSmallerBetween(prefix, gaps[1..], n + 1, n);
    NowhereIsNotFound(more, marker);
    ReplaceOne(done + gaps[0], marker, more, original);
  }

  /** In every text that holds the markers in order, between gaps that do not hold the
      prefix, restoring puts each original in the place of its marker and changes nothing else. */
  lemma {:induction false} RestoreBetween(done: string, sql: string, prefix: string, from: nat, cuts: seq<Cut>,
                                          gaps: seq<string>, n: nat)
    requires InOrder(sql, from, cuts) && |gaps| == |cuts| + 1 && NoneHolds(gaps, prefix)
    requires NoQuote(prefix) && prefix != "" && IsPrefixText(prefix) && Nowhere(sql, prefix)
    requires AllFenced(sql, prefix, from, cuts)
    requires cuts != [] ==> Nowhere(done + gaps[0], prefix)
    ensures Restored(done + WithMarkers(prefix, gaps, n), sql, prefix, from, cuts, n)
            == done + WithOriginals(sql, from, cuts, gaps)
    decreases cuts
  {
    hide Marker, Replace, Nowhere, FencedStart, FencedEnd, IsPrefixText;
    if cuts != [] {
      var original := Original(sql, cuts[0]);
      var next := (done + gaps[0]) + original;
      RestoreFirst(done, prefix, gaps, n, original);
      if |cuts| > 1 {
        NowhereInside(sql, cuts[0].start, cuts[0].end, prefix);
        Glue(done + gaps[0], original, gaps[1], prefix);
      }
      RestoreBetween(next, sql, prefix, cuts[0].end, cuts[1..], gaps[1..], n + 1);
      FourParts(done, gaps[0], original, WithOriginals(sql, cuts[0].end, cuts[1..], gaps[1..]));
    }
  }

  lemma FourParts(a: string, b: string, c: string, d: string)
    ensures ((a + b) + c) + d == a + (b + (c + d))
  {
    Associative(a + b, c, d);
    Associative(a, b, c + d);
  }

  // ----- The originals of a text are fenced

  predicate OpensQuote(c: char) { c in "'\"`$Uu" }

  predicate ClosesQuote(c: char) { c in "'\"`$" }

  lemma {:induction false} QuoteCloses(r: string, quote: char, escapes: bool)
    ensures QuoteEnd(r, quote, escapes) < |r| ==>
            QuoteEnd(r, quote, escapes) > 0 && r[QuoteEnd(r, quote, escapes) - 1] == quote
  {
    if r != "" {
      if escapes && r[0] == '\\' {
        if |r| > 1 {
          QuoteCloses(r[2..], quote, escapes);
        }
      } else if r[0] == quote {
        if |r| > 1 && r[1] == quote {
          QuoteCloses(r[2..], quote, escapes);
        }
      } else {
        QuoteCloses(r[1..], quote, escapes);
      }
    }
  }

  lemma DollarCloses(r: string)
    requires r != "" && r[0] == '$' && DollarOpen(r) > 0
    ensures DollarEnd(r) < |r| ==> r[DollarEnd(r) - 1] == '$'
  {
    var open := DollarOpen(r);
    var length := Find(r[1..], "$");
    assert r[1..][length..length + 1][0] == '$';
    assert r[..open][open - 1] == '$';
    var close := Find(r[open..], r[..open]);
    if close >= 0 {
      assert r[open..][close..close + open][open - 1] == '$';
    }
  }

  /** A string or quoted identifier starts with its opening, and closes unless the text ends in it. */
  lemma QuotedHead(db: Database, afterE: bool, r: string)
    requires r != "" && Head(db, afterE, r).1 in {String, Identifier}
    ensures OpensQuote(r[0])
    ensures Head(db, afterE, r).0 < |r| ==> ClosesQuote(r[Head(db, afterE, r).0 - 1])
  {
    hide LineEnd, BlockEnd, QuoteEnd, DollarOpen, DollarEnd;
    if IsDollarQuoted(db, r) && Head(db, afterE, r).0 == DollarEnd(r) {
      DollarCloses(r);
    } else if IsQuoted(db, r) {
      var place := QuotePlace(r);
      QuoteCloses(r[place + 1..], r[place], Escapes(db, afterE, r[place]));
    }
  }

  lemma {:induction false} QuotedToken(db: Database, afterE: bool, r: string, i: nat)
    requires i < |Lex(db, afterE, r)| && Lex(db, afterE, r)[i].kind in {String, Identifier}
    ensures var text := Lex(db, afterE, r)[i].text;
            text != "" && OpensQuote(text[0]) && (i + 1 < |Lex(db, afterE, r)| ==> ClosesQuote(text[|text| - 1]))
    decreases |r|
  {
    hide Lex, Head, OpensQuote, ClosesQuote;
    LexStep(db, afterE, r);
    var n := Head(db, afterE, r).0;
    if i == 0 {
      QuotedHead(db, afterE, r);
      LexStep(db, IsE(r[n - 1]), r[n..]);
      assert r[..n][0] == r[0] && r[..n][n - 1] == r[n - 1];
    } else {
      QuotedToken(db, IsE(r[n - 1]), r[n..], i - 1);
    }
  }

  /** An end of the prefix starts neither like a literal prefix nor like `u&`. */
  predicate IsTail(prefix: string, j: nat)
    requires j < |prefix|
  {
    && prefix[j] !in "diuxb"
    && (prefix[j] in "ten" ==> j + 1 < |prefix| && prefix[j + 1] in "_on")
  }

  lemma {:induction false} PrefixTails(extra: nat)
    ensures IsPrefixText(Prefix(extra)) && forall j :: 0 <= j < |Prefix(extra)| ==> IsTail(Prefix(extra), j)
  {
    if extra > 0 {
      PrefixTails(extra - 1);
      var less, more := Prefix(extra - 1), Prefix(extra);
      assert forall j :: 0 <= j < |less| ==> more[j] == less[j];
      forall j | 0 <= j < |more|
        ensures IsTail(more, j)
      {
        assert j < |less| ==> IsTail(less, j);
      }
    }
  }

  lemma FencedByOpening(prefix: string, text: string)
    requires IsPrefixText(prefix) && (forall j :: 0 <= j < |prefix| ==> IsTail(prefix, j))
    requires text != "" && OpensQuote(text[0])
    ensures FencedStart(prefix, text)
  {
    forall j | 0 < j < |prefix|
      ensures !Occurs(text, prefix[j..], 0)
    {
      assert IsTail(prefix, j) && prefix[j..][0] == prefix[j] && IsPrefixChar(prefix[j]);
      assert text[0] != prefix[j];
    }
  }

  lemma LiteralStart(t: Token)
    requires IsLiteralPrefix(t)
    ensures t.text != "" && Lower(t.text[0]) in "ditexbn"
    ensures Lower(t.text[0]) == 't' ==> |t.text| > 1 && Lower(t.text[1]) == 'i'
    ensures Lower(t.text[0]) in "en" ==> |t.text| == 1
  {
    var lower := LowerText(t.text);
    assert t.text == "" ==> lower == "";
  }

  lemma FencedByLiteral(prefix: string, t: Token, text: string)
    requires IsPrefixText(prefix) && (forall j :: 0 <= j < |prefix| ==> IsTail(prefix, j))
    requires IsLiteralPrefix(t) && text != "" && text[0] == '\''
    ensures FencedStart(prefix, t.text + text)
  {
    hide IsLiteralPrefix;
    LiteralStart(t);
    var whole := t.text + text;
    forall j | 0 < j < |prefix|
      ensures !Occurs(whole, prefix[j..], 0)
    {
      assert IsTail(prefix, j) && IsPrefixChar(prefix[j]) && prefix[j..][0] == prefix[j];
      assert whole[0] == t.text[0] && (|t.text| == 1 ==> whole[1] == '\'') && (|t.text| > 1 ==> whole[1] == t.text[1]);
      assert j + 1 < |prefix| ==> prefix[j..][1] == prefix[j + 1];
      assert whole[0] == prefix[j] ==> j + 1 < |prefix| && whole[1] != prefix[j + 1];
      OccursStarts(whole, prefix[j..]);
    }
  }

  lemma OccursStarts(text: string, needle: string)
    ensures Occurs(text, needle, 0) && needle != "" ==>
              text != "" && text[0] == needle[0] && (|needle| > 1 ==> |text| > 1 && text[1] == needle[1])
  {
    if Occurs(text, needle, 0) && needle != "" {
      assert text[0 + 0] == needle[0] && (|needle| > 1 ==> text[0 + 1] == needle[1]);
    }
  }

  /** The cut of a hidden token holds its text, after its literal prefix if it has one. */
  lemma CutText(db: Database, sql: string, i: nat)
    requires i < |Tokens(db, sql)| && IsHidden(db, Tokens(db, sql), i)
    ensures var tokens, cut := Tokens(db, sql), CutOf(Tokens(db, sql), Spans(Tokens(db, sql), 0), i);
            && cut.start <= cut.end <= |sql|
            && Original(sql, cut) == if HasPrefix(tokens, i) then tokens[i - 1].text + tokens[i].text
                else tokens[i].text
  {
    hide Lex, Spans, LowerText;
    NextPlace(db, sql, i);
    if HasPrefix(Tokens(db, sql), i) {
      NextPlace(db, sql, i - 1);
      var spans := Spans(Tokens(db, sql), 0);
      assert sql[spans[i - 1].start..spans[i].end]
          == sql[spans[i - 1].start..spans[i - 1].end] + sql[spans[i].start..spans[i].end];
    }
  }

  lemma FencedCut(db: Database, sql: string, extra: nat, i: nat)
    requires i < |Tokens(db, sql)| && IsHidden(db, Tokens(db, sql), i)
    ensures var cut := CutOf(Tokens(db, sql), Spans(Tokens(db, sql), 0), i);
            && cut.start <= cut.end <= |sql| && FencedStart(Prefix(extra), Original(sql, cut))
            && (i + 1 < |Tokens(db, sql)| ==> FencedEnd(Original(sql, cut)))
  {
    hide Lex, Spans, FencedStart, IsLiteralPrefix;
    var tokens := Tokens(db, sql);
    CutText(db, sql, i);
    QuotedToken(db, false, sql, i);
    PrefixTails(extra);
    if HasPrefix(tokens, i) {
      FencedByLiteral(Prefix(extra), tokens[i - 1], tokens[i].text);
    } else {
      FencedByOpening(Prefix(extra), tokens[i].text);
    }
  }

  lemma {:induction false} CutsAreFenced(db: Database, sql: string, extra: nat, i: nat, from: nat)
    requires i <= |Tokens(db, sql)|
    requires InOrder(sql, from, CutsFrom(db, Tokens(db, sql), Spans(Tokens(db, sql), 0), i))
    ensures AllFenced(sql, Prefix(extra), from, CutsFrom(db, Tokens(db, sql), Spans(Tokens(db, sql), 0), i))
    decreases |Tokens(db, sql)| - i
  {
    hide Lex, Spans, IsHidden, FencedStart, FencedEnd, Prefix, CutsFrom;
    var tokens, spans := Tokens(db, sql), Spans(Tokens(db, sql), 0);
    CutsStep(db, tokens, spans, i);
    if i < |tokens| {
      var rest := CutsFrom(db, tokens, spans, i + 1);
      if IsHidden(db, tokens, i) {
        var cut := CutOf(tokens, spans, i);
        assert ([cut] + rest)[1..] == rest;
        FencedCut(db, sql, extra, i);
        CutsAreFenced(db, sql, extra, i + 1, cut.end);
      } else {
        CutsAreFenced(db, sql, extra, i + 1, from);
      }
    }
  }

  lemma CutsStep(db: Database, tokens: seq<Token>, spans: seq<Span>, i: nat)
    requires i <= |tokens| == |spans|
    ensures CutsFrom(db, tokens, spans, i)
         == if i == |tokens| then []
            else if IsHidden(db, tokens, i) then [CutOf(tokens, spans, i)] + CutsFrom(db, tokens, spans, i + 1)
            else CutsFrom(db, tokens, spans, i + 1)
    ensures i == |tokens| - 1 ==> CutsFrom(db, tokens, spans, i + 1) == []
  {
    hide IsHidden;
  }
}
