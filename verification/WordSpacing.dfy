/** Texts that differ only in letter case and in white space that separates no
    words: what a layout engine makes of the masked text in `format_layout` of src/sql.rs. */
module WordSpacing {
  import opened Chars
  import opened Lexer
  import opened Mask
  import opened MarkerGaps
  import opened Skeletons
  import opened Respacing
  import opened Whitespace

  /** The text in lower case with white space left out, except for one space between two
      words. `word` says that a word character comes before, `gap` that white space does. */
  function WordsFrom(text: string, word: bool, gap: bool): string {
    if text == "" then ""
    else if IsWhitespace(text[0]) then WordsFrom(text[1..], word, true)
    else
      (if gap && word && IsWordChar(text[0]) then " " else "")
      + ([Lower(text[0])] + WordsFrom(text[1..], IsWordChar(text[0]), false))
  }

  function WordsIn(text: string): string { WordsFrom(text, false, false) }

  // ----- Parts of a text

  /** A character that is neither white space nor part of a word. */
  predicate IsMark(c: char) { !IsWhitespace(c) && !IsWordChar(c) }

  lemma {:induction false} WordsBeforeMark(a: string, s: string, word: bool, gap: bool)
    requires s != "" && IsMark(s[0])
    ensures WordsFrom(a + s, word, gap) == WordsFrom(a, word, gap) + WordsIn(s)
  {
    if a == "" {
      assert a + s == s;
    } else {
      assert (a + s)[0] == a[0] && (a + s)[1..] == a[1..] + s;
      hide IsWhitespace, IsWordChar, Lower;
      if IsWhitespace(a[0]) {
        WordsBeforeMark(a[1..], s, word, true);
      } else {
        WordsBeforeMark(a[1..], s, IsWordChar(a[0]), false);
      }
    }
  }

  /** Solid text in lower case that ends with a mark. */
  lemma {:induction false} WordsOfSolid(m: string, b: string, word: bool)
    requires m != "" && IsSolidText(m) && IsMark(m[|m| - 1]) && forall i :: 0 <= i < |m| ==> Lower(m[i]) == m[i]
    ensures WordsFrom(m + b, word, false) == m + WordsIn(b)
  {
    hide IsWhitespace, IsWordChar, Lower;
    assert (m + b)[0] == m[0] && (m + b)[1..] == m[1..] + b;
    assert m == [m[0]] + m[1..];
    if |m| > 1 {
      WordsOfSolid(m[1..], b, IsWordChar(m[0]));
    } else {
      assert m[1..] + b == b;
    }
  }

  lemma MarkerIsMarked(prefix: string, n: nat)
    requires IsPrefixText(prefix)
    ensures var m := Marker(prefix, n);
            && m != "" && IsSolidText(m) && IsMark(m[0]) && IsMark(m[|m| - 1])
            && forall i :: 0 <= i < |m| ==> Lower(m[i]) == m[i]
  {
    hide IsWhitespace;
    var m := Marker(prefix, n);
    SolidMarker(prefix, n);
    assert m[0] == '\'' && m[|m| - 1] == '\'';
    forall i | 0 <= i < |m|
      ensures Lower(m[i]) == m[i]
    {
      assert 0 < i <= |prefix| ==> m[i] == prefix[i - 1];
    }
    QuoteIsSolid();
  }

  lemma QuoteIsSolid()
    ensures !IsWhitespace('\'')
  {
  }

  lemma WordsAroundMarker(a: string, prefix: string, n: nat, b: string)
    requires IsPrefixText(prefix)
    ensures WordsIn(a + (Marker(prefix, n) + b)) == WordsIn(a) + (Marker(prefix, n) + WordsIn(b))
  {
    hide WordsFrom, Marker, IsMark;
    MarkerIsMarked(prefix, n);
    WordsBeforeMark(a, Marker(prefix, n) + b, false, false);
    WordsOfSolid(Marker(prefix, n), b, false);
  }

  function WordsOf(gaps: seq<string>): (words: seq<string>)
    ensures |words| == |gaps| && forall k :: 0 <= k < |gaps| ==> words[k] == WordsIn(gaps[k])
  {
    seq(|gaps|, k requires 0 <= k < |gaps| => WordsIn(gaps[k]))
  }

  lemma {:induction false} WordsBetween(prefix: string, gaps: seq<string>, n: nat)
    requires gaps != [] && IsPrefixText(prefix)
    ensures WordsIn(WithMarkers(prefix, gaps, n)) == WithMarkers(prefix, WordsOf(gaps), n)
    decreases |gaps|
  {
    hide WordsFrom, Marker, IsPrefixText;
    if |gaps| > 1 {
      WordsBetween(prefix, gaps[1..], n + 1);
      WordsAroundMarker(gaps[0], prefix, n, WithMarkers(prefix, gaps[1..], n + 1));
      assert WordsOf(gaps)[1..] == WordsOf(gaps[1..]);
    }
  }

  // ----- The prefix

  lemma PrefixCharIsWord(c: char)
    requires IsPrefixChar(c)
    ensures IsWordChar(c) && !IsWhitespace(c) && Lower(c) == c
  {
  }

  /** What starts with the prefix still does. */
  lemma {:induction false} WordsStart(text: string, prefix: string, word: bool)
    requires IsPrefixText(prefix) && prefix <= text
    ensures prefix <= WordsFrom(text, word, false)
  {
    hide IsWhitespace, IsWordChar, Lower, IsPrefixChar;
    if prefix != "" {
      assert text[0] == prefix[0] && prefix[1..] <= text[1..] && prefix == [prefix[0]] + prefix[1..];
      PrefixCharIsWord(prefix[0]);
      WordsStart(text[1..], prefix[1..], true);
    }
  }

  lemma {:induction false} WordsHold(text: string, prefix: string, word: bool, gap: bool) returns (at: nat)
    requires IsPrefixText(prefix) && prefix != "" && !Nowhere(text, prefix)
    ensures Occurs(WordsFrom(text, word, gap), prefix, at)
    decreases |text|
  {
    hide IsWhitespace, IsWordChar, Lower, IsPrefixText;
    if prefix <= text {
      at := WordsHoldHere(text, prefix, word, gap);
    } else {
      var k :| 0 <= k <= |text| - |prefix| && Occurs(text, prefix, k);
      StartOccurs(text, prefix);
      assert Occurs(text[1..], prefix, k - 1);
      if IsWhitespace(text[0]) {
        at := WordsHold(text[1..], prefix, word, true);
      } else {
        var rest := WordsHold(text[1..], prefix, IsWordChar(text[0]), false);
        at := Shifted(text, prefix, word, gap, rest);
      }
    }
  }

  lemma Shifted(text: string, prefix: string, word: bool, gap: bool, rest: nat) returns (at: nat)
    requires text != "" && !IsWhitespace(text[0])
    requires Occurs(WordsFrom(text[1..], IsWordChar(text[0]), false), prefix, rest)
    ensures Occurs(WordsFrom(text, word, gap), prefix, at)
  {
    hide IsWhitespace, IsWordChar, Occurs;
    var space := if gap && word && IsWordChar(text[0]) then " " else "";
    var more := WordsFrom(text[1..], IsWordChar(text[0]), false);
    OccursAfter([Lower(text[0])], more, prefix, rest);
    OccursAfter(space, [Lower(text[0])] + more, prefix, 1 + rest);
    at := |space| + 1 + rest;
  }

  lemma WordsHoldHere(text: string, prefix: string, word: bool, gap: bool) returns (at: nat)
    requires IsPrefixText(prefix) && prefix != "" && prefix <= text
    ensures Occurs(WordsFrom(text, word, gap), prefix, at)
  {
    hide IsWhitespace, IsWordChar, Lower, IsPrefixText;
    WordsStart(text, prefix, word);
    FirstIsWord(text, prefix);
    var space := if gap && word && IsWordChar(text[0]) then " " else "";
    assert WordsFrom(text, word, gap) == space + WordsFrom(text, word, false);
    StartOccurs(WordsFrom(text, word, false), prefix);
    OccursAfter(space, WordsFrom(text, word, false), prefix, 0);
    at := |space|;
  }

  lemma FirstIsWord(text: string, prefix: string)
    requires IsPrefixText(prefix) && prefix != "" && prefix <= text
    ensures !IsWhitespace(text[0])
  {
    assert text[0] == prefix[0] && IsPrefixChar(prefix[0]);
  }

  lemma StartOccurs(text: string, needle: string)
    ensures needle <= text <==> Occurs(text, needle, 0)
  {
    if Occurs(text, needle, 0) {
      assert text[..|needle|] == needle;
    }
  }

  /** What starts the words after a word, with nothing between, starts the text. */
  lemma {:induction false} WordsCameHere(text: string, prefix: string, gap: bool)
    requires IsPrefixText(prefix) && prefix <= WordsFrom(text, true, gap) && (gap ==> prefix == "")
    ensures prefix <= LowerText(text)
  {
    hide IsWhitespace, IsWordChar, Lower, IsPrefixChar;
    if prefix != "" {
      PrefixCharIsWord(prefix[0]);
      var words := WordsFrom(text, true, false);
      assert text != "";
      if IsWhitespace(text[0]) {
        SpaceComesFirst(text[1..], prefix);
      } else {
        assert words == [Lower(text[0])] + WordsFrom(text[1..], IsWordChar(text[0]), false);
        assert words[1..] == WordsFrom(text[1..], IsWordChar(text[0]), false);
        LowerKeepsWord(text[0]);
        assert prefix[1..] <= words[1..];
        WordsCameHere(text[1..], prefix[1..], false);
        LowerFirst(text);
        assert prefix == [prefix[0]] + prefix[1..];
      }
    }
  }

  lemma LowerKeepsWord(c: char)
    ensures IsWordChar(Lower(c)) == IsWordChar(c) && IsWhitespace(Lower(c)) == IsWhitespace(c)
    ensures Lower(Lower(c)) == Lower(c)
  {
  }

  lemma LowerFirst(text: string)
    requires text != ""
    ensures LowerText(text) == [Lower(text[0])] + LowerText(text[1..])
  {
  }

  /** After a word and white space no word character comes first. */
  lemma {:induction false} SpaceComesFirst(text: string, prefix: string)
    requires IsPrefixText(prefix) && prefix != ""
    ensures !(prefix <= WordsFrom(text, true, true))
  {
    hide IsWhitespace, IsWordChar, Lower, IsPrefixChar;
    PrefixCharIsWord(prefix[0]);
    if text != "" {
      if IsWhitespace(text[0]) {
        SpaceComesFirst(text[1..], prefix);
      } else {
        LowerKeepsWord(text[0]);
        SpaceIsSpace();
        var words := WordsFrom(text, true, true);
        assert words[0] == ' ' || !IsWordChar(words[0]);
      }
    }
  }

  lemma SpaceIsSpace()
    ensures IsWhitespace(' ')
  {
  }

  /** The words hold the prefix only when the text does, in some letter case. */
  lemma {:induction false} WordsCame(text: string, prefix: string, word: bool, gap: bool, at: nat)
    requires IsPrefixText(prefix) && prefix != "" && Occurs(WordsFrom(text, word, gap), prefix, at)
    ensures !Nowhere(LowerText(text), prefix)
    decreases |text|
  {
    hide IsWhitespace, IsWordChar, Lower, IsPrefixText, Nowhere, Occurs;
    NotInNothing(prefix, at);
    LowerFirst(text);
    var words := WordsFrom(text, word, gap);
    if IsWhitespace(text[0]) {
      WordsCame(text[1..], prefix, word, true, at);
      HoldsBehind([Lower(text[0])], LowerText(text[1..]), prefix);
    } else {
      var space := if gap && word && IsWordChar(text[0]) then " " else "";
      var more := WordsFrom(text[1..], IsWordChar(text[0]), false);
      if at > |space| {
        OccursAfter(space + [Lower(text[0])], more, prefix, at - |space| - 1);
        assert words == (space + [Lower(text[0])]) + more;
        WordsCame(text[1..], prefix, IsWordChar(text[0]), false, at - |space| - 1);
        HoldsBehind([Lower(text[0])], LowerText(text[1..]), prefix);
      } else {
        NotAtSpace(space, [Lower(text[0])] + more, prefix, at);
        CameFirst(text, prefix, more);
      }
    }
  }

  lemma NotInNothing(prefix: string, at: nat)
    requires prefix != ""
    ensures !Occurs("", prefix, at)
  {
  }

  lemma HoldsBehind(a: string, b: string, prefix: string)
    requires !Nowhere(b, prefix)
    ensures !Nowhere(a + b, prefix)
  {
    var at :| 0 <= at <= |b| - |prefix| && Occurs(b, prefix, at);
    OccursAfter(a, b, prefix, at);
    OccursFits(a + b, prefix, |a| + at);
  }

  lemma NotAtSpace(space: string, rest: string, prefix: string, at: nat)
    requires IsPrefixText(prefix) && prefix != "" && (space == "" || space == " ")
    requires at <= |space| && Occurs(space + rest, prefix, at)
    ensures at == |space| && Occurs(rest, prefix, 0)
  {
    OccursInPrefixChars(space + rest, prefix, at);
    assert space == " " ==> (space + rest)[0] == ' ';
    OccursAfter(space, rest, prefix, 0);
  }

  lemma CameFirst(text: string, prefix: string, more: string)
    requires IsPrefixText(prefix) && prefix != "" && text != "" && !IsWhitespace(text[0])
    requires more == WordsFrom(text[1..], IsWordChar(text[0]), false)
    requires Occurs([Lower(text[0])] + more, prefix, 0)
    ensures !Nowhere(LowerText(text), prefix)
  {
    hide WordsFrom, IsWhitespace, IsWordChar, Lower, IsPrefixChar, Nowhere;
    StartOccurs([Lower(text[0])] + more, prefix);
    PrefixCharIsWord(prefix[0]);
    LowerKeepsWord(text[0]);
    assert prefix[1..] <= more by {
      assert ([Lower(text[0])] + more)[1..] == more;
    }
    WordsCameHere(text[1..], prefix[1..], false);
    LowerFirst(text);
    assert prefix == [prefix[0]] + prefix[1..];
    StartOccurs(LowerText(text), prefix);
    OccursFits(LowerText(text), prefix, 0);
  }

  // ----- The same markers between gaps with the same words

  ghost predicate SameWords(a: seq<string>, b: seq<string>) {
    |a| == |b| && forall k :: 0 <= k < |a| ==> WordsIn(a[k]) == WordsIn(b[k])
  }

  /** The markers from number `n` up to `m` stand in the text. */
  ghost predicate HoldsMarkers(text: string, prefix: string, n: nat, m: nat) {
    forall j :: n <= j < m ==> !Nowhere(text, Marker(prefix, j))
  }

  lemma NoPrefixInWords(text: string, prefix: string)
    requires IsPrefixText(prefix) && prefix != "" && Nowhere(WordsIn(text), prefix)
    ensures Nowhere(text, prefix)
  {
    hide WordsFrom, IsPrefixText;
    if !Nowhere(text, prefix) {
      var at := WordsHold(text, prefix, false, false);
      OccursFits(WordsIn(text), prefix, at);
    }
  }

  lemma NoPrefixFirst(text: string, prefix: string)
    requires IsPrefixText(prefix) && !Occurs(WordsIn(text), prefix, 0)
    ensures !Occurs(text, prefix, 0)
  {
    hide WordsFrom, IsPrefixText, Occurs;
    StartOccurs(text, prefix);
    StartOccurs(WordsIn(text), prefix);
    if prefix <= text {
      WordsStart(text, prefix, false);
    }
  }

  /** The first marker divides the text as it divides the words. */
  lemma DivideAtMarker(text: string, prefix: string, words: seq<string>, n: nat) returns (left: string, right: string)
    requires |words| > 1 && NoneHolds(words, prefix) && IsPrefixText(prefix) && NoQuote(prefix) && prefix != ""
    requires WordsIn(text) == WithMarkers(prefix, words, n) && !Nowhere(text, Marker(prefix, n))
    ensures text == left + (Marker(prefix, n) + right)
    ensures WordsIn(left) == words[0] && WordsIn(right) == WithMarkers(prefix, words[1..], n + 1)
  {
    hide WordsFrom, Marker, IsPrefixText, Occurs, Nowhere;
    var marker, more := Marker(prefix, n), WithMarkers(prefix, words[1..], n + 1);
    var at := PlaceOf(text, marker);
    left, right := text[..at], text[at + |marker|..];
    WordsAroundMarker(left, prefix, n, right);
    MarkerHere(WordsIn(left), marker, WordsIn(right));
    MarkersStart(prefix, words[1..], n + 1);
    MarkerPlace(words[0], prefix, n, more, n, |WordsIn(left)|);
    NoSmallerBetween(prefix, words[1..], n + 1, n);
    if |WordsIn(left)| >= |words[0]| + |marker| {
      OccursFits(more, marker, |WordsIn(left)| - |words[0]| - |marker|);
    }
    SameParts(WordsIn(left), WordsIn(right), words[0], more, marker);
  }

  lemma PlaceOf(text: string, needle: string) returns (at: nat)
    requires !Nowhere(text, needle)
    ensures at + |needle| <= |text| && text == text[..at] + (needle + text[at + |needle|..])
  {
    at :| 0 <= at <= |text| - |needle| && Occurs(text, needle, at);
    assert text[at..at + |needle|] == needle;
  }

  lemma MarkerHere(a: string, needle: string, b: string)
    ensures Occurs(a + (needle + b), needle, |a|)
  {
  }

  lemma SameParts(a: string, b: string, c: string, d: string, m: string)
    requires a + (m + b) == c + (m + d) && |a| == |c|
    ensures a == c && b == d
  {
    var text := a + (m + b);
    assert text[..|a|] == a && text[..|a|] == c;
    assert text[|a| + |m|..] == b && text[|a| + |m|..] == d;
  }

  /** The later markers stand behind the first one. */
  lemma LaterMarkers(left: string, prefix: string, n: nat, right: string, m: nat)
    requires NoQuote(prefix) && prefix != "" && Nowhere(left, prefix) && !Occurs(right, prefix, 0)
    requires HoldsMarkers(left + (Marker(prefix, n) + right), prefix, n, m)
    ensures HoldsMarkers(right, prefix, n + 1, m)
  {
    hide Marker, Occurs;
    var text := left + (Marker(prefix, n) + right);
    forall j | n + 1 <= j < m
      ensures !Nowhere(right, Marker(prefix, j))
    {
      var at :| 0 <= at <= |text| - |Marker(prefix, j)| && Occurs(text, Marker(prefix, j), at);
      MarkerPlace(left, prefix, n, right, j, at);
      OccursFits(right, Marker(prefix, j), at - |left| - |Marker(prefix, n)|);
    }
  }

  /** A text with the same words that holds every marker holds them in order, between
      gaps with the same words. */
  lemma {:induction false} SameMarkers(text: string, prefix: string, words: seq<string>, n: nat)
    returns (gaps: seq<string>)
    requires words != [] && NoneHolds(words, prefix) && IsPrefixText(prefix) && NoQuote(prefix) && prefix != ""
    requires WordsIn(text) == WithMarkers(prefix, words, n) && HoldsMarkers(text, prefix, n, n + |words| - 1)
    ensures |gaps| == |words| && text == WithMarkers(prefix, gaps, n)
    ensures forall k :: 0 <= k < |gaps| ==> WordsIn(gaps[k]) == words[k] && Nowhere(gaps[k], prefix)
    decreases |words|
  {
    hide WordsFrom, Marker, IsPrefixText, Occurs, Nowhere;
    if |words| == 1 {
      gaps := [text];
      NoPrefixInWords(text, prefix);
    } else {
      var left, right := DivideAtMarker(text, prefix, words, n);
      NoPrefixInWords(left, prefix);
      MarkersStart(prefix, words[1..], n + 1);
      NoPrefixFirst(right, prefix);
      LaterMarkers(left, prefix, n, right, n + |words| - 1);
      var more := SameMarkers(right, prefix, words[1..], n + 1);
      gaps := [left] + more;
      assert gaps[1..] == more;
    }
  }

  // ----- White space only

  lemma {:induction false} WordsOfSkeleton(text: string, word: bool, gap: bool)
    ensures WordsFrom(Skeleton(text), word, gap) == WordsFrom(text, word, gap)
  {
    SpaceIsSpace();
    hide IsWhitespace, IsWordChar, Lower;
    if text != "" {
      var c, rest := text[0], text[1..];
      if !IsWhitespace(c) {
        WordsOfSkeleton(rest, IsWordChar(c), false);
        assert ([c] + Skeleton(rest))[1..] == Skeleton(rest);
      } else if rest != "" && IsWhitespace(rest[0]) {
        WordsOfSkeleton(rest, word, gap);
        assert WordsFrom(rest, word, true) == WordsFrom(rest, word, gap);
      } else {
        WordsOfSkeleton(rest, word, true);
        assert (" " + Skeleton(rest))[1..] == Skeleton(rest);
      }
    }
  }

  /** Normalization keeps words and markers. */
  lemma NormalizedWords(db: Database, sql: string, prefix: string, m: nat)
    requires IsPrefixText(prefix) && HoldsMarkers(sql, prefix, 0, m)
    ensures WordsIn(Normalized(db, sql)) == WordsIn(sql) && HoldsMarkers(Normalized(db, sql), prefix, 0, m)
  {
    hide WordsFrom, Skeleton, Lex, NormalizedFrom, Marker, IsPrefixText, Nowhere, IsSolidText;
    var other := Normalized(db, sql);
    NormalizedSkeleton(db, sql);
    WordsOfSkeleton(sql, false, false);
    WordsOfSkeleton(other, false, false);
    forall j | 0 <= j < m
      ensures !Nowhere(other, Marker(prefix, j))
    {
      SolidMarker(prefix, j);
      if Nowhere(other, Marker(prefix, j)) {
        SolidIsKept(other, sql, Marker(prefix, j));
      }
    }
  }

  // ----- The masked text

  lemma {:induction false} MarkersAreThere(prefix: string, gaps: seq<string>, n: nat)
    requires gaps != []
    ensures HoldsMarkers(WithMarkers(prefix, gaps, n), prefix, n, n + |gaps| - 1)
    decreases |gaps|
  {
    hide Marker, Nowhere, Occurs;
    if |gaps| > 1 {
      var marker, more := Marker(prefix, n), WithMarkers(prefix, gaps[1..], n + 1);
      MarkersAreThere(prefix, gaps[1..], n + 1);
      MarkerHere(gaps[0], marker, more);
      forall j | n <= j < n + |gaps| - 1
        ensures !Nowhere(WithMarkers(prefix, gaps, n), Marker(prefix, j))
      {
        if j == n {
          OccursFits(WithMarkers(prefix, gaps, n), marker, |gaps[0]|);
        } else {
          HoldsBehind(marker, more, Marker(prefix, j));
          HoldsBehind(gaps[0], marker + more, Marker(prefix, j));
        }
      }
    }
  }

  lemma LowerPart(sql: string, low: nat, high: nat)
    requires low <= high <= |sql|
    ensures LowerText(sql[low..high]) == LowerText(sql)[low..high]
  {
  }

  lemma {:induction false} LowerGapsHoldNothing(sql: string, prefix: string, from: nat, cuts: seq<Cut>)
    requires InOrder(sql, from, cuts) && Nowhere(LowerText(sql), prefix)
    ensures forall k :: 0 <= k <= |cuts| ==> Nowhere(LowerText(GapsOf(sql, from, cuts)[k]), prefix)
    decreases cuts
  {
    hide Nowhere, Lower;
    var high := if cuts == [] then |sql| else cuts[0].start;
    LowerPart(sql, from, high);
    NowhereInside(LowerText(sql), from, high, prefix);
    if cuts == [] {
      assert sql[from..] == sql[from..high];
    } else {
      LowerGapsHoldNothing(sql, prefix, cuts[0].end, cuts[1..]);
    }
  }

  /** The words of the gaps do not hold a prefix that the text does not hold in any letter case. */
  lemma WordGapsHoldNothing(sql: string, prefix: string, cuts: seq<Cut>)
    requires InOrder(sql, 0, cuts) && Nowhere(LowerText(sql), prefix) && IsPrefixText(prefix) && prefix != ""
    ensures NoneHolds(WordsOf(GapsOf(sql, 0, cuts)), prefix)
  {
    hide Lower, IsPrefixText, WordsFrom, GapsOf, Occurs;
    var gaps := GapsOf(sql, 0, cuts);
    LowerGapsHoldNothing(sql, prefix, 0, cuts);
    forall k | 0 <= k < |gaps|
      ensures Nowhere(WordsIn(gaps[k]), prefix)
    {
      if !Nowhere(WordsIn(gaps[k]), prefix) {
        var at :| 0 <= at <= |WordsIn(gaps[k])| - |prefix| && Occurs(WordsIn(gaps[k]), prefix, at);
        WordsCame(gaps[k], prefix, false, false, at);
      }
    }
  }
}
