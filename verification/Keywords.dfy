/** Which words get the keyword case, and what they become: `case_other_keywords` of
    src/sql.rs, from the side of the text. */
module Keywords {
  import opened Chars
  import opened Lexer
  import opened Statements
  import opened Recase

  /** `text` is the lower-case `word`, in any letter case. */
  predicate Reads(text: string, word: string) {
    && |text| == |word|
    && forall k :: 0 <= k < |text| ==>
      || (text[k] == word[k] && !('A' <= word[k] <= 'Z'))
      || ('a' <= word[k] <= 'z' && text[k] as int + 32 == word[k] as int)
  }

  predicate Has(words: seq<Token>, i: int, text: string) { 0 <= i < |words| && words[i].text == text }

  predicate Says(words: seq<Token>, i: int, word: string) { 0 <= i < |words| && Reads(words[i].text, word) }

  /** A word beside no dot. */
  predicate IsFree(words: seq<Token>, i: int) {
    && 0 <= i < |words| && words[i].kind == Plain && words[i].text != ""
    && ('a' <= words[i].text[0] <= 'z' || 'A' <= words[i].text[0] <= 'Z' || words[i].text[0] == '_')
    && !Has(words, i - 1, ".") && !Has(words, i + 1, ".")
  }

  /** How many more parentheses are opened than closed in a stretch of words. */
  function Depth(words: seq<Token>, low: nat, high: nat): int {
    if high <= low then 0
    else
      Depth(words, low, high - 1)
      + if Has(words, high - 1, "(") then 1 else if Has(words, high - 1, ")") then -1 else 0
  }

  /** The parenthesis at `open` is still open before word `i`, with `inner` others in it. */
  ghost predicate IsOpen(words: seq<Token>, open: nat, i: nat, inner: nat) {
    open < i && Has(words, open, "(") && Depth(words, open + 1, i) == inner && StaysOpen(words, open + 1, i)
  }

  ghost predicate StaysOpen(words: seq<Token>, from: nat, to: nat) {
    forall k :: from <= k <= to ==> Depth(words, from, k) >= 0
  }

  ghost predicate IsCastAt(words: seq<Token>, open: nat) {
    Says(words, open - 1, "cast") || Says(words, open - 1, "try_cast")
  }

  /** Right inside the parenthesis, between it and word `i`, there is an AS. */
  ghost predicate HasAs(words: seq<Token>, open: nat, i: nat) {
    exists j :: open < j < i && IsOpen(words, open, j, 0) && IsFree(words, j) && Says(words, j, "as")
  }

  /** The innermost parenthesis around word `i` is that of a cast, with an AS before `i`. */
  ghost predicate IsInCastType(words: seq<Token>, i: nat) {
    exists open :: 0 <= open < i && IsOpen(words, open, i, 0) && IsCastAt(words, open) && HasAs(words, open, i)
  }

  ghost predicate SaysOneOf(words: seq<Token>, i: nat, names: set<string>) {
    exists name :: name in names && Says(words, i, name)
  }

  /** A function before its parenthesis, a literal prefix before its string, a type in a
      cast, or NULLS FIRST and NULLS LAST. */
  ghost predicate ShouldChange(words: seq<Token>, i: nat) {
    && IsFree(words, i)
    && (|| (Has(words, i + 1, "(") && SaysOneOf(words, i, FUNCTIONS))
        || (i + 1 < |words| && words[i + 1].kind == String
            && SaysOneOf(words, i, {"date", "time", "interval", "timestamp", "timestamp_ltz", "timestamp_ntz"}))
        || (IsInCastType(words, i) && SaysOneOf(words, i, TYPES))
        || (Says(words, i, "nulls") && (Says(words, i + 1, "first") || Says(words, i + 1, "last")))
        || ((Says(words, i, "first") || Says(words, i, "last")) && Says(words, i - 1, "nulls")))
  }

  /** Every ASCII letter is in the wanted case, and all else is as before. */
  predicate IsCased(text: string, cased: string, letters: KeywordCase) {
    && |cased| == |text|
    && forall k :: 0 <= k < |text| ==>
      if letters == Uppercase && 'a' <= text[k] <= 'z' then cased[k] as int == text[k] as int - 32
      else if letters == Lowercase && 'A' <= text[k] <= 'Z' then cased[k] as int == text[k] as int + 32
      else cased[k] == text[k]
  }

  // ----- The rules, word by word

  lemma ReadsIsLower(text: string, word: string)
    ensures Reads(text, word) <==> LowerText(text) == word
  {
    if |text| == |word| {
      forall k | 0 <= k < |text|
        ensures Lower(text[k]) == word[k] <==>
                  || (text[k] == word[k] && !('A' <= word[k] <= 'Z'))
                  || ('a' <= word[k] <= 'z' && text[k] as int + 32 == word[k] as int)
      {
        LowerIs(text[k], word[k]);
      }
      assert LowerText(text) == word <==> forall k :: 0 <= k < |text| ==> LowerText(text)[k] == word[k];
    }
  }

  lemma LowerIs(c: char, d: char)
    ensures Lower(c) == d <==>
              || (c == d && !('A' <= d <= 'Z'))
              || ('a' <= d <= 'z' && c as int + 32 == d as int)
  {
  }

  lemma SaysIsLower(words: seq<Token>, i: int, word: string)
    requires word != ""
    ensures Says(words, i, word) <==> LowerAt(words, i) == word
  {
    ReadsIsLower(TextAt(words, i), word);
  }

  lemma ParenText(words: seq<Token>, i: int)
    ensures Has(words, i, "(") <==> LowerAt(words, i) == "("
    ensures Has(words, i, ")") <==> LowerAt(words, i) == ")"
  {
    var text := TextAt(words, i);
    assert |LowerText(text)| == |text|;
    assert |text| == 1 ==> LowerText(text)[0] == Lower(text[0]) && text == [text[0]];
  }

  lemma FreeIsMayChange(words: seq<Token>, i: nat)
    requires i < |words|
    ensures IsFree(words, i) <==> MayChange(words, i)
  {
    ParenText(words, i);
  }

  // ----- The stack of open parentheses

  /** The places of the parentheses on the stack. */
  ghost function Opens(words: seq<Token>, i: nat): seq<nat> {
    if i == 0 then []
    else
      var before := Opens(words, i - 1);
      if Has(words, i - 1, "(") then before + [i - 1]
      else if Has(words, i - 1, ")") && before != [] then before[..|before| - 1] else before
  }

  lemma {:induction false} OpensAreOpen(words: seq<Token>, i: nat)
    ensures forall s :: 0 <= s < |Opens(words, i)| ==> IsOpen(words, Opens(words, i)[s], i, |Opens(words, i)| - 1 - s)
  {
    if i > 0 {
      OpensAreOpen(words, i - 1);
    }
  }

  lemma {:induction false} OpenIsOnStack(words: seq<Token>, open: nat, i: nat, inner: nat)
    requires IsOpen(words, open, i, inner)
    ensures inner < |Opens(words, i)| && Opens(words, i)[|Opens(words, i)| - 1 - inner] == open
  {
    if open < i - 1 {
      var less: int := Depth(words, open + 1, i - 1);
      assert less >= 0;
      OpenIsOnStack(words, open, i - 1, less);
    }
  }

  ghost predicate IsRecorded(words: seq<Token>, i: nat, open: nat, paren: Paren) {
    && (paren.cast <==> IsCastAt(words, open))
    && (paren.typed <==> IsCastAt(words, open) && HasAs(words, open, i))
  }

  lemma CastIs(words: seq<Token>, open: nat)
    requires open < |words|
    ensures IsCastAt(words, open) <==> open > 0 && IsCast(LowerAt(words, open - 1))
  {
    SaysIsLower(words, open - 1, "cast");
    SaysIsLower(words, open - 1, "try_cast");
  }

  lemma AsNext(words: seq<Token>, open: nat, i: nat)
    requires open < i
    ensures HasAs(words, open, i + 1) <==>
              HasAs(words, open, i) || (IsOpen(words, open, i, 0) && IsFree(words, i) && Says(words, i, "as"))
  {
    hide IsOpen, IsFree, Says;
  }

  lemma {:induction false} StackIsRight(words: seq<Token>, i: nat)
    requires i <= |words|
    ensures |ParensBefore(words, i)| == |Opens(words, i)|
    ensures forall s :: 0 <= s < |Opens(words, i)| ==>
              IsRecorded(words, i, Opens(words, i)[s], ParensBefore(words, i)[s])
  {
    if i > 0 {
      hide IsCastAt, HasAs, Says, IsFree, MayChange, Has, LowerAt, IsOpen, IsCast;
      var w := i - 1;
      StackIsRight(words, w);
      OpensAreOpen(words, w);
      OpensAreOpen(words, i);
      ParenText(words, w);
      FreeIsMayChange(words, w);
      SaysIsLower(words, w, "as");
      CastIs(words, w);
      forall s | 0 <= s < |Opens(words, i)|
        ensures IsRecorded(words, i, Opens(words, i)[s], ParensBefore(words, i)[s])
      {
        RecordedNext(words, w, s);
      }
    }
  }

  lemma RecordedNext(words: seq<Token>, w: nat, s: nat)
    requires w < |words| && s < |Opens(words, w + 1)| == |ParensBefore(words, w + 1)|
    requires |ParensBefore(words, w)| == |Opens(words, w)|
    requires forall s :: 0 <= s < |Opens(words, w)| ==>
               IsRecorded(words, w, Opens(words, w)[s], ParensBefore(words, w)[s])
    ensures IsRecorded(words, w + 1, Opens(words, w + 1)[s], ParensBefore(words, w + 1)[s])
  {
    hide IsCastAt, Says, IsFree, MayChange, LowerAt, IsCast, Depth;
    var open := Opens(words, w + 1)[s];
    OpensAreOpen(words, w);
    ParenText(words, w);
    FreeIsMayChange(words, w);
    SaysIsLower(words, w, "as");
    CastIs(words, w);
    if open < w {
      AsNext(words, open, w);
    }
  }

  lemma CastTypeIs(words: seq<Token>, i: nat)
    requires i <= |words|
    ensures IsInCastType(words, i) <==> InCastType(ParensBefore(words, i))
  {
    hide IsCastAt, HasAs, ParensBefore, Depth;
    StackIsRight(words, i);
    OpensAreOpen(words, i);
    var opens := Opens(words, i);
    if opens != [] {
      assert IsOpen(words, opens[|opens| - 1], i, 0);
    }
    if open: nat :| open < i && IsOpen(words, open, i, 0) {
      OpenIsOnStack(words, open, i, 0);
    }
    forall open: nat | open < i && IsOpen(words, open, i, 0)
      ensures opens != [] && opens[|opens| - 1] == open
    {
      OpenIsOnStack(words, open, i, 0);
    }
  }

  lemma OneOfIs(words: seq<Token>, i: nat, names: set<string>)
    requires i < |words|
    ensures SaysOneOf(words, i, names) <==> LowerAt(words, i) in names
  {
    forall name
      ensures Says(words, i, name) <==> LowerAt(words, i) == name
    {
      ReadsIsLower(TextAt(words, i), name);
    }
  }

  lemma FirstOrLastIs(words: seq<Token>, i: int)
    ensures IsFirstOrLast(LowerAt(words, i)) <==> Says(words, i, "first") || Says(words, i, "last")
    ensures LowerText(TextAt(words, i)) == LowerAt(words, i)
  {
    SaysIsLower(words, i, "first");
    SaysIsLower(words, i, "last");
  }

  /** The rules of the loop are those of the text. */
  lemma KeywordIs(words: seq<Token>, i: nat)
    requires i < |words|
    ensures ShouldChange(words, i) <==> IsKeyword(words, i)
  {
    hide IsInCastType, InCastType, ParensBefore, SaysOneOf, IsFree, MayChange, Says, LowerAt, IsFirstOrLast, LowerText;
    FreeIsMayChange(words, i);
    CastTypeIs(words, i);
    OneOfIs(words, i, FUNCTIONS);
    OneOfIs(words, i, LITERAL_PREFIXES);
    OneOfIs(words, i, TYPES);
    SaysIsLower(words, i, "nulls");
    SaysIsLower(words, i - 1, "nulls");
    FirstOrLastIs(words, i - 1);
    FirstOrLastIs(words, i);
    FirstOrLastIs(words, i + 1);
  }

  // ----- The whole text

  /** Blank tokens are as they were; a word changes only if it should, and then in its letter case. */
  lemma KeywordsAreRight(db: Database, sql: string, letters: KeywordCase, k: nat)
    requires k < |Tokens(db, sql)|
    ensures var (tokens, recased) := (Tokens(db, sql), Tokens(db, Recased(db, sql, letters)));
            && |recased| == |tokens| && recased[k].kind == tokens[k].kind
            && if !IsBlank(tokens[k].text) && ShouldChange(Words(tokens), WordNumber(tokens, k)) then
                 IsCased(tokens[k].text, recased[k].text, letters)
               else recased[k].text == tokens[k].text
  {
    hide Lex, Words, WordNumber, IsKeyword, ShouldChange, IsBlank, Cased, IsCased;
    var tokens := Tokens(db, sql);
    RecaseKeepsRanges(db, sql, letters);
    if !IsBlank(tokens[k].text) {
      WordAndIndex(tokens, k);
      KeywordIs(Words(tokens), WordNumber(tokens, k));
      CasedIs(tokens[k].text, letters);
    }
  }

  lemma CasedIs(text: string, letters: KeywordCase)
    ensures IsCased(text, Cased(text, letters), letters)
  {
  }

  /** The words are the tokens that are not blank, in order. */
  lemma {:induction false} WordsInOrder(tokens: seq<Token>, j: nat, k: nat)
    requires j < k < |tokens| && !IsBlank(tokens[j].text) && !IsBlank(tokens[k].text)
    ensures Words(tokens)[WordNumber(tokens, j)] == tokens[j]
    ensures WordNumber(tokens, j) < WordNumber(tokens, k)
    ensures WordNumber(tokens, k) == WordNumber(tokens, j) + 1 <==> forall m :: j < m < k ==> IsBlank(tokens[m].text)
  {
    hide IsBlank;
    if j > 0 {
      WordsInOrder(tokens[1..], j - 1, k - 1);
      assert forall m :: j < m < k ==> tokens[m] == tokens[1..][m - 1];
    } else {
      NoWords(tokens[1..], k - 1);
      assert forall m :: 0 < m < k ==> tokens[m] == tokens[1..][m - 1];
    }
  }

  lemma {:induction false} NoWords(tokens: seq<Token>, k: nat)
    requires k <= |tokens|
    ensures WordNumber(tokens, k) == 0 <==> forall m :: 0 <= m < k ==> IsBlank(tokens[m].text)
  {
    hide IsBlank;
    if k > 0 {
      NoWords(tokens[1..], k - 1);
      assert forall m :: 0 < m < k ==> tokens[m] == tokens[1..][m - 1];
    }
  }
}
