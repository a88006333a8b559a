/** Keyword case after layout, `case_other_keywords` of src/sql.rs. */
module Recase {
  import opened Chars
  import opened Lexer
  import opened Statements
  import opened TokenEquivalence
  import opened CaseBlind

  datatype KeywordCase = Uppercase | Lowercase

  // The lower-case names in the tables of built-in functions and types. They
  // have no value here, so everything proved holds for every table.
  const FUNCTIONS: set<string>
  const TYPES: set<string>

  const LITERAL_PREFIXES := {"date", "time", "interval", "timestamp", "timestamp_ltz", "timestamp_ntz"}

  /** What the stack holds of a parenthesis: `cast` when the word before it is a cast, and
      `typed` once its AS was seen. */
  datatype Paren = Paren(cast: bool, typed: bool)

  predicate IsCast(word: string) { word == "cast" || word == "try_cast" }

  predicate IsFirstOrLast(word: string) { word == "first" || word == "last" }

  function Words(tokens: seq<Token>): seq<Token> {
    if tokens == [] then []
    else (if IsBlank(tokens[0].text) then [] else [tokens[0]]) + Words(tokens[1..])
  }

  function TextAt(words: seq<Token>, i: int): string {
    if 0 <= i < |words| then words[i].text else ""
  }

  function LowerAt(words: seq<Token>, i: int): string { LowerText(TextAt(words, i)) }

  predicate IsStringAt(words: seq<Token>, i: int) { 0 <= i < |words| && words[i].kind == String }

  predicate IsWordAt(words: seq<Token>, i: int) {
    0 <= i < |words| && words[i].kind == Plain && words[i].text != ""
    && (IsAsciiAlphabetic(words[i].text[0]) || words[i].text[0] == '_')
  }

  predicate IsParen(words: seq<Token>, i: nat) { LowerAt(words, i) == "(" || LowerAt(words, i) == ")" }

  /** A word that is not next to a dot. */
  predicate MayChange(words: seq<Token>, i: nat) {
    !IsParen(words, i) && IsWordAt(words, i) && TextAt(words, i + 1) != "." && TextAt(words, i - 1) != "."
  }

  function NextParens(words: seq<Token>, i: nat, parens: seq<Paren>): seq<Paren> {
    if LowerAt(words, i) == "(" then
      parens + [Paren(i > 0 && IsCast(LowerAt(words, i - 1)), false)]
    else if LowerAt(words, i) == ")" then
      if parens == [] then [] else parens[..|parens| - 1]
    else if MayChange(words, i) && LowerAt(words, i) == "as" && parens != [] && parens[|parens| - 1].cast then
      parens[|parens| - 1 := Paren(true, true)]
    else parens
  }

  /** The open parentheses before word `i`. */
  function ParensBefore(words: seq<Token>, i: nat): seq<Paren> {
    if i == 0 then [] else NextParens(words, i - 1, ParensBefore(words, i - 1))
  }

  predicate InCastType(parens: seq<Paren>) {
    parens != [] && parens[|parens| - 1].cast && parens[|parens| - 1].typed
  }

  /** Whether `word`, in lower case, is a keyword between `previous` and `next`. */
  predicate KeywordRule(word: string, previous: string, next: string, nextIsString: bool, inCastType: bool) {
    || (next == "(" && word in FUNCTIONS)
    || (nextIsString && word in LITERAL_PREFIXES)
    || (inCastType && word in TYPES)
    || (word == "nulls" && IsFirstOrLast(LowerText(next)))
    || (IsFirstOrLast(word) && LowerText(previous) == "nulls")
  }

  predicate IsKeywordIn(words: seq<Token>, i: nat, parens: seq<Paren>) {
    && MayChange(words, i)
    && KeywordRule(LowerAt(words, i), TextAt(words, i - 1), TextAt(words, i + 1), IsStringAt(words, i + 1),
        InCastType(parens))
  }

  predicate IsKeyword(words: seq<Token>, i: nat) { IsKeywordIn(words, i, ParensBefore(words, i)) }

  function Cased(text: string, letters: KeywordCase): string {
    if letters == Uppercase then UpperText(LowerText(text)) else LowerText(text)
  }

  /** Word `i` with the keywords among the first `limit` words in the new case. */
  function CasedToken(words: seq<Token>, i: nat, limit: nat, letters: KeywordCase): Token
    requires i < |words|
  {
    if i < limit && IsKeyword(words, i) then Token(Cased(words[i].text, letters), words[i].kind) else words[i]
  }

  /** How many of the first `k` tokens are words. */
  function WordNumber(tokens: seq<Token>, k: nat): (i: nat)
    requires k <= |tokens|
    ensures i <= |Words(tokens)| && (k < |tokens| && !IsBlank(tokens[k].text) ==> i < |Words(tokens)|)
  {
    if k == 0 then 0
    else (if IsBlank(tokens[0].text) then 0 else 1) + WordNumber(tokens[1..], k - 1)
  }

  /** The place of word `i` among the tokens. */
  function WordIndex(tokens: seq<Token>, i: nat): (k: nat)
    requires i < |Words(tokens)|
    ensures k < |tokens| && !IsBlank(tokens[k].text) && Words(tokens)[i] == tokens[k]
  {
    if IsBlank(tokens[0].text) then 1 + WordIndex(tokens[1..], i)
    else if i == 0 then 0
    else 1 + WordIndex(tokens[1..], i - 1)
  }

  function CasedTokens(tokens: seq<Token>, limit: nat, letters: KeywordCase): (cased: seq<Token>)
    ensures |cased| == |tokens|
  {
    seq(|tokens|, k requires 0 <= k < |tokens| =>
      if IsBlank(tokens[k].text) then tokens[k] else CasedToken(Words(tokens), WordNumber(tokens, k), limit, letters))
  }

  function RecasedTokens(db: Database, sql: string, letters: KeywordCase): seq<Token> {
    var tokens := Tokens(db, sql);
    CasedTokens(tokens, |Words(tokens)|, letters)
  }

  function Recased(db: Database, sql: string, letters: KeywordCase): string {
    Flatten(RecasedTokens(db, sql, letters))
  }

  // ----- Recasing keeps the tokens

  lemma CasedLetters(text: string, letters: KeywordCase)
    ensures SameLetters(text, Cased(text, letters))
    ensures Cased(Cased(text, letters), letters) == Cased(text, letters)
    ensures LowerText(Cased(text, letters)) == LowerText(text)
  {
  }

  lemma {:induction false} WordAndIndex(tokens: seq<Token>, k: nat)
    requires k < |tokens| && !IsBlank(tokens[k].text)
    ensures Words(tokens)[WordNumber(tokens, k)] == tokens[k] && WordIndex(tokens, WordNumber(tokens, k)) == k
  {
    hide IsBlank;
    if k > 0 {
      WordAndIndex(tokens[1..], k - 1);
    }
  }

  lemma {:induction false} IndexAndWord(tokens: seq<Token>, i: nat)
    requires i < |Words(tokens)|
    ensures WordNumber(tokens, WordIndex(tokens, i)) == i
    decreases tokens
  {
    hide IsBlank;
    if IsBlank(tokens[0].text) {
      IndexAndWord(tokens[1..], i);
    } else if i > 0 {
      IndexAndWord(tokens[1..], i - 1);
    }
  }

  lemma CasedTokenFacts(words: seq<Token>, i: nat, limit: nat, letters: KeywordCase)
    requires i < |words| && !IsBlank(words[i].text)
    ensures var t := CasedToken(words, i, limit, letters);
            && SameShape(words[i], t) && !IsBlank(t.text) && (t.kind == Comment ==> t == words[i])
            && (t != words[i] ==> MayChange(words, i) && IsWordChar(words[i].text[0]))
  {
    hide ParensBefore, Cased;
    CasedLetters(words[i].text, letters);
    var t := CasedToken(words, i, limit, letters);
    if t != words[i] {
      assert Lower(t.text[0]) == Lower(words[i].text[0]);
      assert !IsWhitespace(t.text[0]);
    }
  }

  /** What recasing keeps of each token. */
  ghost predicate KeepsToken(a: Token, b: Token) {
    && SameShape(a, b)
    && IsBlank(a.text) == IsBlank(b.text)
    && (IsBlank(a.text) || a.kind == Comment ==> a == b)
  }

  ghost predicate KeepsTokens(a: seq<Token>, b: seq<Token>) {
    |a| == |b| && forall k :: 0 <= k < |a| ==> KeepsToken(a[k], b[k])
  }

  lemma CasedKeepsTokens(tokens: seq<Token>, limit: nat, letters: KeywordCase)
    ensures KeepsTokens(tokens, CasedTokens(tokens, limit, letters))
  {
    hide CasedToken, IsBlank, Words, WordNumber;
    var cased := CasedTokens(tokens, limit, letters);
    forall k | 0 <= k < |tokens|
      ensures KeepsToken(tokens[k], cased[k])
    {
      if IsBlank(tokens[k].text) {
        assert cased[k] == tokens[k];
      } else {
        WordAndIndex(tokens, k);
        CasedTokenFacts(Words(tokens), WordNumber(tokens, k), limit, letters);
      }
    }
  }

  lemma ShapesOfKept(a: seq<Token>, b: seq<Token>)
    requires KeepsTokens(a, b)
    ensures SameShapes(a, b)
  {
  }

  /** For every text and dialect the recased text has the same ranges and kinds. */
  lemma RecaseKeepsRanges(db: Database, sql: string, letters: KeywordCase)
    ensures Tokens(db, Recased(db, sql, letters)) == RecasedTokens(db, sql, letters)
    ensures Spans(Tokens(db, Recased(db, sql, letters)), 0) == Spans(Tokens(db, sql), 0)
  {
    hide Lex, CasedTokens, Spans, KeepsToken;
    var tokens := Tokens(db, sql);
    CasedKeepsTokens(tokens, |Words(tokens)|, letters);
    ShapesOfKept(tokens, RecasedTokens(db, sql, letters));
    RelexSameShapes(db, false, sql, RecasedTokens(db, sql, letters));
    SameShapesSameSpans(tokens, RecasedTokens(db, sql, letters), 0);
  }

  // ----- Recased text always passes the check

  /** Significant tokens that differ only in their text, which is that of the words. */
  ghost predicate SameButText(a: seq<Significant>, b: seq<Significant>, v: seq<Token>, w: seq<Token>) {
    && |a| == |b| == |v| == |w|
    && forall i :: 0 <= i < |a| ==>
         a[i].text == v[i].text && a[i].kind == v[i].kind && b[i] == a[i].(text := w[i].text)
  }

  lemma KeptKind(a: Token, b: Token)
    requires KeepsToken(a, b)
    ensures a.kind == b.kind
  {
  }

  lemma ConsButText(x: Significant, a: seq<Significant>, b: seq<Significant>, t: Token, u: Token, v: seq<Token>,
                    w: seq<Token>)
    requires SameButText(a, b, v, w) && x.text == t.text && x.kind == t.kind
    ensures SameButText([x] + a, [x.(text := u.text)] + b, [t] + v, [u] + w)
  {
  }

  lemma {:induction false} KeptSignificant(a: seq<Token>, b: seq<Token>, space: bool, lineBreak: bool)
    requires KeepsTokens(a, b)
    ensures SameButText(SignificantFrom(a, space, lineBreak), SignificantFrom(b, space, lineBreak), Words(a), Words(b))
  {
    if a != [] {
      hide IsBlank, HasLineBreak, SameShape, SameButText;
      var t := a[0];
      assert KeepsToken(t, b[0]);
      KeptKind(t, b[0]);
      var lines := lineBreak || HasLineBreak(t.text);
      if IsBlank(t.text) {
        KeptSignificant(a[1..], b[1..], true, lines);
      } else {
        var next := t.kind == Comment && lines;
        KeptSignificant(a[1..], b[1..], false, next);
        ConsButText(Significant(t.kind, t.text, space, lineBreak), SignificantFrom(a[1..], false, next),
                    SignificantFrom(b[1..], false, next), t, b[0], Words(a[1..]), Words(b[1..]));
      }
    }
  }

  /** The recased text always passes `same_tokens_for` against the text it came from. */
  lemma RecasePassesCheck(db: Database, sql: string, letters: KeywordCase)
    ensures SameTokens(db, sql, Recased(db, sql, letters))
  {
    hide Lex, Words, CasedTokens, SignificantFrom;
    var tokens, cased := Tokens(db, sql), RecasedTokens(db, sql, letters);
    var a, b := SignificantTokens(db, sql), SignificantTokens(db, Recased(db, sql, letters));
    RecaseKeepsRanges(db, sql, letters);
    CasedKeepsTokens(tokens, |Words(tokens)|, letters);
    KeptSignificant(tokens, cased, false, false);
    forall i | 0 <= i < |a|
      ensures SameToken(db, a, b, i)
    {
      WordsOfCased(tokens, |Words(tokens)|, letters, i);
      RecasedTokenIsSame(db, a, b, Words(tokens), Words(cased), i, letters);
    }
  }

  lemma RecasedTokenIsSame(db: Database, a: seq<Significant>, b: seq<Significant>, words: seq<Token>,
                           cased: seq<Token>, i: nat, letters: KeywordCase)
    requires SameButText(a, b, words, cased) && i < |a|
    requires cased[i] == CasedToken(words, i, |words|, letters) && !IsBlank(words[i].text)
    ensures SameToken(db, a, b, i)
  {
    hide CasedToken, ContinuesString, KeepsSpace, SameLetters, IsParen;
    CasedTokenFacts(words, i, |words|, letters);
  }

  /** The words after recasing. */
  lemma WordsOfCased(tokens: seq<Token>, limit: nat, letters: KeywordCase, i: nat)
    requires i < |Words(tokens)|
    ensures var cased := Words(CasedTokens(tokens, limit, letters));
            && |cased| == |Words(tokens)| && cased[i] == CasedToken(Words(tokens), i, limit, letters)
            && !IsBlank(Words(tokens)[i].text)
  {
    hide CasedToken, Words, WordNumber, WordIndex, IsBlank, KeepsToken;
    var cased := CasedTokens(tokens, limit, letters);
    CasedKeepsTokens(tokens, limit, letters);
    KeptWordIndex(tokens, cased, i);
    IndexAndWord(tokens, i);
  }

  lemma {:induction false} KeptWordIndex(a: seq<Token>, b: seq<Token>, i: nat)
    requires KeepsTokens(a, b)
    ensures |Words(a)| == |Words(b)|
    ensures i < |Words(a)| ==> WordIndex(a, i) == WordIndex(b, i)
    decreases a
  {
    if a != [] {
      hide IsBlank, SameShape;
      assert KeepsToken(a[0], b[0]);
      KeptWordIndex(a[1..], b[1..], if IsBlank(a[0].text) || i == 0 then i else i - 1);
    }
  }

  // ----- Recasing twice is recasing once

  /** The two lists look the same to the keyword rules. */
  ghost predicate SameView(a: seq<Token>, b: seq<Token>) {
    |a| == |b| && forall i :: 0 <= i < |a| ==> a[i].kind == b[i].kind && LowerText(a[i].text) == LowerText(b[i].text)
  }

  lemma SameViewAt(a: seq<Token>, b: seq<Token>, i: int)
    requires SameView(a, b)
    ensures LowerAt(a, i) == LowerAt(b, i) && IsWordAt(a, i) == IsWordAt(b, i) && IsStringAt(a, i) == IsStringAt(b, i)
    ensures TextAt(a, i) == "." <==> TextAt(b, i) == "."
    ensures TextAt(a, i) == "(" <==> TextAt(b, i) == "("
  {
    if 0 <= i < |a| {
      var x, y := a[i].text, b[i].text;
      assert |LowerText(x)| == |LowerText(y)|;
      if x != "" {
        assert LowerText(x)[0] == LowerText(y)[0];
      }
    }
  }

  lemma SameViewRule(a: seq<Token>, b: seq<Token>, i: nat, inCastType: bool)
    requires SameView(a, b)
    ensures MayChange(a, i) == MayChange(b, i)
    ensures KeywordRule(LowerAt(a, i), TextAt(a, i - 1), TextAt(a, i + 1), IsStringAt(a, i + 1), inCastType)
         == KeywordRule(LowerAt(b, i), TextAt(b, i - 1), TextAt(b, i + 1), IsStringAt(b, i + 1), inCastType)
  {
    hide IsWordAt, IsStringAt, TextAt, SameView, LowerText, IsFirstOrLast;
    SameViewAt(a, b, i - 1);
    SameViewAt(a, b, i);
    SameViewAt(a, b, i + 1);
    assert LowerText(TextAt(a, i - 1)) == LowerAt(a, i - 1) == LowerAt(b, i - 1) == LowerText(TextAt(b, i - 1));
    assert LowerText(TextAt(a, i + 1)) == LowerAt(a, i + 1) == LowerAt(b, i + 1) == LowerText(TextAt(b, i + 1));
  }

  lemma {:induction false} SameViewKeywords(a: seq<Token>, b: seq<Token>, i: nat)
    requires SameView(a, b)
    ensures MayChange(a, i) == MayChange(b, i)
    ensures ParensBefore(a, i) == ParensBefore(b, i)
    ensures IsKeyword(a, i) == IsKeyword(b, i)
  {
    hide LowerAt, IsWordAt, IsStringAt, TextAt, SameView, KeywordRule, MayChange;
    SameViewRule(a, b, i, InCastType(ParensBefore(a, i)));
    SameViewAt(a, b, i - 2);
    SameViewAt(a, b, i - 1);
    SameViewAt(a, b, i);
    SameViewAt(a, b, i + 1);
    if i > 0 {
      SameViewKeywords(a, b, i - 1);
      assert i - 1 + 1 == i && i - 1 - 1 == i - 2;
    }
  }

  lemma CasedFixed(tokens: seq<Token>, letters: KeywordCase)
    requires forall i :: 0 <= i < |Words(tokens)| ==>
             CasedToken(Words(tokens), i, |Words(tokens)|, letters) == Words(tokens)[i]
    ensures CasedTokens(tokens, |Words(tokens)|, letters) == tokens
  {
    hide CasedToken, Words, WordNumber, IsBlank;
    forall k | 0 <= k < |tokens|
      ensures CasedTokens(tokens, |Words(tokens)|, letters)[k] == tokens[k]
    {
      if !IsBlank(tokens[k].text) {
        WordAndIndex(tokens, k);
      }
    }
  }

  lemma RecaseTwice(db: Database, sql: string, letters: KeywordCase)
    ensures Recased(db, Recased(db, sql, letters), letters) == Recased(db, sql, letters)
  {
    hide Lex, Words, CasedTokens, IsKeyword, Cased;
    var tokens, after := Tokens(db, sql), RecasedTokens(db, sql, letters);
    var words, cased := Words(tokens), Words(after);
    RecaseKeepsRanges(db, sql, letters);
    CasedKeepsTokens(tokens, |words|, letters);
    KeptWordIndex(tokens, after, 0);
    forall i | 0 <= i < |words|
      ensures cased[i] == CasedToken(words, i, |words|, letters)
      ensures cased[i].kind == words[i].kind && LowerText(cased[i].text) == LowerText(words[i].text)
    {
      WordsOfCased(tokens, |words|, letters, i);
      CasedLetters(words[i].text, letters);
    }
    forall i | 0 <= i < |cased|
      ensures CasedToken(cased, i, |cased|, letters) == cased[i]
    {
      SameViewKeywords(words, cased, i);
      CasedLetters(words[i].text, letters);
    }
    CasedFixed(after, letters);
  }

  // ----- The loop

  /** The tokens that the loop calls words. */
  function WordSpans(sql: string, spans: seq<Span>): seq<Span>
    requires forall i :: 0 <= i < |spans| ==> spans[i].start <= spans[i].end <= |sql|
  {
    if spans == [] then []
    else (if IsBlank(sql[spans[0].start..spans[0].end]) then [] else [spans[0]]) + WordSpans(sql, spans[1..])
  }

  lemma {:induction false} WordSpansMatch(tokens: seq<Token>, spans: seq<Span>, sql: string, i: nat)
    requires |spans| == |tokens|
    requires forall k :: 0 <= k < |spans| ==> spans[k].start <= spans[k].end <= |sql|
    requires forall k :: 0 <= k < |spans| ==> sql[spans[k].start..spans[k].end] == tokens[k].text
    ensures |WordSpans(sql, spans)| == |Words(tokens)|
    ensures i < |Words(tokens)| ==> WordSpans(sql, spans)[i] == spans[WordIndex(tokens, i)]
    decreases tokens
  {
    hide IsBlank;
    if tokens != [] {
      assert sql[spans[0].start..spans[0].end] == tokens[0].text;
      WordSpansMatch(tokens[1..], spans[1..], sql, if IsBlank(tokens[0].text) || i == 0 then i else i - 1);
    }
  }

  /** One more word recased changes one token. */
  lemma CasedStep(tokens: seq<Token>, i: nat, letters: KeywordCase)
    requires i < |Words(tokens)|
    ensures var k := WordIndex(tokens, i);
            && CasedTokens(tokens, i, letters)[k] == Words(tokens)[i]
            && CasedTokens(tokens, i + 1, letters)
            == CasedTokens(tokens, i, letters)[k := CasedToken(Words(tokens), i, i + 1, letters)]
  {
    hide IsKeyword, Cased, Words, WordNumber, WordIndex, IsBlank;
    var k := WordIndex(tokens, i);
    IndexAndWord(tokens, i);
    forall j | 0 <= j < |tokens| && j != k
      ensures CasedTokens(tokens, i + 1, letters)[j] == CasedTokens(tokens, i, letters)[j]
    {
      if !IsBlank(tokens[j].text) {
        WordAndIndex(tokens, j);
      }
    }
  }

  lemma CasedNone(tokens: seq<Token>, letters: KeywordCase)
    ensures CasedTokens(tokens, 0, letters) == tokens
  {
    hide IsKeyword, Cased, Words, WordNumber, IsBlank;
    forall j | 0 <= j < |tokens|
      ensures CasedTokens(tokens, 0, letters)[j] == tokens[j]
    {
      if !IsBlank(tokens[j].text) {
        WordAndIndex(tokens, j);
      }
    }
  }

  /** Replacing the text of one token. */
  lemma {:induction false} FlattenUpdate(tokens: seq<Token>, k: nat, t: Token)
    requires k < |tokens|
    ensures var start := |Flatten(tokens[..k])|;
            && start + |tokens[k].text| <= |Flatten(tokens)|
            && Flatten(tokens[k := t])
                == Flatten(tokens)[..start] + t.text + Flatten(tokens)[start + |tokens[k].text|..]
  {
    var a, b := tokens[..k], tokens[k + 1..];
    assert tokens == a + ([tokens[k]] + b) && tokens[k := t] == a + ([t] + b);
    FlattenAppend(a, [tokens[k]] + b);
    FlattenAppend(a, [t] + b);
    assert Flatten([tokens[k]] + b) == tokens[k].text + Flatten(b);
    assert Flatten([t] + b) == t.text + Flatten(b);
  }

  /** The words of the loop are ranges of `sql` that hold the words of `tokens`. */
  ghost predicate AreWords(sql: string, spans: seq<Span>, words: seq<Token>) {
    && |spans| == |words|
    && forall i :: 0 <= i < |spans| ==>
         && spans[i].start <= spans[i].end <= |sql|
         && sql[spans[i].start..spans[i].end] == words[i].text && spans[i].kind == words[i].kind
  }

  lemma WordSpansAreWords(db: Database, sql: string)
    ensures var spans := Spans(Tokens(db, sql), 0);
            && (forall k :: 0 <= k < |spans| ==> spans[k].start <= spans[k].end <= |sql|)
            && AreWords(sql, WordSpans(sql, spans), Words(Tokens(db, sql)))
  {
    hide Lex, Words, WordIndex, Spans, WordSpans;
    var tokens, spans := Tokens(db, sql), Spans(Tokens(db, sql), 0);
    forall k | 0 <= k < |spans|
      ensures spans[k].start <= spans[k].end <= |sql|
      ensures sql[spans[k].start..spans[k].end] == tokens[k].text && spans[k].kind == tokens[k].kind
    {
      NextPlace(db, sql, k);
    }
    WordSpansMatch(tokens, spans, sql, 0);
    forall i | 0 <= i < |Words(tokens)|
      ensures WordSpans(sql, spans)[i] == spans[WordIndex(tokens, i)]
    {
      WordSpansMatch(tokens, spans, sql, i);
    }
  }

  /** The text of word `i`, or nothing beyond the ends. */
  function TextIn(sql: string, spans: seq<Span>, i: int): string {
    if 0 <= i < |spans| && spans[i].start <= spans[i].end <= |sql| then sql[spans[i].start..spans[i].end] else ""
  }

  /** What happens to the text when word `i` is a keyword. */
  lemma ReplaceWord(db: Database, sql: string, i: nat, letters: KeywordCase)
    requires i < |Words(Tokens(db, sql))|
    requires forall k :: 0 <= k < |Spans(Tokens(db, sql), 0)| ==>
             Spans(Tokens(db, sql), 0)[k].start <= Spans(Tokens(db, sql), 0)[k].end <= |sql|
    requires i < |WordSpans(sql, Spans(Tokens(db, sql), 0))|
    ensures var tokens := Tokens(db, sql);
            var (start, end) := (WordSpans(sql, Spans(tokens, 0))[i].start, WordSpans(sql, Spans(tokens, 0))[i].end);
            var before := Flatten(CasedTokens(tokens, i, letters));
            && start <= end <= |before|
            && Flatten(CasedTokens(tokens, i + 1, letters))
            == before[..start] + CasedToken(Words(tokens), i, i + 1, letters).text + before[end..]
  {
    hide Lex, Words, WordIndex, Spans, WordSpans, Flatten, CasedToken, CasedTokens;
    var tokens := Tokens(db, sql);
    var k, cased := WordIndex(tokens, i), CasedTokens(tokens, i, letters);
    WordSpansAreWords(db, sql);
    TokenTexts(db, sql);
    WordSpansMatch(tokens, Spans(tokens, 0), sql, i);
    CasedStep(tokens, i, letters);
    FlattenUpdate(cased, k, CasedToken(Words(tokens), i, i + 1, letters));
    CasedKeepsTokens(tokens, i, letters);
    ShapesOfKept(tokens, cased);
    SameShapesPrefix(tokens, cased, k);
    NextPlace(db, sql, k);
    TokenPlace(db, sql, k);
  }

  lemma TokenTexts(db: Database, sql: string)
    ensures var spans := Spans(Tokens(db, sql), 0);
            forall k :: 0 <= k < |spans| ==>
                spans[k].start <= spans[k].end <= |sql| && sql[spans[k].start..spans[k].end] == Tokens(db, sql)[k].text
  {
    hide Lex, Spans;
    forall k | 0 <= k < |Spans(Tokens(db, sql), 0)|
      ensures var span := Spans(Tokens(db, sql), 0)[k];
              span.start <= span.end <= |sql| && sql[span.start..span.end] == Tokens(db, sql)[k].text
    {
      NextPlace(db, sql, k);
    }
  }

  lemma SameShapesPrefix(a: seq<Token>, b: seq<Token>, k: nat)
    requires SameShapes(a, b) && k <= |a|
    ensures |Flatten(a[..k])| == |Flatten(b[..k])|
  {
    FlattenSameLetters(a[..k], b[..k]);
  }

  /** `case_other_keywords` */
  method CaseOtherKeywords(sql: string, letters: KeywordCase, db: Database) returns (result: string)
    ensures result == Recased(db, sql, letters)
  {
    hide Lex, Words, Flatten, CasedTokens, WordSpans, ParensBefore, IsKeywordIn, NextParens;
    ghost var tokens := Tokens(db, sql);
    ghost var ws := Words(tokens);
    var spans := TokensFor(sql, db);
    WordSpansAreWords(db, sql);
    var words := WordSpans(sql, spans);
    result := sql;
    var parens := [];
    CasedNone(tokens, letters);
    LexCovers(db, false, sql);
    NoParens(ws);
    for i := 0 to |words|
      invariant parens == ParensBefore(ws, i)
      invariant result == Flatten(CasedTokens(tokens, i, letters))
    {
      ReplaceWord(db, sql, i, letters);
      ParensStep(ws, i, letters);
      var keyword: bool;
      keyword, parens := Examine(sql, words, i, parens, ws);
      if keyword {
        var word := LowerText(TextIn(sql, words, i));
        var cased := if letters == Uppercase then UpperText(word) else word;
        result := result[..words[i].start] + cased + result[words[i].end..];
      } else {
        KeepWord(tokens, i, letters);
      }
    }
  }

  lemma NoParens(words: seq<Token>)
    ensures ParensBefore(words, 0) == []
  {
  }

  lemma ParensStep(words: seq<Token>, i: nat, letters: KeywordCase)
    ensures ParensBefore(words, i + 1) == NextParens(words, i, ParensBefore(words, i))
    ensures i < |words| && !IsKeywordIn(words, i, ParensBefore(words, i)) ==>
              CasedToken(words, i, i + 1, letters) == words[i]
    ensures i < |words| && IsKeywordIn(words, i, ParensBefore(words, i)) ==>
              CasedToken(words, i, i + 1, letters) == Token(Cased(words[i].text, letters), words[i].kind)
  {
  }

  lemma KeepWord(tokens: seq<Token>, i: nat, letters: KeywordCase)
    requires i < |Words(tokens)| && CasedToken(Words(tokens), i, i + 1, letters) == Words(tokens)[i]
    ensures CasedTokens(tokens, i + 1, letters) == CasedTokens(tokens, i, letters)
  {
    hide Words, WordIndex, CasedToken, CasedTokens;
    CasedStep(tokens, i, letters);
  }

  /** The decision of one round of the loop. */
  method Examine(sql: string, spans: seq<Span>, i: nat, open: seq<Paren>, ghost words: seq<Token>)
    returns (keyword: bool, parens: seq<Paren>)
    requires AreWords(sql, spans, words) && i < |spans|
    ensures parens == NextParens(words, i, open)
    ensures keyword == IsKeywordIn(words, i, open)
  {
    WordAtIs(sql, spans, words, i - 1);
    WordAtIs(sql, spans, words, i);
    WordAtIs(sql, spans, words, i + 1);
    hide LowerText, IsCast, KeywordRule, AreWords, TextIn, TextAt;
    var text, previous, next := TextIn(sql, spans, i), TextIn(sql, spans, i - 1), TextIn(sql, spans, i + 1);
    keyword, parens := false, open;
    var word := LowerText(text);
    if word == "(" {
      parens := parens + [Paren(i > 0 && IsCast(LowerText(previous)), false)];
      return;
    }
    if word == ")" {
      if parens != [] {
        parens := parens[..|parens| - 1];
      }
      return;
    }
    var isWord := spans[i].kind == Plain && text != "" && (IsAsciiAlphabetic(text[0]) || text[0] == '_');
    if !isWord || next == "." || previous == "." {
      return;
    }
    var inCastType := parens != [] && parens[|parens| - 1].cast && parens[|parens| - 1].typed;
    var nextIsString := i + 1 < |spans| && spans[i + 1].kind == String;
    keyword := KeywordRule(word, previous, next, nextIsString, inCastType);
    if word == "as" && parens != [] && parens[|parens| - 1].cast {
      parens := parens[|parens| - 1 := Paren(true, true)];
    }
  }

  lemma WordAtIs(sql: string, spans: seq<Span>, words: seq<Token>, i: int)
    requires AreWords(sql, spans, words)
    ensures TextIn(sql, spans, i) == TextAt(words, i)
    ensures |spans| == |words|
    ensures 0 <= i < |spans| ==> spans[i].kind == words[i].kind && TextAt(words, i) == words[i].text
    ensures !(0 <= i < |spans|) ==> TextAt(words, i) == ""
  {
  }
}
