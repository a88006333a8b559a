/** The check that guards formatted SQL, `same_tokens_for` of src/sql.rs. */
module TokenEquivalence {
  import opened Chars
  import opened Lexer
  import opened Options
  import opened Statements

  datatype Significant = Significant(kind: Kind, text: string, spaceBefore: bool, lineBreakBefore: bool)

  function SignificantFrom(tokens: seq<Token>, space: bool, lineBreak: bool): seq<Significant> {
    if tokens == [] then []
    else
      var t := tokens[0];
      if IsBlank(t.text) then SignificantFrom(tokens[1..], true, lineBreak || HasLineBreak(t.text))
      else
        [Significant(t.kind, t.text, space, lineBreak)]
        + SignificantFrom(tokens[1..], false, t.kind == Comment && (lineBreak || HasLineBreak(t.text)))
  }

  function SignificantTokens(db: Database, sql: string): seq<Significant> {
    SignificantFrom(Tokens(db, sql), false, false)
  }

  /** The loop of `significant` */
  method SignificantOf(sql: string, db: Database) returns (result: seq<Significant>)
    ensures result == SignificantTokens(db, sql)
  {
    hide Lex, Head, HasLineBreak, IsBlank, SignificantFrom;
    result := [];
    var spaceBefore, lineBreakBefore := false, false;
    var tokens := TokensFor(sql, db);
    ghost var toks := Tokens(db, sql);
    assert toks[0..] == toks;
    for i := 0 to |tokens|
      invariant result + SignificantFrom(toks[i..], spaceBefore, lineBreakBefore) == SignificantTokens(db, sql)
    {
      NextPlace(db, sql, i);
      SignificantStep(toks, i, spaceBefore, lineBreakBefore);
      var text := sql[tokens[i].start..tokens[i].end];
      ghost var before := result;
      if IsBlank(text) {
        spaceBefore := true;
        lineBreakBefore := lineBreakBefore || HasLineBreak(text);
      } else {
        result := result + [Significant(tokens[i].kind, text, spaceBefore, lineBreakBefore)];
        spaceBefore := false;
        if tokens[i].kind == Comment {
          lineBreakBefore := lineBreakBefore || HasLineBreak(text);
        } else {
          lineBreakBefore := false;
        }
        Associative(before, [result[|before|]], SignificantFrom(toks[i + 1..], spaceBefore, lineBreakBefore));
      }
    }
    assert toks[|tokens|..] == [];
    NoneSignificant(spaceBefore, lineBreakBefore);
  }

  lemma SignificantStep(tokens: seq<Token>, i: nat, space: bool, lineBreak: bool)
    requires i < |tokens|
    ensures SignificantFrom(tokens[i..], space, lineBreak)
         == var t := tokens[i];
            if IsBlank(t.text) then SignificantFrom(tokens[i + 1..], true, lineBreak || HasLineBreak(t.text))
            else
              [Significant(t.kind, t.text, space, lineBreak)]
              + SignificantFrom(tokens[i + 1..], false, t.kind == Comment && (lineBreak || HasLineBreak(t.text)))
  {
    assert tokens[i..][1..] == tokens[i + 1..];
  }

  lemma NoneSignificant(space: bool, lineBreak: bool)
    ensures SignificantFrom([], space, lineBreak) == []
  {
  }

  predicate StartsWithWord(t: Significant) { t.text != "" && (IsAlphanumeric(t.text[0]) || t.text[0] == '_') }

  predicate IsSymbol(t: Significant) {
    t.kind == Plain && !StartsWithWord(t) && !(t.text != "" && t.text[0] in ",()[]")
  }

  predicate IsWord(t: Significant) { t.kind == Plain && StartsWithWord(t) }

  /** Part of a dotted name: such words are identifiers. */
  predicate IsQualified(tokens: seq<Significant>, i: nat)
    requires i < |tokens|
  {
    (i > 0 && tokens[i - 1].text == ".") || (i + 1 < |tokens| && tokens[i + 1].text == ".")
  }

  /** The last token of `tokens` that is no comment is a string. */
  predicate EndsInString(tokens: seq<Significant>) {
    tokens != []
    && var last := tokens[|tokens| - 1];
       if last.kind == Comment then EndsInString(tokens[..|tokens| - 1]) else last.kind == String
  }

  predicate ContinuesString(db: Database, tokens: seq<Significant>, i: nat)
    requires i < |tokens|
  {
    db == Postgres && tokens[i].kind == String && EndsInString(tokens[..i])
  }

  /** Token `i` may not lose or gain the white space before it. */
  predicate KeepsSpace(tokens: seq<Significant>, i: nat)
    requires 0 < i < |tokens|
  {
    (IsSymbol(tokens[i - 1]) && IsSymbol(tokens[i])) || (IsWord(tokens[i - 1]) && tokens[i].kind == String)
  }

  predicate SameToken(db: Database, original: seq<Significant>, formatted: seq<Significant>, i: nat)
    requires i < |original| == |formatted|
  {
    var a, b := original[i], formatted[i];
    && a.kind == b.kind
    && (!ContinuesString(db, original, i) || a.lineBreakBefore == b.lineBreakBefore)
    && (a.text == b.text || (IsWord(a) && !IsQualified(original, i) && SameLetters(a.text, b.text)))
    && (i == 0 || a.spaceBefore == b.spaceBefore || !KeepsSpace(original, i))
  }

  predicate SameSignificant(db: Database, original: seq<Significant>, formatted: seq<Significant>) {
    |original| == |formatted| && forall i :: 0 <= i < |original| ==> SameToken(db, original, formatted, i)
  }

  /** `same_tokens_for` */
  predicate SameTokens(db: Database, original: string, formatted: string) {
    SameSignificant(db, SignificantTokens(db, original), SignificantTokens(db, formatted))
  }

  // ----- An equivalence relation

  lemma LettersKeepClass(a: string, b: string)
    requires SameLetters(a, b)
    ensures a != "" ==> IsWordChar(a[0]) == IsWordChar(b[0])
    ensures a != "" && IsWordChar(a[0]) ==> a != "." && b != "."
  {
  }

  /** What the check looks at in one text is the same in the other. */
  lemma SameTokenView(db: Database, a: seq<Significant>, b: seq<Significant>, i: nat)
    requires SameSignificant(db, a, b) && i < |a|
    ensures IsWord(a[i]) == IsWord(b[i]) && IsSymbol(a[i]) == IsSymbol(b[i])
    ensures a[i].text == "." <==> b[i].text == "."
    ensures a[i].kind == b[i].kind
  {
    assert SameToken(db, a, b, i);
    if a[i].text != b[i].text {
      LettersKeepClass(a[i].text, b[i].text);
    }
  }

  lemma {:induction false} SameKindsEnd(a: seq<Significant>, b: seq<Significant>)
    requires |a| == |b| && forall k :: 0 <= k < |a| ==> a[k].kind == b[k].kind
    ensures EndsInString(a) == EndsInString(b)
  {
    if a != [] {
      SameKindsEnd(a[..|a| - 1], b[..|b| - 1]);
    }
  }

  lemma SameContext(db: Database, a: seq<Significant>, b: seq<Significant>, i: nat)
    requires SameSignificant(db, a, b) && i < |a|
    ensures IsQualified(a, i) == IsQualified(b, i)
    ensures ContinuesString(db, a, i) == ContinuesString(db, b, i)
    ensures i > 0 ==> KeepsSpace(a, i) == KeepsSpace(b, i)
  {
    hide SameToken, IsWord, IsSymbol, EndsInString;
    forall k | 0 <= k < |a|
      ensures a[k].kind == b[k].kind && IsWord(a[k]) == IsWord(b[k]) && IsSymbol(a[k]) == IsSymbol(b[k])
      ensures a[k].text == "." <==> b[k].text == "."
    {
      SameTokenView(db, a, b, k);
    }
    SameKindsEnd(a[..i], b[..i]);
  }

  lemma SameTokensSymmetric(db: Database, x: string, y: string)
    ensures SameTokens(db, x, y) ==> SameTokens(db, y, x)
  {
    var a, b := SignificantTokens(db, x), SignificantTokens(db, y);
    if SameTokens(db, x, y) {
      forall i | 0 <= i < |a|
        ensures SameToken(db, b, a, i)
      {
        hide ContinuesString, IsQualified, KeepsSpace, SignificantFrom;
        assert SameToken(db, a, b, i);
        SameTokenView(db, a, b, i);
        SameContext(db, a, b, i);
      }
    }
  }

  lemma SameTokensTransitive(db: Database, x: string, y: string, z: string)
    ensures SameTokens(db, x, y) && SameTokens(db, y, z) ==> SameTokens(db, x, z)
  {
    var a, b, c := SignificantTokens(db, x), SignificantTokens(db, y), SignificantTokens(db, z);
    if SameTokens(db, x, y) && SameTokens(db, y, z) {
      forall i | 0 <= i < |a|
        ensures SameToken(db, a, c, i)
      {
        hide ContinuesString, IsQualified, KeepsSpace, SignificantFrom;
        assert SameToken(db, a, b, i) && SameToken(db, b, c, i);
        SameTokenView(db, a, b, i);
        SameContext(db, a, b, i);
      }
    }
  }

  /** In each dialect the check is an equivalence relation on texts. */
  lemma SameTokensIsEquivalence(db: Database, x: string, y: string, z: string)
    ensures SameTokens(db, x, x)
    ensures SameTokens(db, x, y) <==> SameTokens(db, y, x)
    ensures SameTokens(db, x, y) && SameTokens(db, y, z) ==> SameTokens(db, x, z)
  {
    SameTokensSymmetric(db, x, y);
    SameTokensSymmetric(db, y, x);
    SameTokensTransitive(db, x, y, z);
  }

  // ----- Equivalent texts split alike

  function CountSignificant(tokens: seq<Significant>, content: bool): nat {
    if tokens == [] then if content then 1 else 0
    else if tokens[0].kind == Comment then CountSignificant(tokens[1..], content)
    else if tokens[0].kind == Separator then (if content then 1 else 0) + CountSignificant(tokens[1..], false)
    else CountSignificant(tokens[1..], true)
  }

  lemma {:induction false} CountOfSignificant(tokens: seq<Token>, space: bool, lineBreak: bool, content: bool)
    ensures Count(tokens, content) == CountSignificant(SignificantFrom(tokens, space, lineBreak), content)
  {
    hide HasLineBreak;
    if tokens != [] {
      var t, rest := tokens[0], tokens[1..];
      if IsBlank(t.text) {
        CountOfSignificant(rest, true, lineBreak || HasLineBreak(t.text), content);
      } else {
        var next := t.kind == Comment && (lineBreak || HasLineBreak(t.text));
        CountOfSignificant(rest, false, next, if t.kind == Comment then content else t.kind != Separator);
      }
    }
  }

  lemma {:induction false} SameKindsCount(a: seq<Significant>, b: seq<Significant>, content: bool)
    requires |a| == |b| && forall k :: 0 <= k < |a| ==> a[k].kind == b[k].kind
    ensures CountSignificant(a, content) == CountSignificant(b, content)
  {
    if a != [] {
      SameKindsCount(a[1..], b[1..], content);
      SameKindsCount(a[1..], b[1..], false);
      SameKindsCount(a[1..], b[1..], true);
    }
  }

  /** Accepted formatting never changes how many statements the SQL has, and so
      never changes the verdict of `ValidateSingleFor`. */
  lemma SameTokensSplitAlike(db: Database, original: string, formatted: string)
    requires SameTokens(db, original, formatted)
    ensures |StatementRanges(db, original)| == |StatementRanges(db, formatted)|
  {
    hide Lex, SameToken;
    var a, b := Tokens(db, original), Tokens(db, formatted);
    forall k | 0 <= k < |SignificantTokens(db, original)|
      ensures SignificantTokens(db, original)[k].kind == SignificantTokens(db, formatted)[k].kind
    {
      SameTokenView(db, SignificantTokens(db, original), SignificantTokens(db, formatted), k);
    }
    RangesCount(a, 0, None, 0);
    RangesCount(b, 0, None, 0);
    CountOfSignificant(a, false, false, false);
    CountOfSignificant(b, false, false, false);
    SameKindsCount(SignificantTokens(db, original), SignificantTokens(db, formatted), false);
  }
}
