/** Which tokens `format_layout` of src/sql.rs hides from the layout engine, and which
    statements `format_statement_for` formats at all, from the side of the text. */
module HiddenTokens {
  import opened Chars
  import opened Lexer
  import opened Options
  import opened Statements
  import opened TokenEquivalence
  import opened Mask
  import opened Format
  import opened Keywords

  // ----- Hidden tokens

  predicate ReadsOneOf(text: string, words: seq<string>) {
    exists k :: 0 <= k < |words| && Reads(text, words[k])
  }

  /** Right before token `i` stands a word that makes one literal with a string in single quotes. */
  predicate IsPrefixed(tokens: seq<Token>, i: nat)
    requires i < |tokens|
  {
    && i > 0 && tokens[i].kind == String && "'" <= tokens[i].text && tokens[i - 1].kind == Plain
    && ReadsOneOf(tokens[i - 1].text, ["date", "time", "interval", "timestamp", "timestamp_ltz", "timestamp_ntz", "e",
                                       "x", "b", "n"])
  }

  /** Strings and quoted identifiers are hidden; in Kyuubi only the prefixed strings. */
  predicate ShouldHide(db: Database, tokens: seq<Token>, i: nat)
    requires i < |tokens|
  {
    match db
    case Kyuubi => IsPrefixed(tokens, i)
    case _ => tokens[i].kind == String || tokens[i].kind == Identifier
  }

  lemma PrefixIs(tokens: seq<Token>, i: nat)
    requires i < |tokens|
    ensures IsPrefixed(tokens, i) <==> HasPrefix(tokens, i)
  {
    hide Reads, LowerText;
    assert "'" <= tokens[i].text <==> tokens[i].text != "" && tokens[i].text[0] == '\'';
    if i > 0 {
      var text := tokens[i - 1].text;
      forall word
        ensures Reads(text, word) <==> LowerText(text) == word
      {
        ReadsIsLower(text, word);
      }
      WordList(text);
    }
  }

  lemma WordList(text: string)
    ensures ReadsOneOf(text, ["date", "time", "interval", "timestamp", "timestamp_ltz", "timestamp_ntz", "e", "x", "b",
                              "n"])
            <==> || Reads(text, "date") || Reads(text, "time") || Reads(text, "interval") || Reads(text, "timestamp")
                 || Reads(text, "timestamp_ltz") || Reads(text, "timestamp_ntz") || Reads(text, "e")
                 || Reads(text, "x") || Reads(text, "b") || Reads(text, "n")
  {
    hide Reads;
    var words := ["date", "time", "interval", "timestamp", "timestamp_ltz", "timestamp_ntz", "e", "x", "b", "n"];
    assert words[0] == "date" && words[1] == "time" && words[2] == "interval" && words[3] == "timestamp";
    assert words[4] == "timestamp_ltz" && words[5] == "timestamp_ntz" && words[6] == "e" && words[7] == "x";
    assert words[8] == "b" && words[9] == "n";
  }

  /** The places from `from` on of the tokens that should be hidden, in order. */
  ghost predicate ArePlaces(db: Database, tokens: seq<Token>, from: nat, places: seq<nat>) {
    && (forall j, k :: 0 <= j < k < |places| ==> places[j] < places[k])
    && (forall i :: i in places <==> from <= i < |tokens| && ShouldHide(db, tokens, i))
  }

  /** The cuts are the tokens at `places`, each with its prefix. */
  ghost predicate AreCuts(tokens: seq<Token>, places: seq<nat>, cuts: seq<Cut>) {
    |places| == |cuts| && forall k :: 0 <= k < |cuts| ==> places[k] < |tokens| && IsCut(tokens, places[k], cuts[k])
  }

  ghost predicate IsCut(tokens: seq<Token>, i: nat, cut: Cut)
    requires i < |tokens|
  {
    var spans := Spans(tokens, 0);
    && cut.end == spans[i].end
    && cut.start == if IsPrefixed(tokens, i) then spans[i - 1].start else spans[i].start
  }

  lemma {:induction false} HiddenFrom(db: Database, tokens: seq<Token>, from: nat) returns (places: seq<nat>)
    requires from <= |tokens|
    ensures ArePlaces(db, tokens, from, places)
    ensures AreCuts(tokens, places, CutsFrom(db, tokens, Spans(tokens, 0), from))
    decreases |tokens| - from
  {
    if from == |tokens| {
      places := [];
    } else {
      hide Spans, IsHidden, ShouldHide, ArePlaces, AreCuts;
      var more := HiddenFrom(db, tokens, from + 1);
      OneHidden(db, tokens, from);
      places := if ShouldHide(db, tokens, from) then [from] + more else more;
      PlacesCons(db, tokens, from, more);
      var cuts := CutsFrom(db, tokens, Spans(tokens, 0), from + 1);
      CutsCons(tokens, from, more, cuts);
      assert [] + cuts == cuts;
    }
  }

  lemma CutsCons(tokens: seq<Token>, i: nat, places: seq<nat>, cuts: seq<Cut>)
    requires i < |tokens| && AreCuts(tokens, places, cuts) && IsCut(tokens, i, CutOf(tokens, Spans(tokens, 0), i))
    ensures AreCuts(tokens, [i] + places, [CutOf(tokens, Spans(tokens, 0), i)] + cuts)
  {
    hide Spans, IsCut, CutOf;
  }

  lemma PlacesCons(db: Database, tokens: seq<Token>, from: nat, more: seq<nat>)
    requires from < |tokens| && ArePlaces(db, tokens, from + 1, more)
    ensures ArePlaces(db, tokens, from, if ShouldHide(db, tokens, from) then [from] + more else more)
  {
    hide ShouldHide;
    var places := if ShouldHide(db, tokens, from) then [from] + more else more;
    forall j, k | 0 <= j < k < |places|
      ensures places[j] < places[k]
    {
      if ShouldHide(db, tokens, from) {
        assert places[k] == more[k - 1] && more[k - 1] in more;
      }
    }
  }

  lemma OneHidden(db: Database, tokens: seq<Token>, i: nat)
    requires i < |tokens|
    ensures ShouldHide(db, tokens, i) <==> IsHidden(db, tokens, i)
    ensures IsCut(tokens, i, CutOf(tokens, Spans(tokens, 0), i))
  {
    hide Spans, IsPrefixed, HasPrefix;
    PrefixIs(tokens, i);
    assert IsPrefixed(tokens, i) ==> tokens[i].kind == String by {
      PrefixedIsString(tokens, i);
    }
  }

  lemma PrefixedIsString(tokens: seq<Token>, i: nat)
    requires i < |tokens|
    ensures IsPrefixed(tokens, i) ==> tokens[i].kind == String
  {
  }

  /** The cuts of a text are its hidden tokens. */
  lemma CutsAreHidden(db: Database, sql: string) returns (places: seq<nat>)
    ensures ArePlaces(db, Tokens(db, sql), 0, places) && AreCuts(Tokens(db, sql), places, Cuts(db, sql))
  {
    hide Lex, CutsFrom, ArePlaces, AreCuts;
    places := HiddenFrom(db, Tokens(db, sql), 0);
  }

  // ----- What is formatted

  /** The first token that is no comment is one of the words that begin a statement. */
  ghost predicate BeginsRight(tokens: seq<Significant>) {
    exists i :: 0 <= i < |tokens| && tokens[i].kind != Comment && (forall j :: 0 <= j < i ==> tokens[j].kind == Comment)
                && ReadsOneOf(tokens[i].text, ["select", "with", "from", "values", "insert", "create", "explain",
                                               "merge", "update", "delete"])
  }

  /** The text of the tokens, with one space before each that has one before it. */
  function Tight(tokens: seq<Significant>): string {
    if tokens == [] then ""
    else
      var last := tokens[|tokens| - 1];
      Tight(tokens[..|tokens| - 1]) + (if last.spaceBefore then " " else "") + last.text
  }

  lemma {:induction false} LengthIs(tokens: seq<Significant>)
    ensures Length(tokens) == |Tight(tokens)|
  {
    if tokens != [] {
      var n := |tokens| - 1;
      LengthIs(tokens[..n]);
      LengthLast(tokens);
    }
  }

  lemma {:induction false} LengthLast(tokens: seq<Significant>)
    requires tokens != []
    ensures var n := |tokens| - 1;
            Length(tokens) == Length(tokens[..n]) + |tokens[n].text| + if tokens[n].spaceBefore then 1 else 0
  {
    var n := |tokens| - 1;
    if n > 0 {
      LengthLast(tokens[1..]);
      assert tokens[1..][..n - 1] == tokens[..n][1..];
    } else {
      assert tokens[1..] == [] && tokens[..n] == [];
    }
  }

  lemma {:induction false} FirstCodeIs(tokens: seq<Significant>)
    ensures var first := FirstCode(tokens);
            if first.None? then forall i :: 0 <= i < |tokens| ==> tokens[i].kind == Comment
            else exists i :: 0 <= i < |tokens| && tokens[i] == first.value && first.value.kind != Comment
                             && forall j :: 0 <= j < i ==> tokens[j].kind == Comment
  {
    if tokens != [] && tokens[0].kind == Comment {
      var rest, first := tokens[1..], FirstCode(tokens);
      FirstCodeIs(rest);
      assert forall j :: 0 < j < |tokens| ==> tokens[j] == rest[j - 1];
      if first.Some? {
        var i :| 0 <= i < |rest| && rest[i] == first.value && forall j :: 0 <= j < i ==> rest[j].kind == Comment;
        assert tokens[i + 1] == first.value;
      }
    }
  }

  lemma CaseSet(text: string)
    ensures UpperText(text) in FORMATTABLE <==>
              ReadsOneOf(text, ["select", "with", "from", "values", "insert", "create", "explain", "merge", "update",
                                "delete"])
  {
    hide Reads, UpperText;
    var words := ["select", "with", "from", "values", "insert", "create", "explain", "merge", "update", "delete"];
    assert words[0] == "select" && words[1] == "with" && words[2] == "from" && words[3] == "values";
    assert words[4] == "insert" && words[5] == "create" && words[6] == "explain" && words[7] == "merge";
    assert words[8] == "update" && words[9] == "delete";
    UpperReads(text, "SELECT", "select");
    UpperReads(text, "WITH", "with");
    UpperReads(text, "FROM", "from");
    UpperReads(text, "VALUES", "values");
    UpperReads(text, "INSERT", "insert");
    UpperReads(text, "CREATE", "create");
    UpperReads(text, "EXPLAIN", "explain");
    UpperReads(text, "MERGE", "merge");
    UpperReads(text, "UPDATE", "update");
    UpperReads(text, "DELETE", "delete");
  }

  lemma UpperReads(text: string, upper: string, lower: string)
    requires |upper| == |lower|
    requires forall k :: 0 <= k < |upper| ==> 'A' <= upper[k] <= 'Z' && lower[k] as int == upper[k] as int + 32
    ensures UpperText(text) == upper <==> Reads(text, lower)
  {
    if |text| == |upper| {
      assert UpperText(text) == upper <==> forall k :: 0 <= k < |upper| ==> UpperText(text)[k] == upper[k];
      forall k | 0 <= k < |upper|
        ensures Upper(text[k]) == upper[k] <==>
                  || (text[k] == lower[k] && !('A' <= lower[k] <= 'Z'))
                  || ('a' <= lower[k] <= 'z' && text[k] as int + 32 == lower[k] as int)
      {
      }
    }
  }

  /** Short text of the assistant stays as it is, and only statements that begin right are formatted. */
  lemma FormatsRight(db: Database, sql: string, mode: Mode)
    ensures IsTooShort(db, sql, mode) <==> mode == Assistant && |Tight(SignificantTokens(db, sql))| <= 80
    ensures IsFormattable(db, sql) <==> BeginsRight(SignificantTokens(db, sql))
  {
    hide SignificantFrom, Lex, Tight, Length, FirstCode, ReadsOneOf, UpperText;
    var tokens := SignificantTokens(db, sql);
    LengthIs(tokens);
    FirstCodeIs(tokens);
    if FirstCode(tokens).Some? {
      CaseSet(FirstCode(tokens).value.text);
    }
  }
}
