/** What each kind of token looks like, for every dialect: the rules of the
    tokenizer of src/sql.rs, one by one, from the side of the text. */
module TokenShapes {
  import opened Chars
  import opened Lexer
  import opened Stability

  /** The text starts with the token, and the rest is read on its own; only whether the
      token ends in an E matters to it. */
  ghost predicate IsFirst(db: Database, afterE: bool, text: string, kind: Kind, rest: string) {
    && text != ""
    && Lex(db, afterE, text + rest) == [Token(text, kind)] + Lex(db, text[|text| - 1] in "Ee", rest)
  }

  lemma FirstByHead(db: Database, afterE: bool, text: string, kind: Kind, rest: string)
    requires text != "" && Head(db, afterE, text + rest) == (|text|, kind)
    ensures IsFirst(db, afterE, text, kind, rest)
  {
    hide Head, Lex;
    LexFirst(db, afterE, text, rest, kind);
  }

  // ----- Quoted tokens

  /** What the body of a quoted token is made of: another character, the quote
      written twice, or a backslash that hides a character. */
  datatype Unit = Other(c: char) | Doubled | Hidden(c: char)

  function UnitText(u: Unit, quote: char): string {
    match u
    case Other(c) => [c]
    case Doubled => [quote, quote]
    case Hidden(c) => ['\\', c]
  }

  function Body(units: seq<Unit>, quote: char): string {
    if units == [] then "" else UnitText(units[0], quote) + Body(units[1..], quote)
  }

  /** `hides` says whether a backslash hides the next character. */
  predicate AreUnits(units: seq<Unit>, quote: char, hides: bool) {
    forall i :: 0 <= i < |units| ==> IsUnit(units[i], quote, hides)
  }

  predicate IsUnit(u: Unit, quote: char, hides: bool) {
    match u
    case Other(c) => c != quote && !(hides && c == '\\')
    case Doubled => true
    case Hidden(_) => hides
  }

  lemma {:induction false} BodyEnds(units: seq<Unit>, quote: char, hides: bool, rest: string)
    requires quote != '\\' && AreUnits(units, quote, hides) && (rest != "" ==> rest[0] != quote)
    ensures QuoteEnd(Body(units, quote) + ([quote] + rest), quote, hides) == |Body(units, quote)| + 1
    ensures QuoteEnd(Body(units, quote), quote, hides) == |Body(units, quote)|
    ensures hides ==> QuoteEnd(Body(units, quote) + "\\", quote, hides) == |Body(units, quote)| + 1
  {
    var more := [quote] + rest;
    if units == [] {
      assert "" + more == more && "" + "\\" == "\\";
      assert |more| > 1 ==> more[1] == rest[0];
    } else {
      var u, first, others := units[0], UnitText(units[0], quote), Body(units[1..], quote);
      BodyEnds(units[1..], quote, hides, rest);
      Associative(first, others, more);
      Associative(first, others, "\\");
      UnitEnds(u, quote, hides, others + more);
      UnitEnds(u, quote, hides, others + "\\");
      UnitEnds(u, quote, hides, others);
    }
  }

  lemma UnitEnds(u: Unit, quote: char, hides: bool, more: string)
    requires quote != '\\' && IsUnit(u, quote, hides)
    ensures QuoteEnd(UnitText(u, quote) + more, quote, hides)
         == |UnitText(u, quote)| + QuoteEnd(more, quote, hides)
  {
    var first := UnitText(u, quote);
    assert (first + more)[|first|..] == more;
    assert first[0] == (first + more)[0] && (|first| == 2 ==> first[1] == (first + more)[1]);
  }

  /** Where a backslash hides the next character: in Kyuubi in single and double quotes, in
      Postgres in single quotes right after an E. Never in backticks, and never in Trino. */
  predicate BackslashHides(db: Database, quote: char, afterE: bool) {
    match db
    case Kyuubi => quote == '\'' || quote == '"'
    case Postgres => quote == '\'' && afterE
    case Trino => false
  }

  /** Double quotes make a string in Kyuubi and an identifier elsewhere. */
  function KindOf(db: Database, quote: char): Kind {
    match quote
    case '\'' => String
    case '"' => if db == Kyuubi then String else Identifier
    case _ => Identifier
  }

  /** A quote, a body of units and the quote again, before another character, are one token. */
  lemma QuotedIsOne(db: Database, afterE: bool, quote: char, units: seq<Unit>, rest: string)
    requires quote == '\'' || quote == '"' || quote == '`'
    requires AreUnits(units, quote, BackslashHides(db, quote, afterE)) && (rest != "" ==> rest[0] != quote)
    ensures IsFirst(db, afterE, [quote] + Body(units, quote) + [quote], KindOf(db, quote), rest)
  {
    hide QuoteEnd, Body, AreUnits, RunHead;
    var body, hides := Body(units, quote), BackslashHides(db, quote, afterE);
    var text := [quote] + body + [quote];
    BodyEnds(units, quote, hides, rest);
    assert (text + rest)[0] == quote && (text + rest)[1..] == body + ([quote] + rest);
    FirstByHead(db, afterE, text, KindOf(db, quote), rest);
  }

  /** Without a closing quote a quoted token takes all the text. */
  lemma UnclosedTakesAll(db: Database, afterE: bool, quote: char, units: seq<Unit>)
    requires quote == '\'' || quote == '"' || quote == '`'
    requires AreUnits(units, quote, BackslashHides(db, quote, afterE))
    ensures IsFirst(db, afterE, [quote] + Body(units, quote), KindOf(db, quote), "")
  {
    hide QuoteEnd, Body, AreUnits, RunHead;
    var body, hides := Body(units, quote), BackslashHides(db, quote, afterE);
    var text := [quote] + body;
    BodyEnds(units, quote, hides, "");
    assert text[0] == quote && text[1..] == body && text + "" == text;
    FirstByHead(db, afterE, text, KindOf(db, quote), "");
  }

  /** So does one that ends in a backslash with nothing left to hide. */
  lemma UnclosedBackslash(db: Database, afterE: bool, quote: char, units: seq<Unit>)
    requires quote == '\'' || quote == '"' || quote == '`'
    requires BackslashHides(db, quote, afterE) && AreUnits(units, quote, true)
    ensures IsFirst(db, afterE, [quote] + (Body(units, quote) + "\\"), KindOf(db, quote), "")
  {
    hide QuoteEnd, Body, AreUnits, RunHead;
    var body := Body(units, quote) + "\\";
    var text := [quote] + body;
    BodyEnds(units, quote, true, "");
    assert text[0] == quote && text[1..] == body && text + "" == text;
    FirstByHead(db, afterE, text, KindOf(db, quote), "");
  }

  /** U& before a quote belongs to the token, except in Kyuubi. */
  lemma UnicodeIsOne(db: Database, afterE: bool, u: char, quote: char, units: seq<Unit>, rest: string)
    requires db != Kyuubi && (u == 'U' || u == 'u') && (quote == '\'' || quote == '"')
    requires AreUnits(units, quote, BackslashHides(db, quote, afterE)) && (rest != "" ==> rest[0] != quote)
    ensures IsFirst(db, afterE, [u, '&'] + ([quote] + Body(units, quote) + [quote]), KindOf(db, quote), rest)
  {
    hide QuoteEnd, Body, AreUnits, RunHead;
    var body, hides := Body(units, quote), BackslashHides(db, quote, afterE);
    var text := [u, '&'] + ([quote] + body + [quote]);
    BodyEnds(units, quote, hides, rest);
    assert (text + rest)[0] == u && (text + rest)[1] == '&' && (text + rest)[2] == quote;
    assert (text + rest)[3..] == body + ([quote] + rest);
    FirstByHead(db, afterE, text, KindOf(db, quote), rest);
  }

  // ----- Comments

  /** A line comment goes to the end of its line. */
  lemma LineCommentIsOne(db: Database, afterE: bool, body: string, rest: string)
    requires '\n' !in body && (rest != "" ==> rest[0] == '\n')
    ensures IsFirst(db, afterE, "--" + body, Comment, rest)
  {
    hide LineEnd;
    var text := "--" + body;
    assert forall i :: 0 <= i < |text| ==> text[i] == '-' || (i > 1 && text[i] == body[i - 2]);
    LineGoesOn(text, rest);
    FirstByHead(db, afterE, text, Comment, rest);
  }

  lemma {:induction false} LineGoesOn(text: string, rest: string)
    requires (forall i :: 0 <= i < |text| ==> text[i] != '\n') && (rest != "" ==> rest[0] == '\n')
    ensures LineEnd(text + rest) == |text|
  {
    if text == "" {
      assert text + rest == rest;
    } else {
      assert (text + rest)[1..] == text[1..] + rest;
      LineGoesOn(text[1..], rest);
    }
  }

  /** What a block comment is made of. */
  datatype Part = Opening | Closing | Inner(c: char)

  function PartText(part: Part): string {
    match part
    case Opening => "/*"
    case Closing => "*/"
    case Inner(c) => [c]
  }

  function Inside(parts: seq<Part>): string {
    if parts == [] then "" else PartText(parts[0]) + Inside(parts[1..])
  }

  /** No character of a comment forms a delimiter with the one after it. */
  ghost predicate AreParts(parts: seq<Part>) {
    parts == []
    || ((parts[0].Inner? && |Inside(parts)| > 1 ==>
           !(parts[0].c == '/' && Inside(parts)[1] == '*') && !(parts[0].c == '*' && Inside(parts)[1] == '/'))
        && AreParts(parts[1..]))
  }

  /** The parts close what is open, `depth` comments, with the last of them and not before. */
  predicate Closes(parts: seq<Part>, depth: nat) {
    if depth == 0 then parts == []
    else
      parts != []
      && match parts[0]
         case Opening => Closes(parts[1..], depth + 1)
         case Closing => Closes(parts[1..], depth - 1)
         case Inner(_) => Closes(parts[1..], depth)
  }

  lemma {:induction false} PartsEnd(parts: seq<Part>, depth: nat, rest: string)
    requires AreParts(parts) && Closes(parts, depth)
    ensures BlockEnd(Inside(parts) + rest, depth) == |Inside(parts)|
    decreases |parts|
  {
    if parts == [] {
      assert "" + rest == rest;
    } else {
      var first, more := PartText(parts[0]), Inside(parts[1..]);
      Associative(first, more, rest);
      assert (first + (more + rest))[|first|..] == more + rest;
      assert (first + (more + rest))[0] == first[0];
      if parts[0].Inner? {
        InnerMore(parts[1..], depth);
        assert (first + (more + rest))[1] == more[0] == Inside(parts)[1];
        PartsEnd(parts[1..], depth, rest);
      } else {
        assert (first + (more + rest))[1] == first[1];
        PartsEnd(parts[1..], if parts[0].Opening? then depth + 1 else depth - 1, rest);
      }
    }
  }

  lemma InnerMore(parts: seq<Part>, depth: nat)
    requires Closes(parts, depth) && depth > 0
    ensures Inside(parts) != ""
  {
  }

  /** A block comment ends where the comments in it are closed and then itself. */
  lemma BlockCommentIsOne(db: Database, afterE: bool, parts: seq<Part>, rest: string)
    requires AreParts(parts) && Closes(parts, 1)
    ensures IsFirst(db, afterE, "/*" + Inside(parts), Comment, rest)
  {
    hide Inside, Closes, BlockEnd;
    var text := "/*" + Inside(parts);
    PartsEnd(parts, 1, rest);
    assert (text + rest)[0] == '/' && (text + rest)[1] == '*' && (text + rest)[2..] == Inside(parts) + rest;
    FirstByHead(db, afterE, text, Comment, rest);
  }

  // ----- Dollar quotes

  predicate IsTagText(tag: string) {
    && (forall i :: 0 <= i < |tag| ==> IsAlphanumeric(tag[i]) || tag[i] == '_')
    && (tag != "" ==> IsAlphabetic(tag[0]) || tag[0] == '_')
  }

  /** A dollar-quoted string ends with the first repetition of its delimiter, except in Trino. */
  lemma DollarQuoteIsOne(db: Database, afterE: bool, tag: string, body: string, rest: string)
    requires db != Trino && IsTagText(tag)
    requires var delimiter := "$" + tag + "$";
             forall i :: 0 <= i < |body| ==> !(delimiter <= (body + delimiter)[i..])
    ensures var delimiter := "$" + tag + "$"; IsFirst(db, afterE, delimiter + body + delimiter, String, rest)
  {
    hide IsTagText, Find, IsWordChar, Lex, DollarOpen, DollarEnd, Head;
    var delimiter := "$" + tag + "$";
    DelimiterOpens(tag, (body + delimiter) + rest);
    FoundAtEnd(body, delimiter, rest);
    DelimiterJoins(tag, (body + delimiter) + rest);
    DelimitedIsOne(db, afterE, delimiter, body, rest);
  }

  lemma DelimiterJoins(tag: string, more: string)
    ensures "$" + (tag + ("$" + more)) == ("$" + tag + "$") + more
  {
  }

  lemma DelimitedIsOne(db: Database, afterE: bool, delimiter: string, body: string, rest: string)
    requires db != Trino && delimiter != "" && delimiter[0] == '$'
    requires DollarOpen(delimiter + ((body + delimiter) + rest)) == |delimiter|
    requires Find((body + delimiter) + rest, delimiter) == |body|
    ensures IsFirst(db, afterE, delimiter + body + delimiter, String, rest)
  {
    hide Find, Lex, DollarOpen, DollarEnd, Head;
    var text, more := delimiter + body + delimiter, (body + delimiter) + rest;
    assert text + rest == delimiter + more;
    DollarHead(db, afterE, delimiter + more, delimiter, more);
    FirstByHead(db, afterE, text, String, rest);
  }

  lemma DollarHead(db: Database, afterE: bool, r: string, delimiter: string, more: string)
    requires db != Trino && delimiter != "" && delimiter[0] == '$' && r == delimiter + more
    requires DollarOpen(r) == |delimiter|
    ensures Head(db, afterE, r)
         == (if Find(more, delimiter) < 0 then |r| else 2 * |delimiter| + Find(more, delimiter), String)
  {
    hide Find, DollarOpen, QuoteEnd, LineEnd, BlockEnd, RunHead;
    assert r[..|delimiter|] == delimiter && r[|delimiter|..] == more && r[0] == '$';
    NotComment(r);
  }

  lemma NotComment(r: string)
    requires r != "" && r[0] == '$'
    ensures !Starts(r, '-', '-') && !Starts(r, '/', '*')
  {
  }

  lemma DelimiterOpens(tag: string, more: string)
    requires IsTagText(tag)
    ensures DollarOpen("$" + (tag + ("$" + more))) == |tag| + 2
  {
    hide IsAlphabetic;
    var r := "$" + (tag + ("$" + more));
    assert r[1..] == tag + ("$" + more);
    NoDollar(tag, more);
    assert r[1..][..|tag|] == tag;
  }

  lemma {:induction false} NoDollar(tag: string, more: string)
    requires forall i :: 0 <= i < |tag| ==> IsAlphanumeric(tag[i]) || tag[i] == '_'
    ensures Find(tag + ("$" + more), "$") == |tag|
  {
    var r := tag + ("$" + more);
    if tag == "" {
      assert r == "$" + more && "$" <= r;
    } else {
      assert r[1..] == tag[1..] + ("$" + more) && r[0] == tag[0];
      NoDollar(tag[1..], more);
    }
  }

  lemma {:induction false} FoundAtEnd(body: string, delimiter: string, rest: string)
    requires delimiter != ""
    requires forall i :: 0 <= i < |body| ==> !(delimiter <= (body + delimiter)[i..])
    ensures Find((body + delimiter) + rest, delimiter) == |body|
  {
    var hay := (body + delimiter) + rest;
    if body == "" {
      assert hay == delimiter + rest && delimiter <= hay;
    } else {
      assert !(delimiter <= (body + delimiter)[0..]) && (body + delimiter)[0..] == body + delimiter;
      assert hay[..|delimiter|] == (body + delimiter)[..|delimiter|];
      assert hay[1..] == (body[1..] + delimiter) + rest;
      assert forall i :: 0 <= i < |body| - 1 ==> (body[1..] + delimiter)[i..] == (body + delimiter)[i + 1..];
      FoundAtEnd(body[1..], delimiter, rest);
    }
  }

  /** Without another delimiter a dollar-quoted string takes all the text. */
  lemma UnclosedDollarTakesAll(db: Database, afterE: bool, tag: string, body: string)
    requires db != Trino && IsTagText(tag)
    requires forall i :: 0 <= i <= |body| ==> !("$" + tag + "$" <= body[i..])
    ensures IsFirst(db, afterE, "$" + tag + "$" + body, String, "")
  {
    hide IsTagText, Find, IsWordChar, Lex, DollarOpen, DollarEnd, Head;
    var delimiter := "$" + tag + "$";
    var r := delimiter + body;
    DelimiterOpens(tag, body);
    assert r == "$" + (tag + ("$" + body)) && r + "" == r;
    NeverFound(body, delimiter);
    DollarHead(db, afterE, r, delimiter, body);
    FirstByHead(db, afterE, r, String, "");
  }

  lemma {:induction false} NeverFound(body: string, delimiter: string)
    requires forall i :: 0 <= i <= |body| ==> !(delimiter <= body[i..])
    ensures Find(body, delimiter) == -1
  {
    assert body[0..] == body;
    if body != "" {
      assert forall i :: 0 <= i < |body| ==> body[1..][i..] == body[i + 1..];
      NeverFound(body[1..], delimiter);
    }
  }

  /** In Trino, and elsewhere without a tag and a second dollar sign, it is a symbol. */
  lemma DollarIsSymbol(db: Database, afterE: bool, rest: string)
    requires db == Trino || forall k :: 0 <= k < |rest| && IsTagText(rest[..k]) ==> rest[k] != '$'
    ensures IsFirst(db, afterE, "$", Plain, rest)
  {
    hide Find;
    var r := "$" + rest;
    assert r[1..] == rest;
    var k := Find(rest, "$");
    assert k >= 0 ==> rest[k..k + 1] == "$" && rest[k] == '$';
    NotComment(r);
    assert !IsDollarQuoted(db, r);
    FirstByHead(db, afterE, "$", Plain, rest);
  }

  // ----- Numbers, words, blanks and symbols

  predicate IsInNumber(c: char) {
    '0' <= c <= '9' || 'a' <= c <= 'z' || 'A' <= c <= 'Z' || c == '.' || c == '_'
  }

  /** A number starts with a digit and goes on over letters, digits, dots and underscores. */
  lemma NumberIsOne(db: Database, afterE: bool, text: string, rest: string)
    requires text != "" && '0' <= text[0] <= '9' && forall i :: 0 <= i < |text| ==> IsInNumber(text[i])
    requires rest != "" ==> !IsInNumber(rest[0])
    ensures IsFirst(db, afterE, text, Number, rest)
  {
    hide NumberEnd;
    var r := text + rest;
    assert r[0] == text[0] && r[1..] == text[1..] + rest;
    NumberGoesOn(text[1..], rest);
    FirstByHead(db, afterE, text, Number, rest);
  }

  lemma {:induction false} NumberGoesOn(text: string, rest: string)
    requires (forall i :: 0 <= i < |text| ==> IsInNumber(text[i])) && (rest != "" ==> !IsInNumber(rest[0]))
    ensures NumberEnd(text + rest) == |text|
  {
    if text == "" {
      assert text + rest == rest;
    } else {
      assert (text + rest)[1..] == text[1..] + rest;
      NumberGoesOn(text[1..], rest);
    }
  }

  /** A word starts with a letter, an underscore or any character beyond ASCII, and goes on over
      letters, digits and underscores. U& before a quote is no word, except in Kyuubi. */
  lemma WordIsOne(db: Database, afterE: bool, text: string, rest: string)
    requires text != ""
    requires 'a' <= text[0] <= 'z' || 'A' <= text[0] <= 'Z' || text[0] == '_' || text[0] as int >= 128
    requires forall i :: 0 < i < |text| ==> IsAlphanumeric(text[i]) || text[i] == '_'
    requires rest != "" ==> !IsAlphanumeric(rest[0]) && rest[0] != '_'
    requires db == Kyuubi || !((text == "U" || text == "u") && |rest| > 1 && rest[0] == '&' && rest[1] in "'\"")
    ensures IsFirst(db, afterE, text, Plain, rest)
  {
    hide WordEnd, IsAlphanumeric;
    var r := text + rest;
    assert r[0] == text[0] && r[1..] == text[1..] + rest;
    assert forall i :: 0 <= i < |text| - 1 ==> text[1..][i] == text[i + 1];
    WordGoesOn(text[1..], rest);
    AndIsNoWord();
    assert |text| > 1 ==> r[1] == text[1];
    assert |text| == 1 && |rest| > 1 ==> r[1] == rest[0] && r[2] == rest[1];
    FirstByHead(db, afterE, text, Plain, rest);
  }

  lemma AndIsNoWord()
    ensures !IsAlphanumeric('&')
  {
  }

  lemma {:induction false} WordGoesOn(text: string, rest: string)
    requires forall i :: 0 <= i < |text| ==> IsAlphanumeric(text[i]) || text[i] == '_'
    requires rest != "" ==> !IsAlphanumeric(rest[0]) && rest[0] != '_'
    ensures WordEnd(text + rest) == |text|
  {
    hide IsAlphanumeric;
    if text == "" {
      assert text + rest == rest;
    } else {
      assert (text + rest)[1..] == text[1..] + rest;
      WordGoesOn(text[1..], rest);
    }
  }

  predicate IsSpace(c: char) { c == ' ' || c == '\t' || c == '\n' || c == '\r' || c == '\U{0C}' }

  /** A stretch of spaces, tabs, form feeds and line breaks is one token. */
  lemma BlanksAreOne(db: Database, afterE: bool, text: string, rest: string)
    requires text != "" && forall i :: 0 <= i < |text| ==> IsSpace(text[i])
    requires rest != "" ==> !IsSpace(rest[0])
    ensures IsFirst(db, afterE, text, Plain, rest)
  {
    hide BlankEnd, IsAlphanumeric;
    var r := text + rest;
    assert r[0] == text[0];
    BlanksGoOn(text, rest);
    FirstByHead(db, afterE, text, Plain, rest);
  }

  lemma {:induction false} BlanksGoOn(text: string, rest: string)
    requires (forall i :: 0 <= i < |text| ==> IsSpace(text[i])) && (rest != "" ==> !IsSpace(rest[0]))
    ensures BlankEnd(text + rest) == |text|
  {
    if text == "" {
      assert text + rest == rest;
    } else {
      assert (text + rest)[1..] == text[1..] + rest;
      BlanksGoOn(text[1..], rest);
    }
  }

  /** Every other ASCII character is a token; only the semicolon is a separator. */
  lemma SymbolIsOne(db: Database, afterE: bool, c: char, rest: string)
    requires c as int < 128 && !('a' <= c <= 'z') && !('A' <= c <= 'Z') && !('0' <= c <= '9')
    requires !IsSpace(c) && c !in "_$'\"`"
    requires c == '-' && rest != "" ==> rest[0] != '-'
    requires c == '/' && rest != "" ==> rest[0] != '*'
    ensures IsFirst(db, afterE, [c], if c == ';' then Separator else Plain, rest)
  {
    hide LineEnd, BlockEnd, QuoteEnd, DollarOpen, DollarEnd, NumberEnd, WordEnd, BlankEnd;
    var r := [c] + rest;
    assert r[0] == c && (|r| > 1 ==> r[1] == rest[0]);
    FirstByHead(db, afterE, [c], if c == ';' then Separator else Plain, rest);
  }

  // ----- An E before a string

  lemma LettersAreWord(word: string)
    requires forall i :: 0 <= i < |word| ==> 'a' <= word[i] <= 'z' || 'A' <= word[i] <= 'Z'
    ensures (forall i :: 0 <= i < |word| ==> IsAlphanumeric(word[i])) && !IsAlphanumeric('\'')
  {
  }

  lemma BothAreFirst(db: Database, word: string, text: string, rest: string)
    requires word != "" && text != "" && text[|text| - 1] == '\''
    ensures IsFirst(db, false, word, Plain, text + rest)
            && IsFirst(db, word[|word| - 1] in "Ee", text, String, rest) ==>
              Tokens(db, word + (text + rest)) == [Token(word, Plain), Token(text, String)] + Lex(db, false, rest)
  {
    hide Lex;
    assert forall x :: [Token(word, Plain)] + ([Token(text, String)] + x)
                       == [Token(word, Plain), Token(text, String)] + x;
  }

  /** In Postgres a string right after a word is read with or without hiding backslashes, as
      the word ends in an E or not. */
  lemma EscapeString(word: string, units: seq<Unit>, rest: string)
    requires word != "" && forall i :: 0 <= i < |word| ==> 'a' <= word[i] <= 'z' || 'A' <= word[i] <= 'Z'
    requires AreUnits(units, '\'', word[|word| - 1] == 'E' || word[|word| - 1] == 'e')
    requires rest != "" ==> rest[0] != '\''
    ensures var text := "'" + Body(units, '\'') + "'";
            Tokens(Postgres, word + (text + rest))
            == [Token(word, Plain), Token(text, String)] + Lex(Postgres, false, rest)
  {
    hide Lex, Body, AreUnits, IsFirst, IsAlphanumeric;
    var text := "'" + Body(units, '\'') + "'";
    assert (text + rest)[0] == '\'';
    LettersAreWord(word);
    BothAreFirst(Postgres, word, text, rest);
    WordIsOne(Postgres, false, word, text + rest);
    QuotedIsOne(Postgres, word[|word| - 1] in "Ee", '\'', units, rest);
  }
}
