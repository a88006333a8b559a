/** Schema mapping rules as text, `parse_schema_rules` and
    `format_schema_rules` of src/model.rs. */
module SchemaRules {
  import opened Chars

  datatype RuleKind = Prefix | Exact

  datatype Rule = Rule(kind: RuleKind, from: string, to: string)

  datatype Parsed = Rules(rules: seq<Rule>) | InvalidLine(number: nat)

  datatype Line = Empty | Accepted(rule: Rule) | Invalid

  predicate IsNameChar(c: char) { IsAlphanumeric(c) || c == '_' || c == '-' }

  predicate IsName(text: string) { forall i :: 0 <= i < |text| ==> IsNameChar(text[i]) }

  predicate WellFormed(rule: Rule) {
    IsName(rule.from) && IsName(rule.to) && rule.from != "" && (rule.kind == Exact ==> rule.to != "")
  }

  function WithoutReturn(line: string): string {
    if line != "" && line[|line| - 1] == '\r' then line[..|line| - 1] else line
  }

  /** `str::lines` */
  function Lines(text: string): seq<string> {
    if text == "" then []
    else
      var at := Find(text, "\n");
      if at < 0 then [text] else [WithoutReturn(text[..at])] + Lines(text[at + 1..])
  }

  predicate EndsInStar(text: string) { text != "" && text[|text| - 1] == '*' }

  function ParseLine(line: string): Line {
    var text := Trim(line);
    var at := Find(text, "=");
    if text == "" then Empty
    else if at < 0 then Invalid
    else
      var from, to := Trim(text[..at]), Trim(text[at + 1..]);
      if EndsInStar(from) != EndsInStar(to) then Invalid
      else
        var rule := if EndsInStar(from) then Rule(Prefix, from[..|from| - 1], to[..|to| - 1])
            else Rule(Exact, from, to);
        if WellFormed(rule) then Accepted(rule) else Invalid
  }

  /** The rules of `lines`, the first of which has number `number`. */
  function ParseLines(lines: seq<string>, number: nat): Parsed {
    if lines == [] then Rules([])
    else
      match ParseLine(lines[0])
      case Invalid => InvalidLine(number)
      case Empty => ParseLines(lines[1..], number + 1)
      case Accepted(rule) =>
        var rest := ParseLines(lines[1..], number + 1);
        if rest.Rules? then Rules([rule] + rest.rules) else rest
  }

  function Parse(text: string): Parsed { ParseLines(Lines(text), 1) }

  function FormatRule(rule: Rule): string {
    if rule.kind == Prefix then rule.from + ("*" + " = ") + (rule.to + "*") else rule.from + " = " + rule.to
  }

  /** `format_schema_rules` */
  function Format(rules: seq<Rule>): string {
    if rules == [] then ""
    else if |rules| == 1 then FormatRule(rules[0])
    else FormatRule(rules[0]) + ("\n" + Format(rules[1..]))
  }

  /** The loop of `parse_schema_rules` */
  method ParseSchemaRules(text: string) returns (parsed: Parsed)
    ensures parsed == Parse(text)
  {
    hide ParseLine, Lines;
    var lines := Lines(text);
    var rules := [];
    assert lines[0..] == lines;
    for number := 0 to |lines|
      invariant var rest := ParseLines(lines[number..], number + 1);
                Parse(text) == if rest.Rules? then Rules(rules + rest.rules) else rest
    {
      assert lines[number..][1..] == lines[number + 1..];
      match ParseLine(lines[number]) {
        case Empty =>
        case Invalid => return InvalidLine(number + 1);
        case Accepted(rule) =>
          ghost var rest := ParseLines(lines[number + 1..], number + 2);
          assert rest.Rules? ==> (rules + [rule]) + rest.rules == rules + ([rule] + rest.rules);
          rules := rules + [rule];
      }
    }
    parsed := Rules(rules);
  }

  /** Every accepted rule is well formed. */
  lemma {:induction false} ParsedIsWellFormed(lines: seq<string>, number: nat)
    ensures var parsed := ParseLines(lines, number);
            parsed.Rules? ==> forall rule :: rule in parsed.rules ==> WellFormed(rule)
  {
    if lines != [] {
      hide Trim, WellFormed;
      ParsedIsWellFormed(lines[1..], number + 1);
    }
  }

  // ----- What a line says

  /** A name of letters, digits, underscores and hyphens. */
  ghost predicate IsPlainName(text: string) {
    forall i :: 0 <= i < |text| ==> IsAlphanumeric(text[i]) || text[i] in "_-"
  }

  /** The trimmed line is the rule: two names with an equals sign between them, each with a star
      for a prefix; only the second name of a prefix can be empty. */
  ghost predicate Says(line: string, rule: Rule) {
    exists left, right :: IsSplitAt(Trim(line), left, right) && AreSides(Trim(left), Trim(right), rule)
  }

  ghost predicate IsSplitAt(text: string, left: string, right: string) {
    text == left + "=" + right && '=' !in left
  }

  ghost predicate AreSides(from: string, to: string, rule: Rule) {
    && IsPlainName(rule.from) && IsPlainName(rule.to) && rule.from != ""
    && match rule.kind
       case Prefix => from == rule.from + "*" && to == rule.to + "*"
       case Exact => from == rule.from && to == rule.to && to != ""
  }

  lemma PlainIsName(text: string)
    ensures IsPlainName(text) <==> IsName(text)
  {
    assert forall c :: c in "_-" <==> c == '_' || c == '-';
  }

  lemma NoStarInName(name: string)
    requires IsName(name)
    ensures !EndsInStar(name) && EndsInStar(name + "*") && (name + "*")[..|name|] == name
  {
    assert !IsNameChar('*');
  }

  /** The first equals sign splits the text. */
  lemma SplitIs(text: string)
    ensures var at := Find(text, "=");
            if at < 0 then forall left, right :: !IsSplitAt(text, left, right)
            else
              && IsSplitAt(text, text[..at], text[at + 1..])
              && forall left, right :: IsSplitAt(text, left, right) ==> left == text[..at] && right == text[at + 1..]
  {
    hide Find;
    var at := Find(text, "=");
    forall left, right | IsSplitAt(text, left, right)
      ensures at == |left| && left == text[..at] && right == text[at + 1..]
    {
      FindAfter(left, '=', right);
    }
    if at >= 0 {
      assert text[at..at + 1] == "=" && text == text[..at] + "=" + text[at + 1..];
      forall i | 0 <= i < at
        ensures text[i] != '='
      {
        if text[i] == '=' {
          assert text[i..i + |"="|] == "=";
          FindIsFirst(text, "=", i);
        }
      }
    }
  }

  /** A line is read exactly as what it says, and is empty exactly when it is blank. */
  lemma LineSays(line: string, rule: Rule)
    ensures ParseLine(line) == Accepted(rule) <==> Says(line, rule)
    ensures ParseLine(line) == Empty <==> Trim(line) == ""
  {
    hide Trim, Find, WellFormed, IsPlainName, EndsInStar;
    var text := Trim(line);
    var at := Find(text, "=");
    SplitIs(text);
    if text != "" && at >= 0 {
      SidesAre(Trim(text[..at]), Trim(text[at + 1..]), rule);
    }
    assert text == "" ==> forall left, right :: !IsSplitAt(text, left, right);
  }

  lemma SidesAre(from: string, to: string, rule: Rule)
    ensures AreSides(from, to, rule)
            <==> && EndsInStar(from) == EndsInStar(to) && WellFormed(rule)
                 && rule == if EndsInStar(from) then Rule(Prefix, from[..|from| - 1], to[..|to| - 1])
                            else Rule(Exact, from, to)
  {
    PlainIsName(rule.from);
    PlainIsName(rule.to);
    if WellFormed(rule) {
      NoStarInName(rule.from);
      NoStarInName(rule.to);
    }
    assert EndsInStar(from) ==> from == from[..|from| - 1] + "*";
    assert EndsInStar(to) ==> to == to[..|to| - 1] + "*";
  }

  // ----- Trimming

  predicate IsSolid(text: string) { text != "" && IsTrimmed(text) }

  lemma TrimSolid(text: string)
    requires IsSolid(text)
    ensures Trim(text) == text && Trim(text + " ") == text && Trim(" " + text) == text
  {
  }

  // ----- One line

  predicate Without(text: string, c: char) { forall i :: 0 <= i < |text| ==> text[i] != c }

  /** The first `c` stands after a text without it. */
  lemma {:induction false} FindAfter(a: string, c: char, b: string)
    requires Without(a, c)
    ensures Find(a + [c] + b, [c]) == |a|
  {
    var text := a + [c] + b;
    if a == "" {
      assert [c] <= text;
    } else {
      assert text[1..] == a[1..] + [c] + b;
      assert text[0] == a[0] != c;
      FindAfter(a[1..], c, b);
    }
  }

  lemma NameIsPlain(name: string)
    requires IsName(name)
    ensures Without(name, '=') && Without(name, '\n') && Without(name, '*')
    ensures name != "" ==> IsSolid(name)
    ensures IsSolid(name + "*")
  {
    if name != "" {
      assert IsNameChar(name[0]) && IsNameChar(name[|name| - 1]);
      assert (name + "*")[0] == name[0];
    }
  }

  /** The two sides of a printed rule. */
  function Left(rule: Rule): string { if rule.kind == Prefix then rule.from + "*" else rule.from }

  function Right(rule: Rule): string { if rule.kind == Prefix then rule.to + "*" else rule.to }

  lemma FormatSides(rule: Rule)
    requires WellFormed(rule)
    ensures FormatRule(rule) == Left(rule) + " " + "=" + (" " + Right(rule))
    ensures IsSolid(Left(rule)) && IsSolid(Right(rule)) && IsSolid(FormatRule(rule))
    ensures Without(Left(rule) + " ", '=') && Without(FormatRule(rule), '\n')
  {
    NameIsPlain(rule.from);
    NameIsPlain(rule.to);
    var line := FormatRule(rule);
    assert line == Left(rule) + " " + "=" + (" " + Right(rule));
    assert line[0] == Left(rule)[0] && line[|line| - 1] == Right(rule)[|Right(rule)| - 1];
  }

  lemma ParsePrinted(rule: Rule)
    requires WellFormed(rule)
    ensures ParseLine(FormatRule(rule)) == Accepted(rule)
  {
    hide Trim, Find, FormatRule, IsSolid, WellFormed;
    var line, a, b := FormatRule(rule), Left(rule) + " ", " " + Right(rule);
    FormatSides(rule);
    TrimSolid(line);
    FindAfter(a, '=', b);
    assert line == a + ['='] + b;
    assert line[..|a|] == a && line[|a| + 1..] == b;
    TrimSolid(Left(rule));
    TrimSolid(Right(rule));
    SidesGiveRule(rule);
    SolidIsNotEmpty(line);
  }

  lemma SolidIsNotEmpty(text: string)
    requires IsSolid(text)
    ensures text != ""
  {
  }

  lemma SidesGiveRule(rule: Rule)
    requires WellFormed(rule)
    ensures EndsInStar(Left(rule)) == EndsInStar(Right(rule)) == (rule.kind == Prefix)
    ensures rule.kind == Prefix ==>
              Left(rule)[..|Left(rule)| - 1] == rule.from && Right(rule)[..|Right(rule)| - 1] == rule.to
  {
  }

  // ----- The round trip

  lemma {:induction false} NotFound(text: string, c: char)
    requires Without(text, c)
    ensures Find(text, [c]) == -1
  {
    if text != "" {
      assert text[0] != [c][0] && !([c] <= text);
      NotFound(text[1..], c);
    }
  }

  lemma LinesOfOne(line: string)
    requires line != "" && Without(line, '\n')
    ensures Lines(line) == [line]
  {
    NotFound(line, '\n');
  }

  lemma LineFeed(line: string, rest: string)
    requires Without(line, '\n')
    ensures Lines(line + ("\n" + rest)) == [WithoutReturn(line)] + Lines(rest)
  {
    hide WithoutReturn;
    var text := line + ("\n" + rest);
    assert text == line + ['\n'] + rest;
    FindAfter(line, '\n', rest);
    assert text[..|line|] == line && text[|line| + 1..] == rest;
  }

  lemma ReturnGoes(line: string)
    ensures WithoutReturn(line + "\r") == line
    ensures line == "" || line[|line| - 1] != '\r' ==> WithoutReturn(line) == line
    ensures Without(line, '\n') ==> Without(line + "\r", '\n')
  {
    assert (line + "\r")[..|line|] == line;
  }

  lemma ReturnFeed(line: string, rest: string)
    ensures (line + "\r") + ("\n" + rest) == line + ("\r\n" + rest)
  {
  }

  /** A line ends at its line feed, with a carriage return before that; the last one needs none. */
  lemma LineEnds(line: string, rest: string)
    requires Without(line, '\n')
    ensures Lines(line + ("\r\n" + rest)) == [line] + Lines(rest)
    ensures line == "" || line[|line| - 1] != '\r' ==> Lines(line + ("\n" + rest)) == [line] + Lines(rest)
    ensures Lines(line) == if line == "" then [] else [line]
  {
    hide Lines, WithoutReturn;
    ReturnGoes(line);
    LineFeed(line, rest);
    LineFeed(line + "\r", rest);
    ReturnFeed(line, rest);
    if line == "" {
      NoLines();
    } else {
      LinesOfOne(line);
    }
  }

  lemma LinesOfTwo(line: string, rest: string)
    requires IsSolid(line) && Without(line, '\n')
    ensures Lines(line + ("\n" + rest)) == [line] + Lines(rest)
  {
    hide Lines;
    LineFeed(line, rest);
  }

  lemma {:induction false} ParseFormatted(rules: seq<Rule>, number: nat)
    requires forall rule :: rule in rules ==> WellFormed(rule)
    ensures ParseLines(Lines(Format(rules)), number) == Rules(rules)
  {
    hide ParseLine, FormatRule, WellFormed, IsSolid, Lines;
    if rules == [] {
      NoLines();
    } else {
      var line, rest := FormatRule(rules[0]), rules[1..];
      FormatSides(rules[0]);
      SolidIsNotEmpty(line);
      ParsePrinted(rules[0]);
      if rest == [] {
        LinesOfOne(line);
        NoLines();
        assert ParseLines([line], number) == Rules([rules[0]]);
      } else {
        ParseFormatted(rest, number + 1);
        LinesOfTwo(line, Format(rest));
        assert ([line] + Lines(Format(rest)))[1..] == Lines(Format(rest));
      }
    }
  }

  lemma NoLines()
    ensures Lines("") == []
  {
  }

  /** What is accepted is well formed, and every well-formed list can be printed and read back. */
  lemma SchemaRulesRoundTrip(text: string, rules: seq<Rule>)
    ensures Parse(text).Rules? ==> forall rule :: rule in Parse(text).rules ==> WellFormed(rule)
    ensures (forall rule :: rule in rules ==> WellFormed(rule)) <==> Parse(Format(rules)) == Rules(rules)
  {
    ParsedIsWellFormed(Lines(text), 1);
    ParsedIsWellFormed(Lines(Format(rules)), 1);
    if forall rule :: rule in rules ==> WellFormed(rule) {
      ParseFormatted(rules, 1);
    }
  }
}
