/** What formatting may change and what it keeps, when the check of src/sql.rs
    accepts it: `same_tokens_for`, from the side of the two texts. */
module AcceptedText {
  import opened Chars
  import opened Lexer
  import opened Statements
  import opened TokenEquivalence

  // ----- What is kept

  predicate IsNamed(t: Significant) {
    t.kind == Plain && t.text != "" && (IsAlphanumeric(t.text[0]) || t.text[0] == '_')
  }

  /** A symbol, but no comma, parenthesis or bracket. */
  predicate IsOperator(t: Significant) {
    t.kind == Plain && !IsNamed(t) && (t.text == "" || t.text[0] !in ",()[]")
  }

  predicate IsDotted(tokens: seq<Significant>, i: nat)
    requires i < |tokens|
  {
    (i > 0 && tokens[i - 1].text == ".") || (i + 1 < |tokens| && tokens[i + 1].text == ".")
  }

  /** The two texts differ at most in the letter case of ASCII letters. */
  predicate DifferInCase(a: string, b: string) {
    |a| == |b| && forall k :: 0 <= k < |a| ==>
      || a[k] == b[k]
      || ('A' <= a[k] <= 'Z' && b[k] as int == a[k] as int + 32)
      || ('A' <= b[k] <= 'Z' && a[k] as int == b[k] as int + 32)
  }

  /** Each longest stretch of operators with no blank between them, as one text. */
  function Runs(tokens: seq<Significant>): seq<string> {
    if tokens == [] then []
    else
      var n := |tokens| - 1;
      var runs, t := Runs(tokens[..n]), tokens[n];
      if !IsOperator(t) then runs
      else if n > 0 && IsOperator(tokens[n - 1]) && !t.spaceBefore && runs != [] then
        runs[..|runs| - 1] + [runs[|runs| - 1] + t.text]
      else runs + [t.text]
  }

  /** The last token before place `i` that is no comment is a string. */
  ghost predicate FollowsString(tokens: seq<Significant>, i: nat)
    requires i <= |tokens|
  {
    exists j :: 0 <= j < i && tokens[j].kind == String && forall m :: j < m < i ==> tokens[m].kind == Comment
  }

  /** What is the same in both texts. */
  ghost predicate IsKept(db: Database, a: seq<Significant>, b: seq<Significant>) {
    && |a| == |b|
    && (forall i :: 0 <= i < |a| ==> a[i].kind == b[i].kind && DifferInCase(a[i].text, b[i].text))
    && (forall i :: 0 <= i < |a| && (!IsNamed(a[i]) || IsDotted(a, i)) ==> a[i].text == b[i].text)
    && Runs(a) == Runs(b)
    && (forall i :: 0 < i < |a| && IsNamed(a[i - 1]) && a[i].kind == String ==> a[i].spaceBefore == b[i].spaceBefore)
    && (db == Postgres ==>
          forall i :: 0 <= i < |a| && a[i].kind == String && FollowsString(a, i) ==>
            a[i].lineBreakBefore == b[i].lineBreakBefore)
  }

  // ----- The parts of the check

  lemma CaseIsLetters(a: string, b: string)
    ensures DifferInCase(a, b) <==> SameLetters(a, b)
  {
    if |a| == |b| {
      forall k | 0 <= k < |a|
        ensures Lower(a[k]) == Lower(b[k]) <==>
                  || a[k] == b[k]
                  || ('A' <= a[k] <= 'Z' && b[k] as int == a[k] as int + 32)
                  || ('A' <= b[k] <= 'Z' && a[k] as int == b[k] as int + 32)
      {
        OneLetter(a[k], b[k]);
      }
    }
  }

  lemma OneLetter(c: char, d: char)
    ensures Lower(c) == Lower(d) <==>
              || c == d
              || ('A' <= c <= 'Z' && d as int == c as int + 32)
              || ('A' <= d <= 'Z' && c as int == d as int + 32)
  {
  }

  lemma {:induction false} FollowsIsEnds(tokens: seq<Significant>, i: nat)
    requires i <= |tokens|
    ensures FollowsString(tokens, i) <==> EndsInString(tokens[..i])
  {
    if i > 0 {
      var last := tokens[i - 1];
      assert tokens[..i][..i - 1] == tokens[..i - 1] && tokens[..i][i - 1] == last;
      FollowsIsEnds(tokens, i - 1);
      if last.kind == Comment {
        if FollowsString(tokens, i - 1) {
          var j :| 0 <= j < i - 1 && tokens[j].kind == String
                   && forall m :: j < m < i - 1 ==> tokens[m].kind == Comment;
          assert forall m :: j < m < i ==> tokens[m].kind == Comment;
        }
      }
    }
  }

  /** The blanks between operators are the same as far as place `n`. */
  ghost predicate SameGaps(a: seq<Significant>, b: seq<Significant>, n: nat)
    requires n <= |a| == |b|
  {
    forall i :: 0 < i < n && IsOperator(a[i - 1]) && IsOperator(a[i]) ==> a[i].spaceBefore == b[i].spaceBefore
  }

  ghost predicate SameOperators(a: seq<Significant>, b: seq<Significant>) {
    |a| == |b| && forall i :: 0 <= i < |a| ==>
      IsOperator(a[i]) == IsOperator(b[i]) && (IsOperator(a[i]) ==> a[i].text == b[i].text)
  }

  lemma {:induction false} RunsNotEmpty(tokens: seq<Significant>)
    requires forall t :: t in tokens ==> t.text != ""
    ensures forall i :: 0 <= i < |Runs(tokens)| ==> Runs(tokens)[i] != ""
    ensures tokens != [] && IsOperator(tokens[|tokens| - 1]) ==> Runs(tokens) != []
  {
    if tokens != [] {
      RunsNotEmpty(tokens[..|tokens| - 1]);
    }
  }

  lemma RunsStep(tokens: seq<Significant>, n: nat)
    requires n < |tokens| && forall t :: t in tokens ==> t.text != ""
    ensures var runs, t := Runs(tokens[..n]), tokens[n];
            var joins := n > 0 && IsOperator(tokens[n - 1]) && !t.spaceBefore;
            && (IsOperator(t) && joins ==> runs != [] && runs[|runs| - 1] != "")
            && Runs(tokens[..n + 1])
               == if !IsOperator(t) then runs
                  else if joins then runs[..|runs| - 1] + [runs[|runs| - 1] + t.text] else runs + [t.text]
  {
    hide IsOperator;
    var some := tokens[..n + 1];
    assert some[..n] == tokens[..n] && some[n] == tokens[n];
    RunsNotEmpty(tokens[..n]);
    assert n > 0 ==> tokens[..n][n - 1] == tokens[n - 1] == some[n - 1];
  }

  lemma JoinOrNot(runs: seq<string>, others: seq<string>, text: string)
    requires runs != [] && runs[|runs| - 1] != ""
    ensures runs[..|runs| - 1] + [runs[|runs| - 1] + text] != others + [text]
  {
    var x, y := runs[..|runs| - 1] + [runs[|runs| - 1] + text], others + [text];
    assert |x[|x| - 1]| > |y[|y| - 1]|;
  }

  lemma JoinBoth(runs: seq<string>, others: seq<string>, text: string)
    requires runs != [] && others != []
    requires runs[..|runs| - 1] + [runs[|runs| - 1] + text] == others[..|others| - 1] + [others[|others| - 1] + text]
    ensures runs == others
  {
    var x, y := runs[..|runs| - 1] + [runs[|runs| - 1] + text], others[..|others| - 1] + [others[|others| - 1] + text];
    assert x[..|runs| - 1] == runs[..|runs| - 1] && y[..|others| - 1] == others[..|others| - 1];
    var p, q := runs[|runs| - 1], others[|others| - 1];
    assert x[|runs| - 1] == p + text && y[|others| - 1] == q + text;
    assert (p + text)[..|p|] == p && (q + text)[..|q|] == q;
    assert runs == runs[..|runs| - 1] + [p] && others == others[..|others| - 1] + [q];
  }

  lemma PushBoth(runs: seq<string>, others: seq<string>, text: string)
    requires runs + [text] == others + [text]
    ensures runs == others
  {
    assert (runs + [text])[..|runs|] == runs && (others + [text])[..|others|] == others;
  }

  /** The stretches of operators are the same texts exactly when the same blanks divide them. */
  lemma {:induction false} RunsAreGaps(a: seq<Significant>, b: seq<Significant>, n: nat)
    requires SameOperators(a, b) && n <= |a|
    requires forall t :: t in a || t in b ==> t.text != ""
    ensures Runs(a[..n]) == Runs(b[..n]) <==> SameGaps(a, b, n)
  {
    hide IsOperator, Runs;
    if n == 0 {
      assert a[..0] == b[..0] == [];
    } else {
      var k := n - 1;
      RunsAreGaps(a, b, k);
      RunsStep(a, k);
      RunsStep(b, k);
      var r, s, text := Runs(a[..k]), Runs(b[..k]), a[k].text;
      if IsOperator(a[k]) {
        if k > 0 && IsOperator(a[k - 1]) {
          if a[k].spaceBefore != b[k].spaceBefore {
            if a[k].spaceBefore {
              JoinOrNot(s, r, text);
            } else {
              JoinOrNot(r, s, text);
            }
          } else if !a[k].spaceBefore {
            if Runs(a[..n]) == Runs(b[..n]) {
              JoinBoth(r, s, text);
            }
          } else if Runs(a[..n]) == Runs(b[..n]) {
            PushBoth(r, s, text);
          }
        } else if Runs(a[..n]) == Runs(b[..n]) {
          PushBoth(r, s, text);
        }
      }
      GapsStep(a, b, k);
    }
  }

  lemma GapsStep(a: seq<Significant>, b: seq<Significant>, k: nat)
    requires k < |a| == |b|
    ensures SameGaps(a, b, k + 1) <==>
              SameGaps(a, b, k)
              && (k > 0 && IsOperator(a[k - 1]) && IsOperator(a[k]) ==> a[k].spaceBefore == b[k].spaceBefore)
  {
    hide IsOperator;
  }

  lemma {:induction false} SignificantNotEmpty(tokens: seq<Token>, space: bool, lineBreak: bool)
    ensures forall t :: t in SignificantFrom(tokens, space, lineBreak) ==> t.text != ""
  {
    hide HasLineBreak;
    if tokens != [] {
      var t := tokens[0];
      SignificantNotEmpty(tokens[1..], true, lineBreak || HasLineBreak(t.text));
      SignificantNotEmpty(tokens[1..], false, t.kind == Comment && (lineBreak || HasLineBreak(t.text)));
    }
  }

  lemma SameClasses(t: Significant)
    ensures IsNamed(t) == IsWord(t) && IsOperator(t) == IsSymbol(t)
  {
  }

  /** One token of the check, in terms of what is kept. */
  ghost predicate IsKeptAt(db: Database, a: seq<Significant>, b: seq<Significant>, i: nat)
    requires i < |a| == |b|
  {
    && a[i].kind == b[i].kind && DifferInCase(a[i].text, b[i].text)
    && (!IsNamed(a[i]) || IsDotted(a, i) ==> a[i].text == b[i].text)
    && (i > 0 && IsOperator(a[i - 1]) && IsOperator(a[i]) ==> a[i].spaceBefore == b[i].spaceBefore)
    && (i > 0 && IsNamed(a[i - 1]) && a[i].kind == String ==> a[i].spaceBefore == b[i].spaceBefore)
    && (db == Postgres && a[i].kind == String && FollowsString(a, i) ==> a[i].lineBreakBefore == b[i].lineBreakBefore)
  }

  lemma SameIsKeptAt(db: Database, a: seq<Significant>, b: seq<Significant>, i: nat)
    requires i < |a| == |b|
    ensures SameToken(db, a, b, i) <==> IsKeptAt(db, a, b, i)
  {
    hide IsWord, IsSymbol, IsNamed, IsOperator, EndsInString, SameLetters, DifferInCase, FollowsString;
    CaseIsLetters(a[i].text, b[i].text);
    CaseIsLetters(a[i].text, a[i].text);
    EqualLetters(a[i].text);
    FollowsIsEnds(a, i);
    SameClasses(a[i]);
    if i > 0 {
      SameClasses(a[i - 1]);
    }
  }

  lemma EqualLetters(text: string)
    ensures SameLetters(text, text)
  {
  }

  lemma KeptOperators(db: Database, a: seq<Significant>, b: seq<Significant>)
    requires |a| == |b|
    requires forall i :: 0 <= i < |a| ==> a[i].kind == b[i].kind && DifferInCase(a[i].text, b[i].text)
    requires forall i :: 0 <= i < |a| && !IsNamed(a[i]) ==> a[i].text == b[i].text
    ensures SameOperators(a, b)
  {
    forall i | 0 <= i < |a|
      ensures IsOperator(a[i]) == IsOperator(b[i]) && (IsOperator(a[i]) ==> a[i].text == b[i].text)
    {
      if IsNamed(a[i]) {
        StillNamed(a[i], b[i]);
      }
    }
  }

  lemma StillNamed(t: Significant, u: Significant)
    requires IsNamed(t) && t.kind == u.kind && DifferInCase(t.text, u.text)
    ensures IsNamed(u)
  {
    CaseIsLetters(t.text, u.text);
    LettersKeepClass(t.text, u.text);
  }

  ghost predicate AllKept(db: Database, a: seq<Significant>, b: seq<Significant>) {
    |a| == |b| && forall i :: 0 <= i < |a| ==> IsKeptAt(db, a, b, i)
  }

  lemma KeptIsAll(db: Database, a: seq<Significant>, b: seq<Significant>)
    requires forall t :: t in a || t in b ==> t.text != ""
    ensures IsKept(db, a, b) <==> AllKept(db, a, b)
  {
    hide IsNamed, IsOperator, DifferInCase, FollowsString, Runs, IsDotted;
    if |a| == |b| {
      assert a[..|a|] == a && b[..|b|] == b;
      if AllKept(db, a, b) {
        forall i | 0 <= i < |a|
          ensures a[i].kind == b[i].kind && DifferInCase(a[i].text, b[i].text)
          ensures !IsNamed(a[i]) || IsDotted(a, i) ==> a[i].text == b[i].text
          ensures i > 0 && IsOperator(a[i - 1]) && IsOperator(a[i]) ==> a[i].spaceBefore == b[i].spaceBefore
          ensures i > 0 && IsNamed(a[i - 1]) && a[i].kind == String ==> a[i].spaceBefore == b[i].spaceBefore
          ensures db == Postgres && a[i].kind == String && FollowsString(a, i) ==>
                    a[i].lineBreakBefore == b[i].lineBreakBefore
        {
          assert IsKeptAt(db, a, b, i);
        }
        KeptOperators(db, a, b);
        RunsAreGaps(a, b, |a|);
      }
      if IsKept(db, a, b) {
        KeptOperators(db, a, b);
        RunsAreGaps(a, b, |a|);
        forall i | 0 <= i < |a|
          ensures IsKeptAt(db, a, b, i)
        {
        }
      }
    }
  }

  /** Formatting is accepted exactly when it keeps what has to be kept: the kinds; all texts
      but the letter case of words that are not part of a dotted name; the stretches of
      operators; whether a string stands right after a word; and in Postgres the line breaks
      that join strings. */
  lemma AcceptedIsKept(db: Database, original: string, formatted: string)
    ensures SameTokens(db, original, formatted)
       <==> IsKept(db, SignificantTokens(db, original), SignificantTokens(db, formatted))
  {
    hide Lex, SignificantFrom, SameToken, IsKeptAt, IsKept;
    var a, b := SignificantTokens(db, original), SignificantTokens(db, formatted);
    SignificantNotEmpty(Tokens(db, original), false, false);
    SignificantNotEmpty(Tokens(db, formatted), false, false);
    KeptIsAll(db, a, b);
    if |a| == |b| {
      forall i | 0 <= i < |a|
        ensures SameToken(db, a, b, i) <==> IsKeptAt(db, a, b, i)
      {
        SameIsKeptAt(db, a, b, i);
      }
    }
  }

  // ----- The marks of a significant token

  /** Token `k` is the significant token number `i`; blanks right before it, and line breaks
      in the blanks and comments since the last other token, are noted. */
  ghost predicate IsMarked(tokens: seq<Token>, k: nat, t: Significant)
    requires k < |tokens|
  {
    && t.kind == tokens[k].kind && t.text == tokens[k].text
    && (t.spaceBefore <==> k > 0 && IsBlank(tokens[k - 1].text))
    && (t.lineBreakBefore <==> BreakBefore(tokens, k))
  }

  ghost predicate BreakBefore(tokens: seq<Token>, k: nat)
    requires k <= |tokens|
  {
    exists j :: 0 <= j < k && HasLineBreak(tokens[j].text)
      && forall m :: j <= m < k ==> IsBlank(tokens[m].text) || tokens[m].kind == Comment
  }

  function Before(tokens: seq<Token>, k: nat): nat
    requires k <= |tokens|
  {
    if k == 0 then 0 else Before(tokens, k - 1) + if IsBlank(tokens[k - 1].text) then 0 else 1
  }

  lemma BreakStep(tokens: seq<Token>, k: nat)
    requires k < |tokens|
    ensures BreakBefore(tokens, k + 1) <==>
              (IsBlank(tokens[k].text) || tokens[k].kind == Comment)
              && (BreakBefore(tokens, k) || HasLineBreak(tokens[k].text))
  {
    hide IsBlank, HasLineBreak;
    var skipped := IsBlank(tokens[k].text) || tokens[k].kind == Comment;
    if BreakBefore(tokens, k + 1) {
      var j :| 0 <= j < k + 1 && HasLineBreak(tokens[j].text)
               && forall m :: j <= m < k + 1 ==> IsBlank(tokens[m].text) || tokens[m].kind == Comment;
      assert skipped;
    }
    if skipped && BreakBefore(tokens, k) {
      var j :| 0 <= j < k && HasLineBreak(tokens[j].text)
               && forall m :: j <= m < k ==> IsBlank(tokens[m].text) || tokens[m].kind == Comment;
      assert forall m :: j <= m < k + 1 ==> IsBlank(tokens[m].text) || tokens[m].kind == Comment;
    }
  }

  /** Every token that is not blank is a significant token, in order, with its marks. */
  lemma {:induction false} SignificantAreMarked(tokens: seq<Token>, k: nat, done: seq<Significant>, space: bool,
                                                lineBreak: bool, j: nat)
    requires k <= j < |tokens| && !IsBlank(tokens[j].text)
    requires |done| == Before(tokens, k) && (space <==> k > 0 && IsBlank(tokens[k - 1].text))
    requires lineBreak <==> BreakBefore(tokens, k)
    ensures var all := done + SignificantFrom(tokens[k..], space, lineBreak);
            Before(tokens, j) < |all| && IsMarked(tokens, j, all[Before(tokens, j)])
    decreases j - k
  {
    hide SignificantFrom, IsBlank, HasLineBreak, BreakBefore;
    SignificantStep(tokens, k, space, lineBreak);
    BreakStep(tokens, k);
    var t := tokens[k];
    var rest := SignificantFrom(tokens[k + 1..], IsBlank(t.text), BreakBefore(tokens, k + 1));
    if IsBlank(t.text) {
      SignificantAreMarked(tokens, k + 1, done, true, BreakBefore(tokens, k + 1), j);
    } else {
      var one := Significant(t.kind, t.text, space, lineBreak);
      Associative(done, [one], rest);
      if j > k {
        SignificantAreMarked(tokens, k + 1, done + [one], false, BreakBefore(tokens, k + 1), j);
      }
    }
  }

  /** What the check compares are the tokens of the text that are not blank, with their marks. */
  lemma MarksAreRight(db: Database, sql: string, j: nat)
    requires j < |Tokens(db, sql)| && !IsBlank(Tokens(db, sql)[j].text)
    ensures var tokens := Tokens(db, sql);
            && Before(tokens, j) < |SignificantTokens(db, sql)|
            && IsMarked(tokens, j, SignificantTokens(db, sql)[Before(tokens, j)])
  {
    hide Lex, SignificantFrom, IsBlank;
    var tokens := Tokens(db, sql);
    assert tokens[0..] == tokens && [] + SignificantTokens(db, sql) == SignificantTokens(db, sql);
    SignificantAreMarked(tokens, 0, [], false, false, j);
  }
}
