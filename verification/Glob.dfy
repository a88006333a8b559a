/** Schema patterns, `glob_match` of src/model.rs. Letter case is folded before;
    both texts here are in lower case. */
module Glob {
  import opened Options

  /** `*` stands for any text and `?` for one character. */
  predicate Matches(pattern: string, text: string) {
    if pattern == "" then text == ""
    else if pattern[0] == '*' then
      Matches(pattern[1..], text) || (text != "" && Matches(pattern, text[1..]))
    else text != "" && (pattern[0] == '?' || pattern[0] == text[0]) && Matches(pattern[1..], text[1..])
  }

  // ----- What a pattern means

  function Join(parts: seq<string>): string {
    if parts == [] then "" else parts[0] + Join(parts[1..])
  }

  /** The text is one part after another, one for each character of the pattern: any text
      for a star, one character for a question mark, and else the character itself. */
  predicate IsSplit(pattern: string, text: string, parts: seq<string>) {
    && |parts| == |pattern| && text == Join(parts)
    && forall i :: 0 <= i < |pattern| ==>
      pattern[i] == '*' || (pattern[i] == '?' && |parts[i]| == 1) || parts[i] == [pattern[i]]
  }

  lemma {:induction false} SplitOf(pattern: string, text: string) returns (parts: seq<string>)
    requires Matches(pattern, text)
    ensures IsSplit(pattern, text, parts)
    decreases |pattern| + |text|
  {
    if pattern == "" {
      parts := [];
    } else if pattern[0] == '*' && Matches(pattern[1..], text) {
      var others := SplitOf(pattern[1..], text);
      parts := [""] + others;
    } else if pattern[0] == '*' {
      var others := SplitOf(pattern, text[1..]);
      parts := [[text[0]] + others[0]] + others[1..];
      assert text == [text[0]] + (others[0] + Join(others[1..]));
    } else {
      var others := SplitOf(pattern[1..], text[1..]);
      parts := [[text[0]]] + others;
      assert text == [text[0]] + text[1..];
    }
  }

  lemma {:induction false} SplitMatches(pattern: string, text: string, parts: seq<string>)
    requires IsSplit(pattern, text, parts)
    ensures Matches(pattern, text)
    decreases |pattern| + |text|
  {
    if pattern != "" {
      var first, others := parts[0], Join(parts[1..]);
      assert text == first + others;
      if pattern[0] == '*' && first != "" {
        var less := [first[1..]] + parts[1..];
        assert text[1..] == first[1..] + others && less[1..] == parts[1..];
        SplitMatches(pattern, text[1..], less);
      } else {
        assert text[|first|..] == others;
        SplitMatches(pattern[1..], others, parts[1..]);
      }
    }
  }

  lemma MatchesIffSplit(pattern: string, text: string)
    ensures Matches(pattern, text) <==> exists parts :: IsSplit(pattern, text, parts)
  {
    if Matches(pattern, text) {
      var parts := SplitOf(pattern, text);
    }
    if parts :| IsSplit(pattern, text, parts) {
      SplitMatches(pattern, text, parts);
    }
  }

  // ----- The loop

  /** The pattern from `p` matches the text from `t`. */
  predicate At(pattern: string, text: string, p: nat, t: nat)
    requires p <= |pattern| && t <= |text|
  {
    Matches(pattern[p..], text[t..])
  }

  lemma AtStep(pattern: string, text: string, p: nat, t: nat)
    requires p <= |pattern| && t <= |text|
    ensures p == |pattern| ==> (At(pattern, text, p, t) <==> t == |text|)
    ensures p < |pattern| && pattern[p] == '*' ==>
              (At(pattern, text, p, t) <==> At(pattern, text, p + 1, t) || (t < |text| && At(pattern, text, p, t + 1)))
    ensures p < |pattern| && pattern[p] != '*' ==>
              (At(pattern, text, p, t) <==>
                 t < |text| && (pattern[p] == '?' || pattern[p] == text[t]) && At(pattern, text, p + 1, t + 1))
  {
  }

  /** A star that matches from a later place also matches from an earlier one. */
  lemma {:induction false} StarReaches(pattern: string, text: string, p: nat, t: nat, later: nat)
    requires p < |pattern| && pattern[p] == '*' && t <= later <= |text| && At(pattern, text, p, later)
    ensures At(pattern, text, p, t)
    decreases later - t
  {
    AtStep(pattern, text, p, t);
    if t < later {
      StarReaches(pattern, text, p, t + 1, later);
    }
  }

  predicate NoStar(pattern: string, low: nat, high: nat)
    requires low <= high <= |pattern|
  {
    forall i :: low <= i < high ==> pattern[i] != '*'
  }

  /** Without a star, matching goes on in step. */
  lemma {:induction false} InStep(pattern: string, text: string, from: nat, p: nat, t: nat)
    requires from <= p <= |pattern| && NoStar(pattern, from, p) && t <= |text| && At(pattern, text, from, t)
    ensures t + (p - from) <= |text| && At(pattern, text, p, t + (p - from))
    decreases p - from
  {
    AtStep(pattern, text, from, t);
    if from < p {
      InStep(pattern, text, from + 1, p, t + 1);
    }
  }

  /** What is left to try: the match in progress, or the last star taking one more character. */
  ghost predicate Left(pattern: string, text: string, p: nat, t: nat, star: Option<(nat, nat)>)
    requires p <= |pattern| && t <= |text|
  {
    At(pattern, text, p, t)
    || (star.Some? && star.value.0 < |pattern| && star.value.1 < |text|
        && At(pattern, text, star.value.0, star.value.1 + 1))
  }

  /** The last star and the place where it stopped taking text. */
  ghost predicate Marked(pattern: string, text: string, p: nat, t: nat, star: Option<(nat, nat)>)
    requires p <= |pattern| && t <= |text|
  {
    star.Some? ==>
      && star.value.0 < p && pattern[star.value.0] == '*' && NoStar(pattern, star.value.0 + 1, p)
      && star.value.1 <= t && t - star.value.1 == p - star.value.0 - 1
  }

  /** Everything that an older star could still do, a new star can do. */
  lemma NewStar(pattern: string, text: string, p: nat, t: nat, star: Option<(nat, nat)>)
    requires p < |pattern| && t < |text| && pattern[p] == '*' && Marked(pattern, text, p, t, star)
    ensures Left(pattern, text, p, t, star) <==> Left(pattern, text, p + 1, t, Some((p, t)))
    ensures Marked(pattern, text, p + 1, t, Some((p, t)))
  {
    AtStep(pattern, text, p, t);
    if star.Some? && At(pattern, text, star.value.0, star.value.1 + 1) {
      var k := StarStops(pattern, text, star.value.0, star.value.1 + 1);
      InStep(pattern, text, star.value.0 + 1, p, k);
      StarReaches(pattern, text, p, t, k + (p - star.value.0 - 1));
    }
  }

  /** Where a star that matches stops. */
  lemma {:induction false} StarStops(pattern: string, text: string, p: nat, t: nat) returns (k: nat)
    requires p < |pattern| && pattern[p] == '*' && t <= |text| && At(pattern, text, p, t)
    ensures t <= k <= |text| && At(pattern, text, p + 1, k)
    decreases |text| - t
  {
    AtStep(pattern, text, p, t);
    if At(pattern, text, p + 1, t) {
      k := t;
    } else {
      k := StarStops(pattern, text, p, t + 1);
    }
  }

  lemma {:induction false} OnlyStars(pattern: string, text: string, p: nat)
    requires p <= |pattern|
    ensures At(pattern, text, p, |text|) <==> forall i :: p <= i < |pattern| ==> pattern[i] == '*'
    decreases |pattern| - p
  {
    AtStep(pattern, text, p, |text|);
    if p < |pattern| {
      OnlyStars(pattern, text, p + 1);
    }
  }

  /** At the end of the text an older star has nothing more to take. */
  lemma EndOfText(pattern: string, text: string, p: nat, star: Option<(nat, nat)>)
    requires p <= |pattern| && Marked(pattern, text, p, |text|, star)
    ensures Left(pattern, text, p, |text|, star) <==> At(pattern, text, p, |text|)
  {
    if star.Some? && star.value.1 < |text| && At(pattern, text, star.value.0, star.value.1 + 1) {
      var k := StarStops(pattern, text, star.value.0, star.value.1 + 1);
      InStep(pattern, text, star.value.0 + 1, p, k);
    }
  }

  lemma AtStart(pattern: string, text: string)
    ensures At(pattern, text, 0, 0) == Matches(pattern, text)
    ensures forall p: nat :: p <= |pattern| ==> NoStar(pattern, p, p)
  {
    assert pattern[0..] == pattern && text[0..] == text;
  }

  lemma NoStarNext(pattern: string, low: nat, high: nat)
    requires low <= high < |pattern| && NoStar(pattern, low, high) && pattern[high] != '*'
    ensures NoStar(pattern, low, high + 1)
  {
  }

  /** The loop of `glob_match`: one backtrack point is enough. */
  method GlobMatch(pattern: string, text: string) returns (matches: bool)
    ensures matches <==> Matches(pattern, text)
    ensures matches <==> exists parts :: IsSplit(pattern, text, parts)
  {
    hide Matches, At, NoStar, IsSplit;
    MatchesIffSplit(pattern, text);
    var p: nat, t: nat := 0, 0;
    var star: Option<(nat, nat)> := None;
    AtStart(pattern, text);
    assert pattern[0..] == pattern && text[0..] == text;
    while t < |text|
      invariant p <= |pattern| && t <= |text|
      invariant Marked(pattern, text, p, t, star)
      invariant Matches(pattern, text) <==> Left(pattern, text, p, t, star)
      decreases |text| - (if star.Some? then star.value.1 else 0),
          |pattern| - (if star.Some? then star.value.0 else -1), |text| - t, |pattern| - p
    {
      AtStep(pattern, text, p, t);
      if p < |pattern| && pattern[p] == '*' {
        NewStar(pattern, text, p, t, star);
        star := Some((p, t));
        p := p + 1;
      } else if p < |pattern| && (pattern[p] == '?' || pattern[p] == text[t]) {
        if star.Some? {
          NoStarNext(pattern, star.value.0 + 1, p);
        }
        p := p + 1;
        t := t + 1;
      } else if star.Some? {
        AtStep(pattern, text, star.value.0, star.value.1 + 1);
        p := star.value.0 + 1;
        t := star.value.1 + 1;
        star := Some((star.value.0, t));
      } else {
        return false;
      }
    }
    OnlyStars(pattern, text, p);
    EndOfText(pattern, text, p, star);
    matches := forall i :: p <= i < |pattern| ==> pattern[i] == '*';
  }
}
