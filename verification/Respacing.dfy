/** A layout that changes only white space, around `format_layout` of src/sql.rs. */
module Respacing {
  import opened Chars
  import opened Lexer
  import opened Mask
  import opened MarkerGaps
  import opened Skeletons
  import opened Whitespace

  // ----- The masked text as markers between gaps

  /** The parts of the text that no cut covers. */
  function GapsOf(sql: string, from: nat, cuts: seq<Cut>): (gaps: seq<string>)
    requires InOrder(sql, from, cuts)
    ensures |gaps| == |cuts| + 1
    decreases cuts
  {
    if cuts == [] then [sql[from..]] else [sql[from..cuts[0].start]] + GapsOf(sql, cuts[0].end, cuts[1..])
  }

  lemma {:induction false} MaskedBetween(sql: string, prefix: string, from: nat, cuts: seq<Cut>, n: nat)
    requires InOrder(sql, from, cuts)
    ensures Masked(sql, prefix, from, cuts, n) == WithMarkers(prefix, GapsOf(sql, from, cuts), n)
    ensures sql[from..] == WithOriginals(sql, from, cuts, GapsOf(sql, from, cuts))
    decreases cuts
  {
    hide Marker;
    if cuts != [] {
      MaskedBetween(sql, prefix, cuts[0].end, cuts[1..], n + 1);
      var gaps := GapsOf(sql, from, cuts);
      assert gaps[1..] == GapsOf(sql, cuts[0].end, cuts[1..]);
      assert sql[from..] == sql[from..cuts[0].start] + (Original(sql, cuts[0]) + sql[cuts[0].end..]);
    }
  }

  lemma {:induction false} GapsHoldNothing(sql: string, prefix: string, from: nat, cuts: seq<Cut>)
    requires InOrder(sql, from, cuts) && Nowhere(sql, prefix)
    ensures NoneHolds(GapsOf(sql, from, cuts), prefix)
    decreases cuts
  {
    hide Nowhere;
    if cuts == [] {
      assert sql[from..] == sql[from..|sql|];
      NowhereInside(sql, from, |sql|, prefix);
    } else {
      NowhereInside(sql, from, cuts[0].start, prefix);
      GapsHoldNothing(sql, prefix, cuts[0].end, cuts[1..]);
    }
  }

  // ----- White space around markers

  lemma SolidMarker(prefix: string, n: nat)
    requires IsPrefixText(prefix)
    ensures IsSolidText(Marker(prefix, n)) && Marker(prefix, n) != ""
  {
    var marker := Marker(prefix, n);
    forall i | 0 <= i < |marker|
      ensures !IsWhitespace(marker[i])
    {
      assert 0 < i <= |prefix| ==> marker[i] == prefix[i - 1];
    }
  }

  ghost predicate SameSkeletons(a: seq<string>, b: seq<string>) {
    |a| == |b| && forall k :: 0 <= k < |a| ==> Skeleton(a[k]) == Skeleton(b[k])
  }

  /** A text that differs in white space only holds the same markers, between gaps that do so too. */
  lemma {:induction false} SameGaps(text: string, prefix: string, gaps: seq<string>, n: nat)
    returns (others: seq<string>)
    requires gaps != [] && IsPrefixText(prefix) && Skeleton(text) == Skeleton(WithMarkers(prefix, gaps, n))
    ensures SameSkeletons(others, gaps) && text == WithMarkers(prefix, others, n)
    decreases |gaps|
  {
    hide Skeleton, Marker, IsPrefixText;
    if |gaps| == 1 {
      others := [text];
    } else {
      SolidMarker(prefix, n);
      var left, right := SameDivision(text, gaps[0], Marker(prefix, n), WithMarkers(prefix, gaps[1..], n + 1));
      var more := SameGaps(right, prefix, gaps[1..], n + 1);
      others := [left] + more;
      assert others[1..] == more;
      forall k | 0 <= k < |gaps|
        ensures Skeleton(others[k]) == Skeleton(gaps[k])
      {
        assert k > 0 ==> others[k] == more[k - 1] && gaps[k] == gaps[1..][k - 1];
      }
    }
  }

  lemma SolidIsKept(text: string, other: string, needle: string)
    requires Skeleton(other) == Skeleton(text) && Nowhere(text, needle) && needle != "" && IsSolidText(needle)
    ensures Nowhere(other, needle)
  {
    hide Skeleton, IsSolidText, Nowhere;
    forall at | 0 <= at <= |other| - |needle|
      ensures !Occurs(other, needle, at)
    {
      if Occurs(other, needle, at) {
        assert other[at..at + |needle|] == needle;
        assert other == other[..at] + (needle + other[at + |needle|..]);
        var left, right := SameDivision(text, other[..at], needle, other[at + |needle|..]);
        OccursHere(needle, right);
        OccursAfter(left, needle + right, needle, 0);
        OccursFits(text, needle, |left|);
      }
    }
    assert Nowhere(other, needle) by {
      NowhereBy(other, needle);
    }
  }

  lemma NowhereBy(text: string, needle: string)
    requires forall at :: 0 <= at <= |text| - |needle| ==> !Occurs(text, needle, at)
    ensures Nowhere(text, needle)
  {
  }

  /** The skeleton of a whole is that of its parts. */
  lemma {:induction false} SkeletonContext(before: string, a: string, b: string)
    requires Skeleton(a) == Skeleton(b)
    ensures Skeleton(before + a) == Skeleton(before + b)
  {
    SkeletonStart(a);
    SkeletonStart(b);
    if before == "" {
      assert before + a == a && before + b == b;
    } else {
      assert IsWhitespace(' ');
      hide IsWhitespace;
      SkeletonContext(before[1..], a, b);
      assert (before + a)[1..] == before[1..] + a && (before + b)[1..] == before[1..] + b;
    }
  }

  /** Two skeletons one after the other, the second of which starts with white space. */
  function Joined(a: string, b: string): string {
    if a != "" && a[|a| - 1] == ' ' then a[..|a| - 1] + b else a + b
  }

  lemma JoinedStep(c: char, a: string, b: string)
    requires a != ""
    ensures Joined([c] + a, b) == [c] + Joined(a, b)
  {
    var more := [c] + a;
    assert more[|more| - 1] == a[|a| - 1];
    if a[|a| - 1] == ' ' {
      assert more[..|more| - 1] == [c] + a[..|a| - 1];
      Associative([c], a[..|a| - 1], b);
    } else {
      Associative([c], a, b);
    }
  }

  lemma {:induction false} SkeletonThenBlank(a: string, after: string)
    requires after != "" && IsWhitespace(after[0])
    ensures Skeleton(a + after) == Joined(Skeleton(a), Skeleton(after))
  {
    SkeletonStart(after);
    assert IsWhitespace(' ');
    hide IsWhitespace;
    if a == "" {
      assert a + after == after;
    } else {
      assert (a + after)[1..] == a[1..] + after && (a + after)[0] == a[0];
      if |a| == 1 {
        assert a[1..] == "" && a[1..] + after == after;
        assert [a[0]] + "" == [a[0]] && " " + "" == " ";
      } else {
        assert (a + after)[1] == a[1];
        SkeletonThenBlank(a[1..], after);
        SkeletonStart(a[1..]);
        hide Joined;
        JoinedStep(if IsWhitespace(a[0]) then ' ' else a[0], Skeleton(a[1..]), Skeleton(after));
      }
    }
  }

  lemma SkeletonBefore(a: string, b: string, after: string)
    requires Skeleton(a) == Skeleton(b)
    ensures Skeleton(a + after) == Skeleton(b + after)
  {
    hide Skeleton;
    if after == "" {
      assert a + after == a && b + after == b;
    } else if IsWhitespace(after[0]) {
      SkeletonThenBlank(a, after);
      SkeletonThenBlank(b, after);
    } else {
      SkeletonAppend(a, after);
      SkeletonAppend(b, after);
    }
  }

  /** Gaps that differ in white space only give texts that do so. */
  lemma {:induction false} SameWhole(sql: string, from: nat, cuts: seq<Cut>, gaps: seq<string>, others: seq<string>)
    requires InOrder(sql, from, cuts) && |gaps| == |cuts| + 1 && SameSkeletons(others, gaps)
    ensures Skeleton(WithOriginals(sql, from, cuts, others)) == Skeleton(WithOriginals(sql, from, cuts, gaps))
    decreases cuts
  {
    hide Skeleton;
    if cuts != [] {
      var original := Original(sql, cuts[0]);
      var a, b := WithOriginals(sql, cuts[0].end, cuts[1..], others[1..]),
          WithOriginals(sql, cuts[0].end, cuts[1..], gaps[1..]);
      SameWhole(sql, cuts[0].end, cuts[1..], gaps[1..], others[1..]);
      SkeletonContext(original, a, b);
      SkeletonContext(others[0], original + a, original + b);
      SkeletonBefore(others[0], gaps[0], original + b);
    }
  }

  // ----- Normalizing changes only white space

  lemma NewBlankSkeleton(text: string, afterLineComment: bool)
    requires text != "" && IsBlank(text)
    ensures Skeleton(NewBlank(text, afterLineComment)) == Skeleton(text)
  {
    BlankSkeleton(text);
    BlankSkeleton(NewBlank(text, afterLineComment));
  }

  lemma {:induction false} NormalizedSkeletonFrom(tokens: seq<Token>, afterLineComment: bool)
    requires forall t :: t in tokens ==> t.text != ""
    ensures Skeleton(NormalizedFrom(tokens, afterLineComment)) == Skeleton(Flatten(tokens))
  {
    hide Skeleton, IsBlank, NewBlank, IsLineComment;
    if tokens != [] {
      var text := tokens[0].text;
      if IsBlank(text) {
        NormalizedSkeletonFrom(tokens[1..], afterLineComment);
        NewBlankSkeleton(text, afterLineComment);
        var rest := NormalizedFrom(tokens[1..], afterLineComment);
        SkeletonBefore(NewBlank(text, afterLineComment), text, rest);
        SkeletonContext(text, rest, Flatten(tokens[1..]));
      } else {
        NormalizedSkeletonFrom(tokens[1..], IsLineComment(tokens[0]));
        SkeletonContext(text, NormalizedFrom(tokens[1..], IsLineComment(tokens[0])), Flatten(tokens[1..]));
      }
    }
  }

  lemma NormalizedSkeleton(db: Database, sql: string)
    ensures Skeleton(Normalized(db, sql)) == Skeleton(sql)
  {
    hide Skeleton, Lex, NormalizedFrom;
    LexCovers(db, false, sql);
    NormalizedSkeletonFrom(Tokens(db, sql), false);
  }
}
