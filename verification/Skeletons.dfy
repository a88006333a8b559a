/** Texts that differ only in how much white space stands where there is some. */
module Skeletons {
  import opened Chars

  /** The text with every stretch of white space as one space. */
  function Skeleton(text: string): string {
    if text == "" then ""
    else if !IsWhitespace(text[0]) then [text[0]] + Skeleton(text[1..])
    else if |text| > 1 && IsWhitespace(text[1]) then Skeleton(text[1..])
    else " " + Skeleton(text[1..])
  }

  predicate IsSolidText(text: string) { forall i :: 0 <= i < |text| ==> !IsWhitespace(text[i]) }

  /** A place that does not divide a stretch of white space. */
  predicate MayDivide(a: string, b: string) {
    a == "" || b == "" || !IsWhitespace(a[|a| - 1]) || !IsWhitespace(b[0])
  }

  lemma {:induction false} SkeletonAppend(a: string, b: string)
    requires MayDivide(a, b)
    ensures Skeleton(a + b) == Skeleton(a) + Skeleton(b)
  {
    hide IsWhitespace;
    if a == "" {
      assert a + b == b;
    } else {
      assert (a + b)[1..] == a[1..] + b;
      SkeletonAppend(a[1..], b);
      if |a| == 1 {
        assert a[1..] == "";
      }
    }
  }

  lemma {:induction false} SolidSkeleton(text: string)
    requires IsSolidText(text)
    ensures Skeleton(text) == text
  {
    hide IsWhitespace;
    if text != "" {
      SolidSkeleton(text[1..]);
    }
  }

  lemma {:induction false} BlankSkeleton(text: string)
    requires text != "" && IsBlank(text)
    ensures Skeleton(text) == " "
  {
    hide IsWhitespace;
    if |text| > 1 {
      BlankSkeleton(text[1..]);
    }
  }

  /** A skeleton that starts with white space comes from a text that does. */
  lemma SkeletonStart(text: string)
    ensures text == "" <==> Skeleton(text) == ""
    ensures text != "" ==> (Skeleton(text)[0] == if IsWhitespace(text[0]) then ' ' else text[0])
  {
    hide IsWhitespace;
    if text != "" && IsWhitespace(text[0]) {
      StartsWithSpace(text);
    }
  }

  lemma {:induction false} StartsWithSpace(text: string)
    requires text != "" && IsWhitespace(text[0])
    ensures Skeleton(text) != "" && Skeleton(text)[0] == ' '
  {
    hide IsWhitespace;
    if |text| > 1 && IsWhitespace(text[1]) {
      StartsWithSpace(text[1..]);
    }
  }

  /** A text can be divided wherever its skeleton goes on with something solid. */
  lemma {:induction false} Divide(text: string, a: string, b: string) returns (left: string, right: string)
    requires Skeleton(text) == a + b && b != "" && !IsWhitespace(b[0])
    ensures text == left + right && Skeleton(left) == a && Skeleton(right) == b
  {
    if a == "" {
      left, right := "", text;
      assert a + b == b;
    } else {
      assert IsWhitespace(' ');
      hide IsWhitespace;
      SkeletonStart(text);
      assert (a + b)[0] == a[0] && (a + b)[1..] == a[1..] + b;
      if IsWhitespace(text[0]) && |text| > 1 && IsWhitespace(text[1]) {
        var rest;
        rest, right := Divide(text[1..], a, b);
        SkeletonStart(rest);
        assert rest[0] == text[1];
        left := [text[0]] + rest;
        assert left[1..] == rest && text == [text[0]] + text[1..];
      } else {
        var rest;
        rest, right := Divide(text[1..], a[1..], b);
        assert rest != "" ==> rest[0] == text[1];
        left := [text[0]] + rest;
        assert left[1..] == rest && text == [text[0]] + text[1..];
        assert a == [a[0]] + a[1..];
      }
    }
  }

  /** Solid text stands as it is in every text with the skeleton. */
  lemma {:induction false} TakeSolid(text: string, solid: string, b: string) returns (right: string)
    requires Skeleton(text) == solid + b && IsSolidText(solid)
    ensures text == solid + right && Skeleton(right) == b
  {
    if solid == "" {
      right := text;
      assert solid + b == b;
    } else {
      assert IsWhitespace(' ');
      SkeletonStart(text);
      hide IsWhitespace;
      assert (solid + b)[0] == solid[0] && (solid + b)[1..] == solid[1..] + b;
      right := TakeSolid(text[1..], solid[1..], b);
      assert text == [text[0]] + text[1..] && solid == [solid[0]] + solid[1..];
    }
  }

  /** A solid part divides every text with the same skeleton in the same way. */
  lemma SameDivision(text: string, a: string, solid: string, b: string) returns (left: string, right: string)
    requires Skeleton(text) == Skeleton(a + (solid + b)) && solid != "" && IsSolidText(solid)
    ensures text == left + (solid + right) && Skeleton(left) == Skeleton(a) && Skeleton(right) == Skeleton(b)
  {
    hide Skeleton, IsWhitespace;
    assert (solid + b)[0] == solid[0];
    SkeletonAppend(a, solid + b);
    SkeletonAppend(solid, b);
    SolidSkeleton(solid);
    assert (solid + Skeleton(b))[0] == solid[0];
    var more;
    left, more := Divide(text, Skeleton(a), solid + Skeleton(b));
    right := TakeSolid(more, solid, Skeleton(b));
  }
}
