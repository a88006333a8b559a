/** Titles of copies, `copied_tab_title`, `unique_tab_title` and `copied_name`
    of src/model.rs. */
module Titles {
  import opened Numerals

  const MAX_TAB_TITLE := 60

  /** How a copy is named: `title (Copy 2)` or `name copy 2`. */
  datatype Style = TabCopy | NameCopy

  function Suffix(style: Style, copy: nat): string {
    var number := if copy == 1 then "" else " " + Decimal(copy);
    if style == TabCopy then " (Copy" + number + ")" else " copy" + number
  }

  /** The title cut so that it fits into `max` characters with the suffix. */
  function Candidate(style: Style, title: string, max: nat, copy: nat): (candidate: string)
    ensures |candidate| <= max || |Suffix(style, copy)| > max
  {
    var suffix := Suffix(style, copy);
    var available := if |suffix| <= max then max - |suffix| else 0;
    (if available < |title| then title[..available] else title) + suffix
  }

  /** How a copy is written: after the longest part of the title that fits. */
  lemma CandidateIs(style: Style, title: string, max: nat, copy: nat) returns (kept: nat)
    requires copy >= 1
    ensures kept <= |title|
    ensures var suffix := match style
                          case TabCopy => if copy == 1 then " (Copy)" else " (Copy " + Decimal(copy) + ")"
                          case NameCopy => if copy == 1 then " copy" else " copy " + Decimal(copy);
            && Candidate(style, title, max, copy) == title[..kept] + suffix
            && (kept > 0 ==> kept + |suffix| <= max)
            && (kept < |title| ==> kept + 1 + |suffix| > max)
  {
    hide Decimal;
    var suffix := Suffix(style, copy);
    assert " (Copy" + "" + ")" == " (Copy)" && " copy" + "" == " copy";
    assert " (Copy" + (" " + Decimal(copy)) + ")" == " (Copy " + Decimal(copy) + ")";
    assert " copy" + (" " + Decimal(copy)) == " copy " + Decimal(copy);
    var available := if |suffix| <= max then max - |suffix| else 0;
    kept := if available < |title| then available else |title|;
    assert title[..|title|] == title;
  }

  // ----- The candidates are pairwise different

  predicate IsDigit(c: char) { '0' <= c <= '9' }

  function TrailingDigits(text: string): string {
    if text == "" || !IsDigit(text[|text| - 1]) then ""
    else TrailingDigits(text[..|text| - 1]) + [text[|text| - 1]]
  }

  lemma {:induction false} TrailingDigitsAfter(a: string, c: char, digits: string)
    requires !IsDigit(c) && forall i :: 0 <= i < |digits| ==> IsDigit(digits[i])
    ensures TrailingDigits(a + [c] + digits) == digits
  {
    var text := a + [c] + digits;
    if digits == "" {
      assert text[|text| - 1] == c;
    } else {
      var n := |digits| - 1;
      assert text[..|text| - 1] == a + [c] + digits[..n];
      TrailingDigitsAfter(a, c, digits[..n]);
    }
  }

  /** The number that a candidate ends in; nothing for the first copy. */
  function NumberOf(style: Style, text: string): string {
    TrailingDigits(if style == TabCopy && text != "" then text[..|text| - 1] else text)
  }

  /** A suffix is a fixed part, a number, and the closing of its style. */
  lemma SuffixParts(style: Style, copy: nat) returns (head: string, c: char)
    ensures !IsDigit(c)
    ensures Suffix(style, copy)
            == head + [c] + (if copy == 1 then "" else Decimal(copy)) + (if style == TabCopy then ")" else "")
  {
    hide Decimal;
    if copy == 1 {
      head, c := if style == TabCopy then " (Cop" else " cop", 'y';
    } else {
      head, c := if style == TabCopy then " (Copy" else " copy", ' ';
    }
  }

  lemma NumberOfCandidate(style: Style, title: string, max: nat, copy: nat)
    ensures NumberOf(style, Candidate(style, title, max, copy)) == if copy == 1 then "" else Decimal(copy)
  {
    hide TrailingDigits, Decimal, Suffix;
    var text := Candidate(style, title, max, copy);
    var base := text[..|text| - |Suffix(style, copy)|];
    var number := if copy == 1 then "" else Decimal(copy);
    var head, c := SuffixParts(style, copy);
    assert text == base + Suffix(style, copy);
    var whole := (base + head) + [c] + number;
    TrailingDigitsAfter(base + head, c, number);
    if style == TabCopy {
      assert text == whole + ")";
      assert text[..|text| - 1] == whole;
    } else {
      assert text == whole;
    }
  }

  lemma CandidatesDiffer(style: Style, title: string, max: nat, i: nat, j: nat)
    requires 1 <= i < j
    ensures Candidate(style, title, max, i) != Candidate(style, title, max, j)
  {
    NumberOfCandidate(style, title, max, i);
    NumberOfCandidate(style, title, max, j);
    if i > 1 && Decimal(i) == Decimal(j) {
      DecimalIsInjective(i, j);
    }
  }

  // ----- The search

  /** The first free candidate. */
  ghost predicate IsFirstFree(style: Style, title: string, max: nat, used: set<string>, copy: nat) {
    && copy >= 1 && Candidate(style, title, max, copy) !in used
    && forall k :: 1 <= k < copy ==> Candidate(style, title, max, k) in used
  }

  /** Finds the first free copy title within (used titles + 1) tries. */
  method CopiedTitle(style: Style, title: string, max: nat, used: set<string>) returns (candidate: string, copy: nat)
    ensures IsFirstFree(style, title, max, used, copy) && candidate == Candidate(style, title, max, copy)
    ensures copy <= |used| + 1
  {
    hide Candidate;
    ghost var tried: set<string> := {};
    copy := 1;
    while true
      invariant copy >= 1 && tried <= used && |tried| == copy - 1
      invariant forall t :: t in tried ==> exists k :: 1 <= k < copy && t == Candidate(style, title, max, k)
      invariant forall k :: 1 <= k < copy ==> Candidate(style, title, max, k) in tried
      decreases |used| + 1 - copy
    {
      FewTried(tried, used);
      candidate := Candidate(style, title, max, copy);
      if candidate !in used {
        return;
      }
      NewCandidate(style, title, max, copy, tried);
      tried := tried + {candidate};
      FewTried(tried, used);
      copy := copy + 1;
    }
  }

  lemma {:induction false} FewTried(tried: set<string>, used: set<string>)
    requires tried <= used
    ensures |tried| <= |used|
  {
    if tried != {} {
      var t :| t in tried;
      FewTried(tried - {t}, used - {t});
    }
  }

  lemma NewCandidate(style: Style, title: string, max: nat, copy: nat, tried: set<string>)
    requires copy >= 1 && forall t :: t in tried ==> exists k :: 1 <= k < copy && t == Candidate(style, title, max, k)
    ensures Candidate(style, title, max, copy) !in tried
  {
    hide Candidate;
    forall t | t in tried
      ensures t != Candidate(style, title, max, copy)
    {
      var k :| 1 <= k < copy && t == Candidate(style, title, max, k);
      CandidatesDiffer(style, title, max, k, copy);
    }
  }

  /** The copies up to the first free one are all used, so its number is small. */
  lemma {:induction false} FirstFreeIsSoon(style: Style, title: string, max: nat, used: set<string>, copy: nat)
    requires IsFirstFree(style, title, max, used, copy)
    ensures copy <= |used| + 1
  {
    hide Candidate;
    var tried := UsedCandidates(style, title, max, used, copy);
    FewTried(tried, used);
  }

  lemma {:induction false} UsedCandidates(style: Style, title: string, max: nat, used: set<string>, copy: nat)
    returns (tried: set<string>)
    requires copy >= 1 && forall k :: 1 <= k < copy ==> Candidate(style, title, max, k) in used
    ensures tried <= used && |tried| == copy - 1
    ensures forall t :: t in tried ==> exists k :: 1 <= k < copy && t == Candidate(style, title, max, k)
  {
    hide Candidate;
    tried := {};
    for k := 1 to copy
      invariant tried <= used && |tried| == k - 1
      invariant forall t :: t in tried ==> exists i :: 1 <= i < k && t == Candidate(style, title, max, i)
    {
      NewCandidate(style, title, max, k, tried);
      tried := tried + {Candidate(style, title, max, k)};
    }
  }

  /** `unique` is free: the title itself if it is, else the first free copy title. */
  ghost predicate IsUnique(title: string, used: set<string>, unique: string) {
    if title !in used then unique == title
    else
      exists copy ::
        (IsFirstFree(TabCopy, title, MAX_TAB_TITLE, used, copy)
            && unique == Candidate(TabCopy, title, MAX_TAB_TITLE, copy))
  }

  /** `unique_tab_title`: keeps a free title. */
  method UniqueTabTitle(title: string, used: set<string>) returns (unique: string)
    ensures unique !in used && IsUnique(title, used, unique)
  {
    if title !in used {
      return title;
    }
    var copy;
    unique, copy := CopiedTitle(TabCopy, title, MAX_TAB_TITLE, used);
  }
}
