/**
 * The three pieces of Python string behaviour the transcript code relies on:
 * `" ".join(parts)`, `str.lower()` (restricted to ASCII letters) and the
 * substring test `needle in haystack`.
 */
module PyStr {

  /** Sum of the lengths of `parts`. */
  function TotalLength(parts: seq<string>): nat {
    if |parts| == 0 then 0 else |parts[0]| + TotalLength(parts[1..])
  }

  /**
   * `" ".join(parts)`: the parts in order, one space between neighbours,
   * none before the first or after the last.
   */
  function JoinWithSpaces(parts: seq<string>): (r: string)
    ensures |r| == TotalLength(parts) + (if |parts| == 0 then 0 else |parts| - 1)
    ensures |parts| > 0 ==> r[..|parts[0]|] == parts[0]
  {
    if |parts| == 0 then ""
    else if |parts| == 1 then parts[0]
    else parts[0] + " " + JoinWithSpaces(parts[1..])
  }

  /** Where `parts[i]` begins inside `JoinWithSpaces(parts)`. */
  function PartOffset(parts: seq<string>, i: nat): nat
    requires i < |parts|
  {
    if i == 0 then 0 else |parts[0]| + 1 + PartOffset(parts[1..], i - 1)
  }

  /** Part `i` begins after the lengths of the parts before it and one space after each. */
  lemma {:induction false} PartOffsetIsPrefixLength(parts: seq<string>, i: nat)
    requires i < |parts|
    ensures PartOffset(parts, i) == TotalLength(parts[..i]) + i
  {
    if i > 0 {
      PartOffsetIsPrefixLength(parts[1..], i - 1);
      assert parts[..i][1..] == parts[1..][..i - 1];
    }
  }

  /**
   * Every part appears, unchanged and contiguous, in the joined text, and the
   * character after it (when it is not the last part) is the separating space.
   */
  lemma {:induction false} JoinContainsPart(parts: seq<string>, i: nat)
    requires i < |parts|
    ensures PartOffset(parts, i) + |parts[i]| <= |JoinWithSpaces(parts)|
    ensures JoinWithSpaces(parts)[PartOffset(parts, i)..PartOffset(parts, i) + |parts[i]|] == parts[i]
    ensures i + 1 < |parts| ==> PartOffset(parts, i) + |parts[i]| < |JoinWithSpaces(parts)|
    ensures i + 1 < |parts| ==> JoinWithSpaces(parts)[PartOffset(parts, i) + |parts[i]|] == ' '
  {
    var r := JoinWithSpaces(parts);
    if i == 0 {
      if |parts| > 1 {
        assert r == parts[0] + " " + JoinWithSpaces(parts[1..]);
        assert r[|parts[0]|] == ' ';
      }
    } else {
      var tail := JoinWithSpaces(parts[1..]);
      assert r == parts[0] + " " + tail;
      JoinContainsPart(parts[1..], i - 1);
      var o := PartOffset(parts[1..], i - 1);
      assert PartOffset(parts, i) == |parts[0]| + 1 + o;
      assert r[|parts[0]| + 1..] == tail;
    }
  }

  /** Joining two non-empty lists is joining each and putting one space between. */
  lemma {:induction false} JoinAppend(xs: seq<string>, ys: seq<string>)
    requires |xs| > 0 && |ys| > 0
    ensures JoinWithSpaces(xs + ys) == JoinWithSpaces(xs) + " " + JoinWithSpaces(ys)
  {
    if |xs| == 1 {
      assert (xs + ys)[1..] == ys;
    } else {
      assert (xs + ys)[1..] == xs[1..] + ys;
      JoinAppend(xs[1..], ys);
    }
  }

  /** ASCII `str.lower()` of one character. */
  function LowerChar(c: char): (d: char)
    ensures 'A' <= c <= 'Z' ==> 'a' <= d <= 'z' && d as int - 'a' as int == c as int - 'A' as int
    ensures !('A' <= c <= 'Z') ==> d == c
  {
    if 'A' <= c <= 'Z' then (c as int - 'A' as int + 'a' as int) as char else c
  }

  /** `s.lower()` with ASCII case folding: the same length, each character lowered. */
  function Lower(s: string): (r: string)
    ensures |r| == |s|
    ensures forall i :: 0 <= i < |s| ==> r[i] == LowerChar(s[i])
  {
    if |s| == 0 then "" else [LowerChar(s[0])] + Lower(s[1..])
  }

  /** Lower-casing is idempotent: lowering lowered text changes nothing. */
  lemma LowerIdempotent(s: string)
    ensures Lower(Lower(s)) == Lower(s)
  {
  }

  /** `a` and `b` differ at most in the case of ASCII letters. */
  predicate EqualIgnoringCase(a: string, b: string) {
    |a| == |b| && forall i :: 0 <= i < |a| ==> LowerChar(a[i]) == LowerChar(b[i])
  }

  /** Texts that differ only in case lower-case to the same text. */
  lemma LowerOfEqualIgnoringCase(a: string, b: string)
    requires EqualIgnoringCase(a, b)
    ensures Lower(a) == Lower(b)
  {
  }

  /** `needle` occurs in `haystack` starting at index `i`. */
  predicate OccursAt(haystack: string, needle: string, i: nat) {
    i + |needle| <= |haystack| && haystack[i..i + |needle|] == needle
  }

  /** Python's `needle in haystack` for strings, as a left-to-right scan. */
  function Contains(haystack: string, needle: string): (b: bool)
    ensures b <==> exists i: nat :: OccursAt(haystack, needle, i)
    decreases |haystack|
  {
    if OccursAt(haystack, needle, 0) then true
    else if |haystack| == 0 then false
    else
      var rest := Contains(haystack[1..], needle);
      assert forall i: nat :: OccursAt(haystack[1..], needle, i) <==> OccursAt(haystack, needle, i + 1) by {
        forall i: nat ensures OccursAt(haystack[1..], needle, i) <==> OccursAt(haystack, needle, i + 1) {
          if i + |needle| <= |haystack[1..]| {
            assert haystack[1..][i..i + |needle|] == haystack[i + 1..i + 1 + |needle|];
          }
        }
      }
      assert (exists i: nat :: OccursAt(haystack, needle, i)) ==> OccursAt(haystack, needle, 0) || exists i: nat :: OccursAt(haystack[1..], needle, i) by {
        if exists i: nat :: OccursAt(haystack, needle, i) {
          var i: nat :| OccursAt(haystack, needle, i);
          if i > 0 { assert OccursAt(haystack[1..], needle, i - 1); }
        }
      }
      rest
  }

  /** `s` has no upper-case ASCII letter, so lower-casing leaves it alone. */
  predicate IsLowerAscii(s: string) {
    forall i :: 0 <= i < |s| ==> !('A' <= s[i] <= 'Z')
  }

  /** `needle` occurs in `haystack` at `i` when case is ignored. */
  predicate OccursIgnoringCaseAt(haystack: string, needle: string, i: nat) {
    i + |needle| <= |haystack| && EqualIgnoringCase(haystack[i..i + |needle|], needle)
  }

  /** `needle` occurs somewhere in `haystack` when case is ignored. */
  ghost predicate ContainsIgnoringCase(haystack: string, needle: string) {
    exists i: nat :: OccursIgnoringCaseAt(haystack, needle, i)
  }

  /**
   * Testing a lower-case word against the lowered text is the same as
   * looking for the word anywhere in the original text, ignoring case.
   */
  lemma ContainsInLowered(haystack: string, needle: string)
    requires IsLowerAscii(needle)
    ensures Contains(Lower(haystack), needle) <==> ContainsIgnoringCase(haystack, needle)
  {
    var l := Lower(haystack);
    forall i: nat ensures OccursAt(l, needle, i) <==> OccursIgnoringCaseAt(haystack, needle, i) {
      if i + |needle| <= |haystack| {
        var w, v := l[i..i + |needle|], haystack[i..i + |needle|];
        assert forall j :: 0 <= j < |needle| ==> w[j] == LowerChar(v[j]);
        assert forall j :: 0 <= j < |needle| ==> LowerChar(needle[j]) == needle[j];
        if w == needle {
          assert EqualIgnoringCase(v, needle);
        }
        if EqualIgnoringCase(v, needle) {
          assert forall j :: 0 <= j < |needle| ==> w[j] == needle[j];
        }
      }
    }
  }

  /** The capital of a lower-case ASCII letter. */
  function UpperChar(c: char): (d: char)
    requires 'a' <= c <= 'z'
    ensures 'A' <= d <= 'Z' && LowerChar(d) == c
  {
    (c as int - 'a' as int + 'A' as int) as char
  }

  /**
   * A word starting with two lower-case letters is absent, ignoring case,
   * when no position of the text holds those two letters in either case.
   */
  lemma AbsentWithoutFirstTwoLetters(haystack: string, needle: string)
    requires |needle| >= 2 && 'a' <= needle[0] <= 'z' && 'a' <= needle[1] <= 'z'
    requires forall i :: 0 <= i && i + |needle| <= |haystack| ==>
      (haystack[i] != needle[0] && haystack[i] != UpperChar(needle[0]))
      || (haystack[i + 1] != needle[1] && haystack[i + 1] != UpperChar(needle[1]))
    ensures !ContainsIgnoringCase(haystack, needle)
  {
  }
}
