/**
 * The judge's verdict on one oracle response: the goal counts as met exactly
 * when the lower-cased response contains "yes" anywhere. This is a substring
 * test, not a parse, so "yesterday" counts as met.
 */
module Verdict {

  /** `c.lower()` for one character: ASCII capitals become small letters. */
  function LowerChar(c: char): char
  {
    if 'A' <= c <= 'Z' then (c as int - 'A' as int + 'a' as int) as char else c
  }

  /** `s.lower()`, character by character. */
  function Lower(s: string): (r: string)
    ensures |r| == |s|
    ensures forall i :: 0 <= i < |s| ==> r[i] == LowerChar(s[i])
  {
    seq(|s|, i requires 0 <= i < |s| => LowerChar(s[i]))
  }

  /** `needle` occurs in `haystack` starting at index `i`. */
  predicate OccursAt(haystack: string, needle: string, i: nat)
  {
    i + |needle| <= |haystack| && haystack[i..i + |needle|] == needle
  }

  /** `needle in haystack`: a left-to-right scan of the windows of `haystack`. */
  function Contains(haystack: string, needle: string): bool
    decreases |haystack|
  {
    if |haystack| < |needle| then false
    else if haystack[..|needle|] == needle then true
    else Contains(haystack[1..], needle)
  }

  /** The scan finds `needle` exactly when it occurs somewhere. */
  lemma {:induction false} ContainsIff(haystack: string, needle: string)
    ensures Contains(haystack, needle) <==> exists i: nat :: OccursAt(haystack, needle, i)
    decreases |haystack|
  {
    if |haystack| < |needle| {
    } else if haystack[..|needle|] == needle {
      assert OccursAt(haystack, needle, 0);
    } else {
      var tail := haystack[1..];
      ContainsIff(tail, needle);
      if Contains(tail, needle) {
        var i: nat :| OccursAt(tail, needle, i);
        assert haystack[i + 1..i + 1 + |needle|] == tail[i..i + |needle|];
        assert OccursAt(haystack, needle, i + 1);
      }
      if exists i: nat :: OccursAt(haystack, needle, i) {
        var i: nat :| OccursAt(haystack, needle, i);
        assert i != 0;
        assert tail[i - 1..i - 1 + |needle|] == haystack[i..i + |needle|];
        assert OccursAt(tail, needle, i - 1);
      }
    }
  }

  /** Three consecutive characters of `s`, from index `i`, spell "yes" in any mix of cases. */
  predicate YesAt(s: string, i: nat)
  {
    && i + 3 <= |s|
    && (s[i] == 'y' || s[i] == 'Y')
    && (s[i + 1] == 'e' || s[i + 1] == 'E')
    && (s[i + 2] == 's' || s[i + 2] == 'S')
  }

  /** In the lower-cased text, "yes" starts at `i` exactly when "yes" in any mix of cases starts there in the original. */
  lemma YesAtLower(response: string, i: nat)
    ensures OccursAt(Lower(response), "yes", i) <==> YesAt(response, i)
  {
    if i + 3 <= |response| {
      var low := Lower(response);
      assert low[i..i + 3] == [low[i], low[i + 1], low[i + 2]];
    }
  }

  /** Scanning the lower-cased text finds "yes" exactly when "yes", in any mix of cases, occurs in the original. */
  lemma LowerScanIff(response: string)
    ensures Contains(Lower(response), "yes") <==> exists i: nat :: YesAt(response, i)
  {
    ContainsIff(Lower(response), "yes");
    forall i: nat
      ensures OccursAt(Lower(response), "yes", i) <==> YesAt(response, i)
    {
      YesAtLower(response, i);
    }
  }

  /**
   * `"yes" in response.lower()`: the goal-met verdict. It holds exactly when
   * "yes", in any mix of cases, occurs somewhere in the response.
   */
  function SaysYes(response: string): (met: bool)
    ensures met <==> exists i: nat :: YesAt(response, i)
  {
    LowerScanIff(response);
    Contains(Lower(response), "yes")
  }

  /** Lower-casing the response first never changes the verdict. */
  lemma SaysYesIgnoresCase(response: string)
    ensures SaysYes(Lower(response)) == SaysYes(response)
  {
    assert Lower(Lower(response)) == Lower(response);
  }

  /** Text around an affirmative response keeps it affirmative: the test is a substring search. */
  lemma SaysYesAnywhere(before: string, response: string, after: string)
    requires SaysYes(response)
    ensures SaysYes(before + response + after)
  {
    var i: nat :| YesAt(response, i);
    var whole := before + response + after;
    assert whole[|before| + i..|before| + i + 3] == response[i..i + 3];
    assert YesAt(whole, |before| + i);
  }

  /** A response with no letter s in either case is never affirmative. */
  lemma NoSNoYes(response: string)
    requires forall i :: 0 <= i < |response| ==> response[i] != 's' && response[i] != 'S'
    ensures !SaysYes(response)
  {
  }

  /** Affirmative sample responses, in any case, are accepted. */
  lemma SaysYesAffirmative()
    ensures SaysYes("Yes, completed")
    ensures SaysYes("YES")
  {
    assert YesAt("Yes, completed", 0);
    assert YesAt("YES", 0);
  }

  /** Negative sample responses are rejected. */
  lemma SaysYesNegative()
    ensures !SaysYes("no")
    ensures !SaysYes("No, not yet")
  {
    NoSNoYes("no");
    NoSNoYes("No, not yet");
  }

  /** The known false positive: "yesterday" counts as met, since the test is a substring search. */
  lemma SaysYesYesterday()
    ensures SaysYes("yesterday")
  {
    assert YesAt("yesterday", 0);
  }
}
