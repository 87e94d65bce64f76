/**
 * Global literal replacement on strings, as `String.prototype.replace` performs it
 * with a global regular expression that is a plain literal and a replacement string
 * without `$` patterns: the text is scanned from left to right, every occurrence of
 * the pattern that does not overlap an earlier replaced one is replaced, and all
 * other characters are kept in order.
 */
module Replace {

  /** The pattern `p` occurs in `s` starting at index `i`. */
  predicate OccursAt(s: string, p: string, i: int)
  {
    0 <= i && i + |p| <= |s| && s[i..i + |p|] == p
  }

  /** The leftmost, non-overlapping, global replacement of `p` by `r` in `s`. */
  function ReplaceAll(s: string, p: string, r: string): string
    requires |p| > 0
    decreases |s|
  {
    if |s| < |p| then s
    else if s[..|p|] == p then r + ReplaceAll(s[|p|..], p, r)
    else [s[0]] + ReplaceAll(s[1..], p, r)
  }

  /** The number of indices at which `p` occurs in `s`, overlapping occurrences
      included. It is defined independently of the scan that `ReplaceAll` makes. */
  function CountOccurrences(s: string, p: string): nat
    requires |p| > 0
    decreases |s|
  {
    if |s| < |p| then 0
    else (if s[..|p|] == p then 1 else 0) + CountOccurrences(s[1..], p)
  }

  /** No proper suffix of `p` is also a prefix of `p`, so two occurrences of `p`
      can never overlap. */
  predicate SelfOverlapFree(p: string)
  {
    forall k :: 0 < k < |p| ==> p[k..] != p[..|p| - k]
  }

  /** An occurrence at index `i` is counted. */
  lemma {:induction false} OccurrenceIsCounted(s: string, p: string, i: nat)
    requires |p| > 0 && OccursAt(s, p, i)
    ensures CountOccurrences(s, p) > 0
    decreases i
  {
    if i > 0 && s[..|p|] != p {
      assert s[1..][i - 1..i - 1 + |p|] == s[i..i + |p|];
      OccurrenceIsCounted(s[1..], p, i - 1);
    }
  }

  /** A positive count has a witness: the leftmost occurrence. */
  lemma {:induction false} CountedOccurrence(s: string, p: string) returns (i: nat)
    requires |p| > 0 && CountOccurrences(s, p) > 0
    ensures OccursAt(s, p, i)
    decreases |s|
  {
    if s[..|p|] == p {
      i := 0;
    } else {
      var j := CountedOccurrence(s[1..], p);
      assert s[1..][j..j + |p|] == s[j + 1..j + 1 + |p|];
      i := j + 1;
    }
  }

  /** `p` occurs somewhere in `s` exactly when its count is positive. */
  lemma CountPositiveIffOccurs(s: string, p: string)
    requires |p| > 0
    ensures CountOccurrences(s, p) > 0 <==> exists i :: OccursAt(s, p, i)
  {
    if CountOccurrences(s, p) > 0 {
      var i := CountedOccurrence(s, p);
    }
    forall i | OccursAt(s, p, i)
      ensures CountOccurrences(s, p) > 0
    {
      OccurrenceIsCounted(s, p, i);
    }
  }

  /** Text without an occurrence of the pattern comes back unchanged. */
  lemma {:induction false} NoOccurrenceUnchanged(s: string, p: string, r: string)
    requires |p| > 0 && CountOccurrences(s, p) == 0
    ensures ReplaceAll(s, p, r) == s
  {
    if |s| >= |p| {
      NoOccurrenceUnchanged(s[1..], p, r);
      assert [s[0]] + s[1..] == s;
    }
  }

  /** Two occurrences of `p` that overlap by `|p| - k` characters make a suffix of `p`
      equal to a prefix of `p`. */
  lemma OverlappingOccurrences(s: string, p: string, k: nat)
    requires 0 < k < |p| && k + |p| <= |s|
    requires s[..|p|] == p && s[k..k + |p|] == p
    ensures p[k..] == p[..|p| - k]
  {
    assert p[k..] == s[k..|p|];
    assert p[..|p| - k] == s[k..k + |p|][..|p| - k];
  }

  /** Right after an occurrence of an overlap-free pattern at the start of `s`,
      no occurrence starts before the occurrence ends. */
  lemma {:induction false} CountSkipsOccurrence(s: string, p: string, k: nat)
    requires |p| > 0 && SelfOverlapFree(p)
    requires |p| <= |s| && s[..|p|] == p
    requires 0 < k <= |p|
    ensures CountOccurrences(s[k..], p) == CountOccurrences(s[|p|..], p)
    decreases |p| - k
  {
    if k < |p| {
      var t := s[k..];
      if |t| >= |p| {
        if t[..|p|] == p {
          OverlappingOccurrences(s, p, k);
          assert false;
        }
        CountSkipsOccurrence(s, p, k + 1);
        assert t[1..] == s[k + 1..];
      }
    }
  }

  /** For a pattern whose occurrences cannot overlap, every occurrence is replaced:
      the length grows by the difference in length once per occurrence. */
  lemma {:induction false} ReplaceAllLength(s: string, p: string, r: string)
    requires |p| > 0 && SelfOverlapFree(p)
    ensures |ReplaceAll(s, p, r)| == |s| + CountOccurrences(s, p) * (|r| - |p|)
    decreases |s|
  {
    if |s| >= |p| {
      if s[..|p|] == p {
        ReplaceAllLength(s[|p|..], p, r);
        CountSkipsOccurrence(s, p, 1);
        LengthAfterMatch(s, p, r);
      } else {
        ReplaceAllLength(s[1..], p, r);
      }
    }
  }

  /** The step of `ReplaceAllLength` where `s` starts with an occurrence. */
  lemma LengthAfterMatch(s: string, p: string, r: string)
    requires |p| > 0 && |p| <= |s| && s[..|p|] == p
    requires CountOccurrences(s[1..], p) == CountOccurrences(s[|p|..], p)
    requires |ReplaceAll(s[|p|..], p, r)| == |s| - |p| + CountOccurrences(s[|p|..], p) * (|r| - |p|)
    ensures |ReplaceAll(s, p, r)| == |s| + CountOccurrences(s, p) * (|r| - |p|)
  {
    var c, d := CountOccurrences(s[|p|..], p), |r| - |p|;
    assert CountOccurrences(s, p) == 1 + c;
    assert |ReplaceAll(s, p, r)| == |r| + |ReplaceAll(s[|p|..], p, r)|;
    OneMoreTimes(c, d);
  }

  lemma OneMoreTimes(c: int, d: int)
    ensures (1 + c) * d == d + c * d
  {
  }

  /** An occurrence inside the replacement text remains an occurrence once the
      replacement is embedded in a larger text. */
  lemma OccurrenceInside(a: string, r: string, b: string, p: string, k: nat)
    requires OccursAt(r, p, k)
    ensures OccursAt(a + r + b, p, |a| + k)
  {
    assert (a + r + b)[|a| + k..|a| + k + |p|] == r[k..k + |p|];
  }

  /** With a replacement of a different length than an overlap-free pattern, the
      text comes back unchanged exactly when the pattern does not occur in it. */
  lemma UnchangedIffNoOccurrence(s: string, p: string, r: string)
    requires |p| > 0 && SelfOverlapFree(p) && |r| != |p|
    ensures ReplaceAll(s, p, r) == s <==> CountOccurrences(s, p) == 0
  {
    ReplaceAllLength(s, p, r);
    if CountOccurrences(s, p) == 0 {
      NoOccurrenceUnchanged(s, p, r);
    } else {
      NonZeroProduct(CountOccurrences(s, p), |r| - |p|);
      assert |ReplaceAll(s, p, r)| != |s|;
    }
  }

  lemma NonZeroProduct(c: int, d: int)
    requires c > 0 && d != 0
    ensures c * d != 0
  {
  }

  /** An occurrence of an overlap-free pattern cannot start inside a shorter
      non-empty text and run on into a following occurrence. */
  lemma NoStraddle(x: string, p: string, y: string)
    requires |p| > 0 && SelfOverlapFree(p)
    requires 0 < |x| < |p|
    ensures (x + p + y)[..|p|] != p
  {
    var s := x + p + y;
    if s[..|p|] == p {
      assert s[|x|..|x| + |p|] == p;
      OverlappingOccurrences(s, p, |x|);
      assert false;
    }
  }

  /** Replacement splits at any occurrence of an overlap-free pattern: the text
      before it is processed as it would be on its own, the occurrence becomes the
      replacement, and the text after it is processed on its own. */
  lemma {:induction false} ReplaceAllSplit(x: string, p: string, r: string, y: string)
    requires |p| > 0 && SelfOverlapFree(p)
    ensures ReplaceAll(x + p + y, p, r) == ReplaceAll(x, p, r) + r + ReplaceAll(y, p, r)
    decreases |x|
  {
    var s := x + p + y;
    if |x| == 0 {
      assert s == p + y;
      assert s[..|p|] == p && s[|p|..] == y;
      assert ReplaceAll(x, p, r) == [];
    } else if |x| < |p| || x[..|p|] != p {
      if |x| < |p| {
        NoStraddle(x, p, y);
      } else {
        assert s[..|p|] == x[..|p|];
      }
      ReplaceAllSplit(x[1..], p, r, y);
      SplitAfterMiss(x, p, r, y);
    } else {
      ReplaceAllSplit(x[|p|..], p, r, y);
      SplitAfterMatch(x, p, r, y);
    }
  }

  /** The step of `ReplaceAllSplit` where the scan of `x + p + y` keeps its first character. */
  lemma SplitAfterMiss(x: string, p: string, r: string, y: string)
    requires |p| > 0 && |x| > 0
    requires (x + p + y)[..|p|] != p
    requires ReplaceAll(x[1..] + p + y, p, r) == ReplaceAll(x[1..], p, r) + r + ReplaceAll(y, p, r)
    ensures ReplaceAll(x + p + y, p, r) == ReplaceAll(x, p, r) + r + ReplaceAll(y, p, r)
  {
    var s := x + p + y;
    var a, b := ReplaceAll(x[1..], p, r), ReplaceAll(y, p, r);
    assert ReplaceAll(s, p, r) == [x[0]] + (a + r + b) by {
      assert s[1..] == x[1..] + p + y;
      assert s[0] == x[0];
    }
    assert ReplaceAll(x, p, r) == [x[0]] + a by {
      if |x| < |p| {
        assert [x[0]] + x[1..] == x;
      } else {
        assert x[..|p|] == s[..|p|];
      }
    }
    assert [x[0]] + (a + r + b) == ([x[0]] + a) + r + b;
  }

  /** The step of `ReplaceAllSplit` where `x` itself starts with an occurrence. */
  lemma SplitAfterMatch(x: string, p: string, r: string, y: string)
    requires |p| > 0 && |x| >= |p| && x[..|p|] == p
    requires ReplaceAll(x[|p|..] + p + y, p, r) == ReplaceAll(x[|p|..], p, r) + r + ReplaceAll(y, p, r)
    ensures ReplaceAll(x + p + y, p, r) == ReplaceAll(x, p, r) + r + ReplaceAll(y, p, r)
  {
    var s := x + p + y;
    assert s[..|p|] == p;
    assert s[|p|..] == x[|p|..] + p + y;
    assert ReplaceAll(s, p, r) == r + ReplaceAll(x[|p|..] + p + y, p, r);
    assert ReplaceAll(x, p, r) == r + ReplaceAll(x[|p|..], p, r);
  }

  /** When the replacement itself contains an overlap-free pattern and differs from it
      in length, replacing again changes any text in which the pattern occurred. */
  lemma ReplaceAgainChanges(s: string, p: string, r: string, k: nat)
    requires |p| > 0 && SelfOverlapFree(p) && |r| != |p| && OccursAt(r, p, k)
    requires CountOccurrences(s, p) > 0
    ensures ReplaceAll(ReplaceAll(s, p, r), p, r) != ReplaceAll(s, p, r)
  {
    var i := CountedOccurrence(s, p);
    var x, y := s[..i], s[i + |p|..];
    assert s == x + p + y;
    ReplaceAllSplit(x, p, r, y);
    var a, b := ReplaceAll(x, p, r), ReplaceAll(y, p, r);
    OccurrenceInside(a, r, b, p, k);
    OccurrenceIsCounted(a + r + b, p, |a| + k);
    UnchangedIffNoOccurrence(a + r + b, p, r);
  }
}
