/**
  The part of java.lang.String that the path-protection codec relies on:
  substring search and String.replace(CharSequence, CharSequence).

  Java strings are sequences of UTF-16 code units; here a string is a
  seq<char>, a sequence of Unicode scalar values. A Java string holding a
  lone surrogate has no counterpart, and |s| counts scalar values rather
  than Java's length(). Matching between well-formed strings is the same:
  every comparison is exact, character by character, as in Java (no
  normalisation, no case folding).
 */
module JavaStrings {

  /** `t` is a prefix of `s` (String.startsWith). */
  predicate IsPrefix(t: string, s: string) {
    t <= s
  }

  /** `t` occurs in `s` starting at index `i` (String.regionMatches at `i`). */
  predicate OccursAt(s: string, t: string, i: nat) {
    i + |t| <= |s| && s[i..i + |t|] == t
  }

  /**
    `t` occurs somewhere in `s` (String.contains). As in Java, the empty
    string occurs in every string.
   */
  predicate Contains(s: string, t: string)
    decreases |s|
  {
    IsPrefix(t, s) || (|s| > 0 && Contains(s[1..], t))
  }

  /**
    Java's replace with an EMPTY target: the replacement is inserted before
    every character and once more at the end ("abc".replace("", "-") is
    "-a-b-c-").
   */
  function InsertEverywhere(s: string, repl: string): string
    decreases |s|
  {
    if |s| == 0 then repl else repl + [s[0]] + InsertEverywhere(s[1..], repl)
  }

  /**
    String.replace(target, repl): every non-overlapping occurrence of
    `target`, found by scanning from left to right, is replaced by `repl`.
    After a match the scan resumes just past the matched text, so the
    replacement itself is never searched again.
   */
  function ReplaceAll(s: string, target: string, repl: string): string
    decreases |s|
  {
    if |target| == 0 then InsertEverywhere(s, repl)
    else if IsPrefix(target, s) then repl + ReplaceAll(s[|target|..], target, repl)
    else if |s| == 0 then s
    else [s[0]] + ReplaceAll(s[1..], target, repl)
  }

  /** A slice of the tail of `s` is the slice of `s` one position further on. */
  lemma SliceOfTail(s: string, a: nat, b: nat)
    requires a <= b < |s|
    ensures s[1..][a..b] == s[a + 1..b + 1]
  {
  }

  /** Contains agrees with the index-based reading "some index holds an occurrence". */
  lemma {:induction false} ContainsIffOccursAt(s: string, t: string)
    ensures Contains(s, t) <==> exists i: nat :: OccursAt(s, t, i)
    decreases |s|
  {
    if Contains(s, t) {
      if IsPrefix(t, s) {
        assert OccursAt(s, t, 0);
      } else {
        ContainsIffOccursAt(s[1..], t);
        var i: nat :| OccursAt(s[1..], t, i);
        SliceOfTail(s, i, i + |t|);
        assert OccursAt(s, t, i + 1);
      }
    }
    if exists i: nat :: OccursAt(s, t, i) {
      var i: nat :| OccursAt(s, t, i);
      if i == 0 {
        assert IsPrefix(t, s);
      } else {
        SliceOfTail(s, i - 1, i - 1 + |t|);
        assert OccursAt(s[1..], t, i - 1);
        ContainsIffOccursAt(s[1..], t);
      }
    }
  }

  /** Java: with an empty target and an empty replacement the string is unchanged. */
  lemma {:induction false} ReplaceEmptyTargetEmptyRepl(s: string)
    ensures ReplaceAll(s, "", "") == s
    decreases |s|
  {
    if |s| > 0 {
      ReplaceEmptyTargetEmptyRepl(s[1..]);
      assert s == [s[0]] + s[1..];
    }
  }

  /** A non-empty target that does not occur leaves the string unchanged, whatever the replacement. */
  lemma {:induction false} ReplaceNoOccurrence(s: string, target: string, repl: string)
    ensures |target| > 0 && !Contains(s, target) ==> ReplaceAll(s, target, repl) == s
    decreases |s|
  {
    if |target| > 0 && !Contains(s, target) && |s| > 0 {
      ReplaceNoOccurrence(s[1..], target, repl);
      assert s == [s[0]] + s[1..];
    }
  }

  /** A leading occurrence of the target is replaced and the scan continues after it. */
  lemma ReplaceLeading(target: string, rest: string, repl: string)
    requires |target| > 0
    ensures ReplaceAll(target + rest, target, repl) == repl + ReplaceAll(rest, target, repl)
  {
  }

  /**
    Deleting (replacing by "") never lengthens a string, and it shortens
    it whenever a non-empty target occurs in it.
   */
  lemma {:induction false} ReplaceByEmptyShrinks(s: string, target: string)
    ensures |ReplaceAll(s, target, "")| <= |s|
    ensures |target| > 0 && Contains(s, target) ==> |ReplaceAll(s, target, "")| < |s|
    decreases |s|
  {
    if |target| == 0 {
      ReplaceEmptyTargetEmptyRepl(s);
    } else if IsPrefix(target, s) {
      ReplaceByEmptyShrinks(s[|target|..], target);
    } else if |s| > 0 {
      ReplaceByEmptyShrinks(s[1..], target);
    }
  }

  /** A target with a character that `s` lacks does not occur in `s`. */
  lemma MissingCharNotContained(s: string, t: string, k: nat)
    requires k < |t| && t[k] !in s
    ensures !Contains(s, t)
  {
  }
}
