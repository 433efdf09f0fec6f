/**
 * String helpers the job-mail tracker relies on: lower-casing (`str.lower`)
 * and substring search (what `re.search` does for a pattern made only of
 * literal alternatives).
 */
module Text {

  /** Lower-cases one character; only the ASCII letters A-Z are mapped. */
  function LowerChar(c: char): char
  {
    if 'A' <= c <= 'Z' then (c as int + 32) as char else c
  }

  /** A character that lower-casing leaves alone. */
  predicate UnchangedByLower(c: char)
  {
    !('A' <= c <= 'Z')
  }

  /** A string that lower-casing leaves unchanged. */
  predicate IsLower(s: string)
  {
    forall i :: 0 <= i < |s| ==> UnchangedByLower(s[i])
  }

  /**
   * `s.lower()`, character by character: the result has the same length,
   * maps each upper-case letter to its lower-case counterpart (32 code
   * points on), and keeps every other character.
   */
  function Lower(s: string): (r: string)
    ensures |r| == |s| && IsLower(r)
    ensures forall i :: 0 <= i < |s| && !UnchangedByLower(s[i]) ==> r[i] as int == s[i] as int + 32
    ensures forall i :: 0 <= i < |s| && UnchangedByLower(s[i]) ==> r[i] == s[i]
  {
    seq(|s|, i requires 0 <= i < |s| => LowerChar(s[i]))
  }

  /** Lowering is idempotent: a lowered string is its own lower-case form. */
  lemma LowerIdempotent(s: string)
    ensures Lower(Lower(s)) == Lower(s)
  {
  }

  /** `p` occurs in `s` starting at index `i`. */
  predicate OccursAt(s: string, p: string, i: nat)
  {
    i + |p| <= |s| && s[i..i + |p|] == p
  }

  /**
   * Substring search: true exactly when `p` occurs somewhere in `s`,
   * which is what `re.search(p, s)` answers for a literal pattern `p`.
   */
  function Contains(s: string, p: string): (r: bool)
    decreases |s|
    ensures r <==> exists i: nat :: OccursAt(s, p, i)
  {
    if |p| > |s| then
      assert forall i: nat :: !OccursAt(s, p, i);
      false
    else if s[..|p|] == p then
      assert OccursAt(s, p, 0);
      true
    else
      var rest := Contains(s[1..], p);
      assert !OccursAt(s, p, 0);
      assert rest ==> exists i: nat :: OccursAt(s, p, i) by {
        if rest {
          var j: nat :| OccursAt(s[1..], p, j);
          OccursShift(s, p, j);
        }
      }
      assert (exists i: nat :: OccursAt(s, p, i)) ==> rest by {
        if exists i: nat :: OccursAt(s, p, i) {
          var j: nat :| OccursAt(s, p, j);
          assert j > 0;
          OccursShift(s, p, j - 1);
        }
      }
      rest
  }

  /** An occurrence at `i + 1` in `s` is one at `i` in `s` without its first character. */
  lemma OccursShift(s: string, p: string, i: nat)
    requires s != []
    ensures OccursAt(s, p, i + 1) <==> OccursAt(s[1..], p, i)
  {
    if i + 1 + |p| <= |s| {
      assert s[i + 1..i + 1 + |p|] == s[1..][i..i + |p|];
    }
  }

  /** An occurrence in a string survives lowering, when the pattern is lower-case. */
  lemma LowerKeepsOccurrence(s: string, p: string, i: nat)
    requires IsLower(p) && OccursAt(s, p, i)
    ensures OccursAt(Lower(s), p, i)
  {
    var t := Lower(s);
    forall k | 0 <= k < |p|
      ensures t[i..i + |p|][k] == p[k]
    {
      assert s[i..i + |p|][k] == s[i + k];
    }
  }

  /** An occurrence in a suffix of `s` is one in `s`, shifted by the length cut off. */
  lemma ContainsInSuffix(s: string, p: string, k: nat)
    requires k <= |s| && Contains(s[k..], p)
    ensures Contains(s, p)
  {
    var j: nat :| OccursAt(s[k..], p, j);
    assert s[k..][j..j + |p|] == s[k + j..k + j + |p|];
    assert OccursAt(s, p, k + j);
  }
}
