/**
 * The few string operations of Python and JavaScript that the extractor and
 * the extension use: counting a character, `str.count` (non-overlapping
 * occurrences of a pattern), substring and prefix tests, and the ASCII
 * character classes and lower-casing.
 */
module StringOps {

  // ---------------------------------------------------------------------------
  // Character classes (ASCII)
  // ---------------------------------------------------------------------------

  predicate IsAsciiLetter(c: char) {
    ('A' <= c <= 'Z') || ('a' <= c <= 'z')
  }

  predicate IsAsciiDigit(c: char) {
    '0' <= c <= '9'
  }

  predicate IsAscii(s: string) {
    forall i :: 0 <= i < |s| ==> s[i] < 128 as char
  }

  /** `c.lower()` on an ASCII character; every other character is left alone. */
  function LowerChar(c: char): char {
    if 'A' <= c <= 'Z' then (c as int + 32) as char else c
  }

  /** `s.lower()`, character by character. */
  function Lower(s: string): (r: string)
    ensures |r| == |s|
    ensures forall i :: 0 <= i < |s| ==> r[i] == LowerChar(s[i])
  {
    seq(|s|, i requires 0 <= i < |s| => LowerChar(s[i]))
  }

  // ---------------------------------------------------------------------------
  // Counting
  // ---------------------------------------------------------------------------

  /** Number of positions of `s` that hold `c`. */
  function Occurrences(s: string, c: char): (n: nat)
    ensures n <= |s|
    ensures n == 0 <==> c !in s
  {
    if s == [] then 0 else (if s[0] == c then 1 else 0) + Occurrences(s[1..], c)
  }

  lemma {:induction false} OccurrencesAppend(a: string, b: string, c: char)
    ensures Occurrences(a + b, c) == Occurrences(a, c) + Occurrences(b, c)
  {
    if a == [] {
      assert a + b == b;
    } else {
      assert (a + b)[1..] == a[1..] + b;
      OccurrencesAppend(a[1..], b, c);
    }
  }

  /** One `c` between two strings adds one to their counts. */
  lemma OccurrencesAround(a: string, b: string, c: char)
    ensures Occurrences(a + [c] + b, c) == Occurrences(a, c) + 1 + Occurrences(b, c)
  {
    OccurrencesAppend(a, [c], c);
    OccurrencesAppend(a + [c], b, c);
  }

  /** A string with exactly one `c`, between two parts free of it. */
  lemma OccursOnce(s: string, a: string, b: string, c: char)
    requires s == a + [c] + b && c !in a && c !in b
    ensures Occurrences(s, c) == 1
  {
    OccurrencesAround(a, b, c);
  }

  /** A string with exactly two `c`, separating three parts free of it. */
  lemma OccursTwice(s: string, a: string, b: string, d: string, c: char)
    requires s == a + [c] + (b + [c] + d) && c !in a && c !in b && c !in d
    ensures Occurrences(s, c) == 2
  {
    OccurrencesAround(b, d, c);
    OccurrencesAround(a, b + [c] + d, c);
  }

  /** Two different characters together occur at most once per position. */
  lemma {:induction false} OccurrencesOfTwo(s: string, c: char, d: char)
    requires c != d
    ensures Occurrences(s, c) + Occurrences(s, d) <= |s|
  {
    if s != [] {
      OccurrencesOfTwo(s[1..], c, d);
    }
  }

  /**
   * Python's `s.count(p)`: occurrences of `p` found scanning left to right,
   * each match resuming after its last character (so they never overlap).
   * The empty pattern matches at every position: `|s| + 1`.
   */
  function CountSub(s: string, p: string): (n: nat)
    decreases |s|
  {
    if p == [] then |s| + 1
    else if |s| < |p| then 0
    else if s[..|p|] == p then 1 + CountSub(s[|p|..], p)
    else CountSub(s[1..], p)
  }

  /** Non-overlapping matches of a non-empty pattern fit in the string. */
  lemma {:induction false} CountSubBound(s: string, p: string)
    requires p != []
    ensures |p| * CountSub(s, p) <= |s|
    decreases |s|
  {
    if |s| < |p| {
    } else if s[..|p|] == p {
      CountSubBound(s[|p|..], p);
    } else {
      CountSubBound(s[1..], p);
    }
  }

  /** For a one-character pattern, `str.count` counts that character. */
  lemma {:induction false} CountSubChar(s: string, c: char)
    ensures CountSub(s, [c]) == Occurrences(s, c)
    decreases |s|
  {
    if |s| >= 1 {
      CountSubChar(s[1..], c);
    }
  }

  /**
   * A doubled character such as `//`: each match uses up two occurrences of
   * that character, so the matches are bounded by half of them.
   */
  lemma {:induction false} CountSubDoubledChar(s: string, c: char)
    ensures 2 * CountSub(s, [c, c]) <= Occurrences(s, c)
    decreases |s|
  {
    if |s| < 2 {
    } else if s[..2] == [c, c] {
      CountSubDoubledChar(s[2..], c);
      assert s == [c, c] + s[2..];
      OccurrencesAppend([c, c], s[2..], c);
    } else {
      CountSubDoubledChar(s[1..], c);
    }
  }

  // ---------------------------------------------------------------------------
  // Prefixes and substrings
  // ---------------------------------------------------------------------------

  /** JavaScript's `s.startsWith(p)`. */
  predicate StartsWith(s: string, p: string) {
    |p| <= |s| && s[..|p|] == p
  }

  /** Python's `p in s` and JavaScript's `s.includes(p)`. */
  predicate Contains(s: string, p: string)
    decreases |s|
  {
    StartsWith(s, p) || (s != [] && Contains(s[1..], p))
  }

  /** `p` occurs in `s` starting at index `i`. */
  predicate OccursAt(s: string, p: string, i: int) {
    0 <= i && i + |p| <= |s| && s[i..i + |p|] == p
  }

  /** A lower-case pattern placed between two strings occurs in the lower-cased whole right after the first. */
  lemma LowerOccursAt(a: string, p: string, b: string)
    requires Lower(p) == p
    ensures OccursAt(Lower(a + p + b), p, |a|)
  {
    var l := Lower(a + p + b);
    assert l[|a|..|a| + |p|] == Lower(p);
  }

  /** `Contains` holds exactly when the pattern occurs at some index. */
  lemma {:induction false} ContainsAt(s: string, p: string, i: int)
    requires OccursAt(s, p, i)
    ensures Contains(s, p)
    decreases |s|
  {
    if i > 0 {
      assert s[1..][i - 1..i - 1 + |p|] == s[i..i + |p|];
      ContainsAt(s[1..], p, i - 1);
    }
  }

  lemma {:induction false} ContainsWitness(s: string, p: string) returns (i: nat)
    requires Contains(s, p)
    ensures OccursAt(s, p, i)
    decreases |s|
  {
    if StartsWith(s, p) {
      i := 0;
    } else {
      var j := ContainsWitness(s[1..], p);
      assert s[1..][j..j + |p|] == s[j + 1..j + 1 + |p|];
      i := j + 1;
    }
  }

  /** `str.count` finds a match exactly when the pattern occurs somewhere. */
  lemma {:induction false} CountSubPositive(s: string, p: string)
    requires p != []
    ensures CountSub(s, p) > 0 <==> Contains(s, p)
    decreases |s|
  {
    if |s| < |p| {
      if Contains(s, p) {
        var i := ContainsWitness(s, p);
      }
    } else if s[..|p|] == p {
    } else {
      CountSubPositive(s[1..], p);
    }
  }

  /** A string that lacks one of the pattern's characters does not contain it. */
  lemma MissingCharNotContained(s: string, p: string, c: char)
    requires c in p && c !in s
    ensures !Contains(s, p)
  {
  }

  /** A lower-case letter absent from `s` in both cases is absent from `Lower(s)`. */
  lemma MissingFromLower(s: string, c: char)
    requires 'a' <= c <= 'z' && c !in s && (c as int - 32) as char !in s
    ensures c !in Lower(s)
  {
  }

  /** A string containing `q` contains every substring of `q`. */
  lemma ContainsTransitive(s: string, q: string, p: string)
    requires Contains(s, q) && Contains(q, p)
    ensures Contains(s, p)
  {
    var i := ContainsWitness(s, q);
    var j := ContainsWitness(q, p);
    assert s[i..i + |q|] == q;
    forall k | 0 <= k < |p|
      ensures s[i + j + k] == p[k]
    {
      assert s[i + j + k] == s[i..i + |q|][j + k];
      assert q[j..j + |p|][k] == q[j + k];
    }
    assert s[i + j..i + j + |p|] == p;
    ContainsAt(s, p, i + j);
  }
}
