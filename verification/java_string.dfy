/**
 * The parts of java.lang.String that the editor core relies on, over Dafny
 * strings. Characters are Dafny `char`s; Java compares UTF-16 code units, which
 * agree with code points everywhere outside the supplementary planes.
 */
module JavaString {

  /** `s.startsWith(prefix)`. */
  predicate StartsWith(s: string, prefix: string)
  {
    |prefix| <= |s| && s[..|prefix|] == prefix
  }

  /** `t` occurs in `s` starting at index `i`. */
  predicate OccursAt(s: string, t: string, i: int)
  {
    0 <= i && i + |t| <= |s| && s[i..i + |t|] == t
  }

  /**
   * `s.compareTo(t)`: the difference of the first pair of differing
   * characters, or the difference of the lengths when one string is a
   * prefix of the other.
   */
  function CompareTo(s: string, t: string): (r: int)
    ensures r == 0 <==> s == t
    decreases |s|
  {
    if |s| == 0 || |t| == 0 then |s| - |t|
    else if s[0] != t[0] then s[0] as int - t[0] as int
    else
      var r := CompareTo(s[1..], t[1..]);
      assert s == [s[0]] + s[1..] && t == [t[0]] + t[1..];
      r
  }

  /** Swapping the operands negates the result exactly. */
  lemma {:induction false} CompareToAntisymmetric(s: string, t: string)
    ensures CompareTo(s, t) == -CompareTo(t, s)
    decreases |s|
  {
    if |s| > 0 && |t| > 0 && s[0] == t[0] {
      CompareToAntisymmetric(s[1..], t[1..]);
    }
  }

  /** `CompareTo(_, _) <= 0` is transitive. */
  lemma {:induction false} CompareToTransitive(a: string, b: string, c: string)
    requires CompareTo(a, b) <= 0 && CompareTo(b, c) <= 0
    ensures CompareTo(a, c) <= 0
    decreases |a|
  {
    if |a| > 0 && |b| > 0 && |c| > 0 && a[0] == b[0] && b[0] == c[0] {
      CompareToTransitive(a[1..], b[1..], c[1..]);
    }
  }

  /** `CompareTo(_, _) <= 0` relates every pair one way or the other. */
  lemma CompareToTotal(s: string, t: string)
    ensures CompareTo(s, t) <= 0 || CompareTo(t, s) <= 0
  {
  }

  /** `s.lastIndexOf(c)`: the index of the last `c` in `s`, or -1. */
  function LastIndexOf(s: string, c: char): (r: int)
    ensures -1 <= r < |s|
    ensures r == -1 <==> c !in s
    ensures 0 <= r ==> s[r] == c
    ensures forall j :: r < j < |s| ==> s[j] != c
  {
    if |s| == 0 then -1
    else if s[|s| - 1] == c then |s| - 1
    else
      var r := LastIndexOf(s[..|s| - 1], c);
      assert s == s[..|s| - 1] + [s[|s| - 1]];
      r
  }

  /** `s.indexOf(t, from)`: the first occurrence of `t` at or after `from`, or -1. */
  function IndexOfFrom(s: string, t: string, from: nat): (r: int)
    requires from <= |s|
    ensures r == -1 || (from <= r && OccursAt(s, t, r))
    ensures r == -1 ==> forall j :: from <= j ==> !OccursAt(s, t, j)
    ensures 0 <= r ==> forall j :: from <= j < r ==> !OccursAt(s, t, j)
    decreases |s| - from
  {
    if from + |t| > |s| then -1
    else if s[from..from + |t|] == t then from
    else IndexOfFrom(s, t, from + 1)
  }

  /** `s.indexOf(t)`. */
  function IndexOf(s: string, t: string): (r: int)
    ensures -1 <= r
    ensures r == -1 <==> forall j :: !OccursAt(s, t, j)
    ensures 0 <= r ==> OccursAt(s, t, r) && forall j :: 0 <= j < r ==> !OccursAt(s, t, j)
  {
    IndexOfFrom(s, t, 0)
  }

  /** `s.replace(from, to)` for single characters. */
  function Replace(s: string, from: char, to: char): (r: string)
    ensures |r| == |s|
    ensures forall i :: 0 <= i < |s| ==> r[i] == (if s[i] == from then to else s[i])
  {
    if |s| == 0 then []
    else [if s[0] == from then to else s[0]] + Replace(s[1..], from, to)
  }

  /** Replacing a character a second time changes nothing. */
  lemma ReplaceIdempotent(s: string, from: char, to: char)
    ensures Replace(Replace(s, from, to), from, to) == Replace(s, from, to)
  {
  }
}
