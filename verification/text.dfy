/**
  String operations the patient list relies on: substring containment
  (JavaScript's `String.prototype.includes`), and concrete stand-ins for the
  two locale-dependent library calls, `toLowerCase` and `localeCompare`.

  The patient-list model takes case folding and collation as parameters; the
  ASCII lower-casing and the code-point lexicographic comparison below are one
  admissible choice of those parameters, and `LexCompareIsCollation` shows that
  the comparison meets the ordering assumptions the sort lemmas need.
*/
module Text {

  /** True if `p` is a prefix of `s`. */
  predicate IsPrefix(p: string, s: string) {
    |p| <= |s| && s[..|p|] == p
  }

  /** `s.includes(t)`: `t` occurs in `s` at some offset (the empty string occurs everywhere). */
  predicate Contains(s: string, t: string)
    decreases |s|
  {
    IsPrefix(t, s) || (|s| > 0 && Contains(s[1..], t))
  }

  /** Reference definition of containment: an explicit offset at which `t` appears. */
  ghost predicate OccursAt(s: string, t: string, i: int) {
    0 <= i && i + |t| <= |s| && s[i..i + |t|] == t
  }

  /** `Contains` finds exactly the strings that occur at some offset. */
  lemma {:induction false} ContainsIffOccurs(s: string, t: string)
    ensures Contains(s, t) <==> exists i :: OccursAt(s, t, i)
    decreases |s|
  {
    if |s| > 0 {
      ContainsIffOccurs(s[1..], t);
    }
    if Contains(s, t) {
      if IsPrefix(t, s) {
        assert OccursAt(s, t, 0);
      } else {
        var i :| OccursAt(s[1..], t, i);
        assert s[i + 1..i + 1 + |t|] == s[1..][i..i + |t|];
        assert OccursAt(s, t, i + 1);
      }
    }
    forall i | OccursAt(s, t, i) ensures Contains(s, t) {
      if i == 0 {
        assert s[..|t|] == s[0..0 + |t|];
        assert IsPrefix(t, s);
      } else {
        assert s[1..][i - 1..i - 1 + |t|] == s[i..i + |t|];
        assert OccursAt(s[1..], t, i - 1);
      }
    }
  }

  /** Only a string no longer than `s` can occur in `s`. */
  lemma {:induction false} ContainsNoLonger(s: string, t: string)
    ensures Contains(s, t) ==> |t| <= |s|
    decreases |s|
  {
    if |s| > 0 {
      ContainsNoLonger(s[1..], t);
    }
  }

  /** Every string contains the empty string. */
  lemma ContainsEmpty(s: string)
    ensures Contains(s, "")
  {
    assert IsPrefix("", s);
  }

  /** ASCII case folding of one character. */
  function LowerChar(c: char): (d: char)
    ensures 'A' <= c <= 'Z' ==> 'a' <= d <= 'z' && d as int - c as int == 32
    ensures !('A' <= c <= 'Z') ==> d == c
  {
    if 'A' <= c <= 'Z' then (c as int + 32) as char else c
  }

  /** `toLowerCase` restricted to ASCII letters: other characters are kept. */
  function AsciiLower(s: string): (r: string)
    ensures |r| == |s|
    ensures forall i :: 0 <= i < |s| ==> r[i] == LowerChar(s[i])
  {
    seq(|s|, i requires 0 <= i < |s| => LowerChar(s[i]))
  }

  /** ASCII lower-casing is idempotent and has no upper-case letter in its result. */
  lemma AsciiLowerIdempotent(s: string)
    ensures AsciiLower(AsciiLower(s)) == AsciiLower(s)
    ensures forall i :: 0 <= i < |s| ==> !('A' <= AsciiLower(s)[i] <= 'Z')
  {
  }

  /**
    A `localeCompare`-shaped collation, consistent in the sense ECMAScript
    requires of a sort comparator: `cmp(a, b) <= 0` means `a` sorts before or
    with `b`; swapping the arguments flips the sign; and sorting before-or-with
    is total and transitive.
  */
  ghost predicate IsCollation(cmp: (string, string) -> int) {
    && (forall a, b :: cmp(a, b) < 0 <==> cmp(b, a) > 0)
    && (forall a, b :: cmp(a, b) <= 0 || cmp(b, a) <= 0)
    && (forall a, b, c :: cmp(a, b) <= 0 && cmp(b, c) <= 0 ==> cmp(a, c) <= 0)
  }

  /**
    A collation meets the remaining consistency conditions of ECMAScript's
    sort: every string compares equal to itself, comparing equal is
    transitive, and sorting strictly before is transitive.
  */
  lemma CollationIsConsistent(cmp: (string, string) -> int, a: string, b: string, c: string)
    requires IsCollation(cmp)
    ensures cmp(a, a) == 0
    ensures cmp(a, b) == 0 && cmp(b, c) == 0 ==> cmp(a, c) == 0
    ensures cmp(a, b) < 0 && cmp(b, c) < 0 ==> cmp(a, c) < 0
  {
  }

  /** Code-point lexicographic comparison, returning -1, 0 or 1. */
  function LexCompare(a: string, b: string): (r: int)
    ensures -1 <= r <= 1
    ensures r == 0 <==> a == b
    decreases |a|
  {
    if |a| == 0 && |b| == 0 then 0
    else if |a| == 0 then -1
    else if |b| == 0 then 1
    else if a[0] < b[0] then -1
    else if a[0] > b[0] then 1
    else
      var r := LexCompare(a[1..], b[1..]);
      assert r == 0 ==> a == [a[0]] + a[1..] == [b[0]] + b[1..] == b;
      assert a == b ==> a[1..] == b[1..];
      r
  }

  /** Swapping the arguments negates the comparison. */
  lemma {:induction false} LexCompareAntisymmetric(a: string, b: string)
    ensures LexCompare(b, a) == -LexCompare(a, b)
    decreases |a|
  {
    if |a| > 0 && |b| > 0 && a[0] == b[0] {
      LexCompareAntisymmetric(a[1..], b[1..]);
    }
  }

  /** Sorting before-or-with is transitive. */
  lemma {:induction false} LexCompareTransitive(a: string, b: string, c: string)
    requires LexCompare(a, b) <= 0 && LexCompare(b, c) <= 0
    ensures LexCompare(a, c) <= 0
    decreases |a|
  {
    if |a| > 0 && |b| > 0 && |c| > 0 && a[0] == b[0] == c[0] {
      LexCompareTransitive(a[1..], b[1..], c[1..]);
    }
  }

  /** The code-point comparison is a collation. */
  lemma LexCompareIsCollation()
    ensures IsCollation(LexCompare)
  {
    forall a, b ensures LexCompare(a, b) < 0 <==> LexCompare(b, a) > 0 {
      LexCompareAntisymmetric(a, b);
    }
    forall a, b ensures LexCompare(a, b) <= 0 || LexCompare(b, a) <= 0 {
      LexCompareAntisymmetric(a, b);
    }
    forall a, b, c | LexCompare(a, b) <= 0 && LexCompare(b, c) <= 0
      ensures LexCompare(a, c) <= 0
    {
      LexCompareTransitive(a, b, c);
    }
  }

  /** Case-insensitive comparison: code-point order of the ASCII lower-cased strings. */
  function FoldedCompare(a: string, b: string): (r: int)
    ensures -1 <= r <= 1
    ensures r == 0 <==> AsciiLower(a) == AsciiLower(b)
  {
    LexCompare(AsciiLower(a), AsciiLower(b))
  }

  /** Case-insensitive comparison is a collation too; it ties names that differ only in case. */
  lemma FoldedCompareIsCollation()
    ensures IsCollation(FoldedCompare)
  {
    LexCompareIsCollation();
    forall a, b ensures FoldedCompare(a, b) < 0 <==> FoldedCompare(b, a) > 0 {
      LexCompareAntisymmetric(AsciiLower(a), AsciiLower(b));
    }
    forall a, b, c | FoldedCompare(a, b) <= 0 && FoldedCompare(b, c) <= 0
      ensures FoldedCompare(a, c) <= 0
    {
      LexCompareTransitive(AsciiLower(a), AsciiLower(b), AsciiLower(c));
    }
  }
}
