/**
 * The two `java.lang.String` operations the airport layer relies on:
 * `compareTo` (airport ordering by abbreviation) and `equalsIgnoreCase`
 * (airport lookup by name).  A Dafny `char` is a Unicode scalar value, so
 * characters are compared by scalar value, not by UTF-16 code unit.
 */
module JavaText {
  import Ranking

  /**
   * `String.compareTo`: the difference of the characters at the first index
   * where the strings differ, or the length difference when one is a prefix
   * of the other.
   */
  function CompareStrings(s: string, t: string): (r: int)
    ensures (forall k :: 0 <= k < |s| && k < |t| ==> s[k] == t[k]) ==> r == |s| - |t|
    ensures forall k :: 0 <= k < |s| && k < |t| && s[k] != t[k] && (forall j :: 0 <= j < k ==> s[j] == t[j]) ==>
              r == s[k] as int - t[k] as int
  {
    if s == [] || t == [] then |s| - |t|
    else if s[0] != t[0] then s[0] as int - t[0] as int
    else CompareStrings(s[1..], t[1..])
  }

  /** `compareTo` is zero exactly for equal strings. */
  lemma {:induction false} CompareZeroIffEqual(s: string, t: string)
    ensures CompareStrings(s, t) == 0 <==> s == t
  {
    if s != [] && t != [] && s[0] == t[0] {
      CompareZeroIffEqual(s[1..], t[1..]);
      assert s == [s[0]] + s[1..] && t == [t[0]] + t[1..];
    }
  }

  /** Swapping the operands negates the comparison. */
  lemma {:induction false} CompareAntisymmetric(s: string, t: string)
    ensures CompareStrings(s, t) == -CompareStrings(t, s)
  {
    if s != [] && t != [] && s[0] == t[0] {
      CompareAntisymmetric(s[1..], t[1..]);
    }
  }

  /** "Not after" is transitive, so `compareTo` orders strings consistently. */
  lemma {:induction false} CompareTransitive(a: string, b: string, c: string)
    requires CompareStrings(a, b) <= 0 && CompareStrings(b, c) <= 0
    ensures CompareStrings(a, c) <= 0
  {
    if a != [] && b != [] && c != [] && a[0] == b[0] && b[0] == c[0] {
      CompareTransitive(a[1..], b[1..], c[1..]);
    }
  }

  /** The comparator `Collections.sort` uses for `Comparable` elements compared by string. */
  function NotAfter(s: string, t: string): bool { CompareStrings(s, t) <= 0 }

  /** So sorting strings with it is well defined. */
  lemma NotAfterIsTotalPreorder()
    ensures Ranking.TotalPreorder(NotAfter)
  {
    forall s, t ensures NotAfter(s, t) || NotAfter(t, s) {
      CompareAntisymmetric(s, t);
    }
    forall s, t, u | NotAfter(s, t) && NotAfter(t, u) ensures NotAfter(s, u) {
      CompareTransitive(s, t, u);
    }
  }

  /** Case folding of one character (ASCII letters only). */
  function Fold(c: char): char {
    if 'A' <= c <= 'Z' then (c as int - 'A' as int + 'a' as int) as char else c
  }

  /** The string with every character folded. */
  function Folded(s: string): (r: string)
    ensures |r| == |s|
    ensures forall i :: 0 <= i < |s| ==> r[i] == Fold(s[i])
  {
    if s == [] then [] else [Fold(s[0])] + Folded(s[1..])
  }

  /**
   * `String.equalsIgnoreCase`: same length and pairwise equal characters after
   * folding; that is, equality of the folded strings, hence an equivalence.
   */
  predicate EqualsIgnoreCase(s: string, t: string)
    ensures EqualsIgnoreCase(s, t) <==> Folded(s) == Folded(t)
  {
    var r := |s| == |t| && forall i :: 0 <= i < |s| ==> Fold(s[i]) == Fold(t[i]);
    assert Folded(s) == Folded(t) ==> r by {
      if Folded(s) == Folded(t) {
        forall i | 0 <= i < |s| ensures Fold(s[i]) == Fold(t[i]) {
          assert Folded(s)[i] == Folded(t)[i];
        }
      }
    }
    r
  }
}
