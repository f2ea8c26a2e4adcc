/**
 * The few operations of `java.lang.String` that the instance-type registry relies on:
 * `startsWith`, `toUpperCase` (on ASCII letters), `replace(".", "")` and the
 * lexicographic order of `compareTo`, which orders the registry's listings.
 */
module JavaStrings {

  /** `s.startsWith(p)` */
  predicate StartsWith(s: string, p: string) {
    |p| <= |s| && s[..|p|] == p
  }

  /** `Character.toUpperCase` restricted to ASCII letters; every other character is kept. */
  function UpperChar(c: char): char {
    if 'a' <= c <= 'z' then (c as int - 32) as char else c
  }

  /** `s.toUpperCase()` */
  function ToUpper(s: string): (r: string)
    ensures |r| == |s|
    ensures forall c :: c in r ==> !('a' <= c <= 'z')
    ensures forall i :: 0 <= i < |s| && !('a' <= s[i] <= 'z') ==> r[i] == s[i]
  {
    if |s| == 0 then "" else [UpperChar(s[0])] + ToUpper(s[1..])
  }

  /** `s.replace(".", "")`: every '.' removed, the other characters kept in order. */
  function RemoveDots(s: string): (r: string)
    ensures |r| <= |s|
    ensures '.' !in r
    ensures forall c :: c in r ==> c in s
  {
    if |s| == 0 then ""
    else if s[0] == '.' then RemoveDots(s[1..])
    else [s[0]] + RemoveDots(s[1..])
  }

  /**
   * `a.compareTo(b) < 0`: the first differing character decides; when one string is a
   * prefix of the other, the shorter one comes first.
   */
  predicate Less(a: string, b: string)
    decreases |a|
  {
    if |a| == 0 then |b| > 0
    else if |b| == 0 then false
    else if a[0] != b[0] then a[0] < b[0]
    else Less(a[1..], b[1..])
  }

  lemma {:induction false} LessIrreflexive(a: string)
    ensures !Less(a, a)
  {
    if |a| > 0 {
      LessIrreflexive(a[1..]);
    }
  }

  lemma {:induction false} LessAsymmetric(a: string, b: string)
    requires Less(a, b)
    ensures !Less(b, a)
  {
    if |a| > 0 && |b| > 0 && a[0] == b[0] {
      LessAsymmetric(a[1..], b[1..]);
    }
  }

  lemma {:induction false} LessTransitive(a: string, b: string, c: string)
    requires Less(a, b) && Less(b, c)
    ensures Less(a, c)
  {
    if |a| > 0 && |b| > 0 && |c| > 0 && a[0] == b[0] && b[0] == c[0] {
      LessTransitive(a[1..], b[1..], c[1..]);
    }
  }

  /** `compareTo` is total: two strings are equal or one of them comes first. */
  lemma {:induction false} LessTotal(a: string, b: string)
    ensures a == b || Less(a, b) || Less(b, a)
  {
    if |a| > 0 && |b| > 0 && a[0] == b[0] {
      LessTotal(a[1..], b[1..]);
      if a[1..] == b[1..] {
        assert a == [a[0]] + a[1..] && b == [b[0]] + b[1..];
      }
    }
  }
}
