/** The few operations of java.lang.String the dictionary and the loader rely on. */
module JavaStrings {

  /** String.compareTo: the difference of the first pair of differing
      characters, or else the difference of the lengths. */
  function CompareTo(a: string, b: string): int
  {
    if |a| == 0 || |b| == 0 then |a| - |b|
    else if a[0] != b[0] then a[0] as int - b[0] as int
    else CompareTo(a[1..], b[1..])
  }

  /** a sorts strictly before b under compareTo */
  predicate Less(a: string, b: string)
  {
    CompareTo(a, b) < 0
  }

  /** compareTo is zero exactly on equal strings, so the `equals` test of
      `put` and the `compareTo(..) == 0` test of `get` agree. */
  lemma {:induction false} CompareToZeroIffEqual(a: string, b: string)
    ensures CompareTo(a, b) == 0 <==> a == b
  {
    if |a| != 0 && |b| != 0 && a[0] == b[0] {
      CompareToZeroIffEqual(a[1..], b[1..]);
      assert a == [a[0]] + a[1..] && b == [b[0]] + b[1..];
    }
  }

  /** Swapping the arguments negates the result. */
  lemma {:induction false} CompareToAntisymmetric(a: string, b: string)
    ensures CompareTo(a, b) == -CompareTo(b, a)
  {
    if |a| != 0 && |b| != 0 && a[0] == b[0] {
      CompareToAntisymmetric(a[1..], b[1..]);
    }
  }

  /** Less is a strict order: irreflexive ... */
  lemma LessIrreflexive(a: string)
    ensures !Less(a, a)
  {
    CompareToZeroIffEqual(a, a);
  }

  /** ... total on distinct strings ... */
  lemma LessTotal(a: string, b: string)
    ensures a == b || Less(a, b) || Less(b, a)
  {
    CompareToZeroIffEqual(a, b);
    CompareToAntisymmetric(a, b);
  }

  /** ... asymmetric ... */
  lemma LessAsymmetric(a: string, b: string)
    ensures Less(a, b) ==> !Less(b, a)
  {
    CompareToAntisymmetric(a, b);
  }

  /** ... and transitive. */
  lemma {:induction false} LessTransitive(a: string, b: string, c: string)
    requires Less(a, b) && Less(b, c)
    ensures Less(a, c)
  {
    if |a| != 0 && |b| != 0 && |c| != 0 && a[0] == b[0] && b[0] == c[0] {
      LessTransitive(a[1..], b[1..], c[1..]);
    }
  }

  /** Character.toLowerCase restricted to ASCII letters. */
  function LowerChar(c: char): char
  {
    if 'A' <= c <= 'Z' then (c as int + 32) as char else c
  }

  /** String.toLowerCase, character by character (ASCII letters only). */
  function ToLower(s: string): (r: string)
    ensures |r| == |s|
    ensures forall i :: 0 <= i < |s| ==> r[i] == LowerChar(s[i])
  {
    if s == [] then [] else [LowerChar(s[0])] + ToLower(s[1..])
  }

  /** Lower-casing twice is lower-casing once. */
  lemma ToLowerIdempotent(s: string)
    ensures ToLower(ToLower(s)) == ToLower(s)
  {
  }

  /** String.endsWith */
  predicate EndsWith(s: string, suffix: string)
  {
    |suffix| <= |s| && s[|s| - |suffix|..] == suffix
  }
}
