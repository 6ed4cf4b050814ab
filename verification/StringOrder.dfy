/** The order in which Go compares and sorts strings. */
module StringOrder {

  /** strings.Compare */
  function CompareStrings(a: string, b: string): int {
    if a == "" || b == "" then (if a == b then 0 else if a == "" then -1 else 1)
    else if a[0] != b[0] then (if a[0] < b[0] then -1 else 1)
    else CompareStrings(a[1..], b[1..])
  }

  lemma {:induction false} CompareIsAntisymmetric(a: string, b: string)
    ensures CompareStrings(a, b) == -CompareStrings(b, a) && (CompareStrings(a, b) == 0 <==> a == b)
  {
    if a != "" && b != "" {
      CompareIsAntisymmetric(a[1..], b[1..]);
      assert a == [a[0]] + a[1..] && b == [b[0]] + b[1..];
    }
  }

  lemma {:induction false} CompareIsTransitive(a: string, b: string, c: string)
    requires CompareStrings(a, b) < 0 && CompareStrings(b, c) < 0
    ensures CompareStrings(a, c) < 0
  {
    if a != "" && b != "" && c != "" && a[0] == b[0] == c[0] {
      CompareIsTransitive(a[1..], b[1..], c[1..]);
    }
  }

  /** a comes before b: they agree up to some point, where a ends or has the smaller character. */
  ghost predicate Before(a: string, b: string) {
    exists k: nat :: Parts(a, b, k)
  }

  predicate Parts(a: string, b: string, k: nat) {
    k <= |a| && k < |b| && a[..k] == b[..k] && (k == |a| || a[k] < b[k])
  }

  lemma {:induction false} CompareMeaning(a: string, b: string)
    ensures CompareStrings(a, b) < 0 <==> Before(a, b)
  {
    if b == "" || a == "" || a[0] != b[0] {
      assert b != "" && (a == "" || a[0] < b[0]) ==> Parts(a, b, 0);
      forall k: nat
        ensures Parts(a, b, k) ==> k == 0
      {
        PartsAgree(a, b, k);
      }
    } else {
      CompareMeaning(a[1..], b[1..]);
      assert !Parts(a, b, 0);
      if k: nat :| Parts(a, b, k) {
        PartsLater(a, b, k - 1);
      }
      if k: nat :| Parts(a[1..], b[1..], k) {
        PartsLater(a, b, k);
      }
    }
  }

  lemma PartsAgree(a: string, b: string, k: nat)
    ensures Parts(a, b, k) && k > 0 ==> a[0] == b[0]
  {
    if Parts(a, b, k) && k > 0 {
      assert a[0] == a[..k][0] == b[..k][0] == b[0];
    }
  }

  lemma PartsLater(a: string, b: string, k: nat)
    requires a != "" && b != "" && a[0] == b[0]
    ensures Parts(a, b, k + 1) <==> Parts(a[1..], b[1..], k)
  {
    if k + 1 <= |a| && k + 1 < |b| {
      assert a[..k + 1] == [a[0]] + a[1..][..k];
      assert b[..k + 1] == [b[0]] + b[1..][..k];
      if a[..k + 1] == b[..k + 1] {
        assert a[1..][..k] == a[..k + 1][1..] == b[..k + 1][1..] == b[1..][..k];
      }
    }
  }
}
