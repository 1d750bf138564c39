/** Counting the entries of a sequence of verdicts that hold. */
module Counting {

  /** The number of `true` entries. */
  function CountTrue(v: seq<bool>): (n: nat)
    ensures n <= |v|
    decreases |v|
  {
    if |v| == 0 then 0
    else CountTrue(v[..|v| - 1]) + if v[|v| - 1] then 1 else 0
  }

  /** The count reaches the length exactly when every entry holds, and is
      zero exactly when none does. */
  lemma {:induction false} CountTrueExtremes(v: seq<bool>)
    ensures CountTrue(v) == |v| <==> forall i :: 0 <= i < |v| ==> v[i]
    ensures CountTrue(v) == 0 <==> forall i :: 0 <= i < |v| ==> !v[i]
    decreases |v|
  {
    if |v| > 0 {
      var k := |v| - 1;
      CountTrueExtremes(v[..k]);
      assert forall i :: 0 <= i < k ==> v[..k][i] == v[i];
    }
  }

  /** Peeling off the last entry. */
  lemma CountTrueLast(v: seq<bool>)
    requires |v| > 0
    ensures CountTrue(v) == CountTrue(v[..|v| - 1]) + if v[|v| - 1] then 1 else 0
  {
  }

  /** Counting is additive over concatenation. */
  lemma {:induction false} CountTrueAppend(a: seq<bool>, b: seq<bool>)
    ensures CountTrue(a + b) == CountTrue(a) + CountTrue(b)
    decreases |b|
  {
    if |b| > 0 {
      var k := |b| - 1;
      CountTrueAppend(a, b[..k]);
      assert (a + b)[..|a| + k] == a + b[..k];
    } else {
      assert a + b == a;
    }
  }
}
