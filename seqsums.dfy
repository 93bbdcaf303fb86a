/// Sums and counts over sequences, used to measure progress (the solver's
/// termination, its no-overflow budget) and to count generated edges.
module SeqSums {
  /** The sum of the elements of `s` */
  function Sum(s: seq<int>): (total: int)
  {
    if s == [] then 0 else s[0] + Sum(s[1..])
  }

  lemma {:induction false} SumNonNegative(s: seq<int>)
    requires forall i :: 0 <= i < |s| ==> 0 <= s[i]
    ensures 0 <= Sum(s)
  {
    if s != [] {
      SumNonNegative(s[1..]);
    }
  }

  /** Replacing one element changes the sum by the difference */
  lemma {:induction false} SumUpdate(s: seq<int>, i: nat, x: int)
    requires i < |s|
    ensures Sum(s[i := x]) == Sum(s) - s[i] + x
  {
    if i == 0 {
      assert s[i := x][1..] == s[1..];
    } else {
      assert s[i := x][1..] == s[1..][i - 1 := x];
      SumUpdate(s[1..], i - 1, x);
    }
  }

  /** The number of `true` elements of `s` */
  function CountTrue(s: seq<bool>): (c: nat)
    ensures c <= |s|
  {
    if s == [] then 0 else (if s[0] then 1 else 0) + CountTrue(s[1..])
  }

  /** A sequence with a `false` element has fewer than `|s|` true ones */
  lemma {:induction false} CountTrueBelowLength(s: seq<bool>, i: nat)
    requires i < |s| && !s[i]
    ensures CountTrue(s) < |s|
  {
    if i > 0 {
      CountTrueBelowLength(s[1..], i - 1);
    }
  }

  /** Setting a `false` element to `true` adds one to the count */
  lemma {:induction false} CountTrueSet(s: seq<bool>, i: nat)
    requires i < |s| && !s[i]
    ensures CountTrue(s[i := true]) == CountTrue(s) + 1
  {
    if i == 0 {
      assert s[i := true][1..] == s[1..];
    } else {
      assert s[i := true][1..] == s[1..][i - 1 := true];
      CountTrueSet(s[1..], i - 1);
    }
  }

  lemma MulMonotone(a: nat, b: nat, c: nat)
    requires a <= b
    ensures a * c <= b * c
  {
  }
}
