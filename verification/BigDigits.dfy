/** Numbers of five digits in base 10^9, lowest first: their values and their orders. */
module BigDigits {
  const LIMIT: nat := 1_000_000_000
  const DIGITS: nat := 5

  function Weight(n: nat): (w: nat)
    ensures w > 0
  {
    if n == 0 then 1 else LIMIT * Weight(n - 1)
  }

  /** The value of the first `n` digits. */
  function Magnitude(d: seq<nat>, n: nat): nat
    requires n <= |d|
  {
    if n == 0 then 0 else Magnitude(d, n - 1) + d[n - 1] * Weight(n - 1)
  }

  /** Digits in their range. */
  predicate Normal(d: seq<nat>) {
    forall i :: 0 <= i < |d| ==> d[i] < LIMIT
  }

  lemma MagnitudeStep(d: seq<nat>, n: nat)
    requires n < |d|
    ensures Magnitude(d, n + 1) == Magnitude(d, n) + d[n] * Weight(n)
  {
  }

  lemma WeightStep(n: nat)
    ensures Weight(n + 1) == LIMIT * Weight(n)
  {
  }

  lemma {:induction false} SameMagnitude(d: seq<nat>, e: seq<nat>, n: nat)
    requires n <= |d| && n <= |e| && forall i :: 0 <= i < n ==> d[i] == e[i]
    ensures Magnitude(d, n) == Magnitude(e, n)
  {
    if n > 0 {
      SameMagnitude(d, e, n - 1);
    }
  }

  lemma Times(a: int, b: int, w: int)
    ensures (a + b) * w == a * w + b * w
  {
  }

  lemma NoMore(a: nat, b: nat, w: nat)
    requires a <= b
    ensures a * w <= b * w
  {
    Times(a, b - a, w);
  }

  /** The first `n` digits in their range stay below the weight of the next. */
  lemma {:induction false} MagnitudeBound(d: seq<nat>, n: nat)
    requires n <= |d| && forall i :: 0 <= i < n ==> d[i] < LIMIT
    ensures Magnitude(d, n) < Weight(n)
  {
    hide Weight;
    if n > 0 {
      MagnitudeBound(d, n - 1);
      MagnitudeStep(d, n - 1);
      WeightStep(n - 1);
      NoMore(d[n - 1] + 1, LIMIT, Weight(n - 1));
      Times(d[n - 1], 1, Weight(n - 1));
    } else {
      assert Weight(0) > 0;
    }
  }

  /** The highest digit that differs decides the order. */
  lemma {:induction false} HighestDecides(d: seq<nat>, e: seq<nat>, i: nat, n: nat)
    requires i < n <= |d| == |e| && Normal(d) && Normal(e) && d[i] < e[i]
    requires forall j :: i < j < n ==> d[j] == e[j]
    ensures Magnitude(d, n) < Magnitude(e, n)
  {
    hide Weight;
    MagnitudeStep(d, n - 1);
    MagnitudeStep(e, n - 1);
    if i == n - 1 {
      MagnitudeBound(d, i);
      NoMore(d[i] + 1, e[i], Weight(i));
      Times(d[i], 1, Weight(i));
    } else {
      HighestDecides(d, e, i, n - 1);
    }
  }

  /** Digits in their range are determined by their value. */
  lemma UniqueDigits(d: seq<nat>, e: seq<nat>)
    requires |d| == |e| && Normal(d) && Normal(e) && Magnitude(d, |d|) == Magnitude(e, |e|)
    ensures d == e
  {
    if d != e {
      var i := HighestDifference(d, e, |d|);
      if d[i] < e[i] { HighestDecides(d, e, i, |d|); } else { HighestDecides(e, d, i, |d|); }
    }
  }

  lemma {:induction false} HighestDifference(d: seq<nat>, e: seq<nat>, n: nat) returns (i: nat)
    requires n <= |d| == |e| && exists j :: 0 <= j < n && d[j] != e[j]
    ensures i < n && d[i] != e[i] && forall j :: i < j < n ==> d[j] == e[j]
  {
    if d[n - 1] != e[n - 1] {
      i := n - 1;
    } else {
      i := HighestDifference(d, e, n - 1);
    }
  }
}
