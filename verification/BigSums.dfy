/** Adding and subtracting digit by digit in 32 bits: what the loops compute from any digits, and
    exactly when that is the sum or the difference. */
module BigSums {
  import opened BigDigits
  import opened Prelude

  /** Digits that a sum of digits in range may have. */
  predicate Loose(d: seq<nat>) {
    forall i :: 0 <= i < |d| ==> d[i] <= LIMIT
  }

  /** What fits the 32 bits of a digit. */
  predicate Words(d: seq<nat>) {
    forall i :: 0 <= i < |d| ==> d[i] < TWO_32
  }

  /** The carry into place `i`: a sum of exactly 10^9 does not make one. */
  function CarryInto(x: seq<nat>, y: seq<nat>, i: nat): (c: nat)
    requires i <= |x| == |y|
    ensures c <= 1
  {
    if i > 0 && (x[i - 1] + y[i - 1] + CarryInto(x, y, i - 1)) % TWO_32 > LIMIT then 1 else 0
  }

  function SumDigit(x: seq<nat>, y: seq<nat>, i: nat): nat
    requires i < |x| == |y|
  {
    var result := (x[i] + y[i] + CarryInto(x, y, i)) % TWO_32;
    if result > LIMIT then result - LIMIT else result
  }

  /** No place of the sum needs more than 32 bits. */
  ghost predicate SumFits(x: seq<nat>, y: seq<nat>, n: nat)
    requires n <= |x| == |y|
  {
    forall i :: 0 <= i < n ==> x[i] + y[i] + CarryInto(x, y, i) < TWO_32
  }

  /** What the places that need more lose. */
  ghost function Lost(x: seq<nat>, y: seq<nat>, n: nat): (v: nat)
    requires n <= |x| == |y|
  {
    if n == 0 then 0
    else
      Lost(x, y, n - 1)
      + (if x[n - 1] + y[n - 1] + CarryInto(x, y, n - 1) < TWO_32 then 0 else TWO_32 * Weight(n - 1))
  }

  lemma {:induction false} LostWhen(x: seq<nat>, y: seq<nat>, n: nat)
    requires n <= |x| == |y|
    ensures Lost(x, y, n) == 0 <==> SumFits(x, y, n)
  {
    hide Weight;
    if n > 0 {
      LostWhen(x, y, n - 1);
      NoMore(1, Weight(n - 1), TWO_32);
    }
  }

  /** The sum the loop has made so far, its carry, and what it lost. */
  lemma {:induction false} SumSoFar(x: seq<nat>, y: seq<nat>, z: seq<nat>, n: nat)
    requires n <= |x| == |y| == |z| && Words(x) && Words(y)
    requires forall i :: 0 <= i < n ==> z[i] == SumDigit(x, y, i)
    ensures Magnitude(z, n) + CarryInto(x, y, n) * Weight(n) + Lost(x, y, n) == Magnitude(x, n) + Magnitude(y, n)
  {
    hide Weight, Magnitude, CarryInto, SumDigit, Lost;
    if n == 0 {
      NothingAdded(x, y, z);
    } else {
      var i, w := n - 1, Weight(n - 1);
      SumSoFar(x, y, z, i);
      MagnitudeStep(z, i);
      MagnitudeStep(x, i);
      MagnitudeStep(y, i);
      WeightStep(i);
      SumStep(x, y, i);
      var t, c, c' := x[i] + y[i] + CarryInto(x, y, i), CarryInto(x, y, i), CarryInto(x, y, n);
      var cut := if t < TWO_32 then 0 else TWO_32;
      assert z[i] + c' * LIMIT + cut == x[i] + y[i] + c;
      SumOfPlaces(z[i], c', cut, x[i], y[i], c, w);
    }
  }

  lemma NothingAdded(x: seq<nat>, y: seq<nat>, z: seq<nat>)
    requires |x| == |y|
    ensures Magnitude(z, 0) == Magnitude(x, 0) == Magnitude(y, 0) == Lost(x, y, 0) == CarryInto(x, y, 0) == 0
  {
  }

  lemma SumStep(x: seq<nat>, y: seq<nat>, i: nat)
    requires i < |x| == |y| && Words(x) && Words(y)
    ensures var t, w := x[i] + y[i] + CarryInto(x, y, i), Weight(i);
      && SumDigit(x, y, i) + CarryInto(x, y, i + 1) * LIMIT + (if t < TWO_32 then 0 else TWO_32) == t
      && Lost(x, y, i + 1) == Lost(x, y, i) + (if t < TWO_32 then 0 else TWO_32) * w
  {
    hide Weight;
  }

  lemma SumOfPlaces(z: nat, c': nat, cut: nat, x: nat, y: nat, c: nat, w: nat)
    requires z + c' * LIMIT + cut == x + y + c
    ensures z * w + c' * (LIMIT * w) + cut * w == x * w + y * w + c * w
  {
    assert c' * (LIMIT * w) == (c' * LIMIT) * w;
    Times(z, c' * LIMIT, w);
    Times(z + c' * LIMIT, cut, w);
    Times(x, y, w);
    Times(x + y, c, w);
  }

  /** The whole sum, exactly when every place fits. */
  lemma SumExact(x: seq<nat>, y: seq<nat>, z: seq<nat>)
    requires |x| == |y| == |z| && Words(x) && Words(y)
    requires forall i :: 0 <= i < |z| ==> z[i] == SumDigit(x, y, i)
    ensures var n := |z|;
      Magnitude(z, n) + CarryInto(x, y, n) * Weight(n) == Magnitude(x, n) + Magnitude(y, n) <==> SumFits(x, y, n)
  {
    hide Weight, Magnitude, CarryInto, SumDigit, Lost;
    SumSoFar(x, y, z, |z|);
    LostWhen(x, y, |z|);
  }

  /** Sums of loose digits fit, and adding digits in range to loose ones leaves loose ones. */
  lemma {:induction false} LooseSum(x: seq<nat>, y: seq<nat>, n: nat)
    requires n <= |x| == |y| && Loose(x) && Loose(y)
    ensures SumFits(x, y, n)
    ensures Normal(y) ==> forall i :: 0 <= i < n ==> SumDigit(x, y, i) <= LIMIT
  {
    if n > 0 {
      LooseSum(x, y, n - 1);
    }
  }

  /** The lowest `i + 1` digits of a sum reach the weight of the next digit, but not the weight of
      one more unit of their highest: the place holds 10^9 exactly. */
  ghost predicate InGap(x: seq<nat>, y: seq<nat>, i: nat)
    requires i < |x| && i < |y|
  {
    Weight(i + 1) <= Magnitude(x, i + 1) + Magnitude(y, i + 1) < Weight(i + 1) + Weight(i)
  }

  /** With the lower digits in their range, the next is 10^9 exactly in the gap. */
  lemma GapIsLimit(x: seq<nat>, y: seq<nat>, z: seq<nat>, n: nat, result: nat, c: nat)
    requires n < |x| == |y| && n <= |z| && c <= 1 && result <= LIMIT && (c == 1 ==> 0 < result < LIMIT)
    requires forall i :: 0 <= i < n ==> z[i] < LIMIT
    requires Magnitude(x, n + 1) + Magnitude(y, n + 1) == Magnitude(z, n) + result * Weight(n) + c * (LIMIT * Weight(n))
    ensures InGap(x, y, n) <==> result == LIMIT
  {
    MagnitudeBound(z, n);
    WeightStep(n);
    hide Weight;
    if result < LIMIT {
      NoMore(result + 1, LIMIT, Weight(n));
      Times(result, 1, Weight(n));
      NoMore(1, result + 1 - c, Weight(n));
    }
  }

  /** The digits of a sum of digits in range are in range exactly when no place is in the gap. */
  lemma {:induction false} SumNormal(x: seq<nat>, y: seq<nat>, z: seq<nat>, n: nat)
    requires n <= |x| == |y| == |z| && Normal(x) && Normal(y)
    requires forall i :: 0 <= i < n ==> z[i] == SumDigit(x, y, i)
    ensures (forall i :: 0 <= i < n ==> z[i] < LIMIT) <==> forall i :: 0 <= i < n ==> !InGap(x, y, i)
  {
    hide Weight, InGap, Magnitude, SumDigit, CarryInto, Lost;
    if n > 0 {
      var i := n - 1;
      SumNormal(x, y, z, i);
      if forall j :: 0 <= j < i ==> z[j] < LIMIT {
        LooseSum(x, y, n);
        LostWhen(x, y, n);
        SumSoFar(x, y, z, n);
        MagnitudeStep(z, i);
        WeightStep(i);
        CarriedDigit(x, y, i);
        GapIsLimit(x, y, z, i, z[i], CarryInto(x, y, n));
      }
    }
  }

  lemma CarriedDigit(x: seq<nat>, y: seq<nat>, i: nat)
    requires i < |x| == |y| && Normal(x) && Normal(y)
    ensures SumDigit(x, y, i) <= LIMIT && (CarryInto(x, y, i + 1) == 1 ==> 0 < SumDigit(x, y, i) < LIMIT)
  {
  }

  /** The borrow into place `i`. */
  function BorrowInto(x: seq<nat>, y: seq<nat>, i: nat): (c: nat)
    requires i <= |x| == |y|
    ensures c <= 1
  {
    if i > 0 && x[i - 1] - y[i - 1] - BorrowInto(x, y, i - 1) < 0 then 1 else 0
  }

  function DifferenceDigit(x: seq<nat>, y: seq<nat>, i: nat): nat
    requires i < |x| == |y|
  {
    var result := x[i] - y[i] - BorrowInto(x, y, i);
    (if result < 0 then result + LIMIT else result) % TWO_32
  }

  /** No place stays negative after borrowing 10^9. */
  ghost predicate DifferenceFits(x: seq<nat>, y: seq<nat>, n: nat)
    requires n <= |x| == |y|
  {
    forall i :: 0 <= i < n ==> y[i] + BorrowInto(x, y, i) <= x[i] + LIMIT
  }

  /** What the places that do gain when they are stored in 32 bits. */
  ghost function Gained(x: seq<nat>, y: seq<nat>, n: nat): (v: nat)
    requires n <= |x| == |y|
  {
    if n == 0 then 0
    else
      Gained(x, y, n - 1)
      + (if y[n - 1] + BorrowInto(x, y, n - 1) <= x[n - 1] + LIMIT then 0 else TWO_32 * Weight(n - 1))
  }

  lemma {:induction false} GainedWhen(x: seq<nat>, y: seq<nat>, n: nat)
    requires n <= |x| == |y|
    ensures Gained(x, y, n) == 0 <==> DifferenceFits(x, y, n)
  {
    hide Weight;
    if n > 0 {
      GainedWhen(x, y, n - 1);
      NoMore(1, Weight(n - 1), TWO_32);
    }
  }

  lemma {:induction false} DifferenceSoFar(x: seq<nat>, y: seq<nat>, z: seq<nat>, n: nat)
    requires n <= |x| == |y| == |z| && Words(x) && Words(y)
    requires forall i :: 0 <= i < n ==> z[i] == DifferenceDigit(x, y, i)
    ensures Magnitude(z, n) + Magnitude(y, n) == Magnitude(x, n) + BorrowInto(x, y, n) * Weight(n) + Gained(x, y, n)
  {
    hide Weight, Magnitude, BorrowInto, DifferenceDigit, Gained;
    if n == 0 {
      NothingTaken(x, y, z);
    } else {
      var i, w := n - 1, Weight(n - 1);
      DifferenceSoFar(x, y, z, i);
      MagnitudeStep(z, i);
      MagnitudeStep(x, i);
      MagnitudeStep(y, i);
      WeightStep(i);
      DifferenceStep(x, y, i);
      var c, c' := BorrowInto(x, y, i), BorrowInto(x, y, n);
      var more := if y[i] + c <= x[i] + LIMIT then 0 else TWO_32;
      assert x[i] + c' * LIMIT + more == z[i] + y[i] + c;
      SumOfPlaces(x[i], c', more, z[i], y[i], c, w);
    }
  }

  lemma NothingTaken(x: seq<nat>, y: seq<nat>, z: seq<nat>)
    requires |x| == |y|
    ensures Magnitude(z, 0) == Magnitude(x, 0) == Magnitude(y, 0) == Gained(x, y, 0) == BorrowInto(x, y, 0) == 0
  {
  }

  lemma DifferenceStep(x: seq<nat>, y: seq<nat>, i: nat)
    requires i < |x| == |y| && Words(x) && Words(y)
    ensures var c, more := BorrowInto(x, y, i), if y[i] + BorrowInto(x, y, i) <= x[i] + LIMIT then 0 else TWO_32;
      && x[i] + BorrowInto(x, y, i + 1) * LIMIT + more == DifferenceDigit(x, y, i) + y[i] + c
      && Gained(x, y, i + 1) == Gained(x, y, i) + more * Weight(i)
  {
    hide Weight;
  }

  /** The whole difference, exactly when no place stays negative. */
  lemma DifferenceExact(x: seq<nat>, y: seq<nat>, z: seq<nat>)
    requires |x| == |y| == |z| && Words(x) && Words(y)
    requires forall i :: 0 <= i < |z| ==> z[i] == DifferenceDigit(x, y, i)
    ensures var n := |z|;
      Magnitude(z, n) - BorrowInto(x, y, n) * Weight(n) == Magnitude(x, n) - Magnitude(y, n)
      <==> DifferenceFits(x, y, n)
  {
    hide Weight, Magnitude, BorrowInto, DifferenceDigit, Gained;
    DifferenceSoFar(x, y, z, |z|);
    GainedWhen(x, y, |z|);
  }

  /** Taking digits in range away always fits, and from digits in range leaves digits in range. */
  lemma {:induction false} NormalDifference(x: seq<nat>, y: seq<nat>, n: nat)
    requires n <= |x| == |y| && Normal(y)
    ensures DifferenceFits(x, y, n)
    ensures Normal(x) ==> forall i :: 0 <= i < n ==> DifferenceDigit(x, y, i) < LIMIT
  {
    if n > 0 {
      NormalDifference(x, y, n - 1);
    }
  }

  /** A smaller number leaves no borrow. */
  lemma NoBorrowLeft(x: seq<nat>, y: seq<nat>, z: seq<nat>)
    requires |x| == |y| == |z| && Normal(x) && Normal(y) && Magnitude(y, |y|) <= Magnitude(x, |x|)
    requires forall i :: 0 <= i < |z| ==> z[i] == DifferenceDigit(x, y, i)
    ensures BorrowInto(x, y, |z|) == 0
  {
    hide Weight, Magnitude, BorrowInto, DifferenceDigit, DifferenceFits;
    NormalDifference(x, y, |z|);
    DifferenceExact(x, y, z);
    MagnitudeBound(z, |z|);
  }
}
