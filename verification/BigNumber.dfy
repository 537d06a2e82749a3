/** Signed numbers of five base 10^9 digits, changed in place. */
module BigNumber {
  import opened BigDigits
  import opened BigSums
  import opened Prelude

  /** A signed value, and minus nothing when there is a sign on zero. */
  function Signed(sign: int, magnitude: nat): int {
    if sign < 0 then 0 - magnitude else magnitude
  }

  datatype Comparison = Less | Equal | Greater

  /** The true order of two numbers. */
  function OrderOf(a: int, b: int): Comparison {
    if a < b then Less else if a == b then Equal else Greater
  }

  class BigNum {
    /** Base 10^9 digits, lowest first. */
    const digits: array<nat>
    /** 0, or -1 for a negative number. */
    var sign: int

    ghost predicate Valid()
      reads this
    {
      digits.Length == DIGITS && (sign == 0 || sign == -1)
    }

    ghost predicate Normal()
      requires Valid()
      reads this, digits
    {
      BigDigits.Normal(digits[..])
    }

    ghost function Size(): nat
      requires Valid()
      reads this, digits
    {
      Magnitude(digits[..], DIGITS)
    }

    ghost function Value(): int
      requires Valid()
      reads this, digits
    {
      Signed(sign, Size())
    }

    constructor ()
      ensures Valid() && fresh(digits) && Normal() && Value() == 0 && sign == 0
      ensures digits[..] == [0, 0, 0, 0, 0]
    {
      digits := new nat[DIGITS](_ => 0);
      sign := 0;
      new;
      ZeroMagnitude(digits[..], DIGITS);
    }

    /** Compares from the highest digit down. For digits in range the order is right unless a zero
        with a sign meets one without. */
    method Compare(b: BigNum) returns (result: Comparison)
      requires Valid() && b.Valid()
      ensures result == Equal <==> sign == b.sign && digits[..] == b.digits[..]
      ensures sign == b.sign && result != Equal ==>
        (result == Less <==> (sign >= 0 <==> Below(digits[..], b.digits[..], DIGITS)))
      ensures sign != b.sign ==> result == if sign < b.sign then Less else Greater
      ensures Normal() && b.Normal() ==>
        (result == OrderOf(Value(), b.Value()) <==> !(sign != b.sign && Size() == 0 && b.Size() == 0))
    {
      var sameSign := sign == b.sign;
      if sameSign {
        var negative := sign < 0;
        var i: nat := DIGITS;
        while i != 0
          invariant i <= DIGITS && forall j :: i <= j < DIGITS ==> digits[j] == b.digits[j]
          invariant Below(digits[..], b.digits[..], DIGITS) == Below(digits[..], b.digits[..], i)
        {
          i := i - 1;
          if digits[i] < b.digits[i] {
            DecidedAt(b, i);
            return if !negative then Less else Greater;
          }
          if digits[i] > b.digits[i] {
            b.DecidedAt(this, i);
            return if negative then Less else Greater;
          }
        }
        assert digits[..] == b.digits[..];
        return Equal;
      }
      return if sign < b.sign then Less else Greater;
    }

    /** The highest digit that differs decides, if digits are in range. */
    lemma DecidedAt(b: BigNum, i: nat)
      requires Valid() && b.Valid() && i < DIGITS && digits[i] < b.digits[i]
      requires forall j :: i < j < DIGITS ==> digits[j] == b.digits[j]
      ensures digits[..] != b.digits[..] && (Normal() && b.Normal() ==> Size() < b.Size())
    {
      assert digits[..][i] != b.digits[..][i];
      if Normal() && b.Normal() { HighestDecides(digits[..], b.digits[..], i, DIGITS); }
    }

    /** Whether the value without sign is less. */
    method AbsoluteLessThan(b: BigNum) returns (less: bool)
      requires Valid() && b.Valid()
      ensures less == Below(digits[..], b.digits[..], DIGITS)
      ensures Normal() && b.Normal() ==> (less <==> Size() < b.Size())
    {
      var i: nat := DIGITS;
      while i != 0
        invariant i <= DIGITS && forall j :: i <= j < DIGITS ==> digits[j] == b.digits[j]
        invariant Below(digits[..], b.digits[..], DIGITS) == Below(digits[..], b.digits[..], i)
      {
        i := i - 1;
        if digits[i] < b.digits[i] {
          DecidedAt(b, i);
          return true;
        }
        if digits[i] > b.digits[i] {
          b.DecidedAt(this, i);
          return false;
        }
      }
      assert digits[..] == b.digits[..];
      return false;
    }

    /** Becomes `a` with the other sign; a zero keeps the sign it has. */
    method Neg(a: BigNum)
      requires Valid() && a.Valid() && (a == this || a.digits != digits)
      modifies this, digits
      ensures Valid() && Value() == -old(a.Value()) && digits[..] == old(a.digits[..])
      ensures Size() == 0 ==> sign == old(a.sign)
    {
      ghost var d := a.digits[..];
      forall i | 0 <= i < DIGITS {
        digits[i] := a.digits[i];
      }
      sign := a.sign;
      assert digits[..] == d;
      var aIsZero := true;
      for i := 0 to DIGITS
        invariant aIsZero <==> forall j :: 0 <= j < i ==> digits[j] == 0
      {
        if digits[i] != 0 {
          aIsZero := false;
          NotZeroMagnitude(digits[..], i, DIGITS);
          break;
        }
      }
      if aIsZero {
        ZeroMagnitude(digits[..], DIGITS);
      } else {
        sign := sign * sign - 1;
      }
    }

    /** The result of an addition shares no digits with its operands unless it is one of them. */
    ghost predicate Apart(a: BigNum)
      reads this
    {
      a == this || a.digits != digits
    }

    /** Adds digit by digit with a carry. A sum of exactly 10^9 in one place is kept there. */
    method AddSameSign(a: BigNum, b: BigNum) returns (carry: nat)
      requires Valid() && a.Valid() && b.Valid() && Apart(a) && Apart(b)
      modifies this, digits
      ensures Valid() && sign == old(a.sign) && carry == CarryInto(old(a.digits[..]), old(b.digits[..]), DIGITS)
      ensures forall i :: 0 <= i < DIGITS ==> digits[i] == SumDigit(old(a.digits[..]), old(b.digits[..]), i)
    {
      ghost var x, y := a.digits[..], b.digits[..];
      assert CarryInto(x, y, 0) == 0;
      hide SumDigit, CarryInto;
      var aSign := a.sign;
      carry := 0;
      for i := 0 to DIGITS
        invariant a.digits[i..] == x[i..] && b.digits[i..] == y[i..]
        invariant carry == CarryInto(x, y, i) && forall j :: 0 <= j < i ==> digits[j] == SumDigit(x, y, j)
      {
        assert x[i] == x[i..][0] && y[i] == y[i..][0];
        var result := (a.digits[i] + b.digits[i] + carry) % TWO_32;
        SumDigitIs(x, y, i);
        if result > LIMIT {
          carry := 1;
          result := result - LIMIT;
        } else {
          carry := 0;
        }
        digits[i] := result;
        assert digits[i] == SumDigit(x, y, i);
      }
      sign := aSign;
    }

    /** Subtracts digit by digit with a borrow, and takes the sign of the first. */
    method SubtractSmaller(bigNum: BigNum, smallNum: BigNum) returns (carry: nat)
      requires Valid() && bigNum.Valid() && smallNum.Valid() && Apart(bigNum) && Apart(smallNum)
      modifies this, digits
      ensures Valid() && sign == old(bigNum.sign)
      ensures carry == BorrowInto(old(bigNum.digits[..]), old(smallNum.digits[..]), DIGITS)
      ensures forall i :: 0 <= i < DIGITS ==>
        digits[i] == DifferenceDigit(old(bigNum.digits[..]), old(smallNum.digits[..]), i)
    {
      ghost var x, y := bigNum.digits[..], smallNum.digits[..];
      assert BorrowInto(x, y, 0) == 0;
      hide DifferenceDigit, BorrowInto;
      var bigSign := bigNum.sign;
      carry := 0;
      for i := 0 to DIGITS
        invariant bigNum.digits[i..] == x[i..] && smallNum.digits[i..] == y[i..]
        invariant carry == BorrowInto(x, y, i) && forall j :: 0 <= j < i ==> digits[j] == DifferenceDigit(x, y, j)
      {
        assert x[i] == x[i..][0] && y[i] == y[i..][0];
        var result: int := bigNum.digits[i] - smallNum.digits[i] - carry;
        DifferenceDigitIs(x, y, i);
        if result < 0 {
          carry := 1;
          result := result + LIMIT;
        } else {
          carry := 0;
        }
        digits[i] := result % TWO_32;
        assert digits[i] == DifferenceDigit(x, y, i);
      }
      sign := if bigSign < 0 then -1 else 0;
    }

    /** Becomes the sum, but for a carry or a borrow out of the highest digit, exactly when every
        place fits its 32 bits. Numbers whose digits are in range always fit, and leave no borrow.
        A sum that cancels has the sign of `a`. */
    method Add(a: BigNum, b: BigNum) returns (carry: nat)
      requires Valid() && a.Valid() && b.Valid() && Apart(a) && Apart(b)
      requires Words(a.digits[..]) && Words(b.digits[..])
      modifies this, digits
      ensures Valid() && carry <= 1
      ensures old(a.sign) == old(b.sign) ==> sign == old(a.sign)
      ensures old(a.sign) == old(b.sign) ==>
        (Value() + Signed(sign, carry * Weight(DIGITS)) == old(a.Value()) + old(b.Value())
         <==> SumFits(old(a.digits[..]), old(b.digits[..]), DIGITS))
      ensures old(a.sign) != old(b.sign) ==>
        (Value() - Signed(sign, carry * Weight(DIGITS)) == old(a.Value()) + old(b.Value())
         <==> TakesAway(old(a.digits[..]), old(b.digits[..])))
      ensures old(a.sign) == old(b.sign) && Loose(old(a.digits[..])) && Loose(old(b.digits[..])) ==>
        SumFits(old(a.digits[..]), old(b.digits[..]), DIGITS) && (old(b.Normal()) ==> Loose(digits[..]))
      ensures old(a.Normal()) && old(b.Normal()) ==>
        && Value() + Signed(sign, carry * Weight(DIGITS)) == old(a.Value()) + old(b.Value())
        && (Normal() <==>
              (old(a.sign) == old(b.sign) ==>
                 forall i :: 0 <= i < DIGITS ==> !InGap(old(a.digits[..]), old(b.digits[..]), i)))
        && (old(a.sign) != old(b.sign) ==> carry == 0 && (Size() == 0 ==> sign == old(a.sign)))
    {
      hide Weight, Magnitude, InGap, SumDigit, DifferenceDigit, CarryInto, BorrowInto, SumFits, DifferenceFits, Words,
        Loose, BigDigits.Normal;
      ghost var x, y := a.digits[..], b.digits[..];
      var sameSign := a.sign == b.sign;
      if sameSign {
        carry := AddSameSign(a, b);
        SumExact(x, y, digits[..]);
        SumDigitsOf(x, y, digits[..]);
      } else {
        var less := a.AbsoluteLessThan(b);
        AbsoluteOrder(x, y);
        if less {
          carry := SubtractSmaller(b, a);
          DifferenceExact(y, x, digits[..]);
          DifferenceDigitsOf(y, x, digits[..]);
        } else {
          carry := SubtractSmaller(a, b);
          DifferenceExact(x, y, digits[..]);
          DifferenceDigitsOf(x, y, digits[..]);
        }
      }
    }

    /** Becomes the difference: the sum with the other number negated, which a zero is not. */
    method Sub(a: BigNum, b: BigNum) returns (carry: nat)
      requires Valid() && a.Valid() && b.Valid() && Apart(a) && Apart(b)
      requires Words(a.digits[..]) && Words(b.digits[..])
      modifies this, digits
      ensures Valid() && carry <= 1
      ensures old(Together(a, b)) ==> sign == old(a.sign)
      ensures old(Together(a, b)) ==>
        (Value() + Signed(sign, carry * Weight(DIGITS)) == old(a.Value()) - old(b.Value())
         <==> SumFits(old(a.digits[..]), old(b.digits[..]), DIGITS))
      ensures !old(Together(a, b)) ==>
        (Value() - Signed(sign, carry * Weight(DIGITS)) == old(a.Value()) - old(b.Value())
         <==> TakesAway(old(a.digits[..]), old(b.digits[..])))
      ensures old(a.Normal()) && old(b.Normal()) ==>
        && Value() + Signed(sign, carry * Weight(DIGITS)) == old(a.Value()) - old(b.Value())
        && (Normal() <==>
              (old(Together(a, b)) ==>
                 forall i :: 0 <= i < DIGITS ==> !InGap(old(a.digits[..]), old(b.digits[..]), i)))
        && (!old(Together(a, b)) ==> carry == 0)
    {
      hide Weight, Magnitude, InGap, SumDigit, DifferenceDigit, CarryInto, BorrowInto, SumFits, DifferenceFits, Words,
        Loose, TakesAway, BigDigits.Normal;
      var nb := new BigNum();
      nb.Neg(b);
      carry := Add(a, nb);
    }
  }

  /** A difference adds magnitudes: the signs differ, or `b` is 0, whose sign is kept, and they do
      not. */
  ghost predicate Together(a: BigNum, b: BigNum)
    requires a.Valid() && b.Valid()
    reads a, b, b.digits
  {
    (a.sign != b.sign) == (b.Size() != 0)
  }

  /** The first number is less, judged from the highest digit that differs. */
  predicate Below(x: seq<nat>, y: seq<nat>, n: nat)
    requires n <= |x| == |y|
  {
    n > 0 && (x[n - 1] < y[n - 1] || (x[n - 1] == y[n - 1] && Below(x, y, n - 1)))
  }

  /** No place stays negative when what is taken for the smaller number is taken from the other. */
  ghost predicate TakesAway(x: seq<nat>, y: seq<nat>)
    requires |x| == |y| == DIGITS
  {
    if Below(x, y, DIGITS) then DifferenceFits(y, x, DIGITS) else DifferenceFits(x, y, DIGITS)
  }

  /** For digits in range that is the order of the numbers. */
  lemma {:induction false} BelowIsLess(x: seq<nat>, y: seq<nat>, n: nat)
    requires n <= |x| == |y| && BigDigits.Normal(x) && BigDigits.Normal(y)
    ensures Below(x, y, n) <==> Magnitude(x, n) < Magnitude(y, n)
  {
    hide Weight, Magnitude;
    if n > 0 {
      BelowIsLess(x, y, n - 1);
      MagnitudeStep(x, n - 1);
      MagnitudeStep(y, n - 1);
      if x[n - 1] < y[n - 1] { HighestDecides(x, y, n - 1, n); }
      if y[n - 1] < x[n - 1] { HighestDecides(y, x, n - 1, n); }
    } else {
      NoDigits(x, y);
    }
  }

  lemma NoDigits(x: seq<nat>, y: seq<nat>)
    ensures Magnitude(x, 0) == Magnitude(y, 0) == 0
  {
  }

  lemma AbsoluteOrder(x: seq<nat>, y: seq<nat>)
    requires |x| == |y| == DIGITS
    ensures BigDigits.Normal(x) && BigDigits.Normal(y) ==>
      (Below(x, y, DIGITS) <==> Magnitude(x, DIGITS) < Magnitude(y, DIGITS))
  {
    if BigDigits.Normal(x) && BigDigits.Normal(y) { BelowIsLess(x, y, DIGITS); }
  }

  lemma SumDigitIs(x: seq<nat>, y: seq<nat>, i: nat)
    requires i < |x| == |y|
    ensures var t := (x[i] + y[i] + CarryInto(x, y, i)) % TWO_32;
      && SumDigit(x, y, i) == (if t > LIMIT then t - LIMIT else t)
      && CarryInto(x, y, i + 1) == if t > LIMIT then 1 else 0
  {
  }

  lemma DifferenceDigitIs(x: seq<nat>, y: seq<nat>, i: nat)
    requires i < |x| == |y|
    ensures var t := x[i] - y[i] - BorrowInto(x, y, i);
      && DifferenceDigit(x, y, i) == (if t < 0 then t + LIMIT else t) % TWO_32
      && BorrowInto(x, y, i + 1) == if t < 0 then 1 else 0
  {
  }

  /** What the digits of a sum are when those of the numbers are loose or in range. */
  lemma SumDigitsOf(x: seq<nat>, y: seq<nat>, z: seq<nat>)
    requires |x| == |y| == |z| == DIGITS && forall i :: 0 <= i < DIGITS ==> z[i] == SumDigit(x, y, i)
    ensures Loose(x) && Loose(y) ==> SumFits(x, y, DIGITS) && (BigDigits.Normal(y) ==> Loose(z))
    ensures BigDigits.Normal(x) && BigDigits.Normal(y) ==> SumFits(x, y, DIGITS)
    ensures BigDigits.Normal(x) && BigDigits.Normal(y) ==>
      (BigDigits.Normal(z) <==> forall i :: 0 <= i < DIGITS ==> !InGap(x, y, i))
  {
    hide SumDigit, CarryInto, InGap, SumFits;
    if Loose(x) && Loose(y) { LooseSum(x, y, DIGITS); }
    if BigDigits.Normal(x) && BigDigits.Normal(y) {
      LooseSum(x, y, DIGITS);
      SumNormal(x, y, z, DIGITS);
    }
  }

  /** What the digits of a difference are when those of the numbers are in range. */
  lemma DifferenceDigitsOf(x: seq<nat>, y: seq<nat>, z: seq<nat>)
    requires |x| == |y| == |z| == DIGITS && forall i :: 0 <= i < DIGITS ==> z[i] == DifferenceDigit(x, y, i)
    ensures BigDigits.Normal(x) && BigDigits.Normal(y) ==> DifferenceFits(x, y, DIGITS) && BigDigits.Normal(z)
    ensures BigDigits.Normal(x) && BigDigits.Normal(y) && Magnitude(y, DIGITS) <= Magnitude(x, DIGITS) ==>
      BorrowInto(x, y, DIGITS) == 0
  {
    hide DifferenceDigit, BorrowInto, DifferenceFits, Magnitude;
    if BigDigits.Normal(x) && BigDigits.Normal(y) {
      NormalDifference(x, y, DIGITS);
      if Magnitude(y, DIGITS) <= Magnitude(x, DIGITS) { NoBorrowLeft(x, y, z); }
    }
  }

  lemma {:induction false} ZeroMagnitude(d: seq<nat>, n: nat)
    requires n <= |d| && forall i :: 0 <= i < n ==> d[i] == 0
    ensures Magnitude(d, n) == 0
  {
    if n > 0 {
      ZeroMagnitude(d, n - 1);
    }
  }

  lemma {:induction false} NotZeroMagnitude(d: seq<nat>, i: nat, n: nat)
    requires i < n <= |d| && d[i] != 0
    ensures Magnitude(d, n) > 0
  {
    hide Weight;
    if i < n - 1 {
      NotZeroMagnitude(d, i, n - 1);
    } else {
      NoMore(1, d[i], Weight(i));
    }
    NoMore(0, d[n - 1], Weight(n - 1));
  }
}
