/** Big numbers from two's complement integers and back, and the choice of an integer type for a
    number. */
module BigNumberInts {
  import opened BigDigits
  import opened BigNumber
  import opened BigSums
  import opened Prelude

  datatype IntType = Int8 | Int16 | Int32 | Int64 | Int128 {
    /** Half the number of values; values run from its negative up to it. */
    function Half(): (h: int)
      ensures h > 0
    {
      match this
      case Int8 => 0x80
      case Int16 => 0x8000
      case Int32 => 0x8000_0000
      case Int64 => 0x8000_0000_0000_0000
      case Int128 => 0x8000_0000_0000_0000_0000_0000_0000_0000
    }

    predicate Holds(x: int) {
      -Half() <= x < Half()
    }

    /** The number of base 10^9 digits that hold its values. */
    function Count(): (n: nat)
      ensures 0 < n <= DIGITS
    {
      match this
      case Int8 => 1
      case Int16 => 1
      case Int32 => 2
      case Int64 => 3
      case Int128 => 5
    }

    /** The value of the type with the same bits as the last ones of `x`. */
    function Wrapped(x: int): (r: int)
      ensures Holds(r)
    {
      (x + Half()) % (2 * Half()) - Half()
    }

    /** The ranges of the types. */
    lemma Ranges(x: int)
      ensures Int8? ==> (Holds(x) <==> -128 <= x <= 127)
      ensures Int16? ==> (Holds(x) <==> -32_768 <= x <= 32_767)
      ensures Int32? ==> (Holds(x) <==> -0x8000_0000 <= x <= 0x7FFF_FFFF)
      ensures Int64? ==> (Holds(x) <==> -0x8000_0000_0000_0000 <= x <= 0x7FFF_FFFF_FFFF_FFFF)
      ensures Int128? ==>
        (Holds(x) <==>
         -0x8000_0000_0000_0000_0000_0000_0000_0000 <= x <= 0x7FFF_FFFF_FFFF_FFFF_FFFF_FFFF_FFFF_FFFF)
    {
    }

    lemma WrappedInRange(x: int)
      ensures Wrapped(x) == x <==> Holds(x)
    {
    }

    lemma WrappedTwice(x: int, y: int)
      ensures Wrapped(Wrapped(x) + y) == Wrapped(x + y)
      ensures Wrapped(-1 * Wrapped(x)) == Wrapped(-x)
    {
      var m := 2 * Half();
      var q := (x + Half()) / m;
      assert Wrapped(x) == x - m * q;
      SameModulo(x + y + Half(), -q, m);
      SameModulo(-x + Half(), q, m);
    }

    lemma HalfFits()
      ensures Half() < Weight(Count())
    {
      assert Weight(1) == LIMIT && Weight(2) == LIMIT * LIMIT && Weight(3) == LIMIT * LIMIT * LIMIT;
      assert Weight(4) == LIMIT * LIMIT * LIMIT * LIMIT;
      assert Weight(5) == LIMIT * LIMIT * LIMIT * LIMIT * LIMIT;
    }
  }

  /** Wrapping changes a value by a multiple of the number of values. */
  lemma WrappedModulo(t: IntType, x: int)
    ensures (t.Wrapped(x) - x) % (2 * t.Half()) == 0
  {
    var m := 2 * t.Half();
    var q := (x + t.Half()) / m;
    assert t.Wrapped(x) - x == m * -q;
    SameModulo(0, -q, m);
  }

  lemma SameModulo(x: int, q: int, m: int)
    requires m > 0
    ensures (x + m * q) % m == x % m
  {
    var a, b := x / m, (x + m * q) / m;
    assert x == m * a + x % m;
    assert x + m * q == m * b + (x + m * q) % m;
    var d := a + q - b;
    assert m * d == m * a + m * q - m * b;
    SmallMultiple(m, d);
  }

  lemma SmallMultiple(m: nat, d: int)
    requires 0 - m < m * d < m
    ensures d == 0
  {
    if d >= 1 { NoMore(1, d, m); }
  }

  lemma {:induction false} MagnitudeSet(d: seq<nat>, k: nat, v: nat, n: nat)
    requires k < n <= |d| && d[k] == 0
    ensures Magnitude(d[k := v], n) == Magnitude(d, n) + v * Weight(k)
  {
    hide Weight;
    if k < n - 1 {
      MagnitudeSet(d, k, v, n - 1);
    } else {
      SameMagnitude(d, d[k := v], k);
    }
  }

  /** Splits a number at a weight. */
  lemma SplitAt(u: nat, i: nat)
    requires u < Weight(i + 1)
    ensures var q := u / Weight(i); q < LIMIT && u - q * Weight(i) == u % Weight(i) < Weight(i)
  {
    WeightStep(i);
    var w, q := Weight(i), u / Weight(i);
    hide Weight;
    assert u == w * q + u % w;
    if LIMIT <= q { NoMore(LIMIT, q, w); }
  }

  /** Becomes an integer: its absolute value, taken without overflow in the unsigned type, digit by
      digit from the highest. */
  method InitWithInt(r: BigNum, t: IntType, inNum: int)
    requires r.Valid() && t.Holds(inNum)
    modifies r, r.digits
    ensures r.Valid() && r.Normal() && r.Value() == inNum && r.sign == (if inNum < 0 then -1 else 0)
  {
    hide Weight, Magnitude, IntType.Wrapped, IntType.Half;
    forall i | 0 <= i < DIGITS {
      r.digits[i] := 0;
    }
    r.sign := 0;
    var unsignInNum: nat := inNum % (2 * t.Half());
    if inNum < 0 {
      r.sign := -1;
      unsignInNum := t.Wrapped(-1 * inNum) % (2 * t.Half());
    }
    UnsignedIs(t, inNum);
    t.HalfFits();
    SplitDigits(r, t.Count(), unsignInNum);
  }

  /** Takes digits off a number from the highest of `n` down. */
  method SplitDigits(r: BigNum, n: nat, size: nat)
    requires r.Valid() && r.digits[..] == [0, 0, 0, 0, 0] && 0 < n <= DIGITS && size < Weight(n)
    modifies r.digits
    ensures r.Normal() && r.Size() == size
  {
    hide Weight, Magnitude;
    var unsignInNum: nat := size;
    ZeroMagnitude(r.digits[..], DIGITS);
    var i := n;
    while 1 < i
      invariant 1 <= i <= DIGITS && unsignInNum < Weight(i) && r.Normal()
      invariant forall j :: 0 <= j < i ==> r.digits[j] == 0
      invariant Magnitude(r.digits[..], DIGITS) + unsignInNum == size
    {
      i := i - 1;
      SplitAt(unsignInNum, i);
      var dig: nat := unsignInNum / Weight(i);
      ghost var d := r.digits[..];
      MagnitudeSet(d, i, dig, DIGITS);
      r.digits[i] := dig;
      assert r.digits[..] == d[i := dig];
      unsignInNum := unsignInNum - dig * Weight(i);
    }
    WeightOne();
    ghost var d := r.digits[..];
    MagnitudeSet(d, 0, unsignInNum, DIGITS);
    r.digits[0] := unsignInNum;
    assert r.digits[..] == d[0 := unsignInNum];
  }

  lemma WeightOne()
    ensures Weight(0) == 1 && Weight(1) == LIMIT
  {
  }

  lemma UnsignedIs(t: IntType, x: int)
    requires t.Holds(x)
    ensures (if x < 0 then t.Wrapped(-1 * x) % (2 * t.Half()) else x % (2 * t.Half())) == if x < 0 then -x else x
    ensures (if x < 0 then -x else x) <= t.Half()
  {
    hide IntType.Half;
    if x < 0 {
      NegatedUnsigned(t.Half(), x);
    } else {
      SmallModulo(x, 2 * t.Half());
    }
  }

  lemma SmallModulo(x: int, m: int)
    requires 0 <= x < m
    ensures x % m == x
  {
  }

  /** The negative of a value, taken in the signed type and read as unsigned. */
  lemma NegatedUnsigned(h: int, x: int)
    requires 0 < h && -h <= x < 0
    ensures ((-1 * x + h) % (2 * h) - h) % (2 * h) == -x
  {
    if x == -h {
      SameModulo(0, 1, 2 * h);
      SameModulo(h, -1, 2 * h);
      SmallModulo(h, 2 * h);
    } else {
      SmallModulo(h - x, 2 * h);
      SmallModulo(-x, 2 * h);
    }
  }

  /** The number as an integer of a type: the sum of the digits that type has, in its arithmetic.
      Whatever the digits are, the result is right exactly when the type holds the value. */
  method GetInt(num: BigNum, t: IntType) returns (result: int)
    requires num.Valid()
    ensures t.Holds(result)
    ensures result == num.Value() <==> t.Holds(num.Value())
    ensures (result - Signed(num.sign, Magnitude(num.digits[..], t.Count()))) % (2 * t.Half()) == 0
  {
    hide Weight, Magnitude, IntType.Wrapped;
    ghost var d := num.digits[..];
    result := t.Wrapped(num.digits[0]);
    FirstDigit(d);
    for i := 1 to t.Count()
      invariant result == t.Wrapped(Magnitude(d, i))
    {
      MagnitudeStep(d, i);
      t.WrappedTwice(Magnitude(d, i), d[i] * Weight(i));
      result := t.Wrapped(result + num.digits[i] * Weight(i));
    }
    if num.sign < 0 {
      t.WrappedTwice(Magnitude(d, t.Count()), 0);
      result := t.Wrapped(-1 * result);
    }
    t.WrappedInRange(Signed(num.sign, Magnitude(d, t.Count())));
    WrappedModulo(t, Signed(num.sign, Magnitude(d, t.Count())));
    MoreIsTooMuch(d, t);
  }

  lemma FirstDigit(d: seq<nat>)
    requires d != []
    ensures Magnitude(d, 1) == d[0]
  {
    assert Magnitude(d, 0) == 0 && Weight(0) == 1;
  }

  /** A number with digits beyond those of a type is too large for it, and without them the digits
      of the type are all there is. */
  lemma MoreIsTooMuch(d: seq<nat>, t: IntType)
    requires |d| == DIGITS
    ensures Magnitude(d, DIGITS) == Magnitude(d, t.Count()) || Magnitude(d, DIGITS) > t.Half()
  {
    hide Weight, Magnitude;
    t.HalfFits();
    HigherDigits(d, t.Count(), DIGITS);
  }

  lemma {:induction false} HigherDigits(d: seq<nat>, n: nat, m: nat)
    requires n <= m <= |d|
    ensures Magnitude(d, m) == Magnitude(d, n) || Magnitude(d, m) >= Weight(n)
  {
    hide Weight;
    if n < m {
      HigherDigits(d, n, m - 1);
      if d[m - 1] > 0 {
        NoMore(1, d[m - 1], Weight(m - 1));
        WeightGrows(n, m - 1);
      }
    }
  }

  lemma {:induction false} WeightGrows(a: nat, b: nat)
    requires a <= b
    ensures Weight(a) <= Weight(b)
  {
    if a < b {
      WeightGrows(a, b - 1);
    }
  }

  /** The type a number of a value is made with. The most negative values of the two smallest
      types go to the next larger one. */
  function TypeFor(value: int): Option<IntType> {
    if -0x80 < value < 0x80 then Some(Int8)
    else if -0x8000 < value < 0x8000 then Some(Int16)
    else if Int32.Holds(value) then Some(Int32)
    else if Int64.Holds(value) then Some(Int64)
    else if Int128.Holds(value) then Some(Int128)
    else None
  }

  /** The digits of the largest value of a type. */
  function MaxDigits(t: IntType): (e: seq<nat>)
    ensures |e| == DIGITS && Normal(e)
  {
    match t
    case Int8 => [127, 0, 0, 0, 0]
    case Int16 => [32767, 0, 0, 0, 0]
    case Int32 => [147483647, 2, 0, 0, 0]
    case Int64 => [854775807, 223372036, 9, 0, 0]
    case Int128 => [884105727, 687303715, 469231731, 141183460, 170]
  }

  lemma MaxDigitsAre(t: IntType)
    ensures Magnitude(MaxDigits(t), DIGITS) == t.Half() - 1
    ensures Magnitude(MaxDigits(t)[0 := MaxDigits(t)[0] + 1], DIGITS) == t.Half()
  {
    var e := MaxDigits(t);
    MagnitudeIs(e);
    MagnitudeIs(e[0 := e[0] + 1]);
  }

  lemma MagnitudeIs(d: seq<nat>)
    requires |d| == DIGITS
    ensures Magnitude(d, DIGITS) ==
      d[0] + d[1] * LIMIT + d[2] * (LIMIT * LIMIT) + d[3] * (LIMIT * LIMIT * LIMIT)
      + d[4] * (LIMIT * LIMIT * LIMIT * LIMIT)
  {
    assert Weight(0) == 1 && Weight(1) == LIMIT && Weight(2) == LIMIT * LIMIT && Weight(3) == LIMIT * LIMIT * LIMIT;
    assert Weight(4) == LIMIT * LIMIT * LIMIT * LIMIT;
    FirstDigit(d);
    MagnitudeStep(d, 1);
    MagnitudeStep(d, 2);
    MagnitudeStep(d, 3);
    MagnitudeStep(d, 4);
  }

  /** Loose digits below a limit without zeros among its lower digits: digits of 10^9 make up for no
      more than what the limit has left. */
  lemma {:induction false} LooseBelow(d: seq<nat>, e: seq<nat>, n: nat)
    requires n <= |d| == |e| && Loose(d) && forall j :: 0 <= j < n ==> 0 < e[j]
    ensures Magnitude(d, n) + Weight(0) <= Magnitude(e, n) + Weight(n)
  {
    hide Weight, Magnitude;
    if n > 0 {
      LooseBelow(d, e, n - 1);
      MagnitudeStep(d, n - 1);
      MagnitudeStep(e, n - 1);
      WeightStep(n - 1);
      NoMore(d[n - 1], LIMIT, Weight(n - 1));
      NoMore(1, e[n - 1], Weight(n - 1));
    } else {
      NoDigits(d, e);
    }
  }

  /** Comparing loose digits with such a limit from the highest down is right. */
  lemma {:induction false} LooseOrder(d: seq<nat>, e: seq<nat>, n: nat)
    requires n <= |d| == |e| && Loose(d) && Normal(e) && (forall j :: 0 <= j < n - 1 ==> 0 < e[j])
    ensures Below(d, e, n) ==> Magnitude(d, n) < Magnitude(e, n)
    ensures Below(e, d, n) ==> Magnitude(e, n) < Magnitude(d, n)
  {
    hide Weight, Magnitude;
    if n > 0 {
      var i := n - 1;
      MagnitudeStep(d, i);
      MagnitudeStep(e, i);
      MagnitudeBound(e, i);
      LooseOrder(d, e, i);
      if d[i] < e[i] {
        LooseBelow(d, e, i);
        NoMore(d[i] + 1, e[i], Weight(i));
        Times(d[i], 1, Weight(i));
        WeightPositive();
      }
      if e[i] < d[i] {
        NoMore(e[i] + 1, d[i], Weight(i));
        Times(e[i], 1, Weight(i));
      }
    }
  }

  lemma WeightPositive()
    ensures Weight(0) == 1
  {
  }

  lemma {:induction false} ZerosAbove(d: seq<nat>, n: nat, m: nat)
    requires n <= m <= |d| && forall j :: n <= j < m ==> d[j] == 0
    ensures Magnitude(d, m) == Magnitude(d, n)
  {
    if n < m {
      ZerosAbove(d, n, m - 1);
    }
  }

  lemma {:induction false} SameAbove(d: seq<nat>, e: seq<nat>, n: nat, m: nat)
    requires n <= m <= |d| == |e| && forall j :: n <= j < m ==> d[j] == e[j]
    ensures Below(d, e, m) == Below(d, e, n)
  {
    if n < m {
      SameAbove(d, e, n, m - 1);
    }
  }

  lemma {:induction false} OneIsBelow(d: seq<nat>, e: seq<nat>, n: nat)
    requires n <= |d| == |e|
    ensures Below(d, e, n) || Below(e, d, n) || forall j :: 0 <= j < n ==> d[j] == e[j]
  {
    if n > 0 {
      OneIsBelow(d, e, n - 1);
    }
  }

  /** Loose digits are compared rightly with the limits of a type, which have no zeros among the
      digits of the type. */
  lemma LimitOrder(d: seq<nat>, e: seq<nat>, n: nat)
    requires |d| == |e| == DIGITS && 0 < n <= DIGITS && Loose(d) && Normal(e)
    requires (forall j :: n <= j < DIGITS ==> d[j] == e[j] == 0) && forall j :: 0 <= j < n - 1 ==> 0 < e[j]
    ensures Magnitude(d, DIGITS) <= Magnitude(e, DIGITS) <==> d == e || Below(d, e, DIGITS)
  {
    hide Magnitude, Weight;
    LooseOrder(d, e, n);
    ZerosAbove(d, n, DIGITS);
    ZerosAbove(e, n, DIGITS);
    SameAbove(d, e, n, DIGITS);
    OneIsBelow(d, e, n);
  }

  /** The type holds the value, and no smaller one holds both it and its negative. */
  lemma SmallestForBoth(value: int)
    ensures TypeFor(value).Some? ==> TypeFor(value).value.Holds(value)
    ensures TypeFor(value).Some? ==> forall s: IntType :: s.Half() < TypeFor(value).value.Half() ==>
      !(s.Holds(value) && s.Holds(-value))
    ensures TypeFor(value).None? ==> forall s: IntType :: !s.Holds(value)
  {
  }

  /** The types it chooses among, by their ranges. */
  lemma TypeRanges(value: int)
    ensures TypeFor(value) == Some(Int8) <==> -127 <= value <= 127
    ensures TypeFor(value) == Some(Int16) <==> !(-127 <= value <= 127) && -32_767 <= value <= 32_767
    ensures TypeFor(value) == Some(Int32) <==>
      !(-32_767 <= value <= 32_767) && -0x8000_0000 <= value <= 0x7FFF_FFFF
    ensures TypeFor(value) == Some(Int64) <==>
      !(-0x8000_0000 <= value <= 0x7FFF_FFFF) && -0x8000_0000_0000_0000 <= value <= 0x7FFF_FFFF_FFFF_FFFF
  {
  }

  /** Whether a number without digits beyond those of a type lies between the limits of the type,
      by comparing it with both. */
  method WithinLimits(input: BigNum, t: IntType) returns (within: bool)
    requires input.Valid() && Loose(input.digits[..]) && forall j :: t.Count() <= j < DIGITS ==> input.digits[j] == 0
    ensures within <==> t.Holds(input.Value())
  {
    hide Weight, Magnitude, Below, IntType.Half;
    var maxLimit := new BigNum();
    var minLimit := new BigNum();
    InitWithInt(maxLimit, t, t.Half() - 1);
    InitWithInt(minLimit, t, -t.Half());
    ghost var d, e := input.digits[..], MaxDigits(t);
    ghost var e' := e[0 := e[0] + 1];
    MaxDigitsAre(t);
    LimitDigits(t);
    UniqueDigits(maxLimit.digits[..], e);
    UniqueDigits(minLimit.digits[..], e');
    LimitOrder(d, e, t.Count());
    LimitOrder(d, e', t.Count());
    var cr := input.Compare(maxLimit);
    var crn := input.Compare(minLimit);
    within := cr != Greater && crn != Less;
  }

  lemma LimitDigits(t: IntType)
    ensures var e := MaxDigits(t);
      && (forall j :: t.Count() <= j < DIGITS ==> e[j] == 0) && (forall j :: 0 <= j < t.Count() - 1 ==> 0 < e[j])
      && Normal(e[0 := e[0] + 1])
  {
  }

  /** Makes an integer of the smallest type for a number, or nothing when it is too large. Digits of
      10^9, as sums may have them, do no harm. */
  method CreateWithBigNum(input: BigNum) returns (number: Option<(IntType, int)>)
    requires input.Valid() && Loose(input.digits[..])
    ensures number.Some? <==> TypeFor(input.Value()).Some?
    ensures number.Some? ==> number.value == (TypeFor(input.Value()).value, input.Value())
    ensures number.Some? ==> number.value.1 == input.Value() && number.value.0.Holds(input.Value())
    ensures number.Some? ==> forall s: IntType :: s.Half() < number.value.0.Half() ==>
      !(s.Holds(input.Value()) && s.Holds(-input.Value()))
    ensures number.None? ==> forall s: IntType :: !s.Holds(input.Value())
  {
    hide Weight, Magnitude;
    ghost var d := input.digits[..];
    LeadingDigits(d);
    SmallestForBoth(input.Value());
    if input.digits[4] == 0 && input.digits[3] == 0 && input.digits[2] == 0 && input.digits[1] == 0 {
      if input.digits[0] <= 0x7F {
        var num := GetInt(input, Int8);
        return Some((Int8, num));
      } else if input.digits[0] <= 0x7FFF {
        var num := GetInt(input, Int16);
        return Some((Int16, num));
      }
    }
    if input.digits[4] == 0 && input.digits[3] == 0 && input.digits[2] == 0 {
      var within := WithinLimits(input, Int32);
      if within {
        var num := GetInt(input, Int32);
        return Some((Int32, num));
      }
    }
    if input.digits[4] == 0 && input.digits[3] == 0 {
      var within := WithinLimits(input, Int64);
      if within {
        var num := GetInt(input, Int64);
        return Some((Int64, num));
      }
    }
    var within := WithinLimits(input, Int128);
    if within {
      var num := GetInt(input, Int128);
      return Some((Int128, num));
    }
    return None;
  }

  /** What zeros in the highest digits say about the value. */
  lemma LeadingDigits(d: seq<nat>)
    requires |d| == DIGITS
    ensures var m := Magnitude(d, DIGITS);
      && (d[4] == d[3] == d[2] == d[1] == 0 ==> m == d[0])
      && (!(d[4] == d[3] == d[2] == d[1] == 0) ==> m >= LIMIT)
      && (!(d[4] == d[3] == d[2] == 0) ==> m > 0x8000_0000)
      && (!(d[4] == d[3] == 0) ==> m > 0x8000_0000_0000_0000)
  {
    MagnitudeIs(d);
  }
}
