/** Several operations on big numbers in a row: what comes out right although a digit is 10^9, and
    what does not. */
module BigNumberRuns {
  import opened BigDigits
  import opened BigNumber
  import opened BigNumberInts
  import opened BigNumberText
  import opened BigSums
  import opened Decimals
  import opened Prelude

  lemma NormalIsLoose(d: seq<nat>)
    requires Normal(d)
    ensures Loose(d)
  {
  }

  lemma LooseIsWords(d: seq<nat>)
    requires Loose(d)
    ensures Words(d)
  {
  }

  /** A number made of the sum of two numbers without signs is the sum, even if a digit of it is 10^9
      and it would be printed wrong. */
  method CreateSum(a: BigNum, b: BigNum) returns (number: Option<(IntType, int)>)
    requires a.Valid() && b.Valid() && a.Normal() && b.Normal() && a.sign == b.sign == 0
    requires a.Size() + b.Size() < Weight(DIGITS)
    ensures number.Some? <==> TypeFor(a.Value() + b.Value()).Some?
    ensures number.Some? ==> number.value == (TypeFor(a.Value() + b.Value()).value, a.Value() + b.Value())
  {
    hide Weight, Magnitude, TypeFor, Loose, Words, SumFits, InGap, TakesAway;
    NormalIsLoose(a.digits[..]);
    NormalIsLoose(b.digits[..]);
    LooseIsWords(a.digits[..]);
    LooseIsWords(b.digits[..]);
    var r := new BigNum();
    var carry := r.Add(a, b);
    NoMore(carry, 1, Weight(DIGITS));
    number := CreateWithBigNum(r);
  }

  function Sum(sizes: seq<nat>): nat {
    if sizes == [] then 0 else Sum(sizes[..|sizes| - 1]) + sizes[|sizes| - 1]
  }

  /** Numbers without signs whose digits are in range, of the given sizes. */
  ghost predicate Summands(nums: seq<BigNum>, sizes: seq<nat>)
    reads set i | 0 <= i < |nums| :: nums[i], set i | 0 <= i < |nums| :: nums[i].digits
  {
    && |nums| == |sizes|
    && forall i :: 0 <= i < |nums| ==>
      nums[i].Valid() && nums[i].Normal() && nums[i].sign == 0 && nums[i].Size() == sizes[i]
  }

  /** Any number of numbers added up: their sum, less 10^45 for each carry out of the highest digit.
      Digits of 10^9 may appear and disappear on the way. */
  method AddUp(nums: seq<BigNum>, ghost sizes: seq<nat>) returns (r: BigNum, carries: nat)
    requires Summands(nums, sizes)
    ensures fresh(r) && fresh(r.digits) && r.Valid() && r.sign == 0 && Loose(r.digits[..])
    ensures r.Size() + carries * Weight(DIGITS) == Sum(sizes)
  {
    hide Weight, Magnitude, Loose, Words, SumFits, InGap, TakesAway;
    r := new BigNum();
    carries := 0;
    NormalIsLoose(r.digits[..]);
    assert sizes[..0] == [];
    for i := 0 to |nums|
      invariant fresh(r) && fresh(r.digits) && r.Valid() && r.sign == 0 && Loose(r.digits[..])
      invariant Summands(nums, sizes)
      invariant r.Size() + carries * Weight(DIGITS) == Sum(sizes[..i])
    {
      var b := nums[i];
      NormalIsLoose(b.digits[..]);
      LooseIsWords(b.digits[..]);
      LooseIsWords(r.digits[..]);
      ghost var before := r.Size();
      assert b.Size() == sizes[i] && b.Value() == sizes[i];
      var carry := r.Add(r, b);
      assert r.Size() + carry * Weight(DIGITS) == before + sizes[i];
      Times(carries, carry, Weight(DIGITS));
      carries := carries + carry;
      assert sizes[..i + 1][..i] == sizes[..i];
    }
    assert sizes[..|nums|] == sizes;
  }

  /** -5 and 5 cancel to a zero with a sign, which does not compare equal to a zero. */
  method SignedZeroDiffers() returns (result: Comparison)
    ensures result != Equal
  {
    hide Weight, Magnitude, Words, SumFits, InGap, TakesAway, Loose;
    var a := new BigNum();
    var b := new BigNum();
    InitWithInt(a, Int8, -5);
    InitWithInt(b, Int8, 5);
    NormalIsLoose(a.digits[..]);
    NormalIsLoose(b.digits[..]);
    LooseIsWords(a.digits[..]);
    LooseIsWords(b.digits[..]);
    var r := new BigNum();
    var carry := r.Add(a, b);
    assert r.Value() == 0 && r.sign == -1;
    var zero := new BigNum();
    result := r.Compare(zero);
  }

  /** 2^32 and thirty-six zeros after it are read as 0. */
  method TooLongReadsZero() returns (text: string, r: BigNum)
    ensures AllDigits(text) && Parsed(text) == TWO_32 * Ten(36) && r.Valid() && r.Size() == 0
  {
    hide Ten, Parsed, Magnitude, Weight;
    text := "4294967296" + Zeros(36);
    TwoTo32Parsed();
    PaddedZero(36);
    PaddedReads(0, 36);
    ConcatReads("4294967296", Zeros(36));
    ReadsNothing(TWO_32 * Ten(36));
    assert Unsigned(text) == text;
    r := FromCString(text);
  }

  lemma TwoTo32Parsed()
    ensures AllDigits("4294967296") && Parsed("4294967296") == TWO_32
  {
    hide Parsed;
    NothingParsed();
    var digits := "4294967296";
    assert digits == "" + ['4'] + ['2'] + ['9'] + ['4'] + ['9'] + ['6'] + ['7'] + ['2'] + ['9'] + ['6'];
    ParsedStep("", '4');
    ParsedStep("" + ['4'], '2');
    ParsedStep("" + ['4'] + ['2'], '9');
    ParsedStep("" + ['4'] + ['2'] + ['9'], '4');
    ParsedStep("" + ['4'] + ['2'] + ['9'] + ['4'], '9');
    ParsedStep("" + ['4'] + ['2'] + ['9'] + ['4'] + ['9'], '6');
    ParsedStep("" + ['4'] + ['2'] + ['9'] + ['4'] + ['9'] + ['6'], '7');
    ParsedStep("" + ['4'] + ['2'] + ['9'] + ['4'] + ['9'] + ['6'] + ['7'], '2');
    ParsedStep("" + ['4'] + ['2'] + ['9'] + ['4'] + ['9'] + ['6'] + ['7'] + ['2'], '9');
    ParsedStep("" + ['4'] + ['2'] + ['9'] + ['4'] + ['9'] + ['6'] + ['7'] + ['2'] + ['9'], '6');
  }

  lemma ReadsNothing(n: nat)
    requires n == TWO_32 * Ten(36)
    ensures ReadAs(n) == 0
  {
    hide Ten;
    Divided(TWO_32, Ten(36), 0);
    assert TopDigit(TWO_32) == 0;
  }

  /** 999999999000000001 and 10^9 sum to a number with a digit of 10^9. What adding 10^18 to the
      negative of that sum makes is not -1, whether the borrow is counted or not: a place stays
      negative after borrowing, and is stored in 32 bits. */
  method LooseDifferenceWrong() returns (r: BigNum, carry: nat)
    ensures r.Valid() && r.Value() - Signed(r.sign, carry * Weight(DIGITS)) != -1
  {
    hide Weight, Words, Loose, Magnitude, SumDigit, CarryInto, SumFits, InGap, TakesAway, BigDigits.Normal;
    KnownDigits();
    var a := NumberOf(999_999_999_000_000_001, [1, 999_999_999, 0, 0, 0]);
    var b := NumberOf(1_000_000_000, [0, 1, 0, 0, 0]);
    var big := NumberOf(1_000_000_000_000_000_000, [0, 0, 1, 0, 0]);
    var sum := new BigNum();
    carry := sum.AddSameSign(a, b);
    SumMade(a.digits[..], b.digits[..]);
    assert sum.digits[..] == [1, LIMIT, 0, 0, 0];
    var minus := new BigNum();
    minus.Neg(sum);
    NotTaken(big.digits[..], minus.digits[..]);
    r := new BigNum();
    carry := r.Add(big, minus);
  }

  lemma KnownDigits()
    ensures var d: seq<nat> := [1, 999_999_999, 0, 0, 0]; Normal(d) && Magnitude(d, DIGITS) == 999_999_999_000_000_001
    ensures var d: seq<nat> := [0, 1, 0, 0, 0]; Normal(d) && Magnitude(d, DIGITS) == 1_000_000_000
    ensures var d: seq<nat> := [0, 0, 1, 0, 0]; Normal(d) && Magnitude(d, DIGITS) == 1_000_000_000_000_000_000
    ensures Magnitude([1, LIMIT, 0, 0, 0], DIGITS) == 1_000_000_000_000_000_001
  {
    MagnitudeIs([1, 999_999_999, 0, 0, 0]);
    MagnitudeIs([0, 1, 0, 0, 0]);
    MagnitudeIs([0, 0, 1, 0, 0]);
    MagnitudeIs([1, LIMIT, 0, 0, 0]);
  }

  lemma SumMade(x: seq<nat>, y: seq<nat>)
    requires x == [1, 999_999_999, 0, 0, 0] && y == [0, 1, 0, 0, 0]
    ensures SumDigit(x, y, 0) == 1 && SumDigit(x, y, 1) == LIMIT
    ensures SumDigit(x, y, 2) == SumDigit(x, y, 3) == SumDigit(x, y, 4) == 0
  {
    assert CarryInto(x, y, 1) == 0;
    assert CarryInto(x, y, 2) == 0;
    assert CarryInto(x, y, 3) == 0;
    assert CarryInto(x, y, 4) == 0;
  }

  lemma NotTaken(x: seq<nat>, y: seq<nat>)
    requires x == [0, 0, 1, 0, 0] && y == [1, LIMIT, 0, 0, 0]
    ensures Words(x) && Words(y) && !TakesAway(x, y)
  {
    assert !Below(x, y, 3);
    assert !Below(x, y, 4);
    assert !Below(x, y, 5);
    assert BorrowInto(x, y, 1) == 1;
    assert !(y[1] + BorrowInto(x, y, 1) <= x[1] + LIMIT);
  }

  /** A number of a value whose digits are known. */
  method NumberOf(n: nat, ghost d: seq<nat>) returns (r: BigNum)
    requires n < TWO_63 && |d| == DIGITS && Normal(d) && Magnitude(d, DIGITS) == n
    ensures fresh(r) && fresh(r.digits) && r.Valid() && r.sign == 0 && r.digits[..] == d
  {
    hide Weight, Magnitude;
    r := new BigNum();
    InitWithInt(r, Int64, n);
    UniqueDigits(r.digits[..], d);
  }
}
