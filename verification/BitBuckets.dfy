/** Bits in buckets of eight, numbered from the left: bit 0 is the most significant. */
module BitBuckets {
  /** The bucket with only the bit at a position. */
  function Flag(p: nat): bv8
    requires p < 8
  {
    match p
    case 0 => 0x80
    case 1 => 0x40
    case 2 => 0x20
    case 3 => 0x10
    case 4 => 0x08
    case 5 => 0x04
    case 6 => 0x02
    case 7 => 0x01
  }

  predicate BitAt(b: bv8, p: nat)
    requires p < 8
  {
    b & Flag(p) != 0
  }

  /** The bits from `bottom` to `top` of a bucket. */
  function BitBucketMask(bottom: nat, top: nat): bv8
    requires bottom <= top < 8
  {
    var shiftL := 8 - top + bottom - 1;
    ((0xFF as bv8) << shiftL) >> bottom
  }

  lemma MaskBits(bottom: nat, top: nat, p: nat)
    requires bottom <= top < 8 && p < 8
    ensures BitAt(BitBucketMask(bottom, top), p) <==> bottom <= p <= top
  {
  }

  lemma AndBits(a: bv8, b: bv8, p: nat)
    requires p < 8
    ensures BitAt(a & b, p) <==> BitAt(a, p) && BitAt(b, p)
  {
  }

  lemma NotBits(b: bv8, p: nat)
    requires p < 8
    ensures BitAt(!b, p) <==> !BitAt(b, p)
    ensures BitAt(0xFF ^ b, p) <==> !BitAt(b, p)
    ensures !BitAt(0, p) && BitAt(0xFF, p)
  {
  }

  lemma OrBits(a: bv8, b: bv8, p: nat)
    requires p < 8
    ensures BitAt(a | b, p) <==> BitAt(a, p) || BitAt(b, p)
  {
  }

  lemma AndNotBits(a: bv8, b: bv8, p: nat)
    requires p < 8
    ensures BitAt(a & !b, p) <==> BitAt(a, p) && !BitAt(b, p)
  {
  }

  lemma XorBits(a: bv8, b: bv8, p: nat)
    requires p < 8
    ensures BitAt(a ^ b, p) <==> BitAt(a, p) != BitAt(b, p)
  {
    MaskedByFlag(a, p);
    MaskedByFlag(b, p);
    hide Flag;
    assert (a ^ b) & Flag(p) == (a & Flag(p)) ^ (b & Flag(p));
  }

  lemma MaskedByFlag(b: bv8, p: nat)
    requires p < 8
    ensures b & Flag(p) == 0 || b & Flag(p) == Flag(p) != 0
  {
  }

  lemma MergedBits(b: bv8, v: bv8, mask: bv8, p: nat)
    requires p < 8
    ensures BitAt((b & !mask) | (v & mask), p) == if BitAt(mask, p) then BitAt(v, p) else BitAt(b, p)
  {
    hide BitAt, Flag;
    OrBits(b & !mask, v & mask, p);
    AndNotBits(b, mask, p);
    AndBits(v, mask, p);
  }

  lemma FlagBits(q: nat, p: nat)
    requires q < 8 && p < 8
    ensures BitAt(Flag(q), p) <==> p == q
  {
  }

  /** The number of bits set in a nibble. */
  function NibbleBitCount(n: bv8): nat
    requires n < 16
  {
    match n
    case 0 => 0
    case 1 => 1
    case 2 => 1
    case 3 => 2
    case 4 => 1
    case 5 => 2
    case 6 => 2
    case 7 => 3
    case 8 => 1
    case 9 => 2
    case 10 => 2
    case 11 => 3
    case 12 => 2
    case 13 => 3
    case 14 => 3
    case _ => 4
  }

  /** The number of bits set among the first `n` of a bucket. */
  function Ones(b: bv8, n: nat): nat
    requires n <= 8
  {
    if n == 0 then 0 else Ones(b, n - 1) + (if BitAt(b, n - 1) then 1 else 0)
  }

  lemma NibblesCount(b: bv8)
    ensures NibbleBitCount(b & 0xF) + NibbleBitCount(b >> 4) == Ones(b, 8)
  {
    OnesAre(b);
    LeftNibble(b);
    RightNibble(b);
    hide NibbleBitCount, One, Ones;
  }

  function One(b: bv8, p: nat): nat
    requires p < 8
  {
    if BitAt(b, p) then 1 else 0
  }

  lemma OnesAre(b: bv8)
    ensures Ones(b, 4) == One(b, 0) + One(b, 1) + One(b, 2) + One(b, 3)
    ensures Ones(b, 8) == Ones(b, 4) + One(b, 4) + One(b, 5) + One(b, 6) + One(b, 7)
  {
    hide BitAt;
    assert Ones(b, 0) == 0 && Ones(b, 1) == One(b, 0);
    assert Ones(b, 2) == Ones(b, 1) + One(b, 1) && Ones(b, 4) == Ones(b, 3) + One(b, 3);
    assert Ones(b, 6) == Ones(b, 5) + One(b, 5) && Ones(b, 5) == Ones(b, 4) + One(b, 4);
  }

  lemma LeftNibble(b: bv8)
    ensures NibbleBitCount(b >> 4) == One(b, 0) + One(b, 1) + One(b, 2) + One(b, 3)
  {
  }

  lemma RightNibble(b: bv8)
    ensures NibbleBitCount(b & 0xF) == One(b, 4) + One(b, 5) + One(b, 6) + One(b, 7)
  {
  }

  /** The two ways to read a bit. */
  lemma BitByShift(b: bv8, p: nat)
    requires p < 8
    ensures (b >> (7 - p)) & 1 == 1 <==> BitAt(b, p)
  {
  }

  /** What a map does to the bits of its range. */
  datatype Mapper = ZeroBits | OneBits | FlipBits | CountBits(value: bool) {
    function MapBit(b: bool): bool {
      match this
      case ZeroBits => false
      case OneBits => true
      case FlipBits => !b
      case CountBits(_) => b
    }

    /** The new value of a bucket, of which only the masked bits count. */
    function MapBucket(b: bv8): bv8 {
      match this
      case ZeroBits => 0
      case OneBits => !0
      case FlipBits => !0 ^ b
      case CountBits(_) => b
    }

    lemma MapBucketBits(b: bv8, p: nat)
      requires p < 8
      ensures BitAt(MapBucket(b), p) == MapBit(BitAt(b, p))
    {
      NotBits(b, p);
    }

    /** Whether a bit is counted. */
    predicate Counts(b: bool) {
      match this
      case CountBits(value) => b == value
      case _ => false
    }

    /** The bits that are counted, as ones. */
    function Selected(b: bv8): bv8
      requires CountBits?
    {
      if value then b else !b
    }

    lemma SelectedBits(b: bv8, p: nat)
      requires CountBits? && p < 8
      ensures BitAt(Selected(b), p) <==> Counts(BitAt(b, p))
    {
      NotBits(b, p);
    }

    /** What a bucket adds to the context of the map: the number of masked bits that are counted. */
    method CountBucket(b: bv8, mask: bv8) returns (n: nat)
      ensures n == if CountBits? then Ones(Selected(b) & mask, 8) else 0
    {
      n := 0;
      if CountBits? {
        var val := Selected(b) & mask;
        NibblesCount(val);
        n := NibbleBitCount(val & 0xF);
        val := val >> 4;
        n := n + NibbleBitCount(val & 0xF);
        assert val & 0xF == val;
      }
    }

    /** The number of counted bits of a bucket from `bottom` up to `end`. */
    function CountIn(b: bv8, bottom: nat, end: nat): nat
      requires end <= 8
    {
      if end <= bottom then 0 else CountIn(b, bottom, end - 1) + (if Counts(BitAt(b, end - 1)) then 1 else 0)
    }

    lemma {:induction false} CountIsOnes(val: bv8, b: bv8, bottom: nat, top: nat, n: nat)
      requires bottom <= top < 8 && n <= 8
      requires forall p :: 0 <= p < 8 ==> (BitAt(val, p) <==> bottom <= p <= top && Counts(BitAt(b, p)))
      ensures Ones(val, n) == CountIn(b, bottom, if n <= top then n else top + 1)
    {
      hide BitAt;
      if n > 0 {
        CountIsOnes(val, b, bottom, top, n - 1);
      }
    }

    lemma CountedMasked(b: bv8, bottom: nat, top: nat, p: nat)
      requires CountBits? && bottom <= top < 8 && p < 8
      ensures BitAt(Selected(b) & BitBucketMask(bottom, top), p) <==>
        bottom <= p <= top && Counts(BitAt(b, p))
    {
      hide BitBucketMask, BitAt, Selected;
      MaskBits(bottom, top, p);
      AndBits(Selected(b), BitBucketMask(bottom, top), p);
      SelectedBits(b, p);
    }

    /** The bits set in the masked bucket are those that are counted. */
    lemma CountIsMaskedOnes(b: bv8, bottom: nat, top: nat)
      requires CountBits? && bottom <= top < 8
      ensures Ones(Selected(b) & BitBucketMask(bottom, top), 8) == CountIn(b, bottom, top + 1)
    {
      hide BitBucketMask, BitAt, Ones, CountIn, Counts, Selected;
      var val := Selected(b) & BitBucketMask(bottom, top);
      forall p | 0 <= p < 8
        ensures BitAt(val, p) <==> bottom <= p <= top && Counts(BitAt(b, p))
      {
        CountedMasked(b, bottom, top, p);
      }
      CountIsOnes(val, b, bottom, top, 8);
    }

    lemma CountsNothing(b: bv8, bottom: nat, end: nat)
      requires !CountBits? && end <= 8
      ensures CountIn(b, bottom, end) == 0
    {
    }
  }
}
