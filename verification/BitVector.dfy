/** Vectors of bits, whose ranges are mapped bucket by bucket: a part of the first bucket, whole
    buckets, and a part of the last. */
module BitVector {
  import opened BitBuckets
  import opened Prelude

  function BitOf(s: seq<bv8>, i: nat): bool
    requires i < 8 * |s|
  {
    BitAt(s[i / 8], i % 8)
  }

  /** The bits from `lo` to `hi` have been mapped, the others are as before. */
  ghost predicate Mapped(m: Mapper, s: seq<bv8>, t: seq<bv8>, lo: nat, hi: nat) {
    && |t| == |s|
    && forall i :: 0 <= i < 8 * |s| ==>
      BitOf(t, i) == if lo <= i < hi then m.MapBit(BitOf(s, i)) else BitOf(s, i)
  }

  /** The number of bits from `lo` to `hi` that a map counts. */
  function CountOf(m: Mapper, s: seq<bv8>, lo: nat, hi: nat): nat
    requires hi <= 8 * |s|
  {
    if hi <= lo then 0 else CountOf(m, s, lo, hi - 1) + (if m.Counts(BitOf(s, hi - 1)) then 1 else 0)
  }

  /** One bucket of a map: its bits from `bottom` to `top` get their new values. */
  function MappedBucket(m: Mapper, b: bv8, bottom: nat, top: nat): bv8
    requires bottom <= top < 8
  {
    Merged(b, m.MapBucket(b), BitBucketMask(bottom, top))
  }

  /** The masked bits of one bucket and the other bits of another. */
  function Merged(b: bv8, v: bv8, mask: bv8): bv8 {
    (b & !mask) | (v & mask)
  }

  lemma MappedBucketBits(m: Mapper, b: bv8, bottom: nat, top: nat, p: nat)
    requires bottom <= top < 8 && p < 8
    ensures BitAt(MappedBucket(m, b, bottom, top), p) ==
      if bottom <= p <= top then m.MapBit(BitAt(b, p)) else BitAt(b, p)
  {
    hide BitAt, BitBucketMask, Mapper.MapBucket, Mapper.MapBit;
    MergedBits(b, m.MapBucket(b), BitBucketMask(bottom, top), p);
    MaskBits(bottom, top, p);
    m.MapBucketBits(b, p);
  }

  /** Mapping the next bits of a bucket extends what has been mapped. */
  lemma MapStep(m: Mapper, s: seq<bv8>, t: seq<bv8>, lo: nat, pos: nat, k: nat, top: nat)
    requires lo <= pos == 8 * k + pos % 8 && k < |s| && pos % 8 <= top < 8
    requires Mapped(m, s, t, lo, pos)
    ensures Mapped(m, s, t[k := MappedBucket(m, t[k], pos % 8, top)], lo, 8 * k + top + 1)
  {
    var u := t[k := MappedBucket(m, t[k], pos % 8, top)];
    hide MappedBucket, BitAt, Mapper.MapBit;
    forall i | 0 <= i < 8 * |s|
      ensures BitOf(u, i) == if lo <= i < 8 * k + top + 1 then m.MapBit(BitOf(s, i)) else BitOf(s, i)
    {
      if i / 8 == k {
        MappedBucketBits(m, t[k], pos % 8, top, i % 8);
      }
      assert BitOf(t, i) == if lo <= i < pos then m.MapBit(BitOf(s, i)) else BitOf(s, i);
    }
  }

  lemma {:induction false} CountStep(m: Mapper, s: seq<bv8>, lo: nat, pos: nat, k: nat, end: nat)
    requires lo <= pos == 8 * k + pos % 8 && k < |s| && pos % 8 <= end <= 8
    ensures CountOf(m, s, lo, 8 * k + end) == CountOf(m, s, lo, pos) + m.CountIn(s[k], pos % 8, end)
    decreases end
  {
    hide BitAt, Mapper.Counts;
    if pos % 8 < end {
      CountStep(m, s, lo, pos, k, end - 1);
      var i := 8 * k + end - 1;
      assert i / 8 == k && i % 8 == end - 1;
      assert CountOf(m, s, lo, i + 1) == CountOf(m, s, lo, i) + if m.Counts(BitAt(s[k], end - 1)) then 1 else 0;
    }
  }

  /** What a part of a bucket adds to the context of a map. */
  lemma CountBucketIs(m: Mapper, b: bv8, bottom: nat, top: nat)
    requires bottom <= top < 8
    ensures (if m.CountBits? then Ones(m.Selected(b) & BitBucketMask(bottom, top), 8) else 0)
      == m.CountIn(b, bottom, top + 1)
  {
    hide Mapper.CountIn, Ones, BitBucketMask;
    if m.CountBits? { m.CountIsMaskedOnes(b, bottom, top); } else { m.CountsNothing(b, bottom, top + 1); }
  }

  /** A whole bucket is mapped without a mask. */
  lemma WholeBucket(m: Mapper, b: bv8)
    ensures BitBucketMask(0, 7) == 0xFF && MappedBucket(m, b, 0, 7) == m.MapBucket(b)
  {
  }

  function RoundUpCapacity(capacity: nat): (c: nat)
    ensures capacity <= c && c % 64 == 0 && c > 0 && c <= capacity + 64
  {
    var capacity := if capacity == 0 then 1 else capacity;
    (capacity + 63) / 64 * 64
  }

  /** The first bits of some buckets. */
  function FirstBits(s: seq<bv8>, n: nat): (bits: seq<bool>)
    requires n <= 8 * |s|
    ensures |bits| == n
  {
    seq(n, i requires 0 <= i < n => BitOf(s, i))
  }

  lemma MappedBits(m: Mapper, s: seq<bv8>, t: seq<bv8>, lo: nat, hi: nat, n: nat)
    requires Mapped(m, s, t, lo, hi) && n <= 8 * |s|
    ensures |t| == |s|
    ensures forall i :: 0 <= i < n ==>
      FirstBits(t, n)[i] == if lo <= i < hi then m.MapBit(FirstBits(s, n)[i]) else FirstBits(s, n)[i]
  {
  }

  /** The places in a range that hold a value. */
  ghost function Occurrences(bits: seq<bool>, lo: nat, hi: nat, value: bool): set<int> {
    set i | lo <= i < hi && i < |bits| && bits[i] == value
  }

  /** The places in a range whose bit is counted. */
  ghost function Places(m: Mapper, s: seq<bv8>, lo: nat, hi: nat): set<int> {
    set i | lo <= i < hi && i < 8 * |s| && m.Counts(BitOf(s, i))
  }

  class Vector {
    var count: nat
    var capacity: nat
    var buckets: array<bv8>

    ghost predicate Valid()
      reads this
    {
      count <= capacity && buckets.Length == capacity / 8 + 1
    }

    /** The bits themselves. */
    ghost function Bits(): (s: seq<bool>)
      requires Valid()
      reads this, buckets
      ensures |s| == count
    {
      FirstBits(buckets[..], count)
    }

    /** A vector of zeros, or of the first bits of some bytes. */
    constructor (numBits: nat, bytes: Option<seq<bv8>>)
      requires bytes.Some? ==> (numBits + 7) / 8 <= |bytes.value|
      ensures Valid() && fresh(buckets) && count == numBits
      ensures forall i :: 0 <= i < numBits ==> Bits()[i] == (bytes.Some? && BitOf(bytes.value, i))
    {
      count := numBits;
      capacity := RoundUpCapacity(numBits);
      buckets := new bv8[RoundUpCapacity(numBits) / 8 + 1](_ => 0);
      new;
      if bytes.Some? {
        forall i | 0 <= i < numBits / 8 + (if numBits % 8 != 0 then 1 else 0) {
          buckets[i] := bytes.value[i];
        }
      }
      forall i | 0 <= i < numBits
        ensures Bits()[i] == (bytes.Some? && BitOf(bytes.value, i))
      {
        NotBits(0, i % 8);
      }
    }

    /** Maps the bits from `bottom` to `top` of one bucket. */
    method MapPart(bucketIdx: nat, bottom: nat, top: nat, mapper: Mapper) returns (n: nat)
      requires bucketIdx < buckets.Length && bottom <= top < 8
      modifies buckets
      ensures buckets[..] == old(buckets[..])[bucketIdx := MappedBucket(mapper, old(buckets[bucketIdx]), bottom, top)]
      ensures n == mapper.CountIn(old(buckets[bucketIdx]), bottom, top + 1)
    {
      hide BitBucketMask, Mapper.MapBucket, Mapper.CountIn, Ones, Merged;
      var bucketValMask := BitBucketMask(bottom, top);
      CountBucketIs(mapper, buckets[bucketIdx], bottom, top);
      n := mapper.CountBucket(buckets[bucketIdx], bucketValMask);
      var newBucketVal := mapper.MapBucket(buckets[bucketIdx]);
      buckets[bucketIdx] := Merged(buckets[bucketIdx], newBucketVal, bucketValMask);
    }

    /** Maps a whole bucket. */
    method MapWhole(bucketIdx: nat, mapper: Mapper) returns (n: nat)
      requires bucketIdx < buckets.Length
      modifies buckets
      ensures buckets[..] == old(buckets[..])[bucketIdx := MappedBucket(mapper, old(buckets[bucketIdx]), 0, 7)]
      ensures n == mapper.CountIn(old(buckets[bucketIdx]), 0, 8)
    {
      hide BitBucketMask, Mapper.MapBucket, MappedBucket, Ones;
      CountBucketIs(mapper, buckets[bucketIdx], 0, 7);
      WholeBucket(mapper, buckets[bucketIdx]);
      n := mapper.CountBucket(buckets[bucketIdx], 0xFF);
      var newBucketVal := mapper.MapBucket(buckets[bucketIdx]);
      buckets[bucketIdx] := newBucketVal;
    }

    /** Maps entire buckets. */
    method MapAlong(first: nat, nBuckets: nat, mapper: Mapper, ghost s: seq<bv8>, ghost lo: nat) returns (n: nat)
      requires lo <= 8 * first && first + nBuckets <= buckets.Length == |s|
      requires Mapped(mapper, s, buckets[..], lo, 8 * first)
      modifies buckets
      ensures Mapped(mapper, s, buckets[..], lo, 8 * (first + nBuckets))
      ensures n == CountOf(mapper, s, lo, 8 * (first + nBuckets)) - CountOf(mapper, s, lo, 8 * first)
    {
      hide Mapped, CountOf, MappedBucket, Mapper.CountIn;
      n := 0;
      for bucketIdx := first to first + nBuckets
        invariant Mapped(mapper, s, buckets[..], lo, 8 * bucketIdx)
        invariant n == CountOf(mapper, s, lo, 8 * bucketIdx) - CountOf(mapper, s, lo, 8 * first)
      {
        MapNext(mapper, s, buckets[..], lo, 8 * bucketIdx, 7);
        var whole := MapWhole(bucketIdx, mapper);
        n := n + whole;
      }
    }

    /** Maps the bits of a range: ramping up to a bucket boundary, along entire buckets, and down
        with the last fragment. The result is what the map counted. */
    method InternalMap(location: nat, length: nat, mapper: Mapper) returns (n: nat)
      requires Valid() && location + length <= capacity
      modifies buckets
      ensures Mapped(mapper, old(buckets[..]), buckets[..], location, location + length)
      ensures n == CountOf(mapper, old(buckets[..]), location, location + length)
    {
      hide Mapped, CountOf, MappedBucket, Mapper.CountIn;
      ghost var s, hi := buckets[..], location + length;
      NothingMapped(mapper, s, location);
      if length == 0 {
        return 0;
      }
      var bucketIdx, bitOfBucket := location / 8, location % 8;
      var top := if bitOfBucket + length < 8 then bitOfBucket + length - 1 else 7;
      var left: nat := if bitOfBucket + length < 8 then 0 else length - (8 - bitOfBucket);
      MapNext(mapper, s, buckets[..], location, location, top);
      n := MapPart(bucketIdx, bitOfBucket, top, mapper);
      bucketIdx := bucketIdx + 1;
      var nBuckets: nat := left / 8;
      left := left - nBuckets * 8;
      if nBuckets != 0 {
        var along := MapAlong(bucketIdx, nBuckets, mapper, s, location);
        n := n + along;
        bucketIdx := bucketIdx + nBuckets;
      }
      if left != 0 {
        MapNext(mapper, s, buckets[..], location, 8 * bucketIdx, left - 1);
        var last := MapPart(bucketIdx, 0, left - 1, mapper);
        n := n + last;
      }
    }

    /** The number of bits of a range with a value. The map leaves every bit as it is. */
    method GetCountOfBit(location: nat, length: nat, value: bool) returns (n: nat)
      requires Valid() && location + length <= count
      modifies buckets
      ensures Valid() && Bits() == old(Bits())
      ensures n == |Occurrences(Bits(), location, location + length, value)|
    {
      hide Mapped, CountOf, Mapper.MapBit;
      if length == 0 {
        assert Occurrences(Bits(), location, location + length, value) == {};
        return 0;
      }
      n := InternalMap(location, length, CountBits(value));
      MappedBits(CountBits(value), old(buckets[..]), buckets[..], location, location + length, count);
      CountingKeeps(value);
      CountIsSize(CountBits(value), old(buckets[..]), location, location + length);
      assert Occurrences(Bits(), location, location + length, value) ==
             Places(CountBits(value), old(buckets[..]), location, location + length);
    }

    method ContainsBit(location: nat, length: nat, value: bool) returns (contains: bool)
      requires Valid() && location + length <= count
      modifies buckets
      ensures Valid() && Bits() == old(Bits())
      ensures contains <==> exists i :: location <= i < location + length && Bits()[i] == value
    {
      var n := GetCountOfBit(location, length, value);
      contains := n != 0;
      ghost var hits := Occurrences(Bits(), location, location + length, value);
      if contains {
        ghost var i :| i in hits;
      } else {
        assert forall i :: location <= i < location + length && Bits()[i] == value ==> i in hits;
      }
    }

    method GetBitAtIndex(idx: nat) returns (bit: bool)
      requires Valid() && idx < count
      ensures bit == Bits()[idx]
    {
      BitByShift(buckets[idx / 8], idx % 8);
      bit := (buckets[idx / 8] >> (7 - idx % 8)) & 1 == 1;
    }

    /** Room for more bits; the capacity may also become smaller. The new room holds anything. */
    method Grow(numNewValues: nat)
      requires Valid()
      modifies this`capacity, this`buckets
      ensures Valid() && fresh(buckets) && count + numNewValues <= capacity
      ensures Bits() == old(Bits())
    {
      capacity := RoundUpCapacity(count + numNewValues);
      var grown := new bv8[capacity / 8 + 1];
      forall i | 0 <= i < grown.Length && i < buckets.Length {
        grown[i] := buckets[i];
      }
      buckets := grown;
    }

    /** Sets the number of bits: the first bits stay, and new ones are zero, whatever an earlier
        and larger vector left behind them. */
    method SetCount(newCount: nat)
      requires Valid()
      modifies this, buckets
      ensures Valid() && (buckets == old(buckets) || fresh(buckets))
      ensures Bits() == if newCount <= old(count) then old(Bits())[..newCount]
        else old(Bits()) + seq(newCount - old(count), _ => false)
    {
      hide Mapped;
      var cnt := count;
      if cnt < newCount {
        Grow(newCount - cnt);
        ghost var s := buckets[..];
        var _ := InternalMap(cnt, newCount - cnt, ZeroBits);
        MappedBits(ZeroBits, s, buckets[..], cnt, newCount, newCount);
        assert forall i :: 0 <= i < cnt ==> old(Bits())[i] == FirstBits(s, newCount)[i];
      }
      count := newCount;
    }

    method FlipBits(location: nat, length: nat)
      requires Valid() && location + length <= count
      modifies buckets
      ensures forall i :: 0 <= i < count ==>
        Bits()[i] == if location <= i < location + length then !old(Bits())[i] else old(Bits())[i]
    {
      hide Mapped;
      if length == 0 {
        return;
      }
      var _ := InternalMap(location, length, Mapper.FlipBits);
      MappedBits(Mapper.FlipBits, old(buckets[..]), buckets[..], location, location + length, count);
    }

    method SetBits(location: nat, length: nat, value: bool)
      requires Valid() && location + length <= count
      modifies buckets
      ensures forall i :: 0 <= i < count ==>
        Bits()[i] == if location <= i < location + length then value else old(Bits())[i]
    {
      hide Mapped;
      if length == 0 {
        return;
      }
      if value {
        var _ := InternalMap(location, length, OneBits);
        MappedBits(OneBits, old(buckets[..]), buckets[..], location, location + length, count);
      } else {
        var _ := InternalMap(location, length, ZeroBits);
        MappedBits(ZeroBits, old(buckets[..]), buckets[..], location, location + length, count);
      }
    }

    /** Sets every bit: those of the last bucket with a map, whole buckets by filling memory. */
    method SetAllBits(value: bool)
      requires Valid()
      modifies buckets
      ensures forall i :: 0 <= i < count ==> Bits()[i] == value
    {
      var nBuckets := count / 8;
      var leftover := count - nBuckets * 8;
      if 0 < leftover {
        SetBits(nBuckets * 8, leftover, value);
      }
      ghost var s := buckets[..];
      assert forall i :: 8 * nBuckets <= i < count ==> BitOf(s, i) == Bits()[i] == value;
      var fill: bv8 := if value then 0xFF else 0;
      forall k | 0 <= k < nBuckets {
        buckets[k] := fill;
      }
      forall i | 0 <= i < count
        ensures Bits()[i] == value
      {
        NotBits(0, i % 8);
        assert BitOf(buckets[..], i) == if i < 8 * nBuckets then BitAt(fill, i % 8) else BitOf(s, i);
      }
    }

    method SetBitAtIndex(idx: nat, value: bool)
      requires Valid() && idx < count
      modifies buckets
      ensures Bits() == old(Bits())[idx := value]
    {
      hide BitAt, WithBit;
      WithBitBits(buckets[idx / 8], idx % 8, value);
      buckets[idx / 8] := WithBit(buckets[idx / 8], idx % 8, value);
    }

    method FlipBitAtIndex(idx: nat)
      requires Valid() && idx < count
      modifies buckets
      ensures Bits() == old(Bits())[idx := !old(Bits())[idx]]
    {
      hide BitAt, WithFlip;
      WithFlipBits(buckets[idx / 8], idx % 8);
      buckets[idx / 8] := WithFlip(buckets[idx / 8], idx % 8);
    }
  }

  function WithBit(b: bv8, q: nat, value: bool): bv8
    requires q < 8
  {
    if value then b | Flag(q) else b & !Flag(q)
  }

  function WithFlip(b: bv8, q: nat): bv8
    requires q < 8
  {
    b ^ Flag(q)
  }

  lemma WithBitAt(b: bv8, q: nat, value: bool, p: nat)
    requires q < 8 && p < 8
    ensures BitAt(WithBit(b, q, value), p) == if p == q then value else BitAt(b, p)
  {
    hide BitAt, Flag;
    FlagBits(q, p);
    OrBits(b, Flag(q), p);
    AndNotBits(b, Flag(q), p);
  }

  lemma WithBitBits(b: bv8, q: nat, value: bool)
    requires q < 8
    ensures forall p :: 0 <= p < 8 ==> BitAt(WithBit(b, q, value), p) == if p == q then value else BitAt(b, p)
  {
    hide BitAt, WithBit;
    forall p | 0 <= p < 8
      ensures BitAt(WithBit(b, q, value), p) == if p == q then value else BitAt(b, p)
    {
      WithBitAt(b, q, value, p);
    }
  }

  lemma WithFlipBits(b: bv8, q: nat)
    requires q < 8
    ensures forall p :: 0 <= p < 8 ==> BitAt(WithFlip(b, q), p) == (BitAt(b, p) != (p == q))
  {
    hide BitAt, Flag;
    forall p | 0 <= p < 8
      ensures BitAt(WithFlip(b, q), p) == (BitAt(b, p) != (p == q))
    {
      FlagBits(q, p);
      XorBits(b, Flag(q), p);
    }
  }

  lemma CountingKeeps(value: bool)
    ensures forall b :: CountBits(value).MapBit(b) == b
  {
  }

  /** What a map counts is the number of places whose bit is counted. */
  lemma {:induction false} CountIsSize(m: Mapper, s: seq<bv8>, lo: nat, hi: nat)
    requires hi <= 8 * |s|
    ensures CountOf(m, s, lo, hi) == |Places(m, s, lo, hi)|
  {
    hide BitOf, Mapper.Counts;
    if hi <= lo {
      assert Places(m, s, lo, hi) == {};
    } else {
      CountIsSize(m, s, lo, hi - 1);
      assert Places(m, s, lo, hi) == Places(m, s, lo, hi - 1) + if m.Counts(BitOf(s, hi - 1)) then {hi - 1} else {};
    }
  }

  lemma NothingMapped(m: Mapper, s: seq<bv8>, lo: nat)
    requires lo <= 8 * |s|
    ensures Mapped(m, s, s, lo, lo) && CountOf(m, s, lo, lo) == 0
  {
  }

  /** The next bits, of a bucket of which nothing has been mapped from there on. */
  lemma MapNext(m: Mapper, s: seq<bv8>, t: seq<bv8>, lo: nat, pos: nat, top: nat)
    requires lo <= pos < 8 * |s| && pos % 8 <= top < 8 && Mapped(m, s, t, lo, pos)
    ensures var k := pos / 8;
      && Mapped(m, s, t[k := MappedBucket(m, t[k], pos % 8, top)], lo, 8 * k + top + 1)
      && CountOf(m, s, lo, 8 * k + top + 1) == CountOf(m, s, lo, pos) + m.CountIn(t[k], pos % 8, top + 1)
  {
    hide BitAt, MappedBucket, Mapper.MapBit, Mapper.CountIn, CountOf;
    var k := pos / 8;
    MapStep(m, s, t, lo, pos, k, top);
    CountStep(m, s, lo, pos, k, top + 1);
    forall p | pos % 8 <= p < 8
      ensures BitAt(s[k], p) == BitAt(t[k], p)
    {
      assert (8 * k + p) / 8 == k && (8 * k + p) % 8 == p;
      assert BitOf(t, 8 * k + p) == BitOf(s, 8 * k + p);
    }
    SameCount(m, s[k], t[k], pos % 8, top + 1);
  }

  lemma {:induction false} SameCount(m: Mapper, a: bv8, b: bv8, bottom: nat, end: nat)
    requires end <= 8 && forall p :: bottom <= p < 8 ==> BitAt(a, p) == BitAt(b, p)
    ensures m.CountIn(a, bottom, end) == m.CountIn(b, bottom, end)
  {
    hide BitAt;
    if bottom < end {
      SameCount(m, a, b, bottom, end - 1);
    }
  }
}
