/** Big-endian integers of a stated byte width, as the binary property list
    format stores lengths, references, offsets and numbers. */
module SizedInts {
  import opened Prelude

  function Pow256(w: nat): (p: nat)
    ensures p >= 1
  {
    if w == 0 then 1 else 256 * Pow256(w - 1)
  }

  lemma PowTable()
    ensures Pow256(1) == 0x100
    ensures Pow256(2) == 0x1_0000
    ensures Pow256(4) == TWO_32
    ensures Pow256(8) == TWO_64
  {
    assert Pow256(2) == 0x1_0000;
    assert Pow256(3) == 0x100_0000;
    assert Pow256(4) == TWO_32;
    assert Pow256(5) == 0x100 * TWO_32;
    assert Pow256(6) == 0x1_0000 * TWO_32;
    assert Pow256(7) == 0x100_0000 * TWO_32;
  }

  /** The number a big-endian byte string denotes. */
  function BigEndian(s: seq<Byte>): (v: nat)
  {
    if s == [] then 0 else 256 * BigEndian(s[..|s| - 1]) + s[|s| - 1]
  }

  /** The low `width` bytes of `n`, most significant first. */
  function Bytes(n: nat, width: nat): (s: seq<Byte>)
    ensures |s| == width
  {
    if width == 0 then [] else Bytes(n / 256, width - 1) + [n % 256]
  }

  lemma {:induction false} BigEndianBound(s: seq<Byte>)
    ensures BigEndian(s) < Pow256(|s|)
  {
    if s != [] {
      BigEndianBound(s[..|s| - 1]);
    }
  }

  /** Writing a number that fits and reading it back is the identity. */
  lemma {:induction false} BytesRoundTrip(n: nat, width: nat)
    requires n < Pow256(width)
    ensures BigEndian(Bytes(n, width)) == n
  {
    if width > 0 {
      BytesRoundTrip(n / 256, width - 1);
      assert Bytes(n, width)[..width - 1] == Bytes(n / 256, width - 1);
    }
  }

  /** The other half of the bijection: reading a byte string and writing its value back
      in the same width reproduces the bytes. */
  lemma {:induction false} BigEndianRoundTrip(s: seq<Byte>)
    ensures Bytes(BigEndian(s), |s|) == s
  {
    if s != [] {
      var t := s[..|s| - 1];
      BigEndianRoundTrip(t);
      assert BigEndian(s) / 256 == BigEndian(t) && BigEndian(s) % 256 == s[|s| - 1];
      assert s == t + [s[|s| - 1]];
    }
  }

  /** The value the reader obtains: only the last 64 bits are significant. */
  function SizedInt(s: seq<Byte>): (v: Word)
  {
    BigEndian(s) % TWO_64
  }

  lemma SizedIntExact(s: seq<Byte>)
    requires |s| <= 8
    ensures SizedInt(s) == BigEndian(s)
  {
    BigEndianBound(s);
    PowTable();
    PowMonotone(|s|, 8);
  }

  lemma {:induction false} PowMonotone(a: nat, b: nat)
    requires a <= b
    ensures Pow256(a) <= Pow256(b)
  {
    if a < b {
      PowMonotone(a, b - 1);
    }
  }

  lemma ShiftWraps(v: nat, b: Byte)
    ensures (v % TWO_64 * 256 + b) % TWO_64 == (v * 256 + b) % TWO_64
  {
    var q, r := v / TWO_64, v % TWO_64;
    assert v * 256 + b == r * 256 + b + q * 256 * TWO_64;
    ModAddMultiple(r * 256 + b, q * 256);
  }

  lemma ModAddMultiple(x: nat, k: nat)
    ensures (x + k * TWO_64) % TWO_64 == x % TWO_64
  {
  }

  /** The number a little-endian machine loads from these bytes. */
  function LittleEndian(s: seq<Byte>): (v: nat)
  {
    if s == [] then 0 else s[0] + 256 * LittleEndian(s[1..])
  }

  /** The low `width` bytes of a number in the opposite order. */
  function SwapBytes(v: nat, width: nat): nat {
    if width == 0 then 0 else v % 256 * Pow256(width - 1) + SwapBytes(v / 256, width - 1)
  }

  lemma {:induction false} BigEndianFirst(s: seq<Byte>)
    requires s != []
    ensures BigEndian(s) == s[0] * Pow256(|s| - 1) + BigEndian(s[1..])
  {
    if |s| > 1 {
      var t := s[..|s| - 1];
      BigEndianFirst(t);
      assert s[1..][..|s| - 2] == t[1..];
    }
  }

  lemma SwapStep(b: Byte, v: nat, width: nat)
    ensures SwapBytes(b + 256 * v, width + 1) == b * Pow256(width) + SwapBytes(v, width)
  {
    assert (b + 256 * v) % 256 == b && (b + 256 * v) / 256 == v;
  }

  /** Loading bytes and swapping them reads them most significant first. */
  lemma {:induction false} SwappedIsBigEndian(s: seq<Byte>)
    ensures SwapBytes(LittleEndian(s), |s|) == BigEndian(s)
  {
    if s != [] {
      SwappedIsBigEndian(s[1..]);
      BigEndianFirst(s);
      SwapStep(s[0], LittleEndian(s[1..]), |s| - 1);
    }
  }

  /** A load of `width` bytes and a swap, as one instruction each. */
  method LoadSwapped(data: seq<Byte>, pos: nat, width: nat) returns (res: Word)
    requires width <= 8 && pos + width <= |data|
    ensures res == SizedInt(data[pos..pos + width])
  {
    SwappedIsBigEndian(data[pos..pos + width]);
    SizedIntExact(data[pos..pos + width]);
    res := SwapBytes(LittleEndian(data[pos..pos + width]), width);
  }

  /** Reads `valSize` bytes at `pos` on a little-endian machine: widths of 1, 2, 4 and 8 bytes at
      once, others by shifting a 64-bit accumulator left one byte at a time. */
  method GetSizedInt(data: seq<Byte>, pos: nat, valSize: nat) returns (res: Word)
    requires pos + valSize <= |data|
    ensures res == SizedInt(data[pos..pos + valSize])
  {
    if valSize == 1 {
      OneByte(data, pos);
      return data[pos];
    } else if valSize == 2 {
      res := LoadSwapped(data, pos, 2);
      return;
    } else if valSize == 4 {
      res := LoadSwapped(data, pos, 4);
      return;
    } else if valSize == 8 {
      res := LoadSwapped(data, pos, 8);
      return;
    }
    res := GetSizedIntByBytes(data, pos, valSize);
  }

  lemma OneByte(data: seq<Byte>, pos: nat)
    requires pos < |data|
    ensures SizedInt(data[pos..pos + 1]) == data[pos]
  {
    assert data[pos..pos + 1] == [data[pos]];
    assert BigEndian([]) == 0;
  }

  /** The loop, which other machines use for every width. */
  method GetSizedIntByBytes(data: seq<Byte>, pos: nat, valSize: nat) returns (res: Word)
    requires pos + valSize <= |data|
    ensures res == SizedInt(data[pos..pos + valSize])
  {
    res := 0;
    for idx := 0 to valSize
      invariant res == SizedInt(data[pos..pos + idx])
    {
      var s := data[pos..pos + idx + 1];
      assert s[..idx] == data[pos..pos + idx];
      ShiftWraps(BigEndian(data[pos..pos + idx]), data[pos + idx]);
      res := (res * 256 + data[pos + idx]) % TWO_64;
    }
  }

  /** The width class of a number: the least of 1, 2, 4 and 8 bytes that holds it. */
  function Width(n: nat): (w: nat)
    ensures w == 1 || w == 2 || w == 4 || w == 8
  {
    if n < 0x100 then 1 else if n < 0x1_0000 then 2 else if n < TWO_32 then 4 else 8
  }

  /** `Width` holds its argument, and no narrower class does. */
  lemma WidthIsLeast(n: nat, w: nat)
    requires n < TWO_64
    requires w == 1 || w == 2 || w == 4 || w == 8
    ensures n < Pow256(Width(n))
    ensures n < Pow256(w) <==> Width(n) <= w
  {
    PowTable();
  }

  /** Finds the width by shifting a mask of high bits left until `count` has none of them,
      then rounds the size up to a power of two. `lowest` is the lowest bit of the mask. */
  method ByteCount(count: nat) returns (size: nat)
    requires count < TWO_64
    ensures size == Width(count)
  {
    size := 0;
    var lowest := 1;
    PowTable();
    while lowest <= count
      invariant lowest == Pow256(size)
      invariant size > 0 ==> Pow256(size - 1) <= count
      invariant size <= 8
      decreases 8 - size
    {
      if size == 8 { assert false; }
      size := size + 1;
      lowest := lowest * 256;
    }
    ghost var bytes := size;
    while size != 1 && size != 2 && size != 4 && size != 8 && size <= 8
      invariant bytes <= size <= 8
      invariant bytes == size || (bytes == 0 && size == 1) || (bytes == 3 && size == 4) || (5 <= bytes && size <= 8)
      decreases 8 - size
    {
      size := size + 1;
    }
    PowMonotone(bytes, size);
    assert Pow256(3) == 0x100_0000;
    if bytes >= 5 { PowMonotone(4, bytes - 1); }
  }
}
