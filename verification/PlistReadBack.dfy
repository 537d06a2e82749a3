/** Reading back single objects: the decoder inverts every object encoding, wherever in a
    file the bytes lie. */
module PlistReadBack {
  import opened Prelude
  import opened SizedInts
  import opened PlistModel
  import opened PlistFormat
  import opened PlistTrailer
  import opened PlistDecode

  /** The bytes `b` lie at `off`. */
  ghost predicate At(data: seq<Byte>, off: nat, b: seq<Byte>) {
    off + |b| <= |data| && data[off..off + |b|] == b
  }

  lemma AtSplit(data: seq<Byte>, off: nat, a: seq<Byte>, b: seq<Byte>)
    requires At(data, off, a + b)
    ensures At(data, off, a) && At(data, off + |a|, b)
  {
    var ab := data[off..off + |a + b|];
    assert a == ab[..|a|] == data[off..off + |a|];
    assert b == ab[|a|..] == data[off + |a|..off + |a| + |b|];
  }

  lemma AtByte(data: seq<Byte>, off: nat, b: seq<Byte>)
    requires At(data, off, b) && b != []
    ensures off < |data| && data[off] == b[0]
  {
    assert data[off..off + |b|][0] == data[off];
  }

  /** The value of a number written in a wide enough place. */
  lemma SizedIntOfBytes(n: nat, width: nat)
    requires width <= 8 && n < Pow256(width)
    ensures SizedInt(Bytes(n, width)) == n
  {
    BytesRoundTrip(n, width);
    SizedIntExact(Bytes(n, width));
  }

  lemma ShiftTable()
    ensures Shift(0) == 1 && Shift(1) == 2 && Shift(2) == 4 && Shift(3) == 8 && Shift(4) == 16
  {
    assert Shift(2) == 4;
  }

  lemma ReadsIntBytes(data: seq<Byte>, ptr: nat, end: nat, n: Word)
    requires At(data, ptr, IntBytes(n)) && ptr + |IntBytes(n)| <= end + 1 <= |data|
    ensures ReadInt(data, ptr, end) == Some((n, ptr + |IntBytes(n)|))
  {
    hide Bytes, SizedInt, Shift, Pow256;
    ShiftTable();
    AtByte(data, ptr, IntBytes(n));
    AtSplit(data, ptr, [MARKER_INT + WidthLog(n)], Bytes(n, Width(n)));
    WidthIsLeast(n, 8);
    SizedIntOfBytes(n, Width(n));
  }

  lemma ReadsCountHeader(data: seq<Byte>, off: nat, end: nat, marker: Byte, n: Word)
    requires marker % 16 == 0 && marker <= 0xF0 && n < TWO_63
    requires At(data, off, CountHeader(marker, n)) && off + |CountHeader(marker, n)| <= end + 1 <= |data|
    ensures off <= end && data[off] / 16 == marker / 16
    ensures ReadCount(data, off, end) == Some((n, off + |CountHeader(marker, n)|))
  {
    hide IntBytes, ReadInt;
    AtByte(data, off, CountHeader(marker, n));
    if 15 <= n {
      AtSplit(data, off, [marker + 15], IntBytes(n));
      ReadsIntBytes(data, off + 1, end, n);
    }
  }

  lemma {:induction false} BigEndianAppend(a: seq<Byte>, b: seq<Byte>)
    ensures BigEndian(a + b) == BigEndian(a) * Pow256(|b|) + BigEndian(b)
  {
    if b == [] {
      assert a + b == a;
    } else {
      var b' := b[..|b| - 1];
      assert (a + b)[..|a + b| - 1] == a + b';
      BigEndianAppend(a, b');
      Regroup(BigEndian(a), Pow256(|b'|));
    }
  }

  lemma Regroup(x: nat, p: nat)
    ensures 256 * (x * p) == x * (256 * p)
  {
  }

  /** Only the low word of a 128-bit integer comes back. */
  lemma LowWord(high: nat, low: Word)
    ensures SizedInt(Bytes(high, 8) + Bytes(low, 8)) == low
  {
    hide BigEndian, Pow256, Bytes;
    BigEndianAppend(Bytes(high, 8), Bytes(low, 8));
    PowTable();
    BytesRoundTrip(low, 8);
    ModAddMultiple(low, BigEndian(Bytes(high, 8)));
  }

  lemma UnitAt(units: seq<Unit>, i: nat)
    requires i < |units|
    ensures UnitBytes(units)[2 * i] == units[i] / 0x100 && UnitBytes(units)[2 * i + 1] == units[i] % 0x100
  {
    assert (2 * i) % 2 == 0 && (2 * i) / 2 == i && (2 * i + 1) % 2 == 1 && (2 * i + 1) / 2 == i;
  }

  lemma UnitsReadBack(units: seq<Unit>)
    ensures UnitsOf(UnitBytes(units)) == units
    ensures IsAscii(units) ==> AsciiBytes(units) == units
  {
    hide UnitBytes;
    var back := UnitsOf(UnitBytes(units));
    forall i | 0 <= i < |units|
      ensures back[i] == units[i]
    {
      UnitAt(units, i);
      assert back[i] == JoinBytes(UnitBytes(units)[2 * i], UnitBytes(units)[2 * i + 1]);
    }
  }

  lemma DecodesInt(data: seq<Byte>, off: nat, end: nat, n: int)
    requires -TWO_63 <= n < TWO_63
    requires At(data, off, IntBytes(Unsigned(n))) && off + |IntBytes(Unsigned(n))| <= end + 1 <= |data|
    ensures off <= end && data[off] / 16 == 1 && DecodeInt(data, off, end) == Whole(Int(n))
  {
    hide Bytes, SizedInt, Shift, Pow256;
    var u := Unsigned(n);
    ShiftTable();
    AtByte(data, off, IntBytes(u));
    AtSplit(data, off, [MARKER_INT + WidthLog(u)], Bytes(u, Width(u)));
    WidthIsLeast(u, 8);
    SizedIntOfBytes(u, Width(u));
  }

  lemma DecodesBigInt(data: seq<Byte>, off: nat, end: nat, high: nat, low: Word)
    requires var b := [MARKER_INT + 4] + (Bytes(high, 8) + Bytes(low, 8));
      At(data, off, b) && off + |b| <= end + 1 <= |data|
    ensures off <= end && data[off] / 16 == 1 && DecodeInt(data, off, end) == Whole(BigInt(0, low))
  {
    hide Bytes, SizedInt, Shift;
    ShiftTable();
    var words := Bytes(high, 8) + Bytes(low, 8);
    AtByte(data, off, [MARKER_INT + 4] + words);
    AtSplit(data, off, [MARKER_INT + 4], words);
    LowWord(high, low);
  }

  /** A marker followed by one number of fixed width. */
  lemma ReadsFixed(data: seq<Byte>, off: nat, marker: Byte, n: nat, width: nat)
    requires 0 < width <= 8 && n < Pow256(width)
    requires At(data, off, [marker] + Bytes(n, width))
    ensures off + 1 + width <= |data| && data[off] == marker && SizedInt(data[off + 1..off + 1 + width]) == n
  {
    hide Bytes, SizedInt;
    AtByte(data, off, [marker] + Bytes(n, width));
    AtSplit(data, off, [marker], Bytes(n, width));
    SizedIntOfBytes(n, width);
  }

  lemma DecodesBytes(data: seq<Byte>, off: nat, end: nat, marker: Byte, n: Word, s: seq<Byte>, size: nat)
    requires marker % 16 == 0 && marker <= 0xF0 && n < TWO_63 && |s| == n * size
    requires At(data, off, CountHeader(marker, n) + s) && off + |CountHeader(marker, n) + s| <= end + 1 <= |data|
    ensures off <= end && data[off] / 16 == marker / 16
    ensures DecodeBytes(data, off, end, size) == Some(s)
  {
    hide CountHeader, ReadCount;
    AtSplit(data, off, CountHeader(marker, n), s);
    ReadsCountHeader(data, off, end, marker, n);
  }

  lemma DecodesRefs(data: seq<Byte>, off: nat, end: nat, marker: Byte, n: Word, refs: seq<Byte>, kind: Kind, size: nat)
    requires marker % 16 == 0 && marker <= 0xF0 && n < TWO_63
    requires var count := if kind == DictKind then 2 * n else n; |refs| == count * size && count * 8 < TWO_64
    requires At(data, off, CountHeader(marker, n) + refs) && off + |CountHeader(marker, n) + refs| <= end + 1 <= |data|
    ensures off <= end && data[off] / 16 == marker / 16
    ensures DecodeRefs(data, off, end, kind, size)
         == Refers(kind, off + |CountHeader(marker, n)|, if kind == DictKind then 2 * n else n)
  {
    hide CountHeader, ReadCount;
    AtSplit(data, off, CountHeader(marker, n), refs);
    ReadsCountHeader(data, off, end, marker, n);
  }

  /** What becomes of a primitive value: a 128-bit integer loses its high word. */
  function Reread(v: Plist): Plist {
    if v.BigInt? then BigInt(0, v.low) else v
  }

  lemma DecodesInteger(f: File, off: nat, v: Plist)
    requires f.Trusted() && Writable(v) && (v.Bool? || v.Int? || v.BigInt?)
    requires 8 <= off && At(f.data, off, LeafBytes(v)) && off + |LeafBytes(v)| <= f.trailer.offsetTableOffset
    ensures f.Decode(off) == Whole(Reread(v))
  {
    hide Bytes, SizedInt, IntBytes, DecodeInt, At, FitsTogether;
    EndInside(f);
    match v
    case Bool(flag) => AtByte(f.data, off, LeafBytes(v));
    case Int(n) => DecodesInt(f.data, off, f.End(), n);
    case BigInt(high, low) => DecodesBigInt(f.data, off, f.End(), Unsigned(high), low);
  }

  lemma DecodesFixed(f: File, off: nat, v: Plist)
    requires f.Trusted() && Writable(v) && (v.Real32? || v.Real64? || v.Date? || v.Uid?)
    requires 8 <= off && At(f.data, off, LeafBytes(v)) && off + |LeafBytes(v)| <= f.trailer.offsetTableOffset
    ensures f.Decode(off) == Whole(v)
  {
    hide Bytes, SizedInt, Pow256, At, FitsTogether;
    EndInside(f);
    PowTable();
    match v
    case Real32(bits) => ReadsFixed(f.data, off, MARKER_REAL + 2, bits, 4);
    case Real64(bits) => ReadsFixed(f.data, off, MARKER_REAL + 3, bits, 8);
    case Date(bits) => ReadsFixed(f.data, off, MARKER_DATE, bits, 8);
    case Uid(n) =>
      WidthIsLeast(n, 4);
      ReadsFixed(f.data, off, MARKER_UID + (Width(n) - 1), n, Width(n));
  }

  lemma DecodesString(f: File, off: nat, v: Plist)
    requires f.Trusted() && Writable(v) && (v.Data? || v.Text?)
    requires 8 <= off && At(f.data, off, LeafBytes(v)) && off + |LeafBytes(v)| <= f.trailer.offsetTableOffset
    ensures f.Decode(off) == Whole(v)
  {
    hide CountHeader, DecodeBytes, UnitsOf, UnitBytes, AsciiBytes, At, IsAscii, FitsTogether;
    var end := f.End();
    EndInside(f);
    match v
    case Data(bytes) =>
      DecodesBytes(f.data, off, end, MARKER_DATA, |bytes|, bytes, 1);
    case Text(units) =>
      UnitsReadBack(units);
      if IsAscii(units) {
        DecodesBytes(f.data, off, end, MARKER_ASCII, |units|, AsciiBytes(units), 1);
      } else {
        DecodesBytes(f.data, off, end, MARKER_UNICODE, |units|, UnitBytes(units), 2);
      }
  }

  lemma EndInside(f: File)
    requires f.Trusted()
    ensures f.End() + 1 == f.trailer.offsetTableOffset < |f.data| && f.trailer.objectRefSize > 0
  {
  }

  /** Every primitive object reads back, a 128-bit integer without its high word. */
  lemma DecodesLeaf(f: File, off: nat, v: Plist)
    requires f.Trusted() && Writable(v)
    requires 8 <= off && At(f.data, off, LeafBytes(v)) && off + |LeafBytes(v)| <= f.trailer.offsetTableOffset
    ensures f.Decode(off) == Whole(Reread(v))
  {
    hide LeafBytes, File.Decode, At;
    if v.Data? || v.Text? {
      DecodesString(f, off, v);
    } else if v.Bool? || v.Int? || v.BigInt? {
      DecodesInteger(f, off, v);
    } else {
      DecodesFixed(f, off, v);
    }
  }
}
