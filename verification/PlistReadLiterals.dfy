/** What each byte that can start an object means to the reader, in literal bytes and without the
    functions the reader is written with. */
module PlistReadLiterals {
  import opened Prelude
  import opened SizedInts
  import opened PlistModel
  import opened PlistFormat
  import opened PlistTrailer
  import opened PlistDecode
  import opened PlistReadBack
  import opened PlistReader

  /** The number in `size` bytes from `p` on, the most significant first. */
  function Number(data: seq<Byte>, p: nat, size: nat): (n: nat)
    requires p + size <= |data|
    ensures size == 1 ==> n == data[p]
  {
    if size == 1 then OneByteNumber(data[p..p + 1]); BigEndian(data[p..p + 1]) else BigEndian(data[p..p + size])
  }

  lemma OneByteNumber(s: seq<Byte>)
    requires |s| == 1
    ensures BigEndian(s) == s[0]
  {
    assert s[..0] == [] && BigEndian([]) == 0;
  }

  lemma NumberIs(data: seq<Byte>, p: nat, size: nat)
    requires p + size <= |data|
    ensures SizedInt(data[p..p + size]) == Number(data, p, size) % 0x1_0000_0000_0000_0000
    ensures size <= 8 ==> SizedInt(data[p..p + size]) == Number(data, p, size)
    ensures size <= 4 ==> Number(data, p, size) < 0x1_0000_0000
  {
    hide BigEndian, Pow256;
    if size <= 8 { SizedIntExact(data[p..p + size]); }
    if size <= 4 {
      BigEndianBound(data[p..p + size]);
      PowMonotone(size, 4);
      PowTable();
    }
  }

  /** The place of an object, and the byte there. */
  ghost predicate Starts(f: File, off: nat, b: Byte) {
    f.Trusted() && 8 <= off <= f.End() && f.data[off] == b
  }

  /** The object parses to a value. */
  ghost predicate Reads(f: File, off: nat, v: Plist)
    requires f.Trusted()
  {
    f.Parses(off) && f.Value(off) == v
  }

  lemma ReadsWhole(f: File, off: nat)
    requires f.Trusted() && 8 <= off <= f.End()
    ensures f.DecodeInside(off).Malformed? ==> !f.Parses(off)
    ensures f.DecodeInside(off).Whole? ==> Reads(f, off, f.DecodeInside(off).value)
  {
    hide File.DecodeInside, File.Parses, File.Value, FitsTogether;
    assert f.Decode(off) == f.DecodeInside(off);
    if !f.Decode(off).Refers? { WholeParses(f, off); }
  }

  lemma Outside(f: File, off: nat)
    requires f.Trusted() && !(8 <= off <= f.End())
    ensures !f.Parses(off)
  {
    hide File.Parses, FitsTogether;
    WholeParses(f, off);
  }

  /** 0x00 to 0x0F. */
  lemma SingleRead(f: File, off: nat, b: Byte)
    requires Starts(f, off, b) && b < 0x10
    ensures b == 0x00 ==> Reads(f, off, Null)
    ensures b == 0x08 ==> Reads(f, off, Bool(false))
    ensures b == 0x09 ==> Reads(f, off, Bool(true))
    ensures b != 0x00 && b != 0x08 && b != 0x09 ==> !f.Parses(off)
  {
    hide File.Parses, File.Value, FitsTogether;
    EndInside(f);
    ReadsWhole(f, off);
  }

  /** 0x10 to 0x1F: one, two and four bytes without a sign, eight with one, the last eight of
      sixteen. */
  lemma IntRead(f: File, off: nat, b: Byte, size: nat)
    requires Starts(f, off, b) && 0x10 <= b < 0x20
    requires b < 0x15 ==> size == if b == 0x10 then 1 else if b == 0x11 then 2 else if b == 0x12 then 4
                                  else if b == 0x13 then 8 else 16
    ensures b >= 0x15 || f.End() < off + size ==> !f.Parses(off)
    ensures b < 0x13 && off + size <= f.End() ==>
      off + 1 + size <= |f.data| && Reads(f, off, Int(Number(f.data, off + 1, size)))
    ensures b == 0x13 && off + 8 <= f.End() ==>
      && off + 9 <= |f.data|
      && var n := Number(f.data, off + 1, 8);
         Reads(f, off, Int(if n < 0x8000_0000_0000_0000 then n else n - 0x1_0000_0000_0000_0000))
    ensures b == 0x14 && off + 16 <= f.End() ==>
      && off + 17 <= |f.data| && Number(f.data, off + 9, 8) < 0x1_0000_0000_0000_0000
      && Reads(f, off, BigInt(0, Number(f.data, off + 9, 8)))
  {
    hide File.Parses, File.Value, FitsTogether, SizedInt, Number;
    EndInside(f);
    ReadsWhole(f, off);
    ShiftTable();
    WideShift(b % 16);
    assert f.DecodeInside(off) == DecodeInt(f.data, off, f.End());
    if b < 0x14 && off + size <= f.End() { NumberIs(f.data, off + 1, size); }
    if b == 0x14 && off + 16 <= f.End() { LastEight(f.data, off + 1); }
  }

  lemma WideShift(n: nat)
    ensures 5 <= n ==> 16 < Shift(n)
  {
    if 5 < n { WideShift(n - 1); } else { ShiftTable(); }
  }

  lemma LastEight(data: seq<Byte>, p: nat)
    requires p + 16 <= |data|
    ensures SizedInt(data[p..p + 16]) == Number(data, p + 8, 8) < TWO_64
  {
    hide BigEndian, Pow256;
    var a, b := data[p..p + 8], data[p + 8..p + 16];
    assert data[p..p + 16] == a + b;
    BigEndianAppend(a, b);
    BigEndianBound(b);
    PowTable();
    ModAddMultiple(BigEndian(b), BigEndian(a));
  }

  /** 0x20 to 0x3F: reals of four and eight bytes, and dates. */
  lemma FixedRead(f: File, off: nat, b: Byte)
    requires Starts(f, off, b) && 0x20 <= b < 0x40
    ensures b == 0x22 && off + 4 <= f.End() ==>
      off + 5 <= |f.data| && Reads(f, off, Real32(Number(f.data, off + 1, 4)))
    ensures b == 0x23 && off + 8 <= f.End() ==>
      && off + 9 <= |f.data| && Number(f.data, off + 1, 8) < 0x1_0000_0000_0000_0000
      && Reads(f, off, Real64(Number(f.data, off + 1, 8)))
    ensures b == 0x33 && off + 8 <= f.End() ==>
      && off + 9 <= |f.data| && Number(f.data, off + 1, 8) < 0x1_0000_0000_0000_0000
      && Reads(f, off, Date(Number(f.data, off + 1, 8)))
    ensures (b != 0x22 && b != 0x23 && b != 0x33) || f.End() < off + (if b == 0x22 then 4 else 8) ==> !f.Parses(off)
  {
    hide File.Parses, File.Value, FitsTogether, SizedInt, Number;
    EndInside(f);
    ReadsWhole(f, off);
    if off + 4 <= f.End() { NumberIs(f.data, off + 1, 4); }
    if off + 8 <= f.End() { NumberIs(f.data, off + 1, 8); }
  }

  /** 0x80 to 0x8F: UIDs of one to sixteen bytes, of which the last eight count, below 2^32. */
  lemma UidRead(f: File, off: nat, b: Byte)
    requires Starts(f, off, b) && 0x80 <= b < 0x90
    ensures f.End() < off + (b - 0x7F) ==> !f.Parses(off)
    ensures off + (b - 0x7F) <= f.End() ==>
      && off + 1 + (b - 0x7F) <= |f.data|
      && var n := Number(f.data, off + 1, b - 0x7F) % 0x1_0000_0000_0000_0000;
         if n < 0x1_0000_0000 then Reads(f, off, Uid(n)) else !f.Parses(off)
  {
    hide File.Parses, File.Value, FitsTogether, SizedInt, Number;
    EndInside(f);
    ReadsWhole(f, off);
    var size: nat := b - 0x7F;
    if off + size <= f.End() { NumberIs(f.data, off + 1, size); }
  }

  /** 0x70, 0x90, 0xB0, 0xE0 and 0xF0. */
  lemma UnknownRead(f: File, off: nat, b: Byte)
    requires Starts(f, off, b) && (b / 16 == 7 || b / 16 == 9 || b / 16 == 11 || b >= 0xE0)
    ensures !f.Parses(off)
  {
    hide File.Parses, File.Value, FitsTogether;
    EndInside(f);
    ReadsWhole(f, off);
  }

  /** The count of an object is in the low four bits of its first byte, or, if these are 15, the last
      eight bytes of an integer object after it, of which widths of 256 bytes and more read as 0. */
  lemma CountRead(f: File, off: nat, b: Byte, size: nat)
    requires Starts(f, off, b)
    ensures b % 16 != 15 ==> ReadCount(f.data, off, f.End()) == Some((b % 16, off + 1))
    ensures b % 16 == 15 && f.End() <= off ==> ReadCount(f.data, off, f.End()) == None
    ensures b % 16 == 15 && off < f.End() && f.data[off + 1] / 16 != 1 ==> ReadCount(f.data, off, f.End()) == None
    ensures b % 16 == 15 && off < f.End() && size > 0 && SizeMarked(f.data[off + 1], size) ==>
      if f.End() < off + 1 + size then ReadCount(f.data, off, f.End()) == None
      else
        && off + 2 + size <= |f.data|
        && var n := if size < 0x100 then Number(f.data, off + 2, size) % 0x1_0000_0000_0000_0000 else 0;
           ReadCount(f.data, off, f.End()) == if n < 0x8000_0000_0000_0000 then Some((n, off + 2 + size)) else None
  {
    hide FitsTogether, SizedInt, Number;
    EndInside(f);
    if off < f.End() && SizeMarked(f.data[off + 1], size) && off + 1 + size <= f.End() {
      WidthRead(f.data, off + 2, f.data[off + 1], size);
    }
    ShiftsAre();
    hide Shift;
  }

  /** A width that does not fit one byte is handed on as 0. */
  lemma WidthRead(data: seq<Byte>, p: nat, b: Byte, size: nat)
    requires SizeMarked(b, size) && p + size <= |data|
    ensures SizedInt(data[p..p + size % 0x100]) == if size < 0x100 then Number(data, p, size) % TWO_64 else 0
  {
    hide SizedInt, Number;
    if size < 0x100 {
      NumberIs(data, p, size);
    } else {
      assert size % 0x100 == 0 && data[p..p] == [];
      NoBytes();
    }
  }

  lemma NoBytes()
    ensures SizedInt([]) == 0
  {
  }

  predicate SizeMarked(b: Byte, size: nat) {
    && 0x10 <= b < 0x20
    && size == [0x1, 0x2, 0x4, 0x8, 0x10, 0x20, 0x40, 0x80,
                0x100, 0x200, 0x400, 0x800, 0x1000, 0x2000, 0x4000, 0x8000][b - 0x10]
  }

  lemma ShiftsAre()
    ensures forall b: Byte :: 0x10 <= b < 0x20 ==> SizeMarked(b, Shift(b % 16))
  {
    ShiftTable();
    assert Shift(5) == 0x20 && Shift(6) == 0x40 && Shift(7) == 0x80 && Shift(8) == 0x100 && Shift(9) == 0x200;
    assert Shift(10) == 0x400 && Shift(11) == 0x800 && Shift(12) == 0x1000 && Shift(13) == 0x2000;
    assert Shift(14) == 0x4000 && Shift(15) == 0x8000;
    hide Shift;
  }

  /** 0x40 to 0x6F: data, strings of one byte and strings of two bytes a character. */
  lemma CountedRead(f: File, off: nat, b: Byte)
    requires Starts(f, off, b) && 0x40 <= b < 0x70
    ensures
      match ReadCount(f.data, off, f.End())
      case None => !f.Parses(off)
      case Some((n, ptr)) =>
        if f.End() + 1 < ptr + (if b < 0x60 then n else 2 * n) then !f.Parses(off)
        else
          && (b < 0x50 ==> Reads(f, off, Data(f.data[ptr..ptr + n])))
          && (0x50 <= b < 0x60 ==> Reads(f, off, Text(f.data[ptr..ptr + n])))
          && (0x60 <= b ==>
                && f.Parses(off) && f.Value(off).Text? && |f.Value(off).units| == n
                && forall i :: 0 <= i < n ==>
                     f.Value(off).units[i] == 0x100 * (f.data[ptr + 2 * i] as int) + f.data[ptr + 2 * i + 1])
  {
    hide File.Parses, File.Value, FitsTogether, ReadCount, File.DecodeInside;
    EndInside(f);
    ReadsWhole(f, off);
    CountedShape(f, off, b);
  }

  lemma CountedShape(f: File, off: nat, b: Byte)
    requires Starts(f, off, b) && 0x40 <= b < 0x70
    ensures f.DecodeInside(off) ==
      match ReadCount(f.data, off, f.End())
      case None => Malformed
      case Some((n, ptr)) =>
        if f.End() + 1 < ptr + (if b < 0x60 then n else 2 * n) then Malformed
        else if b < 0x50 then Whole(Data(f.data[ptr..ptr + n]))
        else if b < 0x60 then Whole(Text(f.data[ptr..ptr + n]))
        else Whole(Text(UnitsOf(f.data[ptr..ptr + 2 * n])))
  {
    hide FitsTogether, ReadCount;
    EndInside(f);
  }

  /** The offset that the `i`th reference from `ptr` on leads to, and how far references reach. */
  function Item(f: File, ptr: nat, i: nat): nat
    requires f.Trusted()
  {
    f.RefTarget(ptr + i * f.trailer.objectRefSize)
  }

  /** A reference is the number of an object, whose offset is that entry of the offset table. */
  lemma ReferenceRead(f: File, pos: nat, k: nat)
    requires f.Trusted() && 8 <= pos && pos + f.trailer.objectRefSize <= f.trailer.offsetTableOffset < |f.data|
    requires k == Number(f.data, pos, f.trailer.objectRefSize) % 0x1_0000_0000_0000_0000 < f.trailer.numObjects
    ensures var t, size := f.trailer, f.trailer.offsetIntSize;
      && t.offsetTableOffset + k * size + size <= |f.data|
      && f.RefTarget(pos) == Number(f.data, t.offsetTableOffset + k * size, size) % 0x1_0000_0000_0000_0000
  {
    hide SizedInt, Number;
    var t := f.trailer;
    EntryBelow(k, t.numObjects, t.offsetIntSize);
    NumberIs(f.data, pos, t.objectRefSize);
    NumberIs(f.data, t.offsetTableOffset + k * t.offsetIntSize, t.offsetIntSize);
  }

  /** One that is the number of no object leads nowhere. */
  lemma BadReference(f: File, pos: nat)
    requires f.Trusted() && 8 <= pos && pos + f.trailer.objectRefSize <= f.trailer.offsetTableOffset < |f.data|
    requires f.trailer.numObjects <= Number(f.data, pos, f.trailer.objectRefSize) % 0x1_0000_0000_0000_0000
    ensures !f.Parses(f.RefTarget(pos))
  {
    hide File.Parses, SizedInt, Number;
    NumberIs(f.data, pos, f.trailer.objectRefSize);
    Outside(f, f.RefTarget(pos));
  }

  /** 0xA0, 0xC0 and 0xD0: arrays, sets and dictionaries. A dictionary has the references of its keys
      first. */
  ghost predicate CollectionStarts(f: File, off: nat, b: Byte, count: nat, ptr: nat) {
    && Starts(f, off, b) && (b / 16 == 10 || b / 16 == 12 || b / 16 == 13)
    && ReadCount(f.data, off, f.End()) == Some((if b / 16 == 13 then count / 2 else count, ptr))
    && (b / 16 == 13 ==> count % 2 == 0)
  }

  /** They must end before the offset table and hold a list of fewer than 2^64 bytes. */
  predicate CollectionFits(f: File, count: nat, ptr: nat) {
    ptr + count * f.trailer.objectRefSize <= f.trailer.offsetTableOffset && count * 8 < 0x1_0000_0000_0000_0000
  }

  lemma CollectionDecoded(f: File, off: nat, b: Byte, count: nat, ptr: nat)
    requires CollectionStarts(f, off, b, count, ptr)
    ensures !CollectionFits(f, count, ptr) ==> f.Decode(off).Malformed?
    ensures CollectionFits(f, count, ptr) ==>
      var kind := if b / 16 == 10 then ArrayKind else if b / 16 == 12 then SetKind else DictKind;
      f.Decode(off) == Refers(kind, ptr, count)
  {
    hide FitsTogether, ReadCount;
    EndInside(f);
  }

  lemma NoCount(f: File, off: nat, b: Byte)
    requires Starts(f, off, b) && (b / 16 == 10 || b / 16 == 12 || b / 16 == 13)
    requires ReadCount(f.data, off, f.End()) == None
    ensures !f.Parses(off)
  {
    hide File.Parses, File.Value, FitsTogether, ReadCount;
    EndInside(f);
    ReadsWhole(f, off);
  }

  /** An array or a set parses exactly when it fits and all its items parse, and holds their values
      in turn. */
  lemma ItemsRead(f: File, off: nat, b: Byte, count: nat, ptr: nat)
    requires CollectionStarts(f, off, b, count, ptr) && b / 16 != 13
    ensures f.Parses(off) <==>
      CollectionFits(f, count, ptr) && forall i :: 0 <= i < count ==> f.Parses(Item(f, ptr, i))
    ensures f.Parses(off) && b / 16 == 10 ==>
      && f.Value(off).Array? && |f.Value(off).items| == count
      && forall i :: 0 <= i < count ==> f.Parses(Item(f, ptr, i)) && f.Value(off).items[i] == f.Value(Item(f, ptr, i))
    ensures f.Parses(off) && b / 16 == 12 ==>
      && f.Value(off).Set? && |f.Value(off).members| == count
      && forall i :: 0 <= i < count ==> f.Parses(Item(f, ptr, i)) && f.Value(off).members[i] == f.Value(Item(f, ptr, i))
  {
    hide File.Decode, File.Parses, File.Value, FitsTogether, ReadCount, File.RefTarget;
    CollectionDecoded(f, off, b, count, ptr);
    if CollectionFits(f, count, ptr) {
      CollectionParses(f, off);
      TargetsAre(f, off, count, ptr);
    } else {
      WholeParses(f, off);
    }
  }

  lemma TargetsAre(f: File, off: nat, count: nat, ptr: nat)
    requires f.Trusted() && f.Decode(off).Refers? && f.Decode(off).first == ptr && f.Decode(off).count == count
    ensures |f.Targets(off)| == count && forall i :: 0 <= i < count ==> f.Targets(off)[i] == Item(f, ptr, i)
  {
    hide File.Decode, File.RefTarget, FitsTogether;
  }

  /** A dictionary parses exactly when it fits, all its keys and values parse, and no key is an array,
      a set or a dictionary; its keys are those of the first half of the references. */
  lemma PairsRead(f: File, off: nat, b: Byte, n: nat, ptr: nat)
    requires CollectionStarts(f, off, b, 2 * n, ptr) && b / 16 == 13
    ensures f.Parses(off) <==>
      && CollectionFits(f, 2 * n, ptr)
      && (forall i :: 0 <= i < 2 * n ==> f.Parses(Item(f, ptr, i)))
      && forall i :: 0 <= i < n ==>
        var key := f.Value(Item(f, ptr, i)); !key.Array? && !key.Set? && !key.Dict?
    ensures f.Parses(off) ==>
      && f.Value(off).Dict? && |f.Value(off).keys| == |f.Value(off).values| == n
      && (forall i :: 0 <= i < n ==> f.Parses(Item(f, ptr, i)) && f.Value(off).keys[i] == f.Value(Item(f, ptr, i)))
      && forall i :: 0 <= i < n ==>
           f.Parses(Item(f, ptr, n + i)) && f.Value(off).values[i] == f.Value(Item(f, ptr, n + i))
  {
    hide File.Decode, File.Parses, File.Value, FitsTogether, ReadCount, File.RefTarget, CollectionFits;
    CollectionDecoded(f, off, b, 2 * n, ptr);
    if CollectionFits(f, 2 * n, ptr) {
      CollectionParses(f, off);
      TargetsAre(f, off, 2 * n, ptr);
      PairsBuilt(f, f.Targets(off), n, ptr);
    } else {
      WholeParses(f, off);
    }
  }

  lemma PairsBuilt(f: File, targets: seq<nat>, n: nat, ptr: nat)
    requires f.Trusted() && |targets| == 2 * n && forall i :: 0 <= i < 2 * n ==> targets[i] == Item(f, ptr, i)
    ensures AllParse(f, targets) <==> forall i :: 0 <= i < 2 * n ==> f.Parses(Item(f, ptr, i))
    ensures AllParse(f, targets) ==>
      (Build(DictKind, ValuesOf(f, targets)).Some? <==>
       forall i :: 0 <= i < n ==> var key := f.Value(Item(f, ptr, i)); !key.Array? && !key.Set? && !key.Dict?)
    ensures AllParse(f, targets) && Build(DictKind, ValuesOf(f, targets)).Some? ==>
      var v := Build(DictKind, ValuesOf(f, targets)).value;
      && v.Dict? && |v.keys| == |v.values| == n
      && (forall i :: 0 <= i < n ==> v.keys[i] == f.Value(Item(f, ptr, i)))
      && forall i :: 0 <= i < n ==> v.values[i] == f.Value(Item(f, ptr, n + i))
  {
    hide File.Parses, File.Value, File.RefTarget, FitsTogether, Item;
    assert (forall i :: 0 <= i < 2 * n ==> f.Parses(targets[i])) <==>
      forall i :: 0 <= i < 2 * n ==> f.Parses(Item(f, ptr, i));
    if AllParse(f, targets) {
      var list := ValuesOf(f, targets);
      assert forall i :: 0 <= i < 2 * n ==> list[i] == f.Value(Item(f, ptr, i));
    }
  }

  /** A collection one of whose references is the number of no object does not parse. */
  lemma BadReferenceRefused(f: File, off: nat, b: Byte, count: nat, ptr: nat, i: nat)
    requires CollectionStarts(f, off, b, count, ptr) && CollectionFits(f, count, ptr) && i < count
    requires var pos, size := ptr + i * f.trailer.objectRefSize, f.trailer.objectRefSize;
      pos + size <= |f.data| && f.trailer.numObjects <= Number(f.data, pos, size) % 0x1_0000_0000_0000_0000
    ensures !f.Parses(off)
  {
    hide File.Decode, File.Parses, File.Value, FitsTogether, ReadCount, File.RefTarget, Number;
    EndInside(f);
    EntryBelow(i, count, f.trailer.objectRefSize);
    BadReference(f, ptr + i * f.trailer.objectRefSize);
    assert !f.Parses(Item(f, ptr, i));
    if b / 16 == 13 {
      PairsRead(f, off, b, count / 2, ptr);
    } else {
      ItemsRead(f, off, b, count, ptr);
    }
  }

  /** What the checks accept, in bytes from both ends of a file: letters, counts and widths, an offset
      table that lies between the objects and the trailer, wide enough entries and references, every
      entry before the table, and the top object behind the header. */
  lemma AcceptedMeans(data: seq<Byte>)
    requires |data| < 0x1_0000_0000_0000_0000
    ensures Accepted(data) <==>
      && |data| >= 41 && data[..7] == [0x62, 0x70, 0x6C, 0x69, 0x73, 0x74, 0x30]
      && var n := |data|;
         var intSize, refSize := data[n - 26] as nat, data[n - 25] as nat;
         var objects, top, table := Number(data, n - 24, 8), Number(data, n - 16, 8), Number(data, n - 8, 8);
         && 1 <= objects < 0x8000_0000_0000_0000 && top < objects && 9 <= table < 0x8000_0000_0000_0000
         && 1 <= intSize && 1 <= refSize && n == table + objects * intSize + 32
         && (refSize >= 8 || objects < Pow256(refSize)) && (intSize >= 8 || table < Pow256(intSize))
         && (forall k :: 0 <= k < objects ==> EntryOf(data, table, intSize, k) < table)
         && 8 <= EntryOf(data, table, intSize, top)
  {
    hide Pow256, SizedInt, Number;
    if |data| >= 41 {
      TrailerRead(data);
      var t := ReadTrailer(data);
      if FitsTogether(data, t) {
        forall k | 0 <= k < t.numObjects
          ensures OffsetAt(data, t, k) == EntryOf(data, t.offsetTableOffset, t.offsetIntSize, k)
        {
          EntryBelow(k, t.numObjects, t.offsetIntSize);
          NumberIs(data, t.offsetTableOffset + k * t.offsetIntSize, t.offsetIntSize);
        }
      }
    }
  }

  /** Entry `k` of the offset table, of which the last eight bytes count. */
  function EntryOf(data: seq<Byte>, table: nat, intSize: nat, k: nat): nat {
    if table + k * intSize + intSize <= |data| then Number(data, table + k * intSize, intSize) % 0x1_0000_0000_0000_0000
    else 0
  }

  lemma TrailerRead(data: seq<Byte>)
    requires |data| >= 41
    ensures var n := |data|;
      ReadTrailer(data) == Trailer(data[n - 26] as nat, data[n - 25] as nat, Number(data, n - 24, 8),
                                   Number(data, n - 16, 8), Number(data, n - 8, 8))
  {
    hide SizedInt, Number;
    var n := |data|;
    var t := data[n - 32..];
    assert t[8..16] == data[n - 24..n - 16] && t[16..24] == data[n - 16..n - 8] && t[24..32] == data[n - 8..n];
    NumberIs(data, n - 24, 8);
    NumberIs(data, n - 16, 8);
    NumberIs(data, n - 8, 8);
  }

  /** In an accepted file every object has a number that its references can hold. */
  lemma ReferencesReach(data: seq<Byte>, k: nat)
    requires Accepted(data) && |data| < 0x1_0000_0000_0000_0000 && k < ReadTrailer(data).numObjects
    ensures BigEndian(Bytes(k, ReadTrailer(data).objectRefSize)) == k
  {
    hide BigEndian, Bytes, Pow256;
    var size := ReadTrailer(data).objectRefSize;
    PowTable();
    if 8 <= size { PowMonotone(8, size); }
    BytesRoundTrip(k, size);
  }
}
