/** The format in literal bytes: what each kind of object is written as, wherever it lies in a file. */
module PlistLiterals {
  import opened Prelude
  import opened SizedInts
  import opened PlistModel
  import opened PlistFlatten
  import opened PlistFormat
  import opened PlistTrailer
  import opened PlistDecode
  import opened PlistReadBack
  import opened PlistReader
  import opened PlistRoundTrip

  /** The first byte is the most significant. */
  lemma BigEndianOfTwo(a: Byte, b: Byte)
    ensures BigEndian([a]) == a && BigEndian([a, b]) == 0x100 * a + b
  {
    assert [a][..0] == [] && [a, b][..1] == [a] && BigEndian([]) == 0;
  }

  lemma ByteStep(n: nat, width: nat)
    ensures Bytes(n, width + 1) == Bytes(n / 0x100, width) + [n % 0x100] && Bytes(n, 0) == []
  {
  }

  lemma SmallByte(n: nat)
    requires n < 0x100
    ensures Bytes(n, 1) == [n]
  {
    hide Bytes;
    ByteStep(n, 0);
    ByteStep(n / 0x100, 0);
  }

  lemma ShortBytes(n: nat)
    requires n < 0x1_0000
    ensures n < 0x100 ==> Bytes(n, 1) == [n]
    ensures Bytes(n, 2) == [n / 0x100, n % 0x100]
  {
    hide Bytes;
    var high := n / 0x100;
    assert high < 0x100;
    SmallByte(high);
    ByteStep(n, 1);
    if n < 0x100 { SmallByte(n); }
  }

  /** Integers: up to four bytes without a sign, otherwise eight, or sixteen. */
  lemma IntLiterals(v: Plist)
    requires Writable(v)
    ensures v.Int? ==>
      var b, n := LeafBytes(v), v.number;
      if 0 <= n < 0x100 then b == [0x10, n]
      else if 0 <= n < 0x1_0000 then b == [0x11, n / 0x100, n % 0x100]
      else if 0 <= n < 0x1_0000_0000 then |b| == 5 && b[0] == 0x12 && BigEndian(b[1..]) == n
      else |b| == 9 && b[0] == 0x13 && BigEndian(b[1..]) == if n < 0 then n + 0x1_0000_0000_0000_0000 else n
    ensures v.BigInt? ==>
      var b := LeafBytes(v);
      && |b| == 17 && b[0] == 0x14 && BigEndian(b[9..]) == v.low
      && BigEndian(b[1..9]) == if v.high < 0 then v.high + 0x1_0000_0000_0000_0000 else v.high
  {
    hide Bytes, BigEndian, Pow256;
    PowTable();
    if v.Int? {
      var n := Unsigned(v.number);
      if n < 0x1_0000 { ShortBytes(n); }
      if n < TWO_32 { BytesRoundTrip(n, 4); }
      BytesRoundTrip(n, 8);
    }
    if v.BigInt? {
      var high, low := Bytes(Unsigned(v.high), 8), Bytes(v.low, 8);
      BytesRoundTrip(Unsigned(v.high), 8);
      BytesRoundTrip(v.low, 8);
      assert LeafBytes(v)[1..9] == high && LeafBytes(v)[9..] == low;
    }
  }

  /** Booleans, reals, dates and UIDs. */
  lemma FixedLiterals(v: Plist)
    requires Writable(v)
    ensures v == Bool(true) ==> LeafBytes(v) == [0x09]
    ensures v == Bool(false) ==> LeafBytes(v) == [0x08]
    ensures v.Real32? ==> var b := LeafBytes(v); |b| == 5 && b[0] == 0x22 && BigEndian(b[1..]) == v.single
    ensures v.Real64? ==> var b := LeafBytes(v); |b| == 9 && b[0] == 0x23 && BigEndian(b[1..]) == v.double
    ensures v.Date? ==> var b := LeafBytes(v); |b| == 9 && b[0] == 0x33 && BigEndian(b[1..]) == v.time
    ensures v.Uid? ==>
      var b, n := LeafBytes(v), v.uid;
      if n < 0x100 then b == [0x80, n]
      else if n < 0x1_0000 then b == [0x81, n / 0x100, n % 0x100]
      else |b| == 5 && b[0] == 0x83 && BigEndian(b[1..]) == n
  {
    hide Bytes, BigEndian, Pow256;
    PowTable();
    if v.Real32? { BytesRoundTrip(v.single, 4); }
    if v.Real64? { BytesRoundTrip(v.double, 8); }
    if v.Date? { BytesRoundTrip(v.time, 8); }
    if v.Uid? {
      if v.uid < 0x1_0000 { ShortBytes(v.uid); }
      BytesRoundTrip(v.uid, 4);
    }
  }

  /** The header of a counted object: the count in the marker, or 15 there and an integer object
      after it. */
  function Counted(marker: Byte, n: nat): seq<Byte>
    requires marker <= 0xF0 && n < TWO_63
  {
    if n < 15 then [marker + n] else [marker + 15] + LeafBytes(Int(n))
  }

  /** Data and strings. */
  lemma CountedLiterals(v: Plist)
    requires Writable(v)
    ensures v.Data? ==> LeafBytes(v) == Counted(0x40, |v.bytes|) + v.bytes
    ensures v.Text? && (forall i :: 0 <= i < |v.units| ==> v.units[i] < 0x80) ==>
      LeafBytes(v) == Counted(0x50, |v.units|) + v.units
    ensures v.Text? && !(forall i :: 0 <= i < |v.units| ==> v.units[i] < 0x80) ==>
      var h, b := Counted(0x60, |v.units|), LeafBytes(v);
      && |b| == |h| + 2 * |v.units| && b[..|h|] == h
      && forall i :: 0 <= i < |v.units| ==> 0x100 * (b[|h| + 2 * i] as int) + b[|h| + 2 * i + 1] == v.units[i]
  {
    hide Counted, CountHeader, UnitBytes, AsciiBytes;
    if v.Data? { CountedIs(0x40, |v.bytes|); }
    if v.Text? {
      CountedIs(0x50, |v.units|);
      CountedIs(0x60, |v.units|);
      UnitsReadBack(v.units);
      WideBytes(Counted(0x60, |v.units|), v.units);
    }
  }

  lemma CountedIs(marker: Byte, n: nat)
    requires marker <= 0xF0 && n < TWO_63
    ensures Counted(marker, n) == CountHeader(marker, n)
  {
    hide IntBytes;
  }

  lemma WideBytes(h: seq<Byte>, units: seq<Unit>)
    ensures var b := h + UnitBytes(units);
      && |b| == |h| + 2 * |units| && b[..|h|] == h
      && forall i :: 0 <= i < |units| ==> 0x100 * (b[|h| + 2 * i] as int) + b[|h| + 2 * i + 1] == units[i]
  {
    hide UnitBytes;
    var b := h + UnitBytes(units);
    forall i | 0 <= i < |units|
      ensures b[|h| + 2 * i] == units[i] / 0x100 && b[|h| + 2 * i + 1] == units[i] % 0x100
    {
      UnitAt(units, i);
    }
  }

  /** Arrays: the numbers of the items, each in as many bytes as references have. */
  lemma ArrayLiterals(items: seq<nat>, table: map<nat, nat>, size: nat)
    requires |items| < TWO_63 && AllNumbered(items, table, size)
    ensures NumbersAfter(ObjectBytes(ArrayNode(items), table, size), Counted(0xA0, |items|), items, table, size)
  {
    NumbersRefs(Counted(0xA0, |items|), items, table, size);
  }

  /** Dictionaries: the numbers of the keys, and then of the values. */
  lemma DictLiterals(keys: seq<nat>, values: seq<nat>, table: map<nat, nat>, size: nat)
    requires |keys| == |values| < TWO_63 && AllNumbered(keys, table, size) && AllNumbered(values, table, size)
    ensures NumbersAfter(ObjectBytes(DictNode(keys, values), table, size), Counted(0xD0, |keys|), keys + values,
                         table, size)
  {
    BothNumbered(keys, values, table, size);
    NumbersRefs(Counted(0xD0, |keys|), keys + values, table, size);
  }

  lemma BothNumbered(a: seq<nat>, b: seq<nat>, table: map<nat, nat>, size: nat)
    requires AllNumbered(a, table, size) && AllNumbered(b, table, size)
    ensures AllNumbered(a + b, table, size)
  {
    hide Pow256;
  }

  /** Every object has a number that fits a reference. */
  ghost predicate AllNumbered(ids: seq<nat>, table: map<nat, nat>, size: nat) {
    forall k :: 0 <= k < |ids| ==> ids[k] in table && table[ids[k]] < Pow256(size)
  }

  /** The number in `size` bytes from `p` on, the most significant first. */
  ghost predicate NumberAt(b: seq<Byte>, p: int, size: nat, n: nat) {
    0 <= p <= p + size <= |b| && BigEndian(b[p..p + size]) == n
  }

  /** After a header come the numbers of the objects, each in `size` bytes, and nothing else. */
  ghost predicate NumbersAfter(b: seq<Byte>, header: seq<Byte>, ids: seq<nat>, table: map<nat, nat>, size: nat) {
    && |b| == |header| + |ids| * size && b[..|header|] == header
    && forall k :: 0 <= k < |ids| ==>
      ids[k] in table && NumberAt(b, |header| + k * size, size, table[ids[k]])
  }

  lemma NumbersRefs(h: seq<Byte>, ids: seq<nat>, table: map<nat, nat>, size: nat)
    requires AllNumbered(ids, table, size)
    ensures NumbersAfter(h + Refs(ids, |ids|, table, size), h, ids, table, size)
  {
    hide Refs, NumberAt, Pow256;
    forall k | 0 <= k < |ids|
      ensures NumberAt(h + Refs(ids, |ids|, table, size), |h| + k * size, size, table[ids[k]])
    {
      RefLiteral(h, ids, table, size, k);
    }
  }

  lemma RefLiteral(h: seq<Byte>, ids: seq<nat>, table: map<nat, nat>, size: nat, k: nat)
    requires k < |ids| && AllNumbered(ids, table, size)
    ensures NumberAt(h + Refs(ids, |ids|, table, size), |h| + k * size, size, table[ids[k]])
  {
    hide Bytes, BigEndian, Refs, Pow256;
    var refs := Refs(ids, |ids|, table, size);
    var lo: nat := k * size;
    RefsEntry(ids, |ids|, table, size, k, lo);
    BytesRoundTrip(table[ids[k]], size);
    assert (h + refs)[|h| + lo..|h| + lo + size] == refs[lo..lo + size];
  }

  /** In a file the writer makes, the bytes of every listed object are at its place; a boolean there
      is one byte, 0x09 for true and 0x08 for false. */
  lemma WrittenAt(layout: Layout, g: Graph, root: nat, id: nat)
    requires Written(layout, g, root) && id in layout.st.objtable
    ensures id < |g| && CanAppend(g[id]) && layout.st.objtable[id] < layout.Count()
    ensures At(layout.File(), Place(layout, id), ObjectBytes(g[id], layout.st.objtable, layout.refSize))
    ensures Place(layout, id) < |layout.File()|
    ensures g[id] == Leaf(Bool(true)) ==> layout.File()[Place(layout, id)] == 0x09
    ensures g[id] == Leaf(Bool(false)) ==> layout.File()[Place(layout, id)] == 0x08
  {
    hide Layout.File, Layout.TableOffset, Layout.Body, Layout.Object, Written, LayoutOf, LeafBytes;
    Numbering(layout, g, root, id);
    var i := layout.st.objtable[id];
    BodyBytes(layout, i);
    NumberedNonEmpty(layout, g, root, id);
    AtByte(layout.File(), Place(layout, id), layout.Object(i));
    if g[id].Leaf? { FixedLiterals(g[id].value); }
  }

  lemma NumberedNonEmpty(layout: Layout, g: Graph, root: nat, id: nat)
    requires Written(layout, g, root) && id in layout.st.objtable && layout.st.objtable[id] < layout.Count()
    ensures layout.Object(layout.st.objtable[id]) != []
  {
    hide Layout.Object, Layout.CanAppendAt, Layout.File;
    ObjectNonEmpty(layout, layout.st.objtable[id]);
  }

  /** The ends of a file the writer makes: the letters bplist00, and, from the last byte backwards,
      the place of the offset table, the number of the top object, the number of objects, and the
      widths of references and offsets. */
  lemma EndLiterals(layout: Layout, g: Graph, root: nat)
    requires Written(layout, g, root)
    ensures var b, n := layout.File(), |layout.File()|;
      && n >= 40 && b[..8] == [0x62, 0x70, 0x6C, 0x69, 0x73, 0x74, 0x30, 0x30]
      && NumberAt(b, n - 8, 8, layout.TableOffset()) && NumberAt(b, n - 16, 8, 0)
      && NumberAt(b, n - 24, 8, layout.Count())
      && b[n - 25] == layout.refSize && b[n - 26] == Width(layout.TableOffset())
      && forall i :: n - 32 <= i < n - 26 ==> b[i] == 0
  {
    hide Layout.File, Layout.TableOffset, Layout.Body, Written, LayoutOf, Bytes, BigEndian, Pow256, Width;
    WrittenFits(layout, g, root);
    WrittenSizes(layout, g, root);
    HeaderFirst(layout);
    TrailerBytes(layout);
    PowTable();
    BytesRoundTrip(layout.Count(), 8);
    BytesRoundTrip(0, 8);
    BytesRoundTrip(layout.TableOffset(), 8);
    var b, n := layout.File(), |layout.File()|;
    var t := b[n - 32..];
    assert t == layout.Trailer();
    assert b[n - 8..n] == t[24..] == Bytes(layout.TableOffset(), 8);
    assert b[n - 16..n - 8] == t[16..24] == Bytes(0, 8);
    assert b[n - 24..n - 16] == t[8..16] == Bytes(layout.Count(), 8);
    forall i | n - 32 <= i < n
      ensures b[i] == t[i - (n - 32)]
    {
    }
  }
}
