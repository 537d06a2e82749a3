/** Files on which the quick lookup and parsing disagree: the writer's own, whose last object is
    the key sought, and files with a short key stored with a separate count. */
module PlistLookupLimits {
  import opened Prelude
  import opened SizedInts
  import opened PlistModel
  import opened PlistFlatten
  import opened PlistFormat
  import opened PlistTrailer
  import opened PlistDecode
  import opened PlistReadBack
  import opened PlistReader
  import opened PlistLookup
  import opened PlistRoundTrip
  import PlistWriter

  /** In a file the writer makes, the comparison refuses exactly the string that is listed last, for
      keys of its length. */
  lemma LastTouchesTable(layout: Layout, g: Graph, root: nat, id: nat, key: seq<Unit>)
    requires Written(layout, g, root) && id in layout.st.objtable && id < |g|
    requires g[id].Leaf? && g[id].value.Text? && IsAscii(g[id].value.units)
    ensures layout.st.objtable[id] < layout.Count() && FileOf(layout.File()).Trusted()
    ensures var f, off := FileOf(layout.File()), Place(layout, id);
      && 8 <= off <= f.End() && Quick(f, off, true)
      && (LongForm(f, off, key, true) <==> 15 <= |g[id].value.units| && |key| < 15)
      && (TouchesTable(f, off, key, true) <==>
            |key| == |g[id].value.units| && layout.st.objtable[id] == layout.Count() - 1)
  {
    hide Layout.File, Layout.TableOffset, Layout.Body, Layout.Object, FitsTogether, ReadTrailer, ReadCount, CountHeader,
      At, Acyclic, LayoutOf, AsciiBytes, IsAscii;
    Numbering(layout, g, root, id);
    WrittenFits(layout, g, root);
    var i, units := layout.st.objtable[id], g[id].value.units;
    BodyBytes(layout, i);
    BodyAfterHeader(layout, i);
    LastObject(layout, i);
    var f, off, header := FileOf(layout.File()), Place(layout, id), CountHeader(MARKER_ASCII, |units|);
    EndInside(f);
    assert layout.Object(i) == header + AsciiBytes(units);
    AtSplit(f.data, off, header, AsciiBytes(units));
    ReadsCountHeader(f.data, off, f.End(), MARKER_ASCII, |units|);
    AsciiMarker(f.data, off, |units|);
  }

  lemma AsciiMarker(data: seq<Byte>, off: nat, n: Word)
    requires At(data, off, CountHeader(MARKER_ASCII, n))
    ensures off < |data| && data[off] / 16 == 5 && (data[off] % 16 == 15 <==> 15 <= n)
  {
    hide IntBytes;
    AtByte(data, off, CountHeader(MARKER_ASCII, n));
  }

  /** Only the last object ends at the offset table. */
  lemma LastObject(layout: Layout, i: nat)
    requires layout.Valid() && i < layout.Count()
    ensures |layout.Body(i)| + |layout.Object(i)| == layout.TableOffset() <==> i == layout.Count() - 1
  {
    hide Layout.Object, Layout.CanAppendAt;
    assert layout.Body(i + 1) == layout.Body(i) + layout.Object(i);
    if i + 1 < layout.Count() {
      PlistWriter.BodyGrows(layout, i + 2, layout.Count());
      assert layout.Body(i + 2) == layout.Body(i + 1) + layout.Object(i + 1);
      ObjectNonEmpty(layout, i + 1);
    }
  }

  /** The object is a string of ASCII characters, as many as the key has, and the last of the file. */
  ghost predicate LastString(layout: Layout, g: Graph, id: nat, key: seq<Unit>) {
    && id < |g| && g[id].Leaf? && g[id].value.Text? && IsAscii(g[id].value.units) && |g[id].value.units| == |key|
    && id in layout.st.objtable && layout.st.objtable[id] == layout.Count() - 1
  }

  /** Which objects of a file the writer makes the comparison refuses or passes over. */
  lemma KeyCompared(layout: Layout, g: Graph, root: nat, id: nat, key: seq<Unit>)
    requires Written(layout, g, root) && id in layout.st.objtable && id < |g|
    ensures layout.st.objtable[id] < layout.Count() && FileOf(layout.File()).Trusted()
    ensures var f, off := FileOf(layout.File()), Place(layout, id);
      && 8 <= off <= f.End()
      && (TouchesTable(f, off, key, true) <==> LastString(layout, g, id, key))
      && (LongForm(f, off, key, true) ==> g[id] != Leaf(Text(key)))
  {
    hide Layout.File, FitsTogether, ReadTrailer, ReadCount, LayoutOf, IsAscii, Written, Place, Layout.Valid, Marker;
    if g[id].Leaf? && g[id].value.Text? && IsAscii(g[id].value.units) {
      LastTouchesTable(layout, g, root, id, key);
    } else {
      NotAsciiString(layout, g, root, id);
    }
  }

  /** Only a string reads back as one. */
  lemma StringReadBack(g: Graph, id: nat, key: seq<Unit>)
    requires Acyclic(g) && id < |g| && ReadBack(g, id) == Some(Text(key))
    ensures g[id] == Leaf(Text(key))
  {
  }

  /** No other object is marked as a string of ASCII characters. */
  lemma NotAsciiString(layout: Layout, g: Graph, root: nat, id: nat)
    requires Written(layout, g, root) && id in layout.st.objtable && id < |g|
    requires !(g[id].Leaf? && g[id].value.Text? && IsAscii(g[id].value.units))
    ensures layout.st.objtable[id] < layout.Count() && FileOf(layout.File()).Trusted()
    ensures var f, off := FileOf(layout.File()), Place(layout, id);
      8 <= off <= f.End() && Marker(f, off) / 16 != 5
  {
    hide Layout.File, Layout.TableOffset, Layout.Body, Layout.Object, FitsTogether, ReadTrailer, At, Acyclic, LayoutOf,
      ObjectBytes;
    Numbering(layout, g, root, id);
    WrittenFits(layout, g, root);
    var i := layout.st.objtable[id];
    BodyBytes(layout, i);
    BodyAfterHeader(layout, i);
    ObjectNonEmpty(layout, i);
    EndInside(FileOf(layout.File()));
    FirstMarker(g[id], layout.st.objtable, layout.refSize);
    AtByte(layout.File(), |layout.Body(i)|, layout.Object(i));
  }

  /** The high four bits of the first byte of an object. */
  lemma FirstMarker(node: Node, table: map<nat, nat>, size: nat)
    requires CanAppend(node) && !(node.Leaf? && node.value.Text? && IsAscii(node.value.units))
    ensures ObjectBytes(node, table, size) != [] && ObjectBytes(node, table, size)[0] / 16 != 5
  {
    hide Bytes, Refs, IsAscii;
  }

  /** Looking a string of ASCII characters up in a dictionary of a file the writer makes finds what
      parsing the dictionary and looking it up finds, exactly when neither the key it has there nor
      one before it is a string of that length which is the last object of the file. */
  lemma WrittenAgrees(layout: Layout, g: Graph, root: nat, id: nat, key: seq<Unit>)
    requires Written(layout, g, root) && id in layout.st.objtable && id < |g| && g[id].DictNode?
    requires Acyclic(g) && ReadBack(g, id).Some? && IsAscii(key)
    ensures layout.st.objtable[id] < layout.Count()
    ensures var f, off := FileOf(layout.File()), Place(layout, id);
      && ParsedDict(f, off) && Searchable(f, off) && Header(f, off).Some? && Some(f.Value(off)) == ReadBack(g, id)
      && f.Value(off).Dict? && |f.Value(off).keys| == Pairs(f, off) == |g[id].keys|
      && var full := FirstKey(f.Value(off).keys, key, 0);
         QuickKey(f, off, key, true) == full <==>
           (full.Some? ==> forall i :: 0 <= i <= full.value ==> !LastString(layout, g, g[id].keys[i], key))
  {
    hide Layout.File, Layout.TableOffset, Layout.Body, Layout.Object, FitsTogether, ReadTrailer, Acyclic, LayoutOf,
      Layout.Valid, File.Parses, File.Value, File.Decode, File.Targets, Place, Header, Pairs, RefOf, TouchesTable,
      LongForm, LastString, QuickKey, FirstKey, ReadBack, Written, At;
    WrittenFits(layout, g, root);
    ObjectAgrees(layout, g, root, id);
    CollectionDecodes(layout, g, root, id);
    var f, off := FileOf(layout.File()), Place(layout, id);
    QuickAgrees(f, off, key, true);
    HeaderOfDict(f, off);
    DictParsed(f, off);
    ChildrenHalves(layout, g, root, id);
    var full := FirstKey(f.Value(off).keys, key, 0);
    forall i | 0 <= i < |g[id].keys|
      ensures TouchesTable(f, RefOf(f, off, i), key, true) <==> LastString(layout, g, g[id].keys[i], key)
      ensures f.Value(off).keys[i] == Text(key) ==> !LongForm(f, RefOf(f, off, i), key, true)
    {
      TargetsReadBack(layout, g, root, id, i);
      assert g[id].Children()[i] == g[id].keys[i];
      PairParsed(f, off, i);
      ChildReadBack(g, id, i);
      KeyCompared(layout, g, root, g[id].keys[i], key);
      ObjectAgrees(layout, g, root, g[id].keys[i]);
      if f.Value(off).keys[i] == Text(key) { StringReadBack(g, g[id].keys[i], key); }
    }
  }

  lemma ChildrenHalves(layout: Layout, g: Graph, root: nat, id: nat)
    requires Written(layout, g, root) && id < |g| && g[id].DictNode?
    ensures |g[id].Children()| == 2 * |g[id].keys|
  {
  }

  lemma ChildReadBack(g: Graph, id: nat, k: nat)
    requires Acyclic(g) && id < |g| && !g[id].Leaf? && k < |g[id].Children()| && ReadBack(g, id).Some?
    ensures g[id].Children()[k] < |g| && ReadBack(g, g[id].Children()[k]).Some?
  {
    assert AllBelow(g[id].Children(), id);
  }

  /** A dictionary with one key, which is its own value. */
  function OneKey(key: seq<Unit>): Graph {
    [Leaf(Text(key)), DictNode([0], [0])]
  }

  lemma OneKeyFlat(key: seq<Unit>)
    ensures Acyclic(OneKey(key))
    ensures LayoutOf(OneKey(key), 1) == Layout(OneKey(key), State([1, 0], map[1 := 0, 0 := 1], {0}), 1)
  {
    var g := OneKey(key);
    assert g[1].Children() == [0, 0] && g[0].Children() == [];
    var st1 := Add(g, 1, EMPTY);
    assert st1 == State([1], map[1 := 0], {});
    var st := Add(g, 0, st1);
    assert st == State([1, 0], map[1 := 0, 0 := 1], {0});
    assert Flatten(g, 0, st1) == FlattenFirst(g, 0, 0, st) == st;
    assert Flatten(g, 0, st) == st;
    assert FlattenFirst(g, 1, 1, st1) == Flatten(g, 0, FlattenFirst(g, 1, 0, st1)) == st;
    assert FlattenFirst(g, 1, 2, st1) == Flatten(g, 0, FlattenFirst(g, 1, 1, st1)) == st;
    assert Flatten(g, 1, EMPTY) == st;
  }

  /** Such a dictionary can be written, whatever the key is, if there is room for it. */
  lemma OneKeyWritten(key: seq<Unit>)
    requires |key| < TWO_63 / 4
    ensures Acyclic(OneKey(key)) && Written(LayoutOf(OneKey(key), 1), OneKey(key), 1)
  {
    var g := OneKey(key);
    OneKeyFlat(key);
    var layout := LayoutOf(g, 1);
    assert layout.CanAppendAt(0) && layout.CanAppendAt(1) && layout.Count() == 2;
    SmallObjects(layout, key);
    hide Layout.Object, Layout.CanAppendAt, Layout.OffsetTable;
    assert layout.Body(1) == layout.Body(0) + layout.Object(0);
    assert layout.Body(2) == layout.Body(1) + layout.Object(1);
  }

  lemma SmallObjects(layout: Layout, key: seq<Unit>)
    requires |key| < TWO_63 / 4
    requires layout == Layout(OneKey(key), State([1, 0], map[1 := 0, 0 := 1], {0}), 1)
    ensures |layout.Object(0)| + |layout.Object(1)| <= 20 + 2 * |key|
  {
    hide Bytes, Width, WidthLog, IsAscii, Refs;
    assert |IntBytes(|key|)| <= 9 by { assert |Bytes(|key|, Width(|key|))| <= 8 by { WidthIsLeast(|key|, 8); } }
  }

  /** The writer's own file: a dictionary whose one key is a string of ASCII characters. Parsed, it
      has the key; the quick lookup does not find it. */
  lemma OwnKeyLost(key: seq<Unit>)
    requires IsAscii(key) && |key| < TWO_63 / 4
    ensures var g := OneKey(key);
      && PlistWriter.CanWrite(g, 1) && LayoutOf(g, 1).Valid() && Accepted(LayoutOf(g, 1).File())
      && var f := FileOf(LayoutOf(g, 1).File());
         f.Trusted() && var top := TopOffset(f);
         && ParsedDict(f, top) && Searchable(f, top) && f.Value(top) == Dict([Text(key)], [Text(key)])
         && FirstKey([Text(key)], key, 0) == Some(0) && QuickKey(f, top, key, true) == None
  {
    hide Layout.File, Layout.Body, Layout.Object, ReadTrailer, FitsTogether, IsAscii, Layout.Valid,
      File.Parses, File.Value, QuickKey, Searchable, Header, Pairs, Accepted, PlistWriter.CanWrite;
    var g := OneKey(key);
    OneKeyFlat(key);
    OneKeyWritten(key);
    var layout := LayoutOf(g, 1);
    WrittenAccepted(layout, g, 1);
    OneKeyReadBack(key);
    WrittenAgrees(layout, g, 1, 1, key);
    WrittenFits(layout, g, 1);
    var f := FileOf(layout.File());
    assert Place(layout, 1) == TopOffset(f);
    assert LastString(layout, g, 0, key) && g[1].keys[0] == 0;
    var full := FirstKey([Text(key)], key, 0);
    assert full == Some(0);
    assert QuickKey(f, TopOffset(f), key, true) != full;
    QuickIsFirst(f, TopOffset(f), key);
  }

  lemma OneKeyReadBack(key: seq<Unit>)
    requires Acyclic(OneKey(key))
    ensures ReadBack(OneKey(key), 1) == Some(Dict([Text(key)], [Text(key)]))
  {
    var g := OneKey(key);
    assert g[1].Children() == [0, 0] && AllBelow(g[1].Children(), |g|);
    assert ReadBack(g, 0) == Some(Text(key));
    var list := [Text(key), Text(key)];
    CollectionReadBack(g, 1, list);
    assert list[..1] == [Text(key)] && list[1..] == [Text(key)];
  }

  /** With one pair there is only one to find. */
  lemma QuickIsFirst(f: File, off: nat, key: seq<Unit>)
    requires Searchable(f, off) && Pairs(f, off) == 1
    ensures QuickKey(f, off, key, true) == None || QuickKey(f, off, key, true) == Some(0)
  {
  }

  /** A file with a short key whose count is stored separately, and then a dictionary of that key. */
  function LongFormFile(key: seq<Byte>): (data: seq<Byte>)
    requires |key| < 15
  {
    HEADER + ([0x5F, 0x10, |key|] + key + [0xD1, 1, 1]) + [11 + |key|, 8]
      + ([0, 0, 0, 0, 0, 0, 1, 1] + Bytes(2, 8) + Bytes(0, 8) + Bytes(14 + |key|, 8))
  }

  lemma LongFormTrailer(key: seq<Byte>)
    requires |key| < 15
    ensures |LongFormFile(key)| == 48 + |key|
    ensures ReadTrailer(LongFormFile(key)) == Trailer(1, 1, 2, 0, 14 + |key|)
  {
    hide Bytes, SizedInt;
    var data := LongFormFile(key);
    var t := data[|data| - TRAILER_SIZE..];
    assert t == [0, 0, 0, 0, 0, 0, 1, 1] + Bytes(2, 8) + Bytes(0, 8) + Bytes(14 + |key|, 8);
    assert t[8..16] == Bytes(2, 8) && t[16..24] == Bytes(0, 8) && t[24..32] == Bytes(14 + |key|, 8);
    PowTable();
    SizedIntOfBytes(2, 8);
    SizedIntOfBytes(0, 8);
    SizedIntOfBytes(14 + |key|, 8);
  }

  lemma LongFormBytes(key: seq<Byte>)
    requires |key| < 15
    ensures var data, n := LongFormFile(key), |key|;
      && |data| == 48 + n && data[..8] == HEADER
      && data[8] == 0x5F && data[9] == 0x10 && data[10] == n && data[11..11 + n] == key
      && data[11 + n] == 0xD1 && data[12 + n] == 1 && data[13 + n] == 1
      && data[14 + n] == 11 + n && data[15 + n] == 8
  {
    hide Bytes;
  }

  lemma ByteRead(data: seq<Byte>, i: nat)
    requires i < |data|
    ensures SizedInt(data[i..i + 1]) == data[i]
  {
    OneByte(data, i);
  }

  /** The file is accepted, and its references lead to the string. */
  lemma LongFormAccepted(key: seq<Byte>)
    requires |key| < 15
    ensures var data, n := LongFormFile(key), |key|;
      && |data| == 48 + n && Accepted(data) && FileOf(data).Trusted()
      && var f := FileOf(data);
         && f.End() == 13 + n && TopOffset(f) == 11 + n && f.trailer.objectRefSize == 1
         && f.RefTarget(12 + n) == 8 && f.RefTarget(13 + n) == 8
  {
    hide LongFormFile, SizedInt, Pow256;
    var data, n := LongFormFile(key), |key|;
    LongFormBytes(key);
    LongFormTrailer(key);
    ByteRead(data, 12 + n);
    ByteRead(data, 13 + n);
    ByteRead(data, 14 + n);
    ByteRead(data, 15 + n);
    PowTable();
    var t := ReadTrailer(data);
    assert FitsTogether(data, t);
    assert data[..7] == data[..8][..7];
    assert EntryAt(data, t, 0) == 14 + n && EntryAt(data, t, 1) == 15 + n;
    assert OffsetAt(data, t, 0) == 11 + n && OffsetAt(data, t, 1) == 8;
  }

  lemma LongFormString(key: seq<Byte>)
    requires |key| < 15 && FileOf(LongFormFile(key)).Trusted() && FileOf(LongFormFile(key)).End() == 13 + |key|
    ensures FileOf(LongFormFile(key)).Decode(8) == Whole(Text(key))
  {
    hide LongFormFile, SizedInt, FitsTogether, ReadTrailer;
    var data := LongFormFile(key);
    LongFormBytes(key);
    ByteRead(data, 10);
    assert Shift(0) == 1;
    assert ReadInt(data, 9, 13 + |key|) == Some((|key|, 11));
    assert ReadCount(data, 8, 13 + |key|) == Some((|key|, 11));
  }

  lemma LongFormDict(key: seq<Byte>)
    requires |key| < 15 && FileOf(LongFormFile(key)).Trusted() && FileOf(LongFormFile(key)).End() == 13 + |key|
    requires FileOf(LongFormFile(key)).trailer.objectRefSize == 1
    ensures FileOf(LongFormFile(key)).Decode(11 + |key|) == Refers(DictKind, 12 + |key|, 2)
  {
    hide LongFormFile, SizedInt, FitsTogether, ReadTrailer;
    LongFormBytes(key);
  }

  /** Parsing the dictionary finds the key. */
  lemma LongFormParsed(key: seq<Byte>)
    requires |key| < 15
    ensures var data, off := LongFormFile(key), 11 + |key|;
      && |data| >= TRAILER_SIZE && FileOf(data).Trusted()
      && var f := FileOf(data);
         && ParsedDict(f, off) && f.Value(off) == Dict([Text(key)], [Text(key)])
         && Header(f, off).Some? && Pairs(f, off) == 1 && RefOf(f, off, 0) == 8
  {
    hide LongFormFile, File.Decode, File.RefTarget, File.Parses, File.Value, FitsTogether, Accepted, ReadTrailer,
      Header, Pairs, RefOf;
    LongFormAccepted(key);
    LongFormString(key);
    LongFormDict(key);
    var f, off := FileOf(LongFormFile(key)), 11 + |key|;
    WholeParses(f, 8);
    assert f.Targets(off) == [8, 8];
    var list := ValuesOf(f, f.Targets(off));
    assert list == [Text(key), Text(key)] && list[..1] == [Text(key)] && list[1..] == [Text(key)];
    CollectionParses(f, off);
    HeaderOfDict(f, off);
  }

  /** A key shorter than 15 characters that is stored with a separate count is never found, wherever
      in the file it lies, though parsing the dictionary finds it. */
  lemma LongFormLost(key: seq<Byte>)
    requires |key| < 15 && IsAscii(key)
    ensures var data := LongFormFile(key);
      && Accepted(data) && FileOf(data).Trusted()
      && var f := FileOf(data);
         var top := TopOffset(f);
         && ParsedDict(f, top) && Searchable(f, top) && f.Value(top) == Dict([Text(key)], [Text(key)])
         && FirstKey([Text(key)], key, 0) == Some(0) && QuickKey(f, top, key, true) == None
         && !TouchesTable(f, 8, key, true)
  {
    hide LongFormFile, File.Decode, File.Targets, File.Parses, File.Value, FitsTogether, Accepted, ReadTrailer,
      QuickKey, Header, Pairs, RefOf, IsAscii, TouchesTable, FirstKey;
    LongFormAccepted(key);
    LongFormParsed(key);
    LongFormBytes(key);
    var f, off := FileOf(LongFormFile(key)), 11 + |key|;
    QuickAgrees(f, off, key, true);
    OnlyKey(key);
    PassedOver(f, key);
    QuickIsFirst(f, off, key);
  }

  lemma OnlyKey(key: seq<Unit>)
    ensures FirstKey([Text(key)], key, 0) == Some(0)
  {
  }

  lemma PassedOver(f: File, key: seq<Unit>)
    requires f.Trusted() && 8 <= f.End() && f.data[8] == 0x5F && |key| < 15
    ensures LongForm(f, 8, key, true) && !TouchesTable(f, 8, key, true)
  {
    hide ReadCount, FitsTogether;
  }
}
