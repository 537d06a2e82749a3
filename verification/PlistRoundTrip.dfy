/** The main theorem: the file written for an object graph is accepted by the reader's checks
    and parses to the value of the graph, exactly when nothing in it is lost by the format. */
module PlistRoundTrip {
  import opened Prelude
  import opened SizedInts
  import opened PlistModel
  import opened PlistFlatten
  import opened PlistFormat
  import opened PlistTrailer
  import opened PlistDecode
  import opened PlistReadBack
  import opened PlistReader
  import PlistWriter

  /** Where the `i`th of `n` entries of equal size ends. */
  lemma EntryEnd(i: nat, n: nat, size: nat)
    requires i < n
    ensures i * size + size <= n * size && n * size == (n - 1) * size + size
    ensures i == n - 1 || i * size + size <= (n - 1) * size
  {
    EntryBelow(i, n, size);
    EntryStep(n - 1, size);
    if i < n - 1 { EntryBelow(i, n - 1, size); }
  }

  lemma EntryStep(i: nat, size: nat)
    ensures (i + 1) * size == i * size + size
  {
  }

  lemma SliceOfSuffix<T>(a: seq<T>, b: seq<T>, lo: nat, hi: nat)
    requires lo == |a| && hi == |a| + |b|
    ensures (a + b)[lo..hi] == b
  {
  }

  lemma SliceOfPrefix<T>(a: seq<T>, b: seq<T>, lo: nat, hi: nat)
    requires lo <= hi <= |a|
    ensures (a + b)[lo..hi] == a[lo..hi]
  {
  }

  lemma {:induction false} OffsetTableEntry(layout: Layout, n: nat, size: nat, i: nat, lo: nat)
    requires i < n <= layout.Count() && lo == i * size
    ensures lo + size <= |layout.OffsetTable(n, size)|
    ensures layout.OffsetTable(n, size)[lo..lo + size] == Bytes(|layout.Body(i)|, size)
  {
    hide Bytes, Layout.Body;
    EntryEnd(i, n, size);
    var rest, last := layout.OffsetTable(n - 1, size), Bytes(|layout.Body(n - 1)|, size);
    if i < n - 1 {
      OffsetTableEntry(layout, n - 1, size, i, lo);
      SliceOfPrefix(rest, last, lo, lo + size);
    } else {
      SliceOfSuffix(rest, last, lo, lo + size);
    }
  }

  lemma {:induction false} RefsEntry(ids: seq<nat>, n: nat, table: map<nat, nat>, size: nat, i: nat, lo: nat)
    requires i < n <= |ids| && lo == i * size
    ensures lo + size <= |Refs(ids, n, table, size)|
    ensures Refs(ids, n, table, size)[lo..lo + size] == Bytes(NumberOf(table, ids[i]), size)
  {
    hide Bytes, NumberOf;
    EntryEnd(i, n, size);
    var rest, last := Refs(ids, n - 1, table, size), Bytes(NumberOf(table, ids[n - 1]), size);
    if i < n - 1 {
      RefsEntry(ids, n - 1, table, size, i, lo);
      SliceOfPrefix(rest, last, lo, lo + size);
    } else {
      SliceOfSuffix(rest, last, lo, lo + size);
    }
  }

  /** A slice of a part is a slice of the whole. */
  lemma AtSlice(data: seq<Byte>, off: nat, b: seq<Byte>, i: nat, n: nat)
    requires At(data, off, b) && i + n <= |b|
    ensures At(data, off + i, b[i..i + n])
  {
    var whole, part := data[off..off + |b|], data[off + i..off + i + n];
    forall k | 0 <= k < n
      ensures part[k] == b[i..i + n][k]
    {
      assert part[k] == data[off + i + k] == whole[i + k];
    }
  }

  /** The layouts the writer produces for graphs it can write. */
  ghost predicate Written(layout: Layout, g: Graph, root: nat) {
    PlistWriter.CanWrite(g, root) && layout == LayoutOf(g, root) && layout.Valid()
  }

  lemma BodyBytes(layout: Layout, i: nat)
    requires i < layout.Count()
    ensures |layout.Body(i)| + |layout.Object(i)| <= layout.TableOffset() <= |layout.File()|
    ensures At(layout.File(), |layout.Body(i)|, layout.Object(i))
  {
    hide Layout.Object, Layout.OffsetTable, Layout.Trailer;
    PlistWriter.BodyInFile(layout, i + 1);
    var next := layout.Body(i + 1);
    assert next == layout.Body(i) + layout.Object(i);
    assert layout.File()[..|next|] == next;
  }

  lemma TrailerBytes(layout: Layout)
    ensures |layout.File()| == layout.TableOffset() + layout.Count() * Width(layout.TableOffset()) + TRAILER_SIZE
    ensures layout.File()[|layout.File()| - TRAILER_SIZE..] == layout.Trailer()
    ensures At(layout.File(), layout.TableOffset(), layout.OffsetTable(layout.Count(), Width(layout.TableOffset())))
  {
    hide Layout.Body, Layout.Trailer, Layout.OffsetTable, Width;
  }

  /** The reader finds in the trailer what the writer put there. */
  lemma TrailerReadBack(layout: Layout)
    requires 0 < layout.refSize < 256 && layout.Count() < TWO_64 && layout.TableOffset() < TWO_64
    ensures |layout.File()| >= TRAILER_SIZE
    ensures ReadTrailer(layout.File())
         == Trailer(Width(layout.TableOffset()), layout.refSize, layout.Count(), 0, layout.TableOffset())
  {
    hide Layout.Body, Bytes, SizedInt, Width, Layout.File, Layout.OffsetTable;
    TrailerBytes(layout);
    PowTable();
    var t := layout.Trailer();
    assert t[8..16] == Bytes(layout.Count(), 8);
    assert t[16..24] == Bytes(0, 8);
    assert t[24..] == Bytes(layout.TableOffset(), 8);
    assert t[24..32] == t[24..];
    SizedIntOfBytes(layout.Count(), 8);
    SizedIntOfBytes(0, 8);
    SizedIntOfBytes(layout.TableOffset(), 8);
  }

  lemma ObjectNonEmpty(layout: Layout, i: nat)
    requires i < layout.Count() && layout.CanAppendAt(i)
    ensures |layout.Object(i)| >= 1
  {
    hide Bytes, Refs, Width, WidthLog;
  }

  /** Sizes of a written file. */
  lemma WrittenSizes(layout: Layout, g: Graph, root: nat)
    requires Written(layout, g, root)
    ensures 1 <= layout.Count() < TWO_32 && layout.refSize == Width(layout.Count()) <= 4
    ensures 9 <= layout.TableOffset() < TWO_63 && |layout.File()| < TWO_63
    ensures layout.Count() < Pow256(layout.refSize)
    ensures layout.TableOffset() < Pow256(Width(layout.TableOffset()))
    ensures layout.Body(0) == HEADER
  {
    hide Layout.File, Layout.Object, Flatten, Pow256, Layout.CanAppendAt, Layout.TableOffset;
    FlattenClosure(g, root);
    BodyBytes(layout, 0);
    ObjectNonEmpty(layout, 0);
    WidthIsLeast(layout.Count(), 4);
    WidthIsLeast(layout.TableOffset(), 8);
  }

  lemma WrittenFits(layout: Layout, g: Graph, root: nat)
    requires Written(layout, g, root)
    ensures |layout.File()| >= TRAILER_SIZE + 9
    ensures FileOf(layout.File()).Trusted()
    ensures var t := ReadTrailer(layout.File());
      && t == Trailer(Width(layout.TableOffset()), layout.refSize, layout.Count(), 0, layout.TableOffset())
      && WideEnough(t)
  {
    hide Layout.File, Layout.TableOffset, Width, LayoutOf, Written, Pow256;
    WrittenSizes(layout, g, root);
    TrailerReadBack(layout);
    TrailerBytes(layout);
  }

  /** Entry `i` of the offset table is the position of the `i`th object. */
  lemma OffsetReadBack(layout: Layout, g: Graph, root: nat, i: nat)
    requires Written(layout, g, root) && i < layout.Count()
    ensures FileOf(layout.File()).Trusted() && i < ReadTrailer(layout.File()).numObjects
    ensures OffsetAt(layout.File(), ReadTrailer(layout.File()), i) == |layout.Body(i)| < layout.TableOffset()
  {
    hide Layout.File, Layout.TableOffset, Layout.Body, Layout.OffsetTable, Layout.Object, Width, LayoutOf, Pow256,
      SizedInt, FitsTogether, ReadTrailer, Bytes, Layout.CanAppendAt;
    WrittenFits(layout, g, root);
    WrittenSizes(layout, g, root);
    BodyBytes(layout, i);
    ObjectNonEmpty(layout, i);
    TrailerBytes(layout);
    var t, size := layout.TableOffset(), Width(layout.TableOffset());
    var skip: nat := i * size;
    OffsetTableEntry(layout, layout.Count(), size, i, skip);
    AtSlice(layout.File(), t, layout.OffsetTable(layout.Count(), size), skip, size);
    SizedIntOfBytes(|layout.Body(i)|, size);
  }

  /** Everything the writer produces passes the reader's checks. */
  lemma WrittenAccepted(layout: Layout, g: Graph, root: nat)
    requires Written(layout, g, root)
    ensures Accepted(layout.File())
    ensures TopOffset(FileOf(layout.File())) == |layout.Body(0)| == 8
  {
    hide Layout.File, Layout.TableOffset, Layout.Body, Width, LayoutOf, Written, WideEnough, OffsetAt, FitsTogether,
      ReadTrailer;
    WrittenFits(layout, g, root);
    WrittenSizes(layout, g, root);
    var data := layout.File();
    HeaderFirst(layout);
    forall i | 0 <= i < layout.Count()
      ensures OffsetAt(data, ReadTrailer(data), i) == |layout.Body(i)| < layout.TableOffset()
    {
      OffsetReadBack(layout, g, root, i);
    }
  }

  lemma HeaderFirst(layout: Layout)
    ensures |layout.File()| >= 8 && layout.File()[..8] == HEADER && layout.File()[..7] == HEADER[..7]
  {
    hide Layout.File, Layout.TableOffset, Layout.Object;
    PlistWriter.BodyInFile(layout, 0);
  }

  /** The position of the object with number `layout.st.objtable[id]`. */
  ghost function Place(layout: Layout, id: nat): nat
    requires id in layout.st.objtable && layout.st.objtable[id] < layout.Count()
  {
    |layout.Body(layout.st.objtable[id])|
  }

  /** Numbers name the objects they were given to, and children have numbers. */
  lemma Numbering(layout: Layout, g: Graph, root: nat, id: nat)
    requires Written(layout, g, root) && id in layout.st.objtable
    ensures id < |g| && layout.st.objtable[id] < layout.Count()
    ensures CanAppend(g[id])
    ensures layout.Object(layout.st.objtable[id]) == ObjectBytes(g[id], layout.st.objtable, layout.refSize)
    ensures forall k :: 0 <= k < |g[id].Children()| ==>
      var c := g[id].Children()[k];
      c in layout.st.objtable && layout.st.objtable[c] < layout.Count() && c < id
  {
    hide Flatten, ObjectBytes, CanAppend, Layout.File;
    FlattenClosure(g, root);
    var i := layout.st.objtable[id];
    assert layout.CanAppendAt(i) && layout.st.objlist[i] == id;
    assert AllBelow(g[id].Children(), id);
  }

  /** A stored reference leads to the position of the object it names. */
  lemma RefReadBack(layout: Layout, g: Graph, root: nat, pos: nat, id: nat)
    requires Written(layout, g, root) && id in layout.st.objtable && layout.st.objtable[id] < layout.Count()
    requires 8 <= pos && pos + layout.refSize <= layout.TableOffset()
    requires At(layout.File(), pos, Bytes(layout.st.objtable[id], layout.refSize))
    ensures FileOf(layout.File()).Trusted()
    ensures FileOf(layout.File()).RefTarget(pos) == Place(layout, id)
  {
    hide Layout.File, Layout.TableOffset, Layout.Body, Width, LayoutOf, Written, Pow256, SizedInt, FitsTogether,
      ReadTrailer, Bytes, OffsetAt;
    WrittenFits(layout, g, root);
    WrittenSizes(layout, g, root);
    SizedIntOfBytes(layout.st.objtable[id], layout.refSize);
    OffsetReadBack(layout, g, root, layout.st.objtable[id]);
  }

  /** The bytes of a collection decode to references leading to the positions of its items. */
  lemma CollectionDecodes(layout: Layout, g: Graph, root: nat, id: nat)
    requires Written(layout, g, root) && id in layout.st.objtable
    requires id < |g| && !g[id].Leaf?
    ensures FileOf(layout.File()).Trusted() && layout.st.objtable[id] < layout.Count()
    ensures var shape := FileOf(layout.File()).Decode(Place(layout, id));
      && shape.Refers? && shape.count == |g[id].Children()|
      && shape.kind == (if g[id].ArrayNode? then ArrayKind else DictKind)
      && 8 <= shape.first && shape.first + shape.count * layout.refSize <= layout.TableOffset()
      && At(layout.File(), shape.first, Refs(g[id].Children(), shape.count, layout.st.objtable, layout.refSize))
  {
    hide Layout.File, Layout.TableOffset, Layout.Body, Width, LayoutOf, Pow256, FitsTogether, ReadTrailer, Refs,
      CountHeader, At, DecodeRefs, Layout.Object, Layout.CanAppendAt, Acyclic, Flatten;
    var i := layout.st.objtable[id];
    Numbering(layout, g, root, id);
    WrittenFits(layout, g, root);
    var f := FileOf(layout.File());
    WrittenSizes(layout, g, root);
    BodyBytes(layout, i);
    BodyAfterHeader(layout, i);
    var off, table, size, data := |layout.Body(i)|, layout.st.objtable, layout.refSize, layout.File();
    match g[id]
    case ArrayNode(items) =>
      var refs := Refs(items, |items|, table, size);
      DecodesRefs(data, off, f.End(), MARKER_ARRAY, |items|, refs, ArrayKind, size);
      AtSplit(data, off, CountHeader(MARKER_ARRAY, |items|), refs);
    case DictNode(keys, values) =>
      var refs := Refs(keys + values, |keys + values|, table, size);
      DecodesRefs(data, off, f.End(), MARKER_DICT, |keys|, refs, DictKind, size);
      AtSplit(data, off, CountHeader(MARKER_DICT, |keys|), refs);
  }

  lemma BodyAfterHeader(layout: Layout, i: nat)
    requires i <= layout.Count()
    ensures 8 <= |layout.Body(i)|
  {
    hide Layout.Object;
    PlistWriter.BodyGrows(layout, 0, i);
  }

  /** The `k`th stored reference leads to the position of the `k`th child. */
  lemma RefsReadBack(layout: Layout, g: Graph, root: nat, first: nat, cs: seq<nat>, k: nat)
    requires Written(layout, g, root) && k < |cs|
    requires cs[k] in layout.st.objtable && layout.st.objtable[cs[k]] < layout.Count()
    requires 8 <= first && first + |cs| * layout.refSize <= layout.TableOffset()
    requires At(layout.File(), first, Refs(cs, |cs|, layout.st.objtable, layout.refSize))
    ensures FileOf(layout.File()).Trusted()
    ensures FileOf(layout.File()).RefTarget(first + k * layout.refSize) == Place(layout, cs[k])
  {
    hide Layout.File, Layout.TableOffset, Written, FitsTogether, Refs, Bytes, At, File.RefTarget, Place, ReadTrailer;
    var size, refs := layout.refSize, Refs(cs, |cs|, layout.st.objtable, layout.refSize);
    var skip: nat := k * size;
    RefsEntry(cs, |cs|, layout.st.objtable, size, k, skip);
    AtSlice(layout.File(), first, refs, skip, size);
    assert refs[skip..skip + size] == Bytes(layout.st.objtable[cs[k]], size);
    RefReadBack(layout, g, root, first + skip, cs[k]);
  }

  /** What an object refers to in the file are the positions of its children. */
  lemma TargetsReadBack(layout: Layout, g: Graph, root: nat, id: nat, k: nat)
    requires Written(layout, g, root) && id in layout.st.objtable
    requires id < |g| && !g[id].Leaf? && k < |g[id].Children()|
    ensures FileOf(layout.File()).Trusted() && layout.st.objtable[id] < layout.Count()
    ensures var c := g[id].Children()[k];
      && c in layout.st.objtable && layout.st.objtable[c] < layout.Count()
      && |FileOf(layout.File()).Targets(Place(layout, id))| == |g[id].Children()|
      && FileOf(layout.File()).Targets(Place(layout, id))[k] == Place(layout, c)
  {
    hide Layout.File, Layout.TableOffset, Width, Written, FitsTogether, ReadTrailer, Refs, At,
      File.Decode, File.RefTarget, Place, File.Targets, CanAppend, ObjectBytes, Layout.Object;
    CollectionDecodes(layout, g, root, id);
    Numbering(layout, g, root, id);
    WrittenFits(layout, g, root);
    var f := FileOf(layout.File());
    RefsReadBack(layout, g, root, f.Decode(Place(layout, id)).first, g[id].Children(), k);
    TargetCount(f, Place(layout, id));
  }

  /** What the reader makes of an object: nothing when a dictionary in it has a key that is a
      collection, otherwise its value without the high words of 128-bit integers. */
  ghost function ReadBack(g: Graph, id: nat): Option<Plist>
    requires Acyclic(g) && id < |g|
    decreases id
  {
    match g[id]
    case Leaf(v) => Some(Reread(v))
    case _ =>
      var cs := g[id].Children();
      assert AllBelow(cs, id);
      if forall k :: 0 <= k < |cs| ==> ReadBack(g, cs[k]).Some? then
        Build(if g[id].ArrayNode? then ArrayKind else DictKind,
              seq(|cs|, k requires 0 <= k < |cs| => ReadBack(g, cs[k]).GetOr(Null)))
      else None
  }

  /** The values read back for the objects of `ids`, all of them there. */
  ghost predicate ListReadBack(g: Graph, ids: seq<nat>, list: seq<Plist>)
    requires Acyclic(g) && AllBelow(ids, |g|)
  {
    |list| == |ids| && forall k :: 0 <= k < |ids| ==> ReadBack(g, ids[k]) == Some(list[k])
  }

  lemma CollectionReadBack(g: Graph, id: nat, list: seq<Plist>)
    requires Acyclic(g) && id < |g| && !g[id].Leaf?
    requires AllBelow(g[id].Children(), |g|)
    requires ListReadBack(g, g[id].Children(), list)
    ensures ReadBack(g, id) == Build(if g[id].ArrayNode? then ArrayKind else DictKind, list)
  {
    hide Build;
    var cs := g[id].Children();
    assert AllBelow(cs, id);
    assert forall k :: 0 <= k < |cs| ==> ReadBack(g, cs[k]) == Some(list[k]);
    assert seq(|cs|, k requires 0 <= k < |cs| => ReadBack(g, cs[k]).GetOr(Null)) == list;
  }

  /** The reader parses the object at the place of `id` exactly when it can be read back, and
      then returns what it reads back as. */
  ghost predicate AgreesAt(layout: Layout, g: Graph, id: nat)
    requires Acyclic(g) && id < |g|
    requires id in layout.st.objtable && layout.st.objtable[id] < layout.Count()
    requires |layout.File()| >= TRAILER_SIZE && FileOf(layout.File()).Trusted()
  {
    var f, o := FileOf(layout.File()), Place(layout, id);
    && (f.Parses(o) <==> ReadBack(g, id).Some?)
    && (f.Parses(o) ==> Some(f.Value(o)) == ReadBack(g, id))
  }

  lemma LeafAgrees(layout: Layout, g: Graph, root: nat, id: nat)
    requires Written(layout, g, root) && id in layout.st.objtable && id < |g| && g[id].Leaf?
    ensures layout.st.objtable[id] < layout.Count() && FileOf(layout.File()).Trusted() && Acyclic(g)
    ensures AgreesAt(layout, g, id)
  {
    hide Layout.File, Layout.TableOffset, Layout.Body, Layout.Object, LeafBytes, FitsTogether, ReadTrailer, File.Decode,
      At, Writable, Acyclic, File.Parses, File.Value, LayoutOf;
    Numbering(layout, g, root, id);
    WrittenFits(layout, g, root);
    var i := layout.st.objtable[id];
    BodyBytes(layout, i);
    BodyAfterHeader(layout, i);
    DecodesLeaf(FileOf(layout.File()), Place(layout, id), g[id].value);
    WholeParses(FileOf(layout.File()), Place(layout, id));
  }

  lemma {:induction false} ObjectAgrees(layout: Layout, g: Graph, root: nat, id: nat)
    requires Written(layout, g, root) && id in layout.st.objtable
    ensures id < |g| && layout.st.objtable[id] < layout.Count() && FileOf(layout.File()).Trusted() && Acyclic(g)
    ensures AgreesAt(layout, g, id)
    decreases id
  {
    hide Layout.File, FitsTogether, ReadTrailer, File.Decode, File.Targets, File.Parses, File.Value, Build, Place,
      Acyclic, ObjectBytes, CanAppend, Layout.Object;
    Numbering(layout, g, root, id);
    WrittenFits(layout, g, root);
    if g[id].Leaf? {
      LeafAgrees(layout, g, root, id);
    } else {
      var cs := g[id].Children();
      forall k | 0 <= k < |cs|
        ensures AgreesAt(layout, g, cs[k])
      {
        ObjectAgrees(layout, g, root, cs[k]);
      }
      CollectionAgrees(layout, g, root, id);
    }
  }

  lemma CollectionAgrees(layout: Layout, g: Graph, root: nat, id: nat)
    requires Written(layout, g, root) && id in layout.st.objtable && id < |g| && !g[id].Leaf?
    requires Acyclic(g) && AllBelow(g[id].Children(), id)
    requires |layout.File()| >= TRAILER_SIZE && FileOf(layout.File()).Trusted()
    requires layout.st.objtable[id] < layout.Count()
    requires forall k :: 0 <= k < |g[id].Children()| ==>
      var c := g[id].Children()[k];
      c in layout.st.objtable && layout.st.objtable[c] < layout.Count() && AgreesAt(layout, g, c)
    ensures AgreesAt(layout, g, id)
  {
    hide Layout.File, FitsTogether, ReadTrailer, File.Decode, File.Targets, File.Parses, File.Value, Build, Place,
      Acyclic, Written, Layout.Body;
    var f, o, cs := FileOf(layout.File()), Place(layout, id), g[id].Children();
    CollectionDecodes(layout, g, root, id);
    forall k | 0 <= k < |cs|
      ensures |f.Targets(o)| == |cs| && f.Targets(o)[k] == Place(layout, cs[k])
    {
      TargetsReadBack(layout, g, root, id, k);
    }
    TargetCount(f, o);
    CollectionParses(f, o);
    if AllParse(f, f.Targets(o)) {
      CollectionReadBack(g, id, ValuesOf(f, f.Targets(o)));
    } else {
      var k :| 0 <= k < |cs| && !f.Parses(f.Targets(o)[k]);
      assert ReadBack(g, cs[k]).None?;
    }
  }

  /** The format keeps the value: no 128-bit integer needs its high word and no dictionary
      has a collection for a key. */
  ghost predicate Faithful(v: Plist) {
    match v
    case BigInt(high, _) => high == 0
    case Array(items) => forall k :: 0 <= k < |items| ==> Faithful(items[k])
    case Dict(keys, values) =>
      && (forall k :: 0 <= k < |keys| ==> keys[k].IsPrimitive() && Faithful(keys[k]))
      && (forall k :: 0 <= k < |values| ==> Faithful(values[k]))
    case _ => true
  }

  /** The values the children of an object denote. */
  ghost function ChildValues(g: Graph, id: nat): seq<Plist>
    requires Acyclic(g) && id < |g|
  {
    var cs := g[id].Children();
    assert AllBelow(cs, id);
    seq(|cs|, k requires 0 <= k < |cs| => Unfold(g, cs[k]))
  }

  lemma ArrayUnfolds(g: Graph, id: nat)
    requires Acyclic(g) && id < |g| && g[id].ArrayNode?
    ensures Unfold(g, id) == Array(ChildValues(g, id))
  {
    assert Unfold(g, id).items == ChildValues(g, id);
  }

  lemma DictUnfolds(g: Graph, id: nat)
    requires Acyclic(g) && id < |g| && g[id].DictNode? && |g[id].keys| == |g[id].values|
    ensures var list := ChildValues(g, id);
      |list| % 2 == 0 && Unfold(g, id) == Dict(list[..|list| / 2], list[|list| / 2..])
  {
    hide Unfold, ChildValues, Acyclic;
    DictItems(g, id);
    var v := Unfold(g, id);
    Halves(v.keys, v.values, ChildValues(g, id));
  }

  lemma Halves(a: seq<Plist>, b: seq<Plist>, list: seq<Plist>)
    requires |list| == 2 * |a| && |a| == |b|
    requires forall k :: 0 <= k < |a| ==> a[k] == list[k] && b[k] == list[|a| + k]
    ensures a == list[..|list| / 2] && b == list[|list| / 2..]
  {
  }

  lemma DictItems(g: Graph, id: nat)
    requires Acyclic(g) && id < |g| && g[id].DictNode? && |g[id].keys| == |g[id].values|
    ensures var v, n, list := Unfold(g, id), |g[id].keys|, ChildValues(g, id);
      && v.Dict? && |v.keys| == |v.values| == n && |list| == 2 * n
      && forall k :: 0 <= k < n ==> v.keys[k] == list[k] && v.values[k] == list[n + k]
  {
  }

  lemma UnfoldChildren(g: Graph, id: nat)
    requires Acyclic(g) && id < |g| && WellTyped(g) && !g[id].Leaf?
    ensures var list := ChildValues(g, id);
      if g[id].ArrayNode? then Unfold(g, id) == Array(list)
      else |list| % 2 == 0 && Unfold(g, id) == Dict(list[..|list| / 2], list[|list| / 2..])
  {
    var list := ChildValues(g, id);
    match g[id]
    case ArrayNode(items) =>
      ArrayUnfolds(g, id);
    case DictNode(keys, values) =>
      DictUnfolds(g, id);
  }

  lemma {:induction false} FaithfulChildren(g: Graph, id: nat)
    requires Acyclic(g) && id < |g| && WellTyped(g) && !g[id].Leaf?
    ensures var list := ChildValues(g, id);
      Faithful(Unfold(g, id)) <==>
        && (forall k :: 0 <= k < |list| ==> Faithful(list[k]))
        && Build(if g[id].ArrayNode? then ArrayKind else DictKind, list) == Some(Unfold(g, id))
  {
    hide Unfold, ChildValues;
    UnfoldChildren(g, id);
    var list := ChildValues(g, id);
    if g[id].DictNode? {
      var n := |list| / 2;
      var keys, values := list[..n], list[n..];
      assert list == keys + values;
      assert forall k :: 0 <= k < n ==> list[k] == keys[k] && list[n + k] == values[k];
    }
  }

  /** An object reads back as the value it denotes exactly when the format keeps that value. */
  lemma {:induction false} ReadBackExact(g: Graph, id: nat)
    requires Acyclic(g) && id < |g| && WellTyped(g)
    ensures ReadBack(g, id) == Some(Unfold(g, id)) <==> Faithful(Unfold(g, id))
    decreases id
  {
    if !g[id].Leaf? {
      var cs, list := g[id].Children(), ChildValues(g, id);
      assert AllBelow(cs, id);
      FaithfulChildren(g, id);
      forall k | 0 <= k < |cs|
        ensures list[k] == Unfold(g, cs[k])
        ensures ReadBack(g, cs[k]) == Some(list[k]) <==> Faithful(list[k])
      {
        ReadBackExact(g, cs[k]);
      }
      CollectionReadBackExact(g, id, list);
    }
  }

  lemma CollectionReadBackExact(g: Graph, id: nat, list: seq<Plist>)
    requires Acyclic(g) && id < |g| && WellTyped(g) && !g[id].Leaf?
    requires list == ChildValues(g, id) && |list| == |g[id].Children()|
    requires AllBelow(g[id].Children(), |g|)
    ensures ReadBack(g, id) == Some(Unfold(g, id)) <==>
      && (forall k :: 0 <= k < |list| ==> ReadBack(g, g[id].Children()[k]) == Some(list[k]))
      && Build(if g[id].ArrayNode? then ArrayKind else DictKind, list) == Some(Unfold(g, id))
  {
    hide Unfold, ChildValues, Acyclic, WellTyped;
    UnfoldChildren(g, id);
    if ListReadBack(g, g[id].Children(), list) {
      CollectionReadBack(g, id, list);
    }
    if ReadBack(g, id).Some? {
      var back := ChildrenReadBack(g, id);
      BuildOnce(if g[id].ArrayNode? then ArrayKind else DictKind, back, list);
    }
  }

  /** A collection that reads back is built of what its children read back as. */
  lemma ChildrenReadBack(g: Graph, id: nat) returns (back: seq<Plist>)
    requires Acyclic(g) && id < |g| && !g[id].Leaf? && AllBelow(g[id].Children(), |g|) && ReadBack(g, id).Some?
    ensures ListReadBack(g, g[id].Children(), back)
    ensures ReadBack(g, id) == Build(if g[id].ArrayNode? then ArrayKind else DictKind, back)
  {
    hide Build;
    var cs := g[id].Children();
    assert AllBelow(cs, id);
    back := seq(|cs|, k requires 0 <= k < |cs| => ReadBack(g, cs[k]).GetOr(Null));
    CollectionReadBack(g, id, back);
  }

  /** Lists of one length build the same collection only if they are the same. */
  lemma BuildOnce(kind: Kind, a: seq<Plist>, b: seq<Plist>)
    requires |a| == |b| && (kind == DictKind ==> |a| % 2 == 0)
    ensures kind == ArrayKind && Build(kind, a) == Some(Array(b)) ==> a == b
    ensures kind == DictKind && Build(kind, a) == Some(Dict(b[..|b| / 2], b[|b| / 2..])) ==> a == b
  {
    assert a == a[..|a| / 2] + a[|a| / 2..] && b == b[..|b| / 2] + b[|b| / 2..];
  }

  /** Writing and reading back. The file of every graph the writer accepts passes all checks of
      the reader; parsing it gives the value of the graph if and only if the format keeps that
      value, and gives otherwise what `ReadBack` says. */
  lemma RoundTrip(g: Graph, root: nat)
    requires PlistWriter.CanWrite(g, root) && LayoutOf(g, root).Valid()
    ensures Accepted(LayoutOf(g, root).File())
    ensures FileOf(LayoutOf(g, root).File()).Trusted()
    ensures var f := FileOf(LayoutOf(g, root).File());
      var top := TopOffset(f);
      && (f.Parses(top) <==> ReadBack(g, root).Some?)
      && (f.Parses(top) ==> Some(f.Value(top)) == ReadBack(g, root))
      && (f.Parses(top) && f.Value(top) == Unfold(g, root) <==> Faithful(Unfold(g, root)))
  {
    hide Layout.File, Layout.Valid, FitsTogether, ReadTrailer, File.Parses, File.Value, Unfold, Faithful, ReadBack,
      Acyclic, WellTyped, Flatten;
    var layout := LayoutOf(g, root);
    WrittenAccepted(layout, g, root);
    FlattenClosure(g, root);
    ObjectAgrees(layout, g, root, root);
    ReadBackExact(g, root);
  }

  /** The two programs in a row: a graph is written to a stream, and what the stream received is
      parsed, unless the graph has no place in the format or the stream failed. */
  method WriteAndParse(g: Graph, root: nat, buf: PlistWriter.WriteBuffer, option: Mutability)
    returns (length: nat, ok: bool, plist: Plist)
    requires PlistWriter.CanWrite(g, root)
    requires buf.Valid() && !buf.error && buf.all == []
    modifies buf, buf.buffer
    ensures length > 0 <==> LayoutOf(g, root).Valid() && !buf.error
    ensures buf.streamIsData ==> !buf.error
    ensures ok <==> length > 0 && ReadBack(g, root).Some?
    ensures ok ==> Some(plist) == ReadBack(g, root)
    ensures length > 0 ==> (ok && plist == Unfold(g, root) <==> Faithful(Unfold(g, root)))
  {
    hide Layout.File, Layout.Valid, File.Parses, File.Value, Unfold, Faithful, ReadBack, Accepted, LayoutOf;
    length := PlistWriter.Write(g, root, buf);
    ok, plist := false, Null;
    if length > 0 {
      RoundTrip(g, root);
      ok, plist := PlistReader.TryParse(buf.sink, option);
    }
  }

  /** A number whose high word is needed does not survive. */
  lemma HighWordLost(high: int, low: Word)
    requires -TWO_63 <= high < TWO_63 && high != 0
    ensures var g := [Leaf(BigInt(high, low))];
      && PlistWriter.CanWrite(g, 0) && LayoutOf(g, 0).Valid()
      && Accepted(LayoutOf(g, 0).File())
      && var f := FileOf(LayoutOf(g, 0).File());
         f.Trusted() && f.Parses(TopOffset(f)) && f.Value(TopOffset(f)) == BigInt(0, low)
  {
    hide File.Parses, File.Value, Accepted, ReadTrailer;
    var g := [Leaf(BigInt(high, low))];
    var st := Flatten(g, 0, EMPTY);
    assert st == Add(g, 0, EMPTY);
    var layout := LayoutOf(g, 0);
    assert layout.CanAppendAt(0) && layout.Valid();
    assert |layout.Object(0)| == 17;
    assert layout.Body(1) == layout.Body(0) + layout.Object(0);
    assert |layout.File()| == 25 + Width(25) + TRAILER_SIZE;
    RoundTrip(g, 0);
  }
}
