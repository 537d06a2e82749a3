/** The binary property list writer: a fixed-size buffer in front of a stream that may accept
    only part of what it is given, or fail. */
module PlistWriter {
  import opened Prelude
  import opened SizedInts
  import opened PlistModel
  import opened PlistFlatten
  import opened PlistFormat

  const BUFFER_SIZE: int := 8192 - 32

  class WriteBuffer {
    /** What the stream has accepted. */
    var sink: seq<Byte>
    /** What the stream will answer to coming writes: the number of bytes taken, 0 when full,
        negative for an error. A data stream takes everything. */
    var answers: seq<int>
    const streamIsData: bool
    var error: bool
    var written: nat
    var used: nat
    var buffer: array<Byte>
    /** Everything handed to the buffer so far. */
    ghost var all: seq<Byte>

    ghost predicate Valid()
      reads this, buffer
    {
      && buffer.Length == BUFFER_SIZE && used < BUFFER_SIZE
      && written == |sink| && sink <= all
      && (!error ==> all == sink + buffer[..used])
    }

    /** `bytes` were handed over; once in error, the stream is left alone. */
    twostate predicate Wrote(bytes: seq<Byte>)
      reads this, buffer
    {
      && Valid()
      && buffer == old(buffer)
      && all == old(all) + bytes
      && (old(error) ==> error && sink == old(sink))
    }

    constructor (streamIsData: bool, answers: seq<int>)
      ensures Valid() && fresh(buffer)
      ensures all == [] && !error && sink == []
      ensures this.streamIsData == streamIsData
    {
      this.streamIsData := streamIsData;
      this.answers := answers;
      sink, error, written, used, all := [], false, 0, 0, [];
      buffer := new Byte[BUFFER_SIZE];
    }

    /** Writes to the stream until it has taken everything or answers with an error. */
    method WriteBytes(bytes: seq<Byte>)
      requires written == |sink|
      modifies this`sink, this`answers, this`error, this`written
      ensures old(error) ==> error && sink == old(sink)
      ensures written == |sink| && old(sink) <= sink <= old(sink) + bytes
      ensures !error ==> sink == old(sink) + bytes
      ensures streamIsData && !old(error) ==> !error
    {
      if |bytes| == 0 || error {
        return;
      }
      if streamIsData {
        sink := sink + bytes;
        written := written + |bytes|;
        return;
      }
      var pos := 0;
      while pos < |bytes|
        invariant pos <= |bytes| && !error
        invariant sink == old(sink) + bytes[..pos] && written == |sink|
      {
        var ret := if answers == [] then 0 else answers[0];
        answers := if answers == [] then [] else answers[1..];
        if ret > |bytes| - pos {
          ret := |bytes| - pos;
        }
        if ret <= 0 {
          error := true;
          return;
        }
        assert bytes[..pos] + bytes[pos..pos + ret] == bytes[..pos + ret];
        sink := sink + bytes[pos..pos + ret];
        written := written + ret;
        pos := pos + ret;
      }
    }

    /** Sends what is pending. */
    method BufferFlush()
      requires Valid()
      modifies this`sink, this`answers, this`error, this`written, this`used
      ensures Wrote([]) && used == 0
      ensures !error ==> sink == all
      ensures streamIsData && !old(error) ==> !error
    {
      WriteBytes(buffer[..used]);
      used := 0;
    }

    /** Copies `bytes` into the buffer at `at`. */
    method Copy(at: nat, bytes: seq<Byte>)
      requires at + |bytes| <= buffer.Length
      modifies buffer
      ensures buffer[..at] == old(buffer[..at])
      ensures buffer[at..at + |bytes|] == bytes
    {
      forall i | 0 <= i < |bytes| {
        buffer[at + i] := bytes[i];
      }
    }

    /** A write at least as long as the buffer goes straight to the stream. */
    method WriteThrough(bytes: seq<Byte>)
      requires Valid()
      modifies this
      ensures Wrote(bytes)
      ensures streamIsData && !old(error) ==> !error
    {
      BufferFlush();
      ghost var flushed := sink;
      WriteBytes(bytes);
      all := all + bytes;
      assert buffer[..used] == [];
    }

    /** The buffer is full: send it and start again with `rest`. */
    method FlushFull(ghost taken: seq<Byte>, rest: seq<Byte>)
      requires buffer.Length == BUFFER_SIZE && |rest| < BUFFER_SIZE
      requires written == |sink| && sink <= all
      requires !error ==> all + taken == sink + buffer[..]
      modifies this, buffer
      ensures Wrote(taken + rest)
      ensures streamIsData && !old(error) ==> !error
    {
      ghost var full := sink + buffer[..];
      WriteBytes(buffer[..]);
      assert !error ==> sink == all + taken;
      assert !old(error) ==> sink <= all + taken;
      Copy(0, rest);
      used := |rest|;
      all := all + (taken + rest);
      assert buffer[..used] == rest;
      assert !error ==> sink + rest == all;
    }

    method BufferWrite(bytes: seq<Byte>)
      requires Valid()
      modifies this, buffer
      ensures Wrote(bytes)
      ensures streamIsData && !old(error) ==> !error
    {
      if |bytes| == 0 {
        return;
      }
      if BUFFER_SIZE <= |bytes| {
        WriteThrough(bytes);
        return;
      }
      var copyLen := if |bytes| < BUFFER_SIZE - used then |bytes| else BUFFER_SIZE - used;
      ghost var pending := buffer[..used];
      Copy(used, bytes[..copyLen]);
      used := used + copyLen;
      assert buffer[..used] == pending + bytes[..copyLen];
      assert bytes == bytes[..copyLen] + bytes[copyLen..];
      if used == BUFFER_SIZE {
        assert buffer[..] == buffer[..used];
        FlushFull(bytes[..copyLen], bytes[copyLen..]);
      } else {
        all := all + bytes;
      }
    }

    method AppendInt(n: Word)
      requires Valid()
      modifies this, buffer
      ensures Wrote(IntBytes(n))
      ensures streamIsData && !old(error) ==> !error
    {
      hide Bytes;
      var nbytes, marker;
      if n <= 0xff {
        nbytes, marker := 1, MARKER_INT;
      } else if n <= 0xffff {
        nbytes, marker := 2, MARKER_INT + 1;
      } else if n <= 0xffff_ffff {
        nbytes, marker := 4, MARKER_INT + 2;
      } else {
        nbytes, marker := 8, MARKER_INT + 3;
      }
      BufferWrite([marker]);
      BufferWrite(Bytes(n, nbytes));
    }

    method AppendUid(n: Word)
      requires Valid() && n < TWO_32
      modifies this, buffer
      ensures Wrote(LeafBytes(Uid(n)))
      ensures streamIsData && !old(error) ==> !error
    {
      hide Bytes;
      var nbytes := if n <= 0xff then 1 else if n <= 0xffff then 2 else 4;
      BufferWrite([MARKER_UID + (nbytes - 1)]);
      BufferWrite(Bytes(n, nbytes));
    }

    method AppendCount(marker: Byte, count: Word)
      requires Valid() && marker <= 0xF0
      modifies this, buffer
      ensures Wrote(CountHeader(marker, count))
      ensures streamIsData && !old(error) ==> !error
    {
      hide IntBytes;
      BufferWrite([marker + (if count < 15 then count else 0xf)]);
      if 15 <= count {
        AppendInt(count);
      }
    }

    method AppendString(units: seq<Unit>)
      requires Valid() && Writable(Text(units))
      modifies this, buffer
      ensures Wrote(LeafBytes(Text(units)))
      ensures streamIsData && !old(error) ==> !error
    {
      hide CountHeader, AsciiBytes, UnitBytes, IsAscii;
      if IsAscii(units) {
        AppendCount(MARKER_ASCII, |units|);
        BufferWrite(AsciiBytes(units));
      } else {
        AppendCount(MARKER_UNICODE, |units|);
        BufferWrite(UnitBytes(units));
      }
    }

    method AppendNumber(v: Plist)
      requires Valid() && Writable(v)
      requires v.Int? || v.BigInt? || v.Real32? || v.Real64?
      modifies this, buffer
      ensures Wrote(LeafBytes(v))
      ensures streamIsData && !old(error) ==> !error
    {
      hide IntBytes, Bytes;
      match v
      case Real32(bits) =>
        BufferWrite([MARKER_REAL + 2]);
        BufferWrite(Bytes(bits, 4));
      case Real64(bits) =>
        BufferWrite([MARKER_REAL + 3]);
        BufferWrite(Bytes(bits, 8));
      case BigInt(high, low) =>
        BufferWrite([MARKER_INT + 4]);
        BufferWrite(Bytes(Unsigned(high), 8) + Bytes(low, 8));
      case Int(n) =>
        AppendInt(Unsigned(n));
    }

    method AppendLeaf(v: Plist) returns (ok: bool)
      requires Valid() && v.IsPrimitive() && (v.Null? || Writable(v))
      modifies this, buffer
      ensures ok == !v.Null?
      ensures Wrote(if ok then LeafBytes(v) else [])
      ensures streamIsData && !old(error) ==> !error
    {
      hide CountHeader, AsciiBytes, UnitBytes, IsAscii, IntBytes, Bytes;
      ok := true;
      match v
      case Text(units) => AppendString(units);
      case Bool(flag) => BufferWrite([if flag then MARKER_TRUE else MARKER_FALSE]);
      case Data(bytes) =>
        AppendCount(MARKER_DATA, |bytes|);
        BufferWrite(bytes);
      case Date(bits) =>
        BufferWrite([MARKER_DATE]);
        BufferWrite(Bytes(bits, 8));
      case Uid(n) => AppendUid(n);
      case Null => ok := false;
      case Int(_) => AppendNumber(v);
      case BigInt(_, _) => AppendNumber(v);
      case Real32(_) => AppendNumber(v);
      case Real64(_) => AppendNumber(v);
    }

    /** Writes the number of each object of `list`, cut from a 32-bit big-endian integer. */
    method AppendRefs(list: seq<nat>, objtable: map<nat, nat>, objRefSize: nat)
      requires Valid() && objRefSize <= 4
      requires forall id :: id in objtable ==> objtable[id] < TWO_32
      modifies this, buffer
      ensures Wrote(Refs(list, |list|, objtable, objRefSize))
      ensures streamIsData && !old(error) ==> !error
    {
      hide Bytes;
      for idx2 := 0 to |list|
        invariant Wrote(Refs(list, idx2, objtable, objRefSize))
        invariant streamIsData && !old(error) ==> !error
      {
        var refnum := NumberOf(objtable, list[idx2]);
        var swapped := Bytes(refnum % TWO_32, 4);
        BytesSuffix(refnum, 4, objRefSize);
        BufferWrite(swapped[4 - objRefSize..]);
      }
    }

    method AppendObject(node: Node, objtable: map<nat, nat>, objRefSize: nat) returns (ok: bool)
      requires Valid() && objRefSize <= 4
      requires forall id :: id in objtable ==> objtable[id] < TWO_32
      requires CanAppend(node) || node == Leaf(Null)
      modifies this, buffer
      ensures ok == CanAppend(node)
      ensures Wrote(if ok then ObjectBytes(node, objtable, objRefSize) else [])
      ensures streamIsData && !old(error) ==> !error
    {
      hide LeafBytes, CountHeader, Refs;
      match node
      case Leaf(v) =>
        ok := AppendLeaf(v);
      case ArrayNode(items) =>
        AppendCount(MARKER_ARRAY, |items|);
        AppendRefs(items, objtable, objRefSize);
        ok := true;
      case DictNode(keys, values) =>
        AppendCount(MARKER_DICT, |keys|);
        AppendRefs(keys + values, objtable, objRefSize);
        ok := true;
    }
  }

  /** The last bytes of a wide big-endian integer are the narrow integer. */
  lemma {:induction false} BytesSuffix(n: nat, wide: nat, narrow: nat)
    requires narrow <= wide
    ensures Bytes(n, wide)[wide - narrow..] == Bytes(n, narrow)
  {
    if narrow > 0 {
      BytesSuffix(n / 256, wide - 1, narrow - 1);
    }
  }

  /** What a caller of the writer must supply: an acyclic graph of property list objects that
      flattens to fewer than 2^32 entries and makes a file whose length is a CFIndex. */
  ghost predicate CanWrite(g: Graph, root: nat) {
    && Acyclic(g) && root < |g| && WellTyped(g)
    && LayoutOf(g, root).Count() < TWO_32
    && |LayoutOf(g, root).File()| < TWO_63
  }

  lemma {:induction false} BodyGrows(layout: Layout, k: nat, n: nat)
    requires k <= n <= layout.Count()
    ensures layout.Body(k) <= layout.Body(n)
  {
    hide Layout.Object;
    if k < n {
      BodyGrows(layout, k, n - 1);
    }
  }

  lemma BodyInFile(layout: Layout, k: nat)
    requires k <= layout.Count()
    ensures layout.Body(k) <= layout.File() && |layout.Body(k)| <= layout.TableOffset() <= |layout.File()|
  {
    BodyGrows(layout, k, layout.Count());
  }

  /** Appends the `idx`th object; a refused object leaves the body as it is. */
  method WriteObject(ghost layout: Layout, idx: nat, node: Node, objtable: map<nat, nat>, objRefSize: nat,
                     buf: WriteBuffer) returns (ok: bool)
    requires idx < layout.Count() && layout.st.objlist[idx] < |layout.g| && node == layout.g[layout.st.objlist[idx]]
    requires objtable == layout.st.objtable && objRefSize == layout.refSize <= 4
    requires CanAppend(node) || node == Leaf(Null)
    requires forall id :: id in objtable ==> objtable[id] < TWO_32
    requires buf.Valid() && buf.all == layout.Body(idx)
    modifies buf, buf.buffer
    ensures buf.Valid() && buf.buffer == old(buf.buffer)
    ensures ok == layout.CanAppendAt(idx)
    ensures buf.all == if ok then layout.Body(idx + 1) else layout.Body(idx)
    ensures old(buf.error) ==> buf.error
    ensures buf.streamIsData && !old(buf.error) ==> !buf.error
  {
    hide ObjectBytes;
    ok := buf.AppendObject(node, objtable, objRefSize);
  }

  /** The objects, each offset taken from the count of flushed bytes and the pending ones. */
  method WriteObjects(ghost layout: Layout, g: Graph, objlist: seq<nat>, objtable: map<nat, nat>, objRefSize: nat,
                      buf: WriteBuffer) returns (ok: bool, offsets: array<nat>)
    requires layout == Layout(g, layout.st, objRefSize)
    requires layout.st.objlist == objlist && layout.st.objtable == objtable
    requires objRefSize <= 4
    requires forall i :: 0 <= i < |objlist| ==>
      objlist[i] < |g| && (CanAppend(g[objlist[i]]) || g[objlist[i]] == Leaf(Null))
    requires forall id :: id in objtable ==> objtable[id] < TWO_32
    requires buf.Valid() && buf.all == HEADER && (buf.streamIsData ==> !buf.error)
    modifies buf, buf.buffer
    ensures buf.Valid() && buf.buffer == old(buf.buffer)
    ensures fresh(offsets) && offsets.Length == |objlist|
    ensures ok <==> layout.Valid()
    ensures ok ==> buf.all == layout.Body(layout.Count())
    ensures buf.sink <= layout.Body(layout.Count())
    ensures ok && !buf.error ==> forall i :: 0 <= i < |objlist| ==> offsets[i] == |layout.Body(i)|
    ensures buf.streamIsData ==> !buf.error
  {
    hide Layout.Object, Layout.Body, Layout.CanAppendAt, CanAppend;
    BodyStarts(layout);
    offsets := new nat[|objlist|];
    for idx := 0 to |objlist|
      invariant buf.Valid() && buf.buffer == old(buf.buffer)
      invariant buf.all == layout.Body(idx)
      invariant buf.streamIsData ==> !buf.error
      invariant forall i :: 0 <= i < idx ==> layout.CanAppendAt(i)
      invariant !buf.error ==> forall i :: 0 <= i < idx ==> offsets[i] == |layout.Body(i)|
    {
      offsets[idx] := buf.written + buf.used;
      ok := WriteObject(layout, idx, g[objlist[idx]], objtable, objRefSize, buf);
      if !ok {
        BodyGrows(layout, idx, layout.Count());
        return;
      }
    }
    ok := true;
  }

  lemma BodyStarts(layout: Layout)
    ensures layout.Body(0) == HEADER
  {
  }

  /** The offset table: the low bytes of each 64-bit offset. */
  method WriteOffsets(ghost layout: Layout, offsets: array<nat>, offsetIntSize: nat, buf: WriteBuffer)
    requires layout.Count() == offsets.Length && offsetIntSize <= 8
    requires buf.Valid() && buf.buffer as object != offsets
    requires !buf.error ==> forall i :: 0 <= i < offsets.Length ==> offsets[i] == |layout.Body(i)|
    modifies buf, buf.buffer
    ensures buf.Valid() && buf.buffer == old(buf.buffer)
    ensures old(buf.error) ==> buf.error && buf.sink == old(buf.sink)
    ensures !old(buf.error) ==> buf.all == old(buf.all) + layout.OffsetTable(layout.Count(), offsetIntSize)
    ensures buf.streamIsData && !old(buf.error) ==> !buf.error
  {
    hide Bytes, Layout.Body;
    for idx := 0 to offsets.Length
      invariant buf.Valid() && buf.buffer == old(buf.buffer)
      invariant old(buf.error) ==> buf.error && buf.sink == old(buf.sink)
      invariant !old(buf.error) ==> buf.all == old(buf.all) + layout.OffsetTable(idx, offsetIntSize)
      invariant buf.streamIsData && !old(buf.error) ==> !buf.error
    {
      var swapped := Bytes(offsets[idx], 8);
      BytesSuffix(offsets[idx], 8, offsetIntSize);
      buf.BufferWrite(swapped[8 - offsetIntSize..]);
    }
  }

  /** The offset table and the trailer, then the last of the buffer. */
  method WriteTables(ghost layout: Layout, offsets: array<nat>, cnt: nat, objRefSize: nat, buf: WriteBuffer)
    returns (length: nat)
    requires cnt == layout.Count() == offsets.Length
    requires objRefSize == layout.refSize < 256
    requires layout.TableOffset() < TWO_63
    requires buf.Valid() && buf.buffer as object != offsets
    requires buf.all == layout.Body(cnt)
    requires !buf.error ==> forall i :: 0 <= i < cnt ==> offsets[i] == |layout.Body(i)|
    modifies buf, buf.buffer
    ensures buf.sink <= layout.File()
    ensures length > 0 ==> !buf.error && buf.sink == layout.File() && length == |buf.sink|
    ensures length > 0 <==> !buf.error
    ensures buf.streamIsData && !old(buf.error) ==> !buf.error
  {
    hide Bytes, Layout.Body, Width, Layout.OffsetTable;
    var lengthSoFar := buf.written + buf.used;
    var offsetIntSize := ByteCount(lengthSoFar);
    WriteOffsets(layout, offsets, offsetIntSize, buf);
    var trailer := [0, 0, 0, 0, 0, 0, offsetIntSize, objRefSize]
      + Bytes(cnt, 8) + Bytes(0, 8) + Bytes(lengthSoFar, 8);
    buf.BufferWrite(trailer);
    buf.BufferFlush();
    if buf.error {
      return 0;
    }
    length := lengthSoFar + cnt * offsetIntSize + |trailer|;
  }

  /** A graph that can be written meets what the loops over its objects need. */
  lemma LayoutReady(g: Graph, root: nat)
    requires CanWrite(g, root)
    ensures var layout := LayoutOf(g, root);
      && layout.g == g && layout.refSize == Width(layout.Count()) <= 4
      && |layout.File()| > 0 && layout.TableOffset() < TWO_63
      && layout.Body(layout.Count()) <= layout.File()
      && (forall id :: id in layout.st.objtable ==> layout.st.objtable[id] < TWO_32)
      && (forall i :: 0 <= i < layout.Count() ==>
           && layout.st.objlist[i] < |g|
           && (CanAppend(g[layout.st.objlist[i]]) || g[layout.st.objlist[i]] == Leaf(Null)))
  {
    hide Flatten, Layout.Body, Layout.Trailer, Layout.OffsetTable;
    FlattenClosure(g, root);
    BodyInFile(LayoutOf(g, root), LayoutOf(g, root).Count());
  }

  /** Writes the header, the objects, their offsets and the trailer. The result is the length
      of the file, or 0 when an object has no place in the format or the stream failed. */
  method Write(g: Graph, root: nat, buf: WriteBuffer) returns (length: nat)
    requires CanWrite(g, root)
    requires buf.Valid() && !buf.error && buf.all == []
    modifies buf, buf.buffer
    ensures length > 0 ==> buf.sink == LayoutOf(g, root).File() && length == |buf.sink|
    ensures length > 0 <==> LayoutOf(g, root).Valid() && !buf.error
    ensures buf.streamIsData ==> !buf.error
    ensures buf.sink <= LayoutOf(g, root).File()
  {
    hide Flatten, CanAppend, Layout.Body, Layout.File, Layout.TableOffset, Layout.Valid, Width;
    var flat := new Flattener();
    flat.FlattenPlist(g, root);
    ghost var layout := LayoutOf(g, root);
    LayoutReady(g, root);
    var cnt := |flat.objlist|;
    var objRefSize := ByteCount(cnt);
    buf.BufferWrite(HEADER);
    var ok, offsets := WriteObjects(layout, g, flat.objlist, flat.objtable, objRefSize, buf);
    if !ok {
      return 0;
    }
    length := WriteTables(layout, offsets, cnt, objRefSize, buf);
  }
}
