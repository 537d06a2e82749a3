/** What a binary property list file says: the bytes of each object, of the offset table and
    of the trailer, as functions of the object graph. */
module PlistFormat {
  import opened Prelude
  import opened SizedInts
  import opened PlistModel
  import opened PlistFlatten

  const MARKER_FALSE: Byte := 0x08
  const MARKER_TRUE: Byte := 0x09
  const MARKER_INT: Byte := 0x10
  const MARKER_REAL: Byte := 0x20
  const MARKER_DATE: Byte := 0x33
  const MARKER_DATA: Byte := 0x40
  const MARKER_ASCII: Byte := 0x50
  const MARKER_UNICODE: Byte := 0x60
  const MARKER_UID: Byte := 0x80
  const MARKER_ARRAY: Byte := 0xA0
  const MARKER_DICT: Byte := 0xD0

  /** "bplist00" */
  const HEADER: seq<Byte> := [0x62, 0x70, 0x6C, 0x69, 0x73, 0x74, 0x30, 0x30]

  const TRAILER_SIZE: int := 32

  /** The binary logarithm of a width class, as an integer's marker stores it. */
  function WidthLog(n: nat): nat {
    if n < 0x100 then 0 else if n < 0x1_0000 then 1 else if n < TWO_32 then 2 else 3
  }

  function IntBytes(n: Word): seq<Byte> {
    [MARKER_INT + WidthLog(n)] + Bytes(n, Width(n))
  }

  /** A marker whose low four bits are the count, or 15 with the count as an integer after it. */
  function CountHeader(marker: Byte, count: Word): seq<Byte>
    requires marker <= 0xF0
  {
    if count < 15 then [marker + count] else [marker + 15] + IntBytes(count)
  }

  predicate IsAscii(units: seq<Unit>) {
    forall i :: 0 <= i < |units| ==> units[i] < 0x80
  }

  /** The low byte of each unit. */
  function AsciiBytes(units: seq<Unit>): (s: seq<Byte>)
    ensures |s| == |units|
  {
    seq(|units|, i requires 0 <= i < |units| => units[i] % 0x100)
  }

  /** Both bytes of each unit, high byte first. */
  function UnitBytes(units: seq<Unit>): (s: seq<Byte>)
    ensures |s| == 2 * |units|
  {
    seq(2 * |units|, i requires 0 <= i < 2 * |units| =>
      if i % 2 == 0 then units[i / 2] / 0x100 else units[i / 2] % 0x100)
  }

  function Unsigned(n: int): Word
    requires -TWO_63 <= n < TWO_63
  {
    if n < 0 then n + TWO_64 else n
  }

  /** Primitive objects the format can hold. */
  predicate Writable(v: Plist) {
    v.IsPrimitive() && !v.Null? && v.InRange()
  }

  function LeafBytes(v: Plist): seq<Byte>
    requires Writable(v)
  {
    match v
    case Bool(flag) => [if flag then MARKER_TRUE else MARKER_FALSE]
    case Int(n) => IntBytes(Unsigned(n))
    case BigInt(high, low) => [MARKER_INT + 4] + (Bytes(Unsigned(high), 8) + Bytes(low, 8))
    case Real32(bits) => [MARKER_REAL + 2] + Bytes(bits, 4)
    case Real64(bits) => [MARKER_REAL + 3] + Bytes(bits, 8)
    case Date(bits) => [MARKER_DATE] + Bytes(bits, 8)
    case Data(bytes) => CountHeader(MARKER_DATA, |bytes|) + bytes
    case Text(units) =>
      if IsAscii(units) then CountHeader(MARKER_ASCII, |units|) + AsciiBytes(units)
      else CountHeader(MARKER_UNICODE, |units|) + UnitBytes(units)
    case Uid(n) => [MARKER_UID + (Width(n) - 1)] + Bytes(n, Width(n))
  }

  /** The numbers of the first `n` objects of `ids`, `size` bytes each. */
  function Refs(ids: seq<nat>, n: nat, table: map<nat, nat>, size: nat): (s: seq<Byte>)
    requires n <= |ids|
    ensures |s| == n * size
  {
    if n == 0 then [] else Refs(ids, n - 1, table, size) + Bytes(NumberOf(table, ids[n - 1]), size)
  }

  /** A number lookup: an object without a number reads as 0. */
  function NumberOf(table: map<nat, nat>, id: nat): nat {
    if id in table then table[id] else 0
  }

  /** The writer has a case for the object. */
  predicate CanAppend(node: Node) {
    match node
    case Leaf(v) => Writable(v)
    case ArrayNode(items) => |items| < TWO_63
    case DictNode(keys, values) => |keys| == |values| < TWO_63
  }

  function ObjectBytes(node: Node, table: map<nat, nat>, size: nat): seq<Byte>
    requires CanAppend(node)
  {
    match node
    case Leaf(v) => LeafBytes(v)
    case ArrayNode(items) => CountHeader(MARKER_ARRAY, |items|) + Refs(items, |items|, table, size)
    case DictNode(keys, values) =>
      CountHeader(MARKER_DICT, |keys|) + Refs(keys + values, |keys + values|, table, size)
  }

  /** The layout of a file: the graph, its objects in file order, their numbers, the reference size. */
  datatype Layout = Layout(g: Graph, st: State, refSize: nat) {
    function Count(): nat {
      |st.objlist|
    }

    predicate CanAppendAt(i: nat)
      requires i < Count()
    {
      st.objlist[i] < |g| && CanAppend(g[st.objlist[i]])
    }

    ghost predicate Valid() {
      forall i :: 0 <= i < Count() ==> CanAppendAt(i)
    }

    /** The bytes of the `i`th object; none when the writer refuses it. */
    function Object(i: nat): seq<Byte>
      requires i < Count()
    {
      if CanAppendAt(i) then ObjectBytes(g[st.objlist[i]], st.objtable, refSize) else []
    }

    /** The header and the first `n` objects. */
    function Body(n: nat): seq<Byte>
      requires n <= Count()
    {
      if n == 0 then HEADER else Body(n - 1) + Object(n - 1)
    }

    /** The offsets of the first `n` objects, `size` bytes each. */
    function OffsetTable(n: nat, size: nat): (s: seq<Byte>)
      requires n <= Count()
      ensures |s| == n * size
    {
      if n == 0 then [] else OffsetTable(n - 1, size) + Bytes(|Body(n - 1)|, size)
    }

    function TableOffset(): nat {
      |Body(Count())|
    }

    function Trailer(): (s: seq<Byte>)
      ensures |s| == TRAILER_SIZE
    {
      [0, 0, 0, 0, 0, 0, Width(TableOffset()), refSize % 256]
        + Bytes(Count(), 8) + Bytes(0, 8) + Bytes(TableOffset(), 8)
    }

    function File(): seq<Byte> {
      Body(Count()) + OffsetTable(Count(), Width(TableOffset())) + Trailer()
    }
  }

  /** The layout the writer gives a graph. */
  function LayoutOf(g: Graph, root: nat): Layout
    requires Acyclic(g) && root < |g|
  {
    var st := Flatten(g, root, EMPTY);
    Layout(g, st, Width(|st.objlist|))
  }
}
