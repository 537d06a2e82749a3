/** What the bytes of a file say, one object at a time, and when an offset denotes a value:
    when everything reachable from it is well formed and the references end. */
module PlistDecode {
  import opened Prelude
  import opened SizedInts
  import opened PlistModel
  import opened PlistFormat
  import opened PlistTrailer

  datatype Kind = ArrayKind | SetKind | DictKind

  /** One object, its references not followed: `count` of them stored from `first` on. */
  datatype Shape = Malformed | Whole(value: Plist) | Refers(kind: Kind, first: nat, count: nat)

  /** The offset returned for a reference that leads nowhere. */
  const NO_OFFSET: nat := 0xFFFF_FFFF_FFFF_FFFF

  function Shift(bits: nat): (p: nat)
    ensures p >= 1
  {
    if bits == 0 then 1 else 2 * Shift(bits - 1)
  }

  /** The integer object at `ptr`, if it ends by `end`, and the place after it. Its width is
      handed on as one byte, so widths of 256 and more read no bytes at all. */
  function ReadInt(data: seq<Byte>, ptr: nat, end: nat): (r: Option<(Word, nat)>)
    requires end < |data|
    ensures r.Some? ==> ptr < r.value.1 <= end + 1
  {
    if end < ptr then None
    else if data[ptr] / 16 != 1 then None
    else
      var cnt := Shift(data[ptr] % 16);
      if end < ptr + cnt then None
      else Some((SizedInt(data[ptr + 1..ptr + 1 + cnt % 256]), ptr + 1 + cnt))
  }

  /** The count in the object header at `off`, and the place after the header. */
  function ReadCount(data: seq<Byte>, off: nat, end: nat): (r: Option<(nat, nat)>)
    requires off <= end < |data|
    ensures r.Some? ==> off < r.value.1 <= end + 1
  {
    var low := data[off] % 16;
    if low != 15 then Some((low, off + 1))
    else
      match ReadInt(data, off + 1, end)
      case None => None
      case Some((n, ptr)) => if TWO_63 - 1 < n then None else Some((n, ptr))
  }

  function Signed(n: Word): int {
    if n < TWO_63 then n else n - TWO_64
  }

  function JoinBytes(high: Byte, low: Byte): Unit {
    var h: int := high;
    h * 0x100 + low
  }

  /** The units of a string stored as two bytes each. */
  function UnitsOf(s: seq<Byte>): (units: seq<Unit>)
    ensures |units| == |s| / 2
  {
    seq(|s| / 2, i requires 0 <= i < |s| / 2 => JoinBytes(s[2 * i], s[2 * i + 1]))
  }

  function DecodeInt(data: seq<Byte>, off: nat, end: nat): Shape
    requires off <= end < |data|
  {
    var cnt := Shift(data[off] % 16);
    if end < off + cnt || 16 < cnt then Malformed
    else
      var n := SizedInt(data[off + 1..off + 1 + cnt]);
      Whole(if 8 < cnt then BigInt(0, n) else Int(Signed(n)))
  }

  function DecodeReal(data: seq<Byte>, off: nat, end: nat): Shape
    requires off <= end < |data|
  {
    if data[off] % 16 == 2 && off + 4 <= end then Whole(Real32(SizedInt(data[off + 1..off + 5])))
    else if data[off] % 16 == 3 && off + 8 <= end then Whole(Real64(SizedInt(data[off + 1..off + 9])))
    else Malformed
  }

  function DecodeUid(data: seq<Byte>, off: nat, end: nat): Shape
    requires off <= end < |data|
  {
    var cnt := data[off] % 16 + 1;
    if end < off + cnt then Malformed
    else
      var n := SizedInt(data[off + 1..off + 1 + cnt]);
      if TWO_32 - 1 < n then Malformed else Whole(Uid(n))
  }

  /** Data and strings: `size` bytes for each of the counted items. */
  function DecodeBytes(data: seq<Byte>, off: nat, end: nat, size: nat): Option<seq<Byte>>
    requires off <= end < |data|
  {
    match ReadCount(data, off, end)
    case None => None
    case Some((n, ptr)) => if end + 1 < ptr + n * size then None else Some(data[ptr..ptr + n * size])
  }

  /** Collections: `perItem` references for each of the counted items. The list of pointers
      the reader fills must have a size that is a machine word. */
  function DecodeRefs(data: seq<Byte>, off: nat, end: nat, kind: Kind, refSize: nat): Shape
    requires off <= end < |data|
  {
    match ReadCount(data, off, end)
    case None => Malformed
    case Some((n, ptr)) =>
      var count := if kind == DictKind then 2 * n else n;
      if end + 1 < ptr + count * refSize || TWO_64 <= count * 8 then Malformed else Refers(kind, ptr, count)
  }

  datatype File = File(data: seq<Byte>, trailer: Trailer) {
    predicate Trusted() {
      FitsTogether(data, trailer)
    }

    /** The last byte before the offset table. */
    function End(): (end: nat)
      requires Trusted()
      ensures 8 <= end && end + 1 == trailer.offsetTableOffset < |data|
    {
      trailer.offsetTableOffset - 1
    }

    /** The object at `off`, its references not followed. */
    function Decode(off: nat): Shape
      requires Trusted()
    {
      if off < 8 || End() < off then Malformed else DecodeInside(off)
    }

    function DecodeInside(off: nat): Shape
      requires Trusted() && 8 <= off <= End()
    {
      var marker, end := data[off], End();
      match marker / 16
      case 0 =>
        if marker == 0 then Whole(Null)
        else if marker == MARKER_FALSE then Whole(Bool(false))
        else if marker == MARKER_TRUE then Whole(Bool(true))
        else Malformed
      case 1 => DecodeInt(data, off, end)
      case 2 => DecodeReal(data, off, end)
      case 3 =>
        if marker != MARKER_DATE || end < off + 8 then Malformed
        else Whole(Date(SizedInt(data[off + 1..off + 9])))
      case 4 =>
        (match DecodeBytes(data, off, end, 1) case None => Malformed case Some(s) => Whole(Data(s)))
      case 5 =>
        (match DecodeBytes(data, off, end, 1) case None => Malformed case Some(s) => Whole(Text(s)))
      case 6 =>
        (match DecodeBytes(data, off, end, 2) case None => Malformed case Some(s) => Whole(Text(UnitsOf(s))))
      case 8 => DecodeUid(data, off, end)
      case 10 => DecodeRefs(data, off, end, ArrayKind, trailer.objectRefSize)
      case 12 => DecodeRefs(data, off, end, SetKind, trailer.objectRefSize)
      case 13 => DecodeRefs(data, off, end, DictKind, trailer.objectRefSize)
      case _ => Malformed
    }

    /** The offset of the object that the reference stored at `pos` names. */
    function RefTarget(pos: int): nat
      requires Trusted()
    {
      if pos < 8 || trailer.offsetTableOffset < pos + trailer.objectRefSize then NO_OFFSET
      else
        var ref := SizedInt(data[pos..pos + trailer.objectRefSize]);
        if trailer.numObjects <= ref then NO_OFFSET else OffsetAt(data, trailer, ref)
    }

    /** The offsets an object refers to, in order. */
    function Targets(off: nat): (s: seq<nat>)
      requires Trusted()
      ensures |s| == if Decode(off).Refers? then Decode(off).count else 0
    {
      match Decode(off)
      case Refers(_, first, count) =>
        seq(count, i requires 0 <= i < count => RefTarget(first + i * trailer.objectRefSize))
      case _ => []
    }

    /** The value at `off` when following references at most `fuel` deep reaches an end everywhere. */
    ghost function ParseN(off: nat, fuel: nat): Option<Plist>
      requires Trusted()
      decreases fuel, 0
    {
      match Decode(off)
      case Malformed => None
      case Whole(v) => Some(v)
      case Refers(kind, _, _) =>
        if fuel == 0 then None
        else
          match ParseList(Targets(off), fuel - 1)
          case None => None
          case Some(list) => Build(kind, list)
    }

    ghost predicate AllParseN(offs: seq<nat>, fuel: nat)
      requires Trusted()
      decreases fuel, 1
    {
      forall i :: 0 <= i < |offs| ==> ParseN(offs[i], fuel).Some?
    }

    ghost function ParseList(offs: seq<nat>, fuel: nat): Option<seq<Plist>>
      requires Trusted()
      decreases fuel, 2
    {
      if AllParseN(offs, fuel) then
        Some(seq(|offs|, i requires 0 <= i < |offs| => ParseN(offs[i], fuel).GetOr(Null)))
      else None
    }

    /** Everything reachable from `off` is well formed and no object reaches itself. */
    ghost predicate Parses(off: nat)
      requires Trusted()
    {
      exists fuel: nat :: ParseN(off, fuel).Some?
    }

    ghost function Value(off: nat): Plist
      requires Trusted() && Parses(off)
    {
      var fuel: nat :| ParseN(off, fuel).Some?;
      ParseN(off, fuel).value
    }
  }

  /** A collection of the given values; dictionary keys must be primitive. */
  function Build(kind: Kind, list: seq<Plist>): Option<Plist> {
    match kind
    case ArrayKind => Some(Array(list))
    case SetKind => Some(Set(list))
    case DictKind =>
      var n := |list| / 2;
      if forall i :: 0 <= i < n ==> list[i].IsPrimitive() then Some(Dict(list[..n], list[n..])) else None
  }
}
