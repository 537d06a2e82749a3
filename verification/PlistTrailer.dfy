/** The trailer of a binary property list file and the checks that make it trustworthy. */
module PlistTrailer {
  import opened Prelude
  import opened SizedInts
  import opened PlistFormat

  datatype Trailer = Trailer(offsetIntSize: nat, objectRefSize: nat, numObjects: nat, topObject: nat,
                             offsetTableOffset: nat)

  /** The last 32 bytes: six bytes without meaning here, two sizes, three 64-bit integers. */
  function ReadTrailer(data: seq<Byte>): Trailer
    requires |data| >= TRAILER_SIZE
  {
    var t := data[|data| - TRAILER_SIZE..];
    Trailer(t[6], t[7], SizedInt(t[8..16]), SizedInt(t[16..24]), SizedInt(t[24..32]))
  }

  /** The parts of the file fit together: objects, offset table, trailer and nothing else. */
  predicate FitsTogether(data: seq<Byte>, t: Trailer) {
    && 1 <= t.numObjects < TWO_63 && t.topObject < t.numObjects
    && 9 <= t.offsetTableOffset < TWO_63
    && 1 <= t.offsetIntSize && 1 <= t.objectRefSize
    && |data| == t.offsetTableOffset + t.numObjects * t.offsetIntSize + TRAILER_SIZE
  }

  /** An entry ends no later than all entries do. */
  lemma EntryBelow(i: nat, n: nat, size: nat)
    requires i < n
    ensures i * size + size <= n * size
  {
    assert n * size == i * size + (n - i) * size;
    assert (n - i) * size == size + (n - i - 1) * size;
  }

  /** The position of entry `i` of the offset table; the entry lies before the trailer. */
  function EntryAt(data: seq<Byte>, t: Trailer, i: nat): (pos: nat)
    requires FitsTogether(data, t) && i < t.numObjects
    ensures t.offsetTableOffset <= pos && pos + t.offsetIntSize + TRAILER_SIZE <= |data|
  {
    EntryBelow(i, t.numObjects, t.offsetIntSize);
    t.offsetTableOffset + i * t.offsetIntSize
  }

  /** Entry `i` of the offset table. */
  function OffsetAt(data: seq<Byte>, t: Trailer, i: nat): Word
    requires FitsTogether(data, t) && i < t.numObjects
  {
    var pos := EntryAt(data, t, i);
    SizedInt(data[pos..pos + t.offsetIntSize])
  }

  /** Sizes wide enough to name every object and every place before the offset table. */
  predicate WideEnough(t: Trailer) {
    && (t.objectRefSize < 8 ==> t.numObjects < Pow256(t.objectRefSize))
    && (t.offsetIntSize < 8 ==> t.offsetTableOffset < Pow256(t.offsetIntSize))
  }

  /** The first `n` offsets lie before the offset table. */
  ghost predicate OffsetsInside(data: seq<Byte>, t: Trailer, n: nat)
    requires FitsTogether(data, t) && n <= t.numObjects
  {
    forall i :: 0 <= i < n ==> OffsetAt(data, t, i) < t.offsetTableOffset
  }

  /** A file the reader will parse. */
  ghost predicate Accepted(data: seq<Byte>) {
    && |data| >= TRAILER_SIZE + 8 + 1
    && data[..7] == HEADER[..7]
    && TableAccepted(data, ReadTrailer(data))
  }

  ghost predicate TableAccepted(data: seq<Byte>, t: Trailer) {
    && FitsTogether(data, t) && WideEnough(t)
    && OffsetsInside(data, t, t.numObjects)
    && 8 <= OffsetAt(data, t, t.topObject)
  }

  /** Addition and multiplication on 64-bit words, noting overflow. */
  method CheckedAdd(x: Word, y: Word, err: bool) returns (sum: Word, err': bool)
    ensures err' == (err || x + y >= TWO_64)
    ensures sum == (x + y) % TWO_64 && (!err' ==> sum == x + y)
  {
    err' := err || TWO_64 - 1 - y < x;
    sum := (x + y) % TWO_64;
  }

  method CheckedMul(x: Word, y: Word, err: bool) returns (product: Word, err': bool)
    ensures err' == (err || x * y >= TWO_64)
    ensures product == x * y % TWO_64 && (!err' ==> product == x * y)
  {
    if x == 0 {
      return 0, err;
    }
    err' := err || (TWO_64 - 1) / x < y;
    product := (x * y) % TWO_64;
    DivisionTest(x, y);
  }

  lemma DivisionTest(x: Word, y: Word)
    requires x > 0
    ensures (TWO_64 - 1) / x < y <==> x * y >= TWO_64
  {
    var q, m := TWO_64 - 1, (TWO_64 - 1) / x;
    assert m * x <= q < (m + 1) * x;
    if m < y {
      assert (m + 1) * x <= y * x;
    } else {
      assert y * x <= m * x;
    }
  }

  /** The sum of the sections, computed the way the reader does, is the length of the data
      exactly when the sections fit together. */
  method SectionsFit(datalen: Word, t: Trailer) returns (ok: bool)
    requires 9 <= t.offsetTableOffset < TWO_63 && 1 <= t.numObjects < TWO_63 && 1 <= t.offsetIntSize < 256
    ensures ok <==> datalen == t.offsetTableOffset + t.numObjects * t.offsetIntSize + TRAILER_SIZE
  {
    var offsetTableSize, err := CheckedMul(t.numObjects, t.offsetIntSize, false);
    if err || offsetTableSize < 1 {
      assert t.numObjects * t.offsetIntSize >= 1;
      return false;
    }
    var objectDataSize := t.offsetTableOffset - 8;
    var tmpSum;
    tmpSum, err := CheckedAdd(8, objectDataSize, err);
    tmpSum, err := CheckedAdd(tmpSum, offsetTableSize, err);
    tmpSum, err := CheckedAdd(tmpSum, TRAILER_SIZE, err);
    if err {
      return false;
    }
    ok := datalen == tmpSum;
  }

  /** The checks on the trailer's own fields. */
  method CheckFields(ghost data: seq<Byte>, datalen: Word, t: Trailer) returns (ok: bool)
    requires datalen == |data| >= TRAILER_SIZE && t.offsetIntSize < 256
    requires t.numObjects < TWO_64 && t.offsetTableOffset < TWO_64
    ensures ok <==> FitsTogether(data, t) && WideEnough(t)
  {
    if TWO_63 - 1 < t.numObjects || TWO_63 - 1 < t.offsetTableOffset
      || t.numObjects < 1 || t.numObjects <= t.topObject || t.offsetTableOffset < 9 {
      return false;
    }
    if datalen - TRAILER_SIZE <= t.offsetTableOffset || t.offsetIntSize < 1 || t.objectRefSize < 1 {
      assert t.offsetIntSize >= 1 ==> t.numObjects * t.offsetIntSize >= 1;
      return false;
    }
    var fits := SectionsFit(datalen, t);
    if !fits {
      return false;
    }
    if t.objectRefSize < 8 && Pow256(t.objectRefSize) <= t.numObjects {
      return false;
    }
    if t.offsetIntSize < 8 && Pow256(t.offsetIntSize) <= t.offsetTableOffset {
      return false;
    }
    ok := true;
  }

  /** The loop over the offset table, then the offset of the top object. */
  method CheckOffsets(data: seq<Byte>, t: Trailer) returns (ok: bool, offset: nat)
    requires FitsTogether(data, t)
    ensures ok <==> OffsetsInside(data, t, t.numObjects) && 8 <= OffsetAt(data, t, t.topObject)
    ensures ok ==> 8 <= offset < t.offsetTableOffset < |data| && offset == OffsetAt(data, t, t.topObject)
  {
    hide FitsTogether, SizedInt;
    var bytesptr := t.offsetTableOffset;
    var maxOffset := t.offsetTableOffset - 1;
    for idx := 0 to t.numObjects
      invariant bytesptr == t.offsetTableOffset + idx * t.offsetIntSize
      invariant OffsetsInside(data, t, idx)
    {
      assert bytesptr == EntryAt(data, t, idx);
      var off := GetSizedInt(data, bytesptr, t.offsetIntSize);
      if maxOffset < off {
        assert OffsetAt(data, t, idx) == off;
        return false, 0;
      }
      bytesptr := bytesptr + t.offsetIntSize;
    }
    bytesptr := t.offsetTableOffset + t.topObject * t.offsetIntSize;
    TopObjectListed(data, t);
    assert bytesptr == EntryAt(data, t, t.topObject);
    offset := GetSizedInt(data, bytesptr, t.offsetIntSize);
    ok := !(offset < 8 || t.offsetTableOffset <= offset);
  }

  lemma TopObjectListed(data: seq<Byte>, t: Trailer)
    requires FitsTogether(data, t)
    ensures t.topObject < t.numObjects && t.offsetTableOffset < |data|
  {
  }

  /** Validates the trailer and every entry of the offset table, and finds the top object. */
  method GetTopLevelInfo(data: seq<Byte>) returns (ok: bool, marker: Byte, offset: nat, trailer: Trailer)
    requires |data| < TWO_64
    ensures ok <==> Accepted(data)
    ensures ok ==> trailer == ReadTrailer(data) && FitsTogether(data, trailer)
    ensures ok ==> 8 <= offset < trailer.offsetTableOffset && marker == data[offset]
    ensures ok ==> offset == OffsetAt(data, trailer, trailer.topObject)
  {
    hide SizedInt, FitsTogether, WideEnough, OffsetAt, OffsetsInside;
    ok, marker, offset, trailer := false, 0, 0, Trailer(0, 0, 0, 0, 0);
    if |data| < TRAILER_SIZE + 8 + 1 || data[..7] != HEADER[..7] {
      return;
    }
    var t := ReadTrailer(data);
    ok := CheckFields(data, |data|, t);
    if ok {
      ok, offset := CheckOffsets(data, t);
      if ok {
        marker, trailer := data[offset], t;
      }
    }
  }
}
