/** UTF-8 to UTF-16: with a limit on the units, or only counting them. */
module Utf8Decoder {
  import opened Prelude
  import opened Utf8

  /** The number of bytes a first byte says will follow it. */
  function TrailingBytes(b: Byte): (n: nat)
    ensures n <= 5
  {
    if b < 0xC0 then 0
    else if b < 0xE0 then 1
    else if b < 0xF0 then 2
    else if b < 0xF8 then 3
    else if b < 0xFC then 4
    else 5
  }

  /** What is subtracted once for the marks of all bytes of a character. */
  function Offset(extra: nat): int
    requires extra <= 3
  {
    match extra
    case 0 => 0
    case 1 => 0x3080
    case 2 => 0xE2080
    case _ => 0x3C82080
  }

  /** Whether some bytes are a character, given as many as the first byte asks for. */
  method IsLegalUTF8(source: seq<Byte>, length: nat) returns (legal: bool)
    requires 1 <= length <= |source| && length == TrailingBytes(source[0]) + 1
    ensures legal <==> Utf8Char(source[..length])
  {
    if length > 4 {
      return false;
    }
    var head := source[0];
    var srcPtr := length - 1;
    while 0 < srcPtr
      invariant 0 <= srcPtr < length && forall j :: srcPtr < j < length ==> Tail(source[j])
    {
      if source[srcPtr] / 0x40 != 2 {
        assert !Tail(source[srcPtr]);
        return false;
      }
      srcPtr := srcPtr - 1;
    }
    if (0x80 <= head < 0xC2) || head > 0xF4 {
      return false;
    }
    if (head == 0xE0 && source[1] < 0xA0) || (head == 0xED && source[1] > 0x9F)
       || (head == 0xF0 && source[1] < 0x90) || (head == 0xF4 && source[1] > 0x8F) {
      return false;
    }
    return true;
  }

  /** Bytes shifted together, six bits each. */
  function Shifted(b: seq<Byte>, extra: nat): (sum: int)
    requires extra < |b|
    ensures sum >= 0
  {
    if extra == 0 then b[0] else Shifted(b, extra - 1) * 64 + b[extra]
  }

  /** The bytes of a character shifted together, less the offset, in 32 bits. */
  function Assembled(b: seq<Byte>, extra: nat): (ch: int)
    requires extra <= 3 && extra < |b|
    ensures 0 <= ch < TWO_32
  {
    (Shifted(b, extra) - Offset(extra)) % TWO_32
  }

  /** Reads the bytes of a character; the cases fall through. */
  method Assemble(source: seq<Byte>, extra: nat) returns (ch: int)
    requires extra <= 3 && extra < |source|
    ensures ch == Assembled(source, extra)
  {
    ch := 0;
    var at := 0;
    if extra >= 3 {
      ch := (ch + source[at]) * 64;
      at := at + 1;
    }
    if extra >= 2 {
      ch := (ch + source[at]) * 64;
      at := at + 1;
    }
    if extra >= 1 {
      ch := (ch + source[at]) * 64;
      at := at + 1;
    }
    ch := ch + source[at];
    ShiftedIs(source, extra);
    ch := (ch - Offset(extra)) % TWO_32;
  }

  lemma ShiftedIs(b: seq<Byte>, extra: nat)
    requires extra <= 3 && extra < |b|
    ensures Shifted(b, 0) == b[0]
    ensures extra >= 1 ==> Shifted(b, 1) == Shifted(b, 0) * 64 + b[1]
    ensures extra >= 2 ==> Shifted(b, 2) == Shifted(b, 1) * 64 + b[2]
    ensures extra >= 3 ==> Shifted(b, 3) == Shifted(b, 2) * 64 + b[3]
  {
  }

  /** The magic offset takes every mark away: the result is the payload. */
  lemma AssembledIsPayload(b: seq<Byte>)
    requires Utf8Char(b)
    ensures |b| == TrailingBytes(b[0]) + 1 && Assembled(b, |b| - 1) == Payload(b)
  {
    hide Payload, Octets, Shifted, Offset;
    PayloadShifted(b);
    CharWrites(b);
  }

  lemma PayloadShifted(b: seq<Byte>)
    requires Utf8Char(b)
    ensures Shifted(b, |b| - 1) - Offset(|b| - 1) == Payload(b)
  {
    ShiftedIs(b, |b| - 1);
    hide Shifted;
  }

  /** What the decoder does with the bytes in front of it: nothing more; refuse a value beyond all
      code points; or take some bytes for a code point. */
  datatype Step = Stop | TooLarge(n: nat) | Take(ch: int, n: nat)

  function StepAt(b: seq<Byte>, lenient: bool): (s: Step)
    requires b != []
    ensures s.Take? ==> IsScalar(s.ch) && 1 <= s.n <= |b| && s.n <= 4
    ensures s.TooLarge? ==> 1 <= s.n <= |b|
  {
    var extra := TrailingBytes(b[0]);
    if |b| - 1 < extra then Stop
    else if extra > 3 || (!lenient && !Utf8Char(b[..extra + 1])) then
      if b[0] == 0xA9 then Take(REPLACEMENT, 1) else Stop
    else
      var ch := Assembled(b, extra);
      if 0xD800 <= ch <= 0xDFFF then Stop
      else if ch > 0x10FFFF then TooLarge(extra + 1)
      else Take(ch, extra + 1)
  }

  /** In strict mode exactly the characters of RFC 3629 are taken, for the code points they stand
      for, and a lone byte 0xA9, as the replacement character. */
  lemma StrictStep(b: seq<Byte>)
    requires b != []
    ensures !StepAt(b, false).TooLarge?
    ensures var s := StepAt(b, false);
      s.Take? ==> if Utf8Char(b[..s.n]) then s.ch == Payload(b[..s.n]) else b[0] == 0xA9 && s == Take(REPLACEMENT, 1)
    ensures forall k :: 1 <= k <= |b| && Utf8Char(b[..k]) ==> StepAt(b, false) == Take(Payload(b[..k]), k)
    ensures b[0] == 0xA9 ==> StepAt(b, false) == Take(REPLACEMENT, 1)
  {
    var extra := TrailingBytes(b[0]);
    forall k | 1 <= k <= |b| && Utf8Char(b[..k])
      ensures k == extra + 1 && Assembled(b, extra) == Payload(b[..k]) && IsScalar(Payload(b[..k]))
    {
      AssembledIsPayload(b[..k]);
      AssembledPrefix(b, extra, k);
      CharWrites(b[..k]);
    }
  }

  /** A value of 32 bits made of n bytes: half a pair stops, one beyond all code points is refused. */
  predicate StepsTo(s: Step, sum: int, n: nat) {
    var ch := sum % 0x1_0000_0000;
    if 0xD800 <= ch <= 0xDFFF then s == Stop
    else if ch > 0x10FFFF then s == TooLarge(n)
    else s == Take(ch, n)
  }

  /** In lenient mode the first byte alone says how many bytes are taken: one below 0xC0, then two,
      three or four, whatever the others are; their bits are shifted together. From 0xF8 on nothing
      is taken. */
  lemma LenientStep(b: seq<Byte>)
    requires b != []
    ensures b[0] < 0xC0 ==> StepAt(b, true) == Take(b[0], 1)
    ensures 0xC0 <= b[0] < 0xE0 && |b| >= 2 ==>
      var b0: int, b1: int := b[0], b[1];
      StepsTo(StepAt(b, true), (b0 - 0xC0) * 0x40 + b1 - 0x80, 2)
    ensures 0xE0 <= b[0] < 0xF0 && |b| >= 3 ==>
      var b0: int, b1: int, b2: int := b[0], b[1], b[2];
      StepsTo(StepAt(b, true), (b0 - 0xE0) * 0x1000 + (b1 - 0x80) * 0x40 + b2 - 0x80, 3)
    ensures 0xF0 <= b[0] < 0xF8 && |b| >= 4 ==>
      var b0: int, b1: int, b2: int, b3: int := b[0], b[1], b[2], b[3];
      StepsTo(StepAt(b, true), (b0 - 0xF0) * 0x4_0000 + (b1 - 0x80) * 0x1000 + (b2 - 0x80) * 0x40 + b3 - 0x80, 4)
    ensures (b[0] >= 0xC0 && |b| < 2) || (b[0] >= 0xE0 && |b| < 3) || (b[0] >= 0xF0 && |b| < 4) ==>
      StepAt(b, true) == Stop
    ensures b[0] >= 0xF8 ==> StepAt(b, true) == Stop
  {
    var extra := TrailingBytes(b[0]);
    if extra <= 3 && extra < |b| { ShiftedIs(b, extra); }
    hide Shifted;
  }

  lemma {:induction false} AssembledPrefix(b: seq<Byte>, extra: nat, k: nat)
    requires extra < k <= |b|
    ensures Shifted(b[..k], extra) == Shifted(b, extra)
  {
    if extra > 0 {
      AssembledPrefix(b, extra - 1, k);
    }
  }

  /** How many bytes are decoded before the decoder stops. */
  function DecodedLength(b: seq<Byte>, lenient: bool): (n: nat)
    ensures n <= |b|
  {
    if b == [] || !StepAt(b, lenient).Take? then 0
    else var k := StepAt(b, lenient).n; k + DecodedLength(b[k..], lenient)
  }

  /** The units they are decoded to. */
  function DecodedUnits(b: seq<Byte>, lenient: bool): seq<Unit> {
    if b == [] || !StepAt(b, lenient).Take? then []
    else Units(StepAt(b, lenient).ch) + DecodedUnits(b[StepAt(b, lenient).n..], lenient)
  }

  /** These bytes are decoded to the last. */
  predicate AllDecoded(b: seq<Byte>, lenient: bool) {
    DecodedLength(b, lenient) == |b|
  }

  /** A step depends on nothing after it. */
  lemma StepOfPrefix(b: seq<Byte>, m: nat, lenient: bool)
    requires 0 < m <= |b|
    ensures StepAt(b, lenient).Take? && StepAt(b, lenient).n <= m ==> StepAt(b[..m], lenient) == StepAt(b, lenient)
    ensures StepAt(b[..m], lenient).Take? ==> StepAt(b, lenient) == StepAt(b[..m], lenient)
  {
    hide Utf8Char, Shifted, IsScalar;
    var extra := TrailingBytes(b[0]);
    if extra < m {
      assert b[..m][..extra + 1] == b[..extra + 1];
      AssembledPrefix(b, extra, m);
    }
  }

  lemma DecodedStep(b: seq<Byte>, lenient: bool)
    requires b != []
    ensures var s := StepAt(b, lenient);
      if s.Take? then
        && DecodedLength(b, lenient) == s.n + DecodedLength(b[s.n..], lenient)
        && DecodedUnits(b, lenient) == Units(s.ch) + DecodedUnits(b[s.n..], lenient)
      else DecodedLength(b, lenient) == 0 && DecodedUnits(b, lenient) == []
  {
  }

  lemma DecodedNothing(lenient: bool)
    ensures DecodedLength([], lenient) == 0 && DecodedUnits([], lenient) == []
  {
  }

  /** Bytes decoded to the last, and then some more. */
  lemma {:induction false} DecodedSplit(b: seq<Byte>, n: nat, lenient: bool)
    requires n <= |b| && AllDecoded(b[..n], lenient)
    ensures DecodedLength(b, lenient) == n + DecodedLength(b[n..], lenient)
    ensures DecodedUnits(b, lenient) == DecodedUnits(b[..n], lenient) + DecodedUnits(b[n..], lenient)
  {
    hide StepAt, DecodedLength, DecodedUnits, Units;
    if n == 0 {
      assert b[..0] == [] && b[0..] == b;
      DecodedNothing(lenient);
    } else {
      DecodedStep(b[..n], lenient);
      StepOfPrefix(b, n, lenient);
      DecodedStep(b, lenient);
      var k := StepAt(b, lenient).n;
      assert b[..n][k..] == b[k..][..n - k];
      assert b[k..][n - k..] == b[n..];
      DecodedSplit(b[k..], n - k, lenient);
    }
  }

  /** One more step at the end. */
  lemma DecodedGrows(b: seq<Byte>, n: nat, lenient: bool)
    requires n < |b| && AllDecoded(b[..n], lenient) && StepAt(b[n..], lenient).Take?
    ensures var s := StepAt(b[n..], lenient);
      && n + s.n <= |b| && AllDecoded(b[..n + s.n], lenient)
      && DecodedUnits(b[..n + s.n], lenient) == DecodedUnits(b[..n], lenient) + Units(s.ch)
  {
    hide StepAt, DecodedLength, DecodedUnits, Units;
    var s := StepAt(b[n..], lenient);
    var m := n + s.n;
    assert b[..m][..n] == b[..n] && b[..m][n..] == b[n..][..s.n];
    DecodedSplit(b[..m], n, lenient);
    StepOfPrefix(b[n..], s.n, lenient);
    DecodedStep(b[n..][..s.n], lenient);
    assert b[n..][..s.n][s.n..] == [];
    DecodedNothing(lenient);
    assert Units(s.ch) + [] == Units(s.ch);
  }

  /** Why a decoder with a limit goes no further: there is nothing more it takes, or no room. */
  ghost predicate Finished(b: seq<Byte>, n: nat, used: nat, limit: nat, lenient: bool)
    requires n <= |b|
  {
    n < |b| ==>
      var s := StepAt(b[n..], lenient);
      s.Take? ==> limit > 0 && limit < used + |Units(s.ch)|
  }

  /** Decodes as far as the bytes can be taken and the units fit; with a limit of 0 it only counts
      units. The units are those of the first `whole` bytes. These are all the bytes consumed,
      unless a code point of two units meets a single place left: its bytes are consumed, but it
      is not written. */
  method FromUTF8(bytes: seq<Byte>, characters: array<Unit>, maxCharLen: nat, lenient: bool)
      returns (consumed: nat, usedCharLen: nat, ghost whole: nat)
    requires maxCharLen <= characters.Length
    modifies characters
    ensures whole <= consumed <= |bytes| && AllDecoded(bytes[..whole], lenient)
    ensures usedCharLen == |DecodedUnits(bytes[..whole], lenient)|
    ensures maxCharLen > 0 ==>
      usedCharLen <= maxCharLen && characters[..usedCharLen] == DecodedUnits(bytes[..whole], lenient)
    ensures Finished(bytes, whole, usedCharLen, maxCharLen, lenient)
    ensures consumed != whole <==> PairAtLimit(DecodedUnits(bytes, lenient), maxCharLen)
    ensures consumed != whole <==> SplitAtLimit(bytes, whole, usedCharLen, maxCharLen, lenient)
    ensures consumed != whole ==> consumed == whole + StepAt(bytes[whole..], lenient).n
  {
    hide StepAt, DecodedLength, DecodedUnits, Finished, Utf8Char, Assembled, SplitAtLimit, PairAtLimit, TrailingBytes;
    var source: nat := 0;
    usedCharLen, whole := 0, 0;
    var numBytes := |bytes|;
    assert bytes[..0] == [];
    DecodedNothing(lenient);
    while numBytes != 0 && (maxCharLen == 0 || usedCharLen < maxCharLen)
      invariant source == whole <= |bytes| && numBytes == |bytes| - source && AllDecoded(bytes[..whole], lenient)
      invariant usedCharLen == |DecodedUnits(bytes[..whole], lenient)|
      invariant maxCharLen > 0 ==>
        usedCharLen <= maxCharLen && characters[..usedCharLen] == DecodedUnits(bytes[..whole], lenient)
    {
      ghost var rest := bytes[source..];
      StepIs(rest, lenient);
      var extra := TrailingBytes(bytes[source]);
      numBytes := numBytes - 1;
      if extra > numBytes {
        FinishedWhen(bytes, whole, usedCharLen, maxCharLen, lenient);
        SplitIsPair(bytes, whole, usedCharLen, maxCharLen, lenient);
        return source, usedCharLen, whole;
      }
      numBytes := numBytes - extra;
      var legal := false;
      if extra <= 3 && !lenient {
        legal := IsLegalUTF8(bytes[source..], extra + 1);
      }
      if extra > 3 || (!lenient && !legal) {
        if bytes[source] == 0xA9 {
          DecodedGrows(bytes, whole, lenient);
          numBytes := numBytes + extra;
          source := source + 1;
          whole := source;
          if maxCharLen > 0 {
            characters[usedCharLen] := REPLACEMENT;
          }
          usedCharLen := usedCharLen + 1;
          continue;
        }
        FinishedWhen(bytes, whole, usedCharLen, maxCharLen, lenient);
        SplitIsPair(bytes, whole, usedCharLen, maxCharLen, lenient);
        return source, usedCharLen, whole;
      }
      var ch := Assemble(bytes[source..], extra);
      source := source + extra + 1;
      if ch <= 0xFFFF {
        if 0xD800 <= ch <= 0xDFFF {
          source := source - (extra + 1);
          FinishedWhen(bytes, whole, usedCharLen, maxCharLen, lenient);
          SplitIsPair(bytes, whole, usedCharLen, maxCharLen, lenient);
          return source, usedCharLen, whole;
        }
        DecodedGrows(bytes, whole, lenient);
        whole := source;
        if maxCharLen > 0 {
          characters[usedCharLen] := ch;
        }
        usedCharLen := usedCharLen + 1;
      } else if ch > 0x10FFFF {
        source := source - (extra + 1);
        FinishedWhen(bytes, whole, usedCharLen, maxCharLen, lenient);
        SplitIsPair(bytes, whole, usedCharLen, maxCharLen, lenient);
        return source, usedCharLen, whole;
      } else {
        if maxCharLen > 0 {
          if usedCharLen + 2 > maxCharLen {
            SplitWhen(bytes, whole, usedCharLen, maxCharLen, lenient);
            SplitIsPair(bytes, whole, usedCharLen, maxCharLen, lenient);
            return source, usedCharLen, whole;
          }
          characters[usedCharLen] := (ch - 0x1_0000) / 1024 + 0xD800;
          characters[usedCharLen + 1] := (ch - 0x1_0000) % 1024 + 0xDC00;
        }
        DecodedGrows(bytes, whole, lenient);
        whole := source;
        usedCharLen := usedCharLen + 2;
      }
    }
    FinishedWhen(bytes, whole, usedCharLen, maxCharLen, lenient);
    SplitIsPair(bytes, whole, usedCharLen, maxCharLen, lenient);
    consumed := source;
  }

  /** The units after the first `limit` ones start with the second half of a pair. */
  predicate PairAtLimit(units: seq<Unit>, limit: nat) {
    0 < limit < |units| && IsLow(units[limit])
  }

  /** Where the decoder stops, a single place is left for a pair exactly when the limit falls
      between the halves of a pair of the whole decoding. */
  lemma SplitIsPair(b: seq<Byte>, n: nat, used: nat, limit: nat, lenient: bool)
    requires n <= |b| && AllDecoded(b[..n], lenient) && used == |DecodedUnits(b[..n], lenient)|
    requires Finished(b, n, used, limit, lenient) && (limit > 0 ==> used <= limit)
    ensures SplitAtLimit(b, n, used, limit, lenient) <==> PairAtLimit(DecodedUnits(b, lenient), limit)
  {
    hide StepAt, DecodedLength, DecodedUnits, Units;
    DecodedSplit(b, n, lenient);
    if n < |b| {
      DecodedStep(b[n..], lenient);
      var s := StepAt(b[n..], lenient);
      if s.Take? { UnitsHalves(s.ch); }
    } else {
      assert b[n..] == [];
      DecodedNothing(lenient);
    }
  }

  lemma UnitsHalves(ch: int)
    requires IsScalar(ch)
    ensures !IsLow(Units(ch)[0]) && (|Units(ch)| == 2 ==> IsLow(Units(ch)[1]))
  {
  }

  /** A code point of two units with a single place left for it. */
  ghost predicate SplitAtLimit(b: seq<Byte>, n: nat, used: nat, limit: nat, lenient: bool)
    requires n <= |b|
  {
    && n < |b| && used < limit
    && var s := StepAt(b[n..], lenient);
      s.Take? && limit < used + |Units(s.ch)|
  }

  /** The step the decoder takes, as its branches find it. */
  lemma StepIs(b: seq<Byte>, lenient: bool)
    requires b != []
    ensures var extra, s := TrailingBytes(b[0]), StepAt(b, lenient);
      if |b| - 1 < extra then s == Stop
      else if extra > 3 || (!lenient && !Utf8Char(b[..extra + 1])) then
        s == if b[0] == 0xA9 then Take(REPLACEMENT, 1) else Stop
      else
        var ch := Assembled(b, extra);
        s == if 0xD800 <= ch <= 0xDFFF then Stop else if ch > 0x10FFFF then TooLarge(extra + 1) else Take(ch, extra + 1)
  {
  }

  lemma FinishedWhen(b: seq<Byte>, n: nat, used: nat, limit: nat, lenient: bool)
    requires n <= |b| && (n == |b| || !StepAt(b[n..], lenient).Take? || (limit > 0 && limit == used))
    ensures Finished(b, n, used, limit, lenient) && !SplitAtLimit(b, n, used, limit, lenient)
  {
  }

  lemma SplitWhen(b: seq<Byte>, n: nat, used: nat, limit: nat, lenient: bool)
    requires n < |b| && StepAt(b[n..], lenient).Take? && used < limit < used + |Units(StepAt(b[n..], lenient).ch)|
    ensures Finished(b, n, used, limit, lenient) && SplitAtLimit(b, n, used, limit, lenient)
  {
  }
}
