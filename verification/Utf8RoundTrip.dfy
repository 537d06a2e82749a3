/** What the encoder and the decoder are for: text comes back as it was, legal bytes are exactly
    those that are decoded, and the counting passes find the lengths that are produced. */
module Utf8RoundTrip {
  import opened Prelude
  import opened Utf8
  import opened Utf8Decoder
  import opened Utf8Encoder

  /** Decoding the encoding of well-formed text gives the text. */
  lemma {:induction false} RoundTrip(s: seq<Unit>)
    requires WellFormed(s)
    ensures AllDecoded(Encoded(s), false) && DecodedUnits(Encoded(s), false) == s
  {
    hide FrontOf, WellFormed, Encoded, Octets, StepAt, DecodedLength, DecodedUnits;
    if s == [] {
      NothingEncoded();
      DecodedNothing(false);
    } else {
      var f := FrontOf(s);
      FrontEncoded(s);
      var b, rest := Octets(f.ch), Encoded(s[f.n..]);
      RoundTrip(s[f.n..]);
      OctetsRead(f.ch);
      StrictStep(b + rest);
      assert (b + rest)[..|b|] == b && (b + rest)[|b|..] == rest;
      DecodedStep(b + rest, false);
      FrontUnits(s);
    }
  }

  lemma FrontUnits(s: seq<Unit>)
    requires s != [] && FrontOf(s).Front?
    ensures s == Units(FrontOf(s).ch) + s[FrontOf(s).n..]
  {
  }

  /** Bytes made of characters and of lone bytes 0xA9. */
  ghost predicate Legal(b: seq<Byte>) {
    b == [] || (b[0] == 0xA9 && Legal(b[1..])) || exists k :: 1 <= k <= |b| && Utf8Char(b[..k]) && Legal(b[k..])
  }

  /** In strict mode exactly the legal bytes are decoded to the last. */
  lemma {:induction false} LegalIsDecoded(b: seq<Byte>)
    ensures Legal(b) <==> AllDecoded(b, false)
    decreases |b|
  {
    hide StepAt, DecodedLength, Utf8Char;
    if b == [] {
      DecodedNothing(false);
    } else {
      StrictStep(b);
      DecodedStep(b, false);
      forall k | 1 <= k <= |b|
        ensures Legal(b[k..]) <==> AllDecoded(b[k..], false)
      {
        LegalIsDecoded(b[k..]);
      }
      var s := StepAt(b, false);
      if s.Take? {
        assert Legal(b[s.n..]) <==> AllDecoded(b[s.n..], false);
        if Legal(b) && !(b[0] == 0xA9 && Legal(b[1..])) {
          var k :| 1 <= k <= |b| && Utf8Char(b[..k]) && Legal(b[k..]);
          assert s.n == k;
        }
      }
    }
  }

  /** The bytes decoded in strict mode are the longest legal prefix. */
  lemma LongestLegal(b: seq<Byte>)
    ensures var n := DecodedLength(b, false);
      Legal(b[..n]) && forall m :: n < m <= |b| ==> !Legal(b[..m])
  {
    hide Legal, DecodedLength, AllDecoded;
    var n := DecodedLength(b, false);
    DecodedPrefixWhole(b, false);
    LegalIsDecoded(b[..n]);
    forall m | n < m <= |b|
      ensures !Legal(b[..m])
    {
      LegalIsDecoded(b[..m]);
      if Legal(b[..m]) { DecodedAtLeast(b, m, false); }
    }
  }

  lemma DecodedAtLeast(b: seq<Byte>, m: nat, lenient: bool)
    requires m <= |b| && AllDecoded(b[..m], lenient)
    ensures m <= DecodedLength(b, lenient)
  {
    DecodedSplit(b, m, lenient);
  }

  /** The decoded bytes by themselves are decoded to the last, to the same units. */
  lemma {:induction false} DecodedPrefixWhole(b: seq<Byte>, lenient: bool)
    ensures var n := DecodedLength(b, lenient);
      AllDecoded(b[..n], lenient) && DecodedUnits(b[..n], lenient) == DecodedUnits(b, lenient)
    decreases |b|
  {
    hide StepAt, DecodedLength, DecodedUnits, Units;
    if b == [] || !StepAt(b, lenient).Take? {
      if b != [] { DecodedStep(b, lenient); } else { DecodedNothing(lenient); }
      assert b[..0] == [];
      DecodedNothing(lenient);
    } else {
      var k := StepAt(b, lenient).n;
      DecodedStep(b, lenient);
      DecodedPrefixWhole(b[k..], lenient);
      var n := DecodedLength(b, lenient);
      StepOfPrefix(b, n, lenient);
      DecodedStep(b[..n], lenient);
      assert b[..n][k..] == b[k..][..n - k];
    }
  }

  /** Bytes made of characters alone. */
  ghost predicate Characters(b: seq<Byte>) {
    b == [] || exists k :: 1 <= k <= |b| && Utf8Char(b[..k]) && Characters(b[k..])
  }

  /** Encoding what characters decode to gives the same bytes. */
  lemma {:induction false} BytesRoundTrip(b: seq<Byte>)
    requires Characters(b)
    ensures var s := DecodedUnits(b, false); AllDecoded(b, false) && WellFormed(s) && Encoded(s) == b
    decreases |b|
  {
    hide FrontOf, WellFormed, Encoded, Octets, StepAt, DecodedLength, DecodedUnits, Payload;
    if b == [] {
      NothingEncoded();
      DecodedNothing(false);
    } else {
      var k :| 1 <= k <= |b| && Utf8Char(b[..k]) && Characters(b[k..]);
      BytesRoundTrip(b[k..]);
      CharRoundTrip(b, k);
    }
  }

  /** A character in front of bytes that come back. */
  lemma CharRoundTrip(b: seq<Byte>, k: nat)
    requires 1 <= k <= |b| && Utf8Char(b[..k])
    requires var s := DecodedUnits(b[k..], false); AllDecoded(b[k..], false) && WellFormed(s) && Encoded(s) == b[k..]
    ensures var s := DecodedUnits(b, false); AllDecoded(b, false) && WellFormed(s) && Encoded(s) == b
  {
    hide FrontOf, WellFormed, Encoded, Octets, StepAt, DecodedLength, DecodedUnits, Payload, Utf8Char, Units, IsScalar;
    StrictStep(b);
    DecodedStep(b, false);
    var ch, rest := Payload(b[..k]), DecodedUnits(b[k..], false);
    CharWrites(b[..k]);
    var s := DecodedUnits(b, false);
    UnitsFront(ch, rest);
    FrontEncoded(s);
    assert s[|Units(ch)|..] == rest;
    assert b == b[..k] + b[k..];
  }

  lemma UnitsFront(ch: int, rest: seq<Unit>)
    requires IsScalar(ch)
    ensures FrontOf(Units(ch) + rest) == Front(ch, |Units(ch)|)
  {
    if ch >= 0x1_0000 {
      var u := Units(ch);
      assert (u + rest)[0] == u[0] && (u + rest)[1] == u[1];
      PairedIs(ch);
    }
  }

  lemma PairedIs(ch: int)
    requires 0x1_0000 <= ch <= 0x10FFFF
    ensures var u := Units(ch); |u| == 2 && IsHigh(u[0]) && IsLow(u[1]) && Paired(u[0], u[1]) == ch
  {
  }

  /** With room for all its units, or only counting, the decoder stops where unlimited decoding
      does. */
  lemma EnoughRoom(b: seq<Byte>, n: nat, used: nat, limit: nat, lenient: bool)
    requires n <= |b| && AllDecoded(b[..n], lenient) && used == |DecodedUnits(b[..n], lenient)|
    requires Finished(b, n, used, limit, lenient)
    requires limit == 0 || |DecodedUnits(b, lenient)| <= limit
    ensures n == DecodedLength(b, lenient) && used == |DecodedUnits(b, lenient)|
    ensures !SplitAtLimit(b, n, used, limit, lenient)
  {
    hide StepAt, DecodedLength, DecodedUnits, Units;
    DecodedSplit(b, n, lenient);
    if n < |b| {
      DecodedStep(b[n..], lenient);
    } else {
      assert b[n..] == [];
      DecodedNothing(lenient);
    }
  }

  /** With a limit of one unit, the bytes of a code point of two are consumed, and nothing is
      written for them. */
  lemma TightLimitLoses()
    ensures SplitAtLimit([0xF0, 0x9F, 0x98, 0x80], 0, 0, 1, false)
  {
    var b: seq<Byte> := [0xF0, 0x9F, 0x98, 0x80];
    assert b[0..] == b && b[..4] == b;
    StrictStep(b);
    assert StepAt(b, false) == Take(0x1F600, 4);
  }

  /** The two programs in a row over arrays: well-formed text is encoded, its bytes are decoded, and
      it is there again, when its encoding has fewer than 2^32 bytes. */
  method EncodeAndDecode(text: seq<Unit>) returns (characters: array<Unit>, usedCharLen: nat)
    requires WellFormed(text)
    ensures |Encoded(text)| < TWO_32 ==> usedCharLen == |text| && characters[..] == text
  {
    hide WellFormed, Encoded, DecodedLength, DecodedUnits, Finished, SplitAtLimit, PairAtLimit;
    var bytes, consumed := CountAndEncode(text);
    characters := new Unit[|text|];
    ghost var whole;
    consumed, usedCharLen, whole := FromUTF8(bytes[..], characters, |text|, false);
    RoundTrip(text);
    if |Encoded(text)| < TWO_32 {
      EnoughRoom(bytes[..], whole, usedCharLen, |text|, false);
      assert bytes[..][..whole] == bytes[..];
    }
  }

  /** How far the counting pass of the decoder goes, and what it finds: it goes on after a value
      beyond all code points, which it counts as one unit. */
  function CountedUnits(b: seq<Byte>, lenient: bool): nat {
    if b == [] then 0
    else match StepAt(b, lenient)
      case Take(ch, n) => |Units(ch)| + CountedUnits(b[n..], lenient)
      case TooLarge(n) => 1 + CountedUnits(b[n..], lenient)
      case Stop => 0
  }

  lemma CountedStep(b: seq<Byte>, lenient: bool)
    requires b != []
    ensures var s := StepAt(b, lenient);
      CountedUnits(b, lenient) == if s.Stop? then 0
        else (if s.Take? then |Units(s.ch)| else 1) + CountedUnits(b[s.n..], lenient)
  {
  }

  /** The pass that only counts units. */
  method FromUTF8Len(bytes: seq<Byte>, lenient: bool) returns (usedCharLen: nat)
    ensures usedCharLen == CountedUnits(bytes, lenient)
  {
    hide StepAt, CountedUnits, Utf8Char, Assembled;
    var source: nat := 0;
    usedCharLen := 0;
    var numBytes := |bytes|;
    assert bytes[0..] == bytes;
    while numBytes != 0
      invariant source <= |bytes| && numBytes == |bytes| - source
      invariant usedCharLen + CountedUnits(bytes[source..], lenient) == CountedUnits(bytes, lenient)
    {
      ghost var rest := bytes[source..];
      StepIs(rest, lenient);
      CountedStep(rest, lenient);
      var extra := TrailingBytes(bytes[source]);
      numBytes := numBytes - 1;
      if extra > numBytes {
        return;
      }
      numBytes := numBytes - extra;
      var legal := false;
      if extra <= 3 && !lenient {
        legal := IsLegalUTF8(bytes[source..], extra + 1);
      }
      assert rest[1..] == bytes[source + 1..];
      if extra > 3 || (!lenient && !legal) {
        if bytes[source] == 0xA9 {
          numBytes := numBytes + extra;
          source := source + 1;
          usedCharLen := usedCharLen + 1;
          continue;
        }
        return;
      }
      var ch := Assemble(bytes[source..], extra);
      source := source + extra + 1;
      assert rest[extra + 1..] == bytes[source..];
      if ch <= 0xFFFF {
        if 0xD800 <= ch <= 0xDFFF {
          return;
        }
        usedCharLen := usedCharLen + 1;
      } else if ch > 0x10FFFF {
        usedCharLen := usedCharLen + 1;
      } else {
        usedCharLen := usedCharLen + 2;
      }
    }
    assert bytes[source..] == [];
    CountedNone(lenient);
  }

  lemma CountedNone(lenient: bool)
    ensures CountedUnits([], lenient) == 0
  {
  }

  /** The decoder stops at a value beyond all code points. */
  ghost predicate StopsTooLarge(b: seq<Byte>, lenient: bool) {
    var n := DecodedLength(b, lenient);
    n < |b| && StepAt(b[n..], lenient).TooLarge?
  }

  /** The counting pass finds the number of units decoded, unless the decoder stops at a value
      beyond all code points; in strict mode it never does. */
  lemma {:induction false} CountedIsDecoded(b: seq<Byte>, lenient: bool)
    ensures CountedUnits(b, lenient) == |DecodedUnits(b, lenient)| <==> !StopsTooLarge(b, lenient)
    ensures CountedUnits(b, lenient) >= |DecodedUnits(b, lenient)|
    ensures !lenient ==> !StopsTooLarge(b, lenient)
    decreases |b|
  {
    hide StepAt, DecodedLength, DecodedUnits, CountedUnits, Units;
    if b == [] {
      DecodedNothing(lenient);
      CountedNone(lenient);
    } else {
      DecodedStep(b, lenient);
      CountedStep(b, lenient);
      assert b[0..] == b;
      if StepAt(b, lenient).Take? {
        var k := StepAt(b, lenient).n;
        CountedIsDecoded(b[k..], lenient);
        var n := DecodedLength(b[k..], lenient);
        assert b[k + n..] == b[k..][n..];
      } else {
        StrictStep(b);
      }
    }
  }

  /** In lenient mode the bytes F5 80 80 80 are counted as a unit but not decoded. */
  lemma LenientCountDiffers()
    ensures var b: seq<Byte> := [0xF5, 0x80, 0x80, 0x80];
      CountedUnits(b, true) == 1 && DecodedUnits(b, true) == []
  {
    var b: seq<Byte> := [0xF5, 0x80, 0x80, 0x80];
    ShiftedIs(b, 3);
    assert StepAt(b, true) == TooLarge(4);
    assert b[4..] == [];
  }
}
