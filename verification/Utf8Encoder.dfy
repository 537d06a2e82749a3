/** UTF-16 to UTF-8: with a limit on the bytes, or only counting them. */
module Utf8Encoder {
  import opened Prelude
  import opened Utf8

  const MAXIMUM_UCS4: int := 0x7FFF_FFFF

  /** The number of bytes the oldest UTF-8 gave to a value, or 0 for a value it has none for. */
  function BytesToWrite(ch: nat): (n: nat)
    ensures n <= 6
  {
    if ch < 0x80 then 1
    else if ch < 0x800 then 2
    else if ch < 0x1_0000 then 3
    else if ch < 0x20_0000 then 4
    else if ch < 0x400_0000 then 5
    else if ch <= MAXIMUM_UCS4 then 6
    else 0
  }

  /** The number of bytes of a code point. */
  lemma BytesToWriteIs(ch: int)
    requires IsScalar(ch)
    ensures BytesToWrite(ch) == |Octets(ch)|
  {
  }

  function FirstByteMark(n: nat): int
    requires 1 <= n <= 6
  {
    match n
    case 1 => 0
    case 2 => 0xC0
    case 3 => 0xE0
    case 4 => 0xF0
    case 5 => 0xF8
    case 6 => 0xFC
  }

  /** The bits left for the first byte, joined with its mark and cut to eight bits. */
  function FirstByte(n: nat, rest: nat): (b: Byte)
    requires 1 <= n <= 6
    ensures rest < 0x100 - FirstByteMark(n) ==> b == FirstByteMark(n) + rest
  {
    FirstByteMark(n) + rest % (0x100 - FirstByteMark(n))
  }

  /** A value without its last bits, six for each of `n` bytes. */
  function Down(ch: nat, n: nat): (rest: nat) {
    if n == 0 then ch else Down(ch, n - 1) / 64
  }

  lemma DownSteps(ch: nat)
    ensures Down(ch, 0) == ch && Down(ch, 1) == ch / 64 && Down(ch, 2) == Down(ch, 1) / 64
    ensures Down(ch, 3) == Down(ch, 2) / 64 && Down(ch, 4) == Down(ch, 3) / 64 && Down(ch, 5) == Down(ch, 4) / 64
  {
  }

  /** The bytes are those of a value by repeated shifts of six bits. */
  predicate ShiftedOut(b: seq<Byte>, ch: nat) {
    && 1 <= |b| <= 6 && b[0] == FirstByte(|b|, Down(ch, |b| - 1))
    && (|b| >= 2 ==> b[1] == 0x80 + Down(ch, |b| - 2) % 64)
    && (|b| >= 3 ==> b[2] == 0x80 + Down(ch, |b| - 3) % 64)
    && (|b| >= 4 ==> b[3] == 0x80 + Down(ch, |b| - 4) % 64)
    && (|b| >= 5 ==> b[4] == 0x80 + Down(ch, |b| - 5) % 64)
    && (|b| >= 6 ==> b[5] == 0x80 + Down(ch, |b| - 6) % 64)
  }

  lemma ShiftedAt(b: seq<Byte>, ch: nat, i: nat)
    requires ShiftedOut(b, ch) && 1 <= i < |b|
    ensures b[i] == 0x80 + Down(ch, |b| - 1 - i) % 64
  {
    hide Down;
    assert i == 1 || i == 2 || i == 3 || i == 4 || i == 5;
  }

  /** The bytes of a code point by repeated shifts. */
  lemma OctetsByShift(ch: int, b: seq<Byte>)
    requires IsScalar(ch) && |b| == BytesToWrite(ch) && ShiftedOut(b, ch)
    ensures b == Octets(ch)
  {
    hide FirstByte, Down;
    DownSteps(ch);
    Sextets(ch);
  }

  /** The bits of a first byte and, six from each, those of the bytes after it. */
  function Joined(first: int, tails: seq<Byte>): int {
    if tails == [] then first
    else Joined(first, tails[..|tails| - 1]) * 0x40 + (tails[|tails| - 1] as int - 0x80)
  }

  /** The bytes stand for a value of up to 31 bits in the oldest UTF-8, of one to six bytes
      (section 2 of RFC 2279). */
  predicate StandsFor(b: seq<Byte>, ch: nat) {
    && 1 <= |b| <= 6 && (forall i :: 1 <= i < |b| ==> Tail(b[i]))
    && (|b| == 1 ==> b[0] <= 0x7F)
    && var marks := [0, 0xC0, 0xE0, 0xF0, 0xF8, 0xFC, 0xFE];
       marks[|b| - 1] <= b[0] < marks[|b|] && Joined(b[0] - marks[|b| - 1], b[1..]) == ch
  }

  lemma StandsByShift(b: seq<Byte>, ch: nat)
    requires ch <= MAXIMUM_UCS4 && |b| == BytesToWrite(ch) && ShiftedOut(b, ch)
    ensures StandsFor(b, ch)
  {
    DownSteps(ch);
    forall i | 1 <= i < |b|
      ensures Tail(b[i])
    {
      ShiftedAt(b, ch, i);
    }
    hide Down;
    TailsJoin(b, ch, |b| - 1);
    hide Joined;
    assert b[1..][..|b| - 1] == b[1..];
  }

  lemma {:induction false} TailsJoin(b: seq<Byte>, ch: nat, n: nat)
    requires n < |b| && ShiftedOut(b, ch)
    ensures Joined(Down(ch, |b| - 1), b[1..][..n]) == Down(ch, |b| - 1 - n)
  {
    if n > 0 {
      TailsJoin(b, ch, n - 1);
      ShiftedAt(b, ch, n);
      assert b[1..][..n][..n - 1] == b[1..][..n - 1];
      assert b[1..][..n][n - 1] == b[n] == 0x80 + Down(ch, |b| - 1 - n) % 64;
      assert Down(ch, |b| - n) == Down(ch, |b| - 1 - n) / 64;
    }
  }

  /** The bytes from the last to the fourth; the cases fall through. */
  method WriteFromFourth(ch: nat, bytes: array<Byte>, at: nat, bytesToWrite: nat) returns (rest: nat)
    requires 4 <= bytesToWrite <= 6 && at + bytesToWrite <= bytes.Length
    modifies bytes
    ensures rest == Down(ch, bytesToWrite - 3)
    ensures bytes[at + 3] == 0x80 + Down(ch, bytesToWrite - 4) % 64
    ensures bytesToWrite >= 5 ==> bytes[at + 4] == 0x80 + Down(ch, bytesToWrite - 5) % 64
    ensures bytesToWrite == 6 ==> bytes[at + 5] == 0x80 + Down(ch, 0) % 64
    ensures bytes[..at] == old(bytes[..at])
  {
    DownSteps(ch);
    hide Down;
    rest := ch;
    if 5 <= bytesToWrite {
      if 6 <= bytesToWrite {
        bytes[at + 5] := 0x80 + rest % 64;
        rest := rest / 64;
      }
      bytes[at + 4] := 0x80 + rest % 64;
      rest := rest / 64;
    }
    bytes[at + 3] := 0x80 + rest % 64;
    rest := rest / 64;
  }

  /** Writes bytes from the last to the first; the cases fall through. */
  method WriteShifted(ch: nat, bytes: array<Byte>, at: nat, bytesToWrite: nat)
    requires 1 <= bytesToWrite <= 6 && at + bytesToWrite <= bytes.Length
    modifies bytes
    ensures ShiftedOut(bytes[at..at + bytesToWrite], ch)
    ensures bytes[..at] == old(bytes[..at])
  {
    DownSteps(ch);
    hide FirstByteMark, FirstByte, Down, ShiftedOut;
    var rest := ch;
    if 2 <= bytesToWrite {
      if 3 <= bytesToWrite {
        if 4 <= bytesToWrite {
          rest := WriteFromFourth(rest, bytes, at, bytesToWrite);
        }
        assert rest == Down(ch, bytesToWrite - 3);
        bytes[at + 2] := 0x80 + rest % 64;
        rest := rest / 64;
      }
      assert rest == Down(ch, bytesToWrite - 2);
      bytes[at + 1] := 0x80 + rest % 64;
      rest := rest / 64;
    }
    assert rest == Down(ch, bytesToWrite - 1);
    bytes[at] := FirstByte(bytesToWrite, rest);
    SlicedOut(bytes, at, bytesToWrite, ch);
  }

  lemma SlicedOut(bytes: array<Byte>, at: nat, n: nat, ch: nat)
    requires 1 <= n <= 6 && at + n <= bytes.Length && bytes[at] == FirstByte(n, Down(ch, n - 1))
    requires n >= 2 ==> bytes[at + 1] == 0x80 + Down(ch, n - 2) % 64
    requires n >= 3 ==> bytes[at + 2] == 0x80 + Down(ch, n - 3) % 64
    requires n >= 4 ==> bytes[at + 3] == 0x80 + Down(ch, n - 4) % 64
    requires n >= 5 ==> bytes[at + 4] == 0x80 + Down(ch, n - 5) % 64
    requires n >= 6 ==> bytes[at + 5] == 0x80 + Down(ch, n - 6) % 64
    ensures ShiftedOut(bytes[at..at + n], ch)
  {
    hide FirstByte, Down;
  }

  /** Writes the bytes of a value, if they fit. For a value without bytes the code means to write
      the replacement character, but takes two bytes for it, and what it writes is no UTF-8. */
  method ToUTF8Core(ch: nat, bytes: array<Byte>, at: nat, maxByteLen: nat) returns (bytesToWrite: nat)
    requires ch < TWO_32 && at + maxByteLen <= bytes.Length
    modifies bytes
    ensures var n := if ch <= MAXIMUM_UCS4 then BytesToWrite(ch) else 2;
      bytesToWrite == if n <= maxByteLen then n else 0
    ensures bytes[..at] == old(bytes[..at])
    ensures IsScalar(ch) && bytesToWrite > 0 ==> bytes[at..at + bytesToWrite] == Octets(ch)
    ensures ch <= MAXIMUM_UCS4 && bytesToWrite > 0 ==> StandsFor(bytes[at..at + bytesToWrite], ch)
    ensures ch > MAXIMUM_UCS4 && bytesToWrite > 0 ==>
      bytes[at..at + bytesToWrite] == [0xFF, 0xBD] && !Utf8Char(bytes[at..at + bytesToWrite])
  {
    hide Octets, StandsFor, ShiftedOut;
    bytesToWrite := BytesToWrite(ch);
    var rest := ch;
    if bytesToWrite == 0 {
      bytesToWrite := 2;
      rest := REPLACEMENT;
    }
    if maxByteLen < bytesToWrite {
      return 0;
    }
    WriteShifted(rest, bytes, at, bytesToWrite);
    if ch <= MAXIMUM_UCS4 {
      StandsByShift(bytes[at..at + bytesToWrite], ch);
      if IsScalar(ch) { OctetsByShift(ch, bytes[at..at + bytesToWrite]); }
    } else {
      ReplacementBytes(bytes[at..at + 2]);
    }
  }

  lemma ReplacementBytes(b: seq<Byte>)
    requires |b| == 2 && ShiftedOut(b, REPLACEMENT)
    ensures b == [0xFF, 0xBD] && !Utf8Char(b)
  {
    DownSteps(REPLACEMENT);
    hide Down;
    assert FirstByteMark(2) == 0xC0;
    assert b[0] == FirstByte(2, 1023) == 0xFF;
    assert b[1] == 0x80 + 0xFFFD % 64 == 0xBD;
    assert b == [0xFF, 0xBD];
  }

  /** The code point at the front of some units, with the number of its units; none for a
      surrogate without its other half. */
  datatype Front = Lone | Front(ch: int, n: nat)

  function FrontOf(s: seq<Unit>): (f: Front)
    requires s != []
    ensures f.Front? ==> IsScalar(f.ch) && 1 <= f.n <= 2 && f.n <= |s| && s[..f.n] == Units(f.ch)
  {
    if IsHigh(s[0]) then
      if 1 < |s| && IsLow(s[1]) then Front(Paired(s[0], s[1]), 2) else Lone
    else if IsLow(s[0]) then Lone
    else Front(s[0], 1)
  }

  /** Text without lone surrogates. */
  predicate WellFormed(s: seq<Unit>) {
    s == [] || (var f := FrontOf(s); f.Front? && WellFormed(s[f.n..]))
  }

  /** Well-formed text in UTF-8. */
  function Encoded(s: seq<Unit>): (b: seq<Byte>)
    requires WellFormed(s)
  {
    if s == [] then [] else Octets(FrontOf(s).ch) + Encoded(s[FrontOf(s).n..])
  }

  /** The front of a text depends on nothing after it. */
  lemma FrontOfPrefix(s: seq<Unit>, m: nat)
    requires 0 < m <= |s|
    ensures FrontOf(s).Front? && FrontOf(s).n <= m ==> FrontOf(s[..m]) == FrontOf(s)
    ensures FrontOf(s[..m]).Front? ==> FrontOf(s) == FrontOf(s[..m])
  {
  }

  /** One more code point at the end. */
  lemma {:induction false} EncodedGrows(s: seq<Unit>, n: nat)
    requires n < |s| && WellFormed(s[..n]) && FrontOf(s[n..]).Front?
    ensures var f := FrontOf(s[n..]);
      n + f.n <= |s| && WellFormed(s[..n + f.n]) && Encoded(s[..n + f.n]) == Encoded(s[..n]) + Octets(f.ch)
  {
    hide FrontOf, Octets, WellFormed, Encoded;
    var f := FrontOf(s[n..]);
    var m := n + f.n;
    if n == 0 {
      assert s[0..] == s && s[..0] == [];
      FrontOfPrefix(s, m);
      assert s[..m][f.n..] == [];
      NothingEncoded();
      FrontEncoded(s[..m]);
      assert Octets(f.ch) + [] == [] + Octets(f.ch);
    } else {
      FrontEncoded(s[..n]);
      var g := FrontOf(s[..n]);
      FrontOfPrefix(s, n);
      FrontOfPrefix(s, m);
      var t := s[g.n..];
      assert s[..n][g.n..] == t[..n - g.n];
      assert s[..m][g.n..] == t[..m - g.n];
      assert t[n - g.n..] == s[n..];
      EncodedGrows(t, n - g.n);
      assert m - g.n == n - g.n + f.n;
      FrontEncoded(s[..m]);
    }
  }

  lemma NothingEncoded()
    ensures WellFormed([]) && Encoded([]) == []
  {
  }

  /** A text is its front and the rest. */
  lemma FrontEncoded(s: seq<Unit>)
    requires s != []
    ensures WellFormed(s) <==> FrontOf(s).Front? && WellFormed(s[FrontOf(s).n..])
    ensures WellFormed(s) ==> Encoded(s) == Octets(FrontOf(s).ch) + Encoded(s[FrontOf(s).n..])
  {
  }

  /** Nothing more can be encoded after `n` units: they are all, or a surrogate without its other
      half is next, or the bytes of the next code point do not fit. */
  ghost predicate Stuck(s: seq<Unit>, n: nat, used: nat, limit: nat)
    requires n <= |s|
  {
    n < |s| ==> var f := FrontOf(s[n..]); f.Lone? || (limit > 0 && limit < used + |Octets(f.ch)|)
  }

  /** The encoder stops after `n` units: they are all, or a surrogate without its other half is
      next, or the limit is reached, or the low 32 bits of the room that is left are too small a
      number for a code point of more than one byte. */
  ghost predicate Stopped(s: seq<Unit>, n: nat, used: nat, limit: nat)
    requires n <= |s|
  {
    n < |s| ==>
      var f := FrontOf(s[n..]);
      f.Lone? || (limit > 0 && (limit <= used || (f.ch >= 0x80 && (limit - used) % TWO_32 < |Octets(f.ch)|)))
  }

  /** It stops wherever nothing more can be encoded, and elsewhere only with 2^32 bytes of room or
      more. */
  lemma StuckIsStopped(s: seq<Unit>, n: nat, used: nat, limit: nat)
    requires n <= |s|
    ensures Stuck(s, n, used, limit) <==>
      Stopped(s, n, used, limit) && (n == |s| || FrontOf(s[n..]).Lone? || limit < used + TWO_32)
  {
    hide FrontOf, Octets;
    if n < |s| && FrontOf(s[n..]).Front? { RoomIs(FrontOf(s[n..]).ch, limit - used); }
  }

  lemma RoomIs(ch: int, room: int)
    requires IsScalar(ch)
    ensures room < |Octets(ch)| <==> room < TWO_32 && (room <= 0 || (ch >= 0x80 && room % TWO_32 < |Octets(ch)|))
  {
    OctetsAre(ch);
    hide Octets;
  }

  lemma OctetsAre(ch: int)
    requires IsScalar(ch)
    ensures 1 <= |Octets(ch)| <= 4 && (|Octets(ch)| == 1 <==> ch < 0x80)
  {
  }

  /** After some whole code points there are 2^32 bytes of room or more, but the low 32 bits of the
      room are too small a number for the next code point. */
  ghost predicate RoomCut(s: seq<Unit>, limit: nat) {
    exists n :: 0 <= n < |s| && WellFormed(s[..n]) && CutAt(s, n, limit)
  }

  ghost predicate CutAt(s: seq<Unit>, n: nat, limit: nat)
    requires n < |s| && WellFormed(s[..n])
  {
    var f, room := FrontOf(s[n..]), limit - |Encoded(s[..n])|;
    f.Front? && f.ch >= 0x80 && TWO_32 <= room && room % TWO_32 < |Octets(f.ch)|
  }

  /** Where the encoder stops nothing more can be encoded, unless there is such a place. */
  lemma StuckUnlessCut(s: seq<Unit>, c: nat, limit: nat)
    requires c <= |s| && WellFormed(s[..c]) && Stopped(s, c, |Encoded(s[..c])|, limit)
    requires forall n :: 0 <= n < c && WellFormed(s[..n]) ==> !Stopped(s, n, |Encoded(s[..n])|, limit)
    ensures Stuck(s, c, |Encoded(s[..c])|, limit) <==> !RoomCut(s, limit)
  {
    hide WellFormed, Encoded, FrontOf, Octets;
    StuckIsStopped(s, c, |Encoded(s[..c])|, limit);
    if !Stuck(s, c, |Encoded(s[..c])|, limit) {
      assert CutAt(s, c, limit);
    }
    forall n | 0 <= n < |s| && WellFormed(s[..n]) && CutAt(s, n, limit)
      ensures !Stuck(s, c, |Encoded(s[..c])|, limit)
    {
      StuckIsStopped(s, n, |Encoded(s[..n])|, limit);
      if c < n { PrefixLength(s, c, n); }
    }
  }

  /** A longer prefix of whole code points holds the next code point of a shorter one. */
  lemma PrefixLength(s: seq<Unit>, c: nat, n: nat)
    requires c < n <= |s| && WellFormed(s[..c]) && WellFormed(s[..n])
    ensures FrontOf(s[c..]).Front? && |Encoded(s[..c])| + |Octets(FrontOf(s[c..]).ch)| <= |Encoded(s[..n])|
  {
    hide WellFormed, Encoded, FrontOf, Octets;
    assert s[..n][..c] == s[..c] && s[..n][c..] == s[c..][..n - c];
    EncodedSplit(s[..n], c);
    FrontEncoded(s[..n][c..]);
    FrontOfPrefix(s[c..], n - c);
  }

  /** With a limit of exactly 2^32 it does not even encode one character of two bytes. */
  lemma RoomLost()
    ensures var s: seq<Unit> := [0x00E9]; RoomCut(s, TWO_32) && Stopped(s, 0, 0, TWO_32) && !Stuck(s, 0, 0, TWO_32)
  {
    var s: seq<Unit> := [0x00E9];
    assert s[0..] == s && s[..0] == [];
    NothingEncoded();
    assert CutAt(s, 0, TWO_32);
  }

  /** A prefix of whole code points does not end between the halves of a pair. */
  lemma {:induction false} PairNotSplit(s: seq<Unit>, n: nat)
    requires n < |s| && WellFormed(s[..n]) && IsHigh(s[n])
    ensures !WellFormed(s[..n + 1])
  {
    hide WellFormed;
    FrontEncoded(s[..n + 1]);
    if n > 0 {
      FrontEncoded(s[..n]);
      var f := FrontOf(s[..n]);
      FrontOfPrefix(s, n);
      FrontOfPrefix(s, n + 1);
      assert s[..n][f.n..] == s[f.n..][..n - f.n] && s[..n + 1][f.n..] == s[f.n..][..n - f.n + 1];
      PairNotSplit(s[f.n..], n - f.n);
    } else {
      assert s[..1] == [s[0]];
    }
  }

  /** Encodes whole code points up to the first place at which it stops; with a limit of 0 it only
      counts their bytes. */
  method ToUTF8(characters: seq<Unit>, bytes: array<Byte>, maxByteLen: nat) returns (consumed: nat, usedByteLen: nat)
    requires maxByteLen <= bytes.Length
    modifies bytes
    ensures consumed <= |characters| && WellFormed(characters[..consumed])
    ensures usedByteLen == |Encoded(characters[..consumed])|
    ensures maxByteLen > 0 ==> usedByteLen <= maxByteLen && bytes[..usedByteLen] == Encoded(characters[..consumed])
    ensures Stopped(characters, consumed, usedByteLen, maxByteLen)
    ensures forall n :: 0 <= n < consumed && WellFormed(characters[..n]) ==>
      !Stopped(characters, n, |Encoded(characters[..n])|, maxByteLen)
    ensures Stuck(characters, consumed, usedByteLen, maxByteLen) <==> !RoomCut(characters, maxByteLen)
  {
    hide FrontOf, WellFormed, Encoded, Octets, Stuck, Stopped, RoomCut, BytesToWrite, StandsFor, Utf8Char;
    consumed, usedByteLen := 0, 0;
    NothingEncoded();
    assert characters[..0] == [];
    while consumed < |characters| && (maxByteLen == 0 || usedByteLen < maxByteLen)
      invariant consumed <= |characters| && WellFormed(characters[..consumed])
      invariant usedByteLen == |Encoded(characters[..consumed])|
      invariant maxByteLen > 0 ==> usedByteLen <= maxByteLen && bytes[..usedByteLen] == Encoded(characters[..consumed])
      invariant forall n :: 0 <= n < consumed && WellFormed(characters[..n]) ==>
        !Stopped(characters, n, |Encoded(characters[..n])|, maxByteLen)
      decreases |characters| - consumed
    {
      ghost var f := FrontOf(characters[consumed..]);
      FrontIs(characters, consumed);
      StopsWhen(characters, consumed, usedByteLen, maxByteLen);
      var ch: nat := characters[consumed];
      var next := consumed + 1;
      if 0xD800 <= ch {
        if ch <= 0xDBFF {
          if next < |characters| && 0xDC00 <= characters[next] <= 0xDFFF {
            PairNotSplit(characters, consumed);
            ch := (ch - 0xD800) * 1024 + (characters[next] - 0xDC00) + 0x1_0000;
            next := next + 1;
          } else {
            break;
          }
        } else if ch <= 0xDFFF {
          break;
        }
      }
      EncodedGrows(characters, consumed);
      BytesToWriteIs(ch);
      var bytesWritten;
      if ch < 0x80 {
        if maxByteLen > 0 {
          bytes[usedByteLen] := ch;
        }
        bytesWritten := 1;
        AsciiOctets(ch);
      } else if maxByteLen > 0 {
        bytesWritten := ToUTF8Core(ch, bytes, usedByteLen, (maxByteLen - usedByteLen) % TWO_32);
        if bytesWritten == 0 {
          break;
        }
      } else {
        bytesWritten := BytesToWrite(ch);
      }
      ghost var before := usedByteLen;
      consumed, usedByteLen := next, usedByteLen + bytesWritten;
      assert maxByteLen > 0 ==> bytes[..usedByteLen] == bytes[..before] + bytes[before..usedByteLen];
    }
    StopsWhen(characters, consumed, usedByteLen, maxByteLen);
    StuckUnlessCut(characters, consumed, maxByteLen);
  }

  /** When the encoder stops, case by case. */
  lemma StopsWhen(s: seq<Unit>, n: nat, used: nat, limit: nat)
    requires n <= |s|
    ensures n == |s| || (0 < limit <= used) ==> Stopped(s, n, used, limit)
    ensures n < |s| && FrontOf(s[n..]).Lone? ==> Stopped(s, n, used, limit)
    ensures n < |s| && FrontOf(s[n..]).Front? && (limit == 0 || used < limit) ==>
      var ch := FrontOf(s[n..]).ch;
      Stopped(s, n, used, limit) <==> limit > 0 && ch >= 0x80 && (limit - used) % TWO_32 < |Octets(ch)|
  {
  }

  /** The front of the units from `n` on, as the encoder reads it. */
  lemma FrontIs(s: seq<Unit>, n: nat)
    requires n < |s|
    ensures var f, ch := FrontOf(s[n..]), s[n] as int;
      if IsHigh(ch) && n + 1 < |s| && IsLow(s[n + 1]) then
        f == Front((ch - 0xD800) * 1024 + (s[n + 1] - 0xDC00) + 0x1_0000, 2)
      else if IsHigh(ch) || IsLow(ch) then f == Lone
      else f == Front(ch, 1)
    ensures var f := FrontOf(s[n..]);
      f.Front? ==> IsScalar(f.ch) && (f.n == if f.ch < 0x1_0000 then 1 else 2)
  {
  }

  lemma AsciiOctets(ch: int)
    requires 0 <= ch < 0x80
    ensures Octets(ch) == [ch] && BytesToWrite(ch) == 1
  {
  }

  /** The number of bytes the counting pass finds: it counts three for a lone surrogate too. */
  function CountedBytes(s: seq<Unit>): nat {
    if s == [] then 0
    else match FrontOf(s)
      case Front(ch, n) => |Octets(ch)| + CountedBytes(s[n..])
      case Lone => 3 + CountedBytes(s[1..])
  }

  /** The pass that only counts bytes, in 32 bits. */
  method ToUTF8Len(characters: seq<Unit>) returns (bytesToWrite: nat)
    ensures bytesToWrite == CountedBytes(characters) % TWO_32
  {
    hide CountedBytes, BytesToWrite;
    bytesToWrite := 0;
    assert characters[0..] == characters;
    var i := 0;
    ghost var total := 0;
    while i < |characters|
      invariant 0 <= i <= |characters| && total + CountedBytes(characters[i..]) == CountedBytes(characters)
      invariant bytesToWrite == total % TWO_32
    {
      CountedNext(characters, i);
      var ch: nat := characters[i];
      i := i + 1;
      if 0xD800 <= ch <= 0xDBFF && i < |characters| && 0xDC00 <= characters[i] <= 0xDFFF {
        ch := (ch - 0xD800) * 1024 + (characters[i] - 0xDC00) + 0x1_0000;
        i := i + 1;
      }
      total := total + BytesToWrite(ch);
      bytesToWrite := (bytesToWrite + BytesToWrite(ch)) % TWO_32;
    }
    assert characters[i..] == [];
    NothingCounted();
  }

  lemma NothingCounted()
    ensures CountedBytes([]) == 0
  {
  }

  /** What is counted from `i` on: a pair or a unit, and the rest. */
  lemma CountedNext(s: seq<Unit>, i: nat)
    requires i < |s|
    ensures var ch := s[i] as int;
      if IsHigh(ch) && i + 1 < |s| && IsLow(s[i + 1])
      then
        var pair := (ch - 0xD800) * 1024 + (s[i + 1] - 0xDC00) + 0x1_0000;
        CountedBytes(s[i..]) == BytesToWrite(pair) + CountedBytes(s[i + 2..])
      else CountedBytes(s[i..]) == BytesToWrite(ch) + CountedBytes(s[i + 1..])
  {
    hide FrontOf, Octets, BytesToWrite;
    FrontIs(s, i);
    var f := FrontOf(s[i..]);
    CountedWidth(if f.Front? then f.ch else s[i]);
    if f.Front? { assert s[i..][f.n..] == s[i + f.n..]; } else { assert s[i..][1..] == s[i + 1..]; }
  }

  lemma CountedWidth(ch: int)
    requires 0 <= ch <= 0x10FFFF
    ensures IsScalar(ch) ==> BytesToWrite(ch) == |Octets(ch)|
    ensures !IsScalar(ch) ==> BytesToWrite(ch) == 3
    ensures BytesToWrite(ch) <= if ch < 0x1_0000 then 3 else 4
  {
  }

  /** The longest part of a text before a lone surrogate. */
  function WellFormedPart(s: seq<Unit>): (n: nat)
    ensures n <= |s| && WellFormed(s[..n])
    ensures n < |s| ==> FrontOf(s[n..]).Lone?
  {
    if s == [] || FrontOf(s).Lone? then 0
    else
      var f := FrontOf(s);
      var n := WellFormedPart(s[f.n..]);
      PartGrows(s, n);
      f.n + n
  }

  lemma PartGrows(s: seq<Unit>, n: nat)
    requires s != [] && FrontOf(s).Front? && n <= |s[FrontOf(s).n..]| && WellFormed(s[FrontOf(s).n..][..n])
    ensures var f := FrontOf(s);
      && f.n + n <= |s| && WellFormed(s[..f.n + n]) && s[f.n + n..] == s[f.n..][n..]
      && Encoded(s[..f.n + n]) == Octets(f.ch) + Encoded(s[f.n..][..n])
  {
    hide FrontOf, WellFormed, Encoded, Octets;
    var f := FrontOf(s);
    FrontOfPrefix(s, f.n + n);
    FrontEncoded(s[..f.n + n]);
    assert s[..f.n + n][f.n..] == s[f.n..][..n];
  }

  /** The two passes agree exactly on well-formed text. */
  lemma {:induction false} CountAgrees(s: seq<Unit>)
    ensures WellFormed(s) ==> CountedBytes(s) == |Encoded(s)|
    ensures CountedBytes(s) == |Encoded(s[..WellFormedPart(s)])| <==> WellFormed(s)
  {
    hide Octets, FrontOf, WellFormed, Encoded;
    if s == [] {
      NothingEncoded();
      assert s[..0] == [];
    } else if FrontOf(s).Lone? {
      NothingEncoded();
      FrontEncoded(s);
      assert s[..0] == [];
    } else {
      var f := FrontOf(s);
      FrontEncoded(s);
      CountAgrees(s[f.n..]);
      PartGrows(s, WellFormedPart(s[f.n..]));
    }
  }

  /** In 32 bits they agree on well-formed text exactly below 2^32 bytes, and on no other text that
      is counted without wrapping. */
  lemma CountAgreesBelow(s: seq<Unit>)
    ensures WellFormed(s) ==> (CountedBytes(s) % TWO_32 == |Encoded(s)| <==> |Encoded(s)| < TWO_32)
    ensures !WellFormed(s) && CountedBytes(s) < TWO_32 ==>
      CountedBytes(s) % TWO_32 != |Encoded(s[..WellFormedPart(s)])|
  {
    hide WellFormed, Encoded, CountedBytes, WellFormedPart, FrontOf;
    CountAgrees(s);
  }

  lemma {:induction false} AsciiCounted(n: nat)
    ensures CountedBytes(seq(n, _ => 0x41 as Unit)) == n
  {
    if n > 0 {
      var s := seq(n, _ => 0x41 as Unit);
      assert s[1..] == seq(n - 1, _ => 0x41 as Unit);
      AsciiCounted(n - 1);
    }
  }

  /** When the sum wraps the two may agree by chance: a lone surrogate before 2^32 - 3 letters is
      counted as nothing, and nothing of it is encoded. */
  lemma CountWraps()
    ensures var s := [0xD800 as Unit] + seq(TWO_32 - 3, _ => 0x41 as Unit);
      && !WellFormed(s) && CountedBytes(s) == TWO_32
      && CountedBytes(s) % TWO_32 == |Encoded(s[..WellFormedPart(s)])|
  {
    var letters := seq(TWO_32 - 3, _ => 0x41 as Unit);
    var s := [0xD800 as Unit] + letters;
    AsciiCounted(TWO_32 - 3);
    assert s[1..] == letters && FrontOf(s).Lone?;
    NothingEncoded();
    assert s[..0] == [];
  }

  /** Well-formed text after a well-formed prefix is well formed, and encoded by itself. */
  lemma {:induction false} EncodedSplit(s: seq<Unit>, n: nat)
    requires n <= |s| && WellFormed(s) && WellFormed(s[..n])
    ensures WellFormed(s[n..]) && Encoded(s) == Encoded(s[..n]) + Encoded(s[n..])
  {
    hide WellFormed, Encoded, Octets;
    if n == 0 {
      NothingEncoded();
      assert s[..0] == [] && s[0..] == s;
    } else {
      FrontEncoded(s);
      FrontEncoded(s[..n]);
      FrontOfPrefix(s, n);
      var f := FrontOf(s);
      assert s[..n][f.n..] == s[f.n..][..n - f.n] && s[f.n..][n - f.n..] == s[n..];
      EncodedSplit(s[f.n..], n - f.n);
    }
  }

  /** Well-formed text is never stuck in as many bytes as it is encoded in. */
  lemma RoomForAll(s: seq<Unit>, n: nat)
    requires n < |s| && WellFormed(s) && WellFormed(s[..n])
    ensures !Stuck(s, n, |Encoded(s[..n])|, |Encoded(s)|)
  {
    hide WellFormed, Encoded, Octets, FrontOf;
    EncodedSplit(s, n);
    FrontEncoded(s[n..]);
  }

  /** Counting and then encoding into as many bytes encodes the whole of a well-formed text, and
      fills them, exactly when they are fewer than 2^32. */
  method CountAndEncode(characters: seq<Unit>) returns (bytes: array<Byte>, consumed: nat)
    requires WellFormed(characters)
    ensures |Encoded(characters)| < TWO_32 ==> consumed == |characters| && bytes[..] == Encoded(characters)
    ensures |Encoded(characters)| >= TWO_32 ==> bytes[..] != Encoded(characters)
  {
    hide WellFormed, Encoded, CountedBytes, Stuck;
    var maxByteLen := ToUTF8Len(characters);
    CountAgreesBelow(characters);
    CountAgrees(characters);
    bytes := new Byte[maxByteLen];
    var usedByteLen;
    consumed, usedByteLen := ToUTF8(characters, bytes, maxByteLen);
    assert !RoomCut(characters, maxByteLen);
    if |Encoded(characters)| < TWO_32 {
      if consumed < |characters| { RoomForAll(characters, consumed); }
      assert characters[..consumed] == characters;
    }
  }
}
