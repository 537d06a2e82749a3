/** UTF-8 and UTF-16 as RFC 3629 (sections 3 and 4) and RFC 2781 (sections 2.1 and 2.2) define them. */
module Utf8 {
  import opened Prelude

  const REPLACEMENT: Unit := 0xFFFD

  predicate IsHigh(u: int) {
    0xD800 <= u <= 0xDBFF
  }

  predicate IsLow(u: int) {
    0xDC00 <= u <= 0xDFFF
  }

  /** The code points that text is made of. */
  predicate IsScalar(ch: int) {
    0 <= ch <= 0x10FFFF && !(0xD800 <= ch <= 0xDFFF)
  }

  /** UTF-16: one unit, or a high and a low surrogate. */
  function Units(ch: int): (s: seq<Unit>)
    requires IsScalar(ch)
    ensures 1 <= |s| <= 2
  {
    if ch < 0x1_0000 then [ch] else [0xD800 + (ch - 0x1_0000) / 1024, 0xDC00 + (ch - 0x1_0000) % 1024]
  }

  /** The code point of a surrogate pair. */
  function Paired(high: Unit, low: Unit): (ch: int)
    requires IsHigh(high) && IsLow(low)
    ensures 0x1_0000 <= ch <= 0x10FFFF && Units(ch) == [high, low]
  {
    (high - 0xD800) * 1024 + (low - 0xDC00) + 0x1_0000
  }

  /** The units of a code point, as section 2.1 of RFC 2781 has them: itself, or a pair whose ten
      bits each stand side by side. */
  lemma UnitsMean(ch: int)
    requires IsScalar(ch)
    ensures ch <= 0xFFFF ==> Units(ch) == [ch]
    ensures ch > 0xFFFF ==>
      var u := Units(ch);
      && |u| == 2 && 0xD800 <= u[0] <= 0xDBFF && 0xDC00 <= u[1] <= 0xDFFF
      && 0x400 * (u[0] - 0xD800) as int + (u[1] - 0xDC00) + 0x1_0000 == ch
  {
  }

  predicate Tail(b: Byte) {
    0x80 <= b <= 0xBF
  }

  /** One character in UTF-8, in the ranges of the syntax in section 4 of RFC 3629. */
  predicate Utf8Char(b: seq<Byte>) {
    match |b|
    case 1 => b[0] <= 0x7F
    case 2 => 0xC2 <= b[0] <= 0xDF && Tail(b[1])
    case 3 =>
      && Tail(b[2])
      && (|| (b[0] == 0xE0 && 0xA0 <= b[1] <= 0xBF)
          || (0xE1 <= b[0] <= 0xEC && Tail(b[1]))
          || (b[0] == 0xED && 0x80 <= b[1] <= 0x9F)
          || (0xEE <= b[0] <= 0xEF && Tail(b[1])))
    case 4 =>
      && Tail(b[2]) && Tail(b[3])
      && (|| (b[0] == 0xF0 && 0x90 <= b[1] <= 0xBF)
          || (0xF1 <= b[0] <= 0xF3 && Tail(b[1]))
          || (b[0] == 0xF4 && 0x80 <= b[1] <= 0x8F))
    case _ => false
  }

  /** The bytes of a code point, as section 3 of RFC 3629 lays out its bits. */
  function Octets(ch: int): (b: seq<Byte>)
    requires IsScalar(ch)
    ensures 1 <= |b| <= 4
  {
    if ch < 0x80 then [ch]
    else if ch < 0x800 then [0xC0 + ch / 64, 0x80 + ch % 64]
    else if ch < 0x1_0000 then [0xE0 + ch / 4096, 0x80 + ch / 64 % 64, 0x80 + ch % 64]
    else [0xF0 + ch / 262144, 0x80 + ch / 4096 % 64, 0x80 + ch / 64 % 64, 0x80 + ch % 64]
  }

  /** The payload bits of a byte after its mark. */
  function Bits(b: Byte, mark: int): int {
    b as int - mark
  }

  /** What a character's bytes stand for: their payload bits side by side. */
  function Payload(b: seq<Byte>): int
    requires 1 <= |b| <= 4
  {
    match |b|
    case 1 => b[0]
    case 2 => Bits(b[0], 0xC0) * 64 + Bits(b[1], 0x80)
    case 3 => Bits(b[0], 0xE0) * 4096 + Bits(b[1], 0x80) * 64 + Bits(b[2], 0x80)
    case _ => Bits(b[0], 0xF0) * 262144 + Bits(b[1], 0x80) * 4096 + Bits(b[2], 0x80) * 64 + Bits(b[3], 0x80)
  }

  lemma Sextets(ch: nat)
    ensures ch / 4096 == ch / 64 / 64 && ch / 262144 == ch / 4096 / 64
    ensures ch == ch / 64 * 64 + ch % 64
    ensures ch == ch / 4096 * 4096 + ch / 64 % 64 * 64 + ch % 64
    ensures ch == ch / 262144 * 262144 + ch / 4096 % 64 * 4096 + ch / 64 % 64 * 64 + ch % 64
  {
  }

  lemma FromSextets(a: nat, b: nat, c: nat, d: nat)
    requires b < 64 && c < 64 && d < 64
    ensures var ch := a * 262144 + b * 4096 + c * 64 + d;
      && ch / 262144 == a && ch / 4096 % 64 == b && ch / 64 % 64 == c && ch % 64 == d
      && ch / 4096 == 64 * a + b && ch / 64 == 4096 * a + 64 * b + c
  {
    var ab := 64 * a + b;
    var abc := 64 * ab + c;
    var ch := 64 * abc + d;
    LastSextet(a, b);
    LastSextet(ab, c);
    LastSextet(abc, d);
    Sextets(ch);
  }

  lemma LastSextet(high: nat, low: nat)
    requires low < 64
    ensures (64 * high + low) / 64 == high && (64 * high + low) % 64 == low
  {
  }

  /** The bytes of a code point are a character, which stands for it. */
  lemma OctetsRead(ch: int)
    requires IsScalar(ch)
    ensures Utf8Char(Octets(ch)) && Payload(Octets(ch)) == ch
  {
    Sextets(ch);
  }

  lemma PairWrites(b: seq<Byte>)
    requires |b| == 2 && Utf8Char(b)
    ensures IsScalar(Payload(b)) && Octets(Payload(b)) == b
  {
    FromSextets(0, 0, b[0] - 0xC0, b[1] - 0x80);
  }

  lemma TripleWrites(b: seq<Byte>)
    requires |b| == 3 && Utf8Char(b)
    ensures IsScalar(Payload(b)) && Octets(Payload(b)) == b
  {
    FromSextets(0, b[0] - 0xE0, b[1] - 0x80, b[2] - 0x80);
  }

  lemma QuadrupleWrites(b: seq<Byte>)
    requires |b| == 4 && Utf8Char(b)
    ensures IsScalar(Payload(b)) && Octets(Payload(b)) == b
  {
    FromSextets(b[0] - 0xF0, b[1] - 0x80, b[2] - 0x80, b[3] - 0x80);
  }

  /** A character stands for a code point, whose bytes it is. */
  lemma CharWrites(b: seq<Byte>)
    requires Utf8Char(b)
    ensures IsScalar(Payload(b)) && Octets(Payload(b)) == b
  {
    hide Octets, Payload, IsScalar;
    match |b| {
      case 1 => SingleWrites(b);
      case 2 => PairWrites(b);
      case 3 => TripleWrites(b);
      case _ => QuadrupleWrites(b);
    }
  }

  lemma SingleWrites(b: seq<Byte>)
    requires |b| == 1 && Utf8Char(b)
    ensures IsScalar(Payload(b)) && Octets(Payload(b)) == b
  {
  }
}
