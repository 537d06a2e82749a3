/** Big numbers as C strings and back. */
module BigNumberText {
  import opened BigDigits
  import opened BigNumber
  import opened BigSums
  import opened Decimals
  import opened Prelude

  /** A digit as the format with nine places prints it; a digit of ten places takes all ten. */
  function Formatted(d: nat): (s: string)
    ensures AllDigits(s) && |s| >= 9
  {
    if |Decimal(d)| < 9 then Zeros(9 - |Decimal(d)|) + Decimal(d) else Decimal(d)
  }

  /** The first `n` digits side by side, the highest first. */
  function Printed(d: seq<nat>, n: nat): (s: string)
    requires n <= |d|
    ensures AllDigits(s) && |s| >= 9 * n
  {
    if n == 0 then "" else Formatted(d[n - 1]) + Printed(d, n - 1)
  }

  lemma NineTens(k: nat)
    ensures Ten(k + 9) == LIMIT * Ten(k)
  {
    hide Ten;
    TenStep(k);
    TenStep(k + 1);
    TenStep(k + 2);
    TenStep(k + 3);
    TenStep(k + 4);
    TenStep(k + 5);
    TenStep(k + 6);
    TenStep(k + 7);
    TenStep(k + 8);
  }

  lemma {:induction false} WeightIsTen(n: nat)
    ensures Weight(n) == Ten(9 * n)
  {
    if n > 0 {
      WeightIsTen(n - 1);
      NineTens(9 * (n - 1));
    }
  }

  /** Digits in their range are printed as their value padded to nine places each. */
  lemma {:induction false} PrintedIs(d: seq<nat>, n: nat)
    requires n <= |d| && Normal(d)
    ensures Printed(d, n) == Padded(Magnitude(d, n), 9 * n)
  {
    hide Weight, Ten, Padded, Formatted, Magnitude;
    if n > 0 {
      PrintedIs(d, n - 1);
      PrintedStep(d, n - 1);
    } else {
      PaddedZero(0);
      PaddedNothing(Magnitude(d, 0));
    }
  }

  lemma PaddedNothing(n: nat)
    ensures Padded(n, 0) == ""
  {
  }

  lemma PrintedStep(d: seq<nat>, n: nat)
    requires n < |d| && Normal(d) && Printed(d, n) == Padded(Magnitude(d, n), 9 * n)
    ensures Formatted(d[n]) + Printed(d, n) == Padded(Magnitude(d, n + 1), 9 * (n + 1))
  {
    hide Printed, Weight, Ten, Padded, Formatted, Magnitude;
    MagnitudeBound(d, n);
    WeightIsTen(n);
    NineDigits(d[n]);
    MagnitudeStep(d, n);
    PaddedConcat(d[n], 9, Magnitude(d, n), 9 * n);
  }

  lemma NineDigits(d: nat)
    requires d < LIMIT
    ensures Formatted(d) == Padded(d, 9)
  {
    hide Ten, Decimal, Padded;
    NineTens(0);
    NothingParsed();
    DecimalFits(d, 9);
    PaddedIsZeros(d, 9);
    assert Zeros(0) + Decimal(d) == Decimal(d);
  }

  /** The forty-five places that fit the temporary buffer. */
  function Buffered(d: seq<nat>): (s: string)
    requires |d| == DIGITS
    ensures AllDigits(s) && |s| == 45
  {
    Printed(d, DIGITS)[..45]
  }

  lemma BufferedIs(d: seq<nat>)
    requires |d| == DIGITS && Normal(d)
    ensures Buffered(d) == Padded(Magnitude(d, DIGITS), 45) && Magnitude(d, DIGITS) < Ten(45)
  {
    PrintedIs(d, DIGITS);
    MagnitudeBound(d, DIGITS);
    WeightIsTen(DIGITS);
    var p := Printed(d, DIGITS);
    assert p[..45] == p;
  }

  /** The text of a number: a sign, then its last digits padded to the room there is, or its
      shortest digits as far as the room goes. `room` counts the terminating zero. */
  function Text(sign: int, size: nat, leadingZeros: bool, leadingPlus: bool, room: nat): string
    requires room > |Prefix(sign, leadingPlus)|
  {
    var prefix := Prefix(sign, leadingPlus);
    var left := room - |prefix| - 1;
    prefix +
    if leadingZeros then Padded(size, left)
    else if |Decimal(size)| <= left then Decimal(size)
    else Decimal(size)[..left]
  }

  function Prefix(sign: int, leadingPlus: bool): string {
    if sign < 0 then "-" else if leadingPlus then "+" else ""
  }

  /** The digits of a text without its sign. */
  function Unsigned(text: string): string {
    if text != "" && (text[0] == '-' || text[0] == '+') then text[1..] else text
  }

  /** The text starts with the sign asked for and goes on with digits of the number: with leading
      zeros as many of its last digits as there is room for, otherwise its first digits, without a
      zero in front, and all of them if there is room. */
  lemma TextShows(sign: int, n: nat, leadingZeros: bool, leadingPlus: bool, room: nat)
    requires sign == 0 || sign == -1
    requires room > |Prefix(sign, leadingPlus)|
    ensures var text := Text(sign, n, leadingZeros, leadingPlus, room);
      var digits := Unsigned(text);
      && AllDigits(digits) && |text| < room
      && (text != "" && text[0] == '-' <==> sign < 0)
      && (text != "" && text[0] == '+' <==> sign >= 0 && leadingPlus)
      && (leadingZeros ==> |text| + 1 == room && Parsed(digits) == n % Ten(|digits|))
      && (!leadingZeros && digits != "" && digits[0] == '0' ==> digits == "0" && n == 0)
      && (!leadingZeros && |text| + 1 < room ==> Parsed(digits) == n && digits != "")
      && (!leadingZeros ==> exists k: nat :: Parsed(digits) == n / Ten(k))
  {
    hide Padded, Decimal, Ten, Parsed;
    var text, prefix := Text(sign, n, leadingZeros, leadingPlus, room), Prefix(sign, leadingPlus);
    var digits, left := text[|prefix|..], room - |prefix| - 1;
    assert text == prefix + digits && AllDigits(digits) && Unsigned(text) == digits;
    if leadingZeros {
      LastDigits(n, left);
    } else {
      DecimalReads(n);
      DecimalShape(n);
      if n == 0 { ZeroDecimal(); }
      var cut := if |Decimal(n)| <= left then |Decimal(n)| else left;
      assert digits == Decimal(n)[..cut];
      FirstDigits(Decimal(n), cut);
    }
  }

  lemma {:induction false} LastDigits(n: nat, w: nat)
    ensures Parsed(Padded(n, w)) == n % Ten(w)
  {
    hide Ten;
    if w > 0 {
      LastDigits(n / 10, w - 1);
      ParsedStep(Padded(n / 10, w - 1), DigitChar(n % 10));
      TenStep(w - 1);
      TenthModulo(n, Ten(w - 1));
    } else {
      NothingParsed();
    }
  }

  lemma TenthModulo(n: nat, t: nat)
    requires t > 0
    ensures n % (10 * t) == 10 * (n / 10 % t) + n % 10
  {
    var q, r := n / 10 / t, n / 10 % t;
    assert n / 10 == q * t + r;
    assert n == q * (10 * t) + (10 * r + n % 10);
    Divided(q, 10 * t, 10 * r + n % 10);
  }

  lemma FirstDigits(s: string, cut: nat)
    requires AllDigits(s) && cut <= |s|
    ensures Parsed(s[..cut]) == Parsed(s) / Ten(|s| - cut)
  {
    hide Parsed, Ten;
    var a, b := s[..cut], s[cut..];
    assert s == a + b;
    ConcatReads(a, b);
    ParsedBound(b);
    Divided(Parsed(a), Ten(|b|), Parsed(b));
  }

  /** Less room cuts a text without leading zeros short. */
  lemma TextCut(sign: int, n: nat, leadingPlus: bool, room: nat, more: nat)
    requires |Prefix(sign, leadingPlus)| < room <= more
    ensures Text(sign, n, false, leadingPlus, room) <= Text(sign, n, false, leadingPlus, more)
  {
    hide Decimal;
  }

  /** Writes a number as text into a buffer of `buflen` characters: the text of the number that
      its forty-five places stand for, which is its own value when its digits are in range. */
  method ToCString(vp: BigNum, leadingZeros: bool, leadingPlus: bool, buflen: nat) returns (buffer: string)
    requires vp.Valid() && buflen > |Prefix(vp.sign, leadingPlus)|
    ensures buffer == Text(vp.sign, Parsed(Buffered(vp.digits[..])), leadingZeros, leadingPlus, buflen)
    ensures vp.Normal() ==> buffer == Text(vp.sign, vp.Size(), leadingZeros, leadingPlus, buflen)
    ensures vp.Normal() ==> Parsed(Buffered(vp.digits[..])) == vp.Size()
    ensures AllDigits(Unsigned(buffer)) && |buffer| < buflen
    ensures buffer != "" && buffer[0] == '-' <==> vp.sign < 0
    ensures buffer != "" && buffer[0] == '+' <==> vp.sign >= 0 && leadingPlus
    ensures leadingZeros ==> |buffer| + 1 == buflen
    ensures leadingZeros ==> Parsed(Unsigned(buffer)) == Parsed(Buffered(vp.digits[..])) % Ten(|Unsigned(buffer)|)
    ensures !leadingZeros && Unsigned(buffer) != "" && Unsigned(buffer)[0] == '0' ==>
      Unsigned(buffer) == "0" && Parsed(Buffered(vp.digits[..])) == 0
    ensures !leadingZeros && |buffer| + 1 < buflen ==>
      Unsigned(buffer) != "" && Parsed(Unsigned(buffer)) == Parsed(Buffered(vp.digits[..]))
    ensures !leadingZeros ==>
      exists k: nat :: Parsed(Unsigned(buffer)) == Parsed(Buffered(vp.digits[..])) / Ten(k)
  {
    hide Padded, Decimal, Buffered, Ten, Magnitude, Parsed, Unsigned;
    TextShows(vp.sign, Parsed(Buffered(vp.digits[..])), leadingZeros, leadingPlus, buflen);
    buffer := "";
    var left := buflen;
    if vp.sign < 0 {
      buffer := "-";
      left := left - 1;
    } else if leadingPlus {
      buffer := "+";
      left := left - 1;
    }
    var tmp := Buffered(vp.digits[..]);
    ghost var size := Parsed(tmp);
    ParsedPads(tmp);
    ParsedBound(tmp);
    if vp.Normal() {
      BufferedIs(vp.digits[..]);
      PaddedReads(vp.Size(), 45);
    }
    var body;
    if leadingZeros {
      body := FilledBody(tmp, left, size);
    } else {
      body := StrippedBody(tmp, left, size);
    }
    buffer := buffer + body;
  }

  /** Fills the room with zeros and copies the end of the places over them. */
  method FilledBody(tmp: string, left: nat, ghost size: nat) returns (body: string)
    requires left > 0 && size < Ten(45) && tmp == Padded(size, 45)
    ensures body == Padded(size, left - 1)
  {
    hide Padded, Ten;
    var toCopy := if 46 < left then 46 else left;
    PaddedText(size, left);
    body := Zeros(left - toCopy) + tmp[46 - toCopy..];
  }

  /** Skips leading zeros, but not the last place, and copies what the room allows. */
  method StrippedBody(tmp: string, left: nat, ghost size: nat) returns (body: string)
    requires left > 0 && size < Ten(45) && tmp == Padded(size, 45)
    ensures body == if |Decimal(size)| < left then Decimal(size) else Decimal(size)[..left - 1]
  {
    hide Padded, Decimal, Ten;
    var s: nat := 0;
    while s < |tmp| && tmp[s] == '0'
      invariant s <= |tmp| && forall i :: 0 <= i < s ==> tmp[i] == '0'
    {
      s := s + 1;
    }
    if s == |tmp| {
      s := s - 1;
    }
    Stripped(size, 45, s);
    body := tmp[s..];
    if left <= |body| {
      body := body[..left - 1];
    }
  }

  /** Zeros and the end of forty-five padded digits are the digits padded to the room. */
  lemma PaddedText(n: nat, room: nat)
    requires n < Ten(45) && room > 0
    ensures var toCopy := if 46 < room then 46 else room;
      Zeros(room - toCopy) + Padded(n, 45)[46 - toCopy..] == Padded(n, room - 1)
  {
    if 46 < room {
      PaddedWider(n, 45, room - 46);
    } else {
      PaddedSuffix(n, 45, room - 1);
      assert Zeros(0) == "";
    }
  }

  /** After its leading zeros, or before the last of nothing but zeros, a padded number is its
      shortest digits. */
  lemma Stripped(n: nat, w: nat, s: nat)
    requires n < Ten(w) && s < w
    requires forall i :: 0 <= i < s ==> Padded(n, w)[i] == '0'
    requires Padded(n, w)[s] != '0' || s + 1 == w
    ensures Padded(n, w)[s..] == Decimal(n)
  {
    hide Padded, Decimal, Ten;
    DecimalFits(n, w);
    PaddedIsZeros(n, w);
    DecimalShape(n);
    var k := w - |Decimal(n)|;
    assert Padded(n, w)[k] == Decimal(n)[0];
    if n == 0 { ZeroDecimal(); }
    assert s == k;
  }

  lemma ZeroDecimal()
    ensures Decimal(0) == "0"
  {
  }

  /** What `atol` makes of a run of digits, the largest `long` when there are too many, cut to the
      32 bits of a digit. */
  function TopDigit(n: nat): (d: nat)
    ensures n < TWO_32 ==> d == n
  {
    (if n < TWO_63 then n else TWO_63 - 1) % TWO_32
  }

  /** The number read from text: thirty-six places, and above them the top digit. */
  function ReadAs(n: nat): int {
    hide Ten;
    n % Ten(36) + TopDigit(n / Ten(36)) * Ten(36)
  }

  /** It is the number written exactly when what is above the thirty-six places is below 2^32. */
  lemma ReadAsExact(n: nat)
    ensures ReadAs(n) == n <==> n / Ten(36) < TWO_32
    ensures n < Ten(45) ==> n / Ten(36) < LIMIT
  {
    hide Ten;
    NineTens(36);
    DivSteps(n, Ten(36), TopDigit(n / Ten(36)));
    if n < Ten(45) { BelowProduct(n, Ten(36), LIMIT); }
  }

  /** Beyond 2^63 times thirty-six places the top digit is that of the largest `long`. */
  lemma ReadAsLargest(n: nat)
    requires n / Ten(36) >= 0x8000_0000_0000_0000
    ensures ReadAs(n) == n % Ten(36) + 4_294_967_295 * Ten(36)
  {
    hide Ten;
  }

  lemma DivSteps(n: nat, t: nat, d: nat)
    requires t > 0
    ensures n % t + d * t == n <==> d == n / t
  {
    if n % t + d * t == n {
      assert (d - n / t) * t == 0;
    }
  }

  lemma BelowProduct(n: nat, t: nat, m: nat)
    requires t > 0 && n < m * t
    ensures n / t < m
  {
  }

  /** Reads a number from text: a sign, and digits. The digits read are in range exactly when the
      top one is below 10^9. */
  method FromCString(text: string) returns (r: BigNum)
    requires AllDigits(Unsigned(text))
    ensures fresh(r) && fresh(r.digits) && r.Valid()
    ensures r.sign == if text != "" && text[0] == '-' then -1 else 0
    ensures r.Size() == ReadAs(Parsed(Unsigned(text)))
    ensures r.Normal() <==> TopDigit(Parsed(Unsigned(text)) / Ten(36)) < LIMIT
  {
    hide Ten, Weight, Magnitude, Parsed, ReadAs, TopDigit;
    r := new BigNum();
    var working := text;
    if text != "" && text[0] == '-' {
      r.sign := -1;
      working := working[1..];
    } else if text != "" && text[0] == '+' {
      working := working[1..];
    }
    while working != "" && working[0] == '0'
      modifies {}
      invariant AllDigits(working) && Parsed(working) == Parsed(Unsigned(text))
      decreases |working|
    {
      LeadingZero(working);
      working := working[1..];
    }
    if working == "" {
      NothingParsed();
      ZeroMagnitude(r.digits[..], DIGITS);
      NothingRead();
      return;
    }
    ReadDigits(r, working);
  }

  lemma NothingRead()
    ensures ReadAs(0) == 0 && TopDigit(0 / Ten(36)) == 0
  {
    hide Ten;
  }

  /** The loop that reads nine places at a time from the end. */
  method ReadDigits(r: BigNum, s: string)
    requires r.Valid() && r.digits[..] == [0, 0, 0, 0, 0] && AllDigits(s)
    modifies r.digits
    ensures r.Size() == ReadAs(Parsed(s))
    ensures r.Normal() <==> TopDigit(Parsed(s) / Ten(36)) < LIMIT
  {
    hide Ten, Weight, Magnitude, Parsed, ReadAs, TopDigit;
    var working, curDigit: nat := s, 0;
    ReadAtFirst(s);
    while curDigit + 1 < DIGITS && 9 < |working|
      invariant curDigit < DIGITS && AllDigits(working) && |working| + 9 * curDigit == |s|
      invariant ReadSoFar(s, working, r.digits[..], curDigit)
    {
      var digit := Parsed(working[|working| - 9..]);
      ghost var d := r.digits[..];
      ReadStep(s, working, d, curDigit, |working| - 9);
      r.digits[curDigit] := digit;
      assert r.digits[..] == d[curDigit := digit];
      working := working[..|working| - 9];
      curDigit := curDigit + 1;
    }
    var digit := TopDigit(Parsed(working));
    ghost var d := r.digits[..];
    if |working| <= 9 {
      ReadLast(s, working, d, curDigit);
    } else {
      ReadTop(s, working, d);
    }
    r.digits[curDigit] := digit;
    assert r.digits[..] == d[curDigit := digit];
  }

  /** The last places are no more than nine: they make a digit. */
  lemma ReadLast(s: string, working: string, d: seq<nat>, n: nat)
    requires AllDigits(s) && AllDigits(working) && n < |d| == DIGITS && ReadSoFar(s, working, d, n)
    requires |working| <= 9 && |working| + 9 * n == |s|
    ensures var d' := d[n := TopDigit(Parsed(working))];
      && Magnitude(d', DIGITS) == ReadAs(Parsed(s)) && Normal(d') && TopDigit(Parsed(s) / Ten(36)) < LIMIT
  {
    hide Ten, Weight, Magnitude, Parsed, ReadAs, ReadSoFar, TopDigit;
    ParsedBound(working);
    TenGrows(|working|, 9);
    NineTens(0);
    NothingParsed();
    assert working[0..] == working;
    ReadStep(s, working, d, n, 0);
    ReadAll(s, d[n := Parsed(working)], n + 1);
    ParsedBound(s);
    TenGrows(|s|, 45);
    ReadAsExact(Parsed(s));
    LastIsSmall(s, d[n := Parsed(working)], n + 1);
  }

  lemma LastIsSmall(s: string, d: seq<nat>, n: nat)
    requires AllDigits(s) && n <= |d| == DIGITS && ReadSoFar(s, "", d, n)
    ensures Normal(d)
  {
  }

  /** More places are left for the top digit: it takes what `atol` makes of them. */
  lemma ReadTop(s: string, working: string, d: seq<nat>)
    requires AllDigits(s) && AllDigits(working) && |d| == DIGITS && ReadSoFar(s, working, d, DIGITS - 1)
    ensures var d' := d[DIGITS - 1 := TopDigit(Parsed(working))];
      && Magnitude(d', DIGITS) == ReadAs(Parsed(s))
      && (Normal(d') <==> TopDigit(Parsed(s) / Ten(36)) < LIMIT)
  {
    hide Ten, Weight, Magnitude, Parsed, TopDigit;
    var w := Parsed(working);
    var d' := d[DIGITS - 1 := TopDigit(w)];
    SameMagnitude(d, d', DIGITS - 1);
    MagnitudeStep(d', DIGITS - 1);
    MagnitudeBound(d, DIGITS - 1);
    WeightIsTen(DIGITS - 1);
    Divided(w, Ten(36), Magnitude(d, DIGITS - 1));
    assert d'[DIGITS - 1] == TopDigit(w);
  }

  lemma Divided(q: nat, t: nat, r: nat)
    requires r < t
    ensures (q * t + r) / t == q && (q * t + r) % t == r
  {
    var n := q * t + r;
    var e := n / t - q;
    assert n == n / t * t + n % t;
    Times(q, e, t);
    assert e * t == r - n % t;
    assert 0 - t < e * t < t;
    Cancelled(e, t);
  }

  lemma Cancelled(e: int, t: nat)
    requires 0 - t < e * t < t
    ensures e == 0
  {
  }

  /** What the first `n` digits and the text that is left stand for, together. */
  ghost predicate ReadSoFar(s: string, working: string, d: seq<nat>, n: nat)
    requires AllDigits(s) && AllDigits(working) && n <= |d| == DIGITS
  {
    && Normal(d) && (forall j :: n <= j < DIGITS ==> d[j] == 0)
    && Parsed(s) == Parsed(working) * Weight(n) + Magnitude(d, n)
  }

  lemma ReadAtFirst(s: string)
    requires AllDigits(s)
    ensures ReadSoFar(s, s, [0, 0, 0, 0, 0], 0)
  {
    assert Weight(0) == 1 && Magnitude([0, 0, 0, 0, 0], 0) == 0;
  }

  lemma ReadStep(s: string, working: string, d: seq<nat>, n: nat, cut: nat)
    requires AllDigits(s) && AllDigits(working) && n < |d| == DIGITS && ReadSoFar(s, working, d, n)
    requires cut <= |working| && (|working| == cut + 9 || (cut == 0 && |working| <= 9))
    ensures AllDigits(working[..cut]) && AllDigits(working[cut..])
    ensures var d' := d[n := Parsed(working[cut..])];
      if cut == 0 then ReadSoFar(s, "", d', n + 1) else ReadSoFar(s, working[..cut], d', n + 1)
  {
    hide Weight, Parsed, Ten, Magnitude;
    var a, b := working[..cut], working[cut..];
    var d' := d[n := Parsed(b)];
    assert working == a + b;
    ConcatReads(a, b);
    ParsedBound(b);
    NineTens(0);
    NothingParsed();
    TenGrows(|b|, 9);
    SameMagnitude(d, d', n);
    MagnitudeStep(d', n);
    WeightStep(n);
    if cut > 0 {
      SplitWeight(Parsed(a), Parsed(b), Weight(n));
    } else {
      assert a == "" && b == working;
    }
  }

  lemma SplitWeight(a: nat, b: nat, w: nat)
    ensures (a * LIMIT + b) * w == a * (LIMIT * w) + b * w
  {
    Times(a * LIMIT, b, w);
    assert (a * LIMIT) * w == a * (LIMIT * w);
  }

  lemma ReadAll(s: string, d: seq<nat>, n: nat)
    requires AllDigits(s) && n <= |d| == DIGITS && ReadSoFar(s, "", d, n)
    ensures Magnitude(d, DIGITS) == Parsed(s)
  {
    NothingParsed();
    MoreZeros(d, n, DIGITS);
  }

  lemma {:induction false} MoreZeros(d: seq<nat>, n: nat, m: nat)
    requires n <= m <= |d| && forall j :: n <= j < m ==> d[j] == 0
    ensures Magnitude(d, m) == Magnitude(d, n)
  {
    if n < m {
      MoreZeros(d, n, m - 1);
    }
  }

  lemma LeadingZero(s: string)
    requires AllDigits(s) && s != "" && s[0] == '0'
    ensures AllDigits(s[1..]) && Parsed(s[1..]) == Parsed(s)
  {
    assert s == ['0'] + s[1..];
    ConcatReads(['0'], s[1..]);
    ParsedStep("", '0');
    assert "" + ['0'] == ['0'];
  }

  /** Text written with enough room stands for the number, with its sign. */
  lemma RoundTrip(sign: int, size: nat, leadingZeros: bool, leadingPlus: bool, room: nat)
    requires sign == 0 || sign == -1
    requires size < Ten(45) && room >= |Prefix(sign, leadingPlus)| + (if leadingZeros then 46 else |Decimal(size)| + 1)
    ensures var text := Text(sign, size, leadingZeros, leadingPlus, room);
      && AllDigits(Unsigned(text)) && Parsed(Unsigned(text)) == size
      && (sign == if text != "" && text[0] == '-' then -1 else 0)
  {
    hide Padded, Decimal, Ten, Parsed;
    var text := Text(sign, size, leadingZeros, leadingPlus, room);
    var prefix := Prefix(sign, leadingPlus);
    var body := text[|prefix|..];
    if leadingZeros {
      TenGrows(45, room - |prefix| - 1);
      PaddedReads(size, room - |prefix| - 1);
    } else {
      DecimalReads(size);
    }
    assert text == prefix + body;
    assert body != "" && IsDigit(body[0]);
    assert Unsigned(text) == body;
  }

  /** A number written with enough room and read again has the same sign, and the same digits
      exactly when they are all in range. */
  method WriteAndRead(vp: BigNum, leadingZeros: bool, leadingPlus: bool, buflen: nat) returns (r: BigNum)
    requires vp.Valid()
    requires buflen >= |Prefix(vp.sign, leadingPlus)| +
      (if leadingZeros then 46 else |Decimal(Parsed(Buffered(vp.digits[..])))| + 1)
    ensures r.Valid() && r.Normal() && r.sign == vp.sign
    ensures r.digits[..] == vp.digits[..] <==> vp.Normal()
  {
    hide Decimal, Ten, Parsed, Buffered, Text, ReadAs, Magnitude;
    ghost var size := Parsed(Buffered(vp.digits[..]));
    ParsedBound(Buffered(vp.digits[..]));
    RoundTrip(vp.sign, size, leadingZeros, leadingPlus, buflen);
    ReadAsExact(size);
    var text := ToCString(vp, leadingZeros, leadingPlus, buflen);
    r := FromCString(text);
    if vp.Normal() {
      BufferedIs(vp.digits[..]);
      PaddedReads(vp.Size(), 45);
      UniqueDigits(r.digits[..], vp.digits[..]);
    }
  }

  /** The number of digits among the first `n` that take ten places. */
  function Long(d: seq<nat>, n: nat): nat
    requires n <= |d|
  {
    if n == 0 then 0 else Long(d, n - 1) + (if d[n - 1] < LIMIT then 0 else 1)
  }

  lemma {:induction false} LongNormal(d: seq<nat>, n: nat)
    requires n <= |d|
    ensures Long(d, n) == 0 <==> forall i :: 0 <= i < n ==> d[i] < LIMIT
  {
    if n > 0 {
      LongNormal(d, n - 1);
    }
  }

  lemma TenDigits(d: nat)
    requires d == LIMIT
    ensures |Formatted(d)| == 10 && Parsed(Formatted(d)) == d
  {
    hide Ten, Decimal, Padded;
    NineTens(0);
    NothingParsed();
    TenStep(9);
    DecimalFits(d, 9);
    DecimalFits(d, 10);
    DecimalReads(d);
  }

  /** Digits of ten places make the text longer, and so, cut to its width, too small. */
  lemma {:induction false} PrintedBound(d: seq<nat>, n: nat)
    requires n <= |d| && forall i :: 0 <= i < |d| ==> d[i] <= LIMIT
    ensures |Printed(d, n)| == 9 * n + Long(d, n)
    ensures var p, v := Parsed(Printed(d, n)), Magnitude(d, n) * Ten(Long(d, n));
      if Long(d, n) == 0 then p == v else p < v
  {
    hide Weight, Ten, Parsed, Formatted;
    if n == 0 {
      NothingParsed();
    } else {
      PrintedBound(d, n - 1);
      LongStep(d, n - 1);
    }
  }

  lemma LongStep(d: seq<nat>, n: nat)
    requires n < |d| && d[n] <= LIMIT && |Printed(d, n)| == 9 * n + Long(d, n)
    requires var p, v := Parsed(Printed(d, n)), Magnitude(d, n) * Ten(Long(d, n));
      if Long(d, n) == 0 then p == v else p < v
    ensures |Printed(d, n + 1)| == 9 * (n + 1) + Long(d, n + 1)
    ensures var p, v := Parsed(Printed(d, n + 1)), Magnitude(d, n + 1) * Ten(Long(d, n + 1));
      if Long(d, n + 1) == 0 then p == v else p < v
  {
    hide Weight, Ten, Parsed, Formatted, Padded;
    var k := Long(d, n);
    ConcatReads(Formatted(d[n]), Printed(d, n));
    MagnitudeStep(d, n);
    WeightIsTen(n);
    TenPlus(9 * n, k);
    Spread(d[n], Ten(9 * n), Magnitude(d, n), Ten(k));
    if d[n] < LIMIT {
      NineDigits(d[n]);
      NineTens(0);
      NothingParsed();
      PaddedReads(d[n], 9);
    } else {
      TenDigits(d[n]);
      TenStep(k);
      TimesTen(Magnitude(d, n + 1), Ten(k));
      NoMore(1, d[n], Ten(9 * n + k));
    }
  }

  lemma {:induction false} TenPlus(a: nat, b: nat)
    ensures Ten(a + b) == Ten(a) * Ten(b)
  {
    if b > 0 {
      TenPlus(a, b - 1);
      TimesTen(Ten(a), Ten(b - 1));
    } else {
      NothingParsed();
    }
  }

  lemma Spread(d: nat, w: nat, m: nat, t: nat)
    ensures (m + d * w) * t == m * t + d * (w * t)
  {
    Times(m, d * w, t);
    assert (d * w) * t == d * (w * t);
  }

  /** The forty-five places of a sum stand for its value exactly when no digit is 10^9. */
  lemma PrintsRight(d: seq<nat>)
    requires |d| == DIGITS && forall i :: 0 <= i < |d| ==> d[i] <= LIMIT
    ensures Parsed(Buffered(d)) == Magnitude(d, DIGITS) <==> Normal(d)
  {
    hide Weight, Ten, Parsed, Printed, Magnitude, Padded;
    PrintedBound(d, DIGITS);
    LongNormal(d, DIGITS);
    var p, k := Printed(d, DIGITS), Long(d, DIGITS);
    if k == 0 {
      BufferedIs(d);
      PaddedReads(Magnitude(d, DIGITS), 45);
    } else {
      assert p == p[..45] + p[45..];
      ConcatReads(p[..45], p[45..]);
      if Magnitude(d, DIGITS) <= Parsed(p[..45]) {
        NoMore(Magnitude(d, DIGITS), Parsed(p[..45]), Ten(k));
      }
    }
  }

  lemma {:induction false} PrintedAfterZeros(d: seq<nat>, n: nat)
    requires 1 <= n <= |d| && d[0] == LIMIT && forall i :: 1 <= i < |d| ==> d[i] == 0
    ensures Parsed(Printed(d, n)) == LIMIT == Magnitude(d, n) && Long(d, n) == 1
  {
    hide Ten, Parsed, Formatted, Padded;
    if n == 1 {
      assert Printed(d, 0) == "" && Magnitude(d, 0) == 0 && Weight(0) == 1 && Long(d, 0) == 0;
      TenDigits(d[0]);
      assert Formatted(LIMIT) + "" == Formatted(LIMIT);
    } else {
      PrintedAfterZeros(d, n - 1);
      ConcatReads(Formatted(0), Printed(d, n - 1));
      NineDigits(0);
      NineTens(0);
      NothingParsed();
      PaddedReads(0, 9);
    }
  }

  lemma OneDigitSum(x: seq<nat>, y: seq<nat>)
    requires |x| == |y| == DIGITS && x[0] + y[0] == LIMIT
    requires forall i :: 1 <= i < DIGITS ==> x[i] == 0 && y[i] == 0
    ensures SumDigit(x, y, 0) == LIMIT && forall i :: 1 <= i < DIGITS ==> SumDigit(x, y, i) == 0
  {
    assert CarryInto(x, y, 1) == 0;
    assert CarryInto(x, y, 2) == 0;
    assert CarryInto(x, y, 3) == 0;
    assert CarryInto(x, y, 4) == 0;
  }

  /** 999999999 and 1 sum to a digit of 10^9, which is printed as 100000000. */
  lemma SumMisprinted()
    ensures var x, y, z := [999_999_999, 0, 0, 0, 0], [1, 0, 0, 0, 0], [LIMIT, 0, 0, 0, 0];
      && (forall i :: 0 <= i < DIGITS ==> z[i] == SumDigit(x, y, i)) && InGap(x, y, 0)
      && Parsed(Buffered(z)) == 100_000_000
  {
    hide SumDigit, CarryInto, Printed, Parsed, Ten, Long;
    var x, y, z := [999_999_999, 0, 0, 0, 0], [1, 0, 0, 0, 0], [LIMIT, 0, 0, 0, 0];
    OneDigitSum(x, y);
    assert Weight(0) == 1 && Weight(1) == LIMIT;
    assert Magnitude(x, 0) == Magnitude(y, 0) == Magnitude(z, 0) == 0;
    assert Magnitude(x, 1) == 999_999_999 && Magnitude(y, 1) == 1 && Magnitude(z, 1) == LIMIT;
    hide Magnitude, Weight;
    PrintedAfterZeros(z, DIGITS);
    PrintedBound(z, DIGITS);
    var p := Printed(z, DIGITS);
    assert p == p[..45] + [p[45]];
    ParsedStep(p[..45], p[45]);
  }
}
