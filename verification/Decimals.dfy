/** Decimal text: a number as its shortest digits and as digits padded to a width, and the number
    a run of digits stands for. */
module Decimals {
  function Ten(n: nat): (t: nat)
    ensures t > 0
  {
    if n == 0 then 1 else 10 * Ten(n - 1)
  }

  predicate IsDigit(c: char) {
    '0' <= c <= '9'
  }

  predicate AllDigits(s: string) {
    forall i :: 0 <= i < |s| ==> IsDigit(s[i])
  }

  function DigitChar(n: nat): (c: char)
    requires n < 10
    ensures IsDigit(c) && DigitOf(c) == n && (c == '0' <==> n == 0)
  {
    '0' + n as char
  }

  function DigitOf(c: char): (n: nat)
    requires IsDigit(c)
    ensures n < 10
  {
    (c - '0') as nat
  }

  lemma DigitLiterals(n: nat)
    requires n < 10
    ensures DigitChar(n) == "0123456789"[n] && DigitOf("0123456789"[n]) == n
  {
    assert '0' + 9 as char == '9';
  }

  /** What a run of digits stands for. */
  function Parsed(s: string): nat
    requires AllDigits(s)
  {
    if s == "" then 0 else 10 * Parsed(s[..|s| - 1]) + DigitOf(s[|s| - 1])
  }

  /** The shortest digits of a number. */
  function Decimal(n: nat): (s: string)
    ensures AllDigits(s) && s != ""
  {
    if n < 10 then [DigitChar(n)] else Decimal(n / 10) + [DigitChar(n % 10)]
  }

  /** The last `w` digits of a number. */
  function Padded(n: nat, w: nat): (s: string)
    ensures AllDigits(s) && |s| == w
  {
    if w == 0 then "" else Padded(n / 10, w - 1) + [DigitChar(n % 10)]
  }

  lemma TenStep(n: nat)
    ensures Ten(n + 1) == 10 * Ten(n)
  {
  }

  lemma TenthBelow(n: nat, t: nat)
    requires n < 10 * t
    ensures n / 10 < t && n == 10 * (n / 10) + n % 10
  {
  }

  /** A padded number below the width's power of ten reads back. */
  lemma {:induction false} PaddedReads(n: nat, w: nat)
    requires n < Ten(w)
    ensures Parsed(Padded(n, w)) == n
  {
    if w > 0 {
      TenStep(w - 1);
      TenthBelow(n, Ten(w - 1));
      PaddedReads(n / 10, w - 1);
      ParsedStep(Padded(n / 10, w - 1), DigitChar(n % 10));
    }
  }

  /** A run of digits is what it stands for, padded to its length. */
  lemma {:induction false} ParsedPads(s: string)
    requires AllDigits(s)
    ensures Padded(Parsed(s), |s|) == s
  {
    if s != "" {
      var a, c := s[..|s| - 1], s[|s| - 1];
      ParsedPads(a);
      assert s == a + [c];
      ParsedStep(a, c);
      assert (10 * Parsed(a) + DigitOf(c)) / 10 == Parsed(a);
      assert DigitChar(DigitOf(c)) == c;
    }
  }

  lemma {:induction false} DecimalReads(n: nat)
    ensures Parsed(Decimal(n)) == n
  {
    if n < 10 {
      assert [DigitChar(n)][..0] == "";
    } else {
      DecimalReads(n / 10);
      var s := Decimal(n);
      assert s[..|s| - 1] == Decimal(n / 10);
    }
  }

  lemma ParsedStep(s: string, c: char)
    requires AllDigits(s) && IsDigit(c)
    ensures AllDigits(s + [c]) && Parsed(s + [c]) == 10 * Parsed(s) + DigitOf(c)
  {
    assert (s + [c])[..|s|] == s;
  }

  lemma NothingParsed()
    ensures Parsed("") == 0 && Ten(0) == 1
  {
  }

  lemma TimesTen(p: nat, t: nat)
    ensures p * (10 * t) == 10 * (p * t)
  {
  }

  lemma ConcatStep(a: string, b: string, c: char)
    requires AllDigits(a) && AllDigits(b) && AllDigits(a + b) && IsDigit(c)
    requires Parsed(a + b) == Parsed(a) * Ten(|b|) + Parsed(b)
    ensures AllDigits(b + [c]) && AllDigits(a + (b + [c]))
    ensures Parsed(a + (b + [c])) == Parsed(a) * Ten(|b| + 1) + Parsed(b + [c])
  {
    hide Parsed, Ten;
    assert a + (b + [c]) == (a + b) + [c];
    ParsedStep(a + b, c);
    ParsedStep(b, c);
    TenStep(|b|);
    TimesTen(Parsed(a), Ten(|b|));
  }

  lemma {:induction false} ConcatReads(a: string, b: string)
    requires AllDigits(a) && AllDigits(b)
    ensures AllDigits(a + b) && Parsed(a + b) == Parsed(a) * Ten(|b|) + Parsed(b)
  {
    hide Parsed, Ten;
    if b == "" {
      assert a + b == a;
      NothingParsed();
    } else {
      var b', c := b[..|b| - 1], b[|b| - 1];
      ConcatReads(a, b');
      ConcatStep(a, b', c);
      assert a + b == a + (b' + [c]) && b == b' + [c];
    }
  }

  lemma {:induction false} ParsedBound(s: string)
    requires AllDigits(s)
    ensures Parsed(s) < Ten(|s|)
  {
    if s != "" {
      ParsedBound(s[..|s| - 1]);
    }
  }

  /** The shortest digits have no leading zero, and are as many as the number needs. */
  lemma {:induction false} DecimalShape(n: nat)
    ensures n > 0 ==> Decimal(n)[0] != '0'
    ensures n > 0 ==> Ten(|Decimal(n)| - 1) <= n
    ensures n < Ten(|Decimal(n)|)
  {
    if n < 10 {
      assert Ten(0) == 1 && Ten(1) == 10;
    } else {
      DecimalShape(n / 10);
      var k := |Decimal(n / 10)|;
      TenStep(k);
      TenStep(k - 1);
    }
  }

  lemma {:induction false} TenGrows(a: nat, b: nat)
    requires a <= b
    ensures Ten(a) <= Ten(b)
  {
    if a < b {
      TenGrows(a, b - 1);
    }
  }

  /** The shortest digits fit a width exactly when the number is below its power of ten. */
  lemma DecimalFits(n: nat, w: nat)
    ensures w > 0 ==> (|Decimal(n)| <= w <==> n < Ten(w))
  {
    DecimalShape(n);
    var k := |Decimal(n)|;
    if k <= w { TenGrows(k, w); }
    if 0 < w < k { TenGrows(w, k - 1); }
    if n == 0 { assert k == 1; }
  }

  function Zeros(k: nat): (z: string)
    ensures |z| == k && AllDigits(z) && forall i :: 0 <= i < k ==> z[i] == '0'
  {
    seq(k, _ => '0')
  }

  lemma {:induction false} PaddedZero(k: nat)
    ensures Padded(0, k) == Zeros(k)
  {
    if k > 0 {
      PaddedZero(k - 1);
      assert Zeros(k) == Zeros(k - 1) + ['0'];
    }
  }

  /** Padding is putting zeros before the shortest digits. */
  lemma {:induction false} PaddedIsZeros(n: nat, w: nat)
    requires |Decimal(n)| <= w
    ensures Zeros(w - |Decimal(n)|) + Decimal(n) == Padded(n, w)
    decreases n
  {
    if n < 10 {
      assert n / 10 == 0 && n % 10 == n;
      PaddedZero(w - 1);
    } else {
      PaddedIsZeros(n / 10, w - 1);
      var z := Zeros(w - |Decimal(n)|);
      assert z + (Decimal(n / 10) + [DigitChar(n % 10)]) == z + Decimal(n / 10) + [DigitChar(n % 10)];
    }
  }

  /** The last digits of a padded number. */
  lemma {:induction false} PaddedSuffix(n: nat, w: nat, k: nat)
    requires k <= w
    ensures Padded(n, w)[w - k..] == Padded(n, k)
  {
    if k > 0 {
      PaddedSuffix(n / 10, w - 1, k - 1);
      assert Padded(n, w)[w - k..] == Padded(n / 10, w - 1)[w - k..] + [DigitChar(n % 10)];
    }
  }

  lemma SplitTen(a: nat, t: nat, b: nat)
    requires b < 10 * t
    ensures var n := a * (10 * t) + b; n / 10 == a * t + b / 10 && n % 10 == b % 10 && b / 10 < t
  {
    TimesTen(a, t);
    var q := a * t;
    assert (10 * q + b) / 10 == q + b / 10 && (10 * q + b) % 10 == b % 10;
  }

  /** Padded numbers side by side are a padded number. */
  lemma {:induction false} PaddedConcat(a: nat, w1: nat, b: nat, w2: nat)
    requires b < Ten(w2)
    ensures Padded(a, w1) + Padded(b, w2) == Padded(a * Ten(w2) + b, w1 + w2)
  {
    if w2 == 0 {
      assert Ten(0) == 1;
      assert Padded(a, w1) + "" == Padded(a, w1);
    } else {
      TenStep(w2 - 1);
      SplitTen(a, Ten(w2 - 1), b);
      PaddedConcat(a, w1, b / 10, w2 - 1);
      assert Padded(a, w1) + Padded(b, w2) == Padded(a, w1) + Padded(b / 10, w2 - 1) + [DigitChar(b % 10)];
    }
  }

  /** More width is more zeros. */
  lemma PaddedWider(n: nat, w: nat, k: nat)
    requires n < Ten(w)
    ensures Zeros(k) + Padded(n, w) == Padded(n, k + w)
  {
    PaddedZero(k);
    PaddedConcat(0, k, n, w);
  }
}
