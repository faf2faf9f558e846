// Positional numerals and their texts.
module Numerals {
  import opened Bytes

  const ZERO: byte := 48    // '0'
  const MINUS: byte := 45   // '-'
  const PLUS: byte := 43    // '+'
  const LOWER_A: byte := 97
  const UPPER_A: byte := 65

  // The bases in use. The operations are written out per base to keep them linear.
  type Base = b: int | b == 10 || b == 16 witness 10

  function Times(n: nat, b: Base): nat {
    if b == 10 then n * 10 else n * 16
  }

  function Quotient(n: nat, b: Base): nat {
    if b == 10 then n / 10 else n / 16
  }

  function Remainder(n: nat, b: Base): nat {
    if b == 10 then n % 10 else n % 16
  }

  // The digits of n, most significant first.
  function Digits(n: nat, b: Base): (d: seq<nat>)
    ensures |d| > 0
    decreases n
  {
    if n < b then [n] else Digits(Quotient(n, b), b) + [Remainder(n, b)]
  }

  // What a digit sequence stands for.
  function Eval(d: seq<nat>, b: Base): nat
    decreases |d|
  {
    if d == [] then 0 else Times(Eval(d[..|d| - 1], b), b) + d[|d| - 1]
  }

  // Digits below the base, none of them a leading zero.
  ghost predicate Canonical(d: seq<nat>, b: Base) {
    && |d| > 0
    && (forall i :: 0 <= i < |d| ==> d[i] < b)
    && (|d| > 1 ==> d[0] != 0)
  }

  lemma {:induction false} DigitsEval(n: nat, b: Base)
    ensures Eval(Digits(n, b), b) == n
    decreases n
  {
    if n < b {
      assert Eval([n][..0], b) == 0;
    } else {
      DigitsEval(Quotient(n, b), b);
      assert Digits(n, b)[..|Digits(n, b)| - 1] == Digits(Quotient(n, b), b);
    }
  }

  lemma {:induction false} DigitsCanonical(n: nat, b: Base)
    ensures Canonical(Digits(n, b), b)
    ensures n > 0 ==> Digits(n, b)[0] != 0
    decreases n
  {
    if n >= b {
      DigitsCanonical(Quotient(n, b), b);
    }
  }

  lemma {:induction false} CanonicalPositive(d: seq<nat>, b: Base)
    requires Canonical(d, b) && d[0] != 0
    ensures Eval(d, b) > 0
    decreases |d|
  {
    if |d| == 1 {
      assert Eval(d[..0], b) == 0;
    } else {
      CanonicalPositive(d[..|d| - 1], b);
    }
  }

  lemma QuotientOfSum(q: nat, r: nat, b: Base)
    requires r < b
    ensures Quotient(Times(q, b) + r, b) == q && Remainder(Times(q, b) + r, b) == r
    ensures q > 0 ==> Times(q, b) + r >= b
  {
  }

  // There is only one canonical numeral of a number.
  lemma {:induction false} CanonicalUnique(d: seq<nat>, b: Base)
    requires Canonical(d, b)
    ensures d == Digits(Eval(d, b), b)
    decreases |d|
  {
    if |d| == 1 {
      assert Eval(d[..0], b) == 0;
    } else {
      var front, last := d[..|d| - 1], d[|d| - 1];
      CanonicalUnique(front, b);
      CanonicalPositive(front, b);
      QuotientOfSum(Eval(front, b), last, b);
      assert d == front + [last];
    }
  }

  function Power(b: Base, k: nat): nat {
    if k == 0 then 1 else Times(Power(b, k - 1), b)
  }

  // A number below b to the k has at most k digits.
  lemma {:induction false} DigitsLength(n: nat, b: Base, k: nat)
    requires k > 0 && n < Power(b, k)
    ensures |Digits(n, b)| <= k
  {
    if n >= b {
      DigitsLength(Quotient(n, b), b, k - 1);
    }
  }

  function Zeros(k: nat): seq<nat> {
    seq(k, i => 0)
  }

  // Zeros in front change nothing.
  lemma {:induction false} LeadingZeros(k: nat, d: seq<nat>, b: Base)
    ensures Eval(Zeros(k) + d, b) == Eval(d, b)
    decreases |d|, k
  {
    if d != [] {
      LeadingZeros(k, d[..|d| - 1], b);
      assert (Zeros(k) + d)[..k + |d| - 1] == Zeros(k) + d[..|d| - 1];
    } else if k > 0 {
      LeadingZeros(k - 1, d, b);
      assert (Zeros(k) + d)[..k - 1] == Zeros(k - 1) + d;
      assert (Zeros(k) + d)[k - 1] == 0;
    }
  }

  // Zeros behind multiply: the value stays only if it is 0.
  lemma {:induction false} TrailingZeros(k: nat, d: seq<nat>, b: Base)
    ensures Eval(d + Zeros(k), b) >= Eval(d, b)
    ensures k > 0 && Eval(d, b) > 0 ==> Eval(d + Zeros(k), b) > Eval(d, b)
    ensures Eval(d, b) == 0 ==> Eval(d + Zeros(k), b) == 0
  {
    if k == 0 {
      assert d + Zeros(0) == d;
    } else {
      TrailingZeros(k - 1, d, b);
      var longer := d + Zeros(k);
      assert longer[..|longer| - 1] == d + Zeros(k - 1);
      var v := Eval(d + Zeros(k - 1), b);
      assert Eval(longer, b) == Times(v, b);
    }
  }

  // n with k zeros behind its numeral.
  function Shifted(n: nat, b: Base, k: nat): nat {
    if k == 0 then n else Times(Shifted(n, b, k - 1), b)
  }

  lemma {:induction false} TrailingZerosShift(k: nat, d: seq<nat>, b: Base)
    ensures Eval(d + Zeros(k), b) == Shifted(Eval(d, b), b, k)
  {
    if k == 0 {
      assert d + Zeros(0) == d;
    } else {
      TrailingZerosShift(k - 1, d, b);
      var longer := d + Zeros(k);
      assert longer[..|longer| - 1] == d + Zeros(k - 1);
    }
  }

  // ---------------------------------------------------------------- divisibility by powers of two

  // n can be halved j times.
  predicate Halves(n: int, j: nat)
    decreases j
  {
    j == 0 || (n % 2 == 0 && Halves(n / 2, j - 1))
  }

  function Doubled(q: int, j: nat): int
    decreases j
  {
    if j == 0 then q else 2 * Doubled(q, j - 1)
  }

  lemma {:induction false} HalvesFiveTimes(n: int, j: nat)
    requires Halves(n, j)
    ensures Halves(5 * n, j)
    decreases j
  {
    if j > 0 {
      HalvesFiveTimes(n / 2, j - 1);
      assert (5 * n) / 2 == 5 * (n / 2);
    }
  }

  lemma {:induction false} HalvesDifference(a: int, b: int, j: nat)
    requires Halves(a, j) && Halves(b, j)
    ensures Halves(a - b, j)
    decreases j
  {
    if j > 0 {
      HalvesDifference(a / 2, b / 2, j - 1);
      assert (a - b) / 2 == a / 2 - b / 2;
    }
  }

  lemma {:induction false} HalvesFewer(n: int, j: nat, i: nat)
    requires Halves(n, j) && i <= j
    ensures Halves(n, i)
    decreases i
  {
    if i > 0 {
      HalvesFewer(n / 2, j - 1, i - 1);
    }
  }

  lemma {:induction false} DoubledHalves(q: int, j: nat)
    ensures Halves(Doubled(q, j), j)
    decreases j
  {
    if j > 0 {
      DoubledHalves(q, j - 1);
      assert Doubled(q, j) / 2 == Doubled(q, j - 1);
    }
  }

  lemma {:induction false} HalvesIsDoubled(n: int, j: nat) returns (q: int)
    requires Halves(n, j)
    ensures n == Doubled(q, j)
    decreases j
  {
    if j == 0 {
      q := n;
    } else {
      q := HalvesIsDoubled(n / 2, j - 1);
    }
  }

  lemma {:induction false} DoubledTwice(q: int, i: nat, j: nat)
    ensures Doubled(q, i + j) == Doubled(Doubled(q, i), j)
    decreases j
  {
    if j > 0 {
      DoubledTwice(q, i, j - 1);
    }
  }

  lemma DoubledFour(q: int)
    ensures Doubled(q, 4) == 16 * q
  {
    assert Doubled(q, 1) == 2 * Doubled(q, 0);
    assert Doubled(q, 2) == 2 * Doubled(q, 1);
    assert Doubled(q, 3) == 2 * Doubled(q, 2);
  }

  lemma DoubledWord(q: int)
    ensures Doubled(q, 32) == q * 0x1_0000_0000
  {
    var eight, sixteen := Doubled(q, 8), Doubled(q, 16);
    DoubledFour(q);
    DoubledTwice(q, 4, 4);
    DoubledFour(Doubled(q, 4));
    DoubledTwice(q, 8, 4);
    DoubledFour(eight);
    DoubledTwice(q, 12, 4);
    DoubledFour(Doubled(q, 12));
    DoubledTwice(q, 16, 4);
    DoubledFour(sixteen);
    DoubledTwice(q, 20, 4);
    DoubledFour(Doubled(q, 20));
    DoubledTwice(q, 24, 4);
    DoubledFour(Doubled(q, 24));
    DoubledTwice(q, 28, 4);
    DoubledFour(Doubled(q, 28));
  }

  // A shift by at least one decimal can be halved once more than the number.
  lemma {:induction false} ShiftedHalves(n: nat, k: nat, j: nat)
    requires k > 0 && Halves(n, j)
    ensures Halves(Shifted(n, 10, k), j + 1)
  {
    if k == 1 {
      HalvesFiveTimes(n, j);
      assert Shifted(n, 10, 1) / 2 == 5 * n;
    } else {
      ShiftedHalves(n, k - 1, j);
      HalvesFewer(Shifted(n, 10, k - 1), j + 1, j);
      HalvesFiveTimes(Shifted(n, 10, k - 1), j);
      assert Shifted(n, 10, k) / 2 == 5 * Shifted(n, 10, k - 1);
    }
  }

  // If a shift gives the same number modulo 2 to the w, the number can be halved ever more often.
  lemma {:induction false} SameAfterShiftHalves(n: nat, k: nat, j: nat, w: nat)
    requires k > 0 && j <= w && Halves(Shifted(n, 10, k) - n, w)
    ensures Halves(n, j)
    decreases j
  {
    if j > 0 {
      SameAfterShiftHalves(n, k, j - 1, w);
      ShiftedHalves(n, k, j - 1);
      HalvesFewer(Shifted(n, 10, k) - n, w, j);
      HalvesDifference(Shifted(n, 10, k), Shifted(n, 10, k) - n, j);
    }
  }

  // So a decimal shift changes every 32-bit number other than 0, even modulo 2 to the 32.
  lemma ShiftChangesWord(n: nat, k: nat, q: int)
    requires 0 < n < 0x1_0000_0000 && k > 0
    ensures Shifted(n, 10, k) - n != q * 0x1_0000_0000
  {
    hide Shifted, Halves, Doubled;
    if Shifted(n, 10, k) - n == q * 0x1_0000_0000 {
      DoubledWord(q);
      DoubledHalves(q, 32);
      SameAfterShiftHalves(n, k, 32, 32);
      var m := HalvesIsDoubled(n, 32);
      DoubledWord(m);
    }
  }

  // ---------------------------------------------------------------- texts

  predicate IsDigitChar(c: byte) {
    48 <= c <= 57
  }

  predicate AllDigits(s: seq<byte>) {
    forall i :: 0 <= i < |s| ==> IsDigitChar(s[i])
  }

  // Digits from ten on are letters, counted from `letter`.
  function DigitChar(t: nat, letter: byte): byte
    requires t < 16 && letter <= 200
  {
    if t < 10 then 48 + t else letter + t - 10
  }

  function Show(d: seq<nat>, letter: byte): seq<byte>
    requires letter <= 200 && forall i :: 0 <= i < |d| ==> d[i] < 16
  {
    seq(|d|, i requires 0 <= i < |d| => DigitChar(d[i], letter))
  }

  // The decimal text of n.
  function Decimal(n: nat): seq<byte> {
    DigitsCanonical(n, 10);
    Show(Digits(n, 10), LOWER_A)
  }

  function DigitValue(c: byte): nat
    requires IsDigitChar(c)
  {
    c - 48
  }

  function DigitValues(s: seq<byte>): seq<nat>
    requires AllDigits(s)
  {
    seq(|s|, i requires 0 <= i < |s| => DigitValue(s[i]))
  }

  // The number a text of decimal digits stands for.
  function Number(s: seq<byte>): nat
    requires AllDigits(s)
  {
    Eval(DigitValues(s), 10)
  }

  lemma DecimalIsDigits(n: nat)
    ensures AllDigits(Decimal(n))
    ensures DigitValues(Decimal(n)) == Digits(n, 10)
    ensures Number(Decimal(n)) == n
    ensures |Decimal(n)| > 0 && (|Decimal(n)| > 1 ==> Decimal(n)[0] != ZERO)
  {
    DigitsCanonical(n, 10);
    DigitsEval(n, 10);
  }

  // One more digit behind.
  lemma NumberAppend(s: seq<byte>, c: byte)
    requires AllDigits(s) && IsDigitChar(c)
    ensures AllDigits(s + [c])
    ensures Number(s + [c]) == Number(s) * 10 + (c - 48)
  {
    assert DigitValues(s + [c]) == DigitValues(s) + [c - 48];
    assert (DigitValues(s) + [c - 48])[..|s|] == DigitValues(s);
  }
}
