// Formatted output of strings and integers: prints and printi.
module Printing {
  import opened Bytes
  import opened Numerals
  import opened TextNumbers

  const PRINT_BUF_LEN: nat := 12

  // PAD_RIGHT and PAD_ZERO
  datatype Pad = Pad(right: bool, zero: bool)

  // Where printchar puts its characters.
  class Output {
    var text: seq<byte>

    constructor ()
      ensures text == []
    {
      text := [];
    }

    method PrintChar(c: byte)
      modifies this
      ensures text == old(text) + [c]
    {
      text := text + [c];
    }
  }

  // ---------------------------------------------------------------- prints

  // A C string without its NUL.
  function UntilNul(s: seq<byte>): seq<byte> {
    if s == [] || s[0] == NUL then [] else [s[0]] + UntilNul(s[1..])
  }

  lemma {:induction false} UntilNulIs(s: seq<byte>, n: nat)
    requires n < |s| && s[n] == NUL && forall i :: 0 <= i < n ==> s[i] != NUL
    ensures UntilNul(s) == s[..n]
  {
    if n > 0 {
      UntilNulIs(s[1..], n - 1);
      assert s[..n] == [s[0]] + s[1..][..n - 1];
    }
  }

  // n times c
  function Fill(c: byte, n: int): seq<byte> {
    seq(if n > 0 then n else 0, i => c)
  }

  lemma FillMore(c: byte, n: nat)
    ensures Fill(c, n + 1) == Fill(c, n) + [c]
  {
  }

  function FillChar(pad: Pad): byte {
    if pad.zero then ZERO else SPACE
  }

  // The text, filled up to the width on one side.
  function Filled(text: seq<byte>, width: int, pad: Pad): seq<byte> {
    if pad.right then text + Fill(FillChar(pad), width - |text|) else Fill(FillChar(pad), width - |text|) + text
  }

  // n times printchar
  method PutFill(out: Output, c: byte, n: int)
    modifies out
    ensures out.text == old(out.text) + Fill(c, n)
  {
    var left, done := n, 0;
    while left > 0
      invariant done + left == n && 0 <= done && (n >= 0 ==> left >= 0) && (n < 0 ==> done == 0)
      invariant out.text == old(out.text) + Fill(c, done)
    {
      FillMore(c, done);
      out.PrintChar(c);
      left, done := left - 1, done + 1;
    }
  }

  // prints, for a terminated string
  method Prints(out: Output, str: seq<byte>, fieldWidth: int, pad: Pad) returns (pc: int)
    requires |str| > 0 && str[|str| - 1] == NUL
    modifies out
    ensures out.text == old(out.text) + Filled(UntilNul(str), fieldWidth, pad)
    ensures pc == |Filled(UntilNul(str), fieldWidth, pad)|
  {
    var padchar, width := SPACE, fieldWidth;
    ghost var text := UntilNul(str);
    pc := 0;
    if width > 0 {
      var len := Length(str);
      if len >= width {
        width := 0;
      } else {
        width := width - len;
      }
      if pad.zero {
        padchar := ZERO;
      }
    }
    if !pad.right {
      PutFill(out, padchar, width);
      pc := pc + if width > 0 then width else 0;
    }
    var len := PutString(out, str);
    pc := pc + len;
    if pad.right {
      PutFill(out, padchar, width);
      pc := pc + if width > 0 then width else 0;
    }
  }

  // The length loop of prints.
  method Length(str: seq<byte>) returns (len: nat)
    requires |str| > 0 && str[|str| - 1] == NUL
    ensures len == |UntilNul(str)|
  {
    len := 0;
    while str[len] != NUL
      invariant len < |str| && forall i :: 0 <= i < len ==> str[i] != NUL
      decreases |str| - len
    {
      len := len + 1;
    }
    UntilNulIs(str, len);
  }

  // The output loop of prints.
  method PutString(out: Output, str: seq<byte>) returns (pc: nat)
    requires |str| > 0 && str[|str| - 1] == NUL
    modifies out
    ensures out.text == old(out.text) + UntilNul(str) && pc == |UntilNul(str)|
  {
    pc := 0;
    while str[pc] != NUL
      invariant pc < |str| && forall i :: 0 <= i < pc ==> str[i] != NUL
      invariant out.text == old(out.text) + str[..pc]
      decreases |str| - pc
    {
      assert str[..pc + 1] == str[..pc] + [str[pc]];
      out.PrintChar(str[pc]);
      pc := pc + 1;
    }
    UntilNulIs(str, pc);
  }

  // ---------------------------------------------------------------- printi

  // The arguments of printi that say how to print.
  datatype Format = Format(base: Base, signed: bool, width: int, pad: Pad, letter: byte)

  predicate Proper(f: Format) {
    f.letter == LOWER_A || f.letter == UPPER_A
  }

  predicate Negative(i: int32, f: Format) {
    f.signed && f.base == 10 && i < 0
  }

  // The number whose digits are printed.
  function Absolute(i: int32, f: Format): nat {
    if Negative(i, f) then -(i as int) else (i as int) % 0x1_0000_0000
  }

  function Numeral(n: nat, f: Format): seq<byte>
    requires Proper(f)
  {
    DigitsCanonical(n, f.base);
    Show(Digits(n, f.base), f.letter)
  }

  function Sign(i: int32, f: Format): seq<byte> {
    if Negative(i, f) then [MINUS] else []
  }

  // What printi prints: a sign goes in front of filling zeros, but behind filling blanks.
  function Formatted(i: int32, f: Format): seq<byte>
    requires Proper(f)
  {
    if Negative(i, f) && f.width != 0 && f.pad.zero then
      [MINUS] + Filled(Numeral(Absolute(i, f), f), f.width - 1, f.pad)
    else
      Filled(Sign(i, f) + Numeral(Absolute(i, f), f), f.width, f.pad)
  }

  // The digits still to be produced; none for 0.
  function Ahead(u: nat, f: Format): seq<byte>
    requires Proper(f)
    decreases u
  {
    if u == 0 then [] else Ahead(Quotient(u, f.base), f) + [DigitChar(Remainder(u, f.base), f.letter)]
  }

  lemma {:induction false} AheadIsNumeral(u: nat, f: Format)
    requires Proper(f) && u > 0
    ensures Ahead(u, f) == Numeral(u, f)
    decreases u
  {
    var b := f.base;
    DigitsCanonical(u, b);
    if u < b {
      assert Ahead(u, f) == [] + [DigitChar(u, f.letter)];
    } else {
      AheadIsNumeral(Quotient(u, b), f);
      DigitsCanonical(Quotient(u, b), b);
    }
  }

  // A 32-bit number has at most ten digits.
  lemma TenDigits(u: nat, b: Base)
    requires (b == 10 || b == 16) && u < 0x1_0000_0000
    ensures |Digits(u, b)| <= 10
  {
    hide Digits;
    if b == 10 {
      DigitsLength(u, 10, 10);
    } else {
      DigitsLength(u, 16, 10);
    }
  }

  lemma NumeralFits(u: nat, f: Format)
    requires Proper(f) && u < 0x1_0000_0000
    ensures |Numeral(u, f)| <= 10
    ensures forall i :: 0 <= i < |Numeral(u, f)| ==> Numeral(u, f)[i] != NUL
  {
    hide Digits;
    DigitsCanonical(u, f.base);
    TenDigits(u, f.base);
  }

  // One digit moves from what is ahead to what is done.
  lemma AheadStep(u: nat, f: Format, done: seq<byte>)
    requires Proper(f) && u > 0
    ensures var c := DigitChar(Remainder(u, f.base), f.letter);
            Ahead(u, f) + done == Ahead(Quotient(u, f.base), f) + ([c] + done)
    ensures |Ahead(u, f)| > 0 && |Ahead(u, f) + done| == |Ahead(u, f)| + |done|
  {
  }

  lemma NothingAhead(f: Format)
    requires Proper(f)
    ensures Ahead(0, f) == []
  {
  }

  // The digit loop of printi: from the end of the buffer downwards.
  method PutNumeral(buf: array<byte>, value: nat, f: Format) returns (s: nat)
    requires buf.Length == PRINT_BUF_LEN && Proper(f) && 0 < value < 0x1_0000_0000
    modifies buf
    ensures 1 <= s < PRINT_BUF_LEN && buf[s..] == Numeral(value, f) + [NUL]
  {
    hide Numeral, Ahead;
    AheadIsNumeral(value, f);
    NumeralFits(value, f);
    NothingAhead(f);
    var u := value;
    s := PRINT_BUF_LEN - 1;
    buf[s] := NUL;
    ghost var done: seq<byte> := [];
    assert buf[s..] == done + [NUL];
    while u != 0
      invariant Ahead(u, f) + done == Numeral(value, f)
      invariant s + |done| == PRINT_BUF_LEN - 1 && |done| <= |Numeral(value, f)|
      invariant buf[s..] == done + [NUL]
      decreases u
    {
      var t := Remainder(u, f.base);
      ghost var c := DigitChar(t, f.letter);
      AheadStep(u, f, done);
      if t >= 10 {
        t := t + (f.letter - 48 - 10);
      }
      ghost var before := buf[s..];
      s := s - 1;
      buf[s] := t + 48;
      assert buf[s..] == [c] + before;
      done := [c] + done;
      u := Quotient(u, f.base);
    }
  }

  lemma TerminatedText(text: seq<byte>)
    requires forall i :: 0 <= i < |text| ==> text[i] != NUL
    ensures UntilNul(text + [NUL]) == text
  {
    UntilNulIs(text + [NUL], |text|);
    assert (text + [NUL])[..|text|] == text;
  }

  // The sign in the buffer, in front of the digits.
  method PutSign(buf: array<byte>, from: nat, ghost text: seq<byte>) returns (s: nat)
    requires 1 <= from <= buf.Length && buf[from..] == text
    modifies buf
    ensures s == from - 1 && buf[s..] == [MINUS] + text
  {
    s := from - 1;
    buf[s] := MINUS;
  }

  // printi for a number other than 0
  method PrintNonZero(out: Output, i: int32, f: Format) returns (pc: int)
    requires Proper(f) && i != 0
    modifies out
    ensures out.text == old(out.text) + Formatted(i, f)
    ensures pc == |Formatted(i, f)|
  {
    hide Numeral, Filled;
    var buf := new byte[PRINT_BUF_LEN](k => 0);
    var width, neg, u: nat := f.width, false, (i as int) % 0x1_0000_0000;
    pc := 0;
    if f.signed && f.base == 10 && i < 0 {
      neg, u := true, -(i as int);
    }
    assert neg == Negative(i, f) && u == Absolute(i, f);
    hide Absolute;
    NumeralFits(u, f);
    ghost var digits := Numeral(u, f);
    var s := PutNumeral(buf, u, f);
    if neg && width != 0 && f.pad.zero {
      out.PrintChar(MINUS);
      pc := pc + 1;
      width := width - 1;
    } else if neg {
      s := PutSign(buf, s, digits + [NUL]);
      assert [MINUS] + (digits + [NUL]) == ([MINUS] + digits) + [NUL];
      digits := [MINUS] + digits;
    } else {
      assert [] + digits == digits;
    }
    TerminatedText(digits);
    var n := Prints(out, buf[s..], width, f.pad);
    pc := pc + n;
  }

  // printi
  method Printi(out: Output, i: int32, f: Format) returns (pc: int)
    requires Proper(f)
    modifies out
    ensures out.text == old(out.text) + Formatted(i, f)
    ensures pc == |Formatted(i, f)|
  {
    if i == 0 {
      var buf := new byte[PRINT_BUF_LEN](k => 0);
      buf[0], buf[1] := ZERO, NUL;
      UntilNulIs(buf[..], 1);
      assert buf[..][..1] == [ZERO] == [] + Numeral(0, f);
      pc := Prints(out, buf[..], f.width, f.pad);
    } else {
      pc := PrintNonZero(out, i, f);
    }
  }

  // ---------------------------------------------------------------- what is printed

  function Largest(a: int, b: int): int {
    if a > b then a else b
  }

  // Exactly as many characters as the larger of the width and the signed text; printi returns their number.
  lemma FormattedLength(i: int32, f: Format)
    requires Proper(f)
    ensures |Formatted(i, f)| == Largest(f.width, |Sign(i, f)| + |Numeral(Absolute(i, f), f)|)
  {
  }

  // The longest text fills the twelve bytes of the buffer; only negative decimals with ten digits are that long.
  lemma BufferIsTight(i: int32, f: Format)
    requires Proper(f)
    ensures |Sign(i, f)| + |Numeral(Absolute(i, f), f)| + 1 <= PRINT_BUF_LEN
    ensures |Sign(i, f)| + |Numeral(Absolute(i, f), f)| + 1 == PRINT_BUF_LEN
       <==> f.signed && f.base == 10 && i <= -1_000_000_000
  {
    NumeralFits(Absolute(i, f), f);
    if Negative(i, f) {
      DigitsAtLeast(-(i as int), 10, 9);
      if i > -1_000_000_000 {
        DigitsLength(-(i as int), 10, 9);
      }
    }
  }

  // From b to the k on, a number has more than k digits.
  lemma {:induction false} DigitsAtLeast(n: nat, b: Base, k: nat)
    ensures n >= Power(b, k) ==> |Digits(n, b)| > k
  {
    if k > 0 && n >= Power(b, k) {
      PowerPositive(b, k - 1);
      DigitsAtLeast(Quotient(n, b), b, k - 1);
    }
  }

  lemma {:induction false} PowerPositive(b: Base, k: nat)
    ensures Power(b, k) > 0
  {
    if k > 0 {
      PowerPositive(b, k - 1);
    }
  }

  // ---------------------------------------------------------------- decimals read back

  // The number that %d or %u is given.
  function Given(i: int32, f: Format): int {
    if f.signed then i else (i as int) % 0x1_0000_0000
  }

  // How many filling characters there are.
  function FillCount(i: int32, f: Format): nat
    requires Proper(f)
  {
    Largest(0, f.width - (|Sign(i, f)| + |Numeral(Absolute(i, f), f)|))
  }

  lemma DecimalNumeral(i: int32, f: Format)
    requires Proper(f) && f.base == 10
    ensures AllDigits(Numeral(Absolute(i, f), f)) && |Numeral(Absolute(i, f), f)| > 0
    ensures DigitValues(Numeral(Absolute(i, f), f)) == Digits(Absolute(i, f), 10)
    ensures Number(Numeral(Absolute(i, f), f)) == Absolute(i, f)
  {
    DigitsCanonical(Absolute(i, f), 10);
    DigitsEval(Absolute(i, f), 10);
    var s := Numeral(Absolute(i, f), f);
    forall k | 0 <= k < |s|
      ensures IsDigitChar(s[k]) && DigitValue(s[k]) == Digits(Absolute(i, f), 10)[k]
    {
    }
    assert DigitValues(s) == Digits(Absolute(i, f), 10);
  }

  function WithBlanks(text: seq<byte>, n: int, right: bool): seq<byte> {
    if right then text + Fill(SPACE, n) else Fill(SPACE, n) + text
  }

  function WithZeros(text: seq<byte>, n: int, right: bool): seq<byte> {
    if right then text + Fill(ZERO, n) else Fill(ZERO, n) + text
  }

  // Filling with blanks leaves the number readable.
  lemma BlankFillReads(sign: bool, digits: seq<byte>, n: int, right: bool)
    requires AllDigits(digits) && |digits| > 0
    ensures Reading(WithBlanks((if sign then [MINUS] else []) + digits, n, right))
         == if sign then -(Number(digits) as int) else Number(digits)
  {
    var head, fill := if sign then [MINUS] else [], Fill(SPACE, n);
    if right {
      ReadingOfNumber([], sign, digits, fill);
      assert [] + (head + digits + fill) == (head + digits) + fill;
    } else {
      ReadingOfNumber(fill, sign, digits, []);
      assert head + digits + [] == head + digits;
    }
  }

  // Zeros in front of the digits keep the number; zeros behind them multiply it.
  lemma ZeroFillNumber(digits: seq<byte>, n: int, right: bool)
    requires AllDigits(digits) && |digits| > 0
    ensures AllDigits(WithZeros(digits, n, right))
    ensures Number(WithZeros(digits, n, right)) == Number(digits) <==> Number(digits) == 0 || !(right && n > 0)
  {
    var body := WithZeros(digits, n, right);
    var k: nat := if n > 0 then n else 0;
    if k == 0 {
      assert body == digits;
    } else if right {
      assert DigitValues(body) == DigitValues(digits) + Zeros(k);
      TrailingZeros(k, DigitValues(digits), 10);
    } else {
      assert DigitValues(body) == Zeros(k) + DigitValues(digits);
      LeadingZeros(k, DigitValues(digits), 10);
    }
  }

  lemma ZeroFillReads(sign: bool, digits: seq<byte>, n: int, right: bool)
    requires AllDigits(digits) && |digits| > 0
    ensures AllDigits(WithZeros(digits, n, right))
    ensures Reading((if sign then [MINUS] else []) + WithZeros(digits, n, right))
         == if sign then -(Number(WithZeros(digits, n, right)) as int) else Number(WithZeros(digits, n, right))
  {
    var body := WithZeros(digits, n, right);
    ReadingOfNumber([], sign, body, []);
    assert [] + ((if sign then [MINUS] else []) + body + []) == (if sign then [MINUS] else []) + body;
  }

  // The text as sign, digits and filling.
  lemma FormattedParts(i: int32, f: Format)
    requires Proper(f)
    ensures var digits, n := Numeral(Absolute(i, f), f), FillCount(i, f);
            Formatted(i, f) == (
              if f.pad.zero then Sign(i, f) + WithZeros(digits, n, f.pad.right)
              else WithBlanks(Sign(i, f) + digits, n, f.pad.right))
  {
    hide Numeral, Absolute;
    var digits, n := Numeral(Absolute(i, f), f), FillCount(i, f);
    assert Fill(ZERO, f.width - |Sign(i, f) + digits|) == Fill(ZERO, n);
    assert Fill(SPACE, f.width - |Sign(i, f) + digits|) == Fill(SPACE, n);
    if Negative(i, f) {
      assert Fill(ZERO, f.width - 1 - |digits|) == Fill(ZERO, n);
      assert f.width == 0 ==> Sign(i, f) + digits + [] == Sign(i, f) + WithZeros(digits, n, f.pad.right);
    } else {
      assert Sign(i, f) + digits == digits;
      assert Sign(i, f) + WithZeros(digits, n, f.pad.right) == WithZeros(digits, n, f.pad.right);
    }
  }

  lemma GivenIsSigned(i: int32, f: Format)
    requires f.base == 10
    ensures Given(i, f) == if Negative(i, f) then -(Absolute(i, f) as int) else Absolute(i, f)
    ensures Absolute(i, f) == 0 <==> i == 0
  {
  }

  // Without the bound of an int, the text reads as the given number unless zeros were filled in on the right
  // of a number other than 0.
  lemma DecimalReadingIff(i: int32, f: Format)
    requires Proper(f) && f.base == 10
    ensures Reading(Formatted(i, f)) == Given(i, f)
       <==> i == 0 || !(f.pad.right && f.pad.zero && FillCount(i, f) > 0)
  {
    var digits, n := Numeral(Absolute(i, f), f), FillCount(i, f);
    DecimalNumeral(i, f);
    FormattedParts(i, f);
    GivenIsSigned(i, f);
    hide Numeral, FillCount, Formatted, Fill, Given, Absolute, Negative, WithZeros, WithBlanks, Reading, Number;
    if f.pad.zero {
      ZeroFillReads(Negative(i, f), digits, n, f.pad.right);
      ZeroFillNumber(digits, n, f.pad.right);
    } else {
      BlankFillReads(Negative(i, f), digits, n, f.pad.right);
    }
  }

  // With zeros on the right the text reads as the shifted number.
  lemma RightZerosReading(i: int32, f: Format)
    requires Proper(f) && f.base == 10 && f.pad.right && f.pad.zero
    ensures var shifted := Shifted(Absolute(i, f), 10, FillCount(i, f));
            Reading(Formatted(i, f)) == if Negative(i, f) then -(shifted as int) else shifted
  {
    var digits, n := Numeral(Absolute(i, f), f), FillCount(i, f);
    DecimalNumeral(i, f);
    FormattedParts(i, f);
    ShiftedNumber(digits, n);
    hide Numeral, FillCount, Formatted, Absolute, Negative, WithZeros, Reading, Number;
    ZeroFillReads(Negative(i, f), digits, n, true);
  }

  lemma ShiftedNumber(digits: seq<byte>, n: nat)
    requires AllDigits(digits)
    ensures AllDigits(WithZeros(digits, n, true)) && Number(WithZeros(digits, n, true)) == Shifted(Number(digits), 10, n)
  {
    assert DigitValues(WithZeros(digits, n, true)) == DigitValues(digits) + Zeros(n);
    TrailingZerosShift(n, DigitValues(digits), 10);
  }

  // k_atoi, whose int wraps around, gives back the 32-bit argument of printi exactly unless zeros were filled in
  // on the right of a number other than 0: no such shift is lost in the wrap-around.
  lemma DecimalReadsBackIff(i: int32, f: Format)
    requires Proper(f) && f.base == 10
    ensures Wrap32(Reading(Formatted(i, f))) == i
       <==> i == 0 || !(f.pad.right && f.pad.zero && FillCount(i, f) > 0)
  {
    hide Formatted, FillCount, Reading, Proper, Absolute, Negative, Shifted;
    DecimalReadingIff(i, f);
    if i == 0 || !(f.pad.right && f.pad.zero && FillCount(i, f) > 0) {
      assert Wrap32(Given(i, f)) == i;
    } else {
      RightZerosReading(i, f);
      ShiftIsNotLost(i, f, Shifted(Absolute(i, f), 10, FillCount(i, f)), FillCount(i, f));
    }
  }

  lemma ShiftIsNotLost(i: int32, f: Format, shifted: nat, k: nat)
    requires i != 0 && k > 0 && shifted == Shifted(Absolute(i, f), 10, k)
    ensures Wrap32(if Negative(i, f) then -(shifted as int) else shifted) != i
  {
    var x: int := if Negative(i, f) then -(shifted as int) else shifted;
    var q := (x + 0x8000_0000) / 0x1_0000_0000;
    assert Wrap32(x) == x - q * 0x1_0000_0000;
    ShiftChangesWord(Absolute(i, f), k, q);
    ShiftChangesWord(Absolute(i, f), k, -q);
    ShiftChangesWord(Absolute(i, f), k, q - 1);
  }

  // ---------------------------------------------------------------- hexadecimals

  ghost predicate BelowSixteen(d: seq<nat>) {
    forall i :: 0 <= i < |d| ==> d[i] < 16
  }

  lemma ShowSum(d: seq<nat>, e: seq<nat>, letter: byte)
    requires BelowSixteen(d) && BelowSixteen(e) && letter <= 200
    ensures BelowSixteen(d + e) && Show(d + e, letter) == Show(d, letter) + Show(e, letter)
  {
    assert Show(d + e, letter) == Show(d, letter) + Show(e, letter);
  }

  lemma ShowZeros(d: seq<nat>, k: nat, right: bool, letter: byte)
    requires BelowSixteen(d) && letter <= 200
    ensures var shown := if right then d + Zeros(k) else Zeros(k) + d;
            BelowSixteen(shown) && Show(shown, letter) == WithZeros(Show(d, letter), k, right)
  {
    assert Show(Zeros(k), letter) == Fill(ZERO, k);
    if right {
      ShowSum(d, Zeros(k), letter);
    } else {
      ShowSum(Zeros(k), d, letter);
    }
  }

  lemma HexadecimalParts(i: int32, f: Format)
    requires Proper(f) && f.base == 16
    ensures Sign(i, f) == [] && Absolute(i, f) == (i as int) % 0x1_0000_0000
    ensures Absolute(i, f) == 0 <==> i == 0
    ensures Formatted(i, f) == (
              if f.pad.zero then WithZeros(Numeral(Absolute(i, f), f), FillCount(i, f), f.pad.right)
              else WithBlanks(Numeral(Absolute(i, f), f), FillCount(i, f), f.pad.right))
  {
    hide Numeral, FillCount, Formatted, WithZeros, WithBlanks, Digits;
    FormattedParts(i, f);
    var s := Numeral(Absolute(i, f), f);
    assert [] + s == s;
    assert [] + WithZeros(s, FillCount(i, f), f.pad.right) == WithZeros(s, FillCount(i, f), f.pad.right);
  }

  // In base 16 the text is the digits of the number, with zeros or blanks around them;
  // zeros on the left keep its value, zeros on the right only that of 0.
  lemma HexadecimalFormatted(i: int32, f: Format)
    requires Proper(f) && f.base == 16
    ensures var d, k := Digits((i as int) % 0x1_0000_0000, 16), FillCount(i, f);
            var shown := if f.pad.right then d + Zeros(k) else Zeros(k) + d;
            && BelowSixteen(d) && BelowSixteen(shown)
            && Formatted(i, f) == (
                 if f.pad.zero then Show(shown, f.letter) else WithBlanks(Show(d, f.letter), k, f.pad.right))
            && Eval(d, 16) == (i as int) % 0x1_0000_0000
            && (Eval(shown, 16) == Eval(d, 16) <==> i == 0 || !(f.pad.right && k > 0))
  {
    var u := (i as int) % 0x1_0000_0000;
    var d, k := Digits(u, 16), FillCount(i, f);
    DigitsCanonical(u, 16);
    DigitsEval(u, 16);
    HexadecimalParts(i, f);
    assert Numeral(u, f) == Show(d, f.letter);
    hide FillCount, Formatted, WithZeros, WithBlanks, Show, Absolute, Digits, Numeral;
    ShowZeros(d, k, f.pad.right, f.letter);
    ZerosKeepIff(u, d, k, f.pad.right);
  }

  lemma ZerosKeepIff(u: nat, d: seq<nat>, k: nat, right: bool)
    requires Eval(d, 16) == u
    ensures Eval(if right then d + Zeros(k) else Zeros(k) + d, 16) == u <==> u == 0 || !(right && k > 0)
  {
    LeadingZeros(k, d, 16);
    TrailingZeros(k, d, 16);
    if k == 0 {
      assert d + Zeros(k) == d;
    }
  }
}
