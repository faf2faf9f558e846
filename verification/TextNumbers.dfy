// Numbers to text and back: kinguio_itoa, kinguio_i2hex and k_atoi.
module TextNumbers {
  import opened Bytes
  import opened Numerals

  const INT_MAX: int := 0x7FFF_FFFF
  const INT_MIN: int := -0x8000_0000

  type int32 = i: int | -0x8000_0000 <= i < 0x8000_0000
  type uint32 = u: int | 0 <= u < 0x1_0000_0000

  // ---------------------------------------------------------------- kinguio_itoa

  // The decimal text of a signed number.
  function SignedText(v: int): seq<byte> {
    if v < 0 then [MINUS] + Decimal(-v) else Decimal(v)
  }

  // The digits of n as the loop produces them: least significant first.
  function LowFirst(n: nat): (s: seq<byte>)
    ensures |s| > 0
  {
    if n < 10 then [48 + n] else [48 + n % 10] + LowFirst(n / 10)
  }

  function Reversed(s: seq<byte>): (r: seq<byte>)
    ensures |r| == |s|
  {
    seq(|s|, i requires 0 <= i < |s| => s[|s| - 1 - i])
  }

  lemma {:induction false} LowFirstReversed(n: nat)
    ensures Reversed(LowFirst(n)) == Decimal(n)
  {
    DigitsCanonical(n, 10);
    if n >= 10 {
      LowFirstReversed(n / 10);
      DigitsCanonical(n / 10, 10);
      var low := LowFirst(n / 10);
      assert Reversed([48 + n % 10] + low) == Reversed(low) + [48 + n % 10];
      assert Decimal(n) == Decimal(n / 10) + [48 + n % 10];
    }
  }

  // The next number, if the last digit is not 9.
  lemma NextNumber(n: nat)
    requires n % 10 < 9
    ensures LowFirst(n)[0] < 57 && LowFirst(n + 1) == LowFirst(n)[0 := LowFirst(n)[0] + 1]
  {
  }

  lemma PatchNext(s: seq<byte>, at: nat, t: seq<byte>, c: byte)
    requires at + |t| < |s|
    ensures Patch(s, at, t)[at + |t| := c] == Patch(s, at, t + [c])
  {
  }

  lemma FirstByteOf(s: seq<byte>, at: nat, t: seq<byte>)
    requires at + |t| <= |s| && |t| > 0
    ensures Patch(s, at, t)[at] == t[0]
  {
  }

  lemma IncrementFirst(s: seq<byte>, at: nat, t: seq<byte>)
    requires at + |t| <= |s| && |t| > 0 && t[0] < 255
    ensures Patch(s, at, t)[at := t[0] + 1] == Patch(s, at, t[0 := t[0] + 1])
  {
  }

  // The digits of `value`, least significant first, from position `from` on.
  method PutDigits(value: nat, str: array<byte>, from: nat) returns (end: nat)
    requires from + |LowFirst(value)| <= str.Length
    modifies str
    ensures end == from + |LowFirst(value)|
    ensures str[..] == Patch(old(str[..]), from, LowFirst(value))
  {
    var rest := value;
    ghost var done: seq<byte> := [];
    end := from;
    assert str[..] == Patch(str[..], from, []);
    while true
      invariant end == from + |done| && done + LowFirst(rest) == LowFirst(value)
      invariant str[..] == Patch(old(str[..]), from, done)
      decreases rest
    {
      assert |done + LowFirst(rest)| == |done| + |LowFirst(rest)|;
      PatchNext(old(str[..]), from, done, 48 + rest % 10);
      assert rest >= 10 ==> done + LowFirst(rest) == (done + [48 + rest % 10]) + LowFirst(rest / 10);
      str[end] := rest % 10 + 48;
      end := end + 1;
      done := done + [48 + rest % 10];
      if rest / 10 == 0 {
        break;
      }
      rest := rest / 10;
    }
  }

  // s with its elements from `from` to before `to` in reverse order.
  function ReversedIn(s: seq<byte>, from: nat, to: nat): seq<byte>
    requires from <= to <= |s|
  {
    seq(|s|, i requires 0 <= i < |s| => if from <= i < to then s[from + to - 1 - i] else s[i])
  }

  // The same as far as the elements before v and behind p go.
  function ReversedOutside(s: seq<byte>, from: nat, to: nat, v: int): seq<byte>
    requires from <= v && from <= to <= |s|
  {
    seq(|s|, i requires 0 <= i < |s| =>
      if from <= i < to && (i < v || from + to - 1 - i < v) then s[from + to - 1 - i] else s[i])
  }

  lemma ReverseNext(s: seq<byte>, from: nat, to: nat, v: int)
    requires from <= v < to <= |s| && 2 * v < from + to - 1
    ensures var t, p := ReversedOutside(s, from, to, v), from + to - 1 - v;
            t[v := t[p]][p := t[v]] == ReversedOutside(s, from, to, v + 1)
  {
  }

  // Swap the ends of str[from..to] until they meet.
  method ReverseRange(str: array<byte>, from: nat, to: nat)
    requires from <= to <= str.Length
    modifies str
    ensures str[..] == ReversedIn(old(str[..]), from, to)
  {
    var v, p := from, to - 1;
    while p > v
      invariant from <= v && v + p == from + to - 1 && v <= p + 2
      invariant str[..] == ReversedOutside(old(str[..]), from, to, v)
    {
      ReverseNext(old(str[..]), from, to, v);
      ghost var t := str[..];
      str[v], str[p] := str[p], str[v];
      assert str[..] == t[v := t[p]][p := t[v]];
      v := v + 1;
      p := p - 1;
    }
  }

  // The absolute value; the smallest number is one too small and flagged.
  method Magnitude(val: int32) returns (value: int, minFlag: int)
    requires val < 0
    ensures minFlag != 0 <==> val == INT_MIN
    ensures value == if val == INT_MIN then -(val + 1) else -val
  {
    minFlag := 0;
    if -INT_MAX > val {
      minFlag := INT_MAX;
      value := minFlag;
    } else {
      value := -val;
    }
  }

  // The text at the start of the buffer, its NUL, and the rest of the buffer.
  ghost predicate Holds(after: seq<byte>, text: seq<byte>, before: seq<byte>) {
    && |text| < |before| == |after|
    && (forall i :: 0 <= i < |text| ==> after[i] == text[i])
    && after[|text|] == NUL
    && (forall i :: |text| < i < |before| ==> after[i] == before[i])
  }

  lemma ItoaAssembled(s: seq<byte>, start: nat, low: seq<byte>)
    requires start <= 1 && start + |low| < |s|
    ensures var end := start + |low|;
            Holds(ReversedIn(Patch(s, start, low)[end := NUL], start, end), s[..start] + Reversed(low), s)
  {
  }

  // Digits, correction, NUL and reversal, behind an optional sign.
  method PutNumber(value: nat, minFlag: int, str: array<byte>, start: nat, ghost magnitude: nat)
    requires start <= 1 && start + |Decimal(magnitude)| < str.Length
    requires if minFlag != 0 then value % 10 < 9 && magnitude == value + 1 else magnitude == value
    modifies str
    ensures Holds(str[..], old(str[..start]) + Decimal(magnitude), old(str[..]))
  {
    hide Patch, ReversedIn, LowFirst, Decimal, Reversed, Holds;
    ghost var s := str[..];
    LowFirstReversed(magnitude);
    if minFlag != 0 {
      NextNumber(value);
    }
    var p := PutDigits(value, str, start);
    if minFlag != 0 {
      FirstByteOf(s, start, LowFirst(value));
      IncrementFirst(s, start, LowFirst(value));
      str[start] := str[start] + 1;
    }
    assert str[..] == Patch(s, start, LowFirst(magnitude));
    str[p] := NUL;
    ReverseRange(str, start, p);
    ItoaAssembled(s, start, LowFirst(magnitude));
  }

  // kinguio_itoa
  method Itoa(val: int32, str: array<byte>)
    requires |SignedText(val)| < str.Length
    modifies str
    ensures Holds(str[..], SignedText(val), old(str[..]))
  {
    if 0 > val {
      str[0] := MINUS;
      var value, minFlag := Magnitude(val);
      PutNumber(value, minFlag, str, 1, 0 - (val as int));
      assert [MINUS] + Decimal(0 - (val as int)) == SignedText(val);
    } else {
      PutNumber(val, 0, str, 0, val);
      assert [] + Decimal(val) == SignedText(val);
    }
  }

  // ---------------------------------------------------------------- k_atoi

  predicate IsSign(c: byte) {
    c == MINUS || c == PLUS
  }

  predicate StopsSkip(c: byte) {
    c == NUL || IsDigitChar(c) || IsSign(c)
  }

  // The text from its first digit, sign or NUL on.
  function Skip(s: seq<byte>): (r: seq<byte>)
    ensures |r| <= |s|
    ensures r != [] ==> StopsSkip(r[0])
  {
    if s == [] || StopsSkip(s[0]) then s else Skip(s[1..])
  }

  // The digits a text starts with.
  function LeadingDigits(s: seq<byte>): (r: seq<byte>)
    ensures AllDigits(r)
  {
    if s == [] || !IsDigitChar(s[0]) then [] else [s[0]] + LeadingDigits(s[1..])
  }

  // The number in a text, without a bound: an optional sign and the digits behind it.
  function Reading(s: seq<byte>): int {
    var t := Skip(s);
    if t != [] && t[0] == MINUS then -(Number(LeadingDigits(t[1..])) as int)
    else if t != [] && t[0] == PLUS then Number(LeadingDigits(t[1..]))
    else Number(LeadingDigits(t))
  }

  // Two's complement: what a 32-bit int keeps of a number.
  function Wrap32(x: int): int32 {
    (x + 0x8000_0000) % 0x1_0000_0000 - 0x8000_0000
  }

  lemma WrapKeeps(x: int)
    ensures INT_MIN <= x <= INT_MAX ==> Wrap32(x) == x
  {
  }

  lemma WrapMultiplies(x: int, d: int)
    ensures Wrap32((Wrap32(x) as int) * 10 + d) == Wrap32(x * 10 + d)
    ensures Wrap32(-(Wrap32(x) as int)) == Wrap32(-x)
  {
    var q := (x + 0x8000_0000) / 0x1_0000_0000;
    assert Wrap32(x) == x - q * 0x1_0000_0000;
    WrapShift((Wrap32(x) as int) * 10 + d, 10 * q);
    WrapShift(-(Wrap32(x) as int), -q);
  }

  lemma WrapShift(x: int, q: int)
    ensures Wrap32(x + q * 0x1_0000_0000) == Wrap32(x)
  {
    var y := x + 0x8000_0000;
    var a, b := y / 0x1_0000_0000, (y + q * 0x1_0000_0000) / 0x1_0000_0000;
    assert b == a + q;
  }

  lemma {:induction false} LeadingDigitsSplit(s: seq<byte>, i: nat)
    requires i < |s| && IsDigitChar(s[i]) && (forall j :: 0 <= j < i ==> IsDigitChar(s[j]))
    ensures s[..i + 1] == s[..i] + [s[i]]
    ensures AllDigits(s[..i]) && AllDigits(s[..i + 1])
    ensures Number(s[..i + 1]) == Number(s[..i]) * 10 + (s[i] - 48)
  {
    NumberAppend(s[..i], s[i]);
    assert s[..i + 1] == s[..i] + [s[i]];
  }

  lemma {:induction false} LeadingDigitsAre(s: seq<byte>, n: nat)
    requires n <= |s| && (forall j :: 0 <= j < n ==> IsDigitChar(s[j])) && (n < |s| ==> !IsDigitChar(s[n]))
    ensures LeadingDigits(s) == s[..n]
  {
    if n > 0 {
      LeadingDigitsAre(s[1..], n - 1);
      assert s[..n] == [s[0]] + s[1..][..n - 1];
    }
  }

  // The digit loop of k_atoi.
  method ReadDigits(str: seq<byte>, from: nat) returns (rv: int32)
    requires from < |str| && str[|str| - 1] == NUL
    ensures rv == Wrap32(Number(LeadingDigits(str[from..])))
  {
    ghost var s := str[from..];
    var p := from;
    rv := 0;
    assert s[..0] == [];
    while str[p] != NUL && str[p] >= 48 && str[p] <= 57
      invariant from <= p < |str|
      invariant forall j :: 0 <= j < p - from ==> IsDigitChar(s[j])
      invariant rv == Wrap32(Number(s[..p - from]))
      decreases |str| - p
    {
      ghost var i := p - from;
      assert s[i] == str[p];
      LeadingDigitsSplit(s, i);
      WrapMultiplies(Number(s[..i]), str[p] - 48);
      rv := Wrap32((rv as int) * 10 + (str[p] - 48));
      p := p + 1;
    }
    LeadingDigitsAre(s, p - from);
  }

  // k_atoi on a terminated string; its int wraps around.
  method Atoi(str: seq<byte>) returns (r: int32)
    requires |str| > 0 && str[|str| - 1] == NUL
    ensures r == Wrap32(Reading(str))
  {
    var p, sign := 0, false;
    assert str[0..] == str;
    while str[p] != NUL && !(str[p] <= 57 && str[p] >= 48) && !(str[p] == MINUS || str[p] == PLUS)
      invariant 0 <= p < |str|
      invariant Skip(str) == Skip(str[p..])
      decreases |str| - p
    {
      assert str[p..][1..] == str[p + 1..];
      p := p + 1;
    }
    assert Skip(str) == str[p..];
    if str[p] == MINUS {
      sign := true;
    }
    if str[p] == MINUS || str[p] == PLUS {
      assert str[p..][1..] == str[p + 1..];
      p := p + 1;
    }
    var rv := ReadDigits(str, p);
    WrapMultiplies(Number(LeadingDigits(str[p..])), 0);
    r := if sign then Wrap32(-(rv as int)) else rv;
  }

  // ---------------------------------------------------------------- round trip

  // A text that k_atoi skips.
  predicate Skipped(s: seq<byte>) {
    forall i :: 0 <= i < |s| ==> !StopsSkip(s[i])
  }

  lemma {:induction false} SkipPrefix(pre: seq<byte>, s: seq<byte>)
    requires Skipped(pre) && s != [] && StopsSkip(s[0])
    ensures Skip(pre + s) == s
  {
    if pre == [] {
      assert pre + s == s;
    } else {
      SkipPrefix(pre[1..], s);
      assert (pre + s)[1..] == pre[1..] + s;
    }
  }

  lemma DigitsThenTail(digits: seq<byte>, tail: seq<byte>)
    requires |digits| > 0 && AllDigits(digits) && (tail != [] ==> !IsDigitChar(tail[0]))
    ensures LeadingDigits(digits + tail) == digits
    ensures IsDigitChar((digits + tail)[0])
  {
    var rest := digits + tail;
    assert forall i :: 0 <= i < |digits| ==> rest[i] == digits[i];
    LeadingDigitsAre(rest, |digits|);
    assert rest[..|digits|] == digits;
  }

  // Text in front that has no digit, sign or NUL, and text behind that starts with no digit, make no difference.
  lemma ReadingOfNumber(pre: seq<byte>, negative: bool, digits: seq<byte>, tail: seq<byte>)
    requires Skipped(pre) && |digits| > 0 && AllDigits(digits)
    requires tail != [] ==> !IsDigitChar(tail[0])
    ensures Reading(pre + ((if negative then [MINUS] else []) + digits + tail))
         == if negative then -(Number(digits) as int) else Number(digits)
  {
    var rest := digits + tail;
    DigitsThenTail(digits, tail);
    hide Number, LeadingDigits, Skip;
    if negative {
      assert [MINUS] + digits + tail == [MINUS] + rest;
      SkipPrefix(pre, [MINUS] + rest);
      assert ([MINUS] + rest)[1..] == rest;
    } else {
      assert [] + digits + tail == rest;
      SkipPrefix(pre, rest);
    }
  }

  // Reading the text of any number gives the number, whatever surrounds it; no bound on the number.
  lemma ReadingOfText(v: int, pre: seq<byte>, tail: seq<byte>)
    requires Skipped(pre) && (tail != [] ==> !IsDigitChar(tail[0]))
    ensures Reading(pre + SignedText(v) + tail) == v
  {
    var n: nat := if v < 0 then -v else v;
    DecimalIsDigits(n);
    ReadingOfNumber(pre, v < 0, Decimal(n), tail);
    assert pre + SignedText(v) + tail == pre + ((if v < 0 then [MINUS] else []) + Decimal(n) + tail);
  }

  // Round trip: k_atoi of the text that kinguio_itoa writes is the number, the smallest one included.
  lemma RoundTrip(v: int32, pre: seq<byte>, tail: seq<byte>)
    requires Skipped(pre) && (tail != [] ==> !IsDigitChar(tail[0]))
    ensures Wrap32(Reading(pre + SignedText(v) + tail)) == v
  {
    ReadingOfText(v, pre, tail);
    WrapKeeps(v);
  }

  // The text is canonical: at most one sign, then digits without a leading zero; at most eleven bytes.
  lemma TextIsCanonical(v: int32)
    ensures var text := SignedText(v);
            var digits := if v < 0 then text[1..] else text;
            && (v < 0 ==> text[0] == MINUS)
            && |digits| > 0 && AllDigits(digits)
            && (digits[0] == ZERO ==> v == 0 && digits == [ZERO])
            && |text| <= 11
  {
    var n: nat := if v < 0 then 0 - (v as int) else v;
    DecimalIsDigits(n);
    DigitsCanonical(n, 10);
    DigitsLength(n, 10, 10);
    assert v < 0 ==> SignedText(v)[1..] == Decimal(n);
  }

  // Texts of different numbers differ.
  lemma TextIsInjective(v: int, v': int)
    requires SignedText(v) == SignedText(v')
    ensures v == v'
  {
    ReadingOfText(v, [], []);
    ReadingOfText(v', [], []);
  }

  // ---------------------------------------------------------------- kinguio_i2hex

  const HEX_LEN: nat := 8

  // The hexadecimal text of n, in upper case.
  function Hex(n: nat): seq<byte> {
    DigitsCanonical(n, 16);
    Show(Digits(n, 16), UPPER_A)
  }

  // All digits of n in a field of k, leading zeros included.
  function HexField(n: nat, k: nat): (s: seq<byte>)
    ensures |s| == k
  {
    if k == 0 then [] else HexField(n / 16, k - 1) + [DigitChar(n % 16, UPPER_A)]
  }

  // The field is the text behind zeros.
  lemma {:induction false} HexFieldIsHex(n: nat, k: nat)
    requires 0 < n < Power(16, k)
    ensures |Hex(n)| <= k && Hex(n)[0] != ZERO
    ensures HexField(n, k) == seq(k - |Hex(n)|, i => ZERO) + Hex(n)
  {
    DigitsLength(n, 16, k);
    DigitsCanonical(n, 16);
    if n < 16 {
      HexFieldOfZero(k - 1);
    } else {
      HexFieldIsHex(n / 16, k - 1);
      DigitsCanonical(n / 16, 16);
      assert Hex(n) == Hex(n / 16) + [DigitChar(n % 16, UPPER_A)];
    }
  }

  lemma {:induction false} HexFieldOfZero(k: nat)
    ensures HexField(0, k) == seq(k, i => ZERO)
  {
    if k > 0 {
      HexFieldOfZero(k - 1);
    }
  }

  // The nibbles of val, from the end of the field.
  method PutNibbles(val: uint32, dest: array<byte>, len: nat)
    requires len <= dest.Length
    modifies dest
    ensures dest[..] == Patch(old(dest[..]), 0, HexField(val, len))
  {
    var n: nat := val;
    var p: nat := len;
    ghost var done: seq<byte> := [];
    assert dest[..] == Patch(dest[..], len, []);
    while p > 0
      invariant p <= len && |done| == len - p
      invariant HexField(n, p) + done == HexField(val, len)
      invariant dest[..] == Patch(old(dest[..]), p, done)
    {
      var x := n % 16;
      ghost var c := DigitChar(x, UPPER_A);
      assert HexField(n, p) + done == HexField(n / 16, p - 1) + ([c] + done);
      n := n / 16;
      p := p - 1;
      dest[p] := x + (if x > HEX_LEN + 1 then 55 else 48);
      done := [c] + done;
    }
    assert HexField(n, 0) + done == done;
  }

  // strcpy(dest, dest + from): the copy runs upwards, so it may overlap its source.
  method CopyDown(dest: array<byte>, from: nat, ghost end: nat)
    requires from <= end < dest.Length && dest[end] == NUL
    requires forall i :: from <= i < end ==> dest[i] != NUL
    modifies dest
    ensures dest[..] == Patch(old(dest[..]), 0, old(dest[from..end + 1]))
  {
    ghost var s := dest[..];
    var i := 0;
    while true
      invariant from + i <= end
      invariant dest[..] == Patch(s, 0, s[from..from + i])
      decreases end - i
    {
      assert dest[from + i] == s[from + i];
      dest[i] := dest[from + i];
      PatchNext(s, 0, s[from..from + i], s[from + i]);
      assert s[from..from + i] + [s[from + i]] == s[from..from + i + 1];
      if dest[i] == NUL {
        break;
      }
      i := i + 1;
    }
  }

  // The offset of the first byte that is not '0', if the field is zeros and then `text`.
  method SkipZeros(dest: array<byte>, ghost zeros: nat, ghost text: seq<byte>) returns (cp: nat)
    requires zeros + |text| == HEX_LEN < dest.Length && |text| > 0 && text[0] != ZERO
    requires dest[..HEX_LEN] == seq(zeros, i => ZERO) + text
    ensures cp == zeros
  {
    assert forall i :: 0 <= i < HEX_LEN ==> dest[i] == dest[..HEX_LEN][i];
    cp := 0;
    while cp < HEX_LEN && dest[cp] == ZERO
      invariant cp <= zeros
      decreases zeros - cp
    {
      cp := cp + 1;
    }
  }

  // strlen and memset: everything from the NUL to the end of the field becomes 0.
  method ClearRest(dest: array<byte>, ghost text: seq<byte>)
    requires |text| <= HEX_LEN < dest.Length
    requires dest[..|text|] == text && dest[|text|] == NUL && forall i :: 0 <= i < |text| ==> text[i] != NUL
    modifies dest
    ensures dest[..|text|] == text
    ensures forall i :: |text| <= i < HEX_LEN ==> dest[i] == NUL
    ensures forall i :: HEX_LEN <= i < dest.Length ==> dest[i] == old(dest[i])
  {
    assert forall i :: 0 <= i < |text| ==> dest[i] == dest[..|text|][i];
    var n := 0;
    while dest[n] != NUL
      invariant 0 <= n <= |text|
      decreases |text| - n
    {
      n := n + 1;
    }
    var i := 0;
    while i < HEX_LEN - n
      invariant 0 <= i <= HEX_LEN - n
      invariant dest[..n] == text
      invariant forall j :: n <= j < n + i ==> dest[j] == NUL
      invariant forall j :: HEX_LEN <= j < dest.Length ==> dest[j] == old(dest[j])
    {
      dest[n + i] := 0;
      i := i + 1;
    }
  }

  lemma HexDigits(n: nat)
    ensures forall i :: 0 <= i < |Hex(n)| ==> Hex(n)[i] != NUL
  {
    DigitsCanonical(n, 16);
  }

  // kinguio_i2hex with a field of eight digits. Only for 0 are the bytes behind the NUL left alone.
  method I2Hex(val: uint32, dest: array<byte>)
    requires dest.Length > HEX_LEN
    modifies dest
    ensures |Hex(val)| <= HEX_LEN && dest[..|Hex(val)|] == Hex(val) && dest[|Hex(val)|] == NUL
    ensures val != 0 ==> forall i :: |Hex(val)| <= i <= HEX_LEN ==> dest[i] == NUL
    ensures forall i :: (if val == 0 then 1 else HEX_LEN) < i < dest.Length ==> dest[i] == old(dest[i])
  {
    if val == 0 {
      dest[0] := ZERO;
      dest[1] := NUL;
      assert dest[..1] == Hex(0);
    } else {
      StoreHex(val, dest);
      HexDigits(val);
      StripField(dest, Hex(val));
      ClearRest(dest, Hex(val));
    }
  }

  // Moving the text to the front of its field.
  method StripField(dest: array<byte>, ghost text: seq<byte>)
    requires 0 < |text| <= HEX_LEN < dest.Length
    requires text[0] != ZERO && forall i :: 0 <= i < |text| ==> text[i] != NUL
    requires dest[..HEX_LEN] == seq(HEX_LEN - |text|, i => ZERO) + text && dest[HEX_LEN] == NUL
    modifies dest
    ensures dest[..|text|] == text && dest[|text|] == NUL && dest[HEX_LEN] == NUL
    ensures forall i :: HEX_LEN < i < dest.Length ==> dest[i] == old(dest[i])
  {
    ghost var s := dest[..];
    var cp := SkipZeros(dest, HEX_LEN - |text|, text);
    FieldTail(s, text);
    CopyDown(dest, cp, HEX_LEN);
    FieldMoved(s, text);
  }

  lemma FieldTail(s: seq<byte>, text: seq<byte>)
    requires |text| <= HEX_LEN < |s|
    requires s[..HEX_LEN] == seq(HEX_LEN - |text|, i => ZERO) + text && s[HEX_LEN] == NUL
    ensures s[HEX_LEN - |text|..HEX_LEN + 1] == text + [NUL]
    ensures forall i :: HEX_LEN - |text| <= i < HEX_LEN ==> s[i] == text[i - (HEX_LEN - |text|)]
  {
    assert forall i :: 0 <= i < HEX_LEN ==> s[i] == s[..HEX_LEN][i];
  }

  lemma FieldMoved(s: seq<byte>, text: seq<byte>)
    requires |text| <= HEX_LEN < |s| && s[HEX_LEN] == NUL
    ensures var t := Patch(s, 0, text + [NUL]);
            && t[..|text|] == text && t[|text|] == NUL && t[HEX_LEN] == NUL
            && forall i :: HEX_LEN < i < |s| ==> t[i] == s[i]
  {
  }

  // The field of a number other than 0: zeros, its text, NUL.
  method StoreHex(val: uint32, dest: array<byte>)
    requires dest.Length > HEX_LEN && val > 0
    modifies dest
    ensures |Hex(val)| <= HEX_LEN && Hex(val)[0] != ZERO
    ensures dest[..HEX_LEN] == seq(HEX_LEN - |Hex(val)|, i => ZERO) + Hex(val) && dest[HEX_LEN] == NUL
    ensures forall i :: HEX_LEN < i < dest.Length ==> dest[i] == old(dest[i])
  {
    HexFieldIsHex(val, HEX_LEN);
    PutNibbles(val, dest, HEX_LEN);
    assert dest[..HEX_LEN] == HexField(val, HEX_LEN);
    dest[HEX_LEN] := NUL;
    assert dest[..HEX_LEN] == HexField(val, HEX_LEN);
  }

  // ---------------------------------------------------------------- the hexadecimal text

  // A byte that an upper-case hexadecimal text may contain.
  predicate IsHexChar(c: byte) {
    IsDigitChar(c) || 65 <= c <= 70
  }

  function HexValue(c: byte): nat
    requires IsHexChar(c)
  {
    if IsDigitChar(c) then c - 48 else c - 55
  }

  predicate AllHex(s: seq<byte>) {
    forall i :: 0 <= i < |s| ==> IsHexChar(s[i])
  }

  function HexValues(s: seq<byte>): seq<nat>
    requires AllHex(s)
  {
    seq(|s|, i requires 0 <= i < |s| => HexValue(s[i]))
  }

  // The text of n is an upper-case hexadecimal numeral of n without a leading zero ...
  lemma HexIsNumeral(n: nat)
    ensures AllHex(Hex(n)) && |Hex(n)| > 0
    ensures Eval(HexValues(Hex(n)), 16) == n && (|Hex(n)| > 1 ==> Hex(n)[0] != ZERO)
  {
    DigitsCanonical(n, 16);
    DigitsEval(n, 16);
    var s := Hex(n);
    forall i | 0 <= i < |s|
      ensures IsHexChar(s[i]) && HexValue(s[i]) == Digits(n, 16)[i]
    {
    }
    assert HexValues(s) == Digits(n, 16);
  }

  // ... and the only one.
  lemma HexIsUnique(n: nat, s: seq<byte>)
    requires |s| > 0 && AllHex(s) && Eval(HexValues(s), 16) == n && (|s| > 1 ==> s[0] != ZERO)
    ensures s == Hex(n)
  {
    CanonicalUnique(HexValues(s), 16);
    forall i | 0 <= i < |s|
      ensures s[i] == DigitChar(HexValues(s)[i], UPPER_A)
    {
    }
  }
}
