// File names as the kernel rewrites them in place: fs_fntos and fs_fntos2.
module Names83 {
  import opened Bytes

  predicate IsLower(b: byte) {
    97 <= b <= 122
  }

  // The symbols an extension may contain: $ % ( ) - _ { }
  predicate IsSymbol(b: byte) {
    b == 36 || b == 37 || b == 40 || b == 41 || b == 45 || b == 95 || b == 123 || b == 125
  }

  predicate IsDigit(b: byte) {
    48 <= b <= 57
  }

  function Upper(b: byte): byte {
    if IsLower(b) then b - 32 else b
  }

  function UpperAll(s: seq<byte>): seq<byte> {
    seq(|s|, i requires 0 <= i < |s| => Upper(s[i]))
  }

  // ---------------------------------------------------------------- specification

  predicate EndsStem(b: byte) {
    b == NUL || b == DOT
  }

  // The number of bytes before the first dot or NUL.
  function Stem(s: seq<byte>): (n: nat)
    ensures n <= |s|
    ensures forall i :: 0 <= i < n ==> !EndsStem(s[i])
    ensures n < |s| ==> EndsStem(s[n])
  {
    if s == [] || EndsStem(s[0]) then 0 else 1 + Stem(s[1..])
  }

  // Where the extension goes.
  function FieldEnd(ns: nat): nat {
    if ns < 8 then 8 else ns
  }

  // The name is terminated and, unless it is empty, the 8 + 3 bytes and their NUL fit where it stands.
  predicate NameFits(s: seq<byte>) {
    Stem(s) < |s| && (s[0] == NUL || FieldEnd(Stem(s)) + 4 <= |s|)
  }

  // What an extension byte turns into: letters are raised, other allowed bytes kept, the rest blanked.
  function ExtByte(b: byte): byte {
    if IsLower(b) then b - 32 else if IsSymbol(b) || IsDigit(b) then b else SPACE
  }

  // The number of extension bytes: up to 3, up to the NUL.
  function ExtLength(s: seq<byte>, from: nat): nat
    requires from + 3 <= |s|
  {
    if s[from] == NUL then 0 else if s[from + 1] == NUL then 1 else if s[from + 2] == NUL then 2 else 3
  }

  function ExtensionByte(s: seq<byte>, from: nat, i: nat): byte
    requires from + 3 <= |s| && i < 3
  {
    if i < ExtLength(s, from) then ExtByte(s[from + i]) else SPACE
  }

  function Extension(s: seq<byte>, from: nat): seq<byte>
    requires from + 3 <= |s|
  {
    seq(3, i requires 0 <= i < 3 => ExtensionByte(s, from, i))
  }

  function Field8(s: seq<byte>, n: nat): seq<byte>
    requires n <= |s|
  {
    seq(FieldEnd(n), i requires 0 <= i < FieldEnd(n) => if i < n then Upper(s[i]) else SPACE)
  }

  function Bin(): seq<byte> { [66, 73, 78] }

  function Blanks3(): seq<byte> { [SPACE, SPACE, SPACE] }

  // The three extension bytes that follow the padded stem.
  function Added(s: seq<byte>, n: nat, missing: seq<byte>): seq<byte>
    requires n + 4 <= |s| && |missing| == 3
  {
    if s[n] == NUL && n <= 8 then missing else Extension(s, n + 1)
  }

  // The converted name; `missing` is the extension of a name without a dot.
  function Converted(s: seq<byte>, missing: seq<byte>): seq<byte>
    requires NameFits(s) && |missing| == 3
  {
    var n := Stem(s);
    if s[0] == NUL then []
    else Field8(s, n) + Added(s, n, missing)
  }

  // ---------------------------------------------------------------- the two functions

  // Raise the letters up to the first dot or NUL.
  method RaiseStem(name: array<byte>) returns (ns: nat)
    requires Stem(name[..]) < name.Length
    modifies name
    ensures ns == Stem(old(name[..]))
    ensures forall i :: 0 <= i < name.Length ==> name[i] == if i < ns then Upper(old(name[i])) else old(name[i])
  {
    ghost var s := name[..];
    ns := 0;
    while name[ns] != NUL && name[ns] != DOT
      invariant ns <= Stem(s)
      invariant forall i :: 0 <= i < name.Length ==> name[i] == if i < ns then Upper(s[i]) else s[i]
      decreases name.Length - ns
    {
      if 97 <= name[ns] <= 122 {
        name[ns] := name[ns] - 32;
      }
      ns := ns + 1;
    }
  }

  // ext[i]: a byte that is not allowed stays 0.
  function ExtSlot(b: byte): byte {
    if ExtByte(b) == SPACE then NUL else ExtByte(b)
  }

  // Collect the extension, raising its letters in place.
  method CollectExtension(name: array<byte>, from: nat, ext: array<byte>)
    requires from + 3 <= name.Length && ext.Length == 4 && ext != name
    requires forall i :: 0 <= i < 4 ==> ext[i] == NUL
    modifies name, ext
    ensures forall i :: 0 <= i < name.Length && !(from <= i < from + 3) ==> name[i] == old(name[i])
    ensures forall i :: 0 <= i < 3 ==>
              ext[i] == if i < old(ExtLength(name[..], from)) then ExtSlot(old(name[from + i])) else NUL
  {
    ghost var n := ExtLength(name[..], from);
    var i := 0;
    while i < 3 && name[from + i] != NUL
      invariant 0 <= i <= n
      invariant forall j :: 0 <= j < name.Length && !(from <= j < from + i) ==> name[j] == old(name[j])
      invariant forall j :: 0 <= j < 3 ==> ext[j] == if j < i then ExtSlot(old(name[from + j])) else NUL
    {
      var b := name[from + i];
      if 97 <= b <= 122 {
        name[from + i] := b - 32;
        ext[i] := b - 32;
      }
      if b == 36 || b == 37 || b == 45 || b == 95 || b == 40 || b == 41 || b == 123 || b == 125 {
        ext[i] := b;
      }
      if 48 <= b <= 57 {
        ext[i] := b;
      }
      i := i + 1;
    }
  }

  // Pad the stem to 8 bytes, append the extension, terminate.
  method PadAndTerminate(name: array<byte>, ns: nat, ext: array<byte>)
    requires FieldEnd(ns) + 4 <= name.Length && ext.Length == 4 && ext != name
    modifies name
    ensures forall i :: 0 <= i < ns ==> name[i] == old(name[i])
    ensures forall i :: ns <= i < FieldEnd(ns) ==> name[i] == SPACE
    ensures forall i :: 0 <= i < 3 ==> name[FieldEnd(ns) + i] == if ext[i] == NUL then SPACE else ext[i]
    ensures name[FieldEnd(ns) + 3] == NUL
    ensures forall i :: FieldEnd(ns) + 3 < i < name.Length ==> name[i] == old(name[i])
  {
    var p := ns;
    while p < 8
      invariant ns <= p && (p <= 8 || p == ns)
      invariant forall i :: 0 <= i < name.Length ==> name[i] == if ns <= i < p then SPACE else old(name[i])
    {
      name[p] := SPACE;
      p := p + 1;
    }
    ghost var q := p;
    var i := 0;
    while i < 3
      invariant 0 <= i <= 3 && p == q + i
      invariant forall j :: 0 <= j < i ==> name[q + j] == if ext[j] == NUL then SPACE else ext[j]
      invariant forall j :: 0 <= j < name.Length && !(q <= j < p)
                  ==> name[j] == if ns <= j < q then SPACE else old(name[j])
    {
      if ext[i] != NUL {
        name[p] := ext[i];
      }
      if ext[i] == NUL {
        name[p] := SPACE;
      }
      p := p + 1;
      i := i + 1;
    }
    name[p] := NUL;
  }

  // The buffer holds the text, its NUL, and then what it held before.
  ghost predicate Rewritten(before: seq<byte>, text: seq<byte>, after: seq<byte>) {
    && |after| == |before|
    && |text| < |before|
    && after == text + [NUL] + before[|text| + 1..]
  }

  // The buffer once stem, padding, extension and NUL are in place.
  lemma Assembled(s: seq<byte>, n: nat, ext: seq<byte>, after: seq<byte>)
    requires n <= |s| == |after| && FieldEnd(n) + 4 <= |s| && |ext| == 3
    requires forall i :: 0 <= i < FieldEnd(n) ==> after[i] == Field8(s, n)[i]
    requires forall i :: 0 <= i < 3 ==> after[FieldEnd(n) + i] == ext[i]
    requires after[FieldEnd(n) + 3] == NUL
    requires forall i :: FieldEnd(n) + 3 < i < |s| ==> after[i] == s[i]
    ensures Rewritten(s, Field8(s, n) + ext, after)
  {
    var end, rest := FieldEnd(n), s[FieldEnd(n) + 4..];
    assert after[..end] == Field8(s, n);
    assert after[end..end + 3] == ext;
    assert after[end + 4..] == rest;
    assert after == after[..end] + after[end..end + 3] + [NUL] + after[end + 4..];
  }

  // ext[], from the name or from `missing`.
  method ChooseExtension(name: array<byte>, ns: nat, missing: seq<byte>) returns (ext: array<byte>)
    requires ns + 4 <= name.Length && |missing| == 3 && forall i :: 0 <= i < 3 ==> missing[i] != NUL
    modifies name
    ensures fresh(ext) && ext.Length == 4
    ensures forall i :: 0 <= i < name.Length && !(ns < i < ns + 4) ==> name[i] == old(name[i])
    ensures forall i :: 0 <= i < 3 ==> old(Added(name[..], ns, missing))[i] == if ext[i] == NUL then SPACE else ext[i]
  {
    ext := new byte[4](i => 0);
    if name[ns] == NUL && ns <= 8 {
      ext[0], ext[1], ext[2] := missing[0], missing[1], missing[2];
    } else {
      CollectExtension(name, ns + 1, ext);
    }
  }

  // fs_fntos and fs_fntos2, which differ only in the extension they add.
  method Convert(name: array<byte>, missing: seq<byte>)
    requires NameFits(name[..]) && |missing| == 3 && forall i :: 0 <= i < 3 ==> missing[i] != NUL
    modifies name
    ensures Rewritten(old(name[..]), Converted(old(name[..]), missing), name[..])
  {
    if name[0] != NUL {
      ghost var s := name[..];
      var ns := RaiseStem(name);
      assert Added(name[..], ns, missing) == Added(s, ns, missing);
      var ext := ChooseExtension(name, ns, missing);
      PadAndTerminate(name, ns, ext);
      Assembled(s, ns, Added(s, ns, missing), name[..]);
    }
  }

  method FnToS(name: array<byte>)
    requires NameFits(name[..])
    modifies name
    ensures Rewritten(old(name[..]), Converted(old(name[..]), Bin()), name[..])
  {
    Convert(name, Bin());
  }

  method FnToS2(name: array<byte>)
    requires NameFits(name[..])
    modifies name
    ensures Rewritten(old(name[..]), Converted(old(name[..]), Blanks3()), name[..])
  {
    Convert(name, Blanks3());
  }

  // ---------------------------------------------------------------- dotted names

  predicate Kept(b: byte) {
    IsLower(b) || IsSymbol(b) || IsDigit(b)
  }

  predicate IsBase(base: seq<byte>) {
    1 <= |base| <= 8 && forall i :: 0 <= i < |base| ==> !EndsStem(base[i]) && base[i] != SPACE
  }

  predicate IsExtension(ext: seq<byte>) {
    1 <= |ext| <= 3 && forall i :: 0 <= i < |ext| ==> Kept(ext[i])
  }

  // A buffer that holds a dotted name.
  function Dotted(base: seq<byte>, ext: seq<byte>, rest: seq<byte>): seq<byte> {
    base + [DOT] + ext + [NUL] + rest
  }

  function Padded(s: seq<byte>, width: nat): seq<byte>
    requires |s| <= width
  {
    s + seq(width - |s|, i => SPACE)
  }

  // The 11 bytes of a directory entry name.
  function EntryName(base: seq<byte>, ext: seq<byte>): (e: seq<byte>)
    requires |base| <= 8 && |ext| <= 3
    ensures |e| == 11
  {
    Padded(UpperAll(base), 8) + Padded(UpperAll(ext), 3)
  }

  lemma {:induction false} StemIs(s: seq<byte>, n: nat)
    requires n < |s| && EndsStem(s[n])
    requires forall i :: 0 <= i < n ==> !EndsStem(s[i])
    ensures Stem(s) == n
  {
    if n > 0 {
      StemIs(s[1..], n - 1);
    }
  }

  lemma StemField(s: seq<byte>, base: seq<byte>)
    requires |base| <= 8 && |base| <= |s| && s[..|base|] == base
    ensures Field8(s, |base|) == Padded(UpperAll(base), 8)
  {
    assert forall i :: 0 <= i < |base| ==> s[i] == base[i];
  }

  // Where the bytes of a dotted name stand.
  lemma DottedBytes(base: seq<byte>, ext: seq<byte>, rest: seq<byte>)
    ensures var s := Dotted(base, ext, rest);
            && |s| == |base| + |ext| + |rest| + 2
            && s[..|base|] == base && s[|base|] == DOT
            && (forall i :: 0 <= i < |ext| ==> s[|base| + 1 + i] == ext[i])
            && s[|base| + 1 + |ext|] == NUL
  {
  }

  function ExtBytes(ext: seq<byte>): seq<byte> {
    seq(|ext|, i requires 0 <= i < |ext| => ExtByte(ext[i]))
  }

  lemma ExtensionField(s: seq<byte>, from: nat, ext: seq<byte>)
    requires |ext| <= 3 && from + 3 <= |s|
    requires forall i :: 0 <= i < |ext| ==> s[from + i] == ext[i] != NUL
    requires |ext| < 3 ==> s[from + |ext|] == NUL
    ensures Extension(s, from) == Padded(ExtBytes(ext), 3)
  {
    if |ext| > 0 { assert s[from + 0] == ext[0]; }
    if |ext| > 1 { assert s[from + 1] == ext[1]; }
    if |ext| > 2 { assert s[from + 2] == ext[2]; }
  }

  // What any dotted name turns into.
  lemma DottedFields(base: seq<byte>, ext: seq<byte>, rest: seq<byte>, missing: seq<byte>)
    requires IsBase(base) && 1 <= |ext| <= 3 && |missing| == 3
    requires forall i :: 0 <= i < |ext| ==> ext[i] != NUL
    requires |base| + |ext| + |rest| >= 10
    ensures NameFits(Dotted(base, ext, rest))
    ensures Converted(Dotted(base, ext, rest), missing) == Padded(UpperAll(base), 8) + Padded(ExtBytes(ext), 3)
  {
    var s := Dotted(base, ext, rest);
    DottedBytes(base, ext, rest);
    hide Dotted;
    assert forall i :: 0 <= i < |base| ==> s[i] == s[..|base|][i];
    StemIs(s, |base|);
    StemField(s, base);
    ExtensionField(s, |base| + 1, ext);
  }

  // Both functions turn a dotted name into base and extension, raised and padded: exactly 11 bytes.
  lemma DottedConverts(base: seq<byte>, ext: seq<byte>, rest: seq<byte>, missing: seq<byte>)
    requires IsBase(base) && IsExtension(ext) && |missing| == 3
    requires |base| + |ext| + |rest| >= 10
    ensures NameFits(Dotted(base, ext, rest))
    ensures Converted(Dotted(base, ext, rest), missing) == EntryName(base, ext)
  {
    DottedFields(base, ext, rest, missing);
    assert ExtBytes(ext) == UpperAll(ext);
  }

  // A name without a dot gets the extension the function adds.
  lemma PlainConverts(base: seq<byte>, rest: seq<byte>, missing: seq<byte>)
    requires IsBase(base) && |missing| == 3 && |base| + |rest| >= 11
    ensures NameFits(base + [NUL] + rest)
    ensures Converted(base + [NUL] + rest, missing) == Padded(UpperAll(base), 8) + missing
  {
    var s, n := base + [NUL] + rest, |base|;
    assert forall i :: 0 <= i < n ==> s[i] == base[i];
    StemIs(s, n);
    StemField(s, base);
  }

  // ---------------------------------------------------------------- recovering the parts

  // The bytes without the blanks at the end.
  function Trimmed(s: seq<byte>): seq<byte> {
    if s == [] || s[|s| - 1] != SPACE then s else Trimmed(s[..|s| - 1])
  }

  lemma {:induction false} TrimmedPadding(s: seq<byte>, width: nat)
    requires |s| <= width && (s == [] || s[|s| - 1] != SPACE)
    ensures Trimmed(Padded(s, width)) == s
    decreases width
  {
    if |s| == width {
      assert Padded(s, width) == s;
    } else {
      TrimmedPadding(s, width - 1);
      assert Padded(s, width)[..width - 1] == Padded(s, width - 1);
    }
  }

  // Base and extension can be read back, up to case.
  lemma PartsRecovered(base: seq<byte>, ext: seq<byte>)
    requires IsBase(base) && IsExtension(ext)
    ensures Trimmed(EntryName(base, ext)[..8]) == UpperAll(base)
    ensures Trimmed(EntryName(base, ext)[8..]) == UpperAll(ext)
  {
    assert EntryName(base, ext)[..8] == Padded(UpperAll(base), 8);
    assert EntryName(base, ext)[8..] == Padded(UpperAll(ext), 3);
    TrimmedPadding(UpperAll(base), 8);
    TrimmedPadding(UpperAll(ext), 3);
  }

  // Two dotted names collide exactly when they are the same up to case.
  lemma NoCollisions(base: seq<byte>, ext: seq<byte>, base': seq<byte>, ext': seq<byte>)
    requires IsBase(base) && IsExtension(ext) && IsBase(base') && IsExtension(ext')
    ensures EntryName(base, ext) == EntryName(base', ext')
       <==> UpperAll(base) == UpperAll(base') && UpperAll(ext) == UpperAll(ext')
  {
    PartsRecovered(base, ext);
    PartsRecovered(base', ext');
  }

  // An extension survives exactly when each byte is a lower-case letter, digit, listed symbol or blank:
  // upper-case letters in particular are blanked.
  lemma ExtensionSurvivesIff(base: seq<byte>, ext: seq<byte>, rest: seq<byte>, missing: seq<byte>)
    requires IsBase(base) && 1 <= |ext| <= 3 && |missing| == 3
    requires forall i :: 0 <= i < |ext| ==> ext[i] != NUL
    requires |base| + |ext| + |rest| >= 10
    ensures NameFits(Dotted(base, ext, rest))
    ensures Converted(Dotted(base, ext, rest), missing) == EntryName(base, ext)
       <==> forall i :: 0 <= i < |ext| ==> Kept(ext[i]) || ext[i] == SPACE
  {
    DottedFields(base, ext, rest, missing);
    var all := Padded(UpperAll(base), 8);
    SameExtensionIff(ext);
    assert (all + Padded(ExtBytes(ext), 3))[8..] == Padded(ExtBytes(ext), 3);
    assert (all + Padded(UpperAll(ext), 3))[8..] == Padded(UpperAll(ext), 3);
  }

  lemma SameExtensionIff(ext: seq<byte>)
    requires |ext| <= 3
    ensures Padded(ExtBytes(ext), 3) == Padded(UpperAll(ext), 3)
       <==> forall i :: 0 <= i < |ext| ==> Kept(ext[i]) || ext[i] == SPACE
  {
    var a, b := Padded(ExtBytes(ext), 3), Padded(UpperAll(ext), 3);
    forall i | 0 <= i < |ext|
      ensures a[i] == b[i] <==> Kept(ext[i]) || ext[i] == SPACE
    {
    }
    if forall i :: 0 <= i < |ext| ==> Kept(ext[i]) || ext[i] == SPACE {
      assert ExtBytes(ext) == UpperAll(ext);
    }
  }

  // So "a.B" and "a" are the same file to fs_fntos2.
  lemma UpperCaseExtensionIsLost(rest: seq<byte>)
    requires |rest| >= 10
    ensures NameFits(Dotted([97], [66], rest)) && NameFits([97] + [NUL] + rest)
    ensures Converted(Dotted([97], [66], rest), Blanks3()) == Converted([97] + [NUL] + rest, Blanks3())
  {
    PlainConverts([97], rest, Blanks3());
    DottedFields([97], [66], rest, Blanks3());
    assert Padded(ExtBytes([66]), 3) == Blanks3();
  }

  // ---------------------------------------------------------------- lengths

  // The result has the 11 bytes of an entry name exactly when the stem has at most 8 and the name is not empty.
  lemma ElevenBytesIff(s: seq<byte>, missing: seq<byte>)
    requires NameFits(s) && |missing| == 3
    ensures |Converted(s, missing)| == 11 <==> s[0] != NUL && Stem(s) <= 8
    ensures s[0] != NUL && Stem(s) > 8 ==> |Converted(s, missing)| > 11
  {
  }

  // Converting twice spoils a name: the second result has 14 bytes, which no directory search accepts.
  lemma SecondConversionGrows(base: seq<byte>, ext: seq<byte>, rest: seq<byte>, missing: seq<byte>)
    requires IsBase(base) && IsExtension(ext) && |missing| == 3 && |rest| >= 3
    ensures NameFits(EntryName(base, ext) + [NUL] + rest)
    ensures |Converted(EntryName(base, ext) + [NUL] + rest, missing)| == 14
  {
    var s := EntryName(base, ext) + [NUL] + rest;
    assert forall i :: 0 <= i < 8 ==> s[i] == Padded(UpperAll(base), 8)[i];
    assert forall i :: 0 <= i < 3 ==> s[8 + i] == Padded(UpperAll(ext), 3)[i];
    forall i | 0 <= i < 11
      ensures !EndsStem(s[i])
    {
      if i >= 8 {
        assert s[8 + (i - 8)] == Padded(UpperAll(ext), 3)[i - 8];
      }
    }
    StemIs(s, 11);
  }
}
