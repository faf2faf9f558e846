// Machine-level values shared by the file-system and stream models.
module Bytes {

  // `unsigned char`.
  type byte = b: int | 0 <= b < 0x100

  // `unsigned short`: one FAT16 table entry.
  type ushort = u: int | 0 <= u < 0x1_0000

  const NUL: byte := 0
  const SPACE: byte := 0x20
  const DOT: byte := 0x2E
  const SLASH: byte := 0x2F

  // One disk sector.
  type Sector = s: seq<byte> | |s| == 512 witness seq(512, i => 0)

  // The i-th sector of a byte sequence.
  function SectorAt(data: seq<byte>, i: nat): Sector
    requires 512 * i + 512 <= |data|
  {
    seq(512, j requires 0 <= j < 512 => data[512 * i + j])
  }

  lemma SectorIsSlice(data: seq<byte>, i: nat)
    requires 512 * i + 512 <= |data|
    ensures SectorAt(data, i) == data[512 * i..512 * i + 512]
  {
  }

  // s with t written over it from position `at` on.
  function Patch(s: seq<byte>, at: nat, t: seq<byte>): (r: seq<byte>)
    requires at + |t| <= |s|
    ensures |r| == |s|
  {
    seq(|s|, i requires 0 <= i < |s| => if at <= i < at + |t| then t[i - at] else s[i])
  }

  datatype Option<+T> = None | Some(value: T)

  // The two bytes of a little-endian 16-bit field.
  function LowByte(u: ushort): byte { u % 0x100 }

  function HighByte(u: ushort): byte { u / 0x100 }

  // The byte that `(char) (size >> 8 * i)` leaves, for i in 0..3.
  function SizeByte(size: nat, i: nat): byte
    requires i < 4
  {
    if i == 0 then size % 0x100
    else if i == 1 then (size / 0x100) % 0x100
    else if i == 2 then (size / 0x1_0000) % 0x100
    else (size / 0x100_0000) % 0x100
  }

  lemma WordRoundTrip(u: ushort)
    ensures LowByte(u) + 0x100 * HighByte(u) == u
  {
  }

  // Four successive bytes keep a size modulo 2^32.
  lemma DoubleWordRoundTrip(size: nat)
    ensures SizeByte(size, 0) + 0x100 * SizeByte(size, 1) + 0x1_0000 * SizeByte(size, 2) + 0x100_0000 * SizeByte(size, 3)
         == size % 0x1_0000_0000
  {
    var q0, q1, q2 := size / 0x100, size / 0x1_0000, size / 0x100_0000;
    assert q1 == q0 / 0x100 && q2 == q1 / 0x100;
    assert size / 0x1_0000_0000 == q2 / 0x100;
  }

  // A sequence whose elements are distinct.
  ghost predicate Distinct<T>(s: seq<T>) {
    forall i, j :: 0 <= i < j < |s| ==> s[i] != s[j]
  }

  function ToSet<T(==)>(s: seq<T>): set<T> {
    set x | x in s
  }

  lemma {:induction false} DistinctCardinality<T>(s: seq<T>)
    requires Distinct(s)
    ensures |ToSet(s)| == |s|
  {
    if s == [] {
    } else {
      var last := s[|s| - 1];
      var front := s[..|s| - 1];
      DistinctCardinality(front);
      assert s == front + [last];
      assert ToSet(s) == ToSet(front) + {last};
    }
  }

  // The numbers below n.
  function Range(n: nat): set<int> {
    if n == 0 then {} else Range(n - 1) + {n - 1}
  }

  lemma {:induction false} RangeCardinality(n: nat)
    ensures |Range(n)| == n
    ensures forall i: int :: i in Range(n) <==> 0 <= i < n
  {
    if n == 0 {
    } else {
      RangeCardinality(n - 1);
    }
  }

  lemma {:induction false} SubsetCardinality<T>(a: set<T>, b: set<T>)
    requires a <= b
    ensures |a| <= |b|
  {
    if a == {} {
    } else {
      var x :| x in a;
      SubsetCardinality(a - {x}, b - {x});
    }
  }

  // Distinct numbers below n: at most n of them.
  lemma Pigeonhole(s: seq<int>, n: nat)
    requires Distinct(s)
    requires forall i :: 0 <= i < |s| ==> 0 <= s[i] < n
    ensures |s| <= n
  {
    DistinctCardinality(s);
    RangeCardinality(n);
    SubsetCardinality(ToSet(s), Range(n));
  }
}
