// A FAT16 directory as the 512 32-byte entries the kernel keeps in memory.
module Directory {
  import opened Bytes

  const ENTRY_SIZE: nat := 32
  const ROOT_ENTRIES: nat := 512
  const DIR_BYTES: nat := 16384
  const NAME_SIZE: nat := 11
  const DIRECTORY_FLAG: byte := 0x10
  const DELETED: byte := 0xE5

  type DirImage = d: seq<byte> | |d| == 16384 witness seq(16384, i => 0)

  // Zero marks an entry that was never used.
  function FirstByte(dir: DirImage, k: nat): byte
    requires k < ROOT_ENTRIES
  {
    dir[32 * k]
  }

  // Bytes 26 and 27: the first cluster, low byte first.
  function FirstCluster(dir: seq<byte>, k: nat): ushort
    requires 32 * k + 32 <= |dir|
  {
    var low: int, high: int := dir[32 * k + 26], dir[32 * k + 27];
    low + 0x100 * high
  }

  // Bytes 28 to 31: the size in bytes, low byte first.
  function SizeOf(dir: seq<byte>, k: nat): nat
    requires 32 * k + 32 <= |dir|
  {
    var b0: int, b1: int, b2: int, b3: int :=
      dir[32 * k + 28], dir[32 * k + 29], dir[32 * k + 30], dir[32 * k + 31];
    b0 + 0x100 * b1 + 0x1_0000 * b2 + 0x100_0000 * b3
  }

  // ---------------------------------------------------------------- searching

  // The comparison of fsLoadFile and fsGetFileSize: only as many bytes as the name has.
  predicate Matches(dir: seq<byte>, name: seq<byte>, k: nat)
    requires 32 * k + 32 <= |dir| && |name| <= NAME_SIZE
  {
    && !(dir[32 * k] == 0 && dir[32 * k + 1] == 0)
    && forall i :: 0 <= i < |name| ==> name[i] == dir[32 * k + i]
  }

  // The first matching entry from index k on.
  function FindFrom(dir: DirImage, name: seq<byte>, k: nat): Option<nat>
    requires k <= ROOT_ENTRIES && |name| <= NAME_SIZE
    decreases |dir| - k
  {
    if k == ROOT_ENTRIES then None
    else if Matches(dir, name, k) then Some(k)
    else FindFrom(dir, name, k + 1)
  }

  // k is the first matching entry, or there is none.
  ghost predicate IsFirstMatch(dir: DirImage, name: seq<byte>, from: nat, r: Option<nat>)
    requires |name| <= NAME_SIZE
  {
    match r
    case Some(k) =>
      from <= k < ROOT_ENTRIES && Matches(dir, name, k) && forall i :: from <= i < k ==> !Matches(dir, name, i)
    case None => forall i :: from <= i < ROOT_ENTRIES ==> !Matches(dir, name, i)
  }

  lemma {:induction false} FindFromSound(dir: DirImage, name: seq<byte>, k: nat)
    requires k <= ROOT_ENTRIES && |name| <= NAME_SIZE
    ensures IsFirstMatch(dir, name, k, FindFrom(dir, name, k))
    decreases |dir| - k
  {
    if k < ROOT_ENTRIES && !Matches(dir, name, k) {
      FindFromSound(dir, name, k + 1);
    }
  }

  // There is only one first match.
  lemma FirstMatchUnique(dir: DirImage, name: seq<byte>, r: Option<nat>)
    requires |name| <= NAME_SIZE
    requires IsFirstMatch(dir, name, 0, r)
    ensures Find(dir, name) == r
  {
    FindFromSound(dir, name, 0);
  }

  function Find(dir: DirImage, name: seq<byte>): (r: Option<nat>)
    requires |name| <= NAME_SIZE
    ensures r.Some? ==> r.value < ROOT_ENTRIES
  {
    FindFromSound(dir, name, 0);
    FindFrom(dir, name, 0)
  }

  // The size fsGetFileSize reports: that of the first match, or 0.
  function FileSize(dir: DirImage, name: seq<byte>): nat
    requires |name| <= NAME_SIZE
  {
    match Find(dir, name)
    case Some(k) => SizeOf(dir, k)
    case None => 0
  }

  // The first entry below n, from k on, whose first byte is zero.
  function EmptyFrom(dir: DirImage, n: nat, k: nat): (r: Option<nat>)
    requires k <= n <= ROOT_ENTRIES
    ensures r.Some? ==> k <= r.value < n && FirstByte(dir, r.value) == 0
    ensures r.Some? ==> forall i :: k <= i < r.value ==> FirstByte(dir, i) != 0
    ensures r.None? ==> forall i :: k <= i < n ==> FirstByte(dir, i) != 0
    decreases n - k
  {
    if k == n then None
    else if FirstByte(dir, k) == 0 then Some(k)
    else EmptyFrom(dir, n, k + 1)
  }

  function FindEmpty(dir: DirImage, n: int): Option<nat>
    requires n <= ROOT_ENTRIES
  {
    if n < 0 then None else EmptyFrom(dir, n, 0)
  }

  // No used entry follows the first unused one.
  ghost predicate Packed(dir: DirImage) {
    forall i, j :: 0 <= i < j < ROOT_ENTRIES && FirstByte(dir, i) == 0 ==> FirstByte(dir, j) == 0
  }

  // The entry is in use and owns clusters.
  predicate Live(dir: DirImage, k: nat)
    requires k < ROOT_ENTRIES
  {
    FirstByte(dir, k) != 0 && FirstByte(dir, k) != DELETED && FirstCluster(dir, k) != 0
  }

  // ---------------------------------------------------------------- the new entry

  // The 11 name bytes that end up in the entry; directories lose their extension.
  function StoredName(name: seq<byte>, flag: byte): (n: seq<byte>)
    requires |name| >= NAME_SIZE
    ensures |n| == NAME_SIZE
  {
    seq(11, i requires 0 <= i < 11 => if flag == DIRECTORY_FLAG && i >= 8 then SPACE else name[i])
  }

  function StoredSize(size: nat, flag: byte): nat {
    if flag == DIRECTORY_FLAG then 0 else size % 0x1_0000_0000
  }

  // Bytes 12 to 25: reserved, fixed time stamps, high half of the first cluster.
  function FixedByte(i: nat): byte
    requires 12 <= i < 26
  {
    match i
    case 13 => 0x97
    case 14 => 0xD3
    case 15 => 0xBA
    case 16 => 0xE2
    case 17 => 0x58
    case 18 => 0xE2
    case 19 => 0x58
    case 22 => 0xD3
    case 23 => 0xBA
    case 24 => 0xE2
    case 25 => 0x58
    case _ => 0
  }

  // What fsSaveFile fills an entry with.
  datatype Fields = Fields(name: seq<byte>, flag: byte, first: ushort, size: nat)

  // DirEntry[i]
  function EntryByte(f: Fields, i: nat): byte
    requires |f.name| >= NAME_SIZE && i < ENTRY_SIZE
  {
    if i < 11 then StoredName(f.name, f.flag)[i]
    else if i == 11 then f.flag
    else if i < 26 then FixedByte(i)
    else if i == 26 then LowByte(f.first)
    else if i == 27 then HighByte(f.first)
    else if f.flag == DIRECTORY_FLAG then 0
    else SizeByte(f.size, i - 28)
  }

  function NewEntry(f: Fields): (e: seq<byte>)
    requires |f.name| >= NAME_SIZE
    ensures |e| == ENTRY_SIZE
  {
    seq(32, i requires 0 <= i < 32 => EntryByte(f, i))
  }

  function PutEntry(dir: DirImage, k: nat, e: seq<byte>): DirImage
    requires k < ROOT_ENTRIES && |e| == ENTRY_SIZE
  {
    seq(16384, i requires 0 <= i < 16384 => if 32 * k <= i < 32 * k + 32 then e[i - 32 * k] else dir[i])
  }

  // Every other entry keeps its fields.
  lemma PutEntryFrame(dir: DirImage, k: nat, e: seq<byte>, m: nat)
    requires k < ROOT_ENTRIES && |e| == ENTRY_SIZE
    requires m < ROOT_ENTRIES && m != k
    ensures var dir' := PutEntry(dir, k, e);
            && (forall i :: 32 * m <= i < 32 * m + 32 ==> dir'[i] == dir[i])
            && FirstByte(dir', m) == FirstByte(dir, m)
            && Live(dir', m) == Live(dir, m)
            && FirstCluster(dir', m) == FirstCluster(dir, m)
            && SizeOf(dir', m) == SizeOf(dir, m)
  {
  }

  lemma PutEntryMatches(dir: DirImage, k: nat, e: seq<byte>, m: nat, name: seq<byte>)
    requires k < ROOT_ENTRIES && |e| == ENTRY_SIZE
    requires m < ROOT_ENTRIES && m != k && |name| <= NAME_SIZE
    ensures Matches(PutEntry(dir, k, e), name, m) == Matches(dir, name, m)
  {
  }

  // The fields of the new entry read back as they were written.
  lemma PutEntryFields(dir: DirImage, k: nat, f: Fields)
    requires k < ROOT_ENTRIES && |f.name| >= NAME_SIZE && f.name[0] != 0
    ensures var dir' := PutEntry(dir, k, NewEntry(f));
            && Matches(dir', StoredName(f.name, f.flag), k)
            && FirstByte(dir', k) == f.name[0]
            && dir'[32 * k + 11] == f.flag
            && FirstCluster(dir', k) == f.first
            && SizeOf(dir', k) == StoredSize(f.size, f.flag)
  {
    var dir' := PutEntry(dir, k, NewEntry(f));
    assert forall i :: 0 <= i < 32 ==> dir'[32 * k + i] == EntryByte(f, i);
    assert dir'[32 * k] == EntryByte(f, 0) == f.name[0];
    assert dir'[32 * k + 26] == EntryByte(f, 26);
    WordRoundTrip(f.first);
    DoubleWordRoundTrip(f.size);
  }

  // A packed directory stays packed when the first unused slot is filled.
  lemma PutEntryPacked(dir: DirImage, n: nat, k: nat, e: seq<byte>)
    requires n <= ROOT_ENTRIES && Packed(dir)
    requires EmptyFrom(dir, n, 0) == Some(k)
    requires |e| == ENTRY_SIZE && e[0] != 0
    ensures Packed(PutEntry(dir, k, e))
  {
    var dir' := PutEntry(dir, k, e);
    assert FirstByte(dir', k) == e[0];
    forall i, j | 0 <= i < j < ROOT_ENTRIES && FirstByte(dir', i) == 0
      ensures FirstByte(dir', j) == 0
    {
      PutEntryFrame(dir, k, e, i);
      assert i > k;
      PutEntryFrame(dir, k, e, j);
    }
  }

  // A match before the filled slot stays the first one.
  lemma PutEntryFindOld(dir: DirImage, k: nat, e: seq<byte>, dir': DirImage, name: seq<byte>, m: nat)
    requires k < ROOT_ENTRIES && |e| == ENTRY_SIZE && |name| <= NAME_SIZE
    requires dir' == PutEntry(dir, k, e)
    requires Find(dir, name) == Some(m) && m < k
    ensures Find(dir', name) == Some(m)
  {
    FindFromSound(dir, name, 0);
    forall i | 0 <= i <= m
      ensures Matches(dir', name, i) == Matches(dir, name, i)
    {
      PutEntryMatches(dir, k, e, i, name);
    }
    FirstMatchUnique(dir', name, Some(m));
  }

  // A name that no slot up to the filled one had is found in it.
  lemma PutEntryFindNew(dir: DirImage, k: nat, e: seq<byte>, dir': DirImage, name: seq<byte>)
    requires k < ROOT_ENTRIES && |e| == ENTRY_SIZE && |name| <= NAME_SIZE
    requires dir' == PutEntry(dir, k, e)
    requires (Find(dir, name).None? || Find(dir, name).value > k) && Matches(dir', name, k)
    ensures Find(dir', name) == Some(k)
  {
    FindFromSound(dir, name, 0);
    forall i | 0 <= i < k
      ensures !Matches(dir', name, i)
    {
      PutEntryMatches(dir, k, e, i, name);
    }
    FirstMatchUnique(dir', name, Some(k));
  }
}
