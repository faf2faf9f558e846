// Entries that an earlier call left in a directory buffer: two calls of fs_load_path, of which the second loads a
// file that its path does not name.
module PathLeftovers {
  import opened Bytes
  import opened FatTable
  import opened Directory
  import opened Volume
  import opened PathWalk
  import opened PathTheorems

  // ---------------------------------------------------------------- entries left by an earlier call

  lemma OneNamed(dirs: seq<seq<byte>>)
    requires |dirs| == 1
    ensures AllNamed(dirs) != [] && AllNamed(dirs)[0] == Named(dirs[0]) && AllNamed(dirs)[1..] == []
  {
  }

  // The two levels of /d/base.ext.
  lemma DirectorySplit(path: seq<byte>, dirs: seq<seq<byte>>, d: seq<byte>, base: seq<byte>, ext: seq<byte>)
    requires |dirs| == 1 && dirs[0] == d && WellFormed(dirs, base, ext) && Spells(path, 0, dirs, base, ext)
    ensures ProperLevel(Named(d)) && At(path, 1, d) && 1 <= |base| <= 8 && Plain(base) && First3(ext) == ext
    ensures 1 + |d| < |path| && path[0] == SLASH == path[1 + |d|] && Splits(path, 1 + |d|, [], base, ext)
  {
    hide Splits, At, Plain, NoSlash, AllNamed;
    OneNamed(dirs);
    SplitStep(path, 0, AllNamed(dirs), base, ext);
  }

  lemma TwoLevels(path: seq<byte>, d: seq<byte>, base: seq<byte>, ext: seq<byte>)
    requires WellFormed([d], base, ext) && Spells(path, 0, [d], base, ext)
    ensures 1 + |d| < |path| && path[0] == SLASH == path[1 + |d|]
    ensures Scan(path, 1, 0, false) == DirName(PadDir(d), 1 + |d|)
    ensures Scan(path, 2 + |d|, 0, true) == FileName(PadFile(base, ext))
  {
    hide Scan, PadDir, PadFile, At, Splits, Plain, First3, WellFormed, Spells;
    DirectorySplit(path, [d], d, base, ext);
    ScanDirectory(path, 0, d, false);
    ScanFile(path, 1 + |d|, base, ext);
  }

  // What loading /d/base.ext leaves in the first buffer.
  lemma DirectoryStaysBehind(fat: Fat, disk: Disk, root: DirImage, stale: seq<DirImage>, path: seq<byte>,
                             d: seq<byte>, base: seq<byte>, ext: seq<byte>, sub: File, capacity: nat, bufferSize: nat)
    requires |stale| == N_BUFFERS && WellFormed([d], base, ext) && Spells(path, 0, [d], base, ext)
    requires Member(fat, disk, root, PadDir(d)) == Some(sub) && |sub.bytes| <= DIR_BYTES && sub.size < DIR_BYTES
    ensures BuffersAfter(fat, disk, root, stale, path, capacity, bufferSize) == stale[0 := Overlay(sub.bytes, stale[0])]
  {
    hide Scan, Overlay, LoadOutcome, Member, LeftFrom, WalkFrom, BuffersAfter, PathOutcome, Splits, PadDir, PadFile;
    var c := CallContext(fat, disk, stale, path, AllNamed([d]), capacity, bufferSize);
    SpelledPath(path, [d], base, ext);
    CallIsWalk(fat, disk, root, stale, path, AllNamed([d]), base, ext, capacity, bufferSize);
    RootMember(fat, disk, root, PadDir(d), sub);
    TwoLevels(path, d, base, ext);
    LeftByDirectory(c, Overlay(root, root), PadDir(d), 1 + |d|, sub.bytes, PadFile(base, ext), stale);
  }

  lemma RootMember(fat: Fat, disk: Disk, root: DirImage, name: seq<byte>, sub: File)
    requires |name| == NAME_SIZE && Member(fat, disk, root, name) == Some(sub)
    requires |sub.bytes| <= DIR_BYTES && sub.size < DIR_BYTES
    ensures LoadOutcome(fat, disk, Overlay(root, root), ROOT_ENTRIES, name, DIR_BYTES, DIR_BYTES) == Loaded(sub.bytes)
  {
    LoadMemberIff(fat, disk, root, root, name, DIR_BYTES, DIR_BYTES, sub.bytes);
  }

  lemma LeftByDirectory(c: Context, dir: DirImage, d: seq<byte>, q: nat, bytes: seq<byte>, name: seq<byte>, now: seq<DirImage>)
    requires |c.stale| == N_BUFFERS == |now| && c.levels == 2
    requires 0 < q < |c.path| && c.path[0] == SLASH == c.path[q]
    requires Scan(c.path, 1, 0, false) == DirName(d, q) && Scan(c.path, q + 1, 0, true) == FileName(name)
    requires LoadInto(c, dir, d) == Loaded(bytes) && |bytes| <= DIR_BYTES
    ensures LeftFrom(c, dir, 0, 0, now) == now[0 := Overlay(bytes, c.stale[0])]
  {
    var here := Overlay(bytes, c.stale[0]);
    hide LoadInto, Scan, Overlay;
    assert LeftFrom(c, here, 1, q, now[0 := here]) == now[0 := here];
  }

  lemma WalkByDirectory(c: Context, dir: DirImage, d: seq<byte>, q: nat, bytes: seq<byte>, name: seq<byte>, file: seq<byte>)
    requires |c.stale| == N_BUFFERS && c.levels == 2
    requires 0 < q < |c.path| && c.path[0] == SLASH == c.path[q]
    requires Scan(c.path, 1, 0, false) == DirName(d, q) && Scan(c.path, q + 1, 0, true) == FileName(name)
    requires LoadInto(c, dir, d) == Loaded(bytes) && |bytes| <= DIR_BYTES
    requires LoadLast(c, Overlay(bytes, c.stale[0]), name) == Loaded(file)
    ensures WalkFrom(c, dir, 0, 0) == PathLoaded(file)
  {
    var here := Overlay(bytes, c.stale[0]);
    hide LoadInto, LoadLast, Scan, Overlay;
    assert WalkFrom(c, here, 1, q) == PathLoaded(file);
  }

  // The file that an entry gives does not depend on what stands around the entry.
  lemma SameEntrySameFile(fat: Fat, disk: Disk, a: seq<byte>, b: seq<byte>, k: nat)
    requires 32 * k + 32 <= |a| && 32 * k + 32 <= |b| && forall i :: 32 * k <= i < 32 * k + 32 ==> a[i] == b[i]
    ensures FileAt(fat, disk, a, k) == FileAt(fat, disk, b, k)
  {
  }

  // Behind a shorter directory the entry of the longer one is the first with the name.
  lemma LeftoverIsFound(short: seq<byte>, long: seq<byte>, stale: DirImage, name: seq<byte>, k: nat)
    requires |short| % 32 == 0 && |short| <= |long| <= DIR_BYTES && |name| == NAME_SIZE
    requires FirstEntry(short, name, 0) == None && FirstEntry(long, name, 0) == Some(k) && |short| <= 32 * k
    ensures FindFrom(Overlay(long, stale), name, |short| / 32) == Some(k)
    ensures Find(Overlay(short, Overlay(long, stale)), name) == Some(k)
  {
    var left := Overlay(long, stale);
    FirstEntrySound(long, name, 0);
    forall i | 0 <= i <= k
      ensures Matches(left, name, i) == Matches(long, name, i)
    {
      OverlayEntry(long, stale, name, i);
    }
    FindFromSound(left, name, |short| / 32);
    SearchOverlay(short, left, name);
  }

  // A short directory loaded over a longer one, which has a name that the short one lacks.
  ghost predicate Shorter(short: seq<byte>, long: seq<byte>, name: seq<byte>, k: nat)
    requires |name| == NAME_SIZE
  {
    && |short| % 32 == 0 && |short| <= |long| <= DIR_BYTES
    && FirstEntry(short, name, 0) == None && FirstEntry(long, name, 0) == Some(k) && |short| <= 32 * k
  }

  lemma LeftoverLoads(fat: Fat, disk: Disk, short: seq<byte>, long: seq<byte>, stale: DirImage, name: seq<byte>, k: nat,
                      f: File, capacity: nat, bufferSize: nat)
    requires |name| == NAME_SIZE && Shorter(short, long, name, k) && bufferSize < 0x1_0000_0000
    requires FileAt(fat, disk, long, k) == Some(f) && Fits(f, capacity, bufferSize)
    ensures LoadOutcome(fat, disk, Overlay(short, Overlay(long, stale)), ROOT_ENTRIES, name, capacity, bufferSize)
         == Loaded(f.bytes)
  {
    var here := Overlay(short, Overlay(long, stale));
    LeftoverIsFound(short, long, stale, name, k);
    SameEntrySameFile(fat, disk, here, long, k);
    hide Overlay, FileAt, LoadOutcome, FirstEntry, Find, FindFrom;
    LoadFirstIff(fat, disk, here, name, k, capacity, bufferSize, f.bytes);
  }

  lemma ResolveOne(fat: Fat, disk: Disk, root: DirImage, d: seq<byte>, base: seq<byte>, ext: seq<byte>, sub: File)
    requires Member(fat, disk, root, PadDir(d)) == Some(sub) && |sub.bytes| <= DIR_BYTES && sub.size < DIR_BYTES
    ensures Resolve(fat, disk, root, [d], base, ext) == Member(fat, disk, sub.bytes, PadFile(base, ext))
  {
    assert [d][1..] == [];
  }

  // The second call, over the buffers that the first one left.
  lemma ShorterDirectoryLoads(fat: Fat, disk: Disk, root: DirImage, left: seq<DirImage>, path: seq<byte>,
                              d: seq<byte>, base: seq<byte>, ext: seq<byte>, short: File, long: seq<byte>, before: DirImage,
                              k: nat, f: File, capacity: nat, bufferSize: nat)
    requires |left| == N_BUFFERS && WellFormed([d], base, ext) && Spells(path, 0, [d], base, ext)
    requires Member(fat, disk, root, PadDir(d)) == Some(short) && short.size < DIR_BYTES
    requires Shorter(short.bytes, long, PadFile(base, ext), k) && left[0] == Overlay(long, before)
    requires FileAt(fat, disk, long, k) == Some(f) && Fits(f, capacity, bufferSize % 0x1_0000_0000)
    ensures PathOutcome(fat, disk, root, left, path, capacity, bufferSize) == PathLoaded(f.bytes)
  {
    hide Scan, Overlay, LoadOutcome, Member, FileAt, FirstEntry, LeftFrom, WalkFrom, BuffersAfter, PathOutcome, Splits,
      PadDir, PadFile;
    var c := CallContext(fat, disk, left, path, AllNamed([d]), capacity, bufferSize);
    SpelledPath(path, [d], base, ext);
    CallIsWalk(fat, disk, root, left, path, AllNamed([d]), base, ext, capacity, bufferSize);
    RootMember(fat, disk, root, PadDir(d), short);
    LeftoverLoads(fat, disk, short.bytes, long, before, PadFile(base, ext), k, f, capacity, c.bufferSize);
    TwoLevels(path, d, base, ext);
    WalkByDirectory(c, Overlay(root, root), PadDir(d), 1 + |d|, short.bytes, PadFile(base, ext), f.bytes);
  }

  // Two calls in a row: /b/base.ext is loaded properly; afterwards /a/base.ext loads the same file,
  // although directory a, which is shorter, has no such name.
  lemma LeftoverIsLoaded(fat: Fat, disk: Disk, root: DirImage, stale: seq<DirImage>, pathA: seq<byte>, pathB: seq<byte>,
                         a: seq<byte>, b: seq<byte>, base: seq<byte>, ext: seq<byte>, da: File, db: File, k: nat, f: File,
                         capacity: nat, bufferSize: nat)
    requires |stale| == N_BUFFERS && WellFormed([a], base, ext) && WellFormed([b], base, ext)
    requires Spells(pathA, 0, [a], base, ext) && Spells(pathB, 0, [b], base, ext)
    requires Member(fat, disk, root, PadDir(a)) == Some(da) && da.size < DIR_BYTES
    requires Member(fat, disk, root, PadDir(b)) == Some(db) && db.size < DIR_BYTES
    requires Shorter(da.bytes, db.bytes, PadFile(base, ext), k)
    requires FileAt(fat, disk, db.bytes, k) == Some(f) && Fits(f, capacity, bufferSize % 0x1_0000_0000)
    ensures PathOutcome(fat, disk, root, stale, pathB, capacity, bufferSize) == PathLoaded(f.bytes)
    ensures Resolve(fat, disk, root, [a], base, ext) == None
    ensures var left := BuffersAfter(fat, disk, root, stale, pathB, capacity, bufferSize);
            PathOutcome(fat, disk, root, left, pathA, capacity, bufferSize) == PathLoaded(f.bytes)
  {
    hide Overlay, FileAt, FirstEntry, BuffersAfter, PathOutcome, Resolve;
    ResolveOne(fat, disk, root, a, base, ext, da);
    ResolveOne(fat, disk, root, b, base, ext, db);
    LoadPathResolves(fat, disk, root, stale, pathB, [b], base, ext, f, capacity, bufferSize);
    DirectoryStaysBehind(fat, disk, root, stale, pathB, b, base, ext, db, capacity, bufferSize);
    ShorterDirectoryLoads(fat, disk, root, stale[0 := Overlay(db.bytes, stale[0])], pathA, a, base, ext,
                          da, db.bytes, stale[0], k, f, capacity, bufferSize);
  }

  // ---------------------------------------------------------------- inputs

  // One-letter names, and the contents of the file.
  datatype Letters = Letters(a: byte, b: byte, x: byte, y: byte, content: Sector)

  predicate IsLetter(c: byte) {
    c != NUL && c != SLASH && c != DOT
  }

  predicate Proper(e: Letters) {
    IsLetter(e.a) && IsLetter(e.b) && IsLetter(e.x) && IsLetter(e.y) && e.a != e.b
  }

  // a has one cluster and is empty; b has two, and x.y is the first entry of the second.
  function TreeFat(e: Letters): Fat {
    [0, 0, 0, END_OF_CHAIN, 5, END_OF_CHAIN, END_OF_CHAIN]
  }

  function FileFields(e: Letters): Fields {
    Fields(PadFile([e.x], [e.y]), 0x20, 6, 1)
  }

  function DirFields(name: byte, first: ushort): Fields {
    Fields(PadDir([name]), DIRECTORY_FLAG, first, 0)
  }

  function TreeDisk(e: Letters): Disk {
    map[ClusterLba(5) := NewEntry(FileFields(e)) + seq(480, i => 0), ClusterLba(6) := e.content]
  }

  function EmptyDirectory(): DirImage {
    seq(16384, i => 0)
  }

  function TreeRoot(e: Letters): DirImage {
    PutEntry(PutEntry(EmptyDirectory(), 0, NewEntry(DirFields(e.a, 3))), 1, NewEntry(DirFields(e.b, 4)))
  }

  function PathTo(d: byte, e: Letters): seq<byte> {
    [SLASH, d, SLASH, e.x, DOT, e.y]
  }

  lemma TreeChains(e: Letters)
    ensures TrailOf(TreeFat(e), 3) == Trail([3], EndOfChain)
    ensures TrailOf(TreeFat(e), 4) == Trail([4, 5], EndOfChain)
    ensures TrailOf(TreeFat(e), 6) == Trail([6], EndOfChain)
  {
    assert LinkedAt(TreeFat(e), [4, 5], 0);
    ChainTrail(TreeFat(e), [3]);
    ChainTrail(TreeFat(e), [4, 5]);
    ChainTrail(TreeFat(e), [6]);
  }

  // The root has a and b.
  lemma TreeMembers(e: Letters)
    requires Proper(e)
    ensures FirstEntry(TreeRoot(e), PadDir([e.a]), 0) == Some(0)
    ensures FirstCluster(TreeRoot(e), 0) == 3 && SizeOf(TreeRoot(e), 0) == 0
    ensures FirstEntry(TreeRoot(e), PadDir([e.b]), 0) == Some(1)
    ensures FirstCluster(TreeRoot(e), 1) == 4 && SizeOf(TreeRoot(e), 1) == 0
  {
    var fa, fb := DirFields(e.a, 3), DirFields(e.b, 4);
    var first := PutEntry(EmptyDirectory(), 0, NewEntry(fa));
    assert StoredName(fa.name, fa.flag) == fa.name && StoredName(fb.name, fb.flag) == fb.name;
    hide PutEntry, NewEntry, Matches, FirstCluster, SizeOf;
    PutEntryFields(EmptyDirectory(), 0, fa);
    PutEntryFields(first, 1, fb);
    PutEntryFrame(first, 1, NewEntry(fb), 0);
    PutEntryMatches(first, 1, NewEntry(fb), 0, fa.name);
    OtherFirstByte(TreeRoot(e), fb.name, 0);
  }

  lemma OtherFirstByte(dir: seq<byte>, name: seq<byte>, k: nat)
    requires 32 * k + 32 <= |dir| && 0 < |name| <= NAME_SIZE && dir[32 * k] != name[0]
    ensures !Matches(dir, name, k)
  {
  }

  lemma SameEntry(a: seq<byte>, b: seq<byte>, k: nat, name: seq<byte>)
    requires 32 * k + 32 <= |a| && 32 * k + 32 <= |b| && forall i :: 32 * k <= i < 32 * k + 32 ==> a[i] == b[i]
    requires |name| <= NAME_SIZE
    ensures Matches(a, name, k) == Matches(b, name, k)
    ensures FirstCluster(a, k) == FirstCluster(b, k) && SizeOf(a, k) == SizeOf(b, k)
  {
  }

  // What the clusters of a and b hold.
  lemma TreeBytes(e: Letters)
    ensures forall i :: 0 <= i < 512 ==> ReadClusters(TreeDisk(e), [3])[i] == 0
    ensures forall i :: 0 <= i < 512 ==> ReadClusters(TreeDisk(e), [4, 5])[i] == 0
    ensures forall i :: 512 <= i < 544 ==> ReadClusters(TreeDisk(e), [4, 5])[i] == NewEntry(FileFields(e))[i - 512]
    ensures ReadClusters(TreeDisk(e), [6]) == e.content
  {
    hide NewEntry;
    assert ReadLba(TreeDisk(e), ClusterLba(3)) == ZeroSector() == ReadLba(TreeDisk(e), ClusterLba(4));
    assert ReadLba(TreeDisk(e), ClusterLba(5)) == NewEntry(FileFields(e)) + seq(480, i => 0);
    assert ReadLba(TreeDisk(e), ClusterLba(6)) == e.content;
  }

  lemma ZeroEntry(dir: seq<byte>, name: seq<byte>, k: nat)
    requires 32 * k + 32 <= |dir| && |name| <= NAME_SIZE && dir[32 * k] == 0 == dir[32 * k + 1]
    ensures !Matches(dir, name, k)
  {
  }

  // The entry that the second sector starts with.
  lemma EntryBehindSector(long: seq<byte>, f: Fields)
    requires |long| == 1024 && |f.name| == NAME_SIZE && f.name[0] != 0 && StoredName(f.name, f.flag) == f.name
    requires forall i :: 512 <= i < 544 ==> long[i] == NewEntry(f)[i - 512]
    ensures Matches(long, f.name, 16) && FirstCluster(long, 16) == f.first && SizeOf(long, 16) == StoredSize(f.size, f.flag)
  {
    var image := PutEntry(EmptyDirectory(), 16, NewEntry(f));
    assert forall i :: 512 <= i < 544 ==> image[i] == NewEntry(f)[i - 512];
    hide NewEntry, PutEntry, EmptyDirectory, Matches, FirstCluster, SizeOf;
    PutEntryFields(EmptyDirectory(), 16, f);
    SameEntry(long, image, 16, f.name);
  }

  // A sector of zeros, and one in front of a sector that starts with an entry.
  lemma BehindOneSector(short: seq<byte>, long: seq<byte>, name: seq<byte>)
    requires |short| == 512 && |long| == 1024 && (forall i :: 0 <= i < 512 ==> short[i] == 0 == long[i])
    requires |name| == NAME_SIZE && Matches(long, name, 16)
    ensures Shorter(short, long, name, 16)
  {
    hide Matches;
    FirstEntrySound(short, name, 0);
    FirstEntrySound(long, name, 0);
    forall i | 0 <= i < 16
      ensures !Matches(short, name, i) && !Matches(long, name, i)
    {
      ZeroEntry(short, name, i);
      ZeroEntry(long, name, i);
    }
  }

  lemma FileFieldsName(e: Letters)
    ensures StoredName(FileFields(e).name, FileFields(e).flag) == FileFields(e).name && FileFields(e).name[0] == e.x
  {
  }

  // x.y is in b at index 16, and not in a.
  lemma TreeFiles(e: Letters)
    requires Proper(e)
    ensures Shorter(ReadClusters(TreeDisk(e), [3]), ReadClusters(TreeDisk(e), [4, 5]), PadFile([e.x], [e.y]), 16)
    ensures FirstCluster(ReadClusters(TreeDisk(e), [4, 5]), 16) == 6 && SizeOf(ReadClusters(TreeDisk(e), [4, 5]), 16) == 1
  {
    var f := FileFields(e);
    FileFieldsName(e);
    hide TreeDisk, NewEntry, Matches, PadFile, FirstCluster, SizeOf, Shorter;
    TreeBytes(e);
    EntryBehindSector(ReadClusters(TreeDisk(e), [4, 5]), f);
    BehindOneSector(ReadClusters(TreeDisk(e), [3]), ReadClusters(TreeDisk(e), [4, 5]), f.name);
  }

  lemma TreeResolves(e: Letters)
    requires Proper(e)
    ensures Member(TreeFat(e), TreeDisk(e), TreeRoot(e), PadDir([e.a])) == Some(File(0, ReadClusters(TreeDisk(e), [3])))
    ensures Member(TreeFat(e), TreeDisk(e), TreeRoot(e), PadDir([e.b])) == Some(File(0, ReadClusters(TreeDisk(e), [4, 5])))
    ensures FileAt(TreeFat(e), TreeDisk(e), ReadClusters(TreeDisk(e), [4, 5]), 16) == Some(File(1, e.content))
  {
    TreeChains(e);
    TreeMembers(e);
    TreeFiles(e);
    TreeBytes(e);
    hide TreeRoot, TreeDisk, TreeFat, ReadClusters, FirstEntry, PadDir, PadFile, TrailOf, Shorter, FirstCluster, SizeOf;
  }

  lemma PathIsSpelled(d: byte, e: Letters)
    requires Proper(e) && IsLetter(d)
    ensures WellFormed([[d]], [e.x], [e.y]) && Spells(PathTo(d, e), 0, [[d]], [e.x], [e.y])
  {
    assert AllNamed([[d]]) == [Named([d])];
    assert Splits(PathTo(d, e), 2, [Named([d])][1..], [e.x], [e.y]);
  }

  // From any buffers: /b/x.y is loaded; then /a/x.y, which names nothing, is loaded too.
  lemma LeftoverExample(e: Letters, stale: seq<DirImage>)
    requires Proper(e) && |stale| == N_BUFFERS
    ensures Resolve(TreeFat(e), TreeDisk(e), TreeRoot(e), [[e.a]], [e.x], [e.y]) == None
    ensures PathOutcome(TreeFat(e), TreeDisk(e), TreeRoot(e), stale, PathTo(e.b, e), 512, 512) == PathLoaded(e.content)
    ensures PathOutcome(TreeFat(e), TreeDisk(e), TreeRoot(e),
                        BuffersAfter(TreeFat(e), TreeDisk(e), TreeRoot(e), stale, PathTo(e.b, e), 512, 512),
                        PathTo(e.a, e), 512, 512) == PathLoaded(e.content)
  {
    hide TreeRoot, TreeDisk, TreeFat, PathTo, Spells, FileAt, Member, PadDir, PadFile, Resolve, PathOutcome, BuffersAfter, Shorter,
      FirstEntry, TrailOf, Overlay, LoadOutcome;
    var da, db := File(0, ReadClusters(TreeDisk(e), [3])), File(0, ReadClusters(TreeDisk(e), [4, 5]));
    TreeResolves(e);
    TreeFiles(e);
    PathIsSpelled(e.a, e);
    PathIsSpelled(e.b, e);
    LeftoverIsLoaded(TreeFat(e), TreeDisk(e), TreeRoot(e), stale, PathTo(e.a, e), PathTo(e.b, e),
                     [e.a], [e.b], [e.x], [e.y], da, db, 16, File(1, e.content), 512, 512);
  }
}
