// From a saved file to the bytes that read calls return.
module OpenTheorems {
  import opened Bytes
  import opened Directory
  import opened FatTable
  import opened FileStream
  import opened StreamTheorems
  import opened Volume
  import opened VolumeTheorems
  import opened OpenFile
  import opened Names83

  // ---------------------------------------------------------------- reading an opened file

  // A regular file that may be read, within the limit of the buffered read.
  ghost predicate ReadyToRead(s: FileState) {
    && s.live && s.kind == Regular && s.canRead && ReadAllowed(s.flags)
    && 0 <= s.r <= s.w <= s.lbfsize <= |s.data|
    && BUFSIZ <= s.lbfsize <= READ_LIMIT
  }

  predicate ReadAllowed(flags: bv16) {
    flags & SRD != 0
  }

  function Least(a: int, b: int): int {
    if a < b then a else b
  }

  lemma FlagsStayReadable(flags: bv16)
    requires ReadAllowed(flags)
    ensures ReadAllowed(flags | SWR)
  {
  }

  // Everything a read needs and keeps besides the offset.
  ghost predicate SameBuffer(s: FileState, t: FileState) {
    && t.w == s.w && t.lbfsize == s.lbfsize && t.data == s.data
    && t.kind == s.kind && t.live == s.live && t.canRead == s.canRead
    && (ReadAllowed(s.flags) ==> ReadAllowed(t.flags))
  }

  lemma BufferReadTakes(s: FileState, count: int)
    requires ReadyToRead(s) && 1 <= count <= s.lbfsize
    ensures var n, result := Least(count, s.w - s.r), ReadBuffer(s, count);
            && result.n == n && result.bytes == s.data[s.r..s.r + n]
            && result.after.r == s.r + n && SameBuffer(s, result.after)
  {
    FlagsStayReadable(s.flags);
    hide ReadAllowed;
    if s.r == s.w {
      assert ReadBuffer(s, count).after == s;
    } else {
      assert ReadBuffer(s, count).after.flags == s.flags | SWR;
    }
  }

  // An allowed read call does what the buffer read does, and stays allowed.
  lemma ReadCallIs(s: FileState, count: int)
    requires Readable(s) && s.canRead && ReadAllowed(s.flags) && count > 0
    ensures var b, c := ReadBuffer(s, count), ReadCall(s, count);
            && c.n == (if b.n <= 0 then -1 else b.n)
            && c.bytes == (if b.n <= 0 then [] else b.bytes)
            && (b.n <= 0 ==> c.after == b.after)
            && c.after.r == b.after.r && SameBuffer(b.after, c.after)
  {
    hide ReadBuffer;
    if ReadAllowed(ReadBuffer(s, count).after.flags) {
      FlagsStayReadable(ReadBuffer(s, count).after.flags);
    }
  }

  // One read call takes the next bytes, as many as asked for, or reports -1 when none are left.
  lemma ReadCallTakes(s: FileState, count: int)
    requires ReadyToRead(s) && 1 <= count <= s.lbfsize
    ensures var result := ReadCall(s, count);
            && ReadyToRead(result.after) && result.after.lbfsize == s.lbfsize
            && |result.bytes| == Least(count, |Pending(s)|)
            && result.bytes + Pending(result.after) == Pending(s)
            && result.n == if |result.bytes| > 0 then |result.bytes| else -1
  {
    BufferReadTakes(s, count);
    ReadCallIs(s, count);
    hide ReadBuffer, ReadCall, ReadAllowed;
    SplitPending(s.data, s.r, s.r + Least(count, s.w - s.r), s.w);
  }

  lemma SplitPending(data: seq<byte>, a: int, b: int, c: int)
    requires 0 <= a <= b <= c <= |data|
    ensures data[a..b] + data[b..c] == data[a..c]
  {
  }

  // Reads leave the buffer as it was.
  ghost predicate BufferKept(s: FileState, t: FileState) {
    t.w == s.w && t.lbfsize == s.lbfsize && t.data == s.data
  }

  lemma StreamedKeepsBuffer(s: FileState, count: int)
    requires Readable(s) && count > 0
    ensures BufferKept(s, StreamedRead(s, count).after)
  {
  }

  lemma ReadKeepsReadable(s: FileState, count: int)
    requires Readable(s)
    ensures Readable(ReadCall(s, count).after)
  {
    hide StreamedRead;
    if 0 < count % 0x1_0000 {
      StreamedKeepsBuffer(s, count % 0x1_0000);
    }
    assert BufferKept(s, ReadBuffer(s, count).after);
    hide ReadBuffer;
    assert BufferKept(s, ReadCall(s, count).after);
  }

  // The bytes that a series of read calls returns, one after the other.
  function ReadRun(s: FileState, counts: seq<int>): (run: ReadResult)
    requires Readable(s)
    ensures Readable(run.after)
    decreases |counts|
  {
    if counts == [] then ReadResult(0, s, [])
    else
      var first := ReadCall(s, counts[0]);
      ReadKeepsReadable(s, counts[0]);
      var rest := ReadRun(first.after, counts[1..]);
      rest.(bytes := first.bytes + rest.bytes)
  }

  function Total(counts: seq<int>): int
    decreases |counts|
  {
    if counts == [] then 0 else counts[0] + Total(counts[1..])
  }

  predicate ProperCounts(counts: seq<int>, limit: int) {
    forall i :: 0 <= i < |counts| ==> 1 <= counts[i] <= limit
  }

  // The calls return the pending bytes in order, as many as were asked for.
  lemma {:induction false} ReadRunTakes(s: FileState, counts: seq<int>)
    requires ReadyToRead(s) && ProperCounts(counts, s.lbfsize)
    ensures 0 <= Total(counts)
    ensures ReadyToRead(ReadRun(s, counts).after) && ReadRun(s, counts).after.lbfsize == s.lbfsize
    ensures |ReadRun(s, counts).bytes| == Least(Total(counts), |Pending(s)|)
    ensures ReadRun(s, counts).bytes + Pending(ReadRun(s, counts).after) == Pending(s)
    decreases |counts|
  {
    hide ReadCall, Pending;
    if counts == [] {
      assert ReadRun(s, counts).bytes + Pending(s) == Pending(s);
    } else {
      ReadCallTakes(s, counts[0]);
      var first := ReadCall(s, counts[0]);
      ReadRunTakes(first.after, counts[1..]);
      var rest := ReadRun(first.after, counts[1..]);
      assert (first.bytes + rest.bytes) + Pending(rest.after) == first.bytes + (rest.bytes + Pending(rest.after));
    }
  }

  // ---------------------------------------------------------------- buffers beyond the limit

  // From a buffer above the limit every read fails and changes nothing.
  lemma LargeBufferIsNotRead(s: FileState, count: int)
    requires Readable(s) && s.kind == Regular && s.lbfsize > READ_LIMIT && count > 0
    ensures ReadCall(s, count).n == -1 && ReadCall(s, count).bytes == [] && ReadCall(s, count).after == s
  {
  }

  lemma {:induction false} LargeBufferRun(s: FileState, counts: seq<int>)
    requires Readable(s) && s.kind == Regular && s.lbfsize > READ_LIMIT
    requires forall i :: 0 <= i < |counts| ==> counts[i] > 0
    ensures ReadRun(s, counts).bytes == [] && ReadRun(s, counts).after == s && Total(counts) >= 0
    decreases |counts|
  {
    hide ReadCall;
    if counts != [] {
      LargeBufferIsNotRead(s, counts[0]);
      LargeBufferRun(s, counts[1..]);
    }
  }

  // However the file is read, the calls return the bytes in order, never more,
  // and the next one reports -1 exactly when they are used up.
  ghost predicate ReadsBack(f: FileState, bytes: seq<byte>, counts: seq<int>, next: int)
    requires Readable(f)
  {
    && 0 <= Total(counts)
    && var run := ReadRun(f, counts);
    && run.bytes == bytes[..Least(Total(counts), |bytes|)]
    && (Total(counts) >= |bytes| <==> ReadCall(run.after, next).n == -1)
  }

  // A fresh file is ready to be read, with its size in bytes pending.
  lemma FreshFileIsReady(slot: int, size: nat, bytes: seq<byte>)
    requires 0 < size <= |bytes| <= BufferFor(size)
    ensures Readable(FreshFile(slot, size, bytes))
    ensures BufferFor(size) <= READ_LIMIT ==> ReadyToRead(FreshFile(slot, size, bytes))
    ensures BufferFor(size) <= READ_LIMIT ==> Pending(FreshFile(slot, size, bytes)) == bytes[..size]
  {
  }

  // A fresh file is read back, however it is read, exactly if its buffer is within the limit:
  // files of 8185 to 8192 bytes are opened but cannot be read at all.
  lemma FreshFileReadsIff(slot: int, size: nat, bytes: seq<byte>, counts: seq<int>, next: int)
    requires 0 < size <= |bytes| <= BufferFor(size)
    requires ProperCounts(counts, BufferFor(size)) && 1 <= next <= BufferFor(size)
    ensures Readable(FreshFile(slot, size, bytes))
    ensures ReadsBack(FreshFile(slot, size, bytes), bytes[..size], counts, next) <==> BufferFor(size) <= READ_LIMIT
  {
    FreshFileIsReady(slot, size, bytes);
    var f := FreshFile(slot, size, bytes);
    assert f.lbfsize == BufferFor(size) && f.kind == Regular;
    hide FreshFile, ReadCall, Pending;
    var run := ReadRun(f, counts);
    if BufferFor(size) <= READ_LIMIT {
      ReadRunTakes(f, counts);
      ReadCallTakes(run.after, next);
      Prefix(run.bytes, Pending(run.after), bytes[..size]);
    } else {
      LargeBufferRun(f, counts);
      LargeBufferIsNotRead(f, next);
    }
  }

  lemma Prefix(a: seq<byte>, b: seq<byte>, bytes: seq<byte>)
    requires a + b == bytes
    ensures a == bytes[..|a|] && |a| + |b| == |bytes|
  {
  }

  // ---------------------------------------------------------------- what an open delivers

  // A name that directory searches accept.
  predicate Searchable(name: seq<byte>) {
    |name| == NAME_SIZE && name[0] != 0 && name[0] != DELETED && name[0] != DOT && name[0] != SLASH
  }

  // For such names the search of open and the search of load agree.
  lemma ExistingIsListed(v: Vol, name: seq<byte>)
    requires Existing(v, name) && Searchable(name)
    ensures Listed(v.dir, name)
  {
    var k := Find(v.dir, name).value;
    FindFromSound(v.dir, name, 0);
    assert FirstByte(v.dir, k) == name[0];
    assert ListedAt(v.dir, name, k);
  }

  // The file is there with this size, and loading it for an open has this result.
  ghost predicate Stores(v: Vol, window: nat, name: seq<byte>, size: nat, l: LoadResult) {
    LoadsAs(v, window, name, BufferFor(size), BufferFor(size), l) && FileSize(v.dir, name) == size
  }

  lemma StepKeepsStores(v: Vol, a: Action, window: nat, v': Vol, name: seq<byte>, size: nat, l: LoadResult)
    requires Step(v, a, window, v') && Stores(v, window, name, size, l)
    ensures Stores(v', window, name, size, l)
  {
    StepKeepsLoad(v, a, window, v', name, BufferFor(size), BufferFor(size), l);
    SizeAfterSave(v, a.request, window, a.status, v', name);
  }

  // A successful save of a file that can be opened, under a name that is new and can be searched for.
  ghost predicate SavesFile(v: Vol, a: Action) {
    var r := a.request;
    && a.status == Saved && Callable(r)
    && r.flag != DIRECTORY_FLAG && Searchable(r.name[..NAME_SIZE])
    && Find(v.dir, r.name[..NAME_SIZE]).None?
    && 0 < r.size <= OPEN_LIMIT && r.sectors <= MAX_SECTORS && r.size <= 512 * r.sectors
  }

  // What loading the saved file for an open gives.
  function LoadForOpen(r: SaveRequest): LoadResult
    requires Callable(r) && r.sectors <= MAX_SECTORS
  {
    if 512 * r.sectors <= BufferFor(r.size) then Loaded(r.data[..512 * r.sectors]) else LoadUnsafe
  }

  // ... seen from its stored name.
  ghost predicate SavesAs(v: Vol, a: Action, name: seq<byte>, l: LoadResult) {
    var r := a.request;
    && a.status == Saved && Callable(r) && r.sectors <= MAX_SECTORS
    && name == StoredName(r.name, r.flag) && Find(v.dir, name).None?
    && StoredSize(r.size, r.flag) == r.size <= OPEN_LIMIT && l == LoadForOpen(r)
  }

  lemma FileSavesAs(v: Vol, a: Action)
    requires SavesFile(v, a)
    ensures SavesAs(v, a, a.request.name[..NAME_SIZE], LoadForOpen(a.request))
  {
    assert StoredName(a.request.name, a.request.flag) == a.request.name[..NAME_SIZE];
  }

  lemma SaveStores(v: Vol, a: Action, window: nat, v': Vol, name: seq<byte>, l: LoadResult)
    requires Consistent(v, window) && Step(v, a, window, v') && SavesAs(v, a, name, l)
    ensures Stores(v', window, name, a.request.size, l)
  {
    var r := a.request;
    SaveThenLoad(v, r, window, v', BufferFor(r.size), BufferFor(r.size));
    SavedIsExisting(v, r, window, v');
    SaveKeepsConsistent(v, r, window, Saved, v');
    SizeAfterSave(v, r, window, Saved, v', name);
  }

  lemma RunKeepsStores(vs: seq<Vol>, actions: seq<Action>, window: nat, m: nat, n: nat,
                       name: seq<byte>, size: nat, l: LoadResult)
    requires Run(vs, actions, window) && m <= n <= |actions|
    requires Stores(vs[m], window, name, size, l)
    ensures Stores(vs[n], window, name, size, l)
  {
    var p := (v: Vol) => Stores(v, window, name, size, l);
    forall v, a, v' | p(v) && Step(v, a, window, v')
      ensures p(v')
    {
      StepKeepsStores(v, a, window, v', name, size, l);
    }
    RunKeeps(vs, actions, window, m, n, p);
    assert p(vs[n]);
  }

  lemma StoredOpens(v: Vol, window: nat, name: seq<byte>, size: nat, l: LoadResult, slot: int)
    requires Stores(v, window, name, size, l) && Searchable(name) && 0 < size <= OPEN_LIMIT
    requires l.Loaded? ==> |l.bytes| <= BufferFor(size)
    requires l.Loaded? || l == LoadUnsafe
    ensures Listed(v.dir, name)
    ensures OpenFrom(v, v.dir, name, slot) == if l.Loaded? then Opened(FreshFile(slot, size, l.bytes)) else OpenUnsafe
  {
    ExistingIsListed(v, name);
  }

  // A file saved by step m of a run is found by an open after any later step n, which then
  // is safe exactly if the sectors of the file fit its buffer.
  lemma SavedFileOpens(vs: seq<Vol>, actions: seq<Action>, window: nat, m: nat, n: nat, slot: int)
    requires Run(vs, actions, window) && m < n <= |actions| && Consistent(vs[0], window)
    requires SavesFile(vs[m], actions[m])
    ensures var r := actions[m].request;
            && Listed(vs[n].dir, r.name[..NAME_SIZE])
            && 512 * r.sectors <= |r.data|
            && OpenFrom(vs[n], vs[n].dir, r.name[..NAME_SIZE], slot) == (
                 if 512 * r.sectors <= BufferFor(r.size) then Opened(FreshFile(slot, r.size, r.data[..512 * r.sectors]))
                 else OpenUnsafe)
  {
    var r := actions[m].request;
    FileSavesAs(vs[m], actions[m]);
    RunStores(vs, actions, window, m, n, r.name[..NAME_SIZE], LoadForOpen(r));
    hide Run, SavesAs, Stores, OpenFrom, Listed, Consistent;
    StoredOpens(vs[n], window, r.name[..NAME_SIZE], r.size, LoadForOpen(r), slot);
  }

  lemma RunStores(vs: seq<Vol>, actions: seq<Action>, window: nat, m: nat, n: nat, name: seq<byte>, l: LoadResult)
    requires Run(vs, actions, window) && m < n <= |actions| && Consistent(vs[0], window)
    requires SavesAs(vs[m], actions[m], name, l)
    ensures Stores(vs[n], window, name, actions[m].request.size, l)
  {
    hide Run, Step, SavesAs, Stores, Consistent;
    RunKeepsConsistent(vs, actions, window, m);
    RunStep(vs, actions, window, m);
    SaveStores(vs[m], actions[m], window, vs[m + 1], name, l);
    RunKeepsStores(vs, actions, window, m + 1, n, name, actions[m].request.size, l);
  }

  // ---------------------------------------------------------------- end to end

  // A file saved by step m of a run and opened after any later step n is read back as it was saved,
  // exactly if its buffer is within the limit of the buffered read.
  lemma SavedBytesAreRead(vs: seq<Vol>, actions: seq<Action>, window: nat, m: nat, n: nat,
                          slot: int, counts: seq<int>, next: int)
    requires Run(vs, actions, window) && m < n <= |actions| && Consistent(vs[0], window)
    requires SavesFile(vs[m], actions[m])
    requires 512 * actions[m].request.sectors <= BufferFor(actions[m].request.size)
    requires ProperCounts(counts, BufferFor(actions[m].request.size)) && 1 <= next <= BufferFor(actions[m].request.size)
    ensures var r := actions[m].request;
            var answer := OpenFrom(vs[n], vs[n].dir, r.name[..NAME_SIZE], slot);
            && Listed(vs[n].dir, r.name[..NAME_SIZE])
            && answer.Opened? && Readable(answer.file)
            && r.size <= |r.data|
            && (ReadsBack(answer.file, r.data[..r.size], counts, next) <==> BufferFor(r.size) <= READ_LIMIT)
  {
    SavedFileOpens(vs, actions, window, m, n, slot);
    var r := actions[m].request;
    hide OpenFrom, Run, Consistent, FreshFile, ReadsBack, Listed;
    FreshFileReadsIff(slot, r.size, r.data[..512 * r.sectors], counts, next);
    assert r.data[..512 * r.sectors][..r.size] == r.data[..r.size];
  }

  // A path that spells a dotted name is sought under the 11 bytes of the name.
  lemma DottedPath(base: seq<byte>, ext: seq<byte>, rest: seq<byte>, slash: bool)
    requires IsBase(base) && IsExtension(ext) && |base| + |ext| + |rest| >= 10
    requires base[0] != SLASH && base[0] != AT && base[0] != HASH
    ensures var path := (if slash then [SLASH] else []) + Dotted(base, ext, rest);
            && PlaceOf(path) == RootDir
            && NameFits(NamePart(path))
            && SoughtName(path) == EntryName(base, ext)
  {
    var path := (if slash then [SLASH] else []) + Dotted(base, ext, rest);
    assert WithoutSlash(path) == Dotted(base, ext, rest);
    DottedConverts(base, ext, rest, Blanks3());
  }

  // ... which directory searches accept, so a file saved under them is the one that the path opens.
  lemma DottedNameIsSearchable(base: seq<byte>, ext: seq<byte>)
    requires IsBase(base) && IsExtension(ext) && base[0] != SLASH && base[0] != DELETED
    ensures Searchable(EntryName(base, ext))
  {
    assert EntryName(base, ext)[0] == Upper(base[0]);
  }

  // End to end by name: what is saved under the 11 bytes of a dotted name is what the dotted path opens and reads.
  lemma DottedFileIsRead(vs: seq<Vol>, actions: seq<Action>, window: nat, m: nat, n: nat, slot: int, counts: seq<int>, next: int,
                         base: seq<byte>, ext: seq<byte>, rest: seq<byte>, slash: bool)
    requires Run(vs, actions, window) && m < n <= |actions| && Consistent(vs[0], window)
    requires SavesFile(vs[m], actions[m])
    requires 512 * actions[m].request.sectors <= BufferFor(actions[m].request.size) <= READ_LIMIT
    requires ProperCounts(counts, BufferFor(actions[m].request.size)) && 1 <= next <= BufferFor(actions[m].request.size)
    requires IsBase(base) && IsExtension(ext) && |base| + |ext| + |rest| >= 10
    requires base[0] != SLASH && base[0] != AT && base[0] != HASH
    requires actions[m].request.name[..NAME_SIZE] == EntryName(base, ext)
    ensures var r, path := actions[m].request, (if slash then [SLASH] else []) + Dotted(base, ext, rest);
            && PlaceOf(path) == RootDir && NameFits(NamePart(path))
            && Listed(vs[n].dir, SoughtName(path))
            && var answer := OpenFrom(vs[n], vs[n].dir, SoughtName(path), slot);
            && answer.Opened? && Readable(answer.file) && r.size <= |r.data|
            && ReadsBack(answer.file, r.data[..r.size], counts, next)
  {
    hide Run, Consistent, SavesFile, OpenFrom, ReadsBack, Listed, PlaceOf, NamePart, SoughtName, Dotted;
    DottedPath(base, ext, rest, slash);
    SavedBytesAreRead(vs, actions, window, m, n, slot, counts, next);
  }

  // A name that was converted twice is found by no search and loaded from no directory.
  lemma SecondConversionIsRejected(base: seq<byte>, ext: seq<byte>, rest: seq<byte>, v: Vol, dir: DirImage, slot: int, bufferSize: nat)
    requires IsBase(base) && IsExtension(ext) && |rest| >= 3
    ensures NameFits(EntryName(base, ext) + [NUL] + rest)
    ensures var name := Converted(EntryName(base, ext) + [NUL] + rest, Blanks3());
            && !Listed(dir, name) && OpenFrom(v, dir, name, slot) == Refused
            && !Locate(dir, ROOT_ENTRIES, name, bufferSize).Located?
  {
    SecondConversionGrows(base, ext, rest, Blanks3());
  }

  // ---------------------------------------------------------------- larger files

  // Opening an entry with a proper chain is safe exactly when the whole clusters fit the buffer,
  // which is BUFSIZ bytes for small files and eight more than the size for larger ones.
  lemma OpenFitsIff(v: Vol, name: seq<byte>, k: nat, w: seq<ushort>, slot: int)
    requires 0 < |name| <= NAME_SIZE && Find(v.dir, name) == Some(k) && k < ROOT_ENTRIES
    requires 1 <= FirstCluster(v.dir, k) <= MAX_CLUSTER && TrailOf(v.fat, FirstCluster(v.dir, k)) == Trail(w, EndOfChain)
    requires 0 < SizeOf(v.dir, k) <= OPEN_LIMIT && |w| / 2 <= IMAGESIZE_LIMIT_IN_KB
    ensures OpenFrom(v, v.dir, name, slot) != OpenUnsafe <==> 512 * |w| <= BufferFor(SizeOf(v.dir, k))
    ensures 512 * |w| <= BufferFor(SizeOf(v.dir, k))
        ==> OpenFrom(v, v.dir, name, slot) == Opened(FreshFile(slot, SizeOf(v.dir, k), ReadClusters(v.disk, w)))
  {
    var n := BufferFor(SizeOf(v.dir, k));
    assert Locate(v.dir, ROOT_ENTRIES, name, n) == Located(FirstCluster(v.dir, k));
  }

  // With as few clusters as the size needs, that is: below BUFSIZ always, above only when
  // at most eight bytes of the last cluster are unused.
  lemma MinimalChainFitsIff(size: nat, n: nat)
    requires 0 < size && 512 * (n - 1) < size <= 512 * n
    ensures 512 * n <= BufferFor(size) <==> size < BUFSIZ || 512 * n - size <= 8
  {
  }

  // A save whose sectors the buffer of an open does not take: three sectors for 1025 bytes.
  lemma SavedFileOverruns(vs: seq<Vol>, actions: seq<Action>, window: nat, slot: int)
    requires Run(vs, actions, window) && |actions| == 1 && Consistent(vs[0], window)
    requires SavesFile(vs[0], actions[0]) && actions[0].request.sectors == 3 && actions[0].request.size == 1025
    ensures OpenFrom(vs[1], vs[1].dir, actions[0].request.name[..NAME_SIZE], slot) == OpenUnsafe
  {
    SavedFileOpens(vs, actions, window, 0, 1, slot);
  }

  // Such saves succeed, for instance on an empty volume with four free clusters.
  lemma OverrunHappens(v: Vol, r: SaveRequest, window: nat)
    requires v.dir == seq(16384, i => 0) && WindowFits(v.fat, window) && |FreeSet(v.fat, 3, 3 + window)| >= 4
    requires Callable(r) && r.sectors == 3 && r.size == 1025 && r.dirEntries == ROOT_ENTRIES
    requires r.flag == FILE_FLAG && Searchable(r.name[..NAME_SIZE])
    ensures SaveOutcome(v, r, window) == Saved && SavesFile(v, Action(r, Saved))
  {
    FreeClustersCount(v.fat, 3, 3 + window);
    var name := r.name[..NAME_SIZE];
    FindFromSound(v.dir, name, 0);
  }
}
