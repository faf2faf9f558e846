// Files anywhere in the directory tree: a save leaves every path that resolves resolving to the same bytes, over
// every run, and what a save puts into the root directory is found by its path.
module TreeTheorems {
  import opened Bytes
  import opened FatTable
  import opened Directory
  import opened Volume
  import opened VolumeTheorems
  import opened PathWalk
  import opened PathTheorems

  // ---------------------------------------------------------------- what a lookup meets

  // The name that a lookup starts with.
  function FirstName(dirs: seq<seq<byte>>, base: seq<byte>, ext: seq<byte>): (n: seq<byte>)
    ensures |n| == NAME_SIZE
  {
    if dirs == [] then PadFile(base, ext) else PadDir(dirs[0])
  }

  // The file or directory that entry k stands for has its bytes in the data area.
  ghost predicate EntrySound(fat: Fat, content: seq<byte>, k: nat)
    requires 32 * k + 32 <= |content|
  {
    InDataArea(TrailOf(fat, FirstCluster(content, k)).clusters)
  }

  // So do all directories on the way, and the file.
  ghost predicate WaySound(fat: Fat, disk: Disk, content: seq<byte>, dirs: seq<seq<byte>>, base: seq<byte>, ext: seq<byte>)
    decreases |dirs|
  {
    match FirstEntry(content, FirstName(dirs, base, ext), 0)
    case None => true
    case Some(k) =>
      EntrySound(fat, content, k) &&
      (dirs == [] ||
       match FileAt(fat, disk, content, k)
       case None => true
       case Some(d) => WaySound(fat, disk, d.bytes, dirs[1..], base, ext))
  }

  // The path names this file, and no cluster on its way lies in the root directory region, which saves rewrite.
  ghost predicate Stands(v: Vol, dirs: seq<seq<byte>>, base: seq<byte>, ext: seq<byte>, f: File) {
    && Resolve(v.fat, v.disk, v.dir, dirs, base, ext) == Some(f)
    && WaySound(v.fat, v.disk, v.dir, dirs, base, ext)
  }

  // ---------------------------------------------------------------- one save

  // Table and data area after a save that took the clusters w.
  ghost predicate TakenBy(fat: Fat, disk: Disk, w: seq<ushort>, data: seq<byte>, fat': Fat, disk': Disk) {
    FreshClusters(fat, w) && Linked(fat, w, fat') && DataWritten(disk, w, data, disk')
  }

  lemma FileAtKept(fat: Fat, disk: Disk, w: seq<ushort>, data: seq<byte>, fat': Fat, disk': Disk, content: seq<byte>, k: nat)
    requires TakenBy(fat, disk, w, data, fat', disk')
    requires 32 * k + 32 <= |content| && FileAt(fat, disk, content, k).Some? && EntrySound(fat, content, k)
    ensures FileAt(fat', disk', content, k) == FileAt(fat, disk, content, k) && EntrySound(fat', content, k)
  {
    var first := FirstCluster(content, k);
    ChainSurvives(fat, w, fat', first);
    NewChain(fat, w, fat');
    BytesSurvive(disk, disk', w, data, TrailOf(fat, first).clusters);
  }

  // Below the root directory the contents of the directories themselves are kept.
  lemma {:induction false} LookupKept(fat: Fat, disk: Disk, w: seq<ushort>, data: seq<byte>, fat': Fat, disk': Disk,
                                      content: seq<byte>, dirs: seq<seq<byte>>, base: seq<byte>, ext: seq<byte>)
    requires TakenBy(fat, disk, w, data, fat', disk')
    requires Resolve(fat, disk, content, dirs, base, ext).Some? && WaySound(fat, disk, content, dirs, base, ext)
    ensures Resolve(fat', disk', content, dirs, base, ext) == Resolve(fat, disk, content, dirs, base, ext)
    ensures WaySound(fat', disk', content, dirs, base, ext)
    decreases |dirs|
  {
    hide TakenBy, EntrySound, FileAt, PadFile, PadDir, FirstEntry;
    var k := FirstEntry(content, FirstName(dirs, base, ext), 0).value;
    FileAtKept(fat, disk, w, data, fat', disk', content, k);
    if dirs != [] {
      LookupKept(fat, disk, w, data, fat', disk', FileAt(fat, disk, content, k).value.bytes, dirs[1..], base, ext);
    }
  }

  // The root directory is searched as a buffer is.
  lemma RootEntry(dir: DirImage, name: seq<byte>)
    requires |name| <= NAME_SIZE
    ensures FirstEntry(dir, name, 0) == Find(dir, name)
  {
    assert Overlay(dir, dir) == dir;
    SearchOverlay(dir, dir, name);
  }

  // An entry with the name; the new one goes to an unused slot behind it.
  lemma RootEntryKept(v: Vol, r: SaveRequest, w: seq<ushort>, k: nat, v': Vol, name: seq<byte>, m: nat)
    requires Extended(v, r, w, k, v') && Packed(v.dir)
    requires |name| == NAME_SIZE && name[0] != 0 && FirstEntry(v.dir, name, 0) == Some(m)
    requires FileAt(v.fat, v.disk, v.dir, m).Some? && EntrySound(v.fat, v.dir, m)
    ensures FirstEntry(v'.dir, name, 0) == Some(m)
    ensures FileAt(v'.fat, v'.disk, v'.dir, m) == FileAt(v.fat, v.disk, v.dir, m) && EntrySound(v'.fat, v'.dir, m)
  {
    FirstEntrySound(v.dir, name, 0);
    assert FirstByte(v.dir, m) == name[0];
    RootEntry(v.dir, name);
    OldNameFound(v, r, w, k, v', name);
    RootEntry(v'.dir, name);
    EntryFrame(v, r, w, k, v', m);
  }

  lemma ExtendedKeepsPaths(v: Vol, r: SaveRequest, w: seq<ushort>, k: nat, v': Vol,
                           dirs: seq<seq<byte>>, base: seq<byte>, ext: seq<byte>, f: File)
    requires Extended(v, r, w, k, v') && Packed(v.dir)
    requires FirstName(dirs, base, ext)[0] != 0 && Stands(v, dirs, base, ext, f)
    ensures Stands(v', dirs, base, ext, f)
  {
    hide EntrySound, FileAt, PadFile, PadDir, FirstEntry;
    var m := FirstEntry(v.dir, FirstName(dirs, base, ext), 0).value;
    RootEntryKept(v, r, w, k, v', FirstName(dirs, base, ext), m);
    if dirs != [] {
      assert TakenBy(v.fat, v.disk, w, r.data, v'.fat, v'.disk);
      LookupKept(v.fat, v.disk, w, r.data, v'.fat, v'.disk, FileAt(v.fat, v.disk, v.dir, m).value.bytes, dirs[1..], base, ext);
    }
  }

  // Frame, by path: a path that names a file names the same file, with the same bytes, after any save.
  lemma SaveKeepsPaths(v: Vol, r: SaveRequest, window: nat, status: SaveStatus, v': Vol,
                       dirs: seq<seq<byte>>, base: seq<byte>, ext: seq<byte>, f: File)
    requires Callable(r) && Consistent(v, window)
    requires SaveStep(v, r, window, status, v')
    requires FirstName(dirs, base, ext)[0] != 0 && Stands(v, dirs, base, ext, f)
    ensures Stands(v', dirs, base, ext, f)
  {
    if status == Saved {
      SavedMeansExtended(v, r, window, v');
      ExtendedKeepsPaths(v, r, ChosenClusters(v.fat, window, r.sectors), FindEmpty(v.dir, r.dirEntries).value, v',
                         dirs, base, ext, f);
    }
  }

  // ---------------------------------------------------------------- runs

  ghost predicate StandsOn(v: Vol, window: nat, dirs: seq<seq<byte>>, base: seq<byte>, ext: seq<byte>, f: File) {
    Consistent(v, window) && Stands(v, dirs, base, ext, f)
  }

  lemma RunKeepsPaths(vs: seq<Vol>, actions: seq<Action>, window: nat, m: nat, n: nat,
                      dirs: seq<seq<byte>>, base: seq<byte>, ext: seq<byte>, f: File)
    requires Run(vs, actions, window) && m <= n <= |actions|
    requires Consistent(vs[m], window)
    requires FirstName(dirs, base, ext)[0] != 0 && Stands(vs[m], dirs, base, ext, f)
    ensures Stands(vs[n], dirs, base, ext, f)
  {
    var p := (v: Vol) => StandsOn(v, window, dirs, base, ext, f);
    forall v, a, v' | p(v) && Step(v, a, window, v')
      ensures p(v')
    {
      SaveKeepsConsistent(v, a.request, window, a.status, v');
      SaveKeepsPaths(v, a.request, window, a.status, v', dirs, base, ext, f);
    }
    RunKeeps(vs, actions, window, m, n, p);
    assert p(vs[n]);
  }

  // The path as the walk reads it starts its first search with one of its own characters.
  lemma SpelledStart(path: seq<byte>, dirs: seq<seq<byte>>, base: seq<byte>, ext: seq<byte>)
    requires CString(path) && WellFormed(dirs, base, ext) && Spells(path, 0, dirs, base, ext)
    ensures FirstName(dirs, base, ext)[0] != 0
  {
    var levels := AllNamed(dirs);
    if levels == [] {
      assert base[0] == path[1 + 0];
    } else {
      assert ProperLevel(levels[0]);
      assert levels[0].name[0] == path[1 + 0];
    }
  }

  // A path that names a file at some point of a run loads the same bytes at every later point, whatever the directory
  // buffers hold by then.
  lemma PathLoadsLater(vs: seq<Vol>, actions: seq<Action>, window: nat, m: nat, n: nat, path: seq<byte>,
                       dirs: seq<seq<byte>>, base: seq<byte>, ext: seq<byte>, f: File,
                       stale: seq<DirImage>, capacity: nat, bufferSize: nat)
    requires Run(vs, actions, window) && m <= n <= |actions| && Consistent(vs[m], window)
    requires CString(path) && WellFormed(dirs, base, ext) && Spells(path, 0, dirs, base, ext)
    requires Stands(vs[m], dirs, base, ext, f)
    requires |stale| == N_BUFFERS && Fits(f, capacity, bufferSize % 0x1_0000_0000)
    ensures PathOutcome(vs[n].fat, vs[n].disk, vs[n].dir, stale, path, capacity, bufferSize) == PathLoaded(f.bytes)
  {
    hide Resolve, PathOutcome, WaySound, FirstName;
    SpelledStart(path, dirs, base, ext);
    RunKeepsPaths(vs, actions, window, m, n, dirs, base, ext, f);
    LoadPathResolves(vs[n].fat, vs[n].disk, vs[n].dir, stale, path, dirs, base, ext, f, capacity, bufferSize);
  }

  // ---------------------------------------------------------------- from a save to a path

  // The file that a save makes of a request.
  function SavedFile(r: SaveRequest): File
    requires Callable(r) && r.sectors <= MAX_SECTORS
  {
    File(StoredSize(r.size, r.flag), r.data[..512 * r.sectors])
  }

  lemma SavedStands(v: Vol, r: SaveRequest, window: nat, v': Vol, base: seq<byte>, ext: seq<byte>)
    requires Callable(r) && WindowFits(v.fat, window)
    requires SaveStep(v, r, window, Saved, v')
    requires StoredName(r.name, r.flag) == PadFile(base, ext) && Find(v.dir, PadFile(base, ext)).None?
    ensures r.sectors <= MAX_SECTORS && Stands(v', [], base, ext, SavedFile(r))
  {
    var k := FindEmpty(v.dir, r.dirEntries).value;
    var w := ChosenClusters(v.fat, window, r.sectors);
    SavedMeansExtended(v, r, window, v');
    AddedEntry(v, r, w, k, v');
    NewNameFound(v, r, w, k, v');
    NewChain(v.fat, w, v'.fat);
    RootEntry(v'.dir, PadFile(base, ext));
  }

  // A file saved in the root directory under the 8.3 form of base.ext by step m of a run is loaded by /base.ext
  // after any later step, byte for byte.
  lemma SavedFileHasPath(vs: seq<Vol>, actions: seq<Action>, window: nat, m: nat, n: nat, r: SaveRequest,
                         path: seq<byte>, base: seq<byte>, ext: seq<byte>,
                         stale: seq<DirImage>, capacity: nat, bufferSize: nat)
    requires Run(vs, actions, window) && m < n <= |actions| && Consistent(vs[0], window)
    requires actions[m] == Action(r, Saved) && Callable(r)
    requires StoredName(r.name, r.flag) == PadFile(base, ext) && Find(vs[m].dir, PadFile(base, ext)).None?
    requires CString(path) && WellFormed([], base, ext) && Spells(path, 0, [], base, ext)
    requires |stale| == N_BUFFERS && 512 * r.sectors <= capacity
    requires StoredSize(r.size, r.flag) < bufferSize <= MAX_LOAD_BYTES
    ensures 512 * r.sectors <= |r.data|
    ensures PathOutcome(vs[n].fat, vs[n].disk, vs[n].dir, stale, path, capacity, bufferSize)
         == PathLoaded(r.data[..512 * r.sectors])
  {
    hide Run, Consistent, SaveStep, PathOutcome, Stands, PadFile, StoredName, StoredSize, WellFormed, Spells;
    SavedStep(vs, actions, window, m, r);
    RunKeepsConsistent(vs, actions, window, m + 1);
    SavedStands(vs[m], r, window, vs[m + 1], base, ext);
    PathLoadsLater(vs, actions, window, m + 1, n, path, [], base, ext, SavedFile(r), stale, capacity, bufferSize);
  }
}
