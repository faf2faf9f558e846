// What fsSaveFile keeps and what fsLoadFile finds again, over every run of saves.
module VolumeTheorems {
  import opened Bytes
  import opened FatTable
  import opened Directory
  import opened Volume

  // ---------------------------------------------------------------- the file-system invariant

  ghost function ChainOf(v: Vol, k: nat): seq<ushort>
    requires k < ROOT_ENTRIES
  {
    TrailOf(v.fat, FirstCluster(v.dir, k)).clusters
  }

  // All clusters lie in the data area, behind the root directory.
  ghost predicate InDataArea(w: seq<ushort>) {
    forall i :: 0 <= i < |w| ==> w[i] >= 2
  }

  // The chain of entry k starts in range and ends in an end marker.
  ghost predicate OwnsChain(v: Vol, k: nat)
    requires k < ROOT_ENTRIES
  {
    TrailOf(v.fat, FirstCluster(v.dir, k)).stop == EndOfChain && InDataArea(ChainOf(v, k))
  }

  ghost predicate DisjointChains(a: seq<ushort>, b: seq<ushort>) {
    forall i, j :: 0 <= i < |a| && 0 <= j < |b| ==> a[i] != b[j]
  }

  ghost predicate Consistent(v: Vol, window: nat) {
    && WindowFits(v.fat, window)
    && RootOnDisk(v.disk, v.dir)
    && Packed(v.dir)
    && (forall k :: 0 <= k < ROOT_ENTRIES && Live(v.dir, k) ==> OwnsChain(v, k))
    && (forall k, m :: 0 <= k < m < ROOT_ENTRIES && Live(v.dir, k) && Live(v.dir, m)
          ==> DisjointChains(ChainOf(v, k), ChainOf(v, m)))
  }

  // An empty directory on a blank disk is consistent, whatever the table holds.
  lemma FormattedIsConsistent(fat: Fat, window: nat)
    requires WindowFits(fat, window)
    ensures Consistent(Vol(fat, seq(16384, i => 0), map[]), window)
  {
    var v := Vol(fat, seq(16384, i => 0), map[]);
    forall i | 0 <= i < ROOTDIR_SECTORS
      ensures ReadLba(v.disk, RootLba(i)) == SectorAt(v.dir, i)
    {
    }
  }

  // A trail that ends well is an acyclic chain.
  lemma OwnedChainIsAcyclic(v: Vol, k: nat)
    requires k < ROOT_ENTRIES && OwnsChain(v, k)
    ensures IsChain(v.fat, ChainOf(v, k)) && ChainOf(v, k)[0] == FirstCluster(v.dir, k)
    ensures Distinct(ChainOf(v, k)) && |ChainOf(v, k)| <= |v.fat|
  {
    FollowedIsChain(v.fat, FirstCluster(v.dir, k), |v.fat| + 1);
    ChainTrail(v.fat, ChainOf(v, k));
  }

  // ---------------------------------------------------------------- one save

  // The clusters of a new chain: distinct, in the data area, free before.
  ghost predicate FreshClusters(fat: Fat, w: seq<ushort>) {
    && |w| > 0
    && Distinct(w)
    && forall i :: 0 <= i < |w| ==> 3 <= w[i] <= MAX_CLUSTER && w[i] < |fat| && fat[w[i]] == 0
  }

  // What a successful save amounts to: a fresh chain w and the first unused slot k.
  ghost predicate Extended(v: Vol, r: SaveRequest, w: seq<ushort>, k: nat, v': Vol) {
    && Callable(r) && r.name[0] != 0
    && |w| == r.sectors <= MAX_SECTORS
    && FreshClusters(v.fat, w)
    && k < ROOT_ENTRIES
    && FirstByte(v.dir, k) == 0
    && (forall i :: 0 <= i < k ==> FirstByte(v.dir, i) != 0)
    && Stored(v, r, w, k, v')
  }

  lemma SavedMeansExtended(v: Vol, r: SaveRequest, window: nat, v': Vol)
    requires Callable(r) && WindowFits(v.fat, window)
    requires SaveStep(v, r, window, Saved, v')
    ensures Extended(v, r, ChosenClusters(v.fat, window, r.sectors), FindEmpty(v.dir, r.dirEntries).value, v')
  {
    ChosenAreFree(v.fat, window, r.sectors);
    assert Stored(v, r, ChosenClusters(v.fat, window, r.sectors), FindEmpty(v.dir, r.dirEntries).value, v');
  }

  // The new clusters form one chain.
  lemma NewChain(fat: Fat, w: seq<ushort>, fat': Fat)
    requires FreshClusters(fat, w) && Linked(fat, w, fat')
    ensures IsChain(fat', w) && InDataArea(w)
    ensures TrailOf(fat', w[0]) == Trail(w, EndOfChain)
  {
    ChainTrail(fat', w);
  }

  // Only table entries that were 0 are rewritten, so an existing chain is followed exactly as before.
  lemma ChainSurvives(fat: Fat, w: seq<ushort>, fat': Fat, first: ushort)
    requires FreshClusters(fat, w) && Linked(fat, w, fat')
    requires TrailOf(fat, first).stop == EndOfChain
    ensures TrailOf(fat', first) == TrailOf(fat, first)
    ensures DisjointChains(TrailOf(fat, first).clusters, w)
  {
    var w0 := TrailOf(fat, first).clusters;
    FollowedIsChain(fat, first, |fat| + 1);
    ChainFrame(fat, fat', w0);
    ChainTrail(fat', w0);
  }

  // ... and holds the same bytes.
  lemma BytesSurvive(disk: Disk, disk': Disk, chain: seq<ushort>, data: seq<byte>, w: seq<ushort>)
    requires DataWritten(disk, chain, data, disk')
    requires InDataArea(w) && InDataArea(chain) && DisjointChains(w, chain)
    ensures ReadClusters(disk', w) == ReadClusters(disk, w)
  {
    forall i | 0 <= i < |w|
      ensures ReadLba(disk', ClusterLba(w[i])) == ReadLba(disk, ClusterLba(w[i]))
    {
      assert !InRootRegion(ClusterLba(w[i])) && !HoldsCluster(chain, |chain|, ClusterLba(w[i]));
    }
  }

  // What the new chain holds is the data.
  lemma BytesWritten(disk: Disk, disk': Disk, chain: seq<ushort>, data: seq<byte>)
    requires DataWritten(disk, chain, data, disk')
    ensures ReadClusters(disk', chain) == data[..512 * |chain|]
  {
    var bytes := ReadClusters(disk', chain);
    forall i | 0 <= i < |bytes|
      ensures bytes[i] == data[i]
    {
      var k := i / 512;
      assert bytes[i] == SectorAt(data, k)[i % 512] == data[512 * k + i % 512];
    }
  }

  // Frame, entry by entry: a save leaves every other entry, its chain and its bytes as they were.
  lemma EntryFrame(v: Vol, r: SaveRequest, w: seq<ushort>, k: nat, v': Vol, m: nat)
    requires Extended(v, r, w, k, v')
    requires m < ROOT_ENTRIES && m != k
    ensures forall i :: 32 * m <= i < 32 * m + 32 ==> v'.dir[i] == v.dir[i]
    ensures Live(v'.dir, m) == Live(v.dir, m)
    ensures FirstCluster(v'.dir, m) == FirstCluster(v.dir, m) && SizeOf(v'.dir, m) == SizeOf(v.dir, m)
    ensures OwnsChain(v, m) ==>
              && OwnsChain(v', m) && ChainOf(v', m) == ChainOf(v, m)
              && DisjointChains(ChainOf(v, m), w)
              && ReadClusters(v'.disk, ChainOf(v', m)) == ReadClusters(v.disk, ChainOf(v, m))
  {
    PutEntryFrame(v.dir, k, NewEntry(FieldsOf(r, w[0])), m);
    if OwnsChain(v, m) {
      ChainSurvives(v.fat, w, v'.fat, FirstCluster(v.dir, m));
      BytesSurvive(v.disk, v'.disk, w, r.data, ChainOf(v, m));
    }
  }

  // Clusters 0 and 1 lie in the root directory region. So a chain keeps its bytes exactly if it does not run through
  // the directory sector that takes the new entry.
  lemma BytesKeptIff(v: Vol, r: SaveRequest, w: seq<ushort>, k: nat, v': Vol, chain: seq<ushort>)
    requires Extended(v, r, w, k, v') && RootOnDisk(v.disk, v.dir)
    requires DisjointChains(chain, w)
    ensures ReadClusters(v'.disk, chain) == ReadClusters(v.disk, chain)
       <==> forall i :: 0 <= i < |chain| ==> ClusterLba(chain[i]) != RootLba(k / 16)
  {
    hide Extended, DisjointChains, RootOnDisk;
    forall i | 0 <= i < |chain|
      ensures ReadLba(v'.disk, ClusterLba(chain[i])) == ReadLba(v.disk, ClusterLba(chain[i]))
         <==> ClusterLba(chain[i]) != RootLba(k / 16)
    {
      SectorKeptIff(v, r, w, k, v', chain, i);
    }
    SameClustersIff(v.disk, v'.disk, chain);
  }

  lemma SectorKeptIff(v: Vol, r: SaveRequest, w: seq<ushort>, k: nat, v': Vol, chain: seq<ushort>, i: nat)
    requires Extended(v, r, w, k, v') && RootOnDisk(v.disk, v.dir)
    requires DisjointChains(chain, w) && i < |chain|
    ensures ReadLba(v'.disk, ClusterLba(chain[i])) == ReadLba(v.disk, ClusterLba(chain[i]))
       <==> ClusterLba(chain[i]) != RootLba(k / 16)
  {
    var lba := ClusterLba(chain[i]);
    if InRootRegion(lba) {
      var j := lba - ROOTDIR_LBA;
      assert ReadLba(v.disk, RootLba(j)) == SectorAt(v.dir, j) && ReadLba(v'.disk, RootLba(j)) == SectorAt(v'.dir, j);
      DirectorySectorIff(v.dir, k, NewEntry(FieldsOf(r, w[0])), j);
    } else {
      assert !HoldsCluster(w, |w|, lba);
    }
  }

  lemma DirectorySectorIff(dir: DirImage, k: nat, e: seq<byte>, j: nat)
    requires k < ROOT_ENTRIES && |e| == ENTRY_SIZE && e[0] != dir[32 * k] && j < ROOTDIR_SECTORS
    ensures SectorAt(PutEntry(dir, k, e), j) == SectorAt(dir, j) <==> j != k / 16
  {
    var before, after := SectorAt(dir, j), SectorAt(PutEntry(dir, k, e), j);
    if j == k / 16 {
      var i := 32 * (k % 16);
      assert 512 * j + i == 32 * k;
      assert after[i] == e[0] && before[i] == dir[32 * k];
    } else {
      assert before == after;
    }
  }

  lemma SameClustersIff(disk: Disk, disk': Disk, chain: seq<ushort>)
    ensures ReadClusters(disk', chain) == ReadClusters(disk, chain)
       <==> forall i :: 0 <= i < |chain| ==> ReadLba(disk', ClusterLba(chain[i])) == ReadLba(disk, ClusterLba(chain[i]))
  {
    var before, after := ReadClusters(disk, chain), ReadClusters(disk', chain);
    if before == after {
      forall i | 0 <= i < |chain|
        ensures ReadLba(disk', ClusterLba(chain[i])) == ReadLba(disk, ClusterLba(chain[i]))
      {
        var a, b := ReadLba(disk, ClusterLba(chain[i])), ReadLba(disk', ClusterLba(chain[i]));
        forall j | 0 <= j < 512
          ensures a[j] == b[j]
        {
          assert (512 * i + j) / 512 == i && (512 * i + j) % 512 == j;
          assert before[512 * i + j] == a[j] && after[512 * i + j] == b[j];
        }
      }
    }
  }

  // The entry that a save adds.
  lemma AddedEntry(v: Vol, r: SaveRequest, w: seq<ushort>, k: nat, v': Vol)
    requires Extended(v, r, w, k, v')
    ensures FirstCluster(v'.dir, k) == w[0] && SizeOf(v'.dir, k) == StoredSize(r.size, r.flag)
    ensures FirstByte(v'.dir, k) == r.name[0] && v'.dir[32 * k + 11] == r.flag
    ensures Matches(v'.dir, StoredName(r.name, r.flag), k)
    ensures OwnsChain(v', k) && ChainOf(v', k) == w
    ensures ReadClusters(v'.disk, w) == r.data[..512 * r.sectors]
  {
    PutEntryFields(v.dir, k, FieldsOf(r, w[0]));
    NewChain(v.fat, w, v'.fat);
    BytesWritten(v.disk, v'.disk, w, r.data);
  }

  lemma LiveAfterSave(v: Vol, r: SaveRequest, w: seq<ushort>, k: nat, v': Vol, m: nat)
    requires Extended(v, r, w, k, v')
    requires forall i :: 0 <= i < ROOT_ENTRIES && Live(v.dir, i) ==> OwnsChain(v, i)
    requires m < ROOT_ENTRIES && Live(v'.dir, m)
    ensures OwnsChain(v', m)
    ensures m != k ==> Live(v.dir, m) && ChainOf(v', m) == ChainOf(v, m) && DisjointChains(ChainOf(v', m), w)
    ensures m == k ==> ChainOf(v', m) == w
  {
    if m == k {
      AddedEntry(v, r, w, k, v');
    } else {
      EntryFrame(v, r, w, k, v', m);
    }
  }

  lemma ExtendedKeepsChains(v: Vol, r: SaveRequest, w: seq<ushort>, k: nat, v': Vol, window: nat)
    requires Consistent(v, window) && Extended(v, r, w, k, v')
    ensures forall m :: 0 <= m < ROOT_ENTRIES && Live(v'.dir, m) ==> OwnsChain(v', m)
    ensures forall m, n :: 0 <= m < n < ROOT_ENTRIES && Live(v'.dir, m) && Live(v'.dir, n)
              ==> DisjointChains(ChainOf(v', m), ChainOf(v', n))
  {
    forall m | 0 <= m < ROOT_ENTRIES && Live(v'.dir, m)
      ensures OwnsChain(v', m)
    {
      LiveAfterSave(v, r, w, k, v', m);
    }
    forall m, n | 0 <= m < n < ROOT_ENTRIES && Live(v'.dir, m) && Live(v'.dir, n)
      ensures DisjointChains(ChainOf(v', m), ChainOf(v', n))
    {
      LiveAfterSave(v, r, w, k, v', m);
      LiveAfterSave(v, r, w, k, v', n);
    }
  }

  // Every save, successful or not, keeps the file system consistent.
  lemma SaveKeepsConsistent(v: Vol, r: SaveRequest, window: nat, status: SaveStatus, v': Vol)
    requires Callable(r) && Consistent(v, window)
    requires SaveStep(v, r, window, status, v')
    ensures Consistent(v', window)
  {
    if status == Saved {
      var k := FindEmpty(v.dir, r.dirEntries).value;
      var w := ChosenClusters(v.fat, window, r.sectors);
      SavedMeansExtended(v, r, window, v');
      ExtendedKeepsChains(v, r, w, k, v', window);
      PutEntryPacked(v.dir, r.dirEntries, k, NewEntry(FieldsOf(r, w[0])));
    }
  }

  // ---------------------------------------------------------------- loading after a save

  function LoadByName(v: Vol, name: seq<byte>, capacity: nat, bufferSize: nat): LoadResult {
    LoadOutcome(v.fat, v.disk, v.dir, ROOT_ENTRIES, name, capacity, bufferSize)
  }

  // The name finds an entry in use whose chain is closed and lies in the data area: every live entry of a
  // consistent volume, and deleted ones, since no save gives back clusters.
  ghost predicate Existing(v: Vol, name: seq<byte>) {
    && |name| <= NAME_SIZE
    && Find(v.dir, name).Some?
    && FirstByte(v.dir, Find(v.dir, name).value) != 0
    && OwnsChain(v, Find(v.dir, name).value)
  }

  // A load sees only the first match, its size, its chain and the bytes of the chain.
  lemma SameLoad(v: Vol, v': Vol, name: seq<byte>, k: nat, capacity: nat, bufferSize: nat)
    requires |name| <= NAME_SIZE && k < ROOT_ENTRIES
    requires Find(v.dir, name) == Some(k) == Find(v'.dir, name)
    requires SizeOf(v'.dir, k) == SizeOf(v.dir, k) && FirstCluster(v'.dir, k) == FirstCluster(v.dir, k)
    requires TrailOf(v'.fat, FirstCluster(v.dir, k)) == TrailOf(v.fat, FirstCluster(v.dir, k))
    requires ReadClusters(v'.disk, ChainOf(v, k)) == ReadClusters(v.disk, ChainOf(v, k))
    ensures LoadByName(v', name, capacity, bufferSize) == LoadByName(v, name, capacity, bufferSize)
  {
  }

  lemma LoadOfFound(v: Vol, name: seq<byte>, k: nat, w: seq<ushort>, capacity: nat, bufferSize: nat)
    requires 0 < |name| <= NAME_SIZE && k < ROOT_ENTRIES && Find(v.dir, name) == Some(k)
    requires SizeOf(v.dir, k) < bufferSize <= MAX_LOAD_BYTES
    requires 1 <= FirstCluster(v.dir, k) <= MAX_CLUSTER
    requires TrailOf(v.fat, FirstCluster(v.dir, k)) == Trail(w, EndOfChain)
    requires |w| / 2 <= IMAGESIZE_LIMIT_IN_KB
    ensures LoadByName(v, name, capacity, bufferSize)
         == if 512 * |w| <= capacity then Loaded(ReadClusters(v.disk, w)) else LoadUnsafe
  {
    assert Locate(v.dir, ROOT_ENTRIES, name, bufferSize) == Located(FirstCluster(v.dir, k));
  }

  // A name found before the new slot is found there again.
  lemma OldNameFound(v: Vol, r: SaveRequest, w: seq<ushort>, k: nat, v': Vol, name: seq<byte>)
    requires Extended(v, r, w, k, v') && Packed(v.dir)
    requires |name| <= NAME_SIZE && Find(v.dir, name).Some?
    requires FirstByte(v.dir, Find(v.dir, name).value) != 0
    ensures Find(v'.dir, name) == Find(v.dir, name) && Find(v.dir, name).value < k
  {
    var m := Find(v.dir, name).value;
    assert m < k;
    PutEntryFindOld(v.dir, k, NewEntry(FieldsOf(r, w[0])), v'.dir, name, m);
  }

  // No entry up to slot k has the name.
  ghost predicate NewUpTo(dir: DirImage, name: seq<byte>, k: nat)
    requires |name| <= NAME_SIZE
  {
    Find(dir, name).None? || Find(dir, name).value > k
  }

  // A new name is found in the new slot.
  lemma NewNameFound(v: Vol, r: SaveRequest, w: seq<ushort>, k: nat, v': Vol)
    requires Extended(v, r, w, k, v')
    requires NewUpTo(v.dir, StoredName(r.name, r.flag), k)
    ensures Find(v'.dir, StoredName(r.name, r.flag)) == Some(k)
  {
    AddedEntry(v, r, w, k, v');
    PutEntryFindNew(v.dir, k, NewEntry(FieldsOf(r, w[0])), v'.dir, StoredName(r.name, r.flag));
  }

  // Frame, by name: whatever loading an existing file gives, it gives again after any save.
  lemma SaveKeepsOtherFiles(v: Vol, r: SaveRequest, window: nat, status: SaveStatus, v': Vol,
                            name: seq<byte>, capacity: nat, bufferSize: nat)
    requires Callable(r) && Consistent(v, window)
    requires SaveStep(v, r, window, status, v')
    requires Existing(v, name)
    ensures Existing(v', name)
    ensures LoadByName(v', name, capacity, bufferSize) == LoadByName(v, name, capacity, bufferSize)
  {
    if status == Saved {
      var k := FindEmpty(v.dir, r.dirEntries).value;
      var w := ChosenClusters(v.fat, window, r.sectors);
      SavedMeansExtended(v, r, window, v');
      OldNameFound(v, r, w, k, v', name);
      KeepsOtherFiles(v, r, w, k, v', name, capacity, bufferSize);
    }
  }

  // No more is needed than that the entry stands in front of the new one.
  lemma KeepsOtherFiles(v: Vol, r: SaveRequest, w: seq<ushort>, k: nat, v': Vol,
                        name: seq<byte>, capacity: nat, bufferSize: nat)
    requires Extended(v, r, w, k, v')
    requires Existing(v, name) && Find(v.dir, name).value < k
    ensures Existing(v', name) && FileSize(v'.dir, name) == FileSize(v.dir, name)
    ensures LoadByName(v', name, capacity, bufferSize) == LoadByName(v, name, capacity, bufferSize)
  {
    var m := Find(v.dir, name).value;
    PutEntryFindOld(v.dir, k, NewEntry(FieldsOf(r, w[0])), v'.dir, name, m);
    EntryFrame(v, r, w, k, v', m);
    ChainSurvives(v.fat, w, v'.fat, FirstCluster(v.dir, m));
    SameLoad(v, v', name, m, capacity, bufferSize);
  }

  // Round trip: what was saved under a new name is loaded under that name, into any buffer that takes its sectors;
  // into a smaller one the load is not safe.
  lemma SaveThenLoad(v: Vol, r: SaveRequest, window: nat, v': Vol, capacity: nat, bufferSize: nat)
    requires Callable(r) && WindowFits(v.fat, window)
    requires SaveStep(v, r, window, Saved, v')
    requires Find(v.dir, StoredName(r.name, r.flag)).None?
    requires StoredSize(r.size, r.flag) < bufferSize <= MAX_LOAD_BYTES
    ensures LoadByName(v', StoredName(r.name, r.flag), capacity, bufferSize)
         == if 512 * r.sectors <= capacity then Loaded(r.data[..512 * r.sectors]) else LoadUnsafe
  {
    var k := FindEmpty(v.dir, r.dirEntries).value;
    var w := ChosenClusters(v.fat, window, r.sectors);
    SavedMeansExtended(v, r, window, v');
    LoadOfNew(v, r, w, k, v', capacity, bufferSize);
  }

  lemma SizeOfNew(v: Vol, r: SaveRequest, w: seq<ushort>, k: nat, v': Vol)
    requires Extended(v, r, w, k, v')
    requires NewUpTo(v.dir, StoredName(r.name, r.flag), k)
    ensures FileSize(v'.dir, StoredName(r.name, r.flag)) == StoredSize(r.size, r.flag)
  {
    AddedEntry(v, r, w, k, v');
    NewNameFound(v, r, w, k, v');
  }

  lemma LoadOfNew(v: Vol, r: SaveRequest, w: seq<ushort>, k: nat, v': Vol, capacity: nat, bufferSize: nat)
    requires Extended(v, r, w, k, v')
    requires NewUpTo(v.dir, StoredName(r.name, r.flag), k)
    requires StoredSize(r.size, r.flag) < bufferSize <= MAX_LOAD_BYTES
    ensures LoadByName(v', StoredName(r.name, r.flag), capacity, bufferSize)
         == if 512 * r.sectors <= capacity then Loaded(r.data[..512 * r.sectors]) else LoadUnsafe
  {
    AddedEntry(v, r, w, k, v');
    NewNameFound(v, r, w, k, v');
    NewChain(v.fat, w, v'.fat);
    LoadOfFound(v', StoredName(r.name, r.flag), k, w, capacity, bufferSize);
  }

  // The size that fsGetFileSize reports: kept for an existing name, the stored one for a new name.
  lemma SizeAfterSave(v: Vol, r: SaveRequest, window: nat, status: SaveStatus, v': Vol, name: seq<byte>)
    requires Callable(r) && Consistent(v, window)
    requires SaveStep(v, r, window, status, v')
    ensures Existing(v, name) ==> FileSize(v'.dir, name) == FileSize(v.dir, name)
    ensures status == Saved && name == StoredName(r.name, r.flag) && Find(v.dir, name).None?
        ==> FileSize(v'.dir, name) == StoredSize(r.size, r.flag)
  {
    if status == Saved {
      var k := FindEmpty(v.dir, r.dirEntries).value;
      var w := ChosenClusters(v.fat, window, r.sectors);
      SavedMeansExtended(v, r, window, v');
      if Existing(v, name) {
        OldNameFound(v, r, w, k, v', name);
        EntryFrame(v, r, w, k, v', Find(v.dir, name).value);
      } else if name == StoredName(r.name, r.flag) && Find(v.dir, name).None? {
        SizeOfNew(v, r, w, k, v');
      }
    }
  }

  // A new name becomes an existing one.
  lemma SavedIsExisting(v: Vol, r: SaveRequest, window: nat, v': Vol)
    requires Callable(r) && WindowFits(v.fat, window)
    requires SaveStep(v, r, window, Saved, v')
    requires Find(v.dir, StoredName(r.name, r.flag)).None?
    ensures Existing(v', StoredName(r.name, r.flag))
  {
    var k := FindEmpty(v.dir, r.dirEntries).value;
    var w := ChosenClusters(v.fat, window, r.sectors);
    SavedMeansExtended(v, r, window, v');
    AddedEntry(v, r, w, k, v');
    NewNameFound(v, r, w, k, v');
  }

  // ---------------------------------------------------------------- runs

  datatype Action = Action(request: SaveRequest, status: SaveStatus)

  ghost predicate Step(v: Vol, a: Action, window: nat, v': Vol) {
    Callable(a.request) && WindowFits(v.fat, window) && SaveStep(v, a.request, window, a.status, v')
  }

  // vs[0] -> vs[1] -> ... by the given saves, successful or not.
  ghost predicate Run(vs: seq<Vol>, actions: seq<Action>, window: nat) {
    && |vs| == |actions| + 1
    && forall i :: 0 <= i < |actions| ==> Step(vs[i], actions[i], window, vs[i + 1])
  }

  lemma RunStep(vs: seq<Vol>, actions: seq<Action>, window: nat, m: nat)
    requires Run(vs, actions, window) && m < |actions|
    ensures |vs| == |actions| + 1 && Step(vs[m], actions[m], window, vs[m + 1])
  {
    hide Step;
  }

  lemma SavedStep(vs: seq<Vol>, actions: seq<Action>, window: nat, m: nat, r: SaveRequest)
    requires Run(vs, actions, window) && m < |actions| && actions[m] == Action(r, Saved)
    ensures |vs| == |actions| + 1 && Callable(r) && WindowFits(vs[m].fat, window)
    ensures SaveStep(vs[m], r, window, Saved, vs[m + 1]) && 512 * r.sectors <= |r.data|
  {
    hide Run, Stored;
    RunStep(vs, actions, window, m);
  }

  // What every save keeps holds along the rest of a run.
  lemma {:induction false} RunKeeps(vs: seq<Vol>, actions: seq<Action>, window: nat, m: nat, n: nat, p: Vol -> bool)
    requires Run(vs, actions, window) && m <= n <= |actions|
    requires p(vs[m])
    requires forall v, a, v' :: p(v) && Step(v, a, window, v') ==> p(v')
    ensures p(vs[n])
  {
    if m < n {
      RunKeeps(vs, actions, window, m, n - 1, p);
      assert Step(vs[n - 1], actions[n - 1], window, vs[n]);
    }
  }

  lemma RunKeepsConsistent(vs: seq<Vol>, actions: seq<Action>, window: nat, n: nat)
    requires Run(vs, actions, window) && n <= |actions|
    requires Consistent(vs[0], window)
    ensures Consistent(vs[n], window)
  {
    var p := (v: Vol) => Consistent(v, window);
    forall v, a, v' | p(v) && Step(v, a, window, v')
      ensures p(v')
    {
      SaveKeepsConsistent(v, a.request, window, a.status, v');
    }
    RunKeeps(vs, actions, window, 0, n, p);
  }

  ghost predicate LoadsAs(v: Vol, window: nat, name: seq<byte>, capacity: nat, bufferSize: nat, l: LoadResult) {
    Consistent(v, window) && Existing(v, name) && LoadByName(v, name, capacity, bufferSize) == l
  }

  lemma StepKeepsLoad(v: Vol, a: Action, window: nat, v': Vol,
                      name: seq<byte>, capacity: nat, bufferSize: nat, l: LoadResult)
    requires Step(v, a, window, v') && LoadsAs(v, window, name, capacity, bufferSize, l)
    ensures LoadsAs(v', window, name, capacity, bufferSize, l)
  {
    SaveKeepsConsistent(v, a.request, window, a.status, v');
    SaveKeepsOtherFiles(v, a.request, window, a.status, v', name, capacity, bufferSize);
  }

  // A file that exists at some point of a run is loaded alike at every later point.
  lemma RunKeepsFiles(vs: seq<Vol>, actions: seq<Action>, window: nat, m: nat, n: nat,
                      name: seq<byte>, capacity: nat, bufferSize: nat)
    requires Run(vs, actions, window) && m <= n <= |actions|
    requires Consistent(vs[m], window) && Existing(vs[m], name)
    ensures Existing(vs[n], name)
    ensures LoadByName(vs[n], name, capacity, bufferSize) == LoadByName(vs[m], name, capacity, bufferSize)
  {
    var l := LoadByName(vs[m], name, capacity, bufferSize);
    var p := (v: Vol) => LoadsAs(v, window, name, capacity, bufferSize, l);
    forall v, a, v' | p(v) && Step(v, a, window, v')
      ensures p(v')
    {
      StepKeepsLoad(v, a, window, v', name, capacity, bufferSize, l);
    }
    RunKeeps(vs, actions, window, m, n, p);
    assert p(vs[n]);
  }

  // A file saved under a new name by step m of a run is loaded unchanged after any later step.
  lemma SavedFileLasts(vs: seq<Vol>, actions: seq<Action>, window: nat, m: nat, n: nat,
                       r: SaveRequest, capacity: nat, bufferSize: nat)
    requires Run(vs, actions, window) && m < n <= |actions|
    requires Consistent(vs[0], window)
    requires actions[m] == Action(r, Saved)
    requires Callable(r)
    requires Find(vs[m].dir, StoredName(r.name, r.flag)).None?
    requires 512 * r.sectors <= capacity
    requires StoredSize(r.size, r.flag) < bufferSize <= MAX_LOAD_BYTES
    ensures 512 * r.sectors <= |r.data|
    ensures LoadByName(vs[n], StoredName(r.name, r.flag), capacity, bufferSize) == Loaded(r.data[..512 * r.sectors])
  {
    hide Run, Consistent, SaveStep, Existing, LoadByName, StoredName, StoredSize;
    SavedStep(vs, actions, window, m, r);
    RunKeepsConsistent(vs, actions, window, m + 1);
    SavedIsExisting(vs[m], r, window, vs[m + 1]);
    SaveThenLoad(vs[m], r, window, vs[m + 1], capacity, bufferSize);
    RunKeepsFiles(vs, actions, window, m + 1, n, StoredName(r.name, r.flag), capacity, bufferSize);
  }

  // On a consistent volume the cluster loop of a load always ends, after |chain| reads,
  // with a result: it leaves neither the table nor a buffer of that many sectors.
  lemma LoadEnds(v: Vol, window: nat, name: seq<byte>, capacity: nat, bufferSize: nat)
    requires Consistent(v, window) && |name| <= NAME_SIZE
    requires Find(v.dir, name).Some? && Live(v.dir, Find(v.dir, name).value)
    requires 512 * |ChainOf(v, Find(v.dir, name).value)| <= capacity
    ensures LoadByName(v, name, capacity, bufferSize) != LoadUnsafe
    ensures LoadByName(v, name, capacity, bufferSize).Loaded?
        ==> |LoadByName(v, name, capacity, bufferSize).bytes| == 512 * |ChainOf(v, Find(v.dir, name).value)|
  {
    assert OwnsChain(v, Find(v.dir, name).value);
  }

  // ---------------------------------------------------------------- allocation

  // A save succeeds exactly when name, count, free clusters and a free slot allow it; it needs one
  // free cluster more than it uses.
  lemma SaveSucceedsIff(v: Vol, r: SaveRequest, window: nat, status: SaveStatus, v': Vol)
    requires Callable(r) && WindowFits(v.fat, window)
    requires SaveStep(v, r, window, status, v')
    ensures status == Saved <==>
              && r.name[0] != 0
              && 1 <= r.dirEntries <= ROOT_ENTRIES
              && r.sectors <= MAX_SECTORS
              && |FreeSet(v.fat, 3, 3 + window)| >= r.sectors + 1
              && exists k :: 0 <= k < r.dirEntries && FirstByte(v.dir, k) == 0
    ensures status != Saved ==> v' == v
  {
    FreeClustersCount(v.fat, 3, 3 + window);
  }

  // The chosen clusters are the lowest free ones of the window.
  lemma SaveTakesLowest(fat: Fat, window: nat, n: nat, c: ushort)
    requires WindowFits(fat, window) && HasRoom(fat, window, n)
    requires 3 <= c < 3 + window && fat[c] == 0 && c !in ChosenClusters(fat, window, n)
    ensures Ascending(ChosenClusters(fat, window, n))
    ensures forall i :: 0 <= i < n ==> ChosenClusters(fat, window, n)[i] < c
  {
    var f := FreeClusters(fat, 3, 3 + window);
    FreeClustersSound(fat, 3, 3 + window);
    FreeClustersComplete(fat, 3, 3 + window);
    assert c in FreeSet(fat, 3, 3 + window);
    assert c in ToSet(f);
    var j :| 0 <= j < |f| && f[j] == c;
    assert j >= n by {
      assert forall i :: 0 <= i < n ==> f[i] == f[..n][i];
    }
  }

  // The slot is the first unused one, and it holds the new entry afterwards.
  lemma SaveTakesFirstSlot(v: Vol, r: SaveRequest, window: nat, v': Vol)
    requires Callable(r) && WindowFits(v.fat, window)
    requires SaveStep(v, r, window, Saved, v')
    ensures var k := FindEmpty(v.dir, r.dirEntries).value;
            && FirstByte(v.dir, k) == 0
            && (forall i :: 0 <= i < k ==> FirstByte(v.dir, i) != 0)
            && Matches(v'.dir, StoredName(r.name, r.flag), k)
            && FirstCluster(v'.dir, k) == ChosenClusters(v.fat, window, r.sectors)[0]
            && SizeOf(v'.dir, k) == StoredSize(r.size, r.flag)
  {
    SavedMeansExtended(v, r, window, v');
    AddedEntry(v, r, ChosenClusters(v.fat, window, r.sectors), FindEmpty(v.dir, r.dirEntries).value, v');
  }
}
