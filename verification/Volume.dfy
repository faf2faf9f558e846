// The boot volume: FAT cache, root directory cache and disk, with fsSaveFile and fsLoadFile.
module Volume {
  import opened Bytes
  import opened FatTable
  import opened Directory

  const ROOTDIR_LBA: nat := 559
  const ROOTDIR_SECTORS: nat := 32
  const DATAAREA_LBA: nat := 591
  const MAX_SECTORS: nat := 16
  const MAX_LOAD_BYTES: nat := 2097152
  const IMAGESIZE_LIMIT_IN_KB: nat := 405

  // LBA -> sector; an LBA that is not in the map holds zeros.
  type Disk = map<nat, Sector>

  function ZeroSector(): Sector {
    seq(512, i => 0)
  }

  function ReadLba(disk: Disk, lba: nat): Sector {
    if lba in disk then disk[lba] else ZeroSector()
  }

  // One sector per cluster.
  function ClusterLba(c: ushort): nat {
    DATAAREA_LBA + c - 2
  }

  // What the three stores hold.
  datatype Vol = Vol(fat: Fat, dir: DirImage, disk: Disk)

  // ---------------------------------------------------------------- specification of a save

  datatype SaveRequest = SaveRequest(
    name: seq<byte>, dirEntries: int, sectors: nat, size: nat, data: seq<byte>, flag: byte)

  function FieldsOf(r: SaveRequest, first: ushort): Fields {
    Fields(r.name, r.flag, first, r.size)
  }

  datatype SaveStatus = Saved | Failed | Panicked

  // What fsSaveFile reads through its arguments: 11 name bytes and the sectors it writes.
  // Zero sectors are outside the code's own domain: its list would be indexed at -1.
  predicate Callable(r: SaveRequest) {
    && |r.name| >= NAME_SIZE
    && r.sectors >= 1
    && (r.sectors <= MAX_SECTORS ==> |r.data| >= 512 * r.sectors)
  }

  // The scan window [3, 3 + window) lies in the table and holds legal cluster numbers.
  predicate WindowFits(fat: Fat, window: nat) {
    3 + window <= |fat| && 3 + window <= MAX_CLUSTER + 1
  }

  // The clusters a request gets: the lowest free ones.
  function ChosenClusters(fat: Fat, window: nat, n: nat): seq<ushort>
    requires WindowFits(fat, window)
    requires n <= |FreeClusters(fat, 3, 3 + window)|
  {
    FreeClusters(fat, 3, 3 + window)[..n]
  }

  predicate HasRoom(fat: Fat, window: nat, n: nat)
    requires WindowFits(fat, window)
  {
    |FreeClusters(fat, 3, 3 + window)| >= n + 1
  }

  function SaveOutcome(v: Vol, r: SaveRequest, window: nat): SaveStatus
    requires Callable(r) && WindowFits(v.fat, window)
  {
    if r.name[0] == 0 then Failed
    else if r.dirEntries == 0 || r.dirEntries > ROOT_ENTRIES then Panicked
    else if r.sectors > MAX_SECTORS then Failed
    else if !HasRoom(v.fat, window, r.sectors) then Failed
    else if FindEmpty(v.dir, r.dirEntries).None? then Failed
    else Saved
  }

  // The chain is linked in list order and closed; no other table entry changes.
  ghost predicate Linked(fat: Fat, chain: seq<ushort>, fat': Fat) {
    && |fat'| == |fat|
    && (forall i :: 0 <= i < |chain| ==> chain[i] < |fat|)
    && (forall i :: 0 <= i < |chain| - 1 ==> LinkedAt(fat', chain, i))
    && (|chain| > 0 ==> fat'[chain[|chain| - 1]] == END_OF_CHAIN)
    && (forall c :: 0 <= c < |fat| && c !in chain ==> fat'[c] == fat[c])
  }

  function RootLba(i: nat): nat {
    ROOTDIR_LBA + i
  }

  predicate InRootRegion(lba: nat) {
    ROOTDIR_LBA <= lba < ROOTDIR_LBA + ROOTDIR_SECTORS
  }

  // The sectors of the root directory region hold the directory.
  ghost predicate RootOnDisk(disk: Disk, dir: DirImage) {
    forall i :: 0 <= i < ROOTDIR_SECTORS ==> ReadLba(disk, RootLba(i)) == SectorAt(dir, i)
  }

  // The sector belongs to one of the first n clusters of the list.
  ghost predicate HoldsCluster(list: seq<ushort>, n: nat, lba: nat)
    requires n <= |list|
  {
    exists i :: 0 <= i < n && lba == ClusterLba(list[i])
  }

  // Cluster i of the chain holds the i-th sector of the data; every other data sector is untouched.
  ghost predicate DataWritten(disk: Disk, chain: seq<ushort>, data: seq<byte>, disk': Disk) {
    && |data| >= 512 * |chain|
    && (forall i :: 0 <= i < |chain| ==> ReadLba(disk', ClusterLba(chain[i])) == SectorAt(data, i))
    && (forall lba: nat :: !InRootRegion(lba) && !HoldsCluster(chain, |chain|, lba) ==> ReadLba(disk', lba) == ReadLba(disk, lba))
  }

  // The stores after a save that put the data into `chain` and the entry into slot k.
  ghost predicate Stored(v: Vol, r: SaveRequest, chain: seq<ushort>, k: nat, v': Vol)
    requires Callable(r) && |chain| > 0 && k < ROOT_ENTRIES
  {
    && Linked(v.fat, chain, v'.fat)
    && v'.dir == PutEntry(v.dir, k, NewEntry(FieldsOf(r, chain[0])))
    && DataWritten(v.disk, chain, r.data, v'.disk)
    && RootOnDisk(v'.disk, v'.dir)
  }

  ghost predicate SaveStep(v: Vol, r: SaveRequest, window: nat, status: SaveStatus, v': Vol)
    requires Callable(r) && WindowFits(v.fat, window)
  {
    && status == SaveOutcome(v, r, window)
    && (status != Saved ==> v' == v)
    && (status == Saved ==>
          Stored(v, r, ChosenClusters(v.fat, window, r.sectors), FindEmpty(v.dir, r.dirEntries).value, v'))
  }

  // ---------------------------------------------------------------- specification of a load

  datatype LoadResult =
    | Loaded(bytes: seq<byte>)  // 0: these bytes were put at the start of the buffer
    | LoadFailed                // 1: the buffer is untouched
    | LoadPanicked              // the kernel stops
    | LoadUnsafe                // the loop would not end, or leave the table or the buffer

  // The sectors of the clusters, one after the other.
  function ReadClusters(disk: Disk, w: seq<ushort>): (bytes: seq<byte>)
    ensures |bytes| == 512 * |w|
  {
    seq(512 * |w|, i requires 0 <= i < 512 * |w| => ReadLba(disk, ClusterLba(w[i / 512]))[i % 512])
  }

  // Reading the chain of cluster c into a buffer of `capacity` bytes.
  function LoadChain(fat: Fat, disk: Disk, c: ushort, capacity: nat): LoadResult {
    var t := TrailOf(fat, c);
    if 512 * |t.clusters| > capacity then LoadUnsafe
    else
      match t.stop
      case EndOfChain =>
        if |t.clusters| / 2 > IMAGESIZE_LIMIT_IN_KB then LoadPanicked
        else Loaded(ReadClusters(disk, t.clusters))
      case BadCluster => LoadPanicked
      case OutOfRange => LoadPanicked
      case BeyondTable => LoadUnsafe
      case Endless => LoadUnsafe
  }

  // The checks and the directory search before the cluster loop.
  datatype Location = Located(first: ushort) | NotLocated | LocatePanicked

  function Locate(dir: DirImage, dirEntries: int, name: seq<byte>, bufferSize: nat): (l: Location)
    ensures l.Located? ==> 1 <= l.first <= MAX_CLUSTER
  {
    if dirEntries % 0x1_0000 != ROOT_ENTRIES then LocatePanicked
    else if bufferSize % 0x1_0000_0000 == 0 then LocatePanicked
    else if bufferSize % 0x1_0000_0000 > MAX_LOAD_BYTES then LocatePanicked
    else if name == [] then NotLocated
    else if |name| > NAME_SIZE then NotLocated
    else if FileSize(dir, name) >= bufferSize % 0x1_0000_0000 then NotLocated
    else
      match Find(dir, name)
      case None => NotLocated
      case Some(k) =>
        if FirstCluster(dir, k) == 0 || FirstCluster(dir, k) > MAX_CLUSTER then NotLocated
        else Located(FirstCluster(dir, k))
  }

  function LoadOutcome(fat: Fat, disk: Disk, dir: DirImage, dirEntries: int,
                       name: seq<byte>, capacity: nat, bufferSize: nat): LoadResult
  {
    match Locate(dir, dirEntries, name, bufferSize)
    case Located(first) => LoadChain(fat, disk, first, capacity)
    case NotLocated => LoadFailed
    case LocatePanicked => LoadPanicked
  }

  // What the caller sees: 0, 1, or a kernel that has stopped.
  datatype LoadStatus = LoadOk | LoadFail | LoadPanic

  ghost predicate LoadMeets(result: LoadResult, status: LoadStatus, before: seq<byte>, after: seq<byte>) {
    match result
    case Loaded(bytes) => status == LoadOk && |bytes| <= |before| && after == bytes + before[|bytes|..]
    case LoadFailed => status == LoadFail && after == before
    case LoadPanicked => status == LoadPanic
    case LoadUnsafe => true
  }

  // ---------------------------------------------------------------- the kernel's state

  class BootVolume {
    const fat: array<ushort>              // VOLUME1_FAT_ADDRESS
    const dir: array<byte>                // VOLUME1_ROOTDIR_ADDRESS
    const clustersToSave: array<ushort>   // fat16ClustersToSave[]
    const window: nat                     // CLUSTERS_TO_SAVE_MAX
    var disk: Disk

    ghost predicate Shaped()
      reads this, fat
    {
      && dir.Length == DIR_BYTES
      && fat != clustersToSave
      && WindowFits(fat[..], window)
      && clustersToSave.Length == window
    }

    // Shaped, and the root directory cache agrees with the disk.
    ghost predicate Valid()
      reads this, fat, dir
    {
      Shaped() && RootOnDisk(disk, dir[..])
    }

    ghost function V(): Vol
      requires Shaped()
      reads this, fat, dir
    {
      Vol(fat[..], dir[..], disk)
    }

    // Mounting: the tables are allocated and the root directory is read.
    constructor Mount(table: array<ushort>, window: nat, image: Disk)
      requires WindowFits(table[..], window)
      ensures Valid() && fresh(dir) && fresh(clustersToSave)
      ensures fat == table && this.window == window && disk == image
    {
      fat := table;
      dir := new byte[DIR_BYTES](i => 0);
      clustersToSave := new ushort[window](i => 0);
      this.window := window;
      disk := image;
      new;
      LoadRootdir();
    }

    // fs_load_rootdir
    method LoadRootdir()
      requires Shaped()
      modifies dir
      ensures RootOnDisk(disk, dir[..])
    {
      var i := 0;
      while i < ROOTDIR_SECTORS
        invariant 0 <= i <= ROOTDIR_SECTORS
        invariant forall m :: 0 <= m < i ==> ReadLba(disk, RootLba(m)) == SectorAt(dir[..], m)
      {
        ghost var before := dir[..];
        ReadSector(dir, 512 * i, RootLba(i));
        SectorIsSlice(dir[..], i);
        forall m | 0 <= m < i
          ensures ReadLba(disk, RootLba(m)) == SectorAt(dir[..], m)
        {
          assert SectorAt(dir[..], m) == SectorAt(before, m);
        }
        i := i + 1;
      }
    }

    // read_lba: one sector into memory at the given offset.
    method ReadSector(memory: array<byte>, offset: nat, lba: nat)
      requires offset + 512 <= memory.Length
      modifies memory
      ensures memory[offset..offset + 512] == ReadLba(disk, lba)
      ensures forall i :: 0 <= i < memory.Length && !(offset <= i < offset + 512) ==> memory[i] == old(memory[i])
    {
      var sector := ReadLba(disk, lba);
      var i := 0;
      while i < 512
        invariant 0 <= i <= 512
        invariant memory[offset..offset + i] == sector[..i]
        invariant forall m :: 0 <= m < memory.Length && !(offset <= m < offset + i) ==> memory[m] == old(memory[m])
      {
        memory[offset + i] := sector[i];
        i := i + 1;
      }
    }

    // fs_save_rootdir
    method SaveRootdir()
      requires Shaped()
      modifies this`disk
      ensures RootOnDisk(disk, dir[..])
      ensures forall lba: nat :: !InRootRegion(lba) ==> ReadLba(disk, lba) == ReadLba(old(disk), lba)
    {
      var i := 0;
      while i < ROOTDIR_SECTORS
        invariant 0 <= i <= ROOTDIR_SECTORS
        invariant forall m :: 0 <= m < i ==> ReadLba(disk, RootLba(m)) == SectorAt(dir[..], m)
        invariant forall lba: nat :: !InRootRegion(lba) ==> ReadLba(disk, lba) == ReadLba(old(disk), lba)
      {
        SectorIsSlice(dir[..], i);
        disk := disk[RootLba(i) := dir[512 * i..512 * i + 512]];
        i := i + 1;
      }
    }

    // findEmptyDirectoryEntry
    method FindEmptyDirectoryEntry(entries: int) returns (index: int)
      requires Shaped() && entries <= ROOT_ENTRIES
      ensures match FindEmpty(dir[..], entries)
              case Some(k) => index == k
              case None => index == -1
    {
      if entries < 0 {
        return -1;
      }
      var i, j := 0, 0;
      while i < entries
        invariant 0 <= i <= entries && j == 32 * i
        invariant EmptyFrom(dir[..], entries, 0) == EmptyFrom(dir[..], entries, i)
      {
        if dir[j] == 0 {
          return i;
        }
        j := j + 32;
        i := i + 1;
      }
      return -1;
    }

    // The free-cluster scan of fsSaveFile: n clusters and the end mark.
    method CollectClusters(n: nat) returns (found: bool)
      requires Shaped()
      modifies clustersToSave
      ensures found <==> HasRoom(fat[..], window, n)
      ensures found ==> n < clustersToSave.Length && clustersToSave[n] == END_OF_CHAIN
      ensures found ==> clustersToSave[..n] == ChosenClusters(fat[..], window, n)
    {
      var i, j, c, needed := 0, 0, 3, n;
      assert clustersToSave[..0] == FreeClusters(fat[..], 3, 3);
      while i < window
        invariant 0 <= i <= window && c == 3 + i
        invariant j + needed == n && 0 <= j <= i && 0 <= needed
        invariant clustersToSave[..j] == FreeClusters(fat[..], 3, c)
      {
        ghost var list := clustersToSave[..j];
        assert FreeClusters(fat[..], 3, c + 1) == list + (if fat[c] == 0 then [c] else []);
        FreeClustersPrefix(fat[..], 3, c + 1, 3 + window);
        if fat[c] == 0 {
          if needed == 0 {
            clustersToSave[j] := END_OF_CHAIN;
            assert clustersToSave[..n] == list;
            return true;
          }
          clustersToSave[j] := c;
          assert clustersToSave[..j + 1] == list + [c];
          j := j + 1;
          needed := needed - 1;
        }
        c := c + 1;
        i := i + 1;
      }
      return false;
    }

    // memcpy of the 32 entry bytes into the directory.
    method CopyEntry(k: nat, entry: seq<byte>)
      requires Shaped() && k < ROOT_ENTRIES && |entry| == ENTRY_SIZE
      modifies dir
      ensures dir[..] == PutEntry(old(dir[..]), k, entry)
    {
      var i := 0;
      while i < 32
        invariant 0 <= i <= 32
        invariant forall m :: 0 <= m < i ==> dir[32 * k + m] == entry[m]
        invariant forall m :: 0 <= m < DIR_BYTES && !(32 * k <= m < 32 * k + i) ==> dir[m] == old(dir[m])
      {
        dir[32 * k + i] := entry[i];
        i := i + 1;
      }
      forall m | 0 <= m < DIR_BYTES
        ensures dir[m] == PutEntry(old(dir[..]), k, entry)[m]
      {
        if 32 * k <= m < 32 * k + 32 {
          assert dir[32 * k + (m - 32 * k)] == entry[m - 32 * k];
        }
      }
    }

    // fat[c] = next
    method SetLink(c: ushort, next: ushort)
      requires c < fat.Length
      modifies fat
      ensures fat[..] == old(fat[..])[c := next]
    {
      fat[c] := next;
    }

    // Link cluster i of the list to its successor.
    method LinkCluster(next: ushort, i: nat, ghost table: Fat, ghost list: seq<ushort>, ghost n: nat)
      requires Shaped() && i < n && ClusterList(list, n, |table|) && next == list[i]
      requires n < clustersToSave.Length && clustersToSave[..n + 1] == list
      requires LinkedUpTo(table, list, i, fat[..])
      modifies fat
      ensures LinkedUpTo(table, list, i + 1, fat[..])
    {
      LinkNext(table, list, n, i, fat[..]);
      assert clustersToSave[i + 1] == list[i + 1];
      SetLink(next, clustersToSave[i + 1]);
    }

    // Write sector i of the data to cluster i of the list (ataWriteSector).
    method WriteCluster(next: ushort, i: nat, data: seq<byte>, address: nat,
                        ghost image: Disk, ghost list: seq<ushort>, ghost n: nat)
      requires i < n && |data| >= 512 * n && address == 512 * i
      requires ClusterList(list, n, 0x1_0000) && next == list[i]
      requires WrittenUpTo(image, list, data, i, disk)
      modifies this`disk
      ensures WrittenUpTo(image, list, data, i + 1, disk)
    {
      var lba, sector: Sector := DATAAREA_LBA + next - 2, data[address..address + 512];
      SectorIsSlice(data, i);
      EarlierDiffer(list, n, 0x1_0000, i);
      WriteNext(image, list, data, i, disk, lba, sector);
      disk := disk[lba := sector];
    }

    // At the end mark: the cluster before it gets the end mark (again).
    method CloseChain(i: nat, ghost table: Fat, ghost list: seq<ushort>, ghost n: nat)
      requires Shaped() && i == n
      requires ClusterList(list, n, |table|)
      requires n < clustersToSave.Length && clustersToSave[..n + 1] == list
      requires LinkedUpTo(table, list, n, fat[..])
      modifies fat
      ensures Linked(table, list[..n], fat[..])
    {
      EndMarkIsLast(list, n, |table|, n);
      LinkedUpToEnd(table, list, n, fat[..]);
      assert clustersToSave[n - 1] == list[n - 1];
      ghost var before := fat[..];
      SetLink(clustersToSave[i - 1], END_OF_CHAIN);
      assert fat[..] == before;
    }

    // The save loop of fsSaveFile: link and write cluster by cluster until the end mark.
    method WriteChain(n: nat, data: seq<byte>, ghost list: seq<ushort>) returns (done: bool)
      requires Shaped() && 1 <= n <= MAX_SECTORS && 512 * n <= |data|
      requires n < clustersToSave.Length && clustersToSave[..n + 1] == list
      requires ClusterList(list, n, fat.Length)
      modifies fat, this`disk
      ensures done
      ensures Linked(old(fat[..]), list[..n], fat[..])
      ensures DataWritten(old(disk), list[..n], data, disk)
      ensures forall lba: nat :: InRootRegion(lba) ==> ReadLba(disk, lba) == ReadLba(old(disk), lba)
    {
      ghost var table, image := fat[..], disk;
      var i, address, overrun := 0, 0, false;
      while true
        invariant !overrun
        invariant 0 <= i <= n && address == 512 * i
        invariant clustersToSave[..n + 1] == list
        invariant LinkedUpTo(table, list, i, fat[..])
        invariant WrittenUpTo(image, list, data, i, disk)
        decreases n - i
      {
        var next := clustersToSave[i];
        assert next == list[i];
        EndMarkIsLast(list, n, |table|, i);
        if next == END_OF_CHAIN {
          break;
        }
        LinkCluster(next, i, table, list, n);
        WriteCluster(next, i, data, address, image, list, n);
        address := address + 512;
        i := i + 1;
        if i > 16 {
          overrun := true;
          break;
        }
      }
      CloseChain(i, table, list, n);
      WrittenUpToEnd(image, list, n, data, disk);
      done := !overrun;
    }

    // The second half of fsSaveFile: the directory entry, the chain, the root directory on disk.
    method StoreFile(r: SaveRequest, k: nat, ghost list: seq<ushort>) returns (done: bool)
      requires Shaped() && Callable(r) && r.sectors <= MAX_SECTORS && k < ROOT_ENTRIES
      requires r.sectors < clustersToSave.Length && clustersToSave[..r.sectors + 1] == list
      requires ClusterList(list, r.sectors, fat.Length)
      modifies fat, dir, this`disk
      ensures done
      ensures Stored(old(V()), r, list[..r.sectors], k, V())
    {
      assert clustersToSave[0] == list[0] == list[..r.sectors][0];
      CopyEntry(k, NewEntry(FieldsOf(r, clustersToSave[0])));
      done := WriteChain(r.sectors, r.data, list);
      ghost var written := disk;
      SaveRootdir();
      RootAfterData(old(disk), list[..r.sectors], r.data, written, disk);
    }

    // fsSaveFile into the root directory.
    method SaveFile(r: SaveRequest) returns (status: SaveStatus)
      requires Valid() && Callable(r)
      modifies fat, dir, clustersToSave, this`disk
      ensures Valid()
      ensures SaveStep(old(V()), r, window, status, V())
    {
      if r.name[0] == 0 {
        return Failed;
      }
      if r.dirEntries == 0 || r.dirEntries > ROOT_ENTRIES {
        return Panicked;
      }
      if r.sectors > MAX_SECTORS {
        return Failed;
      }
      LoadRootdir();
      RootIsUnique(disk, old(dir[..]), dir[..]);
      var found := CollectClusters(r.sectors);
      if !found {
        return Failed;
      }
      var index := FindEmptyDirectoryEntry(r.dirEntries);
      if index == -1 {
        return Failed;
      }
      ghost var list := clustersToSave[..r.sectors + 1];
      ChosenFormList(fat[..], window, r.sectors, list);
      var done := StoreFile(r, index, list);
      status := if done then Saved else Failed;
    }

    // ------------------------------------------------------------ loading

    // The directory search shared by fsGetFileSize and fsLoadFile.
    method SearchDirectory(source: array<byte>, name: seq<byte>) returns (index: int)
      requires source.Length == DIR_BYTES && |name| <= NAME_SIZE
      ensures match Find(source[..], name)
              case Some(k) => index == k
              case None => index == -1
    {
      ghost var image: DirImage := source[..];
      var i: nat, z: nat := 0, 0;
      while i < ROOT_ENTRIES
        invariant 0 <= i <= ROOT_ENTRIES && z == 32 * i
        invariant Find(image, name) == FindFrom(image, name, i)
      {
        if !(source[z] == 0 && source[z + 1] == 0) {
          var equal := source[z..z + |name|] == name;
          NameAtEntry(image, name, i);
          if equal {
            return i;
          }
        }
        z := z + 32;
        i := i + 1;
      }
      return -1;
    }

    // fsGetFileSize; the root directory is read again first.
    method GetFileSize(name: seq<byte>, source: array<byte>) returns (size: nat)
      requires Valid() && source.Length == DIR_BYTES && 0 < |name| <= NAME_SIZE
      modifies dir
      ensures Valid() && dir[..] == old(dir[..]) && source[..] == old(source[..])
      ensures size == FileSize(source[..], name)
    {
      if source == dir {
        LoadRootdir();
        RootIsUnique(disk, old(dir[..]), dir[..]);
      }
      var index := SearchDirectory(source, name);
      if index == -1 {
        return 0;
      }
      var b0: int, b1: int, b2: int, b3: int := source[32 * index + 28], source[32 * index + 29],
        source[32 * index + 30], source[32 * index + 31];
      size := b0 + 0x100 * b1 + 0x1_0000 * b2 + 0x100_0000 * b3;
    }

    // The cluster loop of fsLoadFile: it ends after exactly as many sector reads as the trail t
    // has clusters; the clusters still to visit are its measure.
    method ReadChain(first: ushort, buffer: array<byte>, ghost t: Trail, ghost rounds: nat)
      returns (status: LoadStatus, nreads: nat)
      requires Follow(fat[..], first, rounds) == t
      requires t.stop != Endless && t.stop != BeyondTable
      requires 512 * |t.clusters| <= buffer.Length
      modifies buffer
      ensures nreads == if t.stop == BadCluster then |t.clusters| - 1 else |t.clusters|
      ensures status == if t.stop == EndOfChain && |t.clusters| / 2 <= IMAGESIZE_LIMIT_IN_KB then LoadOk else LoadPanic
      ensures status == LoadOk
          ==> buffer[..] == ReadClusters(disk, t.clusters) + old(buffer[..])[512 * |t.clusters|..]
    {
      ghost var table := fat[..];
      ghost var fuel: nat := rounds;
      ghost var past: seq<ushort>, rest := [], t.clusters;
      var cluster: ushort := first;
      status, nreads := LoadPanic, 0;
      while true
        invariant status == LoadPanic
        invariant fat[..] == table && nreads == |past|
        invariant past + rest == t.clusters
        invariant Follow(table, cluster, fuel) == Trail(rest, t.stop)
        invariant 512 * nreads <= buffer.Length
        invariant buffer[..512 * nreads] == ReadClusters(disk, past)
        invariant buffer[512 * nreads..] == old(buffer[..])[512 * nreads..]
        decreases |rest|
      {
        if cluster <= 0 || cluster > MAX_CLUSTER {
          break;
        }
        FollowNext(table, cluster, fuel, rest, t.stop);
        ReadCluster(buffer, cluster, nreads, past);
        var next := fat[cluster];
        if next == BAD_CLUSTER {
          break;
        }
        nreads := nreads + 1;
        TakeFront(past, rest, t.clusters);
        past, rest, fuel := past + [cluster], rest[1..], fuel - 1;
        if IsEnd(next) {
          WholeChain(past, disk, old(buffer[..]), buffer[..]);
          status := if nreads / 2 > IMAGESIZE_LIMIT_IN_KB then LoadPanic else LoadOk;
          break;
        }
        cluster := next;
      }
    }

    // Read one cluster behind the nreads clusters already in the buffer.
    method ReadCluster(buffer: array<byte>, cluster: ushort, nreads: nat, ghost past: seq<ushort>)
      requires nreads == |past| && 512 * (nreads + 1) <= buffer.Length
      requires buffer[..512 * nreads] == ReadClusters(disk, past)
      modifies buffer
      ensures buffer[..512 * (nreads + 1)] == ReadClusters(disk, past + [cluster])
      ensures buffer[512 * (nreads + 1)..] == old(buffer[..])[512 * (nreads + 1)..]
    {
      ghost var before := buffer[..];
      ReadSector(buffer, 512 * nreads, DATAAREA_LBA + cluster - 2);
      AppendCluster(disk, past, cluster, before, buffer[..]);
    }

    // The first half of fsLoadFile: parameter checks, size check, search.
    method LocateFile(source: array<byte>, dirEntries: int, name: seq<byte>, bufferSize: nat)
      returns (location: Location)
      requires Valid() && source.Length == DIR_BYTES
      modifies dir
      ensures Valid() && dir[..] == old(dir[..]) && source[..] == old(source[..])
      ensures location == Locate(source[..], dirEntries, name, bufferSize)
    {
      ghost var image: DirImage := source[..];
      var entries := dirEntries % 0x1_0000;
      var size := bufferSize % 0x1_0000_0000;
      if entries > ROOT_ENTRIES || entries != ROOT_ENTRIES {
        return LocatePanicked;
      }
      if size == 0 || size > MAX_LOAD_BYTES {
        return LocatePanicked;
      }
      if |name| == 0 || |name| > NAME_SIZE {
        return NotLocated;
      }
      var fileSize := GetFileSize(name, source);
      if fileSize >= size {
        return NotLocated;
      }
      var index := SearchDirectory(source, name);
      if index == -1 {
        return NotLocated;
      }
      var low: int, high: int := source[32 * index + 26], source[32 * index + 27];
      var cluster := low + 0x100 * high;
      assert cluster == FirstCluster(image, index);
      if cluster <= 0 || cluster > MAX_CLUSTER {
        return NotLocated;
      }
      return Located(cluster);
    }

    // fsLoadFile: `source` is the directory searched.
    method LoadFile(source: array<byte>, dirEntries: int, name: seq<byte>, buffer: array<byte>, bufferSize: nat)
      returns (status: LoadStatus)
      requires Valid() && buffer != dir && source.Length == DIR_BYTES
      requires LoadOutcome(fat[..], disk, source[..], dirEntries, name, buffer.Length, bufferSize) != LoadUnsafe
      modifies buffer, dir
      ensures Valid() && dir[..] == old(dir[..])
      ensures source != buffer ==> source[..] == old(source[..])
      ensures LoadMeets(old(LoadOutcome(fat[..], disk, source[..], dirEntries, name, buffer.Length, bufferSize)),
                        status, old(buffer[..]), buffer[..])
    {
      ghost var image := source[..];
      var location := LocateFile(source, dirEntries, name, bufferSize);
      assert source[..] == image;
      match location {
        case LocatePanicked => return LoadPanic;
        case NotLocated => return LoadFail;
        case Located(cluster) =>
          ghost var t := TrailOf(fat[..], cluster);
          var nreads;
          status, nreads := ReadChain(cluster, buffer, t, fat.Length + 1);
      }
    }
  }

  // ---------------------------------------------------------------- facts the methods use

  // The cluster list of a save: n distinct clusters of the window, then the end mark.
  ghost predicate ClusterList(list: seq<ushort>, n: nat, size: nat) {
    && |list| == n + 1
    && 1 <= n
    && list[n] == END_OF_CHAIN
    && Distinct(list[..n])
    && forall m :: 0 <= m < n ==> 3 <= list[m] <= MAX_CLUSTER && list[m] < size
  }

  // The first i links of the list are in the table.
  ghost predicate LinkedUpTo(table: Fat, list: seq<ushort>, i: nat, fat: Fat) {
    && |fat| == |table|
    && i < |list|
    && (forall m :: 0 <= m < i ==> LinkedAt(fat, list, m))
    && (forall c :: 0 <= c < |fat| && c !in list[..i] ==> fat[c] == table[c])
  }

  // The first i sectors of the data are on the disk.
  ghost predicate WrittenUpTo(image: Disk, list: seq<ushort>, data: seq<byte>, i: nat, disk: Disk) {
    && i < |list|
    && |data| >= 512 * i
    && (forall m :: 0 <= m < i ==> ReadLba(disk, ClusterLba(list[m])) == SectorAt(data, m))
    && (forall lba: nat :: !HoldsCluster(list, i, lba) ==> ReadLba(disk, lba) == ReadLba(image, lba))
  }

  lemma EndMarkIsLast(list: seq<ushort>, n: nat, size: nat, i: nat)
    requires ClusterList(list, n, size) && i <= n
    ensures list[i] == END_OF_CHAIN <==> i == n
    ensures i < n ==> 3 <= list[i] < size
    ensures i == n ==> 3 <= list[i - 1] < size
  {
  }

  lemma LinkNext(table: Fat, list: seq<ushort>, n: nat, i: nat, fat: Fat)
    requires ClusterList(list, n, |table|) && i < n
    requires LinkedUpTo(table, list, i, fat)
    ensures LinkedUpTo(table, list, i + 1, fat[list[i] := list[i + 1]])
  {
    var fat' := fat[list[i] := list[i + 1]];
    assert list[..i + 1] == list[..i] + [list[i]];
    forall m | 0 <= m < i
      ensures LinkedAt(fat', list, m)
    {
      assert LinkedAt(fat, list, m);
      assert list[..n][m] != list[..n][i];
    }
    assert LinkedAt(fat', list, i);
  }

  lemma WriteNext(image: Disk, list: seq<ushort>, data: seq<byte>, i: nat, disk: Disk, lba: nat, sector: Sector)
    requires i + 1 < |list| && |data| >= 512 * (i + 1)
    requires WrittenUpTo(image, list, data, i, disk)
    requires forall m :: 0 <= m < i ==> list[m] != list[i]
    requires lba == ClusterLba(list[i]) && sector == SectorAt(data, i)
    ensures WrittenUpTo(image, list, data, i + 1, disk[lba := sector])
  {
    var disk' := disk[lba := sector];
    forall m | 0 <= m < i + 1
      ensures ReadLba(disk', ClusterLba(list[m])) == SectorAt(data, m)
    {
      if m < i {
        assert ReadLba(disk', ClusterLba(list[m])) == ReadLba(disk, ClusterLba(list[m]));
      }
    }
    forall at: nat | !HoldsCluster(list, i + 1, at)
      ensures ReadLba(disk', at) == ReadLba(image, at)
    {
      assert at != lba;
      assert !HoldsCluster(list, i, at);
    }
  }

  lemma EarlierDiffer(list: seq<ushort>, n: nat, size: nat, i: nat)
    requires ClusterList(list, n, size) && i < n
    ensures forall m :: 0 <= m < i ==> list[m] != list[i]
  {
    forall m | 0 <= m < i
      ensures list[m] != list[i]
    {
      assert list[..n][m] != list[..n][i];
    }
  }

  lemma LinkedUpToEnd(table: Fat, list: seq<ushort>, n: nat, fat: Fat)
    requires ClusterList(list, n, |table|)
    requires LinkedUpTo(table, list, n, fat)
    ensures Linked(table, list[..n], fat)
  {
    var chain := list[..n];
    assert forall m :: 0 <= m < n ==> chain[m] == list[m];
    forall m | 0 <= m < n - 1
      ensures LinkedAt(fat, chain, m)
    {
      assert LinkedAt(fat, list, m);
    }
    assert LinkedAt(fat, list, n - 1);
  }

  lemma WrittenUpToEnd(image: Disk, list: seq<ushort>, n: nat, data: seq<byte>, disk: Disk)
    requires ClusterList(list, n, 0x1_0000) && |data| >= 512 * n
    requires WrittenUpTo(image, list, data, n, disk)
    ensures DataWritten(image, list[..n], data, disk)
    ensures forall lba: nat :: InRootRegion(lba) ==> ReadLba(disk, lba) == ReadLba(image, lba)
  {
    var chain := list[..n];
    assert forall m :: 0 <= m < n ==> chain[m] == list[m];
  }

  // The state of the cluster loop, one round on.
  lemma FollowNext(fat: Fat, cluster: ushort, fuel: nat, rest: seq<ushort>, stop: Stop)
    requires Follow(fat, cluster, fuel) == Trail(rest, stop)
    requires stop != Endless && stop != BeyondTable
    requires 1 <= cluster <= MAX_CLUSTER
    ensures fuel > 0 && |rest| > 0 && rest[0] == cluster && cluster < |fat|
    ensures rest == [cluster] + rest[1..]
    ensures fat[cluster] == BAD_CLUSTER ==> stop == BadCluster && rest == [cluster]
    ensures fat[cluster] != BAD_CLUSTER && IsEnd(fat[cluster]) ==> stop == EndOfChain && rest == [cluster]
    ensures fat[cluster] != BAD_CLUSTER && !IsEnd(fat[cluster])
        ==> Follow(fat, fat[cluster], fuel - 1) == Trail(rest[1..], stop)
  {
    if fat[cluster] != BAD_CLUSTER && !IsEnd(fat[cluster]) {
      var later := Follow(fat, fat[cluster], fuel - 1);
      assert ([cluster] + later.clusters)[1..] == later.clusters;
    }
  }

  lemma NameAtEntry(dir: DirImage, name: seq<byte>, k: nat)
    requires k < ROOT_ENTRIES && |name| <= NAME_SIZE
    requires !(dir[32 * k] == 0 && dir[32 * k + 1] == 0)
    ensures Matches(dir, name, k) <==> dir[32 * k..32 * k + |name|] == name
  {
    var here := dir[32 * k..32 * k + |name|];
    assert forall i :: 0 <= i < |name| ==> here[i] == dir[32 * k + i];
  }

  lemma AppendCluster(disk: Disk, w: seq<ushort>, c: ushort, before: seq<byte>, after: seq<byte>)
    requires 512 * |w| + 512 <= |before| == |after|
    requires before[..512 * |w|] == ReadClusters(disk, w)
    requires after[512 * |w|..512 * |w| + 512] == ReadLba(disk, ClusterLba(c))
    requires forall i :: 0 <= i < |after| && !(512 * |w| <= i < 512 * |w| + 512) ==> after[i] == before[i]
    ensures after[..512 * (|w| + 1)] == ReadClusters(disk, w + [c])
    ensures after[512 * (|w| + 1)..] == before[512 * (|w| + 1)..]
  {
    var bytes := ReadClusters(disk, w + [c]);
    forall i | 0 <= i < 512 * (|w| + 1)
      ensures after[i] == bytes[i]
    {
      if i < 512 * |w| {
        assert before[..512 * |w|][i] == ReadClusters(disk, w)[i];
        assert (w + [c])[i / 512] == w[i / 512];
      } else {
        assert after[512 * |w|..512 * |w| + 512][i - 512 * |w|] == after[i];
        assert i / 512 == |w| && i % 512 == i - 512 * |w|;
      }
    }
  }

  lemma TakeFront(past: seq<ushort>, rest: seq<ushort>, w: seq<ushort>)
    requires |rest| > 0 && past + rest == w
    ensures (past + [rest[0]]) + rest[1..] == w
    ensures |rest| == 1 ==> past + [rest[0]] == w
  {
  }

  lemma WholeChain(w: seq<ushort>, disk: Disk, before: seq<byte>, after: seq<byte>)
    requires 512 * |w| <= |after| == |before|
    requires after[..512 * |w|] == ReadClusters(disk, w)
    requires after[512 * |w|..] == before[512 * |w|..]
    ensures after == ReadClusters(disk, w) + before[512 * |w|..]
  {
    assert after == after[..512 * |w|] + after[512 * |w|..];
  }

  lemma RootIsUnique(disk: Disk, dir: DirImage, dir': DirImage)
    requires RootOnDisk(disk, dir) && RootOnDisk(disk, dir')
    ensures dir == dir'
  {
    forall b | 0 <= b < DIR_BYTES
      ensures dir[b] == dir'[b]
    {
      var i := b / 512;
      assert SectorAt(dir, i)[b - 512 * i] == SectorAt(dir', i)[b - 512 * i];
    }
  }

  lemma ChosenAreFree(fat: Fat, window: nat, n: nat)
    requires WindowFits(fat, window) && HasRoom(fat, window, n)
    ensures var chain := ChosenClusters(fat, window, n);
            && Distinct(chain) && Ascending(chain)
            && forall i :: 0 <= i < n ==> 3 <= chain[i] < 3 + window && fat[chain[i]] == 0
  {
    FreeClustersSound(fat, 3, 3 + window);
  }

  lemma ChosenFormList(fat: Fat, window: nat, n: nat, list: seq<ushort>)
    requires WindowFits(fat, window) && HasRoom(fat, window, n) && n >= 1
    requires |list| == n + 1 && list[..n] == ChosenClusters(fat, window, n) && list[n] == END_OF_CHAIN
    ensures ClusterList(list, n, |fat|)
  {
    ChosenAreFree(fat, window, n);
    assert forall m :: 0 <= m < n ==> list[m] == list[..n][m];
  }

  // Writing the root directory after the data leaves the data sectors alone.
  lemma RootAfterData(disk: Disk, chain: seq<ushort>, data: seq<byte>, written: Disk, disk': Disk)
    requires DataWritten(disk, chain, data, written)
    requires forall i :: 0 <= i < |chain| ==> chain[i] >= 3
    requires forall lba: nat :: !InRootRegion(lba) ==> ReadLba(disk', lba) == ReadLba(written, lba)
    ensures DataWritten(disk, chain, data, disk')
  {
    assert forall i :: 0 <= i < |chain| ==> !InRootRegion(ClusterLba(chain[i]));
  }
}
