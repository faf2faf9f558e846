// Opening a file: search_in_dir and do_read_file_from_disk.
module OpenFile {
  import opened Bytes
  import opened Directory
  import opened FileStream
  import opened Names83
  import opened Volume
  import opened VolumeTheorems

  const AT: byte := 64          // '@'
  const HASH: byte := 35        // '#'
  const FILE_FLAG: byte := 0x20
  const OBJECTS: nat := 32
  const OPEN_LIMIT: int := 8192

  // ---------------------------------------------------------------- searching

  // Entry k is in use, is not '.' or '..', and has this name; short names are filled with NULs.
  predicate ListedAt(dir: DirImage, name: seq<byte>, k: nat)
    requires k < ROOT_ENTRIES && |name| <= NAME_SIZE
  {
    && FirstByte(dir, k) != 0 && FirstByte(dir, k) != DELETED && FirstByte(dir, k) != DOT
    && forall i :: 0 <= i < NAME_SIZE ==> dir[32 * k + i] == if i < |name| then name[i] else NUL
  }

  // search_in_dir
  ghost predicate Listed(dir: DirImage, name: seq<byte>) {
    && 0 < |name| <= NAME_SIZE && name[0] != SLASH
    && exists k :: 0 <= k < ROOT_ENTRIES && ListedAt(dir, name, k)
  }

  method SearchInDir(source: array<byte>, name: seq<byte>) returns (status: int)
    requires source.Length == DIR_BYTES
    ensures status == if Listed(source[..], name) then 1 else -1
  {
    if |name| == 0 || |name| > NAME_SIZE {
      return -1;
    }
    var desired := name + seq(NAME_SIZE - |name|, i => NUL);
    if name[0] == SLASH {
      return -1;
    }
    var i, j := 0, 0;
    while i < ROOT_ENTRIES
      invariant 0 <= i <= ROOT_ENTRIES && j == 32 * i
      invariant forall k :: 0 <= k < i ==> !ListedAt(source[..], name, k)
    {
      if source[j] != DELETED && source[j] != DOT && source[j] != 0 {
        var equal := source[j..j + NAME_SIZE] == desired;
        EntryIsListed(source[..], name, i, desired);
        if equal {
          return 1;
        }
      }
      j := j + 32;
      i := i + 1;
    }
    return -1;
  }

  lemma EntryIsListed(dir: DirImage, name: seq<byte>, k: nat, desired: seq<byte>)
    requires k < ROOT_ENTRIES && |name| <= NAME_SIZE
    requires desired == name + seq(NAME_SIZE - |name|, i => NUL)
    requires FirstByte(dir, k) != 0 && FirstByte(dir, k) != DELETED && FirstByte(dir, k) != DOT
    ensures ListedAt(dir, name, k) <==> dir[32 * k..32 * k + NAME_SIZE] == desired
  {
    var here := dir[32 * k..32 * k + NAME_SIZE];
    assert forall i :: 0 <= i < NAME_SIZE ==> here[i] == dir[32 * k + i];
    assert forall i :: 0 <= i < NAME_SIZE ==> desired[i] == if i < |name| then name[i] else NUL;
  }

  // ---------------------------------------------------------------- loading into a file object

  datatype OpenResult =
    | Opened(file: FileState)
    | Refused
    | OpenPanicked
    | OpenUnsafe      // fsLoadFile would not end, or leave the table or the buffer

  // fsGetFileSize narrowed to a signed 32-bit size; a name that is too long matches nothing.
  function SignedSize(dir: DirImage, name: seq<byte>): int {
    var size := if |name| == 0 || |name| > NAME_SIZE then 0 else FileSize(dir, name);
    if size >= 0x8000_0000 then size - 0x1_0000_0000 else size
  }

  function BufferFor(size: nat): nat {
    if size >= BUFSIZ then size + 8 else BUFSIZ
  }

  // A file object over the loaded bytes, ready to be read from the start.
  function FreshFile(slot: int, size: nat, bytes: seq<byte>): FileState
    requires |bytes| <= BufferFor(size)
  {
    FileState(Regular, true, slot, 0, size, BufferFor(size) - size, 0, BufferFor(size), SRD, true, true, 0,
              bytes + seq(BufferFor(size) - |bytes|, i => 0))
  }

  // The part after the size is known.
  function LoadAs(v: Vol, dir: DirImage, name: seq<byte>, size: nat, slot: int): OpenResult {
    match LoadOutcome(v.fat, v.disk, dir, ROOT_ENTRIES, name, BufferFor(size), BufferFor(size))
    case Loaded(bytes) => if |bytes| <= BufferFor(size) then Opened(FreshFile(slot, size, bytes)) else OpenUnsafe
    case LoadFailed => Refused
    case LoadPanicked => OpenPanicked
    case LoadUnsafe => OpenUnsafe
  }

  function OpenFrom(v: Vol, dir: DirImage, name: seq<byte>, slot: int): OpenResult {
    var size := SignedSize(dir, name);
    if size <= 0 || size > OPEN_LIMIT then Refused else LoadAs(v, dir, name, size, slot)
  }

  // What the caller gets for a result: an object in the state, or none.
  ghost predicate Delivers(result: OpenResult, f: File?, panicked: bool)
    reads f, if f == null then {} else {f.base}
  {
    match result
    case Opened(state) => f != null && !panicked && f.S() == state
    case Refused => f == null && !panicked
    case OpenPanicked => f == null && panicked
    case OpenUnsafe => true
  }

  // The object over a filled buffer.
  method MakeFile(base: array<byte>, slot: int, size: nat) returns (f: File)
    requires base.Length == BufferFor(size)
    ensures fresh(f) && f.base == base
    ensures f.S() == FreshFile(slot, size, []).(data := base[..])
  {
    f := new File(base, Regular, slot);
    f.w := size;
    f.cnt := f.lbfsize - size;
    f.Allow(SRD);
  }

  method LoadSized(vol: BootVolume, source: array<byte>, name: seq<byte>, size: nat, slot: int)
    returns (f: File?, panicked: bool)
    requires vol.Valid() && source.Length == DIR_BYTES
    requires LoadAs(vol.V(), source[..], name, size, slot) != OpenUnsafe
    modifies vol.dir
    ensures vol.Valid() && vol.dir[..] == old(vol.dir[..])
    ensures f != null ==> fresh(f) && fresh(f.base)
    ensures Delivers(old(LoadAs(vol.V(), source[..], name, size, slot)), f, panicked)
  {
    f, panicked := null, false;
    var base := new byte[BufferFor(size)](i => 0);
    var status := vol.LoadFile(source, ROOT_ENTRIES, name, base, base.Length);
    match status {
      case LoadFail =>
      case LoadPanic => panicked := true;
      case LoadOk => f := MakeFile(base, slot, size);
    }
  }

  method LoadIntoFile(vol: BootVolume, source: array<byte>, name: seq<byte>, slot: int)
    returns (f: File?, panicked: bool)
    requires vol.Valid() && source.Length == DIR_BYTES
    requires OpenFrom(vol.V(), source[..], name, slot) != OpenUnsafe
    modifies vol.dir
    ensures vol.Valid() && vol.dir[..] == old(vol.dir[..])
    ensures f != null ==> fresh(f) && fresh(f.base)
    ensures Delivers(old(OpenFrom(vol.V(), source[..], name, slot)), f, panicked)
  {
    f, panicked := null, false;
    var size := 0;
    if 0 < |name| <= NAME_SIZE {
      size := vol.GetFileSize(name, source);
    }
    if size >= 0x8000_0000 {
      size := size - 0x1_0000_0000;
    }
    assert size == old(SignedSize(source[..], name));
    if 0 < size <= OPEN_LIMIT {
      f, panicked := LoadSized(vol, source, name, size, slot);
    }
  }

  // ---------------------------------------------------------------- creating

  // "This is a new file."
  function NewFileText(): seq<byte> {
    [84, 104, 105, 115, 32, 105, 115, 32, 97, 32, 110, 101, 119, 32, 102, 105, 108, 101, 46]
  }

  function NewFileData(): (data: seq<byte>)
    ensures |data| == BUFSIZ
  {
    NewFileText() + seq(BUFSIZ - |NewFileText()|, i => 0)
  }

  // One sector of text under the converted name.
  function CreateRequest(name: seq<byte>): SaveRequest {
    SaveRequest(name, ROOT_ENTRIES, 1, 512, NewFileData(), FILE_FLAG)
  }

  // Size and load of the new file.
  lemma CreatedLoads(v: Vol, name: seq<byte>, w: seq<ushort>, k: nat, v': Vol)
    requires |name| == NAME_SIZE && Extended(v, CreateRequest(name), w, k, v') && NewUpTo(v.dir, name, k)
    ensures FileSize(v'.dir, name) == 512
    ensures LoadByName(v', name, BUFSIZ, BUFSIZ) == Loaded(NewFileData()[..512])
  {
    hide NewFileData, Extended, NewUpTo, LoadByName, FileSize;
    assert StoredName(name, FILE_FLAG) == name;
    SizeOfNew(v, CreateRequest(name), w, k, v');
    LoadOfNew(v, CreateRequest(name), w, k, v', BUFSIZ, BUFSIZ);
  }

  // After creating: the new file, unless an entry in front of it has the name.
  lemma CreatedOpens(v: Vol, name: seq<byte>, w: seq<ushort>, k: nat, v': Vol, slot: int)
    requires |name| == NAME_SIZE && Extended(v, CreateRequest(name), w, k, v') && NewUpTo(v.dir, name, k)
    ensures OpenFrom(v', v'.dir, name, slot) == Opened(FreshFile(slot, 512, NewFileData()[..512]))
  {
    hide NewFileData, Extended, LoadOutcome, FreshFile, Find, NewUpTo, FileSize;
    CreatedLoads(v, name, w, k, v');
  }

  lemma OlderOpens(v: Vol, name: seq<byte>, w: seq<ushort>, k: nat, v': Vol, slot: int)
    requires |name| == NAME_SIZE && Extended(v, CreateRequest(name), w, k, v')
    requires Existing(v, name) && Find(v.dir, name).value < k
    ensures OpenFrom(v', v'.dir, name, slot) == OpenFrom(v, v.dir, name, slot)
  {
    hide Extended, LoadOutcome, FreshFile, Existing, Find;
    var size := SignedSize(v.dir, name);
    var n := if size > 0 then BufferFor(size) else 0;
    KeepsOtherFiles(v, CreateRequest(name), w, k, v', name, n, n);
  }

  // A file created under a name that was not found can be loaded: opening it is as safe as it was before, and opens
  // the new file unless a dead entry in front of it has the name.
  lemma CreatedIsSafe(v: Vol, name: seq<byte>, window: nat, v': Vol, slot: int)
    requires |name| >= NAME_SIZE && WindowFits(v.fat, window)
    requires SaveStep(v, CreateRequest(name), window, Saved, v')
    requires |name| == NAME_SIZE && Find(v.dir, name).Some? ==> Existing(v, name)
    ensures OpenFrom(v', v'.dir, name, slot) == (
              if |name| > NAME_SIZE then Refused
              else if NewUpTo(v.dir, name, FindEmpty(v.dir, ROOT_ENTRIES).value)
                then Opened(FreshFile(slot, 512, NewFileData()[..512]))
              else OpenFrom(v, v.dir, name, slot))
  {
    hide FreshFile, NewFileData, LoadAs, Extended;
    if |name| == NAME_SIZE {
      var k, w := FindEmpty(v.dir, ROOT_ENTRIES).value, ChosenClusters(v.fat, window, 1);
      SavedMeansExtended(v, CreateRequest(name), window, v');
      if NewUpTo(v.dir, name, k) {
        CreatedOpens(v, name, w, k, v', slot);
      } else {
        OlderOpens(v, name, w, k, v', slot);
      }
    }
  }

  // ---------------------------------------------------------------- descriptors

  // The first unused descriptor from k on.
  function FreeSlot(objects: seq<File?>, k: nat): (slot: Option<nat>)
    requires k <= |objects|
    ensures slot.Some? ==> k <= slot.value < |objects| && objects[slot.value] == null
    ensures forall i :: k <= i < (if slot.Some? then slot.value else |objects|) ==> objects[i] != null
    decreases |objects| - k
  {
    if k == |objects| then None
    else if objects[k] == null then Some(k)
    else FreeSlot(objects, k + 1)
  }

  // The descriptor table afterwards: one more object, or as before.
  ghost predicate Installed(result: OpenResult, slot: nat, before: seq<File?>, after: seq<File?>, fd: int, panicked: bool)
    requires slot < |before| == |after|
    reads after[slot], if after[slot] == null then {} else {after[slot].base}
  {
    match result
    case Opened(state) =>
      && fd == slot && !panicked
      && after == before[slot := after[slot]]
      && after[slot] != null && after[slot].S() == state
    case Refused => fd == -1 && !panicked && after == before
    case OpenPanicked => panicked && after == before
    case OpenUnsafe => true
  }

  // Opening `name` of directory `dir` with the table `before`.
  ghost predicate Answered(v: Vol, dir: DirImage, name: seq<byte>, before: seq<File?>, after: seq<File?>,
                           fd: int, panicked: bool)
    requires |before| == |after|
    reads set i: int | 0 <= i < |after| :: after[i]
    reads set i: int | 0 <= i < |after| && after[i] != null :: after[i].base
  {
    match FreeSlot(before, 0)
    case None => fd == -1 && !panicked && after == before
    case Some(slot) => Installed(OpenFrom(v, dir, name, slot), slot, before, after, fd, panicked)
  }

  // The part of do_read_file_from_disk behind the search.
  method InstallFile(vol: BootVolume, objects: array<File?>, source: array<byte>, name: seq<byte>)
    returns (fd: int, panicked: bool)
    requires vol.Valid() && source.Length == DIR_BYTES && objects.Length == OBJECTS
    requires OpenFrom(vol.V(), source[..], name, 0) != OpenUnsafe
    modifies vol.dir, objects
    ensures vol.Valid() && vol.dir[..] == old(vol.dir[..])
    ensures Answered(old(vol.V()), old(source[..]), name, old(objects[..]), objects[..], fd, panicked)
  {
    fd, panicked := -1, false;
    var slot := 0;
    while slot < OBJECTS && objects[slot] != null
      invariant 0 <= slot <= OBJECTS
      invariant FreeSlot(objects[..], 0) == FreeSlot(objects[..], slot)
    {
      slot := slot + 1;
    }
    if slot < OBJECTS {
      var f: File?;
      f, panicked := LoadIntoFile(vol, source, name, slot);
      if f != null {
        objects[slot] := f;
        fd := slot;
      }
    }
  }

  // A failed open: nothing is installed.
  ghost predicate Failed(before: seq<File?>, after: seq<File?>, fd: int, panicked: bool) {
    fd == -1 && !panicked && after == before
  }

  // Everything an open does: `created` is the status of the save, if one was tried.
  ghost predicate OpenMeets(v: Vol, dir: DirImage, name: seq<byte>, window: nat, create: bool, before: seq<File?>,
                            v': Vol, after: seq<File?>, fd: int, panicked: bool, created: Option<SaveStatus>)
    requires |before| == |after| && WindowFits(v.fat, window) && (|name| == 0 || |name| >= NAME_SIZE)
    reads set i: int | 0 <= i < |after| :: after[i]
    reads set i: int | 0 <= i < |after| && after[i] != null :: after[i].base
  {
    && (created.Some? <==> create && name != [] && !Listed(dir, name))
    && (created.None? ==> v' == v)
    && (created.Some? ==> SaveStep(v, CreateRequest(name), window, created.value, v'))
    && if Listed(dir, name) then Answered(v, dir, name, before, after, fd, panicked)
       else if created == Some(Saved) then Answered(v', v'.dir, name, before, after, fd, panicked)
       else Failed(before, after, fd, panicked)
  }

  // Only entries that open passes over, deleted ones for instance, have the name.
  ghost predicate DeadMatch(dir: DirImage, name: seq<byte>) {
    |name| == NAME_SIZE && !Listed(dir, name) && Find(dir, name).Some?
  }

  // Search, create if asked to, and install.
  method OpenInDirectory(vol: BootVolume, objects: array<File?>, source: array<byte>, name: seq<byte>, create: bool)
    returns (fd: int, panicked: bool, ghost created: Option<SaveStatus>)
    requires vol.Valid() && source.Length == DIR_BYTES && objects.Length == OBJECTS
    requires |name| == 0 || |name| >= NAME_SIZE
    requires OpenFrom(vol.V(), source[..], name, 0) != OpenUnsafe
    requires create ==> source == vol.dir
    requires create && DeadMatch(source[..], name) ==> Existing(vol.V(), name)
    modifies vol.dir, vol.fat, vol.clustersToSave, vol`disk, objects
    ensures vol.Valid()
    ensures OpenMeets(old(vol.V()), old(source[..]), name, vol.window, create, old(objects[..]),
                      vol.V(), objects[..], fd, panicked, created)
  {
    fd, panicked, created := -1, false, None;
    var found := SearchInDir(source, name);
    if found != 1 && create && |name| > 0 {
      ghost var before := vol.V();
      var status := vol.SaveFile(CreateRequest(name));
      created := Some(status);
      if status == Saved {
        CreatedIsSafe(before, name, vol.window, vol.V(), 0);
        found := 1;
      }
    }
    if found == 1 {
      fd, panicked := InstallFile(vol, objects, source, name);
    }
  }

  // ---------------------------------------------------------------- paths

  // The directory that a path names: the root directory, or one of two loaded ones.
  datatype Place = RootDir | GramadoDir | DeDir

  function WithoutSlash(path: seq<byte>): seq<byte> {
    if path != [] && path[0] == SLASH then path[1..] else path
  }

  function PlaceOf(path: seq<byte>): Place {
    var p := WithoutSlash(path);
    if p == [] then RootDir else if p[0] == AT then GramadoDir else if p[0] == HASH then DeDir else RootDir
  }

  function NamePart(path: seq<byte>): seq<byte> {
    if PlaceOf(path) == RootDir then WithoutSlash(path) else WithoutSlash(path)[1..]
  }

  // The name searched for: converted, without the NUL.
  function SoughtName(path: seq<byte>): seq<byte>
    requires NameFits(NamePart(path))
  {
    Converted(NamePart(path), Blanks3())
  }

  // fs_fntos2 on the string that starts at the name.
  method ConvertName(text: seq<byte>) returns (name: seq<byte>)
    requires NameFits(text)
    ensures name == Converted(text, Blanks3())
    ensures |name| == 0 || |name| >= NAME_SIZE
  {
    var buffer := new byte[|text|](i requires 0 <= i < |text| => text[i]);
    assert buffer[..] == text;
    FnToS2(buffer);
    ghost var converted := Converted(text, Blanks3());
    assert buffer[..|converted|] == converted && buffer[|converted|] == NUL;
    NoInnerNul(text);
    var n := 0;
    while buffer[n] != NUL
      invariant 0 <= n <= |converted|
      decreases |converted| - n
    {
      assert n < |converted|;
      n := n + 1;
    }
    name := buffer[..n];
  }

  lemma NoInnerNul(s: seq<byte>)
    requires NameFits(s)
    ensures forall i :: 0 <= i < |Converted(s, Blanks3())| ==> Converted(s, Blanks3())[i] != NUL
  {
  }

  // What loading relies on, and what creating relies on.
  ghost predicate OpenAllowed(v: Vol, dir: DirImage, name: seq<byte>, create: bool) {
    && OpenFrom(v, dir, name, 0) != OpenUnsafe
    && (create ==> dir == v.dir)
    && (create && DeadMatch(dir, name) ==> Existing(v, name))
  }

  function DirectoryAt(place: Place, root: array<byte>, gramado: array?<byte>, de: array?<byte>): array?<byte> {
    match place
    case RootDir => root
    case GramadoDir => gramado
    case DeDir => de
  }

  // do_read_file_from_disk; a directory that is not set up is null.
  method OpenFile(vol: BootVolume, objects: array<File?>, path: seq<byte>, create: bool,
                  gramado: array?<byte>, de: array?<byte>)
    returns (fd: int, panicked: bool, ghost created: Option<SaveStatus>)
    requires vol.Valid() && objects.Length == OBJECTS
    requires gramado != null ==> gramado.Length == DIR_BYTES
    requires de != null ==> de.Length == DIR_BYTES
    requires path != [] && NameFits(NamePart(path))
    requires create ==> PlaceOf(path) == RootDir
    requires var source := DirectoryAt(PlaceOf(path), vol.dir, gramado, de);
             source != null ==> OpenAllowed(vol.V(), source[..], SoughtName(path), create)
    modifies vol.dir, vol.fat, vol.clustersToSave, vol`disk, objects
    ensures vol.Valid()
    ensures path[0] == NUL ==> fd == -EINVAL && !panicked && vol.V() == old(vol.V()) && objects[..] == old(objects[..])
    ensures var source := DirectoryAt(PlaceOf(path), vol.dir, gramado, de);
            && (path[0] != NUL && source == null ==> Failed(old(objects[..]), objects[..], fd, panicked) && vol.V() == old(vol.V()))
            && (path[0] != NUL && source != null ==>
                  && (|SoughtName(path)| == 0 || |SoughtName(path)| >= NAME_SIZE)
                  && OpenMeets(old(vol.V()), old(source[..]), SoughtName(path), vol.window, create, old(objects[..]),
                               vol.V(), objects[..], fd, panicked, created))
  {
    fd, panicked, created := -1, false, None;
    if path[0] == NUL {
      return -EINVAL, false, None;
    }
    var start := 0;
    if path[0] == SLASH {
      start := 1;
    }
    var source: array?<byte> := vol.dir;
    if path[start] == AT {
      source := gramado;
      start := start + 1;
    } else if path[start] == HASH {
      source := de;
      start := start + 1;
    }
    if source != null {
      assert path[start..] == NamePart(path);
      var name := ConvertName(path[start..]);
      fd, panicked, created := OpenInDirectory(vol, objects, source, name, create);
    }
  }
}
