// fs_load_path: walking /A/B/F.EXT by loading one directory after the other.
module PathWalk {
  import opened Bytes
  import opened FatTable
  import opened Directory
  import opened Volume

  const N_BUFFERS: nat := 5     // FS_N_BUFFERS
  const MAX_CHARS: nat := 2000

  // A C string: no byte is NUL; the terminator stands behind the last one.
  ghost predicate CString(path: seq<byte>) {
    forall i :: 0 <= i < |path| ==> path[i] != 0
  }

  // ---------------------------------------------------------------- one path level

  datatype Component =
    | FileName(name: seq<byte>)             // the last level, in 8.3 form
    | DirName(name: seq<byte>, next: nat)   // padded to 11 bytes; next is the following '/'
    | Skipped(next: nat)                    // 12 characters without '.' or '/'
    | BadName                               // panic
    | Overread                              // reads behind the terminator

  function PaddedDir(path: seq<byte>, start: nat, n: nat): seq<byte>
    requires start + n <= |path| && n <= 11
  {
    seq(11, j requires 0 <= j < 11 => if j < n then path[start + j] else SPACE)
  }

  // The base before the dot at start + n, and up to three bytes behind it.
  function PaddedFile(path: seq<byte>, start: nat, n: nat): seq<byte>
    requires start + n < |path| && n <= 8
  {
    seq(11, j requires 0 <= j < 11 =>
      if j < 8 then if j < n then path[start + j] else SPACE
      else if start + n + 1 + (j - 8) < |path| then path[start + n + 1 + (j - 8)] else SPACE)
  }

  // The level starting behind its '/', from its i-th character on.
  function Scan(path: seq<byte>, start: nat, i: nat, last: bool): Component
    requires i <= 12
    decreases |path| + 12 - i
  {
    if i == 12 then Skipped(start + 12)
    else if start + i > |path| then Overread
    else if start + i == |path| then Scan(path, start, i + 1, last)
    else if path[start + i] == DOT then
      if !last || i == 0 || i > 8 then BadName else FileName(PaddedFile(path, start, i))
    else if path[start + i] == SLASH then
      if i == 0 || i >= 11 then BadName else DirName(PaddedDir(path, start, i), start + i)
    else Scan(path, start, i + 1, last)
  }

  // Character by character into name_buffer.
  method ParseLevel(path: seq<byte>, start: nat, last: bool) returns (c: Component)
    requires CString(path)
    ensures c == Scan(path, start, 0, last)
  {
    var nameBuffer := new byte[12];
    var i := 0;
    var p := start;
    while i < 12
      invariant 0 <= i <= 12 && p == start + i
      invariant Scan(path, start, 0, last) == Scan(path, start, i, last)
      invariant forall j :: 0 <= j < i && start + j < |path| ==> nameBuffer[j] == path[start + j]
    {
      if p > |path| {
        return Overread;
      }
      var ch := if p < |path| then path[p] else 0;
      nameBuffer[i] := ch;
      if ch == DOT {
        if !last || i == 0 || i > 8 {
          return BadName;
        }
        CompleteFileName(path, start, i, nameBuffer);
        nameBuffer[11] := 0;
        assert nameBuffer[..11] == PaddedFile(path, start, i);
        return FileName(nameBuffer[..11]);
      }
      if ch == SLASH {
        if i == 0 || i >= 11 {
          return BadName;
        }
        var m := i;
        while m < 11
          invariant i <= m <= 11
          invariant forall j :: 0 <= j < i ==> nameBuffer[j] == path[start + j]
          invariant forall j :: i <= j < m ==> nameBuffer[j] == SPACE
        {
          nameBuffer[m] := SPACE;
          m := m + 1;
        }
        nameBuffer[11] := 0;
        assert nameBuffer[..11] == PaddedDir(path, start, i);
        return DirName(nameBuffer[..11], p);
      }
      i := i + 1;
      p := p + 1;
    }
    return Skipped(p);
  }

  // The dot was found at start + n: pad the base, copy the extension, pad it.
  method CompleteFileName(path: seq<byte>, start: nat, n: nat, nameBuffer: array<byte>)
    requires CString(path) && nameBuffer.Length == 12
    requires start + n < |path| && n <= 8
    requires forall j :: 0 <= j < n ==> nameBuffer[j] == path[start + j]
    modifies nameBuffer
    ensures nameBuffer[..11] == PaddedFile(path, start, n)
  {
    var i := n;
    while i < 8
      invariant n <= i <= 8
      invariant forall j :: 0 <= j < n ==> nameBuffer[j] == path[start + j]
      invariant forall j :: n <= j < i ==> nameBuffer[j] == SPACE
    {
      nameBuffer[i] := SPACE;
      i := i + 1;
    }
    ghost var name := PaddedFile(path, start, n);
    assert forall j :: 0 <= j < 8 ==> nameBuffer[j] == name[j];
    var p := start + n + 1;
    i := 8;
    while i < 11
      invariant 8 <= i <= 11 && p == start + n + 1 + (i - 8) && p <= |path|
      invariant forall j :: 0 <= j < i ==> nameBuffer[j] == name[j]
    {
      if p == |path| {
        break;
      }
      nameBuffer[i] := path[p];
      i := i + 1;
      p := p + 1;
    }
    while i < 11
      invariant 8 <= i <= 11 && (i < 11 ==> p == |path|) && p <= start + n + 1 + (i - 8)
      invariant forall j :: 0 <= j < i ==> nameBuffer[j] == name[j]
    {
      nameBuffer[i] := SPACE;
      i := i + 1;
    }
    assert nameBuffer[..11] == name;
  }

  // ---------------------------------------------------------------- the walk

  datatype PathResult =
    | PathLoaded(bytes: seq<byte>)  // 0: these bytes stand at the start of the buffer
    | PathFailed                    // -1
    | PathPanicked                  // the kernel stops
    | PathUnsafe                    // reads behind the path, or a load that is unsafe

  // What one call works on. `stale` is what the directory buffers hold before the call:
  // they are never cleared.
  datatype Context = Context(
    fat: Fat, disk: Disk, stale: seq<DirImage>, path: seq<byte>, levels: nat, capacity: nat, bufferSize: nat)

  // The directory buffer after loading: the directory in front of what was there before.
  function Overlay(bytes: seq<byte>, stale: DirImage): DirImage
    requires |bytes| <= DIR_BYTES
  {
    seq(16384, i requires 0 <= i < 16384 => if i < |bytes| then bytes[i] else stale[i])
  }

  function LoadInto(c: Context, dir: DirImage, name: seq<byte>): LoadResult {
    LoadOutcome(c.fat, c.disk, dir, ROOT_ENTRIES, name, DIR_BYTES, DIR_BYTES)
  }

  function LoadLast(c: Context, dir: DirImage, name: seq<byte>): LoadResult {
    LoadOutcome(c.fat, c.disk, dir, ROOT_ENTRIES, name, c.capacity, c.bufferSize)
  }

  function WalkFrom(c: Context, dir: DirImage, l: nat, p: nat): PathResult
    requires |c.stale| == N_BUFFERS && c.levels < N_BUFFERS && l <= c.levels
    decreases c.levels - l
  {
    if l == c.levels then PathFailed
    else if p > |c.path| then PathUnsafe
    else if p == |c.path| || c.path[p] != SLASH then PathPanicked
    else
      match Scan(c.path, p + 1, 0, l == c.levels - 1)
      case Overread => PathUnsafe
      case BadName => PathPanicked
      case Skipped(next) => WalkFrom(c, dir, l + 1, next)
      case FileName(name) =>
        (match LoadLast(c, dir, name)
         case Loaded(bytes) => PathLoaded(bytes)
         case LoadUnsafe => PathUnsafe
         case _ => PathPanicked)
      case DirName(name, next) =>
        match LoadInto(c, dir, name)
        case Loaded(bytes) =>
          if |bytes| > DIR_BYTES then PathUnsafe
          else WalkFrom(c, Overlay(bytes, c.stale[l]), l + 1, next)
        case LoadUnsafe => PathUnsafe
        case _ => PathPanicked
  }

  // What the directory buffers hold after a walk that does not panic; `now` is what they hold at level l.
  function LeftFrom(c: Context, dir: DirImage, l: nat, p: nat, now: seq<DirImage>): (left: seq<DirImage>)
    requires |c.stale| == N_BUFFERS == |now| && c.levels < N_BUFFERS && l <= c.levels
    ensures |left| == N_BUFFERS
    decreases c.levels - l
  {
    if l == c.levels || p >= |c.path| || c.path[p] != SLASH then now
    else
      match Scan(c.path, p + 1, 0, l == c.levels - 1)
      case Overread => now
      case BadName => now
      case Skipped(next) => LeftFrom(c, dir, l + 1, next, now)
      case FileName(name) => now
      case DirName(name, next) =>
        match LoadInto(c, dir, name)
        case Loaded(bytes) =>
          if |bytes| > DIR_BYTES then now
          else
            var here := Overlay(bytes, c.stale[l]);
            LeftFrom(c, here, l + 1, next, now[l := here])
        case _ => now
  }

  // fs_count_path_levels: the '/' among the first 2000 characters.
  function CountLevels(path: seq<byte>, i: nat): nat
    requires i <= |path|
    decreases |path| - i
  {
    if i == |path| || i >= MAX_CHARS then 0
    else (if path[i] == SLASH then 1 else 0) + CountLevels(path, i + 1)
  }

  method CountPathLevels(path: seq<byte>) returns (counter: nat)
    requires CString(path)
    ensures counter == CountLevels(path, 0)
  {
    counter := 0;
    if |path| == 0 {
      return;
    }
    var i := 0;
    while i < MAX_CHARS
      invariant 0 <= i <= MAX_CHARS && i <= |path|
      invariant counter + CountLevels(path, i) == CountLevels(path, 0)
    {
      if i == |path| {
        break;
      }
      if path[i] == SLASH {
        counter := counter + 1;
      }
      i := i + 1;
    }
  }

  function PathOutcome(fat: Fat, disk: Disk, root: DirImage, stale: seq<DirImage>,
                       path: seq<byte>, capacity: nat, bufferSize: nat): PathResult
    requires |stale| == N_BUFFERS
  {
    var levels := CountLevels(path, 0);
    if path == [] || bufferSize == 0 || levels == 0 || levels >= N_BUFFERS then PathPanicked
    else if path[0] != SLASH then PathPanicked
    else WalkFrom(Context(fat, disk, stale, path, levels, capacity, bufferSize % 0x1_0000_0000), root, 0, 0)
  }

  // The directory buffers after the call.
  function BuffersAfter(fat: Fat, disk: Disk, root: DirImage, stale: seq<DirImage>,
                        path: seq<byte>, capacity: nat, bufferSize: nat): seq<DirImage>
    requires |stale| == N_BUFFERS
  {
    var levels := CountLevels(path, 0);
    if levels >= N_BUFFERS then stale
    else LeftFrom(Context(fat, disk, stale, path, levels, capacity, bufferSize % 0x1_0000_0000), root, 0, 0, stale)
  }

  datatype PathStatus = PathOk | PathFail | PathPanic

  ghost predicate PathMeets(result: PathResult, status: PathStatus, before: seq<byte>, after: seq<byte>) {
    match result
    case PathLoaded(bytes) => status == PathOk && |bytes| <= |before| && after == bytes + before[|bytes|..]
    case PathFailed => status == PathFail && after == before
    case PathPanicked => status == PathPanic
    case PathUnsafe => true
  }

  // The directory buffers: five different arrays of 512 entries.
  ghost predicate BuffersFit(v: BootVolume, buffers: seq<array<byte>>, file: array<byte>) {
    && |buffers| == N_BUFFERS
    && file != v.dir
    && (forall i :: 0 <= i < N_BUFFERS ==> buffers[i].Length == DIR_BYTES && buffers[i] != v.dir && buffers[i] != file)
    && (forall i, j :: 0 <= i < j < N_BUFFERS ==> buffers[i] != buffers[j])
  }

  ghost function Images(buffers: seq<array<byte>>): seq<DirImage>
    requires forall i :: 0 <= i < |buffers| ==> buffers[i].Length == DIR_BYTES
    reads buffers
  {
    seq(|buffers|, i requires 0 <= i < |buffers| reads buffers => var image: DirImage := buffers[i][..]; image)
  }

  // Loading one directory of the path into its buffer.
  method LoadLevel(v: BootVolume, source: array<byte>, name: seq<byte>, target: array<byte>, ghost result: LoadResult)
    returns (ok: bool)
    requires v.Valid() && source.Length == DIR_BYTES == target.Length && target != v.dir && target != source
    requires result == LoadOutcome(v.fat[..], v.disk, source[..], ROOT_ENTRIES, name, DIR_BYTES, DIR_BYTES)
    requires result != LoadUnsafe
    modifies v.dir, target
    ensures v.Valid() && v.dir[..] == old(v.dir[..]) && source[..] == old(source[..])
    ensures ok <==> result.Loaded?
    ensures ok ==> |result.bytes| <= DIR_BYTES && target[..] == Overlay(result.bytes, old(target[..]))
  {
    var status := v.LoadFile(source, ROOT_ENTRIES, name, target, DIR_BYTES);
    ok := status == LoadOk;
  }

  // fs_load_path
  method LoadPath(v: BootVolume, buffers: seq<array<byte>>, path: seq<byte>, file: array<byte>, bufferSize: nat)
    returns (status: PathStatus)
    requires v.Valid() && BuffersFit(v, buffers, file) && CString(path)
    requires PathOutcome(v.fat[..], v.disk, v.dir[..], Images(buffers), path, file.Length, bufferSize) != PathUnsafe
    modifies v.dir, file, buffers
    ensures v.Valid() && v.dir[..] == old(v.dir[..])
    ensures PathMeets(old(PathOutcome(v.fat[..], v.disk, v.dir[..], Images(buffers), path, file.Length, bufferSize)),
                      status, old(file[..]), file[..])
    ensures status != PathPanic ==>
              var left := old(BuffersAfter(v.fat[..], v.disk, v.dir[..], Images(buffers), path, file.Length, bufferSize));
              Images(buffers) == left
  {
    if |path| == 0 || bufferSize == 0 {
      return PathPanic;
    }
    var levels := CountPathLevels(path);
    if levels <= 0 || levels >= N_BUFFERS {
      return PathPanic;
    }
    if path[0] != SLASH {
      return PathPanic;
    }
    ghost var c := Context(v.fat[..], v.disk, Images(buffers), path, levels, file.Length, bufferSize % 0x1_0000_0000);
    status := WalkLevels(v, buffers, path, file, c, levels, bufferSize % 0x1_0000_0000);
  }

  // Between two levels: `source` holds the directory `here`; the buffers from l on are untouched.
  ghost predicate AtLevel(v: BootVolume, buffers: seq<array<byte>>, file: array<byte>, c: Context,
                          source: array<byte>, here: DirImage, l: nat)
    reads v, v.fat, v.dir, buffers, source
  {
    && BuffersFit(v, buffers, file)
    && v.Valid() && v.fat[..] == c.fat && v.disk == c.disk
    && |c.stale| == N_BUFFERS && c.capacity == file.Length
    && source.Length == DIR_BYTES && source != file && source[..] == here
    && (forall i :: l <= i < N_BUFFERS ==> source != buffers[i])
    && (forall i :: l <= i < N_BUFFERS ==> buffers[i][..] == c.stale[i])
  }

  // A directory level: load it into buffer l and go on from there.
  method EnterDirectory(v: BootVolume, buffers: seq<array<byte>>, file: array<byte>, ghost c: Context,
                        source: array<byte>, ghost here: DirImage, l: nat, name: seq<byte>)
    returns (ok: bool)
    requires l < N_BUFFERS && AtLevel(v, buffers, file, c, source, here, l)
    requires LoadInto(c, here, name) != LoadUnsafe
    modifies v.dir, buffers[l]
    ensures v.dir[..] == old(v.dir[..])
    ensures ok <==> LoadInto(c, here, name).Loaded?
    ensures ok ==> |LoadInto(c, here, name).bytes| <= DIR_BYTES
    ensures ok ==> AtLevel(v, buffers, file, c, buffers[l], Overlay(LoadInto(c, here, name).bytes, c.stale[l]), l + 1)
  {
    ghost var result := LoadInto(c, here, name);
    ok := LoadLevel(v, source, name, buffers[l], result);
  }

  // The last level: load the file for the caller.
  method EnterFile(v: BootVolume, buffers: seq<array<byte>>, file: array<byte>, ghost c: Context,
                   source: array<byte>, ghost here: DirImage, ghost l: nat, name: seq<byte>, bufferSize: nat)
    returns (status: PathStatus)
    requires l < N_BUFFERS && AtLevel(v, buffers, file, c, source, here, l) && c.bufferSize == bufferSize
    requires LoadLast(c, here, name) != LoadUnsafe
    modifies v.dir, file
    ensures v.Valid() && v.dir[..] == old(v.dir[..])
    ensures status == (if LoadLast(c, here, name).Loaded? then PathOk else PathPanic)
    ensures LoadLast(c, here, name).Loaded? ==>
              var bytes := LoadLast(c, here, name).bytes;
              |bytes| <= file.Length && file[..] == bytes + old(file[..])[|bytes|..]
  {
    var loaded := v.LoadFile(source, ROOT_ENTRIES, name, file, bufferSize);
    status := if loaded == LoadOk then PathOk else PathPanic;
  }

  // What one round of the level loop leads to.
  datatype Round = Return(status: PathStatus) | Stay(p: nat) | Descend(p: nat)

  // The directory buffers hold these images.
  ghost predicate Hold(buffers: seq<array<byte>>, now: seq<DirImage>)
    reads buffers
  {
    |now| == |buffers| == N_BUFFERS && forall i :: 0 <= i < N_BUFFERS ==> buffers[i][..] == now[i]
  }

  // The rest of the walk leaves the same buffers, seen from both ends of a round.
  ghost predicate LeftBy(c: Context, here: DirImage, l: nat, p: nat, now: seq<DirImage>,
                         round: Round, here': DirImage, now': seq<DirImage>)
    requires |c.stale| == N_BUFFERS == |now| == |now'| && l < c.levels < N_BUFFERS
  {
    match round
    case Return(_) => LeftFrom(c, here, l, p, now) == now'
    case Stay(q) => LeftFrom(c, here, l, p, now) == LeftFrom(c, here', l + 1, q, now')
    case Descend(q) => LeftFrom(c, here, l, p, now) == LeftFrom(c, here', l + 1, q, now')
  }

  method WalkLevel(v: BootVolume, buffers: seq<array<byte>>, path: seq<byte>, file: array<byte>, ghost c: Context,
                   source: array<byte>, ghost here: DirImage, l: nat, p: nat, levels: nat, bufferSize: nat,
                   ghost now: seq<DirImage>)
    returns (round: Round, ghost here': DirImage, ghost now': seq<DirImage>)
    requires CString(path) && l < levels < N_BUFFERS
    requires c.path == path && c.levels == levels && c.bufferSize == bufferSize
    requires AtLevel(v, buffers, file, c, source, here, l) && Hold(buffers, now)
    requires WalkFrom(c, here, l, p) != PathUnsafe
    modifies v.dir, file, buffers
    ensures v.Valid() && v.dir[..] == old(v.dir[..])
    ensures round.Return? ==> PathMeets(WalkFrom(c, here, l, p), round.status, old(file[..]), file[..])
    ensures !round.Return? ==>
              && file[..] == old(file[..])
              && AtLevel(v, buffers, file, c, if round.Stay? then source else buffers[l], here', l + 1)
              && WalkFrom(c, here', l + 1, round.p) == WalkFrom(c, here, l, p)
    ensures round != Return(PathPanic) ==> Hold(buffers, now') && LeftBy(c, here, l, p, now, round, here', now')
  {
    here', now' := here, now;
    if p >= |path| || path[p] != SLASH {
      round := Return(PathPanic);
    } else {
      var component := ParseLevel(path, p + 1, l == levels - 1);
      match component {
        case Overread =>
          assert false;
        case BadName =>
          round := Return(PathPanic);
        case Skipped(next) =>
          round := Stay(next);
        case FileName(name) =>
          var status := EnterFile(v, buffers, file, c, source, here, l, name, bufferSize);
          round := Return(status);
        case DirName(name, next) =>
          var ok := EnterDirectory(v, buffers, file, c, source, here, l, name);
          if ok {
            here' := Overlay(LoadInto(c, here, name).bytes, c.stale[l]);
            now' := now[l := here'];
            round := Descend(next);
          } else {
            round := Return(PathPanic);
          }
      }
    }
  }

  // The loop over the levels.
  method WalkLevels(v: BootVolume, buffers: seq<array<byte>>, path: seq<byte>, file: array<byte>, ghost c: Context,
                    levels: nat, bufferSize: nat)
    returns (status: PathStatus)
    requires CString(path) && levels < N_BUFFERS
    requires c.path == path && c.levels == levels && c.bufferSize == bufferSize
    requires v.dir.Length == DIR_BYTES && AtLevel(v, buffers, file, c, v.dir, v.dir[..], 0)
    requires WalkFrom(c, v.dir[..], 0, 0) != PathUnsafe
    modifies v.dir, file, buffers
    ensures v.Valid() && v.dir[..] == old(v.dir[..])
    ensures PathMeets(WalkFrom(c, old(v.dir[..]), 0, 0), status, old(file[..]), file[..])
    ensures status != PathPanic ==> Hold(buffers, LeftFrom(c, old(v.dir[..]), 0, 0, c.stale))
  {
    hide WalkFrom, LeftFrom;
    ghost var root: DirImage := v.dir[..];
    ghost var now := c.stale;
    ghost var result, before := WalkFrom(c, root, 0, 0), file[..];
    var source := v.dir;
    ghost var here := root;
    var p: nat, l: nat := 0, 0;
    while l < levels
      invariant 0 <= l <= levels
      invariant AtLevel(v, buffers, file, c, source, here, l)
      invariant v.dir[..] == root && file[..] == before
      invariant WalkFrom(c, here, l, p) == result
      invariant Hold(buffers, now)
      invariant LeftFrom(c, here, l, p, now) == LeftFrom(c, root, 0, 0, c.stale)
    {
      var round;
      round, here, now := WalkLevel(v, buffers, path, file, c, source, here, l, p, levels, bufferSize, now);
      if round.Return? {
        return round.status;
      }
      source := if round.Descend? then buffers[l] else source;
      p := round.p;
      l := l + 1;
    }
    WalkEnds(c, here, p, now);
    return PathFail;
  }

  lemma WalkEnds(c: Context, here: DirImage, p: nat, now: seq<DirImage>)
    requires |c.stale| == N_BUFFERS == |now| && c.levels < N_BUFFERS
    ensures WalkFrom(c, here, c.levels, p) == PathFailed && LeftFrom(c, here, c.levels, p, now) == now
  {
  }
}
