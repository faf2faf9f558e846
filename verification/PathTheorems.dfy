// fs_load_path against a recursive resolution of path names over the directory tree.
module PathTheorems {
  import opened Bytes
  import opened FatTable
  import opened Directory
  import opened Volume
  import opened PathWalk

  // ---------------------------------------------------------------- the directory tree

  // The first matching entry of a directory of any length.
  function FirstEntry(content: seq<byte>, name: seq<byte>, k: nat): (r: Option<nat>)
    requires |name| <= NAME_SIZE
    ensures r.Some? ==> 32 * r.value + 32 <= |content|
    decreases |content| - k
  {
    if 32 * k + 32 > |content| then None
    else if Matches(content, name, k) then Some(k)
    else FirstEntry(content, name, k + 1)
  }

  // A file: the size its entry states and the bytes of its chain.
  datatype File = File(size: nat, bytes: seq<byte>)

  function FileAt(fat: Fat, disk: Disk, content: seq<byte>, k: nat): Option<File>
    requires 32 * k + 32 <= |content|
  {
    var first := FirstCluster(content, k);
    if first == 0 || first > MAX_CLUSTER || TrailOf(fat, first).stop != EndOfChain then None
    else Some(File(SizeOf(content, k), ReadClusters(disk, TrailOf(fat, first).clusters)))
  }

  function Member(fat: Fat, disk: Disk, content: seq<byte>, name: seq<byte>): Option<File>
    requires |name| <= NAME_SIZE
  {
    match FirstEntry(content, name, 0)
    case Some(k) => FileAt(fat, disk, content, k)
    case None => None
  }

  // The 8.3 forms of path components.
  function PadDir(d: seq<byte>): (n: seq<byte>)
    ensures |n| == NAME_SIZE
  {
    seq(11, j requires 0 <= j < 11 => if j < |d| then d[j] else SPACE)
  }

  function PadFile(base: seq<byte>, ext: seq<byte>): (n: seq<byte>)
    ensures |n| == NAME_SIZE
  {
    seq(11, j requires 0 <= j < 11 =>
      if j < 8 then if j < |base| then base[j] else SPACE
      else if j - 8 < |ext| then ext[j - 8] else SPACE)
  }

  // The file a path names, starting in the directory `content`.
  function Resolve(fat: Fat, disk: Disk, content: seq<byte>, dirs: seq<seq<byte>>, base: seq<byte>, ext: seq<byte>): Option<File>
    decreases |dirs|
  {
    if dirs == [] then Member(fat, disk, content, PadFile(base, ext))
    else
      match Member(fat, disk, content, PadDir(dirs[0]))
      case None => None
      case Some(d) =>
        if |d.bytes| > DIR_BYTES || d.size >= DIR_BYTES then None
        else Resolve(fat, disk, d.bytes, dirs[1..], base, ext)
  }

  // ---------------------------------------------------------------- path names

  // No '/' and no '.'.
  ghost predicate Plain(s: seq<byte>) {
    forall i :: 0 <= i < |s| ==> s[i] != SLASH && s[i] != DOT
  }

  ghost predicate NoSlash(s: seq<byte>) {
    forall i :: 0 <= i < |s| ==> s[i] != SLASH
  }

  ghost predicate At(path: seq<byte>, p: nat, s: seq<byte>) {
    p + |s| <= |path| && forall j :: 0 <= j < |s| ==> s[j] == path[p + j]
  }

  // What may stand between two slashes: a directory name, or twelve characters that the walk passes over.
  datatype Level = Named(name: seq<byte>) | Passed(name: seq<byte>)

  ghost predicate ProperLevel(v: Level) {
    Plain(v.name) && if v.Named? then 1 <= |v.name| <= 10 else |v.name| == 12
  }

  // Up to three levels, a base of 1 to 8 plain characters, and anything without a slash behind the dot.
  ghost predicate ProperSplit(levels: seq<Level>, base: seq<byte>, rest: seq<byte>) {
    && |levels| <= 3
    && (forall i :: 0 <= i < |levels| ==> ProperLevel(levels[i]))
    && 1 <= |base| <= 8 && Plain(base) && NoSlash(rest)
  }

  // From p on, the path reads /level/.../level/base.rest to its end.
  ghost predicate Splits(path: seq<byte>, p: nat, levels: seq<Level>, base: seq<byte>, rest: seq<byte>)
    decreases |levels|
  {
    && p < |path| && path[p] == SLASH
    && if levels == [] then
         && At(path, p + 1, base)
         && At(path, p + 1 + |base|, [DOT])
         && At(path, p + 2 + |base|, rest)
         && p + 2 + |base| + |rest| == |path|
       else
         && At(path, p + 1, levels[0].name)
         && Splits(path, p + 1 + |levels[0].name|, levels[1..], base, rest)
  }

  function AllNamed(dirs: seq<seq<byte>>): seq<Level> {
    seq(|dirs|, i requires 0 <= i < |dirs| => Named(dirs[i]))
  }

  // Up to three directories of 1 to 10 plain characters, then a base of 1 to 8 and an extension of at most 3.
  ghost predicate WellFormed(dirs: seq<seq<byte>>, base: seq<byte>, ext: seq<byte>) {
    ProperSplit(AllNamed(dirs), base, ext) && |ext| <= 3
  }

  // From p on, the path reads /dir/.../dir/base.ext to its end.
  ghost predicate Spells(path: seq<byte>, p: nat, dirs: seq<seq<byte>>, base: seq<byte>, ext: seq<byte>) {
    Splits(path, p, AllNamed(dirs), base, ext)
  }

  // What the walk makes of a split: the names of the levels it does not pass over, and three bytes behind the dot.
  function Names(levels: seq<Level>): seq<seq<byte>>
    decreases |levels|
  {
    if levels == [] then []
    else (if levels[0].Named? then [levels[0].name] else []) + Names(levels[1..])
  }

  function First3(rest: seq<byte>): seq<byte> {
    if |rest| <= 3 then rest else rest[..3]
  }

  lemma {:induction false} NamesOfAllNamed(dirs: seq<seq<byte>>)
    ensures Names(AllNamed(dirs)) == dirs
    decreases |dirs|
  {
    if dirs != [] {
      NamesOfAllNamed(dirs[1..]);
      assert AllNamed(dirs)[1..] == AllNamed(dirs[1..]);
      assert dirs == [dirs[0]] + dirs[1..];
    }
  }

  lemma {:induction false} AllNamedOfNames(levels: seq<Level>)
    requires forall i :: 0 <= i < |levels| ==> levels[i].Named?
    ensures AllNamed(Names(levels)) == levels
    decreases |levels|
  {
    if levels != [] {
      AllNamedOfNames(levels[1..]);
      assert levels == [levels[0]] + levels[1..];
      assert AllNamed([levels[0].name] + Names(levels[1..])) == [levels[0]] + AllNamed(Names(levels[1..]));
    }
  }

  // ---------------------------------------------------------------- parsing

  lemma {:induction false} ScanPlain(path: seq<byte>, start: nat, i: nat, n: nat, last: bool)
    requires i <= n <= 12 && start + n <= |path|
    requires forall j :: start + i <= j < start + n ==> path[j] != SLASH && path[j] != DOT
    ensures Scan(path, start, i, last) == Scan(path, start, n, last)
    decreases n - i
  {
    if i < n {
      ScanPlain(path, start, i + 1, n, last);
    }
  }

  lemma ScanDirectory(path: seq<byte>, p: nat, d: seq<byte>, last: bool)
    requires 1 <= |d| <= 10 && Plain(d) && At(path, p + 1, d)
    requires p + 1 + |d| < |path| && path[p + 1 + |d|] == SLASH
    ensures Scan(path, p + 1, 0, last) == DirName(PadDir(d), p + 1 + |d|)
  {
    forall j | p + 1 <= j < p + 1 + |d|
      ensures path[j] != SLASH && path[j] != DOT
    {
      assert d[j - (p + 1)] == path[(p + 1) + (j - (p + 1))];
    }
    ScanPlain(path, p + 1, 0, |d|, last);
    assert PaddedDir(path, p + 1, |d|) == PadDir(d);
  }

  lemma ScanFile(path: seq<byte>, p: nat, base: seq<byte>, rest: seq<byte>)
    requires 1 <= |base| <= 8 && Plain(base) && Splits(path, p, [], base, rest)
    ensures Scan(path, p + 1, 0, true) == FileName(PadFile(base, First3(rest)))
  {
    forall j | p + 1 <= j < p + 1 + |base|
      ensures path[j] != SLASH && path[j] != DOT
    {
      assert base[j - (p + 1)] == path[(p + 1) + (j - (p + 1))];
    }
    ScanPlain(path, p + 1, 0, |base|, true);
    assert [DOT][0] == path[p + 1 + |base| + 0];
    var name := PaddedFile(path, p + 1, |base|);
    forall j | 0 <= j < 11
      ensures name[j] == PadFile(base, First3(rest))[j]
    {
      if 8 <= j < 8 + |rest| {
        assert rest[j - 8] == path[(p + 2 + |base|) + (j - 8)];
      }
    }
    assert name == PadFile(base, First3(rest));
  }

  lemma ScanPassed(path: seq<byte>, p: nat, name: seq<byte>, last: bool)
    requires |name| == 12 && Plain(name) && At(path, p + 1, name)
    ensures Scan(path, p + 1, 0, last) == Skipped(p + 13)
  {
    forall j | p + 1 <= j < p + 13
      ensures path[j] != SLASH && path[j] != DOT
    {
      assert name[j - (p + 1)] == path[(p + 1) + (j - (p + 1))];
    }
    ScanPlain(path, p + 1, 0, 12, last);
  }

  // Each level has exactly one '/'.
  lemma {:induction false} CountPlain(path: seq<byte>, i: nat, n: nat)
    requires i <= n <= |path| && n <= MAX_CHARS
    requires forall j :: i <= j < n ==> path[j] != SLASH
    ensures CountLevels(path, i) == CountLevels(path, n)
    decreases n - i
  {
    if i < n {
      CountPlain(path, i + 1, n);
    }
  }

  lemma CountLast(path: seq<byte>, p: nat, base: seq<byte>, rest: seq<byte>)
    requires Plain(base) && NoSlash(rest) && Splits(path, p, [], base, rest) && |path| <= MAX_CHARS
    ensures CountLevels(path, p) == 1
  {
    forall j | p + 1 <= j < |path|
      ensures path[j] != SLASH
    {
      if j < p + 1 + |base| {
        assert base[j - (p + 1)] == path[(p + 1) + (j - (p + 1))];
      } else if j == p + 1 + |base| {
        assert [DOT][0] == path[p + 1 + |base| + 0];
      } else {
        assert rest[j - (p + 2 + |base|)] == path[(p + 2 + |base|) + (j - (p + 2 + |base|))];
      }
    }
    CountPlain(path, p + 1, |path|);
  }

  lemma {:induction false} CountSplit(path: seq<byte>, p: nat, levels: seq<Level>, base: seq<byte>, rest: seq<byte>)
    requires ProperSplit(levels, base, rest) && Splits(path, p, levels, base, rest)
    requires |path| <= MAX_CHARS
    ensures CountLevels(path, p) == |levels| + 1
    decreases |levels|
  {
    if levels == [] {
      CountLast(path, p, base, rest);
    } else {
      var name := levels[0].name;
      var q := p + 1 + |name|;
      assert ProperLevel(levels[0]);
      forall j | p + 1 <= j < q
        ensures path[j] != SLASH
      {
        assert name[j - (p + 1)] == path[(p + 1) + (j - (p + 1))];
      }
      CountPlain(path, p + 1, q);
      CountSplit(path, q, levels[1..], base, rest);
    }
  }

  lemma {:induction false} SplitLength(path: seq<byte>, p: nat, levels: seq<Level>, base: seq<byte>, rest: seq<byte>)
    requires ProperSplit(levels, base, rest) && Splits(path, p, levels, base, rest)
    ensures |path| <= p + 10 + |rest| + 13 * |levels|
    decreases |levels|
  {
    if levels != [] {
      assert ProperLevel(levels[0]);
      SplitLength(path, p + 1 + |levels[0].name|, levels[1..], base, rest);
    }
  }

  // ---------------------------------------------------------------- searching a directory buffer

  // A search of the buffer sees the directory's own entries first.
  lemma {:induction false} FirstEntrySound(content: seq<byte>, name: seq<byte>, k: nat)
    requires |name| <= NAME_SIZE
    ensures var r := FirstEntry(content, name, k);
            && (r.Some? ==> k <= r.value && Matches(content, name, r.value))
            && (forall i :: k <= i && 32 * i + 32 <= |content| && (r.Some? ==> i < r.value) ==> !Matches(content, name, i))
    decreases |content| - k
  {
    if 32 * k + 32 <= |content| && !Matches(content, name, k) {
      FirstEntrySound(content, name, k + 1);
    }
  }

  lemma OverlayEntry(content: seq<byte>, stale: DirImage, name: seq<byte>, k: nat)
    requires |content| <= DIR_BYTES && 32 * k + 32 <= |content| && |name| <= NAME_SIZE
    ensures Matches(Overlay(content, stale), name, k) == Matches(content, name, k)
    ensures FirstCluster(Overlay(content, stale), k) == FirstCluster(content, k)
    ensures SizeOf(Overlay(content, stale), k) == SizeOf(content, k)
  {
  }

  // What a search of the buffer finds: an own entry if there is one, otherwise the first
  // matching entry that an earlier load left behind the directory.
  lemma SearchOverlay(content: seq<byte>, stale: DirImage, name: seq<byte>)
    requires |content| <= DIR_BYTES && |content| % 32 == 0 && |name| <= NAME_SIZE
    ensures Find(Overlay(content, stale), name)
         == if FirstEntry(content, name, 0).Some? then FirstEntry(content, name, 0)
            else FindFrom(stale, name, |content| / 32)
  {
    var d, n := Overlay(content, stale), |content| / 32;
    FirstEntrySound(content, name, 0);
    forall i | 0 <= i < n
      ensures Matches(d, name, i) == Matches(content, name, i)
    {
      OverlayEntry(content, stale, name, i);
    }
    match FirstEntry(content, name, 0)
    case Some(k) =>
      FirstMatchUnique(d, name, Some(k));
    case None =>
      forall i | n <= i < ROOT_ENTRIES
        ensures Matches(d, name, i) == Matches(stale, name, i)
      {
      }
      FindFromSound(stale, name, n);
      FirstMatchUnique(d, name, FindFrom(stale, name, n));
  }

  // So a file that is not in the directory can still be found: an empty directory of one sector,
  // loaded over a buffer whose entry 16 carries the name.
  lemma StaleEntryIsFound(stale: DirImage, name: seq<byte>)
    requires 0 < |name| <= NAME_SIZE && Matches(stale, name, 16)
    ensures var empty := seq(512, i => 0 as byte);
            && FirstEntry(empty, name, 0) == None
            && Find(Overlay(empty, stale), name) == Some(16)
  {
    var empty: seq<byte> := seq(512, i => 0 as byte);
    FirstEntrySound(empty, name, 0);
    SearchOverlay(empty, stale, name);
  }

  // The buffer takes the file.
  ghost predicate Fits(f: File, capacity: nat, bufferSize: nat) {
    f.size < bufferSize <= MAX_LOAD_BYTES && |f.bytes| <= capacity && |f.bytes| / 1024 <= IMAGESIZE_LIMIT_IN_KB
  }

  // The file is there, fits, and holds these bytes.
  ghost predicate Gives(f: Option<File>, capacity: nat, bufferSize: nat, bytes: seq<byte>) {
    f.Some? && Fits(f.value, capacity, bufferSize) && f.value.bytes == bytes
  }

  // Unless an entry left behind the directory takes the place of a missing one,
  // a load from the buffer gives exactly the file that the directory has under the name.
  lemma LoadMemberIff(fat: Fat, disk: Disk, content: seq<byte>, stale: DirImage, name: seq<byte>,
                      capacity: nat, bufferSize: nat, bytes: seq<byte>)
    requires |content| <= DIR_BYTES && |content| % 32 == 0 && |name| == NAME_SIZE && bufferSize < 0x1_0000_0000
    requires FirstEntry(content, name, 0).Some? || FindFrom(stale, name, |content| / 32).None?
    ensures LoadOutcome(fat, disk, Overlay(content, stale), ROOT_ENTRIES, name, capacity, bufferSize) == Loaded(bytes)
       <==> Gives(Member(fat, disk, content, name), capacity, bufferSize, bytes)
  {
    SearchOverlay(content, stale, name);
    hide Overlay, Matches;
    var d := Overlay(content, stale);
    match FirstEntry(content, name, 0)
    case None =>
    case Some(k) =>
      OverlayEntry(content, stale, name, k);
      LoadFirstIff(fat, disk, d, name, k, capacity, bufferSize, bytes);
  }

  lemma LoadFirstIff(fat: Fat, disk: Disk, d: DirImage, name: seq<byte>, k: nat, capacity: nat, bufferSize: nat, bytes: seq<byte>)
    requires |name| == NAME_SIZE && bufferSize < 0x1_0000_0000 && k < ROOT_ENTRIES && Find(d, name) == Some(k)
    ensures LoadOutcome(fat, disk, d, ROOT_ENTRIES, name, capacity, bufferSize) == Loaded(bytes)
       <==> Gives(FileAt(fat, disk, d, k), capacity, bufferSize, bytes)
  {
  }

  lemma MemberIsSectors(fat: Fat, disk: Disk, content: seq<byte>, name: seq<byte>, f: File)
    requires |name| <= NAME_SIZE && Member(fat, disk, content, name) == Some(f)
    ensures |f.bytes| % 512 == 0
  {
    var k := FirstEntry(content, name, 0).value;
    assert |f.bytes| == 512 * |TrailOf(fat, FirstCluster(content, k)).clusters|;
  }

  // ---------------------------------------------------------------- the walk

  // The name sought at the first level that is not passed over.
  function Sought(levels: seq<Level>, base: seq<byte>, ext: seq<byte>): (n: seq<byte>)
    ensures |n| == NAME_SIZE
    decreases |levels|
  {
    if levels == [] then PadFile(base, ext)
    else if levels[0].Named? then PadDir(levels[0].name)
    else Sought(levels[1..], base, ext)
  }

  // The walk meets a leftover: the first level whose name its own directory does not have
  // finds the name in what an earlier load left behind the directory.
  predicate MeetsLeftover(c: Context, content: seq<byte>, stale: DirImage, l: nat,
                          levels: seq<Level>, base: seq<byte>, ext: seq<byte>)
    requires |c.stale| == N_BUFFERS && l + |levels| < N_BUFFERS && |content| <= DIR_BYTES
    decreases |levels|
  {
    if levels != [] && levels[0].Passed? then MeetsLeftover(c, content, stale, l + 1, levels[1..], base, ext)
    else
      match FirstEntry(content, Sought(levels, base, ext), 0)
      case None => FindFrom(stale, Sought(levels, base, ext), |content| / 32).Some?
      case Some(k) =>
        levels != [] &&
        match FileAt(c.fat, c.disk, content, k)
        case None => false
        case Some(sub) => |sub.bytes| <= DIR_BYTES && MeetsLeftover(c, sub.bytes, c.stale[l], l + 1, levels[1..], base, ext)
  }

  lemma NoLeftoverStep(c: Context, content: seq<byte>, stale: DirImage, l: nat,
                       levels: seq<Level>, base: seq<byte>, ext: seq<byte>)
    requires |c.stale| == N_BUFFERS && l + |levels| < N_BUFFERS && |content| <= DIR_BYTES
    requires levels != [] && levels[0].Named?
    requires !MeetsLeftover(c, content, stale, l, levels, base, ext)
    ensures var name := PadDir(levels[0].name);
            FirstEntry(content, name, 0).Some? || FindFrom(stale, name, |content| / 32).None?
    ensures var sub := Member(c.fat, c.disk, content, PadDir(levels[0].name));
            sub.Some? && |sub.value.bytes| <= DIR_BYTES ==>
              !MeetsLeftover(c, sub.value.bytes, c.stale[l], l + 1, levels[1..], base, ext)
  {
  }

  // One level, seen from both sides.
  lemma LastLevelIff(c: Context, content: seq<byte>, stale: DirImage, p: nat, base: seq<byte>, rest: seq<byte>, bytes: seq<byte>)
    requires |c.stale| == N_BUFFERS && 0 < c.levels < N_BUFFERS && c.bufferSize < 0x1_0000_0000
    requires |content| <= DIR_BYTES && |content| % 32 == 0
    requires ProperSplit([], base, rest) && Splits(c.path, p, [], base, rest)
    requires !MeetsLeftover(c, content, stale, c.levels - 1, [], base, First3(rest))
    ensures WalkFrom(c, Overlay(content, stale), c.levels - 1, p) == PathLoaded(bytes)
       <==> Gives(Member(c.fat, c.disk, content, PadFile(base, First3(rest))), c.capacity, c.bufferSize, bytes)
  {
    ScanFile(c.path, p, base, rest);
    LoadMemberIff(c.fat, c.disk, content, stale, PadFile(base, First3(rest)), c.capacity, c.bufferSize, bytes);
    hide Overlay, LoadOutcome, Member, Scan, Gives;
  }

  // A directory that fits its buffer.
  predicate Enterable(sub: Option<File>) {
    sub.Some? && |sub.value.bytes| <= DIR_BYTES && sub.value.size < DIR_BYTES
  }

  // The directory fits its buffer, and the walk succeeds from there.
  ghost predicate LeadsOn(c: Context, sub: Option<File>, l: nat, p: nat, bytes: seq<byte>)
    requires |c.stale| == N_BUFFERS && l + 1 < c.levels < N_BUFFERS
  {
    Enterable(sub) && WalkFrom(c, Overlay(sub.value.bytes, c.stale[l]), l + 1, p) == PathLoaded(bytes)
  }

  // A directory level leads on exactly when the directory has the name and fits its buffer.
  lemma UpperLevelIff(c: Context, content: seq<byte>, stale: DirImage, l: nat, p: nat, d: seq<byte>, bytes: seq<byte>)
    requires |c.stale| == N_BUFFERS && l + 1 < c.levels < N_BUFFERS
    requires |content| <= DIR_BYTES && |content| % 32 == 0
    requires 1 <= |d| <= 10 && Plain(d) && At(c.path, p + 1, d)
    requires p + 1 + |d| < |c.path| && c.path[p] == SLASH == c.path[p + 1 + |d|]
    requires FirstEntry(content, PadDir(d), 0).Some? || FindFrom(stale, PadDir(d), |content| / 32).None?
    ensures WalkFrom(c, Overlay(content, stale), l, p) == PathLoaded(bytes)
       <==> LeadsOn(c, Member(c.fat, c.disk, content, PadDir(d)), l, p + 1 + |d|, bytes)
  {
    var sub, result := Member(c.fat, c.disk, content, PadDir(d)), LoadInto(c, Overlay(content, stale), PadDir(d));
    ScanDirectory(c.path, p, d, false);
    if result.Loaded? {
      LoadMemberIff(c.fat, c.disk, content, stale, PadDir(d), DIR_BYTES, DIR_BYTES, result.bytes);
    }
    if sub.Some? {
      LoadMemberIff(c.fat, c.disk, content, stale, PadDir(d), DIR_BYTES, DIR_BYTES, sub.value.bytes);
    }
    hide Overlay, LoadOutcome, Member, Scan;
  }

  // A level of twelve characters changes nothing.
  lemma PassedLevel(c: Context, dir: DirImage, l: nat, p: nat, name: seq<byte>)
    requires |c.stale| == N_BUFFERS && l + 1 < c.levels < N_BUFFERS
    requires |name| == 12 && Plain(name) && p < |c.path| && c.path[p] == SLASH && At(c.path, p + 1, name)
    ensures WalkFrom(c, dir, l, p) == WalkFrom(c, dir, l + 1, p + 13)
  {
    ScanPassed(c.path, p, name, false);
    hide Scan;
  }

  // From here on the walk succeeds exactly with the file that the tree has under the names it follows.
  ghost predicate Agrees(c: Context, content: seq<byte>, stale: DirImage, l: nat, p: nat,
                         levels: seq<Level>, base: seq<byte>, rest: seq<byte>, bytes: seq<byte>)
    requires |c.stale| == N_BUFFERS && c.levels < N_BUFFERS && l <= c.levels && |content| <= DIR_BYTES
  {
    WalkFrom(c, Overlay(content, stale), l, p) == PathLoaded(bytes)
    <==> Gives(Resolve(c.fat, c.disk, content, Names(levels), base, First3(rest)), c.capacity, c.bufferSize, bytes)
  }

  // Where no leftover is met, walk and tree agree.
  lemma {:induction false} WalkMatchesTree(c: Context, content: seq<byte>, stale: DirImage, l: nat, p: nat,
                                           levels: seq<Level>, base: seq<byte>, rest: seq<byte>, bytes: seq<byte>)
    requires |c.stale| == N_BUFFERS && c.levels < N_BUFFERS && l + |levels| + 1 == c.levels && c.bufferSize < 0x1_0000_0000
    requires |content| <= DIR_BYTES && |content| % 32 == 0
    requires ProperSplit(levels, base, rest) && Splits(c.path, p, levels, base, rest)
    requires !MeetsLeftover(c, content, stale, l, levels, base, First3(rest))
    ensures Agrees(c, content, stale, l, p, levels, base, rest, bytes)
    decreases |levels|
  {
    hide WalkFrom, Overlay, Member, Gives, MeetsLeftover, FirstEntry, FindFrom, First3, Agrees, Resolve;
    if levels == [] {
      LastAgrees(c, content, stale, p, base, rest, bytes);
    } else {
      SplitStep(c.path, p, levels, base, rest);
      if levels[0].Passed? {
        PassedStep(c, content, stale, l, levels, base, First3(rest));
        WalkMatchesTree(c, content, stale, l + 1, p + 13, levels[1..], base, rest, bytes);
        PassedAgrees(c, content, stale, l, p, levels, base, rest, bytes);
      } else {
        NoLeftoverStep(c, content, stale, l, levels, base, First3(rest));
        var sub := Member(c.fat, c.disk, content, PadDir(levels[0].name));
        if Enterable(sub) {
          MemberIsSectors(c.fat, c.disk, content, PadDir(levels[0].name), sub.value);
          WalkMatchesTree(c, sub.value.bytes, c.stale[l], l + 1, p + 1 + |levels[0].name|, levels[1..], base, rest, bytes);
        }
        NamedAgrees(c, content, stale, l, p, levels, base, rest, bytes);
      }
    }
  }

  lemma SplitStep(path: seq<byte>, p: nat, levels: seq<Level>, base: seq<byte>, rest: seq<byte>)
    requires levels != [] && ProperSplit(levels, base, rest) && Splits(path, p, levels, base, rest)
    ensures ProperLevel(levels[0]) && ProperSplit(levels[1..], base, rest)
    ensures p < |path| && path[p] == SLASH && At(path, p + 1, levels[0].name)
    ensures var q := p + 1 + |levels[0].name|;
            q < |path| && path[q] == SLASH && Splits(path, q, levels[1..], base, rest)
  {
  }

  lemma LastAgrees(c: Context, content: seq<byte>, stale: DirImage, p: nat, base: seq<byte>, rest: seq<byte>, bytes: seq<byte>)
    requires |c.stale| == N_BUFFERS && 0 < c.levels < N_BUFFERS && c.bufferSize < 0x1_0000_0000
    requires |content| <= DIR_BYTES && |content| % 32 == 0
    requires ProperSplit([], base, rest) && Splits(c.path, p, [], base, rest)
    requires !MeetsLeftover(c, content, stale, c.levels - 1, [], base, First3(rest))
    ensures Agrees(c, content, stale, c.levels - 1, p, [], base, rest, bytes)
  {
    hide WalkFrom, Overlay, Member, Gives, MeetsLeftover, FirstEntry, FindFrom, First3;
    LastLevelIff(c, content, stale, p, base, rest, bytes);
  }

  lemma PassedStep(c: Context, content: seq<byte>, stale: DirImage, l: nat, levels: seq<Level>, base: seq<byte>, ext: seq<byte>)
    requires |c.stale| == N_BUFFERS && l + |levels| < N_BUFFERS && |content| <= DIR_BYTES
    requires levels != [] && levels[0].Passed?
    ensures MeetsLeftover(c, content, stale, l, levels, base, ext)
         == MeetsLeftover(c, content, stale, l + 1, levels[1..], base, ext)
  {
  }

  lemma PassedAgrees(c: Context, content: seq<byte>, stale: DirImage, l: nat, p: nat,
                     levels: seq<Level>, base: seq<byte>, rest: seq<byte>, bytes: seq<byte>)
    requires |c.stale| == N_BUFFERS && l + 1 < c.levels < N_BUFFERS && |content| <= DIR_BYTES
    requires levels != [] && levels[0].Passed? && ProperLevel(levels[0])
    requires p < |c.path| && c.path[p] == SLASH && At(c.path, p + 1, levels[0].name)
    requires Agrees(c, content, stale, l + 1, p + 13, levels[1..], base, rest, bytes)
    ensures Agrees(c, content, stale, l, p, levels, base, rest, bytes)
  {
    hide WalkFrom, Overlay, Gives, Resolve, First3;
    PassedLevel(c, Overlay(content, stale), l, p, levels[0].name);
    assert Names(levels) == Names(levels[1..]);
  }

  lemma NamedAgrees(c: Context, content: seq<byte>, stale: DirImage, l: nat, p: nat,
                    levels: seq<Level>, base: seq<byte>, rest: seq<byte>, bytes: seq<byte>)
    requires |c.stale| == N_BUFFERS && l + 1 < c.levels < N_BUFFERS && |content| <= DIR_BYTES && |content| % 32 == 0
    requires levels != [] && levels[0].Named? && ProperLevel(levels[0])
    requires p < |c.path| && c.path[p] == SLASH && At(c.path, p + 1, levels[0].name)
    requires p + 1 + |levels[0].name| < |c.path| && c.path[p + 1 + |levels[0].name|] == SLASH
    requires var name := PadDir(levels[0].name);
             FirstEntry(content, name, 0).Some? || FindFrom(stale, name, |content| / 32).None?
    requires var sub := Member(c.fat, c.disk, content, PadDir(levels[0].name));
             Enterable(sub) ==>
               Agrees(c, sub.value.bytes, c.stale[l], l + 1, p + 1 + |levels[0].name|, levels[1..], base, rest, bytes)
    ensures Agrees(c, content, stale, l, p, levels, base, rest, bytes)
  {
    hide WalkFrom, Overlay, Member, FirstEntry, FindFrom, First3, Resolve, Names;
    UpperLevelIff(c, content, stale, l, p, levels[0].name, bytes);
    ResolveNamed(c.fat, c.disk, content, levels, base, First3(rest));
  }

  lemma ResolveNamed(fat: Fat, disk: Disk, content: seq<byte>, levels: seq<Level>, base: seq<byte>, ext: seq<byte>)
    requires levels != [] && levels[0].Named?
    ensures var sub := Member(fat, disk, content, PadDir(levels[0].name));
            Resolve(fat, disk, content, Names(levels), base, ext) == (
              if Enterable(sub) then Resolve(fat, disk, sub.value.bytes, Names(levels[1..]), base, ext) else None)
  {
    hide Member;
    assert Names(levels)[0] == levels[0].name && Names(levels)[1..] == Names(levels[1..]);
  }

  // A leftover is met only where the tree has no such file.
  lemma {:induction false} LeftoverIsUnresolved(c: Context, content: seq<byte>, stale: DirImage, l: nat,
                                                levels: seq<Level>, base: seq<byte>, ext: seq<byte>)
    requires |c.stale| == N_BUFFERS && l + |levels| < N_BUFFERS && |content| <= DIR_BYTES
    requires MeetsLeftover(c, content, stale, l, levels, base, ext)
    ensures Resolve(c.fat, c.disk, content, Names(levels), base, ext).None?
    decreases |levels|
  {
    if levels == [] {
    } else if levels[0].Passed? {
      LeftoverIsUnresolved(c, content, stale, l + 1, levels[1..], base, ext);
      assert Names(levels) == Names(levels[1..]);
    } else {
      ResolveNamed(c.fat, c.disk, content, levels, base, ext);
      match Member(c.fat, c.disk, content, PadDir(levels[0].name))
      case None =>
      case Some(sub) => LeftoverIsUnresolved(c, sub.bytes, c.stale[l], l + 1, levels[1..], base, ext);
    }
  }

  // ---------------------------------------------------------------- the whole call

  function CallContext(fat: Fat, disk: Disk, stale: seq<DirImage>, path: seq<byte>, levels: seq<Level>,
                       capacity: nat, bufferSize: nat): Context
  {
    Context(fat, disk, stale, path, |levels| + 1, capacity, bufferSize % 0x1_0000_0000)
  }

  // The call with these arguments meets a leftover.
  predicate CallMeetsLeftover(fat: Fat, disk: Disk, root: DirImage, stale: seq<DirImage>,
                              levels: seq<Level>, base: seq<byte>, ext: seq<byte>)
    requires |stale| == N_BUFFERS && |levels| < N_BUFFERS
  {
    MeetsLeftover(CallContext(fat, disk, stale, [], levels, 0, 0), root, root, 0, levels, base, ext)
  }

  // Path, sizes and buffer have no part in it.
  lemma {:induction false} LeftoverContext(c: Context, c': Context, content: seq<byte>, stale: DirImage, l: nat,
                                           levels: seq<Level>, base: seq<byte>, ext: seq<byte>)
    requires |c.stale| == N_BUFFERS && l + |levels| < N_BUFFERS && |content| <= DIR_BYTES
    requires c'.fat == c.fat && c'.disk == c.disk && c'.stale == c.stale
    ensures MeetsLeftover(c', content, stale, l, levels, base, ext) == MeetsLeftover(c, content, stale, l, levels, base, ext)
    decreases |levels|
  {
    if levels == [] {
    } else if levels[0].Passed? {
      LeftoverContext(c, c', content, stale, l + 1, levels[1..], base, ext);
    } else {
      match Member(c.fat, c.disk, content, PadDir(levels[0].name))
      case None =>
      case Some(sub) =>
        if |sub.bytes| <= DIR_BYTES {
          LeftoverContext(c, c', sub.bytes, c.stale[l], l + 1, levels[1..], base, ext);
        }
    }
  }

  // A path that splits into levels is walked level by level from the root.
  lemma CallIsWalk(fat: Fat, disk: Disk, root: DirImage, stale: seq<DirImage>, path: seq<byte>,
                   levels: seq<Level>, base: seq<byte>, rest: seq<byte>, capacity: nat, bufferSize: nat)
    requires |stale| == N_BUFFERS && ProperSplit(levels, base, rest) && Splits(path, 0, levels, base, rest)
    requires |path| <= MAX_CHARS
    ensures PathOutcome(fat, disk, root, stale, path, capacity, bufferSize) == (
              if bufferSize == 0 then PathPanicked
              else WalkFrom(CallContext(fat, disk, stale, path, levels, capacity, bufferSize), Overlay(root, root), 0, 0))
    ensures BuffersAfter(fat, disk, root, stale, path, capacity, bufferSize)
         == LeftFrom(CallContext(fat, disk, stale, path, levels, capacity, bufferSize), Overlay(root, root), 0, 0, stale)
  {
    hide WalkFrom, LeftFrom;
    CountSplit(path, 0, levels, base, rest);
    assert Overlay(root, root) == root;
  }

  // The path walk against the tree, exactly, for every path that splits into levels: where no leftover is met it
  // succeeds if and only if the tree has a file under the names that are followed and the buffer takes it, and then
  // with its bytes; where one is met the tree has no such file.
  lemma WalkedPathIff(fat: Fat, disk: Disk, root: DirImage, stale: seq<DirImage>, path: seq<byte>,
                      levels: seq<Level>, base: seq<byte>, rest: seq<byte>, capacity: nat, bufferSize: nat, bytes: seq<byte>)
    requires |stale| == N_BUFFERS && ProperSplit(levels, base, rest) && Splits(path, 0, levels, base, rest)
    requires |path| <= MAX_CHARS
    ensures var file := Resolve(fat, disk, root, Names(levels), base, First3(rest));
            && (CallMeetsLeftover(fat, disk, root, stale, levels, base, First3(rest)) ==> file.None?)
            && (!CallMeetsLeftover(fat, disk, root, stale, levels, base, First3(rest)) ==>
                  (PathOutcome(fat, disk, root, stale, path, capacity, bufferSize) == PathLoaded(bytes)
                   <==> Gives(file, capacity, bufferSize % 0x1_0000_0000, bytes)))
  {
    hide WalkFrom, Resolve, Overlay, MeetsLeftover, PathOutcome, First3, Names;
    var c := CallContext(fat, disk, stale, path, levels, capacity, bufferSize);
    var c0 := CallContext(fat, disk, stale, [], levels, 0, 0);
    LeftoverContext(c0, c, root, root, 0, levels, base, First3(rest));
    if MeetsLeftover(c, root, root, 0, levels, base, First3(rest)) {
      LeftoverIsUnresolved(c, root, root, 0, levels, base, First3(rest));
    } else {
      CallIsWalk(fat, disk, root, stale, path, levels, base, rest, capacity, bufferSize);
      WalkMatchesTree(c, root, root, 0, 0, levels, base, rest, bytes);
    }
  }

  // ---------------------------------------------------------------- well-formed paths

  lemma SpelledPath(path: seq<byte>, dirs: seq<seq<byte>>, base: seq<byte>, ext: seq<byte>)
    requires WellFormed(dirs, base, ext) && Spells(path, 0, dirs, base, ext)
    ensures |path| <= MAX_CHARS && Names(AllNamed(dirs)) == dirs && First3(ext) == ext
  {
    SplitLength(path, 0, AllNamed(dirs), base, ext);
    NamesOfAllNamed(dirs);
  }

  // The same for well-formed paths, of which nothing is passed over or cut off.
  lemma LoadPathIff(fat: Fat, disk: Disk, root: DirImage, stale: seq<DirImage>, path: seq<byte>,
                    dirs: seq<seq<byte>>, base: seq<byte>, ext: seq<byte>, capacity: nat, bufferSize: nat, bytes: seq<byte>)
    requires |stale| == N_BUFFERS && WellFormed(dirs, base, ext) && Spells(path, 0, dirs, base, ext)
    ensures var file := Resolve(fat, disk, root, dirs, base, ext);
            && (CallMeetsLeftover(fat, disk, root, stale, AllNamed(dirs), base, ext) ==> file.None?)
            && (!CallMeetsLeftover(fat, disk, root, stale, AllNamed(dirs), base, ext) ==>
                  (PathOutcome(fat, disk, root, stale, path, capacity, bufferSize) == PathLoaded(bytes)
                   <==> Gives(file, capacity, bufferSize % 0x1_0000_0000, bytes)))
  {
    hide Resolve, PathOutcome, CallMeetsLeftover;
    SpelledPath(path, dirs, base, ext);
    WalkedPathIff(fat, disk, root, stale, path, AllNamed(dirs), base, ext, capacity, bufferSize, bytes);
  }

  // A resolvable path loads exactly the file it names, whatever the directory buffers held.
  lemma LoadPathResolves(fat: Fat, disk: Disk, root: DirImage, stale: seq<DirImage>, path: seq<byte>,
                         dirs: seq<seq<byte>>, base: seq<byte>, ext: seq<byte>, f: File, capacity: nat, bufferSize: nat)
    requires |stale| == N_BUFFERS
    requires WellFormed(dirs, base, ext) && Spells(path, 0, dirs, base, ext)
    requires Resolve(fat, disk, root, dirs, base, ext) == Some(f) && Fits(f, capacity, bufferSize % 0x1_0000_0000)
    ensures PathOutcome(fat, disk, root, stale, path, capacity, bufferSize) == PathLoaded(f.bytes)
  {
    hide Resolve, PathOutcome, CallMeetsLeftover;
    LoadPathIff(fat, disk, root, stale, path, dirs, base, ext, capacity, bufferSize, f.bytes);
  }

  // A walk of a well-formed path that succeeds has loaded the file of the tree exactly if it met no leftover.
  lemma LoadedIsResolvedIff(fat: Fat, disk: Disk, root: DirImage, stale: seq<DirImage>, path: seq<byte>,
                            dirs: seq<seq<byte>>, base: seq<byte>, ext: seq<byte>, capacity: nat, bufferSize: nat, bytes: seq<byte>)
    requires |stale| == N_BUFFERS && WellFormed(dirs, base, ext) && Spells(path, 0, dirs, base, ext)
    requires PathOutcome(fat, disk, root, stale, path, capacity, bufferSize) == PathLoaded(bytes)
    ensures Gives(Resolve(fat, disk, root, dirs, base, ext), capacity, bufferSize % 0x1_0000_0000, bytes)
       <==> !CallMeetsLeftover(fat, disk, root, stale, AllNamed(dirs), base, ext)
  {
    hide Resolve, PathOutcome, CallMeetsLeftover;
    LoadPathIff(fat, disk, root, stale, path, dirs, base, ext, capacity, bufferSize, bytes);
  }

  // What a caller can look up before the call: no buffer has an entry with the name that will be sought in it.
  ghost predicate BuffersClear(stale: seq<DirImage>, levels: seq<Level>, base: seq<byte>, ext: seq<byte>, l: nat)
    requires |stale| == N_BUFFERS && l + |levels| < N_BUFFERS
    decreases |levels|
  {
    levels == [] ||
    ((levels[0].Named? ==> Find(stale[l], Sought(levels[1..], base, ext)) == None)
     && BuffersClear(stale, levels[1..], base, ext, l + 1))
  }

  lemma {:induction false} ClearMeetsNoLeftover(c: Context, content: seq<byte>, stale: DirImage, l: nat,
                                                levels: seq<Level>, base: seq<byte>, ext: seq<byte>)
    requires |c.stale| == N_BUFFERS && l + |levels| < N_BUFFERS && |content| <= DIR_BYTES
    requires FindFrom(stale, Sought(levels, base, ext), |content| / 32).None? && BuffersClear(c.stale, levels, base, ext, l)
    ensures !MeetsLeftover(c, content, stale, l, levels, base, ext)
    decreases |levels|
  {
    if levels == [] {
    } else if levels[0].Passed? {
      ClearMeetsNoLeftover(c, content, stale, l + 1, levels[1..], base, ext);
    } else {
      match Member(c.fat, c.disk, content, PadDir(levels[0].name))
      case None =>
      case Some(sub) =>
        if |sub.bytes| <= DIR_BYTES {
          NoneBehind(c.stale[l], Sought(levels[1..], base, ext), |sub.bytes| / 32);
          ClearMeetsNoLeftover(c, sub.bytes, c.stale[l], l + 1, levels[1..], base, ext);
        }
    }
  }

  lemma NoneBehind(dir: DirImage, name: seq<byte>, k: nat)
    requires |name| <= NAME_SIZE && k <= ROOT_ENTRIES && Find(dir, name) == None
    ensures FindFrom(dir, name, k) == None
  {
    FindFromSound(dir, name, 0);
    FindFromSound(dir, name, k);
  }

  // With clear buffers the walk of a well-formed path succeeds if and only if the path resolves to a file that fits,
  // with its bytes.
  lemma ClearBuffersResolve(fat: Fat, disk: Disk, root: DirImage, stale: seq<DirImage>, path: seq<byte>,
                            dirs: seq<seq<byte>>, base: seq<byte>, ext: seq<byte>, capacity: nat, bufferSize: nat, bytes: seq<byte>)
    requires |stale| == N_BUFFERS && WellFormed(dirs, base, ext) && Spells(path, 0, dirs, base, ext)
    requires BuffersClear(stale, AllNamed(dirs), base, ext, 0)
    ensures PathOutcome(fat, disk, root, stale, path, capacity, bufferSize) == PathLoaded(bytes)
       <==> Gives(Resolve(fat, disk, root, dirs, base, ext), capacity, bufferSize % 0x1_0000_0000, bytes)
  {
    hide Resolve, PathOutcome, Gives, MeetsLeftover;
    ClearMeetsNoLeftover(CallContext(fat, disk, stale, [], AllNamed(dirs), 0, 0), root, root, 0, AllNamed(dirs), base, ext);
    LoadPathIff(fat, disk, root, stale, path, dirs, base, ext, capacity, bufferSize, bytes);
  }
}
