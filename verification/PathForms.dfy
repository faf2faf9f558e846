// Which paths fs_load_path loads a file for, and which of them name it. A success means that the path splits into
// levels, some of them passed over, and a base and rest of which three bytes count; the path names what is loaded
// exactly if nothing was passed over, nothing cut off and no leftover of an earlier call met.
module PathForms {
  import opened Bytes
  import opened FatTable
  import opened Directory
  import opened Volume
  import opened PathWalk
  import opened PathTheorems

  // ---------------------------------------------------------------- what the parser has seen

  // The bytes from `from` up to `to` are neither '/' nor '.'.
  ghost predicate PlainBetween(path: seq<byte>, from: nat, to: nat) {
    forall j :: from <= j < to && j < |path| ==> path[j] != SLASH && path[j] != DOT
  }

  // A level is skipped exactly when neither a dot nor a slash is among its first twelve characters
  // and the terminator is not among its first eleven.
  lemma {:induction false} ScanSkippedIff(path: seq<byte>, start: nat, i: nat, last: bool)
    requires i < 12
    ensures Scan(path, start, i, last).Skipped? <==> start + 11 <= |path| && PlainBetween(path, start + i, start + 12)
    decreases 12 - i
  {
    if i < 11 {
      ScanSkippedIff(path, start, i + 1, last);
    } else {
      assert Scan(path, start, 12, last) == Skipped(start + 12);
    }
  }

  // Where the parser stopped, and on what.
  lemma {:induction false} ScanInverse(path: seq<byte>, start: nat, i: nat, last: bool)
    requires i <= 12
    ensures var r := Scan(path, start, i, last);
            && (r.Skipped? ==> r.next == start + 12 && PlainBetween(path, start + i, start + 12))
            && (r.DirName? ==>
                  && start + i <= r.next <= start + 10 && start < r.next < |path| && path[r.next] == SLASH
                  && PlainBetween(path, start + i, r.next))
            && (r.FileName? ==> last)
    decreases 12 - i
  {
    if i < 12 && start + i <= |path| && (start + i == |path| || (path[start + i] != DOT && path[start + i] != SLASH)) {
      ScanInverse(path, start, i + 1, last);
    }
  }

  // The length of the base.
  lemma {:induction false} ScanFileInverse(path: seq<byte>, start: nat, i: nat, last: bool) returns (n: nat)
    requires i <= 12 && Scan(path, start, i, last).FileName?
    ensures last && i <= n <= 8 && 0 < n && start + n < |path| && path[start + n] == DOT
    ensures PlainBetween(path, start + i, start + n)
    decreases 12 - i
  {
    if start + i < |path| && path[start + i] == DOT {
      n := i;
    } else {
      n := ScanFileInverse(path, start, i + 1, last);
    }
  }

  function Slice(path: seq<byte>, p: nat, n: nat): (s: seq<byte>)
    requires p + n <= |path|
    ensures |s| == n
  {
    path[p..p + n]
  }

  lemma SliceIsAt(path: seq<byte>, p: nat, n: nat)
    requires p + n <= |path|
    ensures At(path, p, Slice(path, p, n))
    ensures PlainBetween(path, p, p + n) ==> Plain(Slice(path, p, n))
  {
  }

  // Without a counted slash there is none.
  lemma {:induction false} NoneCounted(path: seq<byte>, p: nat, j: nat)
    requires p <= j < |path| <= MAX_CHARS && CountLevels(path, p) == 0
    ensures path[j] != SLASH
    decreases j - p
  {
    if p < j {
      NoneCounted(path, p + 1, j);
    }
  }

  lemma CountStep(path: seq<byte>, p: nat, q: nat)
    requires p < q <= |path| <= MAX_CHARS && path[p] == SLASH && PlainBetween(path, p + 1, q)
    ensures CountLevels(path, p) == 1 + CountLevels(path, q)
  {
    CountPlain(path, p + 1, q);
  }

  // ---------------------------------------------------------------- a success splits the path

  // The path from p on is a proper split.
  ghost predicate SplitFrom(path: seq<byte>, p: nat, levels: seq<Level>, base: seq<byte>, rest: seq<byte>) {
    ProperSplit(levels, base, rest) && Splits(path, p, levels, base, rest)
  }

  lemma AddLevel(path: seq<byte>, p: nat, level: Level, levels: seq<Level>, base: seq<byte>, rest: seq<byte>)
    requires p < |path| && path[p] == SLASH && At(path, p + 1, level.name) && ProperLevel(level) && |levels| <= 2
    requires SplitFrom(path, p + 1 + |level.name|, levels, base, rest)
    ensures SplitFrom(path, p, [level] + levels, base, rest)
  {
    assert ([level] + levels)[1..] == levels;
  }

  // The last level.
  lemma FileSplits(path: seq<byte>, p: nat) returns (base: seq<byte>, rest: seq<byte>)
    requires p < |path| <= MAX_CHARS && path[p] == SLASH && CountLevels(path, p) == 1
    requires Scan(path, p + 1, 0, true).FileName?
    ensures SplitFrom(path, p, [], base, rest)
  {
    var n := ScanFileInverse(path, p + 1, 0, true);
    base, rest := Slice(path, p + 1, n), Slice(path, p + 2 + n, |path| - (p + 2 + n));
    SliceIsAt(path, p + 1, n);
    SliceIsAt(path, p + 2 + n, |path| - (p + 2 + n));
    forall i | 0 <= i < |rest|
      ensures rest[i] != SLASH
    {
      NoneCounted(path, p + 1, p + 2 + n + i);
    }
  }

  // A walk that succeeds has gone through the levels of a split.
  lemma {:induction false} WalkSplits(c: Context, dir: DirImage, l: nat, p: nat, bytes: seq<byte>)
    returns (levels: seq<Level>, base: seq<byte>, rest: seq<byte>)
    requires |c.stale| == N_BUFFERS && l <= c.levels < N_BUFFERS && p <= |c.path| <= MAX_CHARS
    requires CountLevels(c.path, p) == c.levels - l
    requires WalkFrom(c, dir, l, p) == PathLoaded(bytes)
    ensures SplitFrom(c.path, p, levels, base, rest) && l + |levels| + 1 == c.levels
    decreases c.levels - l
  {
    hide SplitFrom, LoadInto, LoadLast, CountLevels, Overlay, PaddedDir, PaddedFile;
    var last := l == c.levels - 1;
    ScanInverse(c.path, p + 1, 0, last);
    var component := Scan(c.path, p + 1, 0, last);
    hide Scan;
    match component {
      case FileName(_) =>
        base, rest := FileSplits(c.path, p);
        levels := [];
      case Skipped(q) =>
        levels, base, rest := LevelSplits(c, dir, l, p, q, bytes, true);
      case DirName(name, q) =>
        levels, base, rest := LevelSplits(c, Overlay(LoadInto(c, dir, name).bytes, c.stale[l]), l, p, q, bytes, false);
      case _ =>
    }
  }

  // One level more in front.
  lemma {:induction false} LevelSplits(c: Context, dir: DirImage, l: nat, p: nat, q: nat, bytes: seq<byte>, passed: bool)
    returns (levels: seq<Level>, base: seq<byte>, rest: seq<byte>)
    requires |c.stale| == N_BUFFERS && l < c.levels < N_BUFFERS && p < |c.path| <= MAX_CHARS
    requires CountLevels(c.path, p) == c.levels - l && c.path[p] == SLASH
    requires if passed then q == p + 13 else p + 1 < q <= p + 11
    requires PlainBetween(c.path, p + 1, q)
    requires WalkFrom(c, dir, l + 1, q) == PathLoaded(bytes)
    ensures SplitFrom(c.path, p, levels, base, rest) && l + |levels| + 1 == c.levels
    decreases c.levels - l, 0
  {
    assert q <= |c.path| && l + 1 < c.levels;
    hide WalkFrom;
    CountStep(c.path, p, q);
    SliceIsAt(c.path, p + 1, q - p - 1);
    var name := Slice(c.path, p + 1, q - p - 1);
    levels, base, rest := WalkSplits(c, dir, l + 1, q, bytes);
    var level := if passed then Passed(name) else Named(name);
    AddLevel(c.path, p, level, levels, base, rest);
    levels := [level] + levels;
  }

  // A success of fs_load_path splits the path.
  lemma LoadedSplits(fat: Fat, disk: Disk, root: DirImage, stale: seq<DirImage>, path: seq<byte>,
                     capacity: nat, bufferSize: nat, bytes: seq<byte>)
    requires |stale| == N_BUFFERS && |path| <= MAX_CHARS
    requires PathOutcome(fat, disk, root, stale, path, capacity, bufferSize) == PathLoaded(bytes)
    ensures exists levels, base, rest :: SplitFrom(path, 0, levels, base, rest)
  {
    hide WalkFrom, SplitFrom;
    var c := Context(fat, disk, stale, path, CountLevels(path, 0), capacity, bufferSize % 0x1_0000_0000);
    var levels, base, rest := WalkSplits(c, root, 0, 0, bytes);
  }

  // ---------------------------------------------------------------- only one split

  // A run of characters, and the '/' or '.' that ends it.
  ghost predicate RunAt(path: seq<byte>, p: nat, s: seq<byte>) {
    At(path, p, s) && Plain(s) && p + |s| < |path| && (path[p + |s|] == SLASH || path[p + |s|] == DOT)
  }

  lemma LongerIsNotPlain(path: seq<byte>, p: nat, n: nat, t: seq<byte>)
    requires At(path, p, t) && n < |t| && (path[p + n] == SLASH || path[p + n] == DOT)
    ensures !Plain(t)
  {
    assert t[n] == path[p + n];
  }

  lemma SameLength(path: seq<byte>, p: nat, s: seq<byte>, t: seq<byte>)
    requires RunAt(path, p, s) && RunAt(path, p, t)
    ensures |s| <= |t|
  {
    hide At, Plain;
    if |t| < |s| {
      LongerIsNotPlain(path, p, |t|, s);
      assert false;
    }
  }

  // It is determined by where it starts.
  lemma SameRun(path: seq<byte>, p: nat, s: seq<byte>, t: seq<byte>)
    requires RunAt(path, p, s) && RunAt(path, p, t)
    ensures s == t
  {
    SameLength(path, p, s, t);
    SameLength(path, p, t, s);
  }

  // The run that the split starts with, and what ends it.
  function Head(levels: seq<Level>, base: seq<byte>): seq<byte> {
    if levels == [] then base else levels[0].name
  }

  lemma HeadRun(path: seq<byte>, p: nat, levels: seq<Level>, base: seq<byte>, rest: seq<byte>)
    requires SplitFrom(path, p, levels, base, rest)
    ensures var s := Head(levels, base);
            && RunAt(path, p + 1, s)
            && path[p + 1 + |s|] == if levels == [] then DOT else SLASH
  {
    if levels == [] {
      assert [DOT][0] == path[p + 1 + |base| + 0];
    } else {
      SplitStep(path, p, levels, base, rest);
    }
  }

  lemma {:induction false} SplitUnique(path: seq<byte>, p: nat, levels: seq<Level>, base: seq<byte>, rest: seq<byte>,
                                       levels': seq<Level>, base': seq<byte>, rest': seq<byte>)
    requires SplitFrom(path, p, levels, base, rest) && SplitFrom(path, p, levels', base', rest')
    ensures levels == levels' && base == base' && rest == rest'
    decreases |levels|
  {
    HeadRun(path, p, levels, base, rest);
    HeadRun(path, p, levels', base', rest');
    SameRun(path, p + 1, Head(levels, base), Head(levels', base'));
    if levels == [] {
      assert levels' == [];
    } else {
      SplitStep(path, p, levels, base, rest);
      SplitStep(path, p, levels', base', rest');
      assert levels[0] == levels'[0];
      SplitUnique(path, p + 1 + |levels[0].name|, levels[1..], base, rest, levels'[1..], base', rest');
      assert levels == [levels[0]] + levels[1..] && levels' == [levels'[0]] + levels'[1..];
    }
  }

  // ---------------------------------------------------------------- paths that name their file

  // The path is well-formed and names a file with these bytes that the buffer takes.
  ghost predicate NamesFile(fat: Fat, disk: Disk, root: DirImage, path: seq<byte>,
                            capacity: nat, bufferSize: nat, bytes: seq<byte>) {
    exists dirs, base, ext ::
      && WellFormed(dirs, base, ext) && Spells(path, 0, dirs, base, ext)
      && Gives(Resolve(fat, disk, root, dirs, base, ext), capacity, bufferSize, bytes)
  }

  // Nothing is passed over and nothing cut off.
  ghost predicate Plainly(levels: seq<Level>, rest: seq<byte>) {
    (forall i :: 0 <= i < |levels| ==> levels[i].Named?) && |rest| <= 3
  }

  lemma PlainlyIsWellFormed(path: seq<byte>, levels: seq<Level>, base: seq<byte>, rest: seq<byte>)
    requires SplitFrom(path, 0, levels, base, rest) && Plainly(levels, rest)
    ensures WellFormed(Names(levels), base, rest) && Spells(path, 0, Names(levels), base, rest) && First3(rest) == rest
  {
    AllNamedOfNames(levels);
  }

  lemma WellFormedIsPlainly(path: seq<byte>, levels: seq<Level>, base: seq<byte>, rest: seq<byte>,
                            dirs: seq<seq<byte>>, base': seq<byte>, ext: seq<byte>)
    requires SplitFrom(path, 0, levels, base, rest)
    requires WellFormed(dirs, base', ext) && Spells(path, 0, dirs, base', ext)
    ensures Plainly(levels, rest) && dirs == Names(levels) && base' == base && ext == rest == First3(rest)
  {
    SplitUnique(path, 0, levels, base, rest, AllNamed(dirs), base', ext);
    NamesOfAllNamed(dirs);
  }

  // What was loaded is the file that the path names exactly if nothing was passed over, nothing cut off, and no
  // leftover met: the three ways in which fs_load_path loads a file for a path that does not name it.
  lemma LoadedIsNamedIff(fat: Fat, disk: Disk, root: DirImage, stale: seq<DirImage>, path: seq<byte>,
                         levels: seq<Level>, base: seq<byte>, rest: seq<byte>, capacity: nat, bufferSize: nat, bytes: seq<byte>)
    requires |stale| == N_BUFFERS && |path| <= MAX_CHARS && SplitFrom(path, 0, levels, base, rest)
    requires PathOutcome(fat, disk, root, stale, path, capacity, bufferSize) == PathLoaded(bytes)
    ensures NamesFile(fat, disk, root, path, capacity, bufferSize % 0x1_0000_0000, bytes)
       <==> Plainly(levels, rest) && !CallMeetsLeftover(fat, disk, root, stale, levels, base, First3(rest))
  {
    hide PathOutcome, CallMeetsLeftover, Resolve, WellFormed, Spells, Splits, Names, First3, Plainly;
    WalkedPathIff(fat, disk, root, stale, path, levels, base, rest, capacity, bufferSize, bytes);
    if Plainly(levels, rest) {
      PlainlyIsWellFormed(path, levels, base, rest);
    }
    if NamesFile(fat, disk, root, path, capacity, bufferSize % 0x1_0000_0000, bytes) {
      var dirs, base', ext :|
        && WellFormed(dirs, base', ext) && Spells(path, 0, dirs, base', ext)
        && Gives(Resolve(fat, disk, root, dirs, base', ext), capacity, bufferSize % 0x1_0000_0000, bytes);
      WellFormedIsPlainly(path, levels, base, rest, dirs, base', ext);
    }
  }

  // A path with passed-over levels or a longer rest loads the file under the names that are followed, from any buffers,
  // and does not name it.
  lemma UnnamedIsLoaded(fat: Fat, disk: Disk, root: DirImage, stale: seq<DirImage>, path: seq<byte>,
                        levels: seq<Level>, base: seq<byte>, rest: seq<byte>, f: File, capacity: nat, bufferSize: nat)
    requires |stale| == N_BUFFERS && |path| <= MAX_CHARS && SplitFrom(path, 0, levels, base, rest) && !Plainly(levels, rest)
    requires Resolve(fat, disk, root, Names(levels), base, First3(rest)) == Some(f)
    requires Fits(f, capacity, bufferSize % 0x1_0000_0000)
    ensures PathOutcome(fat, disk, root, stale, path, capacity, bufferSize) == PathLoaded(f.bytes)
    ensures !NamesFile(fat, disk, root, path, capacity, bufferSize % 0x1_0000_0000, f.bytes)
  {
    hide PathOutcome, CallMeetsLeftover, Resolve, Splits, Names, First3, Plainly, NamesFile;
    WalkedPathIff(fat, disk, root, stale, path, levels, base, rest, capacity, bufferSize, f.bytes);
    LoadedIsNamedIff(fat, disk, root, stale, path, levels, base, rest, capacity, bufferSize, f.bytes);
  }

  // Two paths whose followed names agree load the same files: /dir/base.extra and /dir/twelvechars0/base.ext.
  lemma SameNamesLoadAlike(fat: Fat, disk: Disk, root: DirImage, stale: seq<DirImage>, path: seq<byte>, path': seq<byte>,
                           levels: seq<Level>, levels': seq<Level>, base: seq<byte>, rest: seq<byte>, rest': seq<byte>,
                           capacity: nat, bufferSize: nat, bytes: seq<byte>)
    requires |stale| == N_BUFFERS && |path| <= MAX_CHARS && |path'| <= MAX_CHARS
    requires SplitFrom(path, 0, levels, base, rest) && SplitFrom(path', 0, levels', base, rest')
    requires Names(levels) == Names(levels') && First3(rest) == First3(rest')
    requires !CallMeetsLeftover(fat, disk, root, stale, levels, base, First3(rest))
    requires !CallMeetsLeftover(fat, disk, root, stale, levels', base, First3(rest'))
    ensures PathOutcome(fat, disk, root, stale, path, capacity, bufferSize) == PathLoaded(bytes)
       <==> PathOutcome(fat, disk, root, stale, path', capacity, bufferSize) == PathLoaded(bytes)
  {
    hide PathOutcome, CallMeetsLeftover, Resolve, Splits, Names, First3, Gives;
    WalkedPathIff(fat, disk, root, stale, path, levels, base, rest, capacity, bufferSize, bytes);
    WalkedPathIff(fat, disk, root, stale, path', levels', base, rest', capacity, bufferSize, bytes);
  }

  // ---------------------------------------------------------------- paths that the count does not read to their end

  lemma {:induction false} ScanPrefix(path: seq<byte>, short: seq<byte>, start: nat, i: nat, last: bool)
    requires short <= path && i <= 12 && start + 12 <= |short|
    ensures Scan(short, start, i, last) == Scan(path, start, i, last)
    decreases 12 - i
  {
    if i < 12 {
      if path[start + i] == DOT && 0 < i <= 8 {
        assert PaddedFile(short, start, i) == PaddedFile(path, start, i);
      } else if path[start + i] == SLASH && 0 < i < 11 {
        assert PaddedDir(short, start, i) == PaddedDir(path, start, i);
      }
      ScanPrefix(path, short, start, i + 1, last);
    }
  }

  lemma {:induction false} WalkPrefix(c: Context, c': Context, dir: DirImage, l: nat, p: nat)
    requires |c.stale| == N_BUFFERS && l <= c.levels < N_BUFFERS
    requires c' == c.(path := c'.path) && c'.path <= c.path && p <= 13 * l && |c'.path| >= 100
    ensures WalkFrom(c', dir, l, p) == WalkFrom(c, dir, l, p)
    decreases c.levels - l
  {
    hide Overlay, LoadOutcome;
    if l < c.levels && c.path[p] == SLASH {
      ScanPrefix(c.path, c'.path, p + 1, 0, l == c.levels - 1);
      ScanInverse(c.path, p + 1, 0, l == c.levels - 1);
      var component := Scan(c.path, p + 1, 0, l == c.levels - 1);
      hide Scan;
      match component
      case Skipped(q) =>
        WalkPrefix(c, c', dir, l + 1, q);
      case DirName(name, q) =>
        var r := LoadInto(c, dir, name);
        if r.Loaded? && |r.bytes| <= DIR_BYTES {
          WalkPrefix(c, c', Overlay(r.bytes, c.stale[l]), l + 1, q);
        }
      case _ =>
    }
  }

  lemma {:induction false} CountPrefix(path: seq<byte>, i: nat)
    requires i <= MAX_CHARS <= |path|
    ensures CountLevels(path[..MAX_CHARS], i) == CountLevels(path, i)
    decreases MAX_CHARS - i
  {
    if i < MAX_CHARS {
      CountPrefix(path, i + 1);
    }
  }

  lemma NamedPathIsShort(fat: Fat, disk: Disk, root: DirImage, path: seq<byte>, capacity: nat, bufferSize: nat, bytes: seq<byte>)
    requires NamesFile(fat, disk, root, path, capacity, bufferSize, bytes)
    ensures |path| <= MAX_CHARS
  {
    hide Gives, WellFormed, Spells, Resolve;
    var dirs, base, ext :|
      && WellFormed(dirs, base, ext) && Spells(path, 0, dirs, base, ext)
      && Gives(Resolve(fat, disk, root, dirs, base, ext), capacity, bufferSize, bytes);
    SpelledPath(path, dirs, base, ext);
  }

  // A longer path is walked as its first 2000 characters are, and names nothing.
  lemma LongPathIsCut(fat: Fat, disk: Disk, root: DirImage, stale: seq<DirImage>, path: seq<byte>,
                      capacity: nat, bufferSize: nat, bytes: seq<byte>)
    requires |stale| == N_BUFFERS && |path| > MAX_CHARS
    ensures PathOutcome(fat, disk, root, stale, path, capacity, bufferSize)
         == PathOutcome(fat, disk, root, stale, path[..MAX_CHARS], capacity, bufferSize)
    ensures !NamesFile(fat, disk, root, path, capacity, bufferSize, bytes)
  {
    hide WalkFrom, CountLevels, NamesFile;
    CountPrefix(path, 0);
    var levels := CountLevels(path, 0);
    var c := Context(fat, disk, stale, path, levels, capacity, bufferSize % 0x1_0000_0000);
    if levels < N_BUFFERS {
      WalkPrefix(c, c.(path := path[..MAX_CHARS]), root, 0, 0);
    }
    if NamesFile(fat, disk, root, path, capacity, bufferSize, bytes) {
      NamedPathIsShort(fat, disk, root, path, capacity, bufferSize, bytes);
    }
  }
}
