// The two ways to a file, open and fs_load_path, turn its name into directory entry names differently: open raises
// letters and blanks what it does not allow, the path walk takes the bytes as they are.
module SharedNames {
  import opened Bytes
  import opened Directory
  import opened Volume
  import opened VolumeTheorems
  import opened PathWalk
  import opened PathTheorems
  import opened TreeTheorems
  import opened FileStream
  import opened Names83
  import opened OpenFile
  import opened OpenTheorems

  // An extension byte that open leaves as it is.
  predicate Unchanged(b: byte) {
    IsDigit(b) || IsSymbol(b) || b == SPACE
  }

  // Names that both look for under the same 11 bytes.
  predicate Shared(base: seq<byte>, ext: seq<byte>) {
    && (forall i :: 0 <= i < |base| ==> !IsLower(base[i]))
    && (forall i :: 0 <= i < |ext| ==> Unchanged(ext[i]))
  }

  lemma PaddedParts(base: seq<byte>, ext: seq<byte>, field: seq<byte>, extension: seq<byte>)
    requires |base| <= 8 && |ext| <= 3 && |field| == |base| && |extension| == |ext|
    ensures Padded(field, 8) + Padded(extension, 3) == PadFile(base, ext) <==> field == base && extension == ext
  {
    var name, other := Padded(field, 8) + Padded(extension, 3), PadFile(base, ext);
    if name == other {
      assert forall i :: 0 <= i < |base| ==> field[i] == name[i] && base[i] == other[i];
      assert forall i :: 0 <= i < |ext| ==> extension[i] == name[8 + i] && ext[i] == other[8 + i];
    }
  }

  // Both seek the same 11 bytes exactly for names without lower-case letters in the base and without any letter
  // in the extension.
  lemma SameNameIff(base: seq<byte>, ext: seq<byte>, rest: seq<byte>)
    requires IsBase(base) && 1 <= |ext| <= 3 && (forall i :: 0 <= i < |ext| ==> ext[i] != NUL)
    requires |base| + |ext| + |rest| >= 10
    ensures NameFits(Dotted(base, ext, rest))
    ensures Converted(Dotted(base, ext, rest), Blanks3()) == PadFile(base, ext) <==> Shared(base, ext)
  {
    DottedFields(base, ext, rest, Blanks3());
    PaddedParts(base, ext, UpperAll(base), ExtBytes(ext));
    hide Converted, Dotted, PadFile, Padded;
    if UpperAll(base) == base && ExtBytes(ext) == ext {
      assert forall i :: 0 <= i < |base| ==> UpperAll(base)[i] == Upper(base[i]);
      assert forall i :: 0 <= i < |ext| ==> ExtBytes(ext)[i] == ExtByte(ext[i]);
    }
  }

  // The path /base.ext.
  function RootPath(base: seq<byte>, ext: seq<byte>): seq<byte> {
    [SLASH] + base + [DOT] + ext
  }

  lemma RootPathIsSpelled(base: seq<byte>, ext: seq<byte>)
    requires IsBase(base) && NoSlash(base) && 1 <= |ext| <= 3 && Shared(base, ext)
    ensures CString(RootPath(base, ext)) && WellFormed([], base, ext) && Spells(RootPath(base, ext), 0, [], base, ext)
  {
    assert AllNamed([]) == [];
    assert forall i :: 0 <= i < |base| ==> !EndsStem(base[i]);
  }

  // A file saved under a shared name by step m of a run is, after any later step n, the one that an open of base.ext
  // finds and the one that /base.ext loads.
  lemma BothFindSavedFile(vs: seq<Vol>, actions: seq<Action>, window: nat, m: nat, n: nat, slot: int,
                          base: seq<byte>, ext: seq<byte>, rest: seq<byte>, slash: bool,
                          stale: seq<DirImage>, capacity: nat, bufferSize: nat)
    requires Run(vs, actions, window) && m < n <= |actions| && Consistent(vs[0], window)
    requires SavesFile(vs[m], actions[m]) && actions[m].request.name[..NAME_SIZE] == PadFile(base, ext)
    requires IsBase(base) && NoSlash(base) && 1 <= |ext| <= 3 && Shared(base, ext)
    requires base[0] != AT && base[0] != HASH && |base| + |ext| + |rest| >= 10
    requires 512 * actions[m].request.sectors <= BufferFor(actions[m].request.size)
    requires |stale| == N_BUFFERS && 512 * actions[m].request.sectors <= capacity
    requires actions[m].request.size < bufferSize <= MAX_LOAD_BYTES
    ensures var r, path := actions[m].request, (if slash then [SLASH] else []) + Dotted(base, ext, rest);
            && PlaceOf(path) == RootDir && NameFits(NamePart(path)) && Listed(vs[n].dir, SoughtName(path))
            && 512 * r.sectors <= |r.data|
            && OpenFrom(vs[n], vs[n].dir, SoughtName(path), slot) == Opened(FreshFile(slot, r.size, r.data[..512 * r.sectors]))
            && PathOutcome(vs[n].fat, vs[n].disk, vs[n].dir, stale, RootPath(base, ext), capacity, bufferSize)
               == PathLoaded(r.data[..512 * r.sectors])
  {
    var r, path := actions[m].request, (if slash then [SLASH] else []) + Dotted(base, ext, rest);
    SharedPath(base, ext, rest, slash);
    RootPathIsSpelled(base, ext);
    SavesUnderPath(vs[m], actions[m], base, ext);
    hide Run, Consistent, SavesFile, OpenFrom, PathOutcome, Listed, PlaceOf, NamePart, SoughtName, Dotted, PadFile, StoredName,
      StoredSize, Shared, RootPath, FreshFile, WellFormed, Spells;
    SavedFileOpens(vs, actions, window, m, n, slot);
    SavedFileHasPath(vs, actions, window, m, n, r, RootPath(base, ext), base, ext, stale, capacity, bufferSize);
  }

  lemma SharedPath(base: seq<byte>, ext: seq<byte>, rest: seq<byte>, slash: bool)
    requires IsBase(base) && NoSlash(base) && 1 <= |ext| <= 3 && Shared(base, ext)
    requires base[0] != AT && base[0] != HASH && |base| + |ext| + |rest| >= 10
    ensures var path := (if slash then [SLASH] else []) + Dotted(base, ext, rest);
            PlaceOf(path) == RootDir && NameFits(NamePart(path)) && SoughtName(path) == PadFile(base, ext)
  {
    var path := (if slash then [SLASH] else []) + Dotted(base, ext, rest);
    assert WithoutSlash(path) == Dotted(base, ext, rest);
    SameNameIff(base, ext, rest);
  }

  lemma SavesUnderPath(v: Vol, a: Action, base: seq<byte>, ext: seq<byte>)
    requires SavesFile(v, a) && a.request.name[..NAME_SIZE] == PadFile(base, ext)
    ensures var r := a.request;
            && a == Action(r, Saved) && Callable(r) && StoredName(r.name, r.flag) == PadFile(base, ext)
            && Find(v.dir, PadFile(base, ext)).None? && StoredSize(r.size, r.flag) == r.size
  {
    hide PadFile;
    assert StoredName(a.request.name, a.request.flag) == a.request.name[..NAME_SIZE];
  }
}
