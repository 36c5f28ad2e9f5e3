/** From an empty drive to stored bytes: format, mount, open the root directory, save under a path, and open it
    again. */
module FreshVolumes {
  import opened Bytes
  import opened Geometry
  import opened Chains
  import opened Volumes
  import opened Files
  import opened Formatting
  import opened Directories
  import opened FormattedRoots
  import opened Remounts
  import opened Saving
  import D = DirTables
  import L = LongNames
  import M = Mounts
  import N = NumberedNames
  import S = ShortNames

  ghost predicate AllEmpty(t: D.Table) {
    forall k :: 0 <= k < |t| ==> t[k] == D.ZeroEntry()
  }

  /** Nothing is found in an empty table, and no name of it is taken. */
  lemma NothingThere(t: D.Table, path: seq<byte>, key: D.Key, up: word -> word)
    requires AllEmpty(t) && D.KeyOk(key)
    ensures D.Find(t, key, up) == None && !NumbersTaken(t, path)
  {
    hide S.Segment, S.Trimmed, S.Fits, S.Shortened;
    if t != [] {
      assert t[0][0] == 0;
    }
    var name := S.Trimmed(S.Segment(path));
    if D.AllTaken(t, S.Shortened(name), UnitsOf(name)) {
      NoneHasNumber(t, S.Shortened(name), UnitsOf(name));
    }
  }

  lemma NoneHasNumber(t: D.Table, sn: seq<byte>, name: seq<word>)
    requires AllEmpty(t) && |sn| == SFN
    ensures !D.AllTaken(t, sn, name)
  {
    hide N.Numbered;
    var one: word := 1;
    if t != [] {
      assert t[0][0] == 0;
    }
    assert !D.HasShort(t, N.Numbered(sn, name, one));
  }

  /** An empty table has room for as many entries as it has. */
  lemma EmptyHasRoom(t: D.Table, ne: nat)
    requires AllEmpty(t) && ne <= |t| && ne <= D.MAX_ENTRIES
    ensures D.HasRoom(t, ne)
  {
    assert D.FreeRun(t, 0, ne);
  }

  /** No name takes more than 21 entries. */
  lemma FewEntries(path: seq<byte>)
    requires S.Acceptable(S.Segment(path))
    ensures EntriesFor(path) <= 21
  {
    hide S.IsPlain, S.IsIllegal;
  }

  /** In an empty root directory creation fails only if a FAT32 volume is full before the directory has grown enough. */
  lemma CreationSucceeds(root: Dir, res: FResult, t: D.Table, path: seq<byte>)
    requires root.Valid() && root.vol.Valid() && Made(root, res, t, path) && AllEmpty(t)
    requires S.Acceptable(S.Segment(path))
    requires root.vol.geo.fsType == Fat32 || |t| == N_ROOTDIR
    ensures res in {Ok, Denied, IntErr} && (res == IntErr ==> HasReserved(root.vol.Fat()))
    ensures res == Denied ==> root.vol.geo.fsType == Fat32 && NoneFree(root.vol.Fat())
  {
    hide Dir.Table, S.Segment, S.Acceptable, NoneFree, HasReserved, D.HasRoom, NumbersTaken, EntriesFor, AllEmpty;
    NothingThere(t, path, NameKey(path, seq(MAX_LFN + 1, _ => 0)), (c: word) => c);
    FewEntries(path);
    var ne := EntriesFor(path);
    if ne <= |t| {
      EmptyHasRoom(t, ne);
    } else if res == NoFile {
      StillEmpty(t, root.Table());
      EmptyHasRoom(root.Table(), ne);
    }
  }

  lemma EmptyTable(t: D.Table)
    requires forall k :: 0 <= k < |t| ==> t[k] == D.ZeroEntry()
    ensures AllEmpty(t)
  {
  }

  lemma StillEmpty(t: D.Table, t': D.Table)
    requires AllEmpty(t) && Extends(t, t')
    ensures AllEmpty(t')
  {
    forall k | 0 <= k < |t'| ensures t'[k] == D.ZeroEntry() {
      assert k < |t| ==> t'[..|t|][k] == t'[k];
    }
  }

  /** The file is open at its start and holds the first `bw` bytes of the data: all of it, unless the disk is full. */
  ghost predicate Carries(g: File, v: Volume, data: seq<byte>, bw: nat)
    requires v.Valid()
    reads g, g.buf, v, v.win
  {
    g.vol == v && g.Valid() && g.fptr == 0 && bw <= |data| && g.Content() == data[..bw] &&
    (bw < |data| ==> NoneFree(v.Fat()))
  }

  lemma CarriesIt(g: File, v: Volume, data: seq<byte>, bw: nat)
    requires v.Valid() && g.vol == v && g.Valid() && g.fptr == 0 && bw <= |data| && g.Content() == data[..bw]
    requires (bw < |data| ==> NoneFree(v.Fat()))
    ensures Carries(g, v, data, bw)
  {
  }

  /** Saving in the root directory of a volume just formatted, under an acceptable name of at most 254 characters,
      and opening the file again gives exactly the bytes written: all of them, unless the disk is full. */
  method FormatSaveAndLoad(d: Disk, sfd: bool, au: dword, blk: dword, time: dword, path: seq<byte>, data: seq<byte>, lfn: array<word>,
                           up: word -> word, atOpen: dword, atClose: dword)
    returns (formatted: FResult, v: Volume?, saved: FResult, bw: nat, loaded: FResult, g: File?)
    requires |d| < WRAP && (blk == 0 || blk > 32768 || IsPowerOfTwo(blk))
    requires |d| >= 128 ==> var nVol := |d| - (if sfd then 0 else 63); Countable(nVol, UnitOf(nVol, au))
    requires lfn.Length == MAX_LFN + 1 && L.IsUpper(up) && SimplePath(path) && |data| < 0x1_0000_0000
    requires S.Acceptable(S.Segment(path)) && !TooLong(path)
    modifies lfn
    ensures formatted == Ok <==>
      UnitOk(au) && |d| >= 128 && PlanOf(|d|, sfd, au, blk).Some? && Room(PlanOf(|d|, sfd, au, blk).value)
    ensures formatted == Ok ==> v != null && v.geo == LayoutOf(PlanOf(|d|, sfd, au, blk).value)
    ensures formatted == Ok && v.geo.nFatent <= EndMark(Fat32) ==>
      v.Valid() && if saved == Ok then loaded == Ok && g != null && Carries(g, v, data, bw)
      else saved == Denied && v.geo.fsType == Fat32 && NoneFree(v.Fat())
  {
    hide *;
    v, saved, bw, loaded, g := null, NoFile, 0, NoFile, null;
    formatted, v := FormatAndMount(d, sfd, au, blk, time);
    if formatted != Ok || v.geo.nFatent > EndMark(Fat32) {
      return;
    }
    ForestUnreserved(v.Fat(), RootChains(v.geo.fsType));
    var root := OpenRoot(v);
    ghost var t := root.Table();
    EmptyTable(t);
    saved, bw, loaded, g := SaveAndLoad(root, path, data, lfn, up, atOpen, atClose);
    NothingThere(t, path, NameKey(path, lfn[..]), up);
    if saved == Ok {
      CarriesIt(g, v, data, bw);
    } else if saved != IntErr {
      CreationSucceeds(root, saved, t, path);
    }
  }

  /** The same across a power failure: the volume just formatted is written, the drive is mounted again, and the file
      on it holds the bytes written. The free count is known and right on both volumes. */
  method FormatSaveRemount(d: Disk, sfd: bool, au: dword, blk: dword, time: dword, path: seq<byte>, data: seq<byte>,
                           lfn: array<word>, up: word -> word, atOpen: dword, atClose: dword)
    returns (formatted: FResult, v: Volume?, saved: FResult, bw: nat, w: Volume?, loaded: FResult, g: File?)
    requires |d| < WRAP && (blk == 0 || blk > 32768 || IsPowerOfTwo(blk))
    requires |d| >= 128 ==> var nVol := |d| - (if sfd then 0 else 63); Countable(nVol, UnitOf(nVol, au))
    requires lfn.Length == MAX_LFN + 1 && L.IsUpper(up) && SimplePath(path) && |data| < 0x1_0000_0000
    requires S.Acceptable(S.Segment(path)) && !TooLong(path)
    modifies lfn
    ensures formatted == Ok <==>
      UnitOk(au) && |d| >= 128 && PlanOf(|d|, sfd, au, blk).Some? && Room(PlanOf(|d|, sfd, au, blk).value)
    ensures formatted == Ok ==> v != null && v.geo == LayoutOf(PlanOf(|d|, sfd, au, blk).value)
    ensures formatted == Ok && v.geo.nFatent <= EndMark(Fat32) && saved != Ok ==>
      saved == Denied && v.geo.fsType == Fat32 && v.Valid() && NoneFree(v.Fat())
    ensures formatted == Ok && v.geo.nFatent <= EndMark(Fat32) && saved == Ok ==>
      w != null && w.geo == v.geo && loaded == Ok && g != null && w.Valid() && Carries(g, w, data, bw) && M.Counted(w)
  {
    hide *;
    v, saved, bw, w, loaded, g := null, NoFile, 0, null, NoFile, null;
    formatted, v := FormatAndMount(d, sfd, au, blk, time);
    if formatted != Ok || v.geo.nFatent > EndMark(Fat32) {
      return;
    }
    ForestUnreserved(v.Fat(), RootChains(v.geo.fsType));
    var root := OpenRoot(v);
    ghost var t := root.Table();
    EmptyTable(t);
    saved, bw, w, loaded, g := SaveAndRemount(root, path, data, lfn, up, atOpen, atClose, if sfd then 0 else 63);
    NothingThere(t, path, NameKey(path, lfn[..]), up);
    if saved == Ok {
      SameFat(v, w);
      CarriesIt(g, w, data, bw);
    } else if saved != IntErr {
      DirIsOn(root);
      CreationSucceeds(root, saved, t, path);
    }
  }

  lemma SameFat(v: Volume, w: Volume)
    requires SameVolume(v, w)
    ensures w.Valid() && v.Valid() && w.geo == v.geo && w.Fat() == v.Fat()
  {
  }
}
