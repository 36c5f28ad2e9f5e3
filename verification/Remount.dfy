/** Across a power cycle: what has been saved and closed is found on the drive when it is mounted again. */
module Remounts {
  import opened Bytes
  import opened Geometry
  import opened Chains
  import opened Volumes
  import opened FileData
  import opened Files
  import opened Directories
  import opened Beside
  import opened Saving
  import D = DirTables
  import L = LongNames
  import M = Mounts
  import S = ShortNames

  /** The volume `w` was mounted from the drive that `v` has written. */
  ghost predicate SameVolume(v: Volume, w: Volume)
    reads v, v.win, w, w.win
  {
    v.Valid() && w.Valid() && w.geo == v.geo && |w.disk| == |v.disk| && w.Logical() == v.Logical() && w.Fat() == v.Fat()
  }

  /** chk_mounted on the drive of a volume without pending writes. */
  method MountAgain(v: Volume, ghost bsect: dword) returns (w: Volume)
    requires M.InBooks(v, bsect) && Written(v)
    ensures fresh(w) && fresh(w.win) && SameVolume(v, w) && M.InBooks(w, bsect)
    ensures M.Counted(v) ==> M.Counted(w)
    ensures v.geo.fsType == Fat32 ==> w.freeClust == v.freeClust
  {
    hide Volume.Valid, Volume.Logical, Volume.Fat, M.OnRecord, M.MountResult, M.Sound, M.Locate, M.LayoutAt, M.ReadFields;
    hide M.Hints;
    M.RecordFound(v, v.disk, bsect);
    var res, u := M.ChkMounted(v.disk);
    w := u;
    M.MountedAgain(v, w, bsect);
  }

  /** A directory of the one volume, seen on the other. */
  lemma SameDirectory(d: Dir, v: Volume, w: Volume)
    requires d.vol == v && d.Valid() && SameVolume(v, w)
    ensures w.Valid()
    ensures var first := if d.sclust == 0 && w.geo.fsType == Fat32 then w.geo.dirbase else d.sclust;
      if d.chain == [] then first == 0 && RootAreaOk(w.geo)
      else first >= 2 && FileChain(w.geo, w.Fat(), |w.disk|, first, d.chain)
  {
    hide Volume.Valid, Volume.Logical, Volume.Fat, FileChain;
  }

  /** It is the same table, and stores the same files. */
  lemma SameStored(d: Dir, e: Dir, i: nat, ch: seq<nat>, c: seq<byte>)
    requires d.Valid() && e.Valid() && e.chain == d.chain && SameVolume(d.vol, e.vol)
    ensures e.Table() == d.Table() && (Stored(d, i, ch, c) ==> Stored(e, i, ch, c))
  {
    hide Volume.Valid, Volume.Logical, Volume.Fat, FileChain, TableOf, Sectors, BytesOf, Records, NoShare;
    d.SecsFacts();
    e.SecsFacts();
  }

  /** f_open on the other volume, by the path of a file that has been saved. */
  method LoadOn(d: Dir, w: Volume, path: seq<byte>, lfn: array<word>, up: word -> word, ghost ch: seq<nat>,
                ghost c: seq<byte>)
    returns (loaded: FResult, g: File?)
    requires Saved(d, d.index, ch, c) && SameVolume(d.vol, w) && d.vol != w && d.vol.win != w.win && lfn.Length == MAX_LFN + 1
    requires L.IsUpper(up) && SimplePath(path) && S.Acceptable(S.Segment(path))
    requires NameBuffer(lfn[..], S.Segment(path)) == lfn[..]
    requires D.Find(d.Table(), NameKey(path, lfn[..]), up) == if TooLong(path) then None else Some(d.index)
    modifies lfn, w`disk, w`wflag, w`winsect, w`lastClust, w`freeClust, w`fsiFlag, w.win
    ensures SameVolume(d.vol, w) && w.freeClust == old(w.freeClust) && w.fsiFlag == old(w.fsiFlag)
    ensures lfn[..] == old(lfn[..])
    ensures loaded == if TooLong(path) then NoFile else Ok
    ensures loaded == Ok ==> g != null && fresh(g) && g.vol == w && g.Valid() && g.fptr == 0 && g.Content() == c
  {
    hide Dir.Valid, Dir.Table, GoodChain, Stored, Volume.Valid, Volume.Fat, Volume.Logical, D.Find, IsDirectory;
    hide IsReadOnly, S.Segment, S.Acceptable, NameBuffer, NameKey, TooLong, SimplePath, L.IsUpper, Saved, FileChain;
    hide File.Valid, File.Content;
    SavedIs(d, ch, c);
    SameDirectory(d, d.vol, w);
    var e := new Dir(w, d.sclust, d.chain);
    SameStored(d, e, d.index, ch, c);
    loaded, g := OpenExisting(e, path, lfn, up, false, ch, c);
  }

  /** f_open under a new path, f_write and f_close; then, after a power failure, chk_mounted and f_open again by the
      same path: the drive mounts as the same volume, with the same free count, and the file holds the bytes that
      were written. */
  method SaveAndRemount(d: Dir, path: seq<byte>, data: seq<byte>, lfn: array<word>,
                        up: word -> word, atOpen: dword, atClose: dword, ghost bsect: dword)
    returns (saved: FResult, bw: nat, w: Volume?, loaded: FResult, g: File?)
    requires d.Valid() && D.WellFormed(d.Table()) && lfn.Length == MAX_LFN + 1 && L.IsUpper(up) && SimplePath(path)
    requires |data| < 0x1_0000_0000 && M.InBooks(d.vol, bsect)
    modifies lfn, d`index, d`clust, d`sect, d`chain
    modifies d.vol`disk, d.vol`wflag, d.vol`winsect, d.vol`lastClust, d.vol`freeClust, d.vol`fsiFlag, d.vol.win
    ensures saved == InvalidName <==> !S.Acceptable(S.Segment(path))
    ensures saved != InvalidName ==>
      if D.Find(old(d.Table()), NameKey(path, lfn[..]), up).Some? then saved in {Exist, Denied}
      else saved == IntErr || (d.Valid() && Made(d, saved, old(d.Table()), path))
    ensures saved == IntErr ==> HasReserved(old(d.vol.Fat()))
    ensures saved == Ok ==> w != null && fresh(w) && SameVolume(d.vol, w) && M.InBooks(w, bsect)
    ensures saved == Ok && d.vol.geo.fsType == Fat32 ==> w.freeClust == d.vol.freeClust
    ensures saved == Ok && old(M.Counted(d.vol)) ==> M.Counted(w)
    ensures saved == Ok ==> bw <= |data| && (bw < |data| ==> d.vol.Valid() && NoneFree(d.vol.Fat()))
    ensures saved == Ok ==> loaded == if TooLong(path) then NoFile else Ok
    ensures saved == Ok && loaded == Ok ==>
      g != null && fresh(g) && g.vol == w && g.Valid() && g.fptr == 0 && g.Content() == data[..bw]
  {
    hide Dir.Valid, Dir.Table, GoodChain, Stored, Volume.Valid, Volume.Fat, Volume.Logical, HasReserved, NoneFree;
    hide D.WellFormed, D.Find, IsDirectory, IsReadOnly, Made, NumbersTaken, S.Segment, S.Acceptable, NameBuffer;
    hide NameKey, TooLong, SimplePath, L.IsUpper, CountOk, M.OnBooks, Saved, File.Valid, File.Content, FileChain;
    w, g, loaded := null, null, NoFile;
    ghost var ch;
    var t := d.Table();
    saved, bw, ch := SaveNew(d, path, data, lfn, up, atOpen, atClose);
    if saved != Ok {
      return;
    }
    AcceptedName(S.Segment(path));
    NamedAgain(old(lfn[..]), S.Segment(path));
    w := MountAgain(d.vol, bsect);
    loaded, g := LoadOn(d, w, path, lfn, up, ch, data[..bw]);
  }

  lemma SavedIs(d: Dir, ch: seq<nat>, c: seq<byte>)
    requires Saved(d, d.index, ch, c)
    ensures d.Valid() && d.vol.Valid() && Stored(d, d.index, ch, c) && d.index < |d.Table()|
    ensures !IsDirectory(d.Table()[d.index])
  {
    hide Dir.Table, Records, Volume.Logical, Volume.Fat, D.WellFormed;
  }
}
