/** Open files and directories beside each other on one volume: what an operation on one leaves of the others. */
module Beside {
  import opened Bytes
  import opened Geometry
  import opened Chains
  import opened Volumes
  import opened FileData
  import opened Files
  import opened Directories
  import D = DirTables
  import L = LongNames
  import M = Mounts
  import S = ShortNames

  ghost predicate NoShare(a: seq<nat>, b: seq<nat>) {
    forall c :: c in b ==> c !in a
  }

  /** Sectors of a chain, or of the static root directory in front of the data area. */
  ghost predicate OwnSectors(g: Layout, ch: seq<nat>, secs: seq<nat>) {
    GoodChain(g, ch) && if ch == [] then forall s :: s in secs ==> s < g.database else secs == Sectors(g, ch)
  }

  /** Chains that share no cluster share no sector. */
  lemma SectorsApart(g: Layout, n: nat, a: seq<nat>, secs: seq<nat>, b: seq<nat>)
    requires OwnSectors(g, a, secs) && GoodChain(g, b) && NoShare(a, b) && 0 < g.csize
    requires forall k :: 0 <= k < |Sectors(g, b)| ==> g.database <= Sectors(g, b)[k]
    ensures forall s :: s in Sectors(g, b) ==> s !in secs
  {
    hide Sectors, GoodChain, InCluster;
    forall s | s in Sectors(g, b) ensures s !in secs {
      var k :| 0 <= k < |Sectors(g, b)| && Sectors(g, b)[k] == s;
      assert g.database <= s;
      if a != [] && s in secs {
        var j := SectorOwner(g, b, k);
        var l :| 0 <= l < |secs| && secs[l] == s;
        var i := SectorOwner(g, a, l);
        assert b[j] in b && a[i] in a;
        ClustersDisjoint(g, a[i], b[j], s);
      }
    }
  }

  /** What one file or directory does to the volume keeps every other chain and its sectors. */
  lemma ChainsAreKept(g: Layout, n: nat, a: Snapshot, b: Snapshot, start: dword, ch: seq<nat>)
    requires FatAreaOk(g, n) && DataAreaOk(g, n) && |a.view| == n && |a.fat| == g.nFatent
    requires Evolves(g, a, b) && OwnSectors(g, b.ch, b.secs)
    requires FileChain(g, a.fat, n, start, ch) && NoShare(a.ch, ch)
    ensures FileChain(g, b.fat, n, start, ch) && NoShare(b.ch, ch)
    ensures forall s :: s in Sectors(g, ch) ==>
      FatEnd(g) <= g.database <= s < n && s !in b.secs && b.view[s] == a.view[s]
  {
    hide Sectors, GoodChain, Grew, NoDup, CountOk, IsChain;
    if ch != [] {
      GrewKeepsOthers(a.fat, a.ch, b.fat, b.ch, ch);
    }
    var secs := Sectors(g, ch);
    SectorsApart(g, n, b.ch, b.secs, ch);
    forall s | s in secs ensures g.database <= s < n {
      var k :| 0 <= k < |secs| && secs[k] == s;
    }
  }

  /** It also leaves the window off them if it was off them before. */
  lemma OthersAreKept(g: Layout, n: nat, a: Snapshot, b: Snapshot, start: dword, ch: seq<nat>)
    requires FatAreaOk(g, n) && DataAreaOk(g, n) && |a.view| == n && |a.fat| == g.nFatent
    requires Evolves(g, a, b) && OwnSectors(g, b.ch, b.secs)
    requires FileChain(g, a.fat, n, start, ch) && a.win !in Sectors(g, ch) && NoShare(a.ch, ch)
    ensures FileChain(g, b.fat, n, start, ch) && b.win !in Sectors(g, ch) && NoShare(b.ch, ch)
    ensures forall s :: s in Sectors(g, ch) ==> s < n && s !in b.secs && b.view[s] == a.view[s]
  {
    hide Sectors, GoodChain, Grew, NoDup, CountOk, IsChain, FileChain, NoShare, OwnSectors;
    ChainsAreKept(g, n, a, b, start, ch);
  }

  /** The file object is valid on a volume with table `fat`, logical disk `d` and the window on sector `win`. */
  ghost predicate FileOn(f: File, fat: Table, d: Disk, win: nat)
    reads f, f.buf
  {
    && FileChain(f.vol.geo, fat, |d|, f.sclust, f.chain) && win !in Sectors(f.vol.geo, f.chain)
    && f.buf != f.vol.win && f.buf.Length == SECTOR_SIZE
    && (if f.dsect == 0 then !f.dirty else f.dsect in f.Secs())
    && f.Sized() && f.Positioned() && f.fptr <= f.fsize
    && (f.dsect != 0 && !f.dirty ==> f.buf[..] == d[f.dsect])
    && (f.fptr % SECTOR_SIZE != 0 ==> f.dsect == f.Secs()[f.fptr / SECTOR_SIZE])
  }

  /** The content of the file on that volume. */
  ghost function ContentOn(f: File, fat: Table, d: Disk, win: nat): seq<byte>
    requires FileOn(f, fat, d, win)
    reads f, f.buf
  {
    BytesOf(if f.dirty then d[f.dsect := f.buf[..]] else d, f.Secs())[..f.fsize]
  }

  lemma FileIsOn(f: File)
    requires f.vol.Valid()
    ensures f.Valid() <==> FileOn(f, f.vol.Fat(), f.vol.Logical(), f.vol.winsect)
    ensures f.Valid() ==> f.Content() == ContentOn(f, f.vol.Fat(), f.vol.Logical(), f.vol.winsect)
  {
    hide Sectors, NoDup, IsChain, GoodChain, Volume.Valid, Volume.Logical, Volume.Fat, BytesOf, HoldsPrevious;
  }

  /** A file stays valid with its content as long as its chain and its sectors are as before and free of the window. */
  lemma FileStaysOn(f: File, fat: Table, d: Disk, win: nat, fat': Table, d': Disk, win': nat)
    requires FileOn(f, fat, d, win) && |d'| == |d|
    requires FileChain(f.vol.geo, fat', |d|, f.sclust, f.chain) && win' !in Sectors(f.vol.geo, f.chain)
    requires forall s :: s in Sectors(f.vol.geo, f.chain) ==> s < |d| && d'[s] == d[s]
    ensures FileOn(f, fat', d', win') && ContentOn(f, fat', d', win') == ContentOn(f, fat, d, win)
  {
    hide Sectors, NoDup, IsChain, GoodChain, BytesOf, HoldsPrevious;
    var v, v' := if f.dirty then d[f.dsect := f.buf[..]] else d, if f.dirty then d'[f.dsect := f.buf[..]] else d';
    BytesSame(v, v', f.Secs());
  }

  /** The snapshot `a` of a file or directory shows the logical disk `d` outside its own sectors. */
  ghost predicate Shows(a: Snapshot, d: Disk) {
    |a.view| == |d| && forall s :: 0 <= s < |d| && s !in a.secs ==> a.view[s] == d[s]
  }

  /** An operation that takes a volume from `a` to `b` keeps every file on another chain. */
  lemma FileKept(f: File, a: Snapshot, d: Disk, b: Snapshot, d': Disk)
    requires FileOn(f, a.fat, d, a.win) && NoShare(a.ch, f.chain) && Shows(a, d) && Shows(b, d')
    requires FatAreaOk(f.vol.geo, |d|) && DataAreaOk(f.vol.geo, |d|) && |a.fat| == f.vol.geo.nFatent
    requires Evolves(f.vol.geo, a, b) && OwnSectors(f.vol.geo, b.ch, b.secs)
    ensures FileOn(f, b.fat, d', b.win) && ContentOn(f, b.fat, d', b.win) == ContentOn(f, a.fat, d, a.win)
    ensures NoShare(b.ch, f.chain)
  {
    hide Sectors, NoDup, IsChain, GoodChain, BytesOf, HoldsPrevious, NoShare, OwnSectors;
    OthersAreKept(f.vol.geo, |d|, a, b, f.sclust, f.chain);
    assert a.secs <= b.secs && |b.view| == |a.view|;
    forall s | s in Sectors(f.vol.geo, f.chain) ensures s < |d| && d'[s] == d[s] {
      assert s !in a.secs;
    }
    FileStaysOn(f, a.fat, d, a.win, b.fat, d', b.win);
  }

  /** What an open file shows of its volume. */
  lemma FileShows(f: File)
    requires f.Core()
    ensures Shows(f.Snap(), f.vol.Logical()) && OwnSectors(f.vol.geo, f.chain, f.Secs())
    ensures FatAreaOk(f.vol.geo, |f.vol.disk|) && DataAreaOk(f.vol.geo, |f.vol.disk|)
  {
    hide NoDup, IsChain, GoodChain, Volume.Logical, Volume.Fat;
  }

  /** Two open files on one volume, on chains of their own. */
  ghost predicate Both(f: File, g: File)
    reads f, f.buf, g, g.buf, f.vol, f.vol.win
  {
    f != g && f.buf != g.buf && f.vol == g.vol && f.vol.Valid() && f.Valid() && g.Valid() && NoShare(f.chain, g.chain)
  }

  /** After an operation on `f` both files are valid, and the other one has its content. */
  lemma StillBoth(f: File, g: File, a: Snapshot, d: Disk)
    requires f != g && f.buf != g.buf && f.vol == g.vol && f.Valid() && Evolves(f.vol.geo, a, f.Snap())
    requires FileOn(g, a.fat, d, a.win) && NoShare(a.ch, g.chain) && Shows(a, d) && |a.fat| == f.vol.geo.nFatent
    ensures Both(f, g) && g.Content() == ContentOn(g, a.fat, d, a.win)
  {
    hide Sectors, NoDup, IsChain, GoodChain, BytesOf, HoldsPrevious, FileChain, NoShare, OwnSectors, Evolves, FileOn;
    hide ContentOn, Shows, FatAreaOk, DataAreaOk, Volume.Logical, Volume.Fat;
    FileShows(f);
    EvolvesSizes(f.vol.geo, a, f.Snap(), d);
    FileKept(g, a, d, f.Snap(), f.vol.Logical());
    FileIsOn(g);
  }

  lemma EvolvesSizes(g: Layout, a: Snapshot, b: Snapshot, d: Disk)
    requires Evolves(g, a, b) && Shows(a, d)
    ensures |b.view| == |a.view| == |d|
  {
  }

  lemma BothBefore(f: File, g: File)
    requires Both(f, g)
    ensures FileOn(g, f.Snap().fat, f.vol.Logical(), f.Snap().win) && Shows(f.Snap(), f.vol.Logical())
    ensures g.Content() == ContentOn(g, f.Snap().fat, f.vol.Logical(), f.Snap().win)
    ensures NoShare(f.Snap().ch, g.chain) && |f.Snap().fat| == f.vol.geo.nFatent && g.buf != f.vol.win
    ensures f.Snap().fat == f.vol.Fat() && f.Snap().win == f.vol.winsect
  {
    hide Sectors, NoDup, IsChain, GoodChain, BytesOf, HoldsPrevious, FileChain, NoShare, OwnSectors, FileOn, ContentOn;
    hide Shows, Volume.Logical, Volume.Fat;
    FileShows(f);
    FileIsOn(g);
  }

  /** f_read beside another open file. */
  method ReadBeside(f: File, g: File, buff: array<byte>, btr: dword) returns (res: FResult, br: nat)
    requires Both(f, g) && btr <= buff.Length && buff != f.buf && buff != f.vol.win && buff != g.buf
    modifies f`clust, f`cur, f`dirty, f`dsect, f`fptr, f.buf, buff, f.vol`disk, f.vol`wflag, f.vol`winsect, f.vol.win
    ensures Both(f, g) && g.Content() == old(g.Content())
  {
    hide File.Core, File.Sized, File.BufferClean, File.Positioned, File.MidSector, File.Snap, File.Content, Evolves;
    hide Looks, NoShare, FileOn, ContentOn, Shows, Volume.Valid, Volume.Fat, Volume.Logical;
    ghost var a, d := f.Snap(), f.vol.Logical();
    BothBefore(f, g);
    res, br := f.Read(buff, btr);
    LooksEvolves(f.vol.geo, a, f.Snap());
    StillBoth(f, g, a, d);
  }

  /** f_write beside another open file; only the internal error of a reserved FAT entry is left out. */
  method WriteBeside(f: File, g: File, data: seq<byte>) returns (res: FResult, bw: nat)
    requires Both(f, g) && |data| < 0x1_0000_0000
    modifies f, f.buf, f.vol`disk, f.vol`wflag, f.vol`winsect, f.vol`lastClust, f.vol`freeClust, f.vol`fsiFlag
    modifies f.vol.win
    ensures res != IntErr || old(f.error) ==> Both(f, g) && g.Content() == old(g.Content())
    ensures res == IntErr && !old(f.error) ==>
      f.vol.Valid() && HasReserved(f.vol.Fat()) && HasReserved(old(f.vol.Fat()))
  {
    hide File.Core, File.Sized, File.BufferClean, File.Positioned, File.MidSector, File.Snap, File.Content, Evolves;
    hide NoShare, FileOn, ContentOn, Shows, Volume.Valid, Volume.Fat, Volume.Logical, HasReserved, NoneFree, Overwrite;
    ghost var a, d, e := f.Snap(), f.vol.Logical(), f.error;
    BothBefore(f, g);
    EvolvesNot(f.vol.geo, a);
    res, bw := f.Write(data);
    if res != IntErr || e {
      StillBoth(f, g, a, d);
    }
  }

  /** f_lseek beside another open file, even when the file grows. */
  method SeekBeside(f: File, g: File, ofs: dword) returns (res: FResult)
    requires Both(f, g)
    modifies f, f.buf, f.vol`disk, f.vol`wflag, f.vol`winsect, f.vol`lastClust, f.vol`freeClust, f.vol`fsiFlag
    modifies f.vol.win
    ensures res != IntErr || old(f.error) ==> Both(f, g) && g.Content() == old(g.Content())
    ensures res == IntErr && !old(f.error) ==>
      f.vol.Valid() && HasReserved(f.vol.Fat()) && HasReserved(old(f.vol.Fat()))
  {
    hide File.Core, File.Sized, File.BufferClean, File.Positioned, File.MidSector, File.Snap, File.Content, Evolves;
    hide NoShare, FileOn, ContentOn, Shows, Volume.Valid, Volume.Fat, Volume.Logical, HasReserved, NoneFree;
    ghost var a, d, e := f.Snap(), f.vol.Logical(), f.error;
    BothBefore(f, g);
    EvolvesNot(f.vol.geo, a);
    res := f.Lseek(ofs);
    if res != IntErr || e {
      StillBoth(f, g, a, d);
    }
  }

  /** f_sync beside another open file that does not hold the directory sector. */
  method SyncBeside(f: File, g: File, time: dword) returns (res: FResult)
    requires Both(f, g) && FatEnd(f.vol.geo) <= f.dirSect < |f.vol.disk| && f.dirSect !in f.Secs()
    requires f.dirSect !in g.Secs() && f.dirAt + SZ_DIR <= SECTOR_SIZE
    modifies f`dirty, f`written, f.vol`disk, f.vol`wflag, f.vol`winsect, f.vol`fsiFlag, f.vol.win
    ensures Both(f, g) && g.Content() == old(g.Content()) && f.Content() == old(f.Content())
  {
    hide File.Sized, File.BufferClean, File.Positioned, File.MidSector, File.Snap, File.Content, NoShare, FileOn;
    hide ContentOn, Sectors, BytesOf, Volume.Valid, Volume.Fat, Volume.Logical;
    ghost var a, d, v := f.Snap(), f.vol.Logical(), f.View();
    BothBefore(f, g);
    SyncRoom(f, g);
    res := f.Sync(time);
    SyncKeeps(f, g, a, d, v);
  }

  lemma SyncKeeps(f: File, g: File, a: Snapshot, d: Disk, v: Disk)
    requires f != g && f.buf != g.buf && f.vol == g.vol && f.Valid() && FileOn(g, a.fat, d, a.win)
    requires NoShare(f.chain, g.chain)
    requires f.vol.Fat() == a.fat && |d| == |v| == |f.vol.disk| && f.dirSect !in g.Secs() && 0 !in g.Secs()
    requires f.vol.winsect == 0 || f.vol.winsect == f.dirSect || f.vol.winsect == a.win
    requires forall s :: s in g.Secs() ==> f.vol.geo.database <= s < |d| && s !in f.Secs() && v[s] == d[s]
    requires forall s :: f.vol.geo.fatbase <= s < |d| && s != f.dirSect ==> f.View()[s] == v[s]
    ensures Both(f, g) && g.Content() == ContentOn(g, a.fat, d, a.win)
  {
    hide Sectors, NoDup, IsChain, GoodChain, BytesOf, Volume.Logical, Volume.Fat, HoldsPrevious, NoShare, ContentOn;
    FileShows(f);
    forall s | s in Sectors(g.vol.geo, g.chain) ensures f.vol.Logical()[s] == d[s] {
      assert f.View()[s] == f.vol.Logical()[s];
    }
    FileStaysOn(g, a.fat, d, a.win, f.vol.Fat(), f.vol.Logical(), f.vol.winsect);
    FileIsOn(g);
  }

  lemma SyncRoom(f: File, g: File)
    requires Both(f, g)
    ensures FileChain(f.vol.geo, f.vol.Fat(), |f.vol.disk|, g.sclust, g.chain) && 0 !in g.Secs()
    ensures forall s :: s in g.Secs() ==>
      f.vol.geo.database <= s < |f.vol.disk| && s !in f.Secs() && f.View()[s] == f.vol.Logical()[s]
  {
    hide Sectors, NoDup, IsChain, GoodChain, BytesOf, Volume.Logical, Volume.Fat, NoShare;
    FileShows(f);
    SectorsApart(f.vol.geo, |f.vol.disk|, f.chain, f.Secs(), g.chain);
    var secs := g.Secs();
    forall s | s in secs ensures f.vol.geo.database <= s < |f.vol.disk| {
      var k :| 0 <= k < |secs| && secs[k] == s;
    }
    f.vol.Facts();
  }

  /** No operation on a file or directory touches the boot record, or the partition table in front of it. */
  lemma RecordKept(v: Volume, a: Snapshot, b: Snapshot, bsect: dword)
    requires M.OnRecord(v, a.view, bsect) && Evolves(v.geo, a, b) && bsect < v.geo.fatbase < |a.view|
    requires forall s :: s in b.secs ==> v.geo.fatbase <= s
    ensures M.OnRecord(v, b.view, bsect)
  {
    hide Grew, CountOk, M.OnRecord;
    assert !InAnyFat(v.geo, 0) && !InAnyFat(v.geo, bsect) && 0 !in b.secs && bsect !in b.secs;
    M.RecordStays(v, a.view, b.view, bsect);
  }

  /** What a directory does to the volume keeps the drive's record of it, and the free count right. */
  lemma DirBooks(d: Dir, a: Snapshot, bsect: dword)
    requires d.Valid() && Evolves(d.vol.geo, a, d.Snap()) && M.OnBooks(d.vol, a.view, a.count, a.flag, bsect)
    ensures M.InBooks(d.vol, bsect)
  {
    hide Grew, CountOk, M.OnBooks, Volume.Logical, Volume.Fat, TableOf, IsChain, Sectors;
    d.SecsFacts();
    d.vol.Facts();
    OnBooksFits(d.vol, a.view, a.count, a.flag, bsect);
    forall s | 0 <= s < d.vol.geo.fatbase ensures d.vol.Logical()[s] == a.view[s] {
      assert s !in d.Secs();
    }
    M.BooksKept(d.vol, a.view, a.count, a.flag, d.vol.Logical(), d.vol.freeClust, d.vol.fsiFlag, bsect);
  }

  lemma OnBooksFits(v: Volume, d: Disk, count: dword, flag: bool, bsect: dword)
    requires M.OnBooks(v, d, count, flag, bsect)
    ensures v.geo.fatbase <= |d|
  {
  }

  lemma DirCounts(d: Dir, a: Snapshot)
    requires d.Valid() && Evolves(d.vol.geo, a, d.Snap()) && CountOk(a.fat, a.count)
    ensures M.Counted(d.vol)
  {
    hide Grew, CountOk, Volume.Logical, TableOf, IsChain, Sectors;
    d.SecsFacts();
  }

  /** So does what an open file does, whose sectors are all data sectors. */
  lemma FileBooks(f: File, a: Snapshot, l: Disk, bsect: dword)
    requires f.Valid() && Evolves(f.vol.geo, a, f.Snap()) && M.OnBooks(f.vol, l, a.count, a.flag, bsect) && Shows(a, l)
    ensures M.InBooks(f.vol, bsect)
  {
    hide Grew, CountOk, M.OnBooks, Volume.Logical, Volume.Fat, IsChain, Sectors, NoDup, BytesOf;
    FileShows(f);
    f.AllSectorFacts();
    f.vol.Facts();
    OnBooksFits(f.vol, l, a.count, a.flag, bsect);
    forall s | 0 <= s < f.vol.geo.fatbase ensures f.vol.Logical()[s] == l[s] {
      assert s !in f.Secs();
      assert s !in a.secs;
    }
    M.BooksKept(f.vol, l, a.count, a.flag, f.vol.Logical(), f.vol.freeClust, f.vol.fsiFlag, bsect);
  }

  lemma FileCounts(f: File, a: Snapshot)
    requires f.Valid() && Evolves(f.vol.geo, a, f.Snap()) && CountOk(a.fat, a.count)
    ensures M.Counted(f.vol)
  {
    hide Grew, CountOk, Volume.Logical, IsChain, Sectors;
  }

  // ---------------------------------------------------------------- a directory and a file

  /** A directory and an open file on one volume, on chains of their own. */
  ghost predicate DirAndFile(d: Dir, f: File)
    reads d`chain, f, f.buf, f.vol, d.vol, d.vol.win
  {
    d.vol == f.vol && d.vol.Valid() && d.Valid() && f.Valid() && NoShare(d.chain, f.chain)
  }

  lemma DirShows(d: Dir)
    requires d.Valid()
    ensures d.vol.Valid() && GoodChain(d.vol.geo, d.chain) && Shows(d.Snap(), d.vol.Logical())
    ensures OwnSectors(d.vol.geo, d.chain, d.Secs())
    ensures FatAreaOk(d.vol.geo, |d.vol.disk|) && DataAreaOk(d.vol.geo, |d.vol.disk|)
    ensures d.Snap().fat == d.vol.Fat() && d.Snap().ch == d.chain && d.Snap().secs == d.Secs()
    ensures d.Snap().win == d.vol.winsect
  {
    hide NoDup, IsChain, Volume.Logical, Volume.Fat, Sectors;
    d.SecsFacts();
  }

  /** Looking up or creating a name beside an open file keeps the file, its content included, whatever comes out of
      it. */
  method OpenOrCreateBeside(d: Dir, f: File, path: seq<byte>, lfn: array<word>, up: word -> word) returns (res: FResult)
    requires DirAndFile(d, f) && lfn.Length == MAX_LFN + 1 && L.IsUpper(up)
    requires path != [] && path[|path| - 1] == 0 && OneSegment(path) && forall k :: 0 <= k < |path| ==> path[k] < 0x80
    modifies lfn, d`index, d`clust, d`sect, d`chain
    modifies d.vol`disk, d.vol`wflag, d.vol`winsect, d.vol`lastClust, d.vol`freeClust, d.vol`fsiFlag, d.vol.win
    ensures DirAndFile(d, f) && f.Content() == old(f.Content())
  {
    hide File.Valid, File.Content, Dir.Valid, Dir.Table, Dir.Snap, Evolves, NoShare, FileOn, ContentOn, Shows;
    hide OwnSectors, GoodChain, Volume.Valid, Volume.Fat, Volume.Logical;
    hide L.IsUpper, OneSegment, NoneFree, D.FirstOfName, D.AllTaken, D.ZeroTerminated, D.WellFormed, Created;
    hide FoundIfReached, PrintsAs, S.Segment, S.Trimmed, S.Acceptable, S.IsPlain, S.Fits, L.Holds, Sought;
    ghost var a, l := d.Snap(), d.vol.Logical();
    DirShows(d);
    FileIsOn(f);
    FileBuffer(f);
    var o, fn;
    ghost var created;
    res, o, fn, created := OpenOrCreate(d, path, lfn, up);
    DirShows(d);
    EvolvesSizes(d.vol.geo, a, d.Snap(), l);
    FileKept(f, a, l, d.Snap(), d.vol.Logical());
    FileIsOn(f);
  }

  lemma FileBuffer(f: File)
    requires f.Valid()
    ensures f.vol.Valid() && f.buf != f.vol.win && |f.vol.Fat()| == f.vol.geo.nFatent
  {
  }

  /** Where a directory lies on a volume with table `fat` and `n` sectors. */
  ghost predicate DirOn(d: Dir, fat: Table, n: nat)
    reads d`chain
  {
    if d.chain == [] then d.Start() == 0 && RootAreaOk(d.vol.geo)
    else 2 <= d.Start() < 0x1_0000_0000 && FileChain(d.vol.geo, fat, n, d.Start(), d.chain)
  }

  /** What a file does to the volume keeps every directory and its table. */
  lemma DirKept(d: Dir, f: File, a: Snapshot, l: Disk)
    requires f.vol == d.vol && f.Core() && Evolves(d.vol.geo, a, f.Snap()) && Shows(a, l)
    requires |a.fat| == d.vol.geo.nFatent
    requires DirOn(d, a.fat, |l|) && GoodChain(d.vol.geo, d.chain) && NoShare(a.ch, d.chain)
    requires forall k :: 0 <= k < |d.Secs()| ==>
      d.Secs()[k] < |l| && FatEnd(d.vol.geo) <= d.Secs()[k] && (d.chain == [] ==> d.Secs()[k] < d.vol.geo.database)
    ensures d.Valid() && d.Table() == TableOf(l, d.Secs()) && NoShare(f.chain, d.chain)
  {
    hide NoDup, IsChain, Volume.Logical, Volume.Fat, Sectors, HoldsPrevious, TableOf, NoShare, GoodChain, Grew, CountOk;
    var g, b := d.vol.geo, f.Snap();
    FileShows(f);
    f.AllSectorFacts();
    if d.chain != [] {
      ChainsAreKept(g, |l|, a, b, d.Start(), d.chain);
    } else {
      NothingShared(a.ch, b.ch);
    }
    forall k | 0 <= k < |d.Secs()| ensures d.Secs()[k] !in b.secs && f.vol.Logical()[d.Secs()[k]] == l[d.Secs()[k]] {
      var s := d.Secs()[k];
      assert s !in b.secs && s !in a.secs;
    }
    TableSame(l, f.vol.Logical(), d.Secs());
  }

  lemma NothingShared(a: seq<nat>, b: seq<nat>)
    ensures NoShare(a, []) && NoShare(b, [])
  {
  }

  /** f_write beside a directory: its table stays as it is. */
  method WriteBesideDir(f: File, d: Dir, data: seq<byte>) returns (res: FResult, bw: nat)
    requires DirAndFile(d, f) && |data| < 0x1_0000_0000
    modifies f, f.buf, f.vol`disk, f.vol`wflag, f.vol`winsect, f.vol`lastClust, f.vol`freeClust, f.vol`fsiFlag
    modifies f.vol.win
    ensures res != IntErr || old(f.error) ==> DirAndFile(d, f) && d.Table() == old(d.Table())
    ensures res == Ok ==>
      bw <= |data| && f.Content() == Overwrite(old(f.Content()), old(f.fptr), data[..bw]) && f.written
    ensures res == Ok && bw < |data| ==> old(f.fsize) + |data| >= 0x1_0000_0000 || NoneFree(f.vol.Fat())
    ensures f.canWrite && !old(f.error) && res != Ok ==> res == IntErr && HasReserved(old(f.vol.Fat()))
    ensures f.vol.Valid() && (HasReserved(f.vol.Fat()) ==> HasReserved(old(f.vol.Fat())))
    ensures res == Ok ==> forall b: dword :: old(M.InBooks(f.vol, b)) ==> M.InBooks(f.vol, b)
    ensures res == Ok && old(M.Counted(f.vol)) ==> M.Counted(f.vol)
  {
    hide File.Core, File.Sized, File.BufferClean, File.Positioned, File.MidSector, File.Snap, File.Content, Dir.Valid;
    hide M.OnBooks, CountOk;
    hide Dir.Table, Evolves, NoShare, Shows, DirOn, GoodChain, Volume.Valid, Volume.Fat, Volume.Logical, HasReserved;
    hide NoneFree, Overwrite, IsChain;
    ghost var a, l, e := f.Snap(), f.vol.Logical(), f.error;
    FileShows(f);
    FileSnap(f);
    DirPlace(d);
    Apart(d.chain, f.chain);
    EvolvesNot(f.vol.geo, a);
    f.ChainIsThere();
    res, bw := f.Write(data);
    if res != IntErr || e {
      f.ReservedBefore(a);
      DirKept(d, f, a, l);
      FileBuffer(f);
      Apart(f.chain, d.chain);
      forall b: dword | old(M.InBooks(f.vol, b)) ensures M.InBooks(f.vol, b) {
        FileBooks(f, a, l, b);
      }
      if CountOk(a.fat, a.count) {
        FileCounts(f, a);
      }
    }
  }

  lemma Apart(a: seq<nat>, b: seq<nat>)
    requires NoShare(a, b)
    ensures NoShare(b, a)
  {
  }

  lemma FileSnap(f: File)
    requires f.Core()
    ensures f.Snap().fat == f.vol.Fat() && f.Snap().ch == f.chain && |f.Snap().fat| == f.vol.geo.nFatent
    ensures f.Snap().count == f.vol.freeClust && f.Snap().flag == f.vol.fsiFlag
  {
  }

  lemma DirPlace(d: Dir)
    requires d.Valid()
    ensures d.vol.Valid() && DirOn(d, d.vol.Fat(), |d.vol.Logical()|) && GoodChain(d.vol.geo, d.chain)
    ensures d.Table() == TableOf(d.vol.Logical(), d.Secs())
    ensures forall k :: 0 <= k < |d.Secs()| ==>
      d.Secs()[k] < |d.vol.Logical()| && FatEnd(d.vol.geo) <= d.Secs()[k] &&
      (d.chain == [] ==> d.Secs()[k] < d.vol.geo.database)
  {
    hide NoDup, IsChain, Volume.Logical, Volume.Fat, Sectors, TableOf;
    d.SecsFacts();
  }
}
