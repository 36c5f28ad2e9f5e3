/** Saving under a new name: f_open with creation, f_write, f_close, and f_open again by the same path. */
module Saving {
  import opened Bytes
  import opened Geometry
  import opened Chains
  import opened Volumes
  import opened FileData
  import opened Files
  import opened Directories
  import opened Beside
  import D = DirTables
  import L = LongNames
  import M = Mounts
  import S = ShortNames

  const DIR_CRT_TIME := 14
  const AM_DIR := 0x10

  predicate IsReadOnly(e: L.DirEntry) {
    e[DIR_ATTR] % 2 == 1
  }

  predicate IsDirectory(e: L.DirEntry) {
    e[DIR_ATTR] / AM_DIR % 2 == 1
  }

  // ---------------------------------------------------------------- rewritten entries

  /** A sector rewritten in one entry: the table changes in that entry. */
  lemma OneEntryChanged(l: Disk, l': Disk, secs: seq<nat>, k: nat)
    requires NoDup(secs) && k < PER_SECTOR * |secs| && forall j :: 0 <= j < |secs| ==> secs[j] < |l| && secs[j] < |l'|
    requires forall j :: 0 <= j < |secs| && secs[j] != secs[k / PER_SECTOR] ==> l'[secs[j]] == l[secs[j]]
    requires OnlyEntry(l[secs[k / PER_SECTOR]], l'[secs[k / PER_SECTOR]], k % PER_SECTOR)
    ensures TableOf(l', secs) == TableOf(l, secs)[k := EntryOf(l'[secs[k / PER_SECTOR]], k % PER_SECTOR)]
  {
    var s, w := secs[k / PER_SECTOR], l'[secs[k / PER_SECTOR]];
    SplicedEntry(l[s], w, k % PER_SECTOR);
    StoreOne(l, secs, k, EntryOf(w, k % PER_SECTOR));
    TableSame(l[s := w], l', secs);
  }

  /** Sector `w'` is `w` but for entry `i`. */
  ghost predicate OnlyEntry(w: Sector, w': Sector, i: nat) {
    forall b :: 0 <= b < SECTOR_SIZE && !(SZ_DIR * i <= b < SZ_DIR * i + SZ_DIR) ==> w'[b] == w[b]
  }

  lemma SplicedEntry(w: Sector, w': Sector, i: nat)
    requires i < PER_SECTOR && OnlyEntry(w, w', i)
    ensures w' == Splice(w, SZ_DIR * i, EntryOf(w', i))
  {
  }

  /** f_sync keeps the name in an entry and leaves it the entry of an object of the same kind. */
  lemma UpdatedKeepsName(w: Sector, i: nat, clust: dword, time: dword, size: dword)
    requires i < PER_SECTOR && D.IsShort(EntryOf(w, i))
    ensures var e, e' := EntryOf(w, i), EntryOf(UpdatedEntry(w, SZ_DIR * i, clust, time, size), i);
      D.IsShort(e') && e'[..SFN] == e[..SFN] && (IsDirectory(e') <==> IsDirectory(e)) &&
      (IsReadOnly(e') <==> IsReadOnly(e))
    ensures OnlyEntry(w, UpdatedEntry(w, SZ_DIR * i, clust, time, size), i)
  {
    var at := SZ_DIR * i;
    var w' := UpdatedEntry(w, at, clust, time, size);
    forall k | 0 <= k < SECTOR_SIZE && k != at + DIR_ATTR && !(at + DIR_FST_CLUS_HI <= k < at + SZ_DIR) ensures w'[k] == w[k] {
      UpdatedEntryKeeps(w, at, clust, time, size, k);
    }
    UpdatedEntryAttr(w, at, clust, time, size);
    hide UpdatedEntry;
    assert EntryOf(w', i)[..SFN] == w'[at..at + SFN] == w[at..at + SFN] == EntryOf(w, i)[..SFN];
    assert EntryOf(w', i)[0] == w'[at] && EntryOf(w, i)[0] == w[at];
    ArchiveBit(w[at + DIR_ATTR]);
  }

  /** Setting the archive bit turns no object into a part of a name or a label. */
  lemma ArchiveBit(a: byte)
    ensures var b := if a / 0x20 % 2 == 1 then a else a + 0x20;
      b < 0x100 && b / 8 % 2 == a / 8 % 2 && b / AM_DIR % 2 == a / AM_DIR % 2 && b % 2 == a % 2 &&
      b % D.ATTR_LIMIT != L.AM_LFN
  {
    if a / 0x20 % 2 == 0 {
      if a >= 0xE0 {
        Remainder(a, 0x20, 7, a - 0xE0);
      }
      SetBit5(a, 2, 16);
      SetBit5(a, 8, 4);
      SetBit5(a, AM_DIR, 2);
      SetBit5(a, 0x20, 1);
      Even(a / 8, 4);
      Even(a / AM_DIR, 2);
      Even(a / 0x20, 1);
      NoPart(a + 0x20);
    } else {
      NoPart(a);
    }
  }

  lemma Even(x: int, n: int)
    ensures n % 2 == 0 ==> (x + n) % 2 == x % 2
    ensures n % 2 == 1 ==> (x + n) % 2 == 1 - x % 2
  {
  }

  lemma NoPart(b: int)
    requires b / 0x20 % 2 == 1
    ensures b % D.ATTR_LIMIT != L.AM_LFN
  {
    if b % D.ATTR_LIMIT == L.AM_LFN {
      Remainder(b, 0x20, b / D.ATTR_LIMIT * 2, L.AM_LFN);
    }
  }

  lemma SetBit5(a: byte, p: nat, q: nat)
    requires 0 < p && p * q == 0x20
    ensures (a + 0x20) / p == a / p + q
  {
    Remainder(a + 0x20, p, a / p + q, a % p);
  }

  /** f_open with creation: creation time, no attributes, no size and no cluster. */
  function ClearedEntry(w: Sector, at: nat, time: dword): Sector
    requires at + SZ_DIR <= SECTOR_SIZE
  {
    var w := StDword(w, at + DIR_CRT_TIME, time);
    var w := w[at + DIR_ATTR := 0];
    var w := StDword(w, at + DIR_FILE_SIZE, 0);
    var w := StWord(w, at + DIR_FST_CLUS_LO, 0);
    StWord(w, at + DIR_FST_CLUS_HI, 0)
  }

  lemma ClearedEntryIs(w: Sector, i: nat, time: dword)
    requires i < PER_SECTOR && D.IsShort(EntryOf(w, i))
    ensures var w' := ClearedEntry(w, SZ_DIR * i, time);
      var e, e' := EntryOf(w, i), EntryOf(w', i);
      D.IsShort(e') && e'[..SFN] == e[..SFN] && !IsDirectory(e') && !IsReadOnly(e') && OnlyEntry(w, w', i) &&
      EntrySize(w', SZ_DIR * i) == 0 && EntryCluster(w', SZ_DIR * i) == 0
  {
    var at := SZ_DIR * i;
    var w' := ClearedEntry(w, at, time);
    ClearedBytes(w, at, time);
    hide ClearedEntry;
    assert EntryOf(w', i)[..SFN] == w'[at..at + SFN] == w[at..at + SFN] == EntryOf(w, i)[..SFN];
    assert EntryOf(w', i)[0] == w'[at] && EntryOf(w, i)[0] == w[at] && EntryOf(w', i)[DIR_ATTR] == w'[at + DIR_ATTR] == 0;
  }

  lemma ClearedBytes(w: Sector, at: nat, time: dword)
    requires at + SZ_DIR <= SECTOR_SIZE
    ensures var w' := ClearedEntry(w, at, time);
      w'[at + DIR_ATTR] == 0 && (forall b :: 0 <= b < SECTOR_SIZE && (b < at + DIR_ATTR || at + SZ_DIR <= b) ==> w'[b] == w[b]) &&
      EntrySize(w', at) == 0 && EntryCluster(w', at) == 0
  {
  }

  /** Entry `i` updated by f_sync: names and kinds stay, and it records cluster and size. */
  lemma UpdatedTable(l: Disk, l': Disk, secs: seq<nat>, i: nat, clust: dword, time: dword, size: dword)
    requires NoDup(secs) && i < PER_SECTOR * |secs| && forall j :: 0 <= j < |secs| ==> secs[j] < |l| && secs[j] < |l'|
    requires forall j :: 0 <= j < |secs| && secs[j] != secs[i / PER_SECTOR] ==> l'[secs[j]] == l[secs[j]]
    requires l'[secs[i / PER_SECTOR]] == UpdatedEntry(l[secs[i / PER_SECTOR]], SZ_DIR * (i % PER_SECTOR), clust, time, size)
    requires D.IsShort(TableOf(l, secs)[i])
    ensures var t, t', w' := TableOf(l, secs), TableOf(l', secs), l'[secs[i / PER_SECTOR]];
      t' == t[i := t'[i]] && D.SameNames(t, t') && (IsDirectory(t'[i]) <==> IsDirectory(t[i])) &&
      (IsReadOnly(t'[i]) <==> IsReadOnly(t[i])) &&
      EntryCluster(w', SZ_DIR * (i % PER_SECTOR)) == clust && EntrySize(w', SZ_DIR * (i % PER_SECTOR)) == size
  {
    hide NoDup, UpdatedEntry, EntryOf, D.IsShort, OnlyEntry, IsDirectory, IsReadOnly, EntryCluster, EntrySize;
    var w, k := l[secs[i / PER_SECTOR]], i % PER_SECTOR;
    UpdatedKeepsName(w, k, clust, time, size);
    UpdatedEntryCluster(w, SZ_DIR * k, clust, time, size);
    UpdatedEntrySize(w, SZ_DIR * k, clust, time, size);
    OneEntryChanged(l, l', secs, i);
  }

  /** Entry `i` cleared by f_open: its name stays, and it records an empty file. */
  lemma ClearedTable(l: Disk, l': Disk, secs: seq<nat>, i: nat, time: dword)
    requires NoDup(secs) && i < PER_SECTOR * |secs| && forall j :: 0 <= j < |secs| ==> secs[j] < |l| && secs[j] < |l'|
    requires forall j :: 0 <= j < |secs| && secs[j] != secs[i / PER_SECTOR] ==> l'[secs[j]] == l[secs[j]]
    requires l'[secs[i / PER_SECTOR]] == ClearedEntry(l[secs[i / PER_SECTOR]], SZ_DIR * (i % PER_SECTOR), time)
    requires D.IsShort(TableOf(l, secs)[i])
    ensures var t, t', w' := TableOf(l, secs), TableOf(l', secs), l'[secs[i / PER_SECTOR]];
      t' == t[i := t'[i]] && D.SameNames(t, t') && D.IsShort(t'[i]) && !IsDirectory(t'[i]) && !IsReadOnly(t'[i]) &&
      EntryCluster(w', SZ_DIR * (i % PER_SECTOR)) == 0 && EntrySize(w', SZ_DIR * (i % PER_SECTOR)) == 0
  {
    hide NoDup, ClearedEntry, EntryOf, D.IsShort, OnlyEntry, IsDirectory, IsReadOnly, EntryCluster, EntrySize;
    ClearedEntryIs(l[secs[i / PER_SECTOR]], i % PER_SECTOR, time);
    OneEntryChanged(l, l', secs, i);
  }

  // ---------------------------------------------------------------- files under their names

  /** The entry of an open file is entry `i` of the directory. */
  ghost predicate EntryFor(d: Dir, f: File, i: nat)
    requires GoodChain(d.vol.geo, d.chain)
    reads d`chain
  {
    i < PER_SECTOR * |d.Secs()| && f.dirSect == d.Secs()[i / PER_SECTOR] && f.dirAt == SZ_DIR * (i % PER_SECTOR)
  }

  /** Entry `at` of sector `w` records a file on the chain `ch` whose bytes on the drive are `c`. */
  ghost predicate Records(g: Layout, fat: Table, l: Disk, w: Sector, at: nat, ch: seq<nat>, c: seq<byte>) {
    && at + SZ_DIR <= SECTOR_SIZE && FileChain(g, fat, |l|, EntryCluster(w, at), ch)
    && EntrySize(w, at) == |c| <= SECTOR_SIZE * |Sectors(g, ch)| && BytesOf(l, Sectors(g, ch))[..|c|] == c
  }

  /** Entry `i` of the directory stores a file with content `c`. */
  ghost predicate Stored(d: Dir, i: nat, ch: seq<nat>, c: seq<byte>)
    requires d.Valid()
    reads d`chain, d.vol`disk, d.vol`wflag, d.vol`winsect, d.vol.win
  {
    i < |d.Table()| && NoShare(d.chain, ch) &&
    Records(d.vol.geo, d.vol.Fat(), d.vol.Logical(), d.vol.Logical()[d.Secs()[i / PER_SECTOR]], SZ_DIR * (i % PER_SECTOR), ch, c)
  }

  /** The key of a path: the short name of its first segment, and the buffer that holds the segment. */
  ghost function NameKey(path: seq<byte>, buf: seq<word>): (key: D.Key)
    requires |buf| == MAX_LFN + 1
    ensures D.KeyOk(key)
  {
    var name := S.Trimmed(S.Segment(path));
    D.Key(S.Shortened(name), !S.Fits(name), Some(buf))
  }

  /** Naming the same segment twice leaves the buffer as naming it once. */
  lemma NamedAgain(buf: seq<word>, seg: seq<byte>)
    requires |buf| == MAX_LFN + 1 && |seg| <= MAX_LFN
    ensures NameBuffer(NameBuffer(buf, seg), seg) == NameBuffer(buf, seg)
  {
    hide S.Trimmed;
  }

  /** The directory's sectors are none of the file's. */
  lemma DirectoryApart(d: Dir, ch: seq<nat>)
    requires d.Valid() && NoShare(d.chain, ch)
    requires FileChain(d.vol.geo, d.vol.Fat(), |d.vol.disk|, if ch == [] then 0 else ch[0], ch)
    ensures GoodChain(d.vol.geo, d.chain) && GoodChain(d.vol.geo, ch) && d.vol.Valid()
    ensures forall k :: 0 <= k < |d.Secs()| ==>
      FatEnd(d.vol.geo) <= d.Secs()[k] < |d.vol.disk| && d.Secs()[k] !in Sectors(d.vol.geo, ch)
  {
    hide Sectors, NoDup, IsChain, Volume.Logical, Volume.Fat, NoShare;
    d.SecsFacts();
    DirShows(d);
    SectorsApart(d.vol.geo, |d.vol.disk|, d.chain, d.Secs(), ch);
  }

  lemma DirectoryStays(d: Dir, fat: Table, n: nat)
    requires d.vol.Valid() && d.vol.Fat() == fat && |d.vol.disk| == n && DirOn(d, fat, n)
    ensures d.Valid()
  {
  }

  /** An open file knows its chain. */
  lemma FileHasChain(f: File)
    requires f.Valid()
    ensures FileChain(f.vol.geo, f.vol.Fat(), |f.vol.disk|, f.sclust, f.chain) && f.sclust == if f.chain == [] then 0 else f.chain[0]
    ensures f.Content() == BytesOf(f.View(), Sectors(f.vol.geo, f.chain))[..f.fsize]
    ensures f.fsize <= SECTOR_SIZE * |Sectors(f.vol.geo, f.chain)|
    ensures !f.dirty ==> f.View() == f.vol.Logical()
  {
  }

  /** A directory beside an open file, as f_close finds it. */
  lemma BeforeClosing(d: Dir, f: File, i: nat)
    requires DirAndFile(d, f) && GoodChain(d.vol.geo, d.chain) && EntryFor(d, f, i)
    ensures DirOn(d, d.vol.Fat(), |d.vol.disk|) && NoDup(d.Secs()) && d.Table() == TableOf(d.vol.Logical(), d.Secs())
    ensures FatEnd(d.vol.geo) <= f.dirSect < |f.vol.disk| && f.dirSect !in f.Secs() && f.dirAt + SZ_DIR <= SECTOR_SIZE
    ensures forall k :: 0 <= k < |d.Secs()| ==>
      FatEnd(d.vol.geo) <= d.Secs()[k] < |d.vol.disk| && f.View()[d.Secs()[k]] == d.vol.Logical()[d.Secs()[k]]
  {
    hide Sectors, NoDup, IsChain, Volume.Logical, Volume.Fat, NoShare, TableOf, FileChain;
    FileHasChain(f);
    DirectoryApart(d, f.chain);
    DirPlace(d);
    FileShows(f);
    d.SecsFacts();
  }

  /** What f_close leaves: the table with its one entry changed, which records the file. */
  lemma AfterClosing(d: Dir, f: File, i: nat, l: Disk, v: Disk, time: dword)
    requires f.Valid() && d.vol == f.vol && DirOn(d, d.vol.Fat(), |l|) && |l| == |v| == |d.vol.disk| && !f.dirty
    requires d.vol.disk == d.vol.Logical()
    requires GoodChain(d.vol.geo, d.chain) && EntryFor(d, f, i) && NoShare(d.chain, f.chain) && NoDup(d.Secs())
    requires forall k :: 0 <= k < |d.Secs()| ==>
      FatEnd(d.vol.geo) <= d.Secs()[k] < |l| && v[d.Secs()[k]] == l[d.Secs()[k]]
    requires forall s :: f.vol.geo.fatbase <= s < |l| && s != f.dirSect ==> f.View()[s] == v[s]
    requires d.vol.disk[f.dirSect] == UpdatedEntry(l[f.dirSect], f.dirAt, f.sclust, time, f.fsize)
    requires D.IsShort(TableOf(l, d.Secs())[i])
    ensures d.Valid() && Stored(d, i, f.chain, f.Content())
    ensures var t, t' := TableOf(l, d.Secs()), d.Table();
      t' == t[i := t'[i]] && D.SameNames(t, t') && (IsDirectory(t'[i]) <==> IsDirectory(t[i])) &&
      (IsReadOnly(t'[i]) <==> IsReadOnly(t[i]))
  {
    hide NoDup, IsChain, Volume.Logical, Volume.Fat, NoShare, Sectors, BytesOf, TableOf, EntryCluster, EntrySize;
    hide UpdatedEntry, FileChain, D.SameNames, D.IsShort, IsDirectory, IsReadOnly;
    FileHasChain(f);
    DirectoryStays(d, d.vol.Fat(), |l|);
    UpdatedTable(l, d.vol.Logical(), d.Secs(), i, f.sclust, time, f.fsize);
  }

  /** Nothing of the volume is still to be written to the drive. */
  ghost predicate Written(v: Volume)
    reads v, v.win
  {
    v.Valid() && !v.wflag && v.disk == v.Logical() && (v.geo.fsType == Fat32 ==> !v.fsiFlag)
  }

  /** f_close beside the directory of the file: its entry records the file as it is, the names stay. */
  method CloseIn(d: Dir, f: File, ghost i: nat, time: dword) returns (res: FResult)
    requires DirAndFile(d, f) && GoodChain(d.vol.geo, d.chain) && EntryFor(d, f, i) && f.written
    requires D.IsShort(d.Table()[i])
    modifies f`dirty, f`written, f.vol`disk, f.vol`wflag, f.vol`winsect, f.vol`fsiFlag, f.vol.win
    ensures res == Ok && d.Valid() && f.Valid() && f.Content() == old(f.Content()) && d.vol.Fat() == old(d.vol.Fat())
    ensures Stored(d, i, f.chain, f.Content())
    ensures var t, t' := old(d.Table()), d.Table();
      t' == t[i := t'[i]] && D.SameNames(t, t') && (IsDirectory(t'[i]) <==> IsDirectory(t[i])) &&
      (IsReadOnly(t'[i]) <==> IsReadOnly(t[i]))
    ensures Written(d.vol)
    ensures forall b: dword :: old(M.InBooks(d.vol, b)) ==> M.InBooks(d.vol, b)
    ensures old(M.Counted(d.vol)) ==> M.Counted(d.vol)
  {
    hide M.OnBooks, CountOk, Volume.InfoWritten;
    hide File.Core, File.Sized, File.BufferClean, File.Positioned, File.MidSector, File.Content, Dir.Valid, Dir.Table;
    hide Stored, NoShare, Sectors, BytesOf, TableOf, UpdatedEntry, FileChain, GoodChain, DirOn, NoDup, Volume.Valid;
    hide Volume.Fat, Volume.Logical, D.SameNames, D.IsShort, IsDirectory, IsReadOnly;
    ghost var l, v := d.vol.Logical(), f.View();
    BeforeClosing(d, f, i);
    res := f.Sync(time);
    AfterClosing(d, f, i, l, v, time);
    forall b: dword | old(M.InBooks(d.vol, b)) ensures M.InBooks(d.vol, b) {
      M.BooksSynced(d.vol, l, d.vol.freeClust, old(d.vol.fsiFlag), d.vol.disk, b);
      BooksFlag(d.vol, b);
    }
  }

  lemma BooksFlag(v: Volume, bsect: dword)
    requires v.Valid() && M.OnBooks(v, v.Logical(), v.freeClust, false, bsect)
    ensures M.InBooks(v, bsect)
  {
    hide Volume.Logical, M.Hints, M.OnRecord;
  }

  // ---------------------------------------------------------------- f_open

  /** The entry under the cursor with its sector in the window. */
  lemma CursorEntry(d: Dir)
    requires d.Valid() && GoodChain(d.vol.geo, d.chain) && d.Positioned() && d.vol.winsect == d.sect
    ensures DirOn(d, d.vol.Fat(), |d.vol.disk|) && NoDup(d.Secs()) && d.vol.Valid()
    ensures d.Table() == TableOf(d.vol.Logical(), d.Secs())
    ensures d.index < |d.Table()| && d.Secs()[d.index / PER_SECTOR] == d.vol.winsect
    ensures FatEnd(d.vol.geo) <= d.vol.winsect
    ensures 0 < d.vol.winsect < |d.vol.disk| && d.vol.win[..] == d.vol.Logical()[d.vol.winsect]
    ensures d.Table()[d.index] == EntryOf(d.vol.win[..], d.index % PER_SECTOR)
    ensures forall k :: 0 <= k < |d.Secs()| ==> d.Secs()[k] < |d.vol.disk|
  {
    hide Sectors, NoDup, IsChain, Volume.Logical, Volume.Fat, TableOf, FileChain;
    DirPlace(d);
    d.SecsFacts();
    d.OnEntry();
    d.WindowShows();
  }

  lemma AfterClearing(d: Dir, l: Disk, i: nat, time: dword)
    requires d.vol.Valid() && DirOn(d, d.vol.Fat(), |l|) && GoodChain(d.vol.geo, d.chain) && NoDup(d.Secs())
    requires |d.vol.disk| == |l|
    requires forall k :: 0 <= k < |d.Secs()| ==> d.Secs()[k] < |l|
    requires i < PER_SECTOR * |d.Secs()| && d.Secs()[i / PER_SECTOR] == d.vol.winsect
    requires FatEnd(d.vol.geo) <= d.vol.winsect < |l|
    requires d.vol.Logical() == l[d.vol.winsect := ClearedEntry(l[d.vol.winsect], SZ_DIR * (i % PER_SECTOR), time)]
    requires D.IsShort(TableOf(l, d.Secs())[i])
    ensures d.Valid() && i < |d.Table()|
    ensures var t, t' := TableOf(l, d.Secs()), d.Table();
      t' == t[i := t'[i]] && D.SameNames(t, t') && D.IsShort(t'[i]) && !IsDirectory(t'[i]) && !IsReadOnly(t'[i])
    ensures var w, at := d.vol.win[..], SZ_DIR * (i % PER_SECTOR); EntryCluster(w, at) == 0 && EntrySize(w, at) == 0
  {
    hide NoDup, IsChain, Volume.Fat, Volume.Logical, Sectors, TableOf, EntryCluster, EntrySize, ClearedEntry, FileChain;
    hide D.SameNames, D.IsShort, IsDirectory, IsReadOnly;
    DirectoryStays(d, d.vol.Fat(), |l|);
    ClearedTable(l, d.vol.Logical(), d.Secs(), i, time);
    WindowNow(d.vol);
  }

  lemma WindowNow(v: Volume)
    requires v.Valid() && FatEnd(v.geo) <= v.winsect
    ensures v.winsect < |v.disk| && v.win[..] == v.Logical()[v.winsect]
  {
  }

  /** A file without clusters. */
  lemma EmptyChain(g: Layout, fat: Table, n: nat)
    ensures FileChain(g, fat, n, 0, []) && Sectors(g, []) == []
  {
  }

  /** Names of 255 units are not found again. */
  predicate TooLong(path: seq<byte>) {
    |S.Trimmed(S.Segment(path))| == MAX_LFN
  }

  /** A path of one segment of ASCII characters, ended by a zero. */
  ghost predicate SimplePath(path: seq<byte>) {
    path != [] && path[|path| - 1] == 0 && OneSegment(path) && forall k :: 0 <= k < |path| ==> path[k] < 0x80
  }

  /** All numbered short names of the path's name are taken. */
  ghost predicate NumbersTaken(t: D.Table, path: seq<byte>) {
    var name := S.Trimmed(S.Segment(path));
    !S.Fits(name) && D.AllTaken(t, S.Shortened(name), UnitsOf(name))
  }

  /** Entries that an object named by the path takes. */
  ghost function EntriesFor(path: seq<byte>): nat {
    var name := S.Trimmed(S.Segment(path));
    Entries(!S.IsPlain(name), UnitsOf(name))
  }

  /** Creation failed, or there was room for the object: the exact reason. */
  ghost predicate Made(d: Dir, res: FResult, t: D.Table, path: seq<byte>)
    requires d.Valid()
    reads d`chain, d.vol`disk, d.vol`wflag, d.vol`winsect, d.vol.win
  {
    if NumbersTaken(t, path) then res == Denied
    else res == Ok || (d.NoRoom(res, EntriesFor(path)) && !D.HasRoom(t, EntriesFor(path)) && Extends(t, d.Table()))
  }

  /** A new entry of the name in a well-formed table: it is the entry of an object, and found unless the name is too
      long. */
  lemma NewEntry(t: D.Table, t': D.Table, at: nat, path: seq<byte>, buf: seq<word>, sn: seq<byte>, fn: seq<byte>,
                 nt: byte, loss: bool, long: bool, up: word -> word)
    requires |buf| == MAX_LFN + 1 && |sn| == |fn| == SFN && fn[0] != 0 && fn[0] != DDE && D.WellFormed(t)
    requires var name := S.Trimmed(S.Segment(path)); (loss <==> !S.Fits(name)) && sn == S.Shortened(name)
    requires Created(t, t', at, UnitsOf(S.Trimmed(S.Segment(path))), sn, fn, nt, loss, long)
    requires FoundIfReached(t, t', at, D.Key(sn, loss, Some(buf)), up, TooLong(path))
    ensures at < |t'| && D.IsShort(t'[at]) && D.Find(t', NameKey(path, buf), up) == if TooLong(path) then None else Some(at)
  {
    hide S.Segment, S.Trimmed, S.Fits, S.Shortened, D.Find, D.InFront, TooLong;
    assert t'[at] == D.ShortEntry(fn, nt);
    ShortEntryIsShort(fn, nt);
  }

  lemma ShortEntryIsShort(fn: seq<byte>, nt: byte)
    requires |fn| == SFN && fn[0] != 0 && fn[0] != DDE
    ensures D.IsShort(D.ShortEntry(fn, nt))
  {
  }

  /** f_open, up to the entry: the one of the name, or a new one. */
  method Enter(d: Dir, path: seq<byte>, lfn: array<word>, up: word -> word) returns (res: FResult, created: bool)
    requires d.Valid() && lfn.Length == MAX_LFN + 1 && L.IsUpper(up) && SimplePath(path)
    requires D.WellFormed(d.Table())
    modifies lfn, d`index, d`clust, d`sect, d`chain
    modifies d.vol`disk, d.vol`wflag, d.vol`winsect, d.vol`lastClust, d.vol`freeClust, d.vol`fsiFlag, d.vol.win
    ensures d.Valid() && D.WellFormed(d.Table()) && GoodChain(d.vol.geo, d.chain)
    ensures res in {Ok, InvalidName, NoFile, Denied, IntErr}
    ensures res == InvalidName <==> !S.Acceptable(S.Segment(path))
    ensures res != InvalidName ==> lfn[..] == NameBuffer(old(lfn[..]), S.Segment(path))
    ensures res != InvalidName ==>
      if D.Find(old(d.Table()), NameKey(path, lfn[..]), up).Some? then res == Ok && !created else Made(d, res, old(d.Table()), path)
    ensures res == Ok ==> d.Positioned() && d.vol.winsect == d.sect && d.index < |d.Table()|
    ensures res == Ok && !created ==> d.Table() == old(d.Table())
    ensures res == Ok && !created ==> D.Find(old(d.Table()), NameKey(path, lfn[..]), up) == Some(d.index)
    ensures res == Ok && created ==>
      D.Find(d.Table(), NameKey(path, lfn[..]), up) == if TooLong(path) then None else Some(d.index)
    ensures res == Ok && created ==> D.IsShort(d.Table()[d.index])
    ensures d.vol.Valid() && (HasReserved(d.vol.Fat()) ==> HasReserved(old(d.vol.Fat())))
    ensures forall b: dword :: old(M.InBooks(d.vol, b)) ==> M.InBooks(d.vol, b)
    ensures old(M.Counted(d.vol)) ==> M.Counted(d.vol)
  {
    hide M.OnBooks, CountOk;
    hide Dir.Valid, Dir.Table, Dir.Positioned, Evolves, GoodChain, Volume.Valid, Volume.Fat, Volume.Logical, L.IsUpper;
    hide OneSegment;
    hide Dir.NoRoom, HasReserved, D.HasRoom, D.FirstOfName, D.AllTaken, D.WellFormed, PrintsAs, D.Find, D.IsShort;
    hide IsChain;
    hide S.Segment, S.Trimmed, S.Acceptable, S.IsPlain, S.Fits, S.Shortened, NameBuffer, L.Holds, Created;
    ghost var t, a := d.Table(), d.Snap();
    d.ChainIsThere();
    SnapIs(d);
    var o, fn;
    res, o, fn, created := OpenOrCreate(d, path, lfn, up);
    SnapIs(d);
    d.ReservedBefore(a);
    forall b: dword | old(M.InBooks(d.vol, b)) ensures M.InBooks(d.vol, b) {
      DirBooks(d, a, b);
    }
    if CountOk(a.fat, a.count) {
      DirCounts(d, a);
    }
    if res == Ok {
      InTable(d);
      if created {
        NewEntry(t, d.Table(), d.index, path, lfn[..], o.fn, fn, CaseFlags(o), o.loss, o.long, up);
      } else {
        D.FindIsFirst(t, Sought(o.fn, o.loss, lfn), up, d.index);
      }
    }
  }

  lemma InTable(d: Dir)
    requires d.Valid() && GoodChain(d.vol.geo, d.chain) && d.Positioned()
    ensures d.index < |d.Table()|
  {
  }

  /** An empty file, open for reading and writing, for the entry under the cursor; f_close will update the entry. */
  ghost predicate NewFile(d: Dir, f: File)
    reads d`chain, d`index, f, f.buf, f.vol, d.vol, d.vol.win
  {
    && DirAndFile(d, f) && GoodChain(d.vol.geo, d.chain) && EntryFor(d, f, d.index) && d.index < |d.Table()|
    && f.Content() == [] && f.fptr == 0 && f.canRead && f.canWrite && f.written && !f.error
    && var e := d.Table()[d.index]; D.IsShort(e) && !IsDirectory(e) && !IsReadOnly(e)
  }

  lemma OneSectorBooks(v: Volume, l: Disk, s: nat, w: Sector, bsect: dword)
    requires v.Valid() && M.OnBooks(v, l, v.freeClust, v.fsiFlag, bsect) && FatEnd(v.geo) <= s < |l|
    requires v.Logical() == l[s := w]
    ensures M.InBooks(v, bsect)
  {
    hide M.OnBooks, Volume.Logical;
    v.Facts();
    M.BooksKept(v, l, v.freeClust, v.fsiFlag, v.Logical(), v.freeClust, v.fsiFlag, bsect);
  }

  /** f_open, a created file: its entry is cleared and opened. */
  method ClearAndOpen(d: Dir, time: dword) returns (f: File)
    requires d.Valid() && GoodChain(d.vol.geo, d.chain) && d.Positioned() && d.vol.winsect == d.sect
    requires d.index < |d.Table()| && D.IsShort(d.Table()[d.index])
    modifies d.vol`wflag, d.vol.win
    ensures fresh(f) && fresh(f.buf) && NewFile(d, f) && d.Valid() && D.SameNames(old(d.Table()), d.Table())
    ensures d.vol.Valid() && old(d.vol.Valid()) && d.vol.Fat() == old(d.vol.Fat())
    ensures forall b: dword :: old(M.InBooks(d.vol, b)) ==> M.InBooks(d.vol, b)
    ensures old(M.Counted(d.vol)) ==> M.Counted(d.vol)
  {
    hide M.OnBooks, CountOk;
    hide Dir.Table, GoodChain, DirOn, NoDup, TableOf, Volume.Valid, Volume.Fat, Volume.Logical, ClearedEntry;
    hide EntryCluster, EntrySize, D.IsShort, D.SameNames, IsDirectory, IsReadOnly;
    CursorEntry(d);
    hide Dir.Valid, Dir.Positioned;
    ghost var l := d.vol.Logical();
    var at := SZ_DIR * (d.index % PER_SECTOR);
    ghost var w := ClearedEntry(d.vol.win[..], at, time);
    d.vol.StoreWindow(ClearedEntry(d.vol.win[..], at, time));
    AfterClearing(d, l, d.index, time);
    forall b: dword | old(M.InBooks(d.vol, b)) ensures M.InBooks(d.vol, b) {
      OneSectorBooks(d.vol, l, d.vol.winsect, w, b);
    }
    EmptyChain(d.vol.geo, d.vol.Fat(), |d.vol.disk|);
    f := new File.Open(d.vol, at, true, true, true, []);
  }

  /** f_open with FA_CREATE_NEW, for reading and writing: the name must be new, and the file is empty. */
  method CreateNew(d: Dir, path: seq<byte>, lfn: array<word>, up: word -> word, time: dword)
    returns (res: FResult, f: File?)
    requires d.Valid() && lfn.Length == MAX_LFN + 1 && L.IsUpper(up) && SimplePath(path)
    requires D.WellFormed(d.Table())
    modifies lfn, d`index, d`clust, d`sect, d`chain
    modifies d.vol`disk, d.vol`wflag, d.vol`winsect, d.vol`lastClust, d.vol`freeClust, d.vol`fsiFlag, d.vol.win
    ensures d.Valid() && D.WellFormed(d.Table()) && GoodChain(d.vol.geo, d.chain)
    ensures res == InvalidName <==> !S.Acceptable(S.Segment(path))
    ensures res != InvalidName ==> lfn[..] == NameBuffer(old(lfn[..]), S.Segment(path))
    ensures res != InvalidName ==>
      if D.Find(old(d.Table()), NameKey(path, lfn[..]), up).Some? then d.Table() == old(d.Table()) && Refused(d, res)
      else Made(d, res, old(d.Table()), path)
    ensures res == Ok ==> D.Find(d.Table(), NameKey(path, lfn[..]), up) == if TooLong(path) then None else Some(d.index)
    ensures res in {Ok, InvalidName, Exist, NoFile, Denied, IntErr} && (res == Ok <==> f != null)
    ensures d.vol.Valid() && (HasReserved(d.vol.Fat()) ==> HasReserved(old(d.vol.Fat())))
    ensures f != null ==> fresh(f) && fresh(f.buf) && NewFile(d, f)
    ensures forall b: dword :: old(M.InBooks(d.vol, b)) ==> M.InBooks(d.vol, b)
    ensures old(M.Counted(d.vol)) ==> M.Counted(d.vol)
  {
    hide M.InBooks, M.Counted;
    hide Dir.Valid, Dir.Table, Dir.Positioned, GoodChain, Volume.Valid, Volume.Fat, Volume.Logical, L.IsUpper;
    hide SimplePath;
    hide HasReserved, D.WellFormed, D.Find, D.IsShort, D.SameNames, IsDirectory, IsReadOnly, NewFile, DirOn, TableOf;
    hide NoDup, NumbersTaken;
    hide S.Segment, S.Acceptable, NameBuffer, NameKey, TooLong, Made;
    f := null;
    ghost var t := d.Table();
    var created;
    res, created := Enter(d, path, lfn, up);
    if res != Ok {
      return;
    }
    CursorEntry(d);
    if !created {
      var e := EntryOf(d.vol.win[..], d.index % PER_SECTOR);
      res := if IsReadOnly(e) || IsDirectory(e) then Denied else Exist;
      return;
    }
    ghost var t1 := d.Table();
    NotTaken(d, t, path);
    f := ClearAndOpen(d, time);
    D.SameNamesFind(t1, d.Table(), NameKey(path, lfn[..]), up);
    D.SameNamesWellFormed(t1, d.Table());
    MadeIt(d, t, path);
  }

  lemma NotTaken(d: Dir, t: D.Table, path: seq<byte>)
    requires d.Valid() && Made(d, Ok, t, path)
    ensures !NumbersTaken(t, path)
  {
  }

  lemma Outcome(d: Dir, res: FResult, t: D.Table, path: seq<byte>, found: bool)
    requires d.Valid() && if found then Refused(d, res) else Made(d, res, t, path)
    ensures if found then res in {Denied, Exist} else res == Ok ==> !NumbersTaken(t, path)
    ensures res == IntErr ==> d.vol.Valid() && HasReserved(d.vol.Fat())
  {
    hide Dir.Table, NumbersTaken, HasReserved, NoneFree, D.HasRoom, IsDirectory, IsReadOnly;
  }

  lemma MadeIt(d: Dir, t: D.Table, path: seq<byte>)
    requires d.Valid() && !NumbersTaken(t, path)
    ensures Made(d, Ok, t, path)
  {
  }

  /** f_open does not create over the entry under the cursor. */
  ghost predicate Refused(d: Dir, res: FResult)
    requires d.Valid()
    reads d`index, d`chain, d.vol`disk, d.vol`wflag, d.vol`winsect, d.vol.win
  {
    d.index < |d.Table()| && res == if IsDirectory(d.Table()[d.index]) || IsReadOnly(d.Table()[d.index]) then Denied else Exist
  }

  /** A file stored in the directory is what f_open opens. */
  lemma StoredOpens(d: Dir, ch: seq<nat>, c: seq<byte>)
    requires d.Valid() && GoodChain(d.vol.geo, d.chain) && d.Positioned() && d.vol.winsect == d.sect
    requires Stored(d, d.index, ch, c)
    ensures var w, at := d.vol.win[..], SZ_DIR * (d.index % PER_SECTOR);
      d.vol.Valid() && ChainFrom(d.vol, EntryCluster(w, at), ch) &&
      EntrySize(w, at) == |c| <= SECTOR_SIZE * |Sectors(d.vol.geo, ch)| &&
      BytesOf(d.vol.Logical(), Sectors(d.vol.geo, ch))[..|c|] == c
  {
    hide NoDup, IsChain, Volume.Fat, Volume.Logical, Sectors, BytesOf, TableOf, NoShare, EntryCluster, EntrySize;
    CursorEntry(d);
    DirectoryApart(d, ch);
  }

  /** f_open, the search for the name. */
  method Lookup(d: Dir, path: seq<byte>, lfn: array<word>, up: word -> word) returns (res: FResult)
    requires d.Valid() && lfn.Length == MAX_LFN + 1 && L.IsUpper(up) && SimplePath(path)
    modifies lfn, d`index, d`clust, d`sect, d`chain
    modifies d.vol`disk, d.vol`wflag, d.vol`winsect, d.vol`lastClust, d.vol`freeClust, d.vol`fsiFlag, d.vol.win
    ensures d.Valid() && d.vol.Valid() && GoodChain(d.vol.geo, d.chain) && d.chain == old(d.chain)
    ensures d.Table() == old(d.Table()) && d.vol.Fat() == old(d.vol.Fat()) && d.vol.Logical() == old(d.vol.Logical())
    ensures d.vol.freeClust == old(d.vol.freeClust) && d.vol.fsiFlag == old(d.vol.fsiFlag)
    ensures res == InvalidName <==> !S.Acceptable(S.Segment(path))
    ensures res != InvalidName ==> lfn[..] == NameBuffer(old(lfn[..]), S.Segment(path))
    ensures res != InvalidName ==>
      var found := D.Find(d.Table(), NameKey(path, lfn[..]), up);
      if found.Some? then res == Ok && d.Positioned() && d.vol.winsect == d.sect && d.index == found.value else res == NoFile
  {
    hide Dir.Valid, Dir.Table, Dir.Positioned, GoodChain, Volume.Valid, Volume.Fat, Volume.Logical, L.IsUpper;
    hide OneSegment, D.Find, D.FirstOfName, S.Segment, S.Trimmed, S.IsIllegal, S.IsPlain, S.Fits, S.Shortened;
    hide S.Printed, NameBuffer;
    SnapIs(d);
    var o, at;
    res, o, at := S.CreateName(path);
    if res != Ok {
      return;
    }
    StoreName(lfn, S.Segment(path), |o.lfn|);
    res := d.Find(o.fn, o.loss, lfn, up);
    SnapIs(d);
  }

  lemma SnapIs(d: Dir)
    requires d.Valid()
    ensures d.vol.Valid() && GoodChain(d.vol.geo, d.chain)
    ensures d.Snap().fat == d.vol.Fat() && d.Snap().view == d.vol.Logical() && d.Snap().ch == d.chain
    ensures d.Snap().count == d.vol.freeClust && d.Snap().flag == d.vol.fsiFlag
  {
  }

  /** f_open of an existing file. */
  method OpenExisting(d: Dir, path: seq<byte>, lfn: array<word>,
                      up: word -> word, write: bool, ghost ch: seq<nat>, ghost c: seq<byte>)
    returns (res: FResult, f: File?)
    requires d.Valid() && lfn.Length == MAX_LFN + 1 && L.IsUpper(up) && SimplePath(path)
    requires S.Acceptable(S.Segment(path)) ==>
      var found := D.Find(d.Table(), NameKey(path, NameBuffer(lfn[..], S.Segment(path))), up); found.Some? ==> Stored(d, found.value, ch, c)
    modifies lfn, d`index, d`clust, d`sect, d`chain
    modifies d.vol`disk, d.vol`wflag, d.vol`winsect, d.vol`lastClust, d.vol`freeClust, d.vol`fsiFlag, d.vol.win
    ensures d.Valid() && d.Table() == old(d.Table()) && d.vol.Fat() == old(d.vol.Fat())
    ensures d.vol.Valid() && old(d.vol.Valid()) && d.vol.Logical() == old(d.vol.Logical())
    ensures d.vol.freeClust == old(d.vol.freeClust) && d.vol.fsiFlag == old(d.vol.fsiFlag)
    ensures res == InvalidName <==> !S.Acceptable(S.Segment(path))
    ensures res != InvalidName ==> lfn[..] == NameBuffer(old(lfn[..]), S.Segment(path))
    ensures res != InvalidName ==>
      var found, t := D.Find(d.Table(), NameKey(path, lfn[..]), up), d.Table();
      if found.None? then res == NoFile
      else res == if IsDirectory(t[found.value]) then NoFile else if write && IsReadOnly(t[found.value]) then Denied else Ok
    ensures res == Ok <==> f != null
    ensures f != null ==>
      fresh(f) && f.vol == d.vol && f.Valid() && f.fptr == 0 && f.Content() == c && f.canRead && f.canWrite == write
  {
    hide Dir.Valid, Dir.Table, Dir.Positioned, GoodChain, TableOf, NoDup, DirOn, Volume.Valid, Volume.Fat;
    hide Volume.Logical, L.IsUpper, SimplePath, D.Find, S.Segment, S.Acceptable, NameBuffer, NameKey, EntryCluster;
    hide EntrySize, ChainFrom, Sectors, BytesOf, IsDirectory, IsReadOnly;
    f := null;
    DirIsOn(d);
    res := Lookup(d, path, lfn, up);
    if res != Ok {
      return;
    }
    CursorEntry(d);
    var e := EntryOf(d.vol.win[..], d.index % PER_SECTOR);
    if IsDirectory(e) {
      return NoFile, null;
    }
    if write && IsReadOnly(e) {
      return Denied, null;
    }
    StoredOpens(d, ch, c);
    f := new File.Open(d.vol, SZ_DIR * (d.index % PER_SECTOR), true, write, false, ch);
  }

  // ---------------------------------------------------------------- from the name to the bytes and back

  /** Entry `i` of a well-formed directory stores a file with content `c` that may be opened for writing. */
  ghost predicate Saved(d: Dir, i: nat, ch: seq<nat>, c: seq<byte>)
    reads d`chain, d.vol`disk, d.vol`wflag, d.vol`winsect, d.vol.win
  {
    d.Valid() && D.WellFormed(d.Table()) && Stored(d, i, ch, c) && !IsDirectory(d.Table()[i]) &&
    !IsReadOnly(d.Table()[i])
  }

  /** f_write and f_close of a new file. */
  method WriteAndClose(d: Dir, f: File, data: seq<byte>, time: dword) returns (res: FResult, bw: nat)
    requires NewFile(d, f) && D.WellFormed(d.Table()) && |data| < 0x1_0000_0000
    modifies f, f.buf, d.vol`disk, d.vol`wflag, d.vol`winsect, d.vol`lastClust, d.vol`freeClust, d.vol`fsiFlag
    modifies d.vol.win
    ensures res == Ok || (res == IntErr && HasReserved(old(d.vol.Fat())))
    ensures d.vol.Valid() && old(d.vol.Valid()) && (HasReserved(d.vol.Fat()) ==> HasReserved(old(d.vol.Fat())))
    ensures res == Ok ==> bw <= |data| && (bw < |data| ==> NoneFree(d.vol.Fat()))
    ensures res == Ok ==> Saved(d, d.index, f.chain, data[..bw]) && D.SameNames(old(d.Table()), d.Table())
    ensures res == Ok ==> Written(d.vol)
    ensures res == Ok ==> forall b: dword :: old(M.InBooks(d.vol, b)) ==> M.InBooks(d.vol, b)
    ensures res == Ok && old(M.Counted(d.vol)) ==> M.Counted(d.vol)
  {
    hide M.InBooks, M.Counted;
    hide File.Core, File.Sized, File.BufferClean, File.Positioned, File.MidSector, File.Content, Dir.Valid, Dir.Table;
    hide NoShare, GoodChain, Stored, Volume.Valid, Volume.Fat, Volume.Logical, HasReserved, NoneFree, D.WellFormed;
    hide D.SameNames, D.IsShort, IsDirectory, IsReadOnly;
    FileIsEmpty(f);
    res, bw := WriteBesideDir(f, d, data);
    if res != Ok {
      return;
    }
    assert f.Content() == data[..bw];
    ghost var t := d.Table();
    res := CloseIn(d, f, d.index, time);
    D.SameNamesWellFormed(t, d.Table());
    FileBuffer(f);
  }

  lemma FileIsEmpty(f: File)
    requires f.Valid() && f.Content() == [] && f.fptr == 0
    ensures f.fsize == 0
  {
  }

  /** f_open under a new name, f_write and f_close: the directory stores the bytes that were written, fewer than
      asked for only on a full disk. Every refusal has its exact reason. */
  method SaveNew(d: Dir, path: seq<byte>, data: seq<byte>, lfn: array<word>,
                 up: word -> word, atOpen: dword, atClose: dword)
    returns (res: FResult, bw: nat, ghost ch: seq<nat>)
    requires d.Valid() && D.WellFormed(d.Table()) && lfn.Length == MAX_LFN + 1 && L.IsUpper(up)
    requires SimplePath(path) && |data| < 0x1_0000_0000
    modifies lfn, d`index, d`clust, d`sect, d`chain
    modifies d.vol`disk, d.vol`wflag, d.vol`winsect, d.vol`lastClust, d.vol`freeClust, d.vol`fsiFlag, d.vol.win
    ensures res == InvalidName <==> !S.Acceptable(S.Segment(path))
    ensures res != InvalidName ==> lfn[..] == NameBuffer(old(lfn[..]), S.Segment(path))
    ensures res != InvalidName ==>
      if D.Find(old(d.Table()), NameKey(path, lfn[..]), up).Some? then d.Valid() && d.Table() == old(d.Table()) && Refused(d, res)
      else res == IntErr || (d.Valid() && Made(d, res, old(d.Table()), path))
    ensures res == IntErr ==> HasReserved(old(d.vol.Fat()))
    ensures d.vol.Valid() && (HasReserved(d.vol.Fat()) ==> HasReserved(old(d.vol.Fat())))
    ensures res == Ok ==> bw <= |data| && (bw < |data| ==> NoneFree(d.vol.Fat())) && Saved(d, d.index, ch, data[..bw])
    ensures res == Ok ==> D.Find(d.Table(), NameKey(path, lfn[..]), up) == if TooLong(path) then None else Some(d.index)
    ensures res == Ok ==> Written(d.vol)
    ensures res != IntErr ==> forall b: dword :: old(M.InBooks(d.vol, b)) ==> M.InBooks(d.vol, b)
    ensures res != IntErr && old(M.Counted(d.vol)) ==> M.Counted(d.vol)
  {
    hide M.InBooks, M.Counted;
    hide File.Core, File.Sized, File.BufferClean, File.Positioned, File.MidSector, File.Content, Dir.Valid, Dir.Table;
    hide NoShare, GoodChain, Stored, Volume.Valid, Volume.Fat, Volume.Logical, HasReserved, NoneFree, NewFile, Refused;
    hide D.WellFormed, D.SameNames, D.IsShort, D.Find, IsDirectory, IsReadOnly, Made, NumbersTaken;
    hide S.Segment, S.Acceptable, NameBuffer, NameKey, TooLong, SimplePath, L.IsUpper;
    bw, ch := 0, [];
    DirIsOn(d);
    ghost var was := d.Table();
    var f;
    res, f := CreateNew(d, path, lfn, up, atOpen);
    DirIsOn(d);
    if res != InvalidName {
      Outcome(d, res, was, path, D.Find(was, NameKey(path, lfn[..]), up).Some?);
    }
    if res == Ok {
      ghost var t := d.Table();
      res, bw := WriteAndClose(d, f, data, atClose);
      ch := f.chain;
      if res == Ok {
        D.SameNamesFind(t, d.Table(), NameKey(path, lfn[..]), up);
        MadeIt(d, was, path);
      }
    }
  }

  /** Then f_open again by the same path: the file that is opened holds the bytes that were written. Only under a
      name of 255 units it is not found. */
  method SaveAndLoad(d: Dir, path: seq<byte>, data: seq<byte>, lfn: array<word>,
                     up: word -> word, atOpen: dword, atClose: dword)
    returns (saved: FResult, bw: nat, res: FResult, g: File?)
    requires d.Valid() && D.WellFormed(d.Table()) && lfn.Length == MAX_LFN + 1 && L.IsUpper(up) && SimplePath(path)
    requires |data| < 0x1_0000_0000
    modifies lfn, d`index, d`clust, d`sect, d`chain
    modifies d.vol`disk, d.vol`wflag, d.vol`winsect, d.vol`lastClust, d.vol`freeClust, d.vol`fsiFlag, d.vol.win
    ensures saved == InvalidName <==> !S.Acceptable(S.Segment(path))
    ensures saved != InvalidName ==>
      if D.Find(old(d.Table()), NameKey(path, lfn[..]), up).Some? then d.Valid() && saved in {Exist, Denied}
      else saved == IntErr || (d.Valid() && Made(d, saved, old(d.Table()), path))
    ensures saved == IntErr ==> HasReserved(old(d.vol.Fat()))
    ensures d.vol.Valid() && (HasReserved(d.vol.Fat()) ==> HasReserved(old(d.vol.Fat())))
    ensures saved == Ok ==>
      d.Valid() && D.WellFormed(d.Table()) && bw <= |data| && (bw < |data| ==> NoneFree(d.vol.Fat()))
    ensures saved == Ok ==> res == if TooLong(path) then NoFile else Ok
    ensures saved == Ok && res == Ok ==>
      g != null && fresh(g) && g.vol == d.vol && g.Valid() && g.fptr == 0 && g.Content() == data[..bw]
  {
    hide File.Core, File.Sized, File.BufferClean, File.Positioned, File.MidSector, File.Content, Dir.Valid, Dir.Table;
    hide GoodChain, Stored, Volume.Valid, Volume.Fat, Volume.Logical, HasReserved, NoneFree, D.WellFormed, D.Find;
    hide IsDirectory, IsReadOnly;
    hide S.Segment, S.Acceptable, NameBuffer, NameKey, TooLong, SimplePath, L.IsUpper, NumbersTaken;
    g, res := null, NoFile;
    ghost var ch;
    saved, bw, ch := SaveNew(d, path, data, lfn, up, atOpen, atClose);
    if saved == Ok {
      AcceptedName(S.Segment(path));
      NamedAgain(old(lfn[..]), S.Segment(path));
      res, g := OpenExisting(d, path, lfn, up, false, ch, data[..bw]);
      DirIsOn(d);
    }
  }

  lemma AcceptedName(seg: seq<byte>)
    requires S.Acceptable(seg)
    ensures |seg| <= MAX_LFN
  {
  }

  lemma DirIsOn(d: Dir)
    requires d.Valid()
    ensures d.vol.Valid()
  {
  }
}
