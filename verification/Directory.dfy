/** Directories on a mounted volume: a cursor over the entries of a table, which lies in the root directory area or in a
    cluster chain. */
module Directories {
  import opened Bytes
  import opened Geometry
  import opened FatTable
  import opened Chains
  import opened Volumes
  import opened FileData
  import opened LongNames
  import N = NumberedNames
  import D = DirTables
  import S = ShortNames

  const PER_SECTOR := 16

  /** The entries of a list of sectors. */
  ghost function TableOf(d: Disk, secs: seq<nat>): (t: D.Table)
    requires forall k :: 0 <= k < |secs| ==> secs[k] < |d|
    ensures |t| == PER_SECTOR * |secs|
  {
    seq(PER_SECTOR * |secs|, k requires 0 <= k < PER_SECTOR * |secs| => EntryOf(d[secs[k / PER_SECTOR]], k % PER_SECTOR))
  }

  function EntryOf(w: Sector, i: nat): DirEntry
    requires i < PER_SECTOR
  {
    w[SZ_DIR * i..SZ_DIR * i + SZ_DIR]
  }

  /** Overwriting an entry of one sector changes that entry of the table only. */
  lemma StoreOne(d: Disk, secs: seq<nat>, k: nat, e: DirEntry)
    requires NoDup(secs) && k < PER_SECTOR * |secs| && forall k :: 0 <= k < |secs| ==> secs[k] < |d|
    ensures var s := secs[k / PER_SECTOR];
      TableOf(d[s := Splice(d[s], SZ_DIR * (k % PER_SECTOR), e)], secs) == TableOf(d, secs)[k := e]
  {
    var s := secs[k / PER_SECTOR];
    var w := Splice(d[s], SZ_DIR * (k % PER_SECTOR), e);
    var a, b := TableOf(d[s := w], secs), TableOf(d, secs)[k := e];
    forall j | 0 <= j < |a| ensures a[j] == b[j] {
      if j / PER_SECTOR == k / PER_SECTOR {
        OtherEntries(d[s], k % PER_SECTOR, e, j % PER_SECTOR);
      } else {
        assert secs[j / PER_SECTOR] != s;
      }
    }
  }

  lemma OtherEntries(w: Sector, i: nat, e: DirEntry, j: nat)
    requires i < PER_SECTOR && j < PER_SECTOR
    ensures EntryOf(Splice(w, SZ_DIR * i, e), j) == if i == j then e else EntryOf(w, j)
  {
  }

  lemma TableSame(d: Disk, d': Disk, secs: seq<nat>)
    requires forall k :: 0 <= k < |secs| ==> secs[k] < |d| && secs[k] < |d'| && d'[secs[k]] == d[secs[k]]
    ensures TableOf(d', secs) == TableOf(d, secs)
  {
    var a, b := TableOf(d', secs), TableOf(d, secs);
    forall k | 0 <= k < |a| ensures a[k] == b[k] {
      assert d'[secs[k / PER_SECTOR]] == d[secs[k / PER_SECTOR]];
    }
  }

  /** A table that grew by empty sectors. */
  lemma TableGrown(d: Disk, d': Disk, secs: seq<nat>, more: seq<nat>)
    requires forall k :: 0 <= k < |secs| ==> secs[k] < |d| && secs[k] < |d'| && d'[secs[k]] == d[secs[k]]
    requires forall k :: 0 <= k < |more| ==> more[k] < |d'| && d'[more[k]] == Zeros()
    ensures forall k :: 0 <= k < |secs + more| ==> (secs + more)[k] < |d'|
    ensures var t' := TableOf(d', secs + more);
      t'[..PER_SECTOR * |secs|] == TableOf(d, secs) && forall k :: PER_SECTOR * |secs| <= k < |t'| ==> t'[k] == D.ZeroEntry()
  {
    var t, t' := TableOf(d, secs), TableOf(d', secs + more);
    forall k | 0 <= k < |t'| ensures t'[k] == if k < |t| then t[k] else D.ZeroEntry() {
      if k < |t| {
        assert (secs + more)[k / PER_SECTOR] == secs[k / PER_SECTOR];
      } else {
        assert (secs + more)[k / PER_SECTOR] == more[k / PER_SECTOR - |secs|];
        assert EntryOf(Zeros(), k % PER_SECTOR) == D.ZeroEntry();
      }
    }
  }

  /** The static root directory of FAT12 and FAT16 lies between the FATs and the data area. */
  ghost predicate RootAreaOk(g: Layout) {
    g.fsType != Fat32 && 0 < g.nRootdir && g.nRootdir % PER_SECTOR == 0 &&
    FatEnd(g) <= g.dirbase && g.dirbase + g.nRootdir / PER_SECTOR <= g.database
  }

  /** Sectors of a table: a run in the root directory area if there is no chain. */
  ghost function TableSectors(g: Layout, ch: seq<nat>): (secs: seq<nat>)
    requires GoodChain(g, ch)
  {
    if ch == [] then SectorRun(g.dirbase, g.nRootdir / PER_SECTOR) else Sectors(g, ch)
  }

  /** `t'` is `t`, possibly grown by empty entries. */
  ghost predicate Extends(t: D.Table, t': D.Table) {
    |t| <= |t'| && t'[..|t|] == t && forall k :: |t| <= k < |t'| ==> t'[k] == D.ZeroEntry()
  }

  lemma ExtendsTwice(a: D.Table, b: D.Table, c: D.Table)
    requires Extends(a, b) && Extends(b, c)
    ensures Extends(a, c)
  {
    assert c[..|a|] == c[..|b|][..|a|] == a;
    forall k | |a| <= k < |c| ensures c[k] == D.ZeroEntry() {
      if k < |b| {
        assert c[..|b|][k] == b[k];
      }
    }
  }

  /** A chain stretched by a cluster of empty sectors: its table grows by empty entries. */
  lemma StretchedTable(g: Layout, d: Disk, d': Disk, ch: seq<nat>, r: nat)
    requires ch != [] && GoodChain(g, ch) && GoodChain(g, ch + [r]) && |d'| == |d| && FatEnd(g) <= g.database && 2 <= r
    requires Sectors(g, ch + [r]) == Sectors(g, ch) + ClusterSectors(g, r) && NoDup(Sectors(g, ch + [r]))
    requires forall k :: 0 <= k < |Sectors(g, ch + [r])| ==> g.database <= Sectors(g, ch + [r])[k] < |d|
    requires var start := g.database + (r - 2) * g.csize;
      forall s :: 0 <= s < |d| && !InAnyFat(g, s) ==> d'[s] == if start <= s < start + g.csize then Zeros() else d[s]
    ensures forall k :: 0 <= k < |Sectors(g, ch)| ==> Sectors(g, ch)[k] < |d|
    ensures Extends(TableOf(d, Sectors(g, ch)), TableOf(d', Sectors(g, ch + [r])))
    ensures forall s :: 0 <= s < |d| && !InAnyFat(g, s) && s !in Sectors(g, ch + [r]) ==> d'[s] == d[s]
  {
    hide Sectors, TableOf, Zeros, GoodChain;
    var secs, more := Sectors(g, ch), ClusterSectors(g, r);
    var all := secs + more;
    var start := ClusterStart(g, r);
    forall k | 0 <= k < |secs| ensures secs[k] < |d| && d'[secs[k]] == d[secs[k]] {
      assert all[k] == secs[k];
      FrontApart(secs, more, k);
      InMore(g, r, secs[k]);
    }
    forall k | 0 <= k < |more| ensures more[k] < |d| && d'[more[k]] == Zeros() {
      assert all[|secs| + k] == more[k];
    }
    TableGrown(d, d', secs, more);
    forall s | 0 <= s < |d| && !InAnyFat(g, s) && s !in all ensures d'[s] == d[s] {
      InMore(g, r, s);
    }
  }

  lemma InMore(g: Layout, r: nat, s: nat)
    requires 2 <= r
    ensures ClusterStart(g, r) <= s < ClusterStart(g, r) + g.csize ==> s in ClusterSectors(g, r)
  {
    if ClusterStart(g, r) <= s < ClusterStart(g, r) + g.csize {
      assert ClusterSectors(g, r)[s - ClusterStart(g, r)] == s;
    }
  }

  lemma FrontApart(a: seq<nat>, b: seq<nat>, k: nat)
    requires NoDup(a + b) && k < |a|
    ensures a[k] !in b
  {
    forall i | 0 <= i < |b| ensures b[i] != a[k] {
      assert (a + b)[|a| + i] == b[i] && (a + b)[k] == a[k];
    }
  }

  /** Which cluster of a chain holds entry `idx`. */
  function ClusterNo(g: Layout, idx: nat): int
    requires 0 < g.csize
  {
    idx / PER_SECTOR / g.csize
  }

  /** The sector of entry `idx` is the first of its cluster. */
  predicate OpensCluster(g: Layout, idx: nat)
    requires 0 < g.csize
  {
    idx / PER_SECTOR % g.csize == 0
  }

  /** The entry behind entry `idx` of a cluster chain. */
  lemma NextPlace(g: Layout, ch: seq<nat>, idx: nat)
    requires GoodChain(g, ch) && 0 < g.csize && idx < PER_SECTOR * |Sectors(g, ch)|
    ensures var q, i, secs, j := idx / PER_SECTOR, idx + 1, Sectors(g, ch), ClusterNo(g, idx);
      0 <= j < |ch| && q < |secs| &&
      (i % PER_SECTOR != 0 ==> i / PER_SECTOR == q && i < PER_SECTOR * |secs| && ClusterNo(g, i) == j) &&
      (i % PER_SECTOR == 0 ==> i / PER_SECTOR == q + 1) &&
      (i % PER_SECTOR == 0 && !OpensCluster(g, i) ==> ClusterNo(g, i) == j && q + 1 < |secs| && secs[q + 1] == secs[q] + 1) &&
      (i % PER_SECTOR == 0 && OpensCluster(g, i) ==> q + 1 == (j + 1) * g.csize && ClusterNo(g, i) == j + 1)
  {
    hide Sectors, GoodChain, ClusterStart;
    var q := idx / PER_SECTOR;
    SectorPlace(g.csize, |ch|, q);
    var j := q / g.csize;
    if q % g.csize + 1 < g.csize {
      SectorIndex(g, ch, j, q % g.csize);
      SectorIndex(g, ch, j, q % g.csize + 1);
      Remainder(q + 1, g.csize, j, q % g.csize + 1);
    } else {
      Distribute(g.csize, j, 1);
      Remainder(q + 1, g.csize, j + 1, 0);
    }
  }

  /** The entry behind entry `idx` of the static root directory. */
  lemma NextInRoot(g: Layout, idx: nat)
    requires RootAreaOk(g) && GoodChain(g, []) && idx < PER_SECTOR * |TableSectors(g, [])|
    ensures var q, i, secs := idx / PER_SECTOR, idx + 1, TableSectors(g, []);
      PER_SECTOR * |secs| == g.nRootdir && q < |secs| &&
      (i % PER_SECTOR != 0 ==> i / PER_SECTOR == q && i < g.nRootdir) &&
      (i % PER_SECTOR == 0 ==> i / PER_SECTOR == q + 1) &&
      (q + 1 < |secs| ==> secs[q + 1] == secs[q] + 1)
  {
  }

  lemma CursorWraps(idx: nat)
    requires idx < D.MAX_ENTRIES
    ensures (idx + 1) % D.MAX_ENTRIES == if idx + 1 == D.MAX_ENTRIES then 0 else idx + 1
  {
  }

  lemma SectorPlace(csize: nat, n: nat, q: nat)
    requires 0 < csize && q < n * csize
    ensures 0 <= q / csize < n && q == q / csize * csize + q % csize
  {
    QuotientAtLeast(q, csize, 0);
    if q / csize >= n {
      MulMono(csize, n, q / csize);
    }
  }

  /** Entry `idx` in a cluster chain: its cluster and its sector. */
  lemma EntryPlace(g: Layout, ch: seq<nat>, j: nat, idx: nat)
    requires GoodChain(g, ch) && j < |ch| && 0 < g.csize && idx < PER_SECTOR * g.csize
    ensures 0 <= j * g.csize
    ensures var k := PER_SECTOR * (j * g.csize) + idx;
      k < PER_SECTOR * |Sectors(g, ch)| && k / PER_SECTOR == j * g.csize + idx / PER_SECTOR &&
      k / PER_SECTOR / g.csize == j &&
      k / PER_SECTOR < |Sectors(g, ch)| && Sectors(g, ch)[k / PER_SECTOR] == ClusterStart(g, ch[j]) + idx / PER_SECTOR
  {
    hide Sectors, GoodChain, ClusterStart;
    MulMono(g.csize, 0, j);
    var k := PER_SECTOR * (j * g.csize) + idx;
    Remainder(k, PER_SECTOR, j * g.csize + idx / PER_SECTOR, idx % PER_SECTOR);
    SectorIndex(g, ch, j, idx / PER_SECTOR);
    Remainder(j * g.csize + idx / PER_SECTOR, g.csize, j, idx / PER_SECTOR);
  }

  class Dir {
    const vol: Volume
    const sclust: dword      // start cluster of the table, 0 for the root directory
    var index: nat           // entry the cursor is on
    var clust: dword         // its cluster, 0 in the static table
    var sect: nat            // its sector
    ghost var chain: seq<nat>

    /** A directory object for the table that starts in cluster `start`. */
    constructor (v: Volume, start: dword, ghost ch: seq<nat>)
      requires v.Valid()
      requires var first := if start == 0 && v.geo.fsType == Fat32 then v.geo.dirbase else start;
        if ch == [] then first == 0 && RootAreaOk(v.geo) else first >= 2 && FileChain(v.geo, v.Fat(), |v.disk|, first, ch)
      ensures vol == v && sclust == start && chain == ch && Valid()
    {
      vol, sclust, index, clust, sect, chain := v, start, 0, 0, 0, ch;
    }

    /** The first cluster of the table; the root directory of a FAT32 volume has one, too. */
    function Start(): nat {
      if sclust == 0 && vol.geo.fsType == Fat32 then vol.geo.dirbase else sclust
    }

    ghost predicate Valid()
      reads `chain, vol`disk, vol`wflag, vol`winsect, vol.win
    {
      vol.Valid() &&
      if chain == [] then Start() == 0 && RootAreaOk(vol.geo)
      else Start() >= 2 && FileChain(vol.geo, vol.Fat(), |vol.disk|, Start(), chain)
    }

    ghost function Secs(): seq<nat>
      requires GoodChain(vol.geo, chain)
      reads `chain
    {
      TableSectors(vol.geo, chain)
    }

    lemma SecsFacts()
      requires Valid()
      ensures vol.Valid() && GoodChain(vol.geo, chain) && NoDup(Secs())
      ensures forall k :: 0 <= k < |Secs()| ==> FatEnd(vol.geo) <= Secs()[k] < |vol.disk|
      ensures 0 < vol.geo.csize <= 128 && 2 < vol.geo.nFatent < 0x1000_0000 && 0 < FatEnd(vol.geo) <= vol.geo.database
    {
    }

    ghost function Table(): (t: D.Table)
      requires Valid()
      reads `chain, vol`disk, vol`wflag, vol`winsect, vol.win
      ensures |t| == PER_SECTOR * |Secs()|
    {
      SecsFacts();
      TableOf(vol.Logical(), Secs())
    }

    ghost function Snap(): Snapshot
      requires Valid()
      reads `chain, vol`disk, vol`wflag, vol`winsect, vol`freeClust, vol`fsiFlag, vol.win
    {
      SecsFacts();
      Snapshot(vol.Fat(), chain, Secs(), vol.Logical(), vol.freeClust, vol.fsiFlag, vol.winsect)
    }

    /** The cursor is on an entry. */
    ghost predicate Positioned()
      requires GoodChain(vol.geo, chain)
      reads `chain, `index, `clust, `sect
    {
      index < D.MAX_ENTRIES && Holds(index)
    }

    /** The cursor's sector and cluster are those of entry `i`. */
    ghost predicate Holds(i: nat)
      requires GoodChain(vol.geo, chain)
      reads `chain, `clust, `sect
    {
      && i < PER_SECTOR * |Secs()| && 0 < vol.geo.csize
      && sect == Secs()[i / PER_SECTOR]
      && if chain == [] then clust == 0 else OnCluster(ClusterNo(vol.geo, i))
    }

    ghost predicate OnCluster(j: int)
      reads `chain, `clust
    {
      0 <= j < |chain| && clust == chain[j]
    }

    /** dir_sdi: the cursor moves to entry `idx`, if the table has one. */
    method Sdi(idx: nat) returns (res: FResult)
      requires Valid() && idx < D.MAX_ENTRIES
      modifies `index, `clust, `sect, vol`disk, vol`wflag, vol`winsect, vol.win
      ensures Valid() && vol.Valid() && Table() == old(Table()) && Looks(vol.geo, old(Snap()), Snap())
      ensures GoodChain(vol.geo, chain)
      ensures res == if idx < |Table()| then Ok else IntErr
      ensures res == Ok ==> Positioned() && index == idx
    {
      hide FileChain, Sectors, NoDup, Volume.Valid, Volume.Logical, Volume.Fat, TableOf, GoodChain;
      SecsFacts();
      StartFacts();
      index := idx;
      var clst: dword := sclust;
      if clst == 0 && vol.geo.fsType == Fat32 {
        clst := StartCluster();
      }
      if clst == 0 {
        clust := clst;
        if idx >= vol.geo.nRootdir {
          return IntErr;
        }
        sect := vol.geo.dirbase + idx / PER_SECTOR;
        res := Ok;
      } else {
        res := SdiChain(clst, idx);
      }
    }

    lemma StartFacts()
      requires Valid()
      ensures if chain == [] then Start() == 0 && RootAreaOk(vol.geo) else Start() == chain[0] >= 2
    {
    }

    method StartCluster() returns (c: dword)
      requires Valid() && sclust == 0 && vol.geo.fsType == Fat32
      ensures c == Start()
    {
      SecsFacts();
      c := vol.geo.dirbase;
    }

    /** dir_sdi, dynamic table: follows the cluster chain. */
    method SdiChain(clst0: dword, idx0: nat) returns (res: FResult)
      requires Valid() && chain != [] && clst0 == chain[0] && idx0 < D.MAX_ENTRIES && index == idx0
      modifies `clust, `sect, vol`disk, vol`wflag, vol`winsect, vol.win
      ensures Valid() && vol.Valid() && Table() == old(Table()) && Looks(vol.geo, old(Snap()), Snap())
      ensures GoodChain(vol.geo, chain)
      ensures res == if idx0 < |Table()| then Ok else IntErr
      ensures res == Ok ==> Positioned()
    {
      hide FileChain, Sectors, NoDup, Volume.Valid, Volume.Logical, Volume.Fat, TableOf, GoodChain, FatAreaOk;
      hide DataAreaOk, Clust2Sect, ClusterStart;
      SecsFacts();
      var ic := PER_SECTOR * vol.geo.csize;
      var clst, idx: nat := clst0, idx0;
      ghost var j := 0;
      while idx >= ic
        invariant Valid() && vol.Valid() && Table() == old(Table()) && Looks(vol.geo, old(Snap()), Snap())
        invariant 0 <= j < |chain| && clst == chain[j] && idx0 == PER_SECTOR * (j * vol.geo.csize) + idx
        decreases idx
      {
        clst := FollowLink(clst, j);
        EntriesUpTo(j);
        if clst < 2 || clst >= vol.geo.nFatent {
          return IntErr;
        }
        idx := idx - ic;
        j := j + 1;
      }
      clust := clst;
      EntryPlace(vol.geo, chain, j, idx);
      ClusterSector(j);
      sect := Clust2Sect(vol.geo, clst) + idx / PER_SECTOR;
      res := Ok;
    }

    /** get_fat on a cluster of the table. */
    method FollowLink(clst: dword, ghost j: nat) returns (r: dword)
      requires Valid() && j < |chain| && clst == chain[j]
      modifies vol`disk, vol`wflag, vol`winsect, vol.win
      ensures Valid() && vol.Valid() && Table() == old(Table()) && Looks(vol.geo, old(Snap()), Snap())
      ensures if j + 1 < |chain| then 2 <= r == chain[j + 1] < vol.geo.nFatent else r >= vol.geo.nFatent
    {
      hide Sectors, NoDup, Volume.Fat, Volume.Logical, FatAreaOk, DataAreaOk, GoodChain, TableOf;
      SecsFacts();
      LinkFacts(j);
      r := vol.GetFat(clst);
    }

    lemma LinkFacts(j: nat)
      requires Valid() && j < |chain|
      ensures vol.Valid() && 2 <= chain[j] < vol.geo.nFatent
      ensures if j + 1 < |chain| then vol.Fat()[chain[j]] == chain[j + 1] && 2 <= chain[j + 1] < vol.geo.nFatent
        else vol.Fat()[chain[j]] >= vol.geo.nFatent
    {
      ChainLink(vol.Fat(), chain, j);
    }

    lemma EntriesUpTo(j: nat)
      requires Valid() && j < |chain|
      ensures GoodChain(vol.geo, chain)
      ensures PER_SECTOR * ((j + 1) * vol.geo.csize) == PER_SECTOR * (j * vol.geo.csize) + PER_SECTOR * vol.geo.csize
      ensures j + 1 == |chain| ==> PER_SECTOR * |Secs()| == PER_SECTOR * ((j + 1) * vol.geo.csize)
    {
      Distribute(vol.geo.csize, j, 1);
    }

    lemma ClusterSector(j: nat)
      requires Valid() && j < |chain|
      ensures 2 <= chain[j] < vol.geo.nFatent < 0x1000_0000
      ensures Clust2Sect(vol.geo, chain[j]) == ClusterStart(vol.geo, chain[j])
    {
      Clust2SectStart(vol.geo, |vol.disk|, chain[j]);
    }

    /** dir_next: the cursor moves to the next entry. At the end of the table a chain is stretched by a cluster of empty
        entries, if that is wanted and the disk is not full. */
    method Next(stretch: bool) returns (res: FResult)
      requires Valid() && GoodChain(vol.geo, chain) && Positioned()
      modifies `index, `clust, `sect, `chain, vol`disk, vol`wflag, vol`winsect, vol`lastClust, vol`freeClust
      modifies vol`fsiFlag, vol.win
      ensures Valid() && vol.Valid() && GoodChain(vol.geo, chain) && Extends(old(Table()), Table())
      ensures Evolves(vol.geo, old(Snap()), Snap())
      ensures res in {Ok, NoFile, Denied, IntErr}
      ensures res == Ok ==> Positioned() && index == old(index) + 1
      ensures res == Ok && !stretch ==> Table() == old(Table()) && Looks(vol.geo, old(Snap()), Snap())
      ensures res == NoFile ==> Table() == old(Table()) && Looks(vol.geo, old(Snap()), Snap())
      ensures res == NoFile ==> old(index) + 1 == D.MAX_ENTRIES || !stretch || chain == []
      ensures res != Ok ==> |Table()| == old(|Table()|)
      ensures res != Ok ==> old(index) + 1 == |Table()| || (res == NoFile && old(index) + 1 == D.MAX_ENTRIES)
      ensures res == Denied ==> stretch && NoneFree(vol.Fat())
      ensures res == IntErr ==> stretch && HasReserved(vol.Fat())
    {
      hide Sectors, NoDup, Volume.Valid, Volume.Logical, Volume.Fat, TableOf, GoodChain, FatAreaOk, DataAreaOk;
      hide FileChain, Evolves, Looks, NoneFree, HasReserved, Extends, Table, Snap, Holds;
      SecsFacts();
      EvolvesNot(vol.geo, Snap());
      ExtendsNot();
      OnEntry();
      CursorWraps(index);
      var i := (index + 1) % D.MAX_ENTRIES;
      if i == 0 || sect == 0 {
        return NoFile;
      }
      res := Ok;
      if i % PER_SECTOR == 0 {
        res := NextSector(stretch, i);
        if res != Ok {
          return;
        }
      } else {
        SameSector(i);
      }
      index := i;
    }

    lemma SameSector(i: nat)
      requires Valid() && GoodChain(vol.geo, chain) && Holds(index) && i == index + 1 && i % PER_SECTOR != 0
      ensures Holds(i)
    {
      hide Sectors, NoDup, Volume.Valid, Volume.Logical, Volume.Fat, GoodChain, FileChain;
      StartFacts();
      if chain != [] {
        NextPlace(vol.geo, chain, index);
      } else {
        NextInRoot(vol.geo, index);
      }
    }

    /** dir_next, behind the last entry of a sector. */
    method NextSector(stretch: bool, i: nat) returns (res: FResult)
      requires Valid() && GoodChain(vol.geo, chain) && Holds(index) && i == index + 1 && i % PER_SECTOR == 0
      modifies `clust, `sect, `chain, vol`disk, vol`wflag, vol`winsect, vol`lastClust, vol`freeClust, vol`fsiFlag
      modifies vol.win
      ensures Valid() && vol.Valid() && GoodChain(vol.geo, chain) && Extends(old(Table()), Table())
      ensures Evolves(vol.geo, old(Snap()), Snap())
      ensures res in {Ok, NoFile, Denied, IntErr}
      ensures res == Ok ==> Holds(i)
      ensures res == Ok && !stretch ==> Table() == old(Table()) && Looks(vol.geo, old(Snap()), Snap())
      ensures res != Ok ==> i == |Table()| == old(|Table()|)
      ensures res == NoFile ==>
        Table() == old(Table()) && Looks(vol.geo, old(Snap()), Snap()) && (!stretch || chain == [])
      ensures res == Denied ==> stretch && NoneFree(vol.Fat())
      ensures res == IntErr ==> stretch && HasReserved(vol.Fat())
    {
      hide Sectors, NoDup, Volume.Valid, Volume.Logical, Volume.Fat, TableOf, GoodChain, FatAreaOk, DataAreaOk;
      hide FileChain, Evolves, Looks, NoneFree, HasReserved, Extends, Table, Snap, Clust2Sect, ClusterStart, RootAreaOk;
      hide ClusterNo, OpensCluster;
      SecsFacts();
      StartFacts();
      EvolvesNot(vol.geo, Snap());
      ExtendsNot();
      if chain != [] {
        NextPlace(vol.geo, chain, index);
        LinkFacts(ClusterNo(vol.geo, index));
        ChainTable();
      } else {
        NextInRoot(vol.geo, index);
      }
      sect := sect + 1;
      res := Ok;
      if clust == 0 {
        if i >= vol.geo.nRootdir {
          return NoFile;
        }
      } else if OpensCluster(vol.geo, i) {
        res := NextOnCluster(stretch, ClusterNo(vol.geo, index));
      }
    }

    lemma ChainTable()
      requires Valid() && chain != []
      ensures GoodChain(vol.geo, chain) && Secs() == Sectors(vol.geo, chain)
    {
    }

    lemma ExtendsNot()
      requires Valid()
      ensures Extends(Table(), Table())
    {
    }

    /** dir_next, on a cluster boundary. */
    method NextOnCluster(stretch: bool, ghost j: nat) returns (res: FResult)
      requires Valid() && j < |chain| && clust == chain[j]
      modifies `clust, `sect, `chain, vol`disk, vol`wflag, vol`winsect, vol`lastClust, vol`freeClust, vol`fsiFlag
      modifies vol.win
      ensures Valid() && vol.Valid() && GoodChain(vol.geo, chain) && Extends(old(Table()), Table())
      ensures Evolves(vol.geo, old(Snap()), Snap())
      ensures res in {Ok, NoFile, Denied, IntErr} && 0 < vol.geo.csize
      ensures if res == Ok then j + 1 < |chain| && clust == chain[j + 1] && chain != []
        else j + 1 == |chain| && chain == old(chain)
      ensures res == Ok ==> 0 <= (j + 1) * vol.geo.csize < |Secs()| && sect == Secs()[(j + 1) * vol.geo.csize]
      ensures res == Ok && !stretch ==> Table() == old(Table()) && Looks(vol.geo, old(Snap()), Snap())
      ensures res == NoFile ==> Table() == old(Table()) && Looks(vol.geo, old(Snap()), Snap()) && !stretch
      ensures res == Denied ==> stretch && NoneFree(vol.Fat())
      ensures res == IntErr ==> stretch && HasReserved(vol.Fat())
    {
      hide Sectors, NoDup, Volume.Valid, Volume.Logical, Volume.Fat, TableOf, GoodChain, FatAreaOk, DataAreaOk;
      hide FileChain, Evolves, Looks, NoneFree, HasReserved, Extends, Table, Snap, Clust2Sect, ClusterStart;
      SecsFacts();
      var clst;
      res, clst := NextCluster(stretch, j);
      SecsFacts();
      if res == Ok {
        ClusterSector(j + 1);
        SectorIndex(vol.geo, chain, j + 1, 0);
        clust := clst;
        sect := Clust2Sect(vol.geo, clst);
      }
    }

    /** dir_next on the last entry of a cluster: the cluster behind it. */
    method NextCluster(stretch: bool, ghost j: nat) returns (res: FResult, clst: dword)
      requires Valid() && j < |chain| && clust == chain[j]
      modifies `chain, vol`disk, vol`wflag, vol`winsect, vol`lastClust, vol`freeClust, vol`fsiFlag, vol.win
      ensures Valid() && vol.Valid() && GoodChain(vol.geo, chain) && Extends(old(Table()), Table())
      ensures Evolves(vol.geo, old(Snap()), Snap())
      ensures res in {Ok, NoFile, Denied, IntErr}
      ensures if res == Ok then j + 1 < |chain| && clst == chain[j + 1] else j + 1 == |chain| && chain == old(chain)
      ensures res == Ok && !stretch ==> Table() == old(Table()) && Looks(vol.geo, old(Snap()), Snap())
      ensures res == NoFile ==> Table() == old(Table()) && Looks(vol.geo, old(Snap()), Snap()) && !stretch
      ensures res == Denied ==> stretch && NoneFree(vol.Fat())
      ensures res == IntErr ==> stretch && HasReserved(vol.Fat())
    {
      hide Sectors, NoDup, Volume.Valid, Volume.Logical, Volume.Fat, TableOf, GoodChain, FatAreaOk, DataAreaOk;
      hide FileChain, Evolves, Looks, NoneFree, HasReserved, Extends;
      SecsFacts();
      EvolvesNot(vol.geo, Snap());
      ExtendsNot();
      ghost var a := Snap();
      clst := FollowLink(clust, j);
      LooksEvolves(vol.geo, a, Snap());
      SecsFacts();
      res := Ok;
      if clst >= vol.geo.nFatent {
        if !stretch {
          return NoFile, clst;
        }
        ghost var b := Snap();
        res, clst := Stretch();
        EvolvesOn(a, b);
      }
    }

    /** dir_next at the end of a chain: one more cluster, filled with empty entries. */
    method Stretch() returns (res: FResult, clst: dword)
      requires Valid() && chain != [] && clust == chain[|chain| - 1]
      modifies `chain, vol`disk, vol`wflag, vol`winsect, vol`lastClust, vol`freeClust, vol`fsiFlag, vol.win
      ensures Valid() && vol.Valid() && GoodChain(vol.geo, chain) && Extends(old(Table()), Table())
      ensures Evolves(vol.geo, old(Snap()), Snap())
      ensures res in {Ok, Denied, IntErr}
      ensures chain == if res == Ok then old(chain) + [clst] else old(chain)
      ensures res == Denied ==> NoneFree(vol.Fat())
      ensures res == IntErr ==> HasReserved(vol.Fat())
    {
      hide Sectors, NoDup, Volume.Valid, Volume.Logical, Volume.Fat, TableOf, GoodChain, FatAreaOk, DataAreaOk;
      hide FileChain, Evolves, Looks, NoneFree, HasReserved, Extends;
      SecsFacts();
      LinkFacts(|chain| - 1);
      EvolvesNot(vol.geo, Snap());
      ExtendsNot();
      ghost var a := Snap();
      ghost var isNew;
      clst, isNew := vol.NextOrNew(clust);
      if clst < 2 {
        GrewNone(vol.Fat(), chain);
        CombineStretch(a);
      }
      if clst == 0 {
        return Denied, clst;
      }
      if clst == 1 {
        return IntErr, clst;
      }
      res := Ok;
      StretchedFile(vol.geo, a.fat, |vol.disk|, Start(), a.ch, clst);
      GrewByOne(a.fat, a.ch, clust, clst, EndMark(vol.geo.fsType));
      chain := chain + [clst];
      vol.ClearCluster(clst);
      TableStretched(a, clst);
    }

    /** The table behind a chain that was stretched by an empty cluster. */
    lemma TableStretched(a: Snapshot, r: nat)
      requires Valid() && vol.Valid() && GoodChain(vol.geo, chain) && GoodChain(vol.geo, a.ch) && a.ch != []
      requires chain == a.ch + [r] && 2 <= r
      requires |a.view| == |vol.disk| && a.secs == Sectors(vol.geo, a.ch)
      requires Sectors(vol.geo, chain) == Sectors(vol.geo, a.ch) + ClusterSectors(vol.geo, r)
      requires Grew(a.fat, a.ch, vol.Fat(), chain) && (CountOk(a.fat, a.count) ==> CountOk(vol.Fat(), vol.freeClust))
      requires Noted(a.count, a.flag, vol.freeClust, vol.fsiFlag)
      requires var start := vol.geo.database + (r - 2) * vol.geo.csize;
        forall s :: 0 <= s < |a.view| && !InAnyFat(vol.geo, s) ==>
          vol.Logical()[s] == if start <= s < start + vol.geo.csize then Zeros() else a.view[s]
      requires vol.winsect == vol.geo.database + (r - 2) * vol.geo.csize
      ensures forall k :: 0 <= k < |a.secs| ==> a.secs[k] < |a.view|
      ensures Extends(TableOf(a.view, a.secs), Table()) && Evolves(vol.geo, a, Snap())
    {
      hide Volume.Valid, Volume.Fat, Volume.Logical, TableOf, Evolves, Looks, Extends, Sectors, GoodChain;
      SecsFacts();
      StretchedTable(vol.geo, a.view, vol.Logical(), a.ch, r);
      InMore(vol.geo, r, vol.winsect);
      CombineStretch(a);
    }

    lemma CombineStretch(a: Snapshot)
      requires Valid() && Grew(a.fat, a.ch, vol.Fat(), chain)
      requires (CountOk(a.fat, a.count) ==> CountOk(vol.Fat(), vol.freeClust))
      requires Noted(a.count, a.flag, vol.freeClust, vol.fsiFlag)
      requires GoodChain(vol.geo, chain) && a.secs <= Secs() && |a.view| == |vol.Logical()|
      requires forall s :: 0 <= s < |a.view| && !InAnyFat(vol.geo, s) && s !in Secs() ==> vol.Logical()[s] == a.view[s]
      requires InFat1(vol.geo, vol.winsect) || vol.winsect == a.win || vol.winsect in Secs()
      ensures Evolves(vol.geo, a, Snap())
    {
      hide Valid, Volume.Valid, Volume.Logical, Volume.Fat, Grew, GoodChain, Secs, InFat1, InAnyFat;
    }

    // -------------------------------------------------------------- entries

    lemma OnEntry()
      requires Valid() && GoodChain(vol.geo, chain) && Positioned()
      ensures vol.Valid() && index < |Table()| && FatEnd(vol.geo) <= sect < |vol.disk| && sect != 0 && sect in Secs()
      ensures Table()[index] == EntryOf(vol.Logical()[sect], index % PER_SECTOR)
    {
      SecsFacts();
    }

    /** The window shows the sector it is on. */
    lemma WindowShows()
      requires vol.Valid() && vol.winsect == sect && FatEnd(vol.geo) <= sect
      ensures vol.win[..] == vol.Logical()[sect]
    {
    }

    /** The entry under the cursor, with its sector in the window. */
    method ReadEntry() returns (e: DirEntry)
      requires Valid() && GoodChain(vol.geo, chain) && Positioned()
      modifies vol`disk, vol`wflag, vol`winsect, vol.win
      ensures Valid() && vol.Valid() && Table() == old(Table()) && Looks(vol.geo, old(Snap()), Snap())
      ensures vol.winsect == sect && index < |Table()| && e == Table()[index]
    {
      hide Sectors, NoDup, Volume.Logical, TableOf, GoodChain, FatAreaOk, DataAreaOk, FileChain, FatOf, Positioned;
      OnEntry();
      vol.MoveWindow(sect);
      e := EntryOf(vol.win[..], index % PER_SECTOR);
      OnEntry();
    }

    /** Changes the entry under the cursor, whose sector is in the window. */
    method StoreEntry(e: DirEntry)
      requires Valid() && GoodChain(vol.geo, chain) && Positioned() && vol.winsect == sect
      modifies vol`wflag, vol.win
      ensures Valid() && vol.Valid() && index < |Table()| && Table() == old(Table())[index := e]
      ensures Evolves(vol.geo, old(Snap()), Snap())
    {
      hide Sectors, NoDup, Volume.Valid, Volume.Fat, Volume.Logical, TableOf, GoodChain, FatAreaOk, DataAreaOk;
      hide FileChain, Splice, CountOk, Grew;
      OnEntry();
      SecsFacts();
      WindowShows();
      GrewNone(vol.Fat(), chain);
      StoreOne(vol.Logical(), Secs(), index, e);
      vol.StoreWindow(Splice(vol.win[..], SZ_DIR * (index % PER_SECTOR), e));
    }

    /** A table is never empty. */
    lemma SomeEntries()
      requires Valid()
      ensures 0 < |Table()|
    {
      SecsFacts();
      if chain != [] {
        EntryPlace(vol.geo, chain, 0, 0);
      }
    }

    /** dir_find: the cursor stops at the first entry of the name, if the table has one. */
    method Find(fn: seq<byte>, loss: bool, lfn: array?<word>, up: word -> word) returns (res: FResult)
      requires Valid() && |fn| == SFN && (lfn != null ==> lfn.Length == MAX_LFN + 1) && IsUpper(up)
      modifies `index, `clust, `sect, `chain, vol`disk, vol`wflag, vol`winsect, vol`lastClust, vol`freeClust
      modifies vol`fsiFlag, vol.win
      ensures Valid() && vol.Valid() && Table() == old(Table()) && Looks(vol.geo, old(Snap()), Snap())
      ensures GoodChain(vol.geo, chain)
      ensures var found := D.Find(Table(), Sought(fn, loss, lfn), up);
        if found.Some? then res == Ok && Positioned() && index == found.value && vol.winsect == sect else res == NoFile
      ensures if res == Ok then D.FirstOfName(Table(), index, Sought(fn, loss, lfn), up)
        else forall k: nat :: !D.FirstOfName(Table(), k, Sought(fn, loss, lfn), up)
    {
      hide Sectors, NoDup, Valid, Volume.Valid, Volume.Fat, Volume.Logical, TableOf, GoodChain, FatAreaOk, DataAreaOk;
      hide FileChain, IsUpper, Matches, Positioned, D.FindFrom, D.FirstOfName, Table, Snap, Looks;
      ghost var t, snap, key := Table(), Snap(), Sought(fn, loss, lfn);
      EvolvesNot(vol.geo, snap);
      SomeEntries();
      res := Sdi(0);
      var found, ord: byte, sum: byte := false, D.NONE, D.NONE;
      while res == Ok && !found
        invariant Valid() && vol.Valid() && GoodChain(vol.geo, chain) && Table() == t && Looks(vol.geo, snap, Snap())
        invariant Sought(fn, loss, lfn) == key
        invariant res == Ok || res == NoFile
        invariant res == Ok ==> Positioned() && index < |t| && FindGoesOn(t, key, up, index, found, ord, sum)
        invariant res == Ok && found ==> vol.winsect == sect
        invariant res == NoFile ==> D.Find(t, key, up) == None
        decreases if res == Ok then |t| - index else 0, !found
      {
        ghost var b := Snap();
        res, found, ord, sum := FindEntry(fn, loss, lfn, up, ord, sum);
        LooksTwice(vol.geo, snap, b, Snap());
      }
      D.Decided(t, key, up);
    }

    /** dir_find, loop body: the entry under the cursor is the one, ends the table, or the cursor moves on. */
    method FindEntry(fn: seq<byte>, loss: bool, lfn: array?<word>, up: word -> word, ord0: byte, sum0: byte)
      returns (res: FResult, found: bool, ord: byte, sum: byte)
      requires Valid() && GoodChain(vol.geo, chain) && Positioned() && |fn| == SFN
      requires (lfn != null ==> lfn.Length == MAX_LFN + 1) && IsUpper(up)
      modifies `index, `clust, `sect, `chain, vol`disk, vol`wflag, vol`winsect, vol`lastClust, vol`freeClust
      modifies vol`fsiFlag, vol.win
      ensures Valid() && vol.Valid() && GoodChain(vol.geo, chain) && Table() == old(Table())
      ensures Looks(vol.geo, old(Snap()), Snap())
      ensures res == Ok || res == NoFile
      ensures res == Ok ==> Positioned() && index < |Table()|
      ensures res == Ok ==> if found then index == old(index) && vol.winsect == sect else index > old(index)
      ensures var t, key := Table(), Sought(fn, loss, lfn);
        D.FindFrom(t, old(index), key, up, ord0, sum0) ==
          if res == NoFile then None else if found then Some(index) else D.FindFrom(t, index, key, up, ord, sum)
    {
      hide Sectors, NoDup, Volume.Valid, Volume.Fat, Volume.Logical, TableOf, GoodChain, FatAreaOk, DataAreaOk;
      hide FileChain, IsUpper, Matches, Positioned, D.Judge, Table, Snap, Looks;
      ghost var snap, key := Snap(), Sought(fn, loss, lfn);
      res, found, ord, sum := Ok, false, ord0, sum0;
      EntryNumber();
      var e := ReadEntry();
      EntryNumber();
      if e[0] == 0 {
        JudgeZero(e, key, up, ord, sum);
        return NoFile, found, ord, sum;
      }
      found, ord, sum := JudgeEntry(e, fn, loss, lfn, up, ord, sum);
      if found {
        return;
      }
      ghost var c := Snap();
      res := Next(false);
      LooksTwice(vol.geo, snap, c, Snap());
      if res == Ok {
        EntryNumber();
      }
    }

    /** Why `ne` entries are not to be had: the table has no such run of unused entries, and it cannot grow, because
        it is the static table or has as many entries as can be numbered, because the disk is full, or for a reserved
        FAT entry. */
    ghost predicate NoRoom(res: FResult, ne: nat)
      requires Valid()
      reads `chain, vol`disk, vol`wflag, vol`winsect, vol.win
    {
      SecsFacts();
      !D.HasRoom(Table(), ne) &&
      match res
      case NoFile => chain == [] || |Table()| >= D.MAX_ENTRIES
      case Denied => NoneFree(vol.Fat())
      case IntErr => HasReserved(vol.Fat())
      case _ => false
    }

    /** The table has grown from `t` by empty entries, and the volume from `a`. */
    ghost predicate GrownFrom(t: D.Table, a: Snapshot)
      reads `chain, vol`disk, vol`wflag, vol`winsect, vol`freeClust, vol`fsiFlag, vol.win
    {
      Valid() && vol.Valid() && GoodChain(vol.geo, chain) && Extends(t, Table()) && Evolves(vol.geo, a, Snap())
    }

    /** The cursor is on the last of the first `ne` unused entries in a row. */
    ghost predicate OnRun(t: D.Table, first: nat, ne: nat)
      requires Valid() && GoodChain(vol.geo, chain)
      reads `chain, `index, `clust, `sect, vol`disk, vol`wflag, vol`winsect, vol.win
    {
      && Positioned() && index == first + ne - 1 && Reserved(t, Table(), first, ne)
      && D.HasRoom(Table(), ne) && forall k :: 0 <= k < first ==> !D.FreeRun(Table(), k, ne)
    }

    /** dir_register, the search: the first `ne` unused entries in a row, with the cursor on the last of them; it fails
        exactly when the table cannot be made to have them. */
    method Reserve(ne: nat) returns (res: FResult, first: nat)
      requires Valid() && 0 < ne
      modifies `index, `clust, `sect, `chain, vol`disk, vol`wflag, vol`winsect, vol`lastClust, vol`freeClust
      modifies vol`fsiFlag, vol.win
      ensures Valid() && vol.Valid() && GoodChain(vol.geo, chain)
      ensures Extends(old(Table()), Table()) && Evolves(vol.geo, old(Snap()), Snap())
      ensures if res == Ok then OnRun(old(Table()), first, ne) else NoRoom(res, ne)
    {
      hide Valid, Volume.Valid, Volume.Fat, Volume.Logical, GoodChain, FileChain, Positioned, Table, Snap;
      hide Evolves, Looks, Extends, OnRun, NoRoom, Searched;
      ghost var t, a := Table(), Snap();
      EvolvesNot(vol.geo, a);
      ExtendsNot();
      SomeEntries();
      res := Sdi(0);
      LookedOn(a, a);
      SearchStarts(t, ne);
      var n: nat, found := 0, false;
      first := 0;
      while res == Ok && !found
        invariant GrownFrom(t, a)
        invariant res == Ok && !found ==> Positioned() && n <= index && n < ne && (n > 0 ==> first == index - n)
        invariant res == Ok && !found ==> Searched(t, Table(), index - n, index, ne)
        invariant res == Ok && found ==> OnRun(t, first, ne)
        invariant res != Ok ==> NoRoom(res, ne)
        decreases if res == Ok then D.MAX_ENTRIES - index else 0, res == Ok, !found
      {
        EntryNumber();
        res, found, first, n := ReserveEntry(t, a, first, n, ne);
      }
    }

    /** dir_register, loop body of the search: one more entry. */
    method ReserveEntry(ghost t: D.Table, ghost a: Snapshot, first0: nat, n0: nat, ne: nat)
      returns (res: FResult, found: bool, first: nat, n: nat)
      requires GrownFrom(t, a) && Positioned() && n0 <= index && n0 < ne && (n0 > 0 ==> first0 == index - n0)
      requires Searched(t, Table(), index - n0, index, ne)
      modifies `index, `clust, `sect, `chain, vol`disk, vol`wflag, vol`winsect, vol`lastClust, vol`freeClust
      modifies vol`fsiFlag, vol.win
      ensures GrownFrom(t, a)
      ensures res == Ok && !found ==> Positioned() && index == old(index) + 1
      ensures res == Ok && !found ==> n <= index && n < ne && (n > 0 ==> first == index - n)
      ensures res == Ok && !found ==> Searched(t, Table(), index - n, index, ne)
      ensures res == Ok && found ==> OnRun(t, first, ne) && index == old(index)
      ensures res != Ok ==> NoRoom(res, ne)
    {
      hide Valid, Volume.Valid, Volume.Fat, Volume.Logical, GoodChain, FileChain, Positioned, Table, Snap;
      hide Evolves, Looks, Extends, NoneFree, HasReserved, D.IsBlank, D.HasRoom, D.FreeRun, OnRun, NoRoom, Searched;
      EntryNumber();
      ghost var b0 := Snap();
      var e := ReadEntry();
      LookedOn(a, b0);
      res, found, first, n := Ok, false, first0, n0;
      if D.IsBlank(e) {
        if n == 0 {
          first := index;
        }
        n := n + 1;
        if n == ne {
          RunFound(t, first, ne);
          found := true;
          return;
        }
        BlankSeen(t, Table(), index - n0, index, ne);
      } else {
        n := 0;
        UsedSeen(t, Table(), index - n0, index, ne);
      }
      res := SearchNext(t, a, n, ne);
    }

    /** dir_register: the search moves on behind an entry, where the table may grow. */
    method SearchNext(ghost t: D.Table, ghost a: Snapshot, ghost n: nat, ghost ne: nat) returns (res: FResult)
      requires GrownFrom(t, a) && Positioned() && n <= index + 1 && Searched(t, Table(), index + 1 - n, index + 1, ne)
      modifies `index, `clust, `sect, `chain, vol`disk, vol`wflag, vol`winsect, vol`lastClust, vol`freeClust
      modifies vol`fsiFlag, vol.win
      ensures GrownFrom(t, a)
      ensures res == Ok ==> Positioned() && index == old(index) + 1 && Searched(t, Table(), index - n, index, ne)
      ensures res != Ok ==> NoRoom(res, ne)
    {
      hide Valid, Volume.Valid, Volume.Fat, Volume.Logical, GoodChain, FileChain, Positioned, Table, Snap;
      hide Evolves, Looks, Extends, NoneFree, HasReserved, NoRoom, Searched;
      ghost var b, t0, k := Snap(), Table(), index;
      res := Next(true);
      EvolvesOn(a, b);
      ExtendsTwice(t, t0, Table());
      SearchGoesOn(t, t0, Table(), k + 1 - n, k + 1, ne);
      if res != Ok {
        SearchEnds(t, res, k + 1 - n, k + 1, ne);
      }
    }

    lemma RunFound(t: D.Table, first: nat, ne: nat)
      requires Valid() && GoodChain(vol.geo, chain) && Positioned() && index == first + ne - 1 && index < |Table()|
      requires index < D.MAX_ENTRIES
      requires Searched(t, Table(), first, index, ne) && D.IsBlank(Table()[index])
      ensures OnRun(t, first, ne)
    {
      hide Valid, GoodChain, Positioned, Table;
      BlankFound(t, Table(), first, index);
      ReservedNow(t, Table(), first, index + 1, ne);
      RuledBefore(Table(), first, ne);
    }

    lemma RoomBefore(t: D.Table, res: FResult, ne: nat)
      requires Valid() && NoRoom(res, ne) && Extends(t, Table())
      ensures !D.HasRoom(t, ne) && res in {NoFile, Denied, IntErr}
    {
      hide Valid, Table, Extends, D.HasRoom, NoneFree, HasReserved;
      if D.HasRoom(t, ne) {
        RoomStays(t, Table(), ne);
      }
    }

    lemma SearchEnds(t: D.Table, res: FResult, lo: int, hi: nat, ne: nat)
      requires Valid() && vol.Valid() && Searched(t, Table(), lo, hi, ne) && (hi == |Table()| || hi == D.MAX_ENTRIES)
      requires lo <= hi
      requires
        match res
        case NoFile => chain == [] || hi == D.MAX_ENTRIES
        case Denied => NoneFree(vol.Fat())
        case IntErr => HasReserved(vol.Fat())
        case _ => false
      ensures NoRoom(res, ne)
    {
      hide Valid, Volume.Valid, Table, NoneFree, HasReserved, D.HasRoom;
      RuledOut(Table(), lo, hi, ne);
    }

    /** dir_register, the long-name entries: stored from the last part down to the first, from entry `first` on.
        Leaves the cursor on the entry behind them. */
    method StoreParts(first: nat, ne: nat, fn: seq<byte>, lfn: array<word>, ghost name: seq<word>)
      returns (res: FResult)
      requires Valid() && |fn| == SFN && 2 <= ne == Parts(name) + 1 && first + ne <= |Table()|
      requires first + ne <= D.MAX_ENTRIES
      requires lfn.Length == MAX_LFN + 1 && GoodName(name) && lfn[..|name|] == name && lfn[|name|] == 0
      modifies `index, `clust, `sect, `chain, vol`disk, vol`wflag, vol`winsect, vol`lastClust, vol`freeClust
      modifies vol`fsiFlag, vol.win
      ensures Valid() && vol.Valid() && GoodChain(vol.geo, chain) && Evolves(vol.geo, old(Snap()), Snap())
      ensures res == Ok && Positioned() && index == first + ne - 1
      ensures PartsStored(old(Table()), Table(), first, first + ne - 1, first + ne - 1, name, D.SumSfn(fn))
    {
      hide Sectors, NoDup, Valid, Volume.Valid, Volume.Fat, Volume.Logical, TableOf, GoodChain, FatAreaOk, DataAreaOk;
      hide FileChain, Positioned, Table, Snap, Evolves, Looks, Extends, PartsStored, IsPart, D.SumSfn;
      ghost var t, a := Table(), Snap();
      EvolvesNot(vol.geo, a);
      NoPartsStored(t, first, first + ne - 1, name, D.SumSfn(fn));
      res := Sdi(first);
      LookedOn(a, a);
      var sum := D.SumShortName(fn);
      var k := ne - 1;
      while k > 0
        invariant Valid() && vol.Valid() && GoodChain(vol.geo, chain) && Evolves(vol.geo, a, Snap()) && |Table()| == |t|
        invariant res == Ok && k <= ne - 1 && Positioned() && index == first + ne - 1 - k
        invariant PartsStored(t, Table(), first, index, first + ne - 1, name, sum)
        decreases k
      {
        res := StorePart(t, a, first, k, ne, sum, lfn, name);
        k := k - 1;
      }
    }

    /** dir_register, loop body of the storing: part `k` into the entry under the cursor, which then moves on. */
    method StorePart(ghost t: D.Table, ghost a: Snapshot, ghost first: nat, k: nat, ghost ne: nat, sum: byte,
                     lfn: array<word>, ghost name: seq<word>)
      returns (res: FResult)
      requires Valid() && vol.Valid() && GoodChain(vol.geo, chain) && Evolves(vol.geo, a, Snap()) && |Table()| == |t|
      requires 2 <= ne == Parts(name) + 1 && first + ne <= |t| && first + ne <= D.MAX_ENTRIES && 1 <= k <= ne - 1
      requires Positioned() && index == first + ne - 1 - k
      requires lfn.Length == MAX_LFN + 1 && GoodName(name) && lfn[..|name|] == name && lfn[|name|] == 0
      requires PartsStored(t, Table(), first, index, first + ne - 1, name, sum)
      modifies `index, `clust, `sect, `chain, vol`disk, vol`wflag, vol`winsect, vol`lastClust, vol`freeClust
      modifies vol`fsiFlag, vol.win
      ensures Valid() && vol.Valid() && GoodChain(vol.geo, chain) && Evolves(vol.geo, a, Snap()) && |Table()| == |t|
      ensures res == Ok && Positioned() && index == old(index) + 1
      ensures PartsStored(t, Table(), first, index, first + ne - 1, name, sum)
    {
      hide Sectors, NoDup, Valid, Volume.Valid, Volume.Fat, Volume.Logical, TableOf, GoodChain, FatAreaOk, DataAreaOk;
      hide FileChain, Positioned, Table, Snap, Evolves, Looks, Extends, PartsStored, IsPart;
      ghost var b, t0 := Snap(), Table();
      var e := ReadEntry();
      LookedOn(a, b);
      ghost var c := Snap();
      var part := FitLfn(lfn, e, k, sum, name);
      StoreEntry(part);
      EvolvesOn(a, c);
      OnePartStored(t, t0, first, index, first + ne - 1, name, sum, part);
      ghost var d := Snap();
      res := Next(false);
      EvolvesOn(a, d);
      if res == NoFile {
        EntryNumber();
      }
    }

    /** dir_register, from the reservation on: registers a name under the short name `fn`, with its long-name entries if
        `long` is set. */
    method Register(fn: seq<byte>, nt: byte, long: bool, lfn: array<word>, ghost name: seq<word>)
      returns (res: FResult, ghost first: nat, ghost ne: nat)
      requires Valid() && |fn| == SFN && lfn.Length == MAX_LFN + 1
      requires long ==> GoodName(name) && lfn[..|name|] == name && lfn[|name|] == 0
      modifies `index, `clust, `sect, `chain, vol`disk, vol`wflag, vol`winsect, vol`lastClust, vol`freeClust
      modifies vol`fsiFlag, vol.win
      ensures Valid() && vol.Valid() && GoodChain(vol.geo, chain) && Evolves(vol.geo, old(Snap()), Snap())
      ensures ne == Entries(long, name) && res in {Ok, NoFile, Denied, IntErr}
      ensures res == Ok ==>
        D.Registered(old(Table()), Table(), first, ne, name, fn, nt) && Positioned() && index == first + ne - 1
      ensures res == Ok ==> vol.winsect == sect
      ensures res != Ok ==> Extends(old(Table()), Table()) && NoRoom(res, ne) && !D.HasRoom(old(Table()), ne)
    {
      hide Sectors, NoDup, Valid, Volume.Valid, Volume.Fat, Volume.Logical, TableOf, GoodChain, FatAreaOk, DataAreaOk;
      hide FileChain, Positioned, Table, Snap, Evolves, Looks, Extends, PartsStored, IsPart, D.SumSfn, D.HasRoom;
      hide D.FreeRun, Reserved, NoRoom, D.Registered;
      ghost var t, a := Table(), Snap();
      EvolvesNot(vol.geo, a);
      var count := 1;
      if long {
        count := CountEntries(lfn, name);
      }
      ne := count;
      var at;
      res, at := Reserve(count);
      first := at;
      if res != Ok {
        RoomBefore(t, res, ne);
        return;
      }
      ghost var t1 := Table();
      ReservedFits(t, t1, first, ne);
      if count > 1 {
        ghost var b := Snap();
        res := StoreParts(at, count, fn, lfn, name);
        EvolvesOn(a, b);
      }
      ghost var t2, c := Table(), Snap();
      var e := ReadEntry();
      LookedOn(a, c);
      ghost var c1 := Snap();
      StoreEntry(D.ShortEntry(fn, nt));
      EvolvesOn(a, c1);
      RegisteredNow(t, t1, t2, first, ne, name, fn, nt);
    }

    /** dir_register, a name outside the 8.3 form: the first numbered short name that no object of the table has. */
    method PickNumber(sn: seq<byte>, lfn: array<word>, up: word -> word, ghost name: seq<word>)
      returns (res: FResult, fn: seq<byte>, ghost number: word)
      requires Valid() && |sn| == SFN && N.InBuffer(lfn, name) && IsUpper(up)
      modifies `index, `clust, `sect, `chain, vol`disk, vol`wflag, vol`winsect, vol`lastClust, vol`freeClust
      modifies vol`fsiFlag, vol.win
      ensures Valid() && vol.Valid() && Table() == old(Table()) && Looks(vol.geo, old(Snap()), Snap())
      ensures GoodChain(vol.geo, chain)
      ensures res == if D.AllTaken(Table(), sn, name) then Denied else NoFile
      ensures res == NoFile ==> 1 <= number <= D.LAST_NUMBER && |fn| == SFN && fn == N.Numbered(sn, name, number)
      ensures res == NoFile ==> !D.HasShort(Table(), fn) && D.TakenBelow(Table(), sn, name, number)
    {
      hide Sectors, NoDup, Volume.Valid, Volume.Fat, Volume.Logical, TableOf, GoodChain, FatAreaOk, DataAreaOk;
      hide FileChain, IsUpper, Positioned, Table, Snap, Looks, N.Numbered, N.InBuffer, D.HasShort, D.ZeroTerminated;
      ghost var t, snap := Table(), Snap();
      EvolvesNot(vol.geo, snap);
      var dst := new byte[SFN];
      var n: word := 1;
      SecsFacts();
      while n < D.LAST_NUMBER + 1
        invariant 1 <= n <= D.LAST_NUMBER + 1 && D.TakenBelow(t, sn, name, n)
        invariant Valid() && vol.Valid() && GoodChain(vol.geo, chain) && Table() == t && Looks(vol.geo, snap, Snap())
        invariant N.InBuffer(lfn, name)
        decreases D.LAST_NUMBER + 1 - n
      {
        N.GenNumName(dst, sn, lfn, n, name);
        fn := dst[..];
        D.ShortSearchDecides(t, fn, up);
        ghost var b := Snap();
        res := Find(fn, false, null, up);
        LooksTwice(vol.geo, snap, b, Snap());
        if res != Ok {
          return res, fn, n;
        }
        n := n + 1;
      }
      return Denied, sn, n;
    }

    /** dir_register: registers the name that a search did not find; outside the 8.3 form under a numbered short
        name. */
    method RegisterName(sn: seq<byte>, nt: byte, loss: bool, long: bool, lfn: array<word>,
                        up: word -> word, ghost name: seq<word>)
      returns (res: FResult, fn: seq<byte>, ghost first: nat, ghost ne: nat)
      requires Valid() && |sn| == SFN && lfn.Length == MAX_LFN + 1 && IsUpper(up)
      requires long ==> GoodName(name) && lfn[..|name|] == name && lfn[|name|] == 0
      requires loss ==> long
      modifies `index, `clust, `sect, `chain, vol`disk, vol`wflag, vol`winsect, vol`lastClust, vol`freeClust
      modifies vol`fsiFlag, vol.win
      ensures Valid() && vol.Valid() && GoodChain(vol.geo, chain) && Evolves(vol.geo, old(Snap()), Snap())
      ensures ne == Entries(long, name) && res in {Ok, NoFile, Denied, IntErr}
      ensures |fn| == SFN && if loss then res == Ok ==> D.FirstNumbered(old(Table()), sn, name, fn) else fn == sn
      ensures res == Ok ==>
        D.Registered(old(Table()), Table(), first, ne, name, fn, nt) && Positioned() && index == first + ne - 1
      ensures res == Ok ==> vol.winsect == sect
      ensures res != Ok ==> Extends(old(Table()), Table())
      ensures loss && D.AllTaken(old(Table()), sn, name) ==> res == Denied && Table() == old(Table())
      ensures res != Ok && !(loss && D.AllTaken(old(Table()), sn, name)) ==>
        NoRoom(res, ne) && !D.HasRoom(old(Table()), ne)
    {
      hide Sectors, NoDup, Valid, Volume.Valid, Volume.Fat, Volume.Logical, TableOf, GoodChain, FatAreaOk, DataAreaOk;
      hide FileChain, Positioned, Table, Snap, Evolves, Looks, Extends, D.HasRoom, NoRoom, D.Registered, IsUpper;
      hide N.Numbered, D.HasShort, D.ZeroTerminated, D.AllTaken;
      EvolvesNow();
      ExtendsNot();
      fn, first, ne := sn, 0, if long then Parts(name) + 1 else 1;
      ghost var a := Snap();
      if loss {
        ghost var n;
        res, fn, n := PickNumber(sn, lfn, up, name);
        LookedOn(a, a);
        if res != NoFile {
          fn := sn;
          return;
        }
      }
      ghost var b := Snap();
      res, first, ne := Register(fn, nt, long, lfn, name);
      EvolvesOn(a, b);
    }

    /** A reserved entry found after the table has grown was there before. */
    lemma ReservedBefore(a: Snapshot)
      requires Valid() && Evolves(vol.geo, a, Snap()) && (a.ch == [] || IsChain(a.fat, a.ch))
      ensures HasReserved(vol.Fat()) ==> HasReserved(a.fat)
    {
      hide Sectors, NoDup, IsChain, GoodChain, Volume.Valid, Volume.Fat, Volume.Logical, CountOk, Grew, InFat1;
      hide HasReserved;
      GrewReserved(a.fat, a.ch, vol.Fat(), chain);
    }

    lemma ChainIsThere()
      requires Valid()
      ensures chain == [] || IsChain(vol.Fat(), chain)
    {
      hide Sectors, NoDup, IsChain, GoodChain, Volume.Valid, Volume.Fat, Volume.Logical;
    }

    lemma EvolvesNow()
      requires Valid()
      ensures Evolves(vol.geo, Snap(), Snap())
    {
      EvolvesNot(vol.geo, Snap());
    }

    lemma LookedOn(a: Snapshot, b: Snapshot)
      requires Valid() && Evolves(vol.geo, a, b) && Looks(vol.geo, b, Snap())
      ensures Evolves(vol.geo, a, Snap())
    {
      LooksEvolves(vol.geo, b, Snap());
      EvolvesOn(a, b);
    }

    lemma EvolvesOn(a: Snapshot, b: Snapshot)
      requires Valid() && Evolves(vol.geo, a, b) && Evolves(vol.geo, b, Snap())
      ensures Evolves(vol.geo, a, Snap())
    {
      SecsFacts();
      EvolvesTwice(vol.geo, a, b, Snap());
    }

    lemma EntryNumber()
      requires Valid() && GoodChain(vol.geo, chain) && Positioned()
      ensures index < |Table()| && index < D.MAX_ENTRIES
    {
    }
  }

  /** Entries `first` to `first + ne` of the table `t'`, into which `t` has grown, are unused, and none before them
      is the end of the table. */
  ghost predicate Reserved(t: D.Table, t': D.Table, first: nat, ne: nat) {
    first + ne <= |t'| && first + ne <= D.MAX_ENTRIES && SearchedSoFar(t, t', first, first + ne)
  }

  /** Entries `lo` to `hi` are unused, and none before them is the end of the table. */
  ghost predicate SearchedSoFar(t: D.Table, t': D.Table, lo: int, hi: nat) {
    && 0 <= lo <= hi <= |t'|
    && (forall k :: lo <= k < hi ==> D.IsBlank(t'[k]))
    && (D.ZeroTerminated(t) ==> forall k :: 0 <= k < lo ==> t'[k][0] != 0)
  }

  /** Entries `first` to `next` of the table `t'` hold the last parts of a name that ends in front of `end`; nothing
      else changed. */
  ghost predicate PartsStored(t: D.Table, t': D.Table, first: nat, next: nat, end: nat, name: seq<word>, sum: byte) {
    && |t'| == |t| && first <= next <= end <= |t|
    && (forall k :: 0 <= k < |t| && !(first <= k < next) ==> t'[k] == t[k])
    && forall k :: first <= k < next ==> IsPart(t'[k], name, end - k, sum)
  }

  lemma ReservedFits(t: D.Table, t': D.Table, first: nat, ne: nat)
    requires Reserved(t, t', first, ne)
    ensures first + ne <= |t'| && first + ne <= D.MAX_ENTRIES
  {
  }

  lemma RegisteredNow(t: D.Table, t1: D.Table, t2: D.Table, first: nat, ne: nat, name: seq<word>, fn: seq<byte>,
                      nt: byte)
    requires |fn| == SFN && 1 <= ne && Extends(t, t1) && Reserved(t, t1, first, ne)
    requires if ne == 1 then t2 == t1
      else PartsStored(t1, t2, first, first + ne - 1, first + ne - 1, name, D.SumSfn(fn))
    ensures D.Registered(t, t2[first + ne - 1 := D.ShortEntry(fn, nt)], first, ne, name, fn, nt)
  {
    hide IsPart, D.SumSfn, D.ShortEntry, D.ZeroTerminated, D.IsBlank;
    assert forall k :: 0 <= k < |t| ==> t1[k] == t1[..|t|][k] == t[k];
    if |t| < |t1| {
      assert t1[|t|] == D.ZeroEntry() && t1[|t|][0] == 0;
    }
  }

  /** dir_register: the entries a long name takes, the short one included. */
  method CountEntries(lfn: array<word>, ghost name: seq<word>) returns (ne: nat)
    requires lfn.Length == MAX_LFN + 1 && GoodName(name) && lfn[..|name|] == name && lfn[|name|] == 0
    ensures ne == Parts(name) + 1
  {
    ne := 0;
    assert forall k :: 0 <= k < |name| ==> lfn[k] == lfn[..|name|][k];
    while lfn[ne] != 0
      invariant ne <= |name|
      decreases |name| - ne
    {
      ne := ne + 1;
    }
    ne := (ne + 25) / PART;
  }

  lemma NoPartsStored(t: D.Table, first: nat, end: nat, name: seq<word>, sum: byte)
    requires first <= end <= |t|
    ensures PartsStored(t, t, first, first, end, name, sum)
  {
  }

  lemma OnePartStored(t: D.Table, t0: D.Table, first: nat, next: nat, end: nat, name: seq<word>, sum: byte, e: DirEntry)
    requires PartsStored(t, t0, first, next, end, name, sum) && next < end && IsPart(e, name, end - next, sum)
    ensures PartsStored(t, t0[next := e], first, next + 1, end, name, sum)
  {
    hide IsPart;
  }

  /** The search for `ne` unused entries has seen entries `lo` to `hi` unused, and no run in front of them. */
  ghost predicate Searched(t: D.Table, t': D.Table, lo: int, hi: nat, ne: nat) {
    SearchedSoFar(t, t', lo, hi) && Ruled(t', lo, ne) && hi - lo < ne
  }

  lemma SearchStarts(t: D.Table, ne: nat)
    requires 0 < ne
    ensures Searched(t, t, 0, 0, ne)
  {
  }

  lemma BlankSeen(t: D.Table, t': D.Table, lo: int, hi: nat, ne: nat)
    requires Searched(t, t', lo, hi, ne) && hi < |t'| && D.IsBlank(t'[hi]) && hi + 1 - lo < ne
    ensures Searched(t, t', lo, hi + 1, ne)
  {
    BlankFound(t, t', lo, hi);
  }

  lemma UsedSeen(t: D.Table, t': D.Table, lo: int, hi: nat, ne: nat)
    requires Searched(t, t', lo, hi, ne) && hi < |t'| && !D.IsBlank(t'[hi]) && Extends(t, t')
    ensures Searched(t, t', hi + 1, hi + 1, ne)
  {
    hide Extends;
    InUse(t, t', lo, hi);
    RuledOn(t', lo, hi, ne);
  }

  /** What the search has established still holds of the table after another step. */
  lemma SearchGoesOn(t: D.Table, t0: D.Table, t1: D.Table, lo: int, hi: nat, ne: nat)
    requires Searched(t, t0, lo, hi, ne) && Extends(t0, t1)
    ensures Searched(t, t1, lo, hi, ne)
  {
    hide Extends;
    SearchedOn(t, t0, t1, lo, hi);
    RuledLonger(t0, t1, lo, ne);
  }

  /** One of the `ne` entries from `k` on is in use and lies in front of entry `lo`. */
  ghost predicate Blocked(t: D.Table, k: int, ne: nat, lo: int)
    requires 0 <= k && lo <= |t|
  {
    exists j :: k <= j < k + ne && j < lo && !D.IsBlank(t[j])
  }

  /** No run of `ne` unused entries starts in front of entry `lo`, however the table may grow. */
  ghost predicate Ruled(t: D.Table, lo: int, ne: nat) {
    0 <= lo <= |t| && forall k :: 0 <= k < lo ==> Blocked(t, k, ne, lo)
  }

  lemma RuledBefore(t: D.Table, lo: nat, ne: nat)
    requires Ruled(t, lo, ne) && D.FreeRun(t, lo, ne)
    ensures D.HasRoom(t, ne) && forall k :: 0 <= k < lo ==> !D.FreeRun(t, k, ne)
  {
    forall k | 0 <= k < lo ensures !D.FreeRun(t, k, ne) {
      assert Blocked(t, k, ne, lo);
    }
  }

  /** An entry in use behind fewer than `ne` unused ones. */
  lemma RuledOn(t: D.Table, lo: int, hi: nat, ne: nat)
    requires Ruled(t, lo, ne) && lo <= hi < |t| && hi - lo < ne && !D.IsBlank(t[hi])
    ensures Ruled(t, hi + 1, ne)
  {
    var next := hi + 1;
    forall k | 0 <= k < next ensures Blocked(t, k, ne, next) {
      if k < lo {
        assert Blocked(t, k, ne, lo);
      }
    }
  }

  lemma RuledLonger(t: D.Table, t': D.Table, lo: int, ne: nat)
    requires Ruled(t, lo, ne) && Extends(t, t')
    ensures Ruled(t', lo, ne)
  {
    forall k | 0 <= k < lo ensures Blocked(t', k, ne, lo) {
      assert Blocked(t, k, ne, lo);
      var j :| k <= j < k + ne && j < lo && !D.IsBlank(t[j]);
      assert t'[..|t|][j] == t'[j];
    }
  }

  /** The search ended behind fewer than `ne` unused entries: the table has no room for them. */
  lemma RuledOut(t: D.Table, lo: int, hi: nat, ne: nat)
    requires Ruled(t, lo, ne) && lo <= hi && hi - lo < ne && (hi == |t| || hi == D.MAX_ENTRIES)
    ensures !D.HasRoom(t, ne)
  {
    forall k: nat ensures !D.FreeRun(t, k, ne) {
      assert k < lo ==> Blocked(t, k, ne, lo);
    }
  }

  /** A longer table has room where the shorter one has. */
  lemma RoomStays(t: D.Table, t': D.Table, ne: nat)
    requires Extends(t, t') && D.HasRoom(t, ne)
    ensures D.HasRoom(t', ne)
  {
    var k: nat :| D.FreeRun(t, k, ne);
    forall j | k <= j < k + ne ensures D.IsBlank(t'[j]) {
      assert t'[..|t|][j] == t'[j];
    }
    assert D.FreeRun(t', k, ne);
  }

  lemma BlankFound(t: D.Table, t': D.Table, lo: int, hi: nat)
    requires SearchedSoFar(t, t', lo, hi) && hi < |t'| && D.IsBlank(t'[hi])
    ensures SearchedSoFar(t, t', lo, hi + 1)
  {
  }

  /** An entry in use: in a zero-terminated table no entry before it is the end. */
  lemma InUse(t: D.Table, t': D.Table, lo: int, hi: nat)
    requires SearchedSoFar(t, t', lo, hi) && hi < |t'| && !D.IsBlank(t'[hi]) && Extends(t, t')
    ensures SearchedSoFar(t, t', hi + 1, hi + 1)
  {
    assert forall k :: |t| <= k < |t'| ==> D.IsBlank(t'[k]);
    if D.ZeroTerminated(t) {
      forall k | 0 <= k < hi + 1 ensures t'[k][0] != 0 {
        if hi < |t| {
          assert t[k] == t'[..|t|][k] && t[hi] == t'[..|t|][hi];
        }
      }
    }
  }

  lemma SearchedOn(t: D.Table, t0: D.Table, t1: D.Table, lo: int, hi: nat)
    requires SearchedSoFar(t, t0, lo, hi) && Extends(t0, t1)
    ensures SearchedSoFar(t, t1, lo, hi)
  {
    assert forall k :: 0 <= k < hi ==> t1[..|t0|][k] == t1[k];
  }

  lemma ReservedNow(t: D.Table, t': D.Table, first: nat, hi: nat, ne: nat)
    requires hi == first + ne && hi <= D.MAX_ENTRIES && SearchedSoFar(t, t', first, hi)
    ensures Reserved(t, t', first, ne) && D.FreeRun(t', first, ne)
  {
  }

  /** The key of a search; without a buffer only short names are compared. */
  ghost function Sought(fn: seq<byte>, loss: bool, lfn: array?<word>): D.Key
    reads lfn
  {
    D.Key(fn, loss, if lfn == null then None else Some(lfn[..]))
  }

  /** The search of a table has got to entry `k`, or found it. */
  ghost predicate FindGoesOn(t: D.Table, key: D.Key, up: word -> word, k: nat, found: bool, ord: byte, sum: byte)
    requires D.KeyOk(key)
  {
    D.Find(t, key, up) == if found then Some(k) else D.FindFrom(t, k, key, up, ord, sum)
  }

  lemma JudgeZero(e: DirEntry, key: D.Key, up: word -> word, ord: byte, sum: byte)
    requires D.KeyOk(key) && e[0] == 0
    ensures D.Judge(e, key, up, ord, sum) == D.EndOfTable
  {
  }

  /** dir_find, loop body: one entry in use compared with the name. */
  method JudgeEntry(e: DirEntry, fn: seq<byte>, loss: bool, lfn: array?<word>, up: word -> word, ord0: byte, sum0: byte)
    returns (found: bool, ord: byte, sum: byte)
    requires |fn| == SFN && (lfn != null ==> lfn.Length == MAX_LFN + 1) && IsUpper(up) && e[0] != 0
    ensures D.Judge(e, Sought(fn, loss, lfn), up, ord0, sum0) == if found then D.Found else D.GoOn(ord, sum)
  {
    hide IsUpper, Matches, D.SumSfn;
    found, ord, sum := false, ord0, sum0;
    var c := e[0];
    if c == DDE || D.IsLabel(e) {
      ord := D.NONE;
    } else if D.IsLong(e) {
      if lfn != null {
        if IsEnd(e) {
          sum := e[LDIR_CHKSUM];
          c := c - LLE;
          ord := c;
        }
        var same := false;
        if c == ord && sum == e[LDIR_CHKSUM] {
          same := CmpLfn(lfn, e, up);
        }
        ord := if same then (ord as int + 0xFF) % 0x100 else D.NONE;
      }
    } else {
      var s := D.SumShortName(e[..SFN]);
      if ord == 0 && sum == s {
        return true, ord, sum;
      }
      ord := D.NONE;
      if !loss && e[..SFN] == fn {
        return true, ord, sum;
      }
    }
  }

  const NS_BODY := 0x08
  const NS_EXT := 0x10

  /** The case flags that dir_register stores with a short name. */
  function CaseFlags(o: S.ObjectName): byte {
    (if o.body then NS_BODY else 0) + if o.ext then NS_EXT else 0
  }

  /** The stored entry of a name that needs no long-name entries prints back as the name. */
  lemma StoredNamePrintsBack(o: S.ObjectName)
    requires |o.fn| == SFN && S.Printed(o.fn, o.body, o.ext) == o.lfn
    ensures var e := D.ShortEntry(o.fn, CaseFlags(o));
      S.Printed(e[..SFN], e[D.DIR_NTRES] / NS_BODY % 2 == 1, e[D.DIR_NTRES] / NS_EXT % 2 == 1) == o.lfn
  {
    hide S.Printed;
    var e := D.ShortEntry(o.fn, CaseFlags(o));
    assert e[..SFN] == o.fn;
  }

  /** A table that grew by empty entries. */
  lemma ExtendsKeeps(t: D.Table, t': D.Table)
    requires Extends(t, t')
    ensures (D.ZeroTerminated(t) ==> D.ZeroTerminated(t')) && (D.WellFormed(t) ==> D.WellFormed(t'))
  {
    assert forall k :: 0 <= k < |t'| ==> if k < |t| then t'[k] == t'[..|t|][k] == t[k] else t'[k][0] == 0;
  }

  /** A name registered so that its short entry is entry `at`; outside the 8.3 form under the first free numbered
      name. */
  ghost predicate Created(t: D.Table, t': D.Table, at: nat, name: seq<word>, sn: seq<byte>, fn: seq<byte>, nt: byte,
                          loss: bool, long: bool)
    requires |sn| == |fn| == SFN
  {
    var ne := if long then Parts(name) + 1 else 1;
    ne <= at + 1 && D.Registered(t, t', at + 1 - ne, ne, name, fn, nt) &&
    if loss then D.FirstNumbered(t, sn, name, fn) else fn == sn && !D.HasShort(t, fn)
  }

  /** A search in the table `t'`, which a registration made of `t`, finds the new entry `at` if and only if no end of
      the table lies in front of it; in a zero-terminated table none does. Names of 255 units are not found. */
  ghost predicate FoundIfReached(t: D.Table, t': D.Table, at: nat, key: D.Key, up: word -> word, tooLong: bool)
    requires D.KeyOk(key)
  {
    && (!tooLong ==> (D.Find(t', key, up) == Some(at) <==> D.InFront(t', at)))
    && (D.ZeroTerminated(t) ==> D.Find(t', key, up) == if tooLong then None else Some(at))
  }

  /** Entries that an object takes. */
  function Entries(long: bool, name: seq<word>): nat {
    if long then Parts(name) + 1 else 1
  }

  /** f_open with creation: the cursor goes to the entry of the name, which is registered if the table does not have
      it. Afterwards a search for the name finds just the entry under the cursor, unless a name of 255 units was
      registered, which no search finds; and the table is as well formed as before. */
  method FindOrRegister(d: Dir, sn: seq<byte>, nt: byte, loss: bool, long: bool, lfn: array<word>,
                        up: word -> word, ghost name: seq<word>)
    returns (res: FResult, fn: seq<byte>, created: bool)
    requires d.Valid() && lfn.Length == MAX_LFN + 1 && IsUpper(up)
    requires |sn| == SFN && sn[0] != 0 && sn[0] != DDE
    requires if long then GoodName(name) && Holds(lfn[..], name) && (|name| == MAX_LFN ==> loss) else !loss
    modifies d`index, d`clust, d`sect, d`chain
    modifies d.vol`disk, d.vol`wflag, d.vol`winsect, d.vol`lastClust, d.vol`freeClust, d.vol`fsiFlag, d.vol.win
    ensures d.Valid() && d.vol.Valid() && GoodChain(d.vol.geo, d.chain) && res in {Ok, NoFile, Denied, IntErr}
    ensures |fn| == SFN
    ensures (res == Ok ==> d.Positioned() && created == D.Find(old(d.Table()), Sought(sn, loss, lfn), up).None?)
    ensures res == Ok ==> d.vol.winsect == d.sect
    ensures res == Ok && created ==> fn[0] != 0 && fn[0] != DDE
    ensures var t, ne := old(d.Table()), Entries(long, name);
      if D.Find(t, Sought(sn, loss, lfn), up).Some? then res == Ok
      else if loss && D.AllTaken(t, sn, name) then res == Denied
      else res == Ok || (d.NoRoom(res, ne) && !D.HasRoom(t, ne) && Extends(t, d.Table()))
    ensures res == Ok && !created ==>
      d.Table() == old(d.Table()) && D.FirstOfName(d.Table(), d.index, Sought(sn, loss, lfn), up)
    ensures res == Ok && created ==> Created(old(d.Table()), d.Table(), d.index, name, sn, fn, nt, loss, long)
    ensures res == Ok && created ==>
      FoundIfReached(old(d.Table()), d.Table(), d.index, Sought(sn, loss, lfn), up, long && |name| == MAX_LFN)
    ensures (D.ZeroTerminated(old(d.Table())) ==> D.ZeroTerminated(d.Table()))
    ensures (D.WellFormed(old(d.Table())) ==> D.WellFormed(d.Table()))
    ensures Evolves(d.vol.geo, old(d.Snap()), d.Snap())
  {
    hide Volume.Valid, Volume.Fat, Volume.Logical, GoodChain, FileChain, Dir.Positioned, Dir.Table, Dir.Snap, Evolves;
    hide Looks, Extends, IsUpper, D.Registered, Dir.NoRoom, D.HasRoom, D.ZeroTerminated, D.WellFormed, D.HasShort;
    hide D.AllTaken, D.FirstOfName, FoundIfReached, N.Numbered;
    ghost var t, a := d.Table(), d.Snap();
    d.EvolvesNow();
    fn, created := sn, false;
    res := d.Find(sn, loss, lfn, up);
    d.LookedOn(a, a);
    ghost var b := d.Snap();
    if res == NoFile {
      created := true;
      ghost var first, ne;
      assert long ==> lfn[..|name|] == lfn[..][..|name|];
      res, fn, first, ne := d.RegisterName(sn, nt, loss, long, lfn, up, name);
      d.EvolvesOn(a, b);
      if res == Ok {
        NewName(t, d.Table(), first, ne, name, sn, fn, nt, loss, lfn[..], up);
      } else {
        ExtendsKeeps(t, d.Table());
      }
    }
  }

  /** A name that was not in the table, registered: whether it is found, and that the table stays well formed. */
  lemma NewName(t: D.Table, t': D.Table, first: nat, ne: nat, name: seq<word>, sn: seq<byte>, fn: seq<byte>, nt: byte,
                loss: bool, buf: seq<word>, up: word -> word)
    requires |sn| == |fn| == SFN && sn[0] != 0 && sn[0] != DDE && |buf| == MAX_LFN + 1
    requires D.Registered(t, t', first, ne, name, fn, nt) && IsUpper(up)
    requires if ne == 1 then !loss
      else ne == Parts(name) + 1 && GoodName(name) && Holds(buf, name) && (|name| == MAX_LFN ==> loss)
    requires D.Find(t, D.Key(sn, loss, Some(buf)), up) == None
    requires if loss then D.FirstNumbered(t, sn, name, fn) else fn == sn
    ensures FoundIfReached(t, t', first + ne - 1, D.Key(sn, loss, Some(buf)), up, ne > 1 && |name| == MAX_LFN)
    ensures !D.HasShort(t, fn) && (D.ZeroTerminated(t) ==> D.ZeroTerminated(t'))
    ensures (D.WellFormed(t) ==> D.WellFormed(t'))
    ensures fn[0] != 0 && fn[0] != DDE
  {
    hide D.Registered, D.InFront, D.ZeroTerminated, D.WellFormed, N.Numbered, D.Judge, Holds, IsUpper, D.TakenBelow;
    hide D.IsNamed, SameName;
    if loss {
      var n: word :| fn == N.Numbered(sn, name, n);
      N.NumberReadsBack(sn, name, n);
      D.LossySearchIgnores(t, 0, sn, fn, Some(buf), up, D.NONE, D.NONE);
      D.LossySearchIgnores(t', 0, sn, fn, Some(buf), up, D.NONE, D.NONE);
    } else {
      D.NotFoundNotThere(t, D.Key(sn, loss, Some(buf)), up);
    }
    if !(ne > 1 && |name| == MAX_LFN) {
      D.RegisteredIsFound(t, t', first, ne, name, fn, nt, loss, buf, up);
    } else if D.ZeroTerminated(t) {
      D.OthersFoundAsBefore(t, t', first, ne, name, fn, nt, D.Key(sn, loss, Some(buf)), name, up);
    }
    if D.ZeroTerminated(t) {
      D.RegisteredKeeps(t, t', first, ne, name, fn, nt);
    }
    WellFormedEnds(t);
  }

  lemma WellFormedEnds(t: D.Table)
    ensures D.WellFormed(t) ==> D.ZeroTerminated(t)
  {
  }

  // -------------------------------------------------------------- from the path to the entry

  /** The units of a name of ASCII characters. */
  function UnitsOf(name: seq<byte>): seq<word> {
    name
  }

  /** Entry `at` is printed as `name`. */
  ghost predicate PrintsAs(t: D.Table, at: nat, name: seq<byte>) {
    at < |t| && S.Printed(t[at][..SFN], t[at][D.DIR_NTRES] / NS_BODY % 2 == 1, t[at][D.DIR_NTRES] / NS_EXT % 2 == 1) == name
  }

  lemma CreatedPrints(t: D.Table, t': D.Table, at: nat, o: S.ObjectName, fn: seq<byte>)
    requires |o.fn| == |fn| == SFN && S.Printed(o.fn, o.body, o.ext) == o.lfn
    requires Created(t, t', at, UnitsOf(o.lfn), o.fn, fn, CaseFlags(o), false, false)
    ensures PrintsAs(t', at, o.lfn)
  {
    hide S.Printed;
    StoredNamePrintsBack(o);
  }

  /** What create_name delivers is what a directory accepts. */
  lemma NameIsGood(o: S.ObjectName)
    requires 1 <= |o.lfn| <= MAX_LFN && S.IsText(o.lfn) && (o.loss <==> !S.Fits(o.lfn))
    ensures GoodName(UnitsOf(o.lfn)) && (|o.lfn| == MAX_LFN ==> o.loss)
  {
    hide S.AfterDot;
  }

  /** What create_name leaves in the buffer for long names: the whole segment, cut short by a zero. */
  function NameBuffer(buf: seq<word>, seg: seq<byte>): (b: seq<word>)
    requires |buf| == MAX_LFN + 1 && |seg| <= MAX_LFN
    ensures |b| == |buf|
  {
    Splice(buf, 0, UnitsOf(seg))[|S.Trimmed(seg)| := 0]
  }

  lemma NameBufferHolds(buf: seq<word>, seg: seq<byte>)
    requires |buf| == MAX_LFN + 1 && |seg| <= MAX_LFN && S.IsText(S.Trimmed(seg))
    ensures Holds(NameBuffer(buf, seg), UnitsOf(S.Trimmed(seg)))
  {
    hide S.Trimmed, S.IsText, Splice;
    var name := S.Trimmed(seg);
    assert UnitsOf(name) == UnitsOf(seg)[..|name|];
    hide UnitsOf;
    TextHasNoZero(name);
    CutShort(buf, UnitsOf(seg), |name|);
  }

  lemma TextHasNoZero(name: seq<byte>)
    requires S.IsText(name)
    ensures forall k :: 0 <= k < |name| ==> UnitsOf(name)[k] != 0
  {
  }

  lemma CutShort(buf: seq<word>, units: seq<word>, n: nat)
    requires n <= |units| < |buf|
    ensures Splice(buf, 0, units)[n := 0][..n] == units[..n]
  {
  }

  /** create_name: the segment in the buffer for long names. */
  method StoreName(lfn: array<word>, seg: seq<byte>, n: nat)
    requires lfn.Length == MAX_LFN + 1 && |seg| <= MAX_LFN && n == |S.Trimmed(seg)|
    modifies lfn
    ensures lfn[..] == NameBuffer(old(lfn[..]), seg)
  {
    hide S.Trimmed;
    CopyInto(lfn, 0, UnitsOf(seg));
    lfn[n] := 0;
  }

  /** The path ends with its first segment. */
  predicate OneSegment(path: seq<byte>) {
    var end := S.SegmentEnd(path, S.SkipSeparators(path, 0));
    end < |path| && path[end] < S.SPACE
  }

  /** f_open with creation, from the path on: the segment is taken from the path, looked up, and registered if it is
      not there. The new entry spells the segment: in its short entry if the segment fits the 8.3 form in one case,
      else in its parts. */
  method OpenOrCreate(d: Dir, path: seq<byte>, lfn: array<word>, up: word -> word)
    returns (res: FResult, o: S.ObjectName, fn: seq<byte>, created: bool)
    requires d.Valid() && lfn.Length == MAX_LFN + 1 && IsUpper(up)
    requires path != [] && path[|path| - 1] == 0 && OneSegment(path) && forall k :: 0 <= k < |path| ==> path[k] < 0x80
    modifies lfn, d`index, d`clust, d`sect, d`chain
    modifies d.vol`disk, d.vol`wflag, d.vol`winsect, d.vol`lastClust, d.vol`freeClust, d.vol`fsiFlag, d.vol.win
    ensures d.Valid() && d.vol.Valid() && GoodChain(d.vol.geo, d.chain)
    ensures res in {Ok, NoFile, Denied, IntErr, InvalidName}
    ensures res == InvalidName <==> !S.Acceptable(S.Segment(path))
    ensures res == InvalidName ==> d.Table() == old(d.Table())
    ensures res != InvalidName ==> o.lfn == S.Trimmed(S.Segment(path)) && |o.fn| == |fn| == SFN
    ensures res != InvalidName ==>
      (o.long <==> !S.IsPlain(o.lfn)) && (o.loss <==> !S.Fits(o.lfn)) && Holds(lfn[..], UnitsOf(o.lfn))
    ensures res != InvalidName ==> lfn[..] == NameBuffer(old(lfn[..]), S.Segment(path)) && o.fn == S.Shortened(o.lfn)
    ensures res == Ok ==> d.Positioned() && d.vol.winsect == d.sect
    ensures res == Ok ==> created == D.Find(old(d.Table()), Sought(o.fn, o.loss, lfn), up).None?
    ensures res == Ok && created ==> fn[0] != 0 && fn[0] != DDE
    ensures res != InvalidName ==>
      var t, name, ne := old(d.Table()), UnitsOf(o.lfn), Entries(o.long, UnitsOf(o.lfn));
      if D.Find(t, Sought(o.fn, o.loss, lfn), up).Some? then res == Ok
      else if o.loss && D.AllTaken(t, o.fn, name) then res == Denied
      else res == Ok || (d.NoRoom(res, ne) && !D.HasRoom(t, ne) && Extends(t, d.Table()))
    ensures res == Ok && !created ==>
      d.Table() == old(d.Table()) && D.FirstOfName(d.Table(), d.index, Sought(o.fn, o.loss, lfn), up)
    ensures res == Ok && created ==>
      Created(old(d.Table()), d.Table(), d.index, UnitsOf(o.lfn), o.fn, fn, CaseFlags(o), o.loss, o.long)
    ensures res == Ok && created ==>
      FoundIfReached(old(d.Table()), d.Table(), d.index, Sought(o.fn, o.loss, lfn), up, |o.lfn| == MAX_LFN)
    ensures res == Ok && created && !o.long ==> PrintsAs(d.Table(), d.index, o.lfn)
    ensures (D.ZeroTerminated(old(d.Table())) ==> D.ZeroTerminated(d.Table()))
    ensures (D.WellFormed(old(d.Table())) ==> D.WellFormed(d.Table()))
    ensures Evolves(d.vol.geo, old(d.Snap()), d.Snap())
  {
    hide Volume.Valid, Volume.Fat, Volume.Logical, GoodChain, FileChain, Dir.Positioned, Dir.Table, Dir.Snap, Evolves;
    hide Looks, Extends, IsUpper, Dir.NoRoom, D.HasRoom, D.ZeroTerminated, D.WellFormed, D.AllTaken, D.FirstOfName;
    hide FoundIfReached, OneSegment, NameBuffer, S.Segment, S.Printed, S.IsPlain, S.Fits, S.Trimmed, S.ShortOf;
    hide S.Shortened, Created, PrintsAs, Holds;
    var at;
    d.EvolvesNow();
    d.SecsFacts();
    fn, created := [], false;
    res, o, at := S.CreateName(path);
    if res != Ok {
      return;
    }
    NameIsGood(o);
    NameBufferHolds(lfn[..], S.Segment(path));
    StoreName(lfn, S.Segment(path), |o.lfn|);
    res, fn, created := FindOrRegister(d, o.fn, CaseFlags(o), o.loss, o.long, lfn, up, UnitsOf(o.lfn));
    if res == Ok && created && !o.long {
      CreatedPrints(old(d.Table()), d.Table(), d.index, o, fn);
    }
  }

  // -------------------------------------------------------------- the entry found is that of the name

  /** Upper-casing of units agrees with that of ASCII characters. */
  ghost predicate UpOnAscii(up: word -> word) {
    forall c: byte :: c < 0x80 ==> up(c) == S.Up(c)
  }

  /** Entry `k` is that of the object `name`: alone if the name fits the 8.3 form in one case, else behind the parts
      of the name. */
  ghost predicate Spells(t: D.Table, k: nat, name: seq<byte>) {
    && k < |t| && k < D.MAX_ENTRIES && D.IsShort(t[k]) && (S.Fits(name) ==> t[k][..SFN] == S.ShortOf(name))
    && if S.IsPlain(name) then k > 0 ==> D.IsBlank(t[k - 1]) || !D.IsLong(t[k - 1]) else D.StoredAt(t, k, UnitsOf(name))
  }

  /** A key for the name `seg`. */
  ghost predicate KeyFor(key: D.Key, seg: seq<byte>) {
    D.KeyOk(key) && (key.loss <==> !S.Fits(seg)) && key.fn == S.Shortened(seg) && key.lfn.Some? &&
    Holds(key.lfn.value, UnitsOf(seg))
  }

  /** A name as create_name accepts it. */
  ghost predicate ObjectName(name: seq<byte>) {
    1 <= |name| <= MAX_LFN && S.IsText(name) && name[|name| - 1] != S.DOT
  }

  lemma SameInUpper(a: seq<byte>, b: seq<byte>, up: word -> word)
    requires S.IsText(a) && S.IsText(b) && UpOnAscii(up)
    ensures SameName(UnitsOf(a), UnitsOf(b), up) <==> S.UpperName(a) == S.UpperName(b)
  {
    if SameName(UnitsOf(a), UnitsOf(b), up) {
      forall k | 0 <= k < |a| ensures S.Up(a[k]) == S.Up(b[k]) {
        assert up(UnitsOf(a)[k]) == S.Up(a[k]) && up(UnitsOf(b)[k]) == S.Up(b[k]);
      }
    }
    if S.UpperName(a) == S.UpperName(b) {
      assert |S.UpperName(a)| == |S.UpperName(b)|;
      forall k | 0 <= k < |a| ensures up(UnitsOf(a)[k]) == up(UnitsOf(b)[k]) {
        assert S.UpperName(a)[k] == S.UpperName(b)[k];
      }
    }
  }

  /** The object `name` is the one a search for `seg` means if and only if the two are equal up to case and have at
      most 254 characters, or `seg` is the numbered short name of an object whose own name does not fit. */
  lemma SpelledIsMeant(t: D.Table, k: nat, name: seq<byte>, key: D.Key, seg: seq<byte>, up: word -> word)
    requires Spells(t, k, name) && ObjectName(name) && ObjectName(seg) && KeyFor(key, seg) && IsUpper(up)
    requires UpOnAscii(up)
    ensures D.Carries(t, k, key, up) <==>
      (S.UpperName(name) == S.UpperName(seg) && |name| < MAX_LFN) || (!S.Fits(name) && S.Fits(seg) && t[k][..SFN] == S.ShortOf(seg))
  {
    hide S.Fits, S.IsPlain, S.ShortOf, S.Shortened, S.UpperName, D.IsShort, D.StoredAt, SameName, Holds, IsUpper;
    hide UpOnAscii;
    S.FitsInUpper(name);
    S.FitsInUpper(seg);
    if S.Fits(seg) {
      S.FitsIsKept(seg);
    }
    if S.Fits(name) {
      FitsIsShort(name);
      if S.Fits(seg) {
        S.SameShortSameName(name, seg);
      }
    }
    if S.IsPlain(name) {
      PlainFits(name);
      NoRunBehind(t, k, key, up);
    } else {
      SameInUpper(name, seg, up);
      D.StoredNameCarries(t, k, UnitsOf(name), key, UnitsOf(seg), up);
    }
  }

  lemma PlainFits(name: seq<byte>)
    requires S.IsPlain(name)
    ensures S.Fits(name)
  {
  }

  lemma FitsIsShort(name: seq<byte>)
    requires S.Fits(name)
    ensures |name| < MAX_LFN
  {
  }

  lemma NoRunBehind(t: D.Table, k: nat, key: D.Key, up: word -> word)
    requires D.KeyOk(key) && k < |t| && (k > 0 ==> D.IsBlank(t[k - 1]) || !D.IsLong(t[k - 1]))
    ensures !D.ByLong(t, k, key, up)
  {
    hide D.IsBlank, D.IsLong, D.SumSfn, Matches;
  }

  /** What OpenOrCreate creates in a well-formed table is the entry of the name. */
  lemma CreatedSpells(t: D.Table, t': D.Table, at: nat, name: seq<byte>, sn: seq<byte>, fn: seq<byte>, nt: byte)
    requires |sn| == |fn| == SFN && fn[0] != 0 && fn[0] != DDE && D.WellFormed(t) && ObjectName(name)
    requires at < D.MAX_ENTRIES
    requires Created(t, t', at, UnitsOf(name), sn, fn, nt, !S.Fits(name), !S.IsPlain(name)) && sn == S.Shortened(name)
    ensures Spells(t', at, name)
  {
    hide S.Fits, S.IsPlain, S.ShortOf, S.Shortened, IsPart, D.SumSfn, D.FirstNumbered, D.HasShort;
    if S.Fits(name) {
      S.FitsIsKept(name);
    }
    D.ShortIsShort(fn, nt);
    if !S.IsPlain(name) {
      D.RegisteredIsStored(t, t', at - Parts(UnitsOf(name)), Parts(UnitsOf(name)) + 1, UnitsOf(name), fn, nt);
    } else if at > 0 {
      NoPartInFront(t, t', at, UnitsOf(name), fn, nt);
    }
  }

  /** A short entry registered alone in a tidy table has no part of another name right in front. */
  lemma NoPartInFront(t: D.Table, t': D.Table, at: nat, name: seq<word>, fn: seq<byte>, nt: byte)
    requires |fn| == SFN && 0 < at && D.Tidy(t) && D.Registered(t, t', at, 1, name, fn, nt)
    ensures D.IsBlank(t'[at - 1]) || !D.IsLong(t'[at - 1])
  {
    hide IsPart, D.SumSfn, D.ZeroTerminated, D.ShortEntry;
    var k := at - 1;
    if k < |t| {
      assert t'[k] == t[k] && (at < |t| ==> D.IsBlank(t[at]));
    } else {
      assert t'[k] == D.ZeroEntry();
    }
  }
}
