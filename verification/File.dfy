/** An open file: a cursor over a cluster chain with a private one-sector buffer. */
module Files {
  import opened Bytes
  import opened Geometry
  import opened FatTable
  import opened Chains
  import opened Volumes
  import opened FileData

  // Offsets in a directory entry
  const DIR_ATTR := 11
  const DIR_FST_CLUS_HI := 20
  const DIR_WRT_TIME := 22
  const DIR_FST_CLUS_LO := 26
  const DIR_FILE_SIZE := 28

  /** LD_CLUST: the start cluster a directory entry at offset `at` records. */
  function EntryCluster(w: Sector, at: nat): dword
    requires at + SZ_DIR <= SECTOR_SIZE
  {
    0x1_0000 * (LdWord(w, at + DIR_FST_CLUS_HI) as int) + LdWord(w, at + DIR_FST_CLUS_LO)
  }

  function EntrySize(w: Sector, at: nat): dword
    requires at + SZ_DIR <= SECTOR_SIZE
  {
    LdDword(w, at + DIR_FILE_SIZE)
  }

  /** The directory entry at offset `at` after f_sync: archive bit, start cluster, write time and size. */
  function UpdatedEntry(w: Sector, at: nat, clust: dword, time: dword, size: dword): Sector
    requires at + SZ_DIR <= SECTOR_SIZE
  {
    var attr := w[at + DIR_ATTR];
    var w := w[at + DIR_ATTR := if attr / 0x20 % 2 == 1 then attr else attr + 0x20];
    var w := StDword(w, at + DIR_FILE_SIZE, size);
    var w := StWord(w, at + DIR_FST_CLUS_LO, clust);
    var w := StWord(w, at + DIR_FST_CLUS_HI, clust / 0x1_0000);
    StDword(w, at + DIR_WRT_TIME, time)
  }

  /** The updated entry reads back the size. */
  lemma UpdatedEntrySize(w: Sector, at: nat, clust: dword, time: dword, size: dword)
    requires at + SZ_DIR <= SECTOR_SIZE
    ensures EntrySize(UpdatedEntry(w, at, clust, time, size), at) == size
  {
    hide StWord, StDword, LdWord, LdDword;
    var attr := w[at + DIR_ATTR];
    var w1: Sector := w[at + DIR_ATTR := if attr / 0x20 % 2 == 1 then attr else attr + 0x20];
    var k := at + DIR_FILE_SIZE;
    var w2: Sector := StDword(w1, k, size);
    DwordRoundTrip(w1, k, size);
    StoresBeside(w2, at + DIR_FST_CLUS_LO, clust, k);
    var w3: Sector := StWord(w2, at + DIR_FST_CLUS_LO, clust);
    StoresBeside(w3, at + DIR_FST_CLUS_HI, clust / 0x1_0000, k);
    StoresBeside(StWord(w3, at + DIR_FST_CLUS_HI, clust / 0x1_0000), at + DIR_WRT_TIME, time, k);
  }

  /** The updated entry reads back the start cluster from its two halves. */
  lemma UpdatedEntryCluster(w: Sector, at: nat, clust: dword, time: dword, size: dword)
    requires at + SZ_DIR <= SECTOR_SIZE
    ensures EntryCluster(UpdatedEntry(w, at, clust, time, size), at) == clust
  {
    hide StWord, StDword, LdWord, LdDword;
    var attr := w[at + DIR_ATTR];
    var w1: Sector := w[at + DIR_ATTR := if attr / 0x20 % 2 == 1 then attr else attr + 0x20];
    var lo, hi := at + DIR_FST_CLUS_LO, at + DIR_FST_CLUS_HI;
    var w2: Sector := StDword(w1, at + DIR_FILE_SIZE, size);
    var w3: Sector := StWord(w2, lo, clust);
    var w4: Sector := StWord(w3, hi, clust / 0x1_0000);
    WordRoundTrip(w2, lo, clust);
    WordRoundTrip(w3, hi, clust / 0x1_0000);
    ClusterWords(clust);
    StoresBeside(w3, hi, clust / 0x1_0000, lo);
    StoresBeside(w4, at + DIR_WRT_TIME, time, lo);
    StoresBeside(w4, at + DIR_WRT_TIME, time, hi);
  }

  /** The updated entry reads back the write time. */
  lemma UpdatedEntryTime(w: Sector, at: nat, clust: dword, time: dword, size: dword)
    requires at + SZ_DIR <= SECTOR_SIZE
    ensures LdDword(UpdatedEntry(w, at, clust, time, size), at + DIR_WRT_TIME) == time
  {
    hide StWord, StDword, LdWord, LdDword;
    var attr := w[at + DIR_ATTR];
    var w1: Sector := w[at + DIR_ATTR := if attr / 0x20 % 2 == 1 then attr else attr + 0x20];
    var w2: Sector := StDword(w1, at + DIR_FILE_SIZE, size);
    var w3: Sector := StWord(w2, at + DIR_FST_CLUS_LO, clust);
    var w4: Sector := StWord(w3, at + DIR_FST_CLUS_HI, clust / 0x1_0000);
    DwordRoundTrip(w4, at + DIR_WRT_TIME, time);
  }

  lemma ClusterWords(clust: dword)
    ensures 0x1_0000 * (clust / 0x1_0000 % 0x1_0000) + clust % 0x1_0000 == clust
    ensures clust / 0x1_0000 % 0x1_0000_0000 == clust / 0x1_0000
  {
  }

  /** f_sync changes no byte outside the entry's attribute, cluster, time and size fields. */
  lemma UpdatedEntryKeeps(w: Sector, at: nat, clust: dword, time: dword, size: dword, k: nat)
    requires at + SZ_DIR <= SECTOR_SIZE && k < SECTOR_SIZE
    requires k != at + DIR_ATTR && !(at + DIR_FST_CLUS_HI <= k < at + SZ_DIR)
    ensures UpdatedEntry(w, at, clust, time, size)[k] == w[k]
  {
    var attr := w[at + DIR_ATTR];
    var w1: Sector := w[at + DIR_ATTR := if attr / 0x20 % 2 == 1 then attr else attr + 0x20];
    var w2: Sector := StDword(w1, at + DIR_FILE_SIZE, size);
    var w3: Sector := StWord(w2, at + DIR_FST_CLUS_LO, clust);
    var w4: Sector := StWord(w3, at + DIR_FST_CLUS_HI, clust / 0x1_0000);
    hide StWord, StDword;
    StDwordElsewhere(w1, at + DIR_FILE_SIZE, size, k);
    StWordElsewhere(w2, at + DIR_FST_CLUS_LO, clust, k);
    StWordElsewhere(w3, at + DIR_FST_CLUS_HI, clust / 0x1_0000, k);
    StDwordElsewhere(w4, at + DIR_WRT_TIME, time, k);
  }

  /** It sets the archive bit. */
  lemma UpdatedEntryAttr(w: Sector, at: nat, clust: dword, time: dword, size: dword)
    requires at + SZ_DIR <= SECTOR_SIZE
    ensures var attr := w[at + DIR_ATTR];
      UpdatedEntry(w, at, clust, time, size)[at + DIR_ATTR] == if attr / 0x20 % 2 == 1 then attr else attr + 0x20
  {
    var k, attr := at + DIR_ATTR, w[at + DIR_ATTR];
    var w1: Sector := w[k := if attr / 0x20 % 2 == 1 then attr else attr + 0x20];
    var w2: Sector := StDword(w1, at + DIR_FILE_SIZE, size);
    var w3: Sector := StWord(w2, at + DIR_FST_CLUS_LO, clust);
    var w4: Sector := StWord(w3, at + DIR_FST_CLUS_HI, clust / 0x1_0000);
    hide StWord, StDword;
    StDwordElsewhere(w1, at + DIR_FILE_SIZE, size, k);
    StWordElsewhere(w2, at + DIR_FST_CLUS_LO, clust, k);
    StWordElsewhere(w3, at + DIR_FST_CLUS_HI, clust / 0x1_0000, k);
    StDwordElsewhere(w4, at + DIR_WRT_TIME, time, k);
  }

  /** `ch` is the chain of a file that starts in cluster `start`, apart from the sector in the window. */
  ghost predicate ChainFrom(v: Volume, start: dword, ch: seq<nat>)
    requires v.Valid()
    reads v`disk, v`wflag, v`winsect, v.win
  {
    FileChain(v.geo, v.Fat(), |v.disk|, start, ch) && v.winsect !in Sectors(v.geo, ch)
  }

  lemma PartOfPrefix(all: seq<byte>, n: nat, p: nat, q: nat)
    requires p <= q <= n <= |all|
    ensures all[..n][p..q] == all[p..q]
  {
  }

  /** `c` with `d` written over it from position `p` on; it grows when `d` reaches behind its end. */
  function Overwrite(c: seq<byte>, p: nat, d: seq<byte>): (r: seq<byte>)
    requires p <= |c|
  {
    c[..p] + d + if p + |d| < |c| then c[p + |d|..] else []
  }

  lemma OverwriteTwice(c: seq<byte>, p: nat, d: seq<byte>, e: seq<byte>)
    requires p <= |c|
    ensures Overwrite(Overwrite(c, p, d), p + |d|, e) == Overwrite(c, p, d + e)
  {
  }

  function Max(a: nat, b: nat): nat { if a > b then a else b }

  /** A round of f_write seen on the file's bytes: a stretch overwritten in place, or appended at the growing edge. */
  ghost predicate RoundDone(all: seq<byte>, fsize: nat, fptr: nat, piece: seq<byte>, all': seq<byte>)
    requires Max(fsize, fptr) <= |all|
  {
    Max(fsize, fptr + |piece|) <= |all'| &&
    all'[..Max(fsize, fptr + |piece|)] == Overwrite(all[..Max(fsize, fptr)], fptr, piece)
  }

  lemma RoundInPlace(all: seq<byte>, fsize: nat, fptr: nat, piece: seq<byte>)
    requires fsize <= |all| && fptr + |piece| <= |all|
    ensures RoundDone(all, fsize, fptr, piece, Splice(all, fptr, piece))
  {
  }

  lemma RoundAtEdge(all: seq<byte>, fsize: nat, fptr: nat, piece: seq<byte>, all': seq<byte>)
    requires fsize <= fptr <= |all| && fptr + |piece| <= |all'| && all'[..fptr + |piece|] == all[..fptr] + piece
    ensures RoundDone(all, fsize, fptr, piece, all')
  {
    assert all[..fptr][..fptr] == all[..fptr];
  }

  lemma RoundAfterGrowth(all: seq<byte>, grown: seq<byte>, fsize: nat, fptr: nat, piece: seq<byte>, all': seq<byte>)
    requires Max(fsize, fptr) <= |all| && all <= grown && RoundDone(grown, fsize, fptr, piece, all')
    ensures RoundDone(all, fsize, fptr, piece, all')
  {
    assert grown[..Max(fsize, fptr)] == all[..Max(fsize, fptr)];
  }

  /** Rounds of f_write add up to one overwrite. */
  lemma WriteRounds(c: seq<byte>, p: nat, data: seq<byte>, done: nat, n: nat, all: seq<byte>, fsize: nat,
                    all': seq<byte>)
    requires p <= |c| && done + n <= |data| && Max(fsize, p + done) <= |all|
    requires all[..Max(fsize, p + done)] == Overwrite(c, p, data[..done])
    requires RoundDone(all, fsize, p + done, data[done..][..n], all')
    ensures Max(fsize, p + done + n) <= |all'|
    ensures all'[..Max(fsize, p + done + n)] == Overwrite(c, p, data[..done + n])
  {
    OverwriteTwice(c, p, data[..done], data[done..][..n]);
    assert data[..done] + data[done..][..n] == data[..done + n];
  }

  lemma WriteNothing(c: seq<byte>, p: nat, data: seq<byte>)
    requires p <= |c|
    ensures Overwrite(c, p, data[..0]) == c
  {
  }

  lemma PrefixOfGrown(all: seq<byte>, grown: seq<byte>, n: nat)
    requires n <= |all| && all <= grown
    ensures grown[..n] == all[..n]
  {
  }

  /** Bytes read so far, followed by those of the next round. */
  lemma ReadRounds(b: seq<byte>, all: seq<byte>, p: nat, q: nat, r: nat)
    requires p <= q <= r <= |all| && r - p <= |b|
    ensures Splice(Splice(b, 0, all[p..q]), q - p, all[q..r]) == Splice(b, 0, all[p..r])
  {
    SpliceSplice(b, 0, all[p..q], all[q..r]);
    assert all[p..q] + all[q..r] == all[p..r];
  }

  lemma ReadNothing(b: seq<byte>, all: seq<byte>, p: nat)
    requires p <= |all|
    ensures Splice(b, 0, all[p..p]) == b
  {
  }

  class File {
    const vol: Volume
    const buf: array<byte>   // private sector buffer
    const canRead: bool      // FA_READ
    const canWrite: bool     // FA_WRITE
    var dirty: bool          // FA__DIRTY: buf must be written back
    var written: bool        // FA__WRITTEN: the directory entry must be updated
    var error: bool          // FA__ERROR: aborted
    var fptr: dword          // read/write pointer
    var fsize: dword
    var sclust: dword        // start cluster, 0 when the file has none
    var clust: dword         // current cluster
    var dsect: nat           // sector in buf, 0 when none
    const dirSect: nat       // sector of the directory entry
    const dirAt: nat         // offset of the entry in that sector
    ghost var chain: seq<nat>
    ghost var cur: nat       // index of clust in the chain

    ghost function Secs(): seq<nat>
      requires GoodChain(vol.geo, chain)
      reads `chain
    {
      Sectors(vol.geo, chain)
    }

    /** What holds between any two steps inside a call. */
    ghost predicate Core()
      reads `chain, `sclust, `dirty, `dsect, vol`disk, vol`wflag, vol`winsect, vol.win
    {
      && vol.Valid() && ChainFrom(vol, sclust, chain)
      && buf != vol.win && buf.Length == SECTOR_SIZE
      && (if dsect == 0 then !dirty else dsect in Secs())
    }

    lemma CoreFacts()
      requires Core()
      ensures vol.Valid() && GoodChain(vol.geo, chain) && buf != vol.win && buf.Length == SECTOR_SIZE
      ensures 0 < vol.geo.csize <= 128 && 2 < vol.geo.nFatent < 0x1000_0000
      ensures if chain == [] then sclust == 0 else 2 <= sclust == chain[0]
    {
    }

    lemma SectorFacts(k: nat)
      requires Core() && k < |Secs()|
      ensures 0 < Secs()[k] < |View()|
    {
    }

    lemma AllSectorFacts()
      requires Core()
      ensures forall k :: 0 <= k < |Secs()| ==> vol.geo.database <= Secs()[k] < |vol.disk|
    {
    }

    /** The drive with the dirty buffer overlaid. */
    ghost function View(): (d: Disk)
      requires Core()
      reads `chain, `sclust, `dirty, `dsect, buf, vol`disk, vol`wflag, vol`winsect, vol.win
      ensures |d| == |vol.disk|
    {
      if dirty then vol.Logical()[dsect := buf[..]] else vol.Logical()
    }

    ghost function Snap(): Snapshot
      requires Core()
      reads `chain, `sclust, `dirty, `dsect, buf, vol`disk, vol`wflag, vol`winsect, vol`freeClust, vol`fsiFlag,
            vol.win
    {
      Snapshot(vol.Fat(), chain, Secs(), View(), vol.freeClust, vol.fsiFlag, vol.winsect)
    }

    /** A clean buffer shows its sector. */
    ghost predicate BufferClean()
      requires Core()
      reads `chain, `sclust, `dirty, `dsect, buf, vol`disk, vol`wflag, vol`winsect, vol.win
    {
      dsect != 0 && !dirty ==> buf[..] == vol.Logical()[dsect]
    }

    /** All bytes of the chain's sectors. */
    ghost function AllBytes(): (b: seq<byte>)
      requires Core()
      reads `chain, `sclust, `dirty, `dsect, buf, vol`disk, vol`wflag, vol`winsect, vol.win
      ensures |b| == SECTOR_SIZE * |Secs()|
    {
      BytesOf(View(), Secs())
    }

    /** The chain covers the file and the pointer. */
    ghost predicate Sized()
      requires GoodChain(vol.geo, chain)
      reads `chain, `fptr, `fsize
    {
      fptr <= SECTOR_SIZE * |Secs()| && fsize <= SECTOR_SIZE * |Secs()|
    }

    ghost predicate Positioned()
      reads `chain, `fptr, `clust, `cur
    {
      fptr > 0 ==> HoldsPrevious(vol.geo, chain, cur, clust, fptr)
    }

    /** In the middle of a sector the buffer holds that sector. */
    ghost predicate MidSector()
      requires Core() && Sized()
      reads `chain, `sclust, `dirty, `dsect, `fptr, `fsize, vol`disk, vol`wflag, vol`winsect, vol.win
    {
      fptr % SECTOR_SIZE != 0 ==> dsect == Secs()[fptr / SECTOR_SIZE]
    }

    /** What holds between calls. */
    ghost predicate Valid()
      reads `chain, `sclust, `dirty, `dsect, `fptr, `fsize, `clust, `cur, buf, vol`disk, vol`wflag, vol`winsect, vol.win
    {
      Core() && Sized() && BufferClean() && Positioned() && MidSector() && fptr <= fsize
    }

    /** The file as its user sees it. */
    ghost function Content(): (c: seq<byte>)
      requires Core() && Sized()
      reads `chain, `sclust, `dirty, `dsect, `fptr, `fsize, buf, vol`disk, vol`wflag, vol`winsect, vol.win
      ensures |c| == fsize
    {
      AllBytes()[..fsize]
    }

    /** f_open, last part: a fresh file object for the directory entry at offset `at` of the window. */
    constructor Open(v: Volume, at: nat, read: bool, write: bool, changed: bool, ghost ch: seq<nat>)
      requires v.Valid() && v.winsect != 0 && at + SZ_DIR <= SECTOR_SIZE
      requires ChainFrom(v, EntryCluster(v.win[..], at), ch)
      requires EntrySize(v.win[..], at) <= SECTOR_SIZE * |Sectors(v.geo, ch)|
      ensures fresh(buf) && vol == v && canRead == read && canWrite == write && chain == ch
      ensures Valid() && fptr == 0 && !dirty && written == changed && !error && dirSect == v.winsect && dirAt == at
      ensures fsize == EntrySize(v.win[..], at) && sclust == EntryCluster(v.win[..], at)
      ensures Content() == BytesOf(v.Logical(), Sectors(v.geo, ch))[..fsize]
    {
      vol := v;
      dirSect, dirAt := v.winsect, at;
      buf := new byte[SECTOR_SIZE];
      canRead, canWrite := read, write;
      dirty, written, error := false, changed, false;
      sclust := EntryCluster(v.win[..], at);
      fsize := EntrySize(v.win[..], at);
      fptr := 0;
      clust := 0;
      dsect := 0;
      chain := ch;
      cur := 0;
    }

    /** f_read, on a sector boundary: follow the chain across a cluster boundary. */
    method FollowRead(csect: nat)
      requires Core() && Sized() && Positioned() && fptr % SECTOR_SIZE == 0 && fptr < fsize
      requires csect == fptr / SECTOR_SIZE % vol.geo.csize
      modifies `clust, `cur, vol`disk, vol`wflag, vol`winsect, vol.win
      ensures Core() && HoldsNext(vol.geo, chain, cur, clust, fptr)
      ensures vol.Logical() == old(vol.Logical()) && (InFat1(vol.geo, vol.winsect) || vol.winsect == old(vol.winsect))
    {
      hide FatAreaOk, DataAreaOk, Sectors, NoDup, Mirrored, HoldsNext, IsChain, GoodChain, Volume.Logical, FatOf;
      vol.Facts();
      NextCluster(vol.geo, chain, cur, clust, fptr);
      if csect == 0 {
        if fptr == 0 {
          clust := sclust;
          cur := 0;
        } else {
          NotLast(vol.geo.csize, cur, |chain|);
          ChainLink(vol.Fat(), chain, cur);
          clust := vol.GetFat(clust);
          cur := cur + 1;
        }
      }
    }

    /** f_read, on a sector boundary: the current sector. */
    method AdvanceRead() returns (csect: nat, sect: nat)
      requires Core() && Sized() && Positioned() && fptr % SECTOR_SIZE == 0 && fptr < fsize
      modifies `clust, `cur, vol`disk, vol`wflag, vol`winsect, vol.win
      ensures Core() && HoldsNext(vol.geo, chain, cur, clust, fptr) && AtSector(vol.geo, chain, fptr, csect, sect)
      ensures fptr == SECTOR_SIZE * (cur * vol.geo.csize + csect) && 0 < sect
      ensures vol.Logical() == old(vol.Logical()) && Looks(vol.geo, old(Snap()), Snap())
    {
      hide Sectors, NoDup, Mirrored, AtSector, HoldsNext, IsChain, Volume.Logical, FatOf, Clust2Sect;
      csect := fptr / SECTOR_SIZE % vol.geo.csize;
      FollowRead(csect);
      PointerSector(vol.geo, |vol.disk|, chain, cur, clust, fptr);
      sect := Clust2Sect(vol.geo, clust);
      sect := sect + csect;
    }

    /** disk_read of `n` consecutive sectors into the caller's buffer. */
    method DiskRead(buff: array<byte>, at: nat, s: nat, n: nat)
      requires vol.Valid() && buff != vol.win && at + SECTOR_SIZE * n <= buff.Length
      requires vol.geo.database <= s && s + n <= |vol.disk| && !(s <= vol.winsect < s + n)
      modifies buff
      ensures forall k :: 0 <= k < n ==> SectorRun(s, n)[k] < |vol.disk|
      ensures buff[..] == Splice(old(buff[..]), at, BytesOf(vol.Logical(), SectorRun(s, n)))
    {
      hide Volume.Logical, FatAreaOk, DataAreaOk, Mirrored, Splice, BytesOf;
      ghost var d := vol.Logical();
      ReadNone(buff[..], at, d, s);
      var i := 0;
      while i < n
        invariant i <= n && forall k :: 0 <= k < i ==> SectorRun(s, i)[k] < |d|
        invariant buff[..] == Splice(old(buff[..]), at, BytesOf(d, SectorRun(s, i)))
      {
        var w := vol.ReadData(s + i);
        CopyInto(buff, at + SECTOR_SIZE * i, w);
        ReadNext(old(buff[..]), at, d, s, i);
        i := i + 1;
      }
    }

    /** Writes the dirty buffer back. */
    method FlushBuffer()
      requires Core()
      modifies `dirty, vol`disk
      ensures Core() && !dirty && View() == old(View()) && vol.Fat() == old(vol.Fat()) && Snap() == old(Snap())
      ensures old(BufferClean()) ==> BufferClean()
      ensures |vol.disk| == old(|vol.disk|)
    {
      hide Volume.Logical, FatAreaOk, DataAreaOk, Mirrored, Sectors, NoDup, IsChain, GoodChain;
      if dirty {
        vol.WriteData(dsect, buf[..]);
        dirty := false;
      }
    }

    /** Loads a sector of the file into the clean buffer. */
    method LoadBuffer(sect: nat)
      requires Core() && !dirty && sect in Secs() && sect != 0
      modifies `dsect, buf
      ensures Core() && BufferClean() && dsect == sect && View() == old(View())
    {
      hide Volume.Logical, FatAreaOk, DataAreaOk, Mirrored, Sectors, NoDup, IsChain, GoodChain;
      var w := vol.ReadData(sect);
      CopyInto(buf, 0, w);
      assert buf[..] == w;
      dsect := sect;
    }

    /** f_read, whole sectors: read straight into the caller's buffer, with the dirty buffer laid over its sector. */
    method ReadDirect(buff: array<byte>, at: nat, csect: nat, sect: nat, cc: nat)
      requires Core() && AtSector(vol.geo, chain, fptr, csect, sect) && 0 < cc <= vol.geo.csize - csect
      requires buff != vol.win && buff != buf && at + SECTOR_SIZE * cc <= buff.Length
      modifies buff
      ensures fptr + SECTOR_SIZE * cc <= |AllBytes()|
      ensures buff[..] == Splice(old(buff[..]), at, AllBytes()[fptr..fptr + SECTOR_SIZE * cc])
    {
      hide Core, Secs, View, AllBytes, Volume.Valid, Volume.Fat, Volume.Logical, AtSector, BytesOf, Splice, NoDup;
      hide GoodChain, RunAt, FileChain;
      CoreFacts();
      DirectPlace(csect, sect, cc);
      OverlaidBytes();
      ghost var b, d, w := buff[..], vol.Logical(), buf[..];
      RunRead(b, at, d, dirty, dsect, w, Secs(), fptr / SECTOR_SIZE, sect, cc);
      DiskRead(buff, at, sect, cc);
      UnsignedDistance(dsect, sect, cc);
      if dirty && (dsect - sect) % 0x1_0000_0000 < cc {
        CopyInto(buff, at + (dsect - sect) * SECTOR_SIZE, buf[..]);
      }
    }

    lemma OverlaidBytes()
      requires Core()
      ensures vol.Valid() && |vol.Logical()| == |vol.disk| && dsect < |vol.Logical()|
      ensures (forall k :: 0 <= k < |Secs()| ==> Secs()[k] < |vol.Logical()|)
      ensures AllBytes() == BytesOf(if dirty then vol.Logical()[dsect := buf[..]] else vol.Logical(), Secs())
    {
    }

    /** f_read, partial sector on a sector boundary: bring the sector into the buffer. */
    method BufferForRead(sect: nat)
      requires Core() && BufferClean() && sect in Secs() && sect != 0
      modifies `dirty, `dsect, buf, vol`disk
      ensures Core() && BufferClean() && dsect == sect && View() == old(View()) && vol.Fat() == old(vol.Fat())
      ensures Snap() == old(Snap())
    {
      hide Volume.Logical, FatAreaOk, DataAreaOk, Mirrored, Sectors, NoDup, IsChain, GoodChain, Volume.Valid;
      if dsect != sect {
        FlushBuffer();
        LoadBuffer(sect);
      }
    }

    /** What holds between two rounds of a transfer; in f_write the pointer may be ahead of the recorded size. */
    ghost predicate Writing()
      reads `chain, `sclust, `dirty, `dsect, `fptr, `fsize, `clust, `cur, buf, vol`disk, vol`wflag, vol`winsect, vol.win
    {
      Core() && Sized() && BufferClean() && Positioned() && MidSector()
    }

    /** f_read and f_write, end of a round: the pointer moves on inside the current cluster. */
    method MovePointer(n: nat)
      requires Core() && Sized() && BufferClean() && HoldsPrevious(vol.geo, chain, cur, clust, fptr + n)
      requires fptr + n <= SECTOR_SIZE * |Secs()| && fptr + n < 0x1_0000_0000
      requires (fptr + n) % SECTOR_SIZE != 0 ==> dsect == Secs()[(fptr + n) / SECTOR_SIZE]
      modifies `fptr
      ensures Writing() && fptr == old(fptr) + n && AllBytes() == old(AllBytes()) && Snap() == old(Snap())
    {
      hide Core, Secs, View, Snap, AllBytes, BufferClean, HoldsPrevious;
      fptr := fptr + n;
    }

    /** f_read, whole sectors at once, clipped at the end of the cluster. */
    method ReadSectors(buff: array<byte>, at: nat, count: nat, csect: nat, sect: nat) returns (rcnt: nat)
      requires Core() && Sized() && BufferClean() && 0 < count && fptr + SECTOR_SIZE * count <= fsize
      requires HoldsNext(vol.geo, chain, cur, clust, fptr) && AtSector(vol.geo, chain, fptr, csect, sect)
      requires fptr == SECTOR_SIZE * (cur * vol.geo.csize + csect)
      requires at + SECTOR_SIZE * count <= buff.Length && buff != buf && buff != vol.win
      modifies `fptr, buff
      ensures Valid() && 0 < rcnt <= SECTOR_SIZE * count && fptr == old(fptr) + rcnt && AllBytes() == old(AllBytes())
      ensures buff[..] == Splice(old(buff[..]), at, AllBytes()[old(fptr)..fptr])
    {
      hide Core, Secs, View, Snap, AllBytes, BufferClean, Sectors, BytesOf, Splice, HoldsNext, HoldsPrevious, AtSector;
      CoreFacts();
      AtSectorFacts(vol.geo, chain, fptr, csect, sect);
      var cc := count;
      if csect + cc > vol.geo.csize {
        cc := vol.geo.csize - csect;
      }
      ReadDirect(buff, at, csect, sect, cc);
      rcnt := SECTOR_SIZE * cc;
      MoveOn(vol.geo, chain, cur, clust, fptr, rcnt);
      MovePointer(rcnt);
    }

    /** f_read, part of the buffered sector. */
    method ReadPartial(buff: array<byte>, at: nat, btr: nat) returns (rcnt: nat)
      requires Core() && Sized() && BufferClean() && 0 < btr <= fsize - fptr
      requires HoldsNext(vol.geo, chain, cur, clust, fptr) && dsect != 0 && dsect == Secs()[fptr / SECTOR_SIZE]
      requires at + btr <= buff.Length && buff != buf && buff != vol.win
      modifies `fptr, buff
      ensures Valid() && 0 < rcnt <= btr && fptr == old(fptr) + rcnt && AllBytes() == old(AllBytes())
      ensures buff[..] == Splice(old(buff[..]), at, AllBytes()[old(fptr)..fptr])
    {
      hide Core, Secs, View, Snap, AllBytes, BufferClean, Splice, HoldsNext, HoldsPrevious, Positioned, MidSector;
      CoreFacts();
      rcnt := SECTOR_SIZE - fptr % SECTOR_SIZE;
      if rcnt > btr {
        rcnt := btr;
      }
      BufferShows(rcnt);
      CopyInto(buff, at, buf[fptr % SECTOR_SIZE..fptr % SECTOR_SIZE + rcnt]);
      MoveOn(vol.geo, chain, cur, clust, fptr, rcnt);
      StillInSector(fptr, rcnt);
      MovePointer(rcnt);
    }

    /** The buffer holds the bytes at the pointer. */
    lemma BufferShows(n: nat)
      requires Core() && BufferClean() && fptr / SECTOR_SIZE < |Secs()| && dsect != 0
      requires dsect == Secs()[fptr / SECTOR_SIZE]
      requires n <= SECTOR_SIZE - fptr % SECTOR_SIZE
      ensures fptr + n <= |AllBytes()| && AllBytes()[fptr..fptr + n] == buf[fptr % SECTOR_SIZE..fptr % SECTOR_SIZE + n]
    {
      hide Sectors, NoDup, IsChain, GoodChain, BytesOf, Volume.Logical, Volume.Fat;
      AllSectorFacts();
      SectorShows(View(), Secs(), fptr, n);
    }

    /** f_read on a sector boundary: whole sectors if at least one is wanted, otherwise part of the next one. */
    method ReadAtBoundary(buff: array<byte>, at: nat, btr: nat) returns (rcnt: nat)
      requires Valid() && 0 < btr <= fsize - fptr && at + btr <= buff.Length && buff != buf && buff != vol.win
      requires fptr % SECTOR_SIZE == 0
      modifies `clust, `cur, `dirty, `dsect, `fptr, buf, buff, vol`disk, vol`wflag, vol`winsect, vol.win
      ensures Valid() && 0 < rcnt <= btr && fptr == old(fptr) + rcnt && AllBytes() == old(AllBytes())
      ensures buff[..] == Splice(old(buff[..]), at, AllBytes()[old(fptr)..fptr])
      ensures vol.Fat() == old(vol.Fat()) && Looks(vol.geo, old(Snap()), Snap())
    {
      hide Volume.Valid, Volume.Logical, Sectors, NoDup, IsChain, GoodChain, BytesOf, Splice, HoldsNext, HoldsPrevious;
      hide AtSector, SectorRun;
      var csect, sect := AdvanceRead();
      var cc := btr / SECTOR_SIZE;
      if cc != 0 {
        rcnt := ReadSectors(buff, at, cc, csect, sect);
      } else {
        AtSectorFacts(vol.geo, chain, fptr, csect, sect);
        BufferForRead(sect);
        rcnt := ReadPartial(buff, at, btr);
      }
    }

    /** f_read, one round of the loop: transfers at least one and at most `btr` bytes. */
    method ReadSome(buff: array<byte>, at: nat, btr: nat) returns (rcnt: nat)
      requires Valid() && 0 < btr <= fsize - fptr && at + btr <= buff.Length && buff != buf && buff != vol.win
      modifies `clust, `cur, `dirty, `dsect, `fptr, buf, buff, vol`disk, vol`wflag, vol`winsect, vol.win
      ensures Valid() && 0 < rcnt <= btr && fptr == old(fptr) + rcnt && AllBytes() == old(AllBytes())
      ensures buff[..] == Splice(old(buff[..]), at, AllBytes()[old(fptr)..fptr])
      ensures vol.Fat() == old(vol.Fat()) && Looks(vol.geo, old(Snap()), Snap())
    {
      hide Core, Sectors, NoDup, BytesOf, Splice, HoldsNext, HoldsPrevious;
      if fptr % SECTOR_SIZE == 0 {
        rcnt := ReadAtBoundary(buff, at, btr);
      } else {
        CoreFacts();
        SectorFacts(fptr / SECTOR_SIZE);
        MidCluster(vol.geo, chain, cur, clust, fptr);
        rcnt := ReadPartial(buff, at, btr);
      }
    }

    /** f_read: exactly the bytes from the pointer on, up to the end of the file. */
    method Read(buff: array<byte>, btr: dword) returns (res: FResult, br: nat)
      requires Valid() && btr <= buff.Length && buff != buf && buff != vol.win
      modifies `clust, `cur, `dirty, `dsect, `fptr, buf, buff, vol`disk, vol`wflag, vol`winsect, vol.win
      ensures Valid() && Content() == old(Content()) && vol.Fat() == old(vol.Fat())
      ensures Looks(vol.geo, old(Snap()), Snap())
      ensures res == if error then IntErr else if !canRead then Denied else Ok
      ensures res == Ok ==> br == if btr < fsize - old(fptr) then btr else fsize - old(fptr)
      ensures res != Ok ==> br == 0
      ensures fptr == old(fptr) + br
      ensures buff[..] == Splice(old(buff[..]), 0, Content()[old(fptr)..fptr])
    {
      hide Core, Secs, View, Sectors, BytesOf, Splice, BufferClean, Positioned, MidSector, Looks;
      ghost var p, all, b, snap := fptr, AllBytes(), buff[..], Snap();
      EvolvesNot(vol.geo, snap);
      ReadNothing(b, all, p);
      ReadNothing(b, Content(), p);
      CoreFacts();
      br := 0;
      if error {
        return IntErr, 0;
      }
      if !canRead {
        return Denied, 0;
      }
      var remain := fsize - fptr;
      var left := if btr > remain then remain else btr;
      while left > 0
        invariant Valid() && vol.Valid() && 0 <= left <= fsize - fptr && fptr == p + br
        invariant br + left == if btr > remain then remain else btr
        invariant AllBytes() == all && vol.Fat() == old(vol.Fat()) && Looks(vol.geo, snap, Snap())
        invariant buff[..] == Splice(b, 0, all[p..fptr])
      {
        ghost var q, s := fptr, Snap();
        var rcnt := ReadSome(buff, br, left);
        LooksTwice(vol.geo, snap, s, Snap());
        ReadRounds(b, all, p, q, fptr);
        CoreFacts();
        br := br + rcnt;
        left := left - rcnt;
      }
      PartOfPrefix(all, fsize, p, fptr);
      res := Ok;
    }

    /** create_chain on behalf of the file: the cluster behind its `i`-th one (its first one if `clst` is 0).
        A new cluster joins the chain; 0 means the disk is full and 1 a reserved FAT entry. */
    method Grow(clst: dword, ghost i: nat) returns (r: dword)
      requires Core() && if chain == [] then clst == 0 else i < |chain| && clst == chain[i]
      modifies `chain, `sclust, vol`disk, vol`wflag, vol`winsect, vol`lastClust, vol`freeClust, vol`fsiFlag, vol.win
      ensures Core() && |vol.disk| == old(|vol.disk|)
      ensures r == 0 ==> NoneFree(vol.Fat())
      ensures r == 1 ==> HasReserved(vol.Fat())
      ensures r < 2 ==> chain == old(chain) && sclust == old(sclust) && vol.Fat() == old(vol.Fat())
      ensures r >= 2 ==> if old(chain) == [] then chain == [r] else i + 1 < |chain| && r == chain[i + 1]
      ensures old(Secs()) <= Secs() && old(chain) <= chain && Grew(old(vol.Fat()), old(chain), vol.Fat(), chain)
      ensures SameOutsideFat(vol.geo, old(vol.Logical()), vol.Logical())
      ensures (InFat1(vol.geo, vol.winsect) || vol.winsect == old(vol.winsect))
      ensures CountOk(old(vol.Fat()), old(vol.freeClust)) ==> CountOk(vol.Fat(), vol.freeClust)
      ensures Noted(old(vol.freeClust), old(vol.fsiFlag), vol.freeClust, vol.fsiFlag)
    {
      hide Core, FileChain, Sectors, FatAreaOk, DataAreaOk, Volume.Valid, Volume.Logical, Volume.Fat, IsChain;
      hide GoodChain, NoDup, NoneFree, HasReserved, Linked, CountOk, Grew, SameOutsideFat, InFat1;
      CoreFacts();
      ghost var fat, ch, secs := vol.Fat(), chain, Secs();
      GrowFacts(i);
      ghost var isNew;
      r, isNew := vol.NextOrNew(clst);
      ghost var fat1, d1 := vol.Fat(), vol.Logical();
      if clst == 0 && r >= 2 {
        sclust := r;
      }
      if isNew {
        StretchedFile(vol.geo, fat, |vol.disk|, old(sclust), ch, r);
        GrewByOne(fat, ch, clst, r, EndMark(vol.geo.fsType));
        chain := chain + [r];
        assert vol.Fat() == fat1 && vol.Logical() == d1;
        CoreOnNewChain(secs);
      } else {
        GrewNone(fat, ch);
        assert vol.Fat() == fat1 && vol.Logical() == d1;
        CoreOnSameChain(secs);
      }
    }

    lemma GrowFacts(i: nat)
      requires Core() && (chain != [] ==> i < |chain|)
      ensures FatAreaOk(vol.geo, |vol.disk|) && DataAreaOk(vol.geo, |vol.disk|)
      ensures FileChain(vol.geo, vol.Fat(), |vol.disk|, sclust, chain)
      ensures vol.winsect !in Secs() && if dsect == 0 then !dirty else dsect in Secs()
      ensures chain != [] ==>
        2 <= chain[i] < vol.geo.nFatent && 2 <= vol.Fat()[chain[i]] && TailOf(chain) == chain[|chain| - 1]
      ensures chain != [] && i + 1 < |chain| ==> vol.Fat()[chain[i]] == chain[i + 1] < vol.geo.nFatent
      ensures chain != [] && i + 1 >= |chain| ==> vol.Fat()[chain[i]] >= vol.geo.nFatent
    {
      hide Sectors, FatAreaOk, DataAreaOk, Volume.Logical, Volume.Fat, GoodChain, NoDup;
      vol.Facts();
      if chain != [] {
        ChainLink(vol.Fat(), chain, i);
      }
    }

    lemma CoreOnSameChain(secs: seq<nat>)
      requires vol.Valid() && FileChain(vol.geo, vol.Fat(), |vol.disk|, sclust, chain) && secs == Secs()
      requires vol.winsect !in secs || InFat1(vol.geo, vol.winsect)
      requires buf != vol.win && buf.Length == SECTOR_SIZE && if dsect == 0 then !dirty else dsect in secs
      ensures Core()
    {
      hide Sectors, Volume.Logical, Volume.Fat, IsChain, GoodChain, NoDup;
      vol.Facts();
    }

    lemma CoreOnNewChain(secs: seq<nat>)
      requires vol.Valid() && FileChain(vol.geo, vol.Fat(), |vol.disk|, sclust, chain) && secs <= Secs()
      requires InFat1(vol.geo, vol.winsect)
      requires buf != vol.win && buf.Length == SECTOR_SIZE && if dsect == 0 then !dirty else dsect in secs
      ensures Core()
    {
      hide Sectors, Volume.Logical, Volume.Fat, IsChain, GoodChain, NoDup;
      vol.Facts();
    }

    /** Growing the chain keeps the bytes of its sectors and a clean buffer. */
    method GrowData(clst: dword, ghost i: nat) returns (r: dword)
      requires Core() && BufferClean() && if chain == [] then clst == 0 else i < |chain| && clst == chain[i]
      modifies `chain, `sclust, vol`disk, vol`wflag, vol`winsect, vol`lastClust, vol`freeClust, vol`fsiFlag, vol.win
      ensures Core() && BufferClean() && old(Secs()) <= Secs() && old(AllBytes()) <= AllBytes() && old(chain) <= chain
      ensures r == 0 ==> NoneFree(vol.Fat())
      ensures r == 1 ==> HasReserved(vol.Fat()) && HasReserved(old(vol.Fat()))
      ensures r < 2 ==> chain == old(chain) && sclust == old(sclust)
      ensures r >= 2 ==> if old(chain) == [] then chain == [r] else i + 1 < |chain| && r == chain[i + 1]
      ensures Evolves(vol.geo, old(Snap()), Snap())
    {
      hide Core, Secs, View, BufferClean, AllBytes, Snap, Evolves, Volume.Valid, Volume.Logical, Volume.Fat, NoneFree;
      hide HasReserved, CountOk, Grew, SameOutsideFat, OverlaidOn, InFat1;
      CoreFacts();
      ghost var d, a, all := vol.Logical(), Snap(), AllBytes();
      BeforeGrowth();
      r := Grow(clst, i);
      GrownData(a, d, all);
    }

    /** The file before it grows: its view, its bytes and its buffer over the logical disk `d`. */
    ghost predicate OverlaidOn(a: Snapshot, d: Disk, all: seq<byte>)
      reads `dirty, `dsect, buf
    {
      && (forall k :: 0 <= k < |a.secs| ==> vol.geo.database <= a.secs[k] < |d| && a.secs[k] < |a.view|) && all == BytesOf(a.view, a.secs)
      && (dsect != 0 ==> dsect in a.secs && dsect < |d|) && (dsect == 0 ==> !dirty) && buf.Length == SECTOR_SIZE
      && a.view == (if dirty then d[dsect := buf[..]] else d) && (dsect != 0 && !dirty ==> buf[..] == d[dsect])
    }

    lemma BeforeGrowth()
      requires Core() && BufferClean()
      ensures OverlaidOn(Snap(), vol.Logical(), AllBytes())
      ensures Snap() == Snapshot(vol.Fat(), chain, Secs(), View(), vol.freeClust, vol.fsiFlag, vol.winsect)
    {
      hide Sectors, NoDup, IsChain, GoodChain, Volume.Logical, Volume.Fat, BytesOf;
      AllSectorFacts();
    }

    /** Growing changed nothing of that but the FAT. */
    lemma GrownData(a: Snapshot, d: Disk, all: seq<byte>)
      requires Core() && OverlaidOn(a, d, all) && a.secs <= Secs() && SameOutsideFat(vol.geo, d, vol.Logical())
      requires Grew(a.fat, a.ch, vol.Fat(), chain) && (CountOk(a.fat, a.count) ==> CountOk(vol.Fat(), vol.freeClust))
      requires Noted(a.count, a.flag, vol.freeClust, vol.fsiFlag)
      requires InFat1(vol.geo, vol.winsect) || vol.winsect == a.win
      ensures BufferClean() && all <= AllBytes() && Evolves(vol.geo, a, Snap())
    {
      hide Sectors, NoDup, IsChain, GoodChain, Volume.Logical, Volume.Fat, BytesOf, Grew, CountOk, InFat1;
      AllSectorFacts();
      vol.Facts();
      FatChangeInvisible(vol.geo, d, vol.Logical(), a.secs);
      assert Secs() == a.secs + Secs()[|a.secs|..];
      StretchedBytes(a.view, View(), a.secs, Secs()[|a.secs|..]);
    }

    /** A reserved entry found after the chain has grown was there before. */
    lemma ReservedBefore(a: Snapshot)
      requires Core() && Evolves(vol.geo, a, Snap()) && (a.ch == [] || IsChain(a.fat, a.ch))
      ensures HasReserved(vol.Fat()) ==> HasReserved(a.fat)
    {
      hide Sectors, NoDup, IsChain, GoodChain, View, Volume.Valid, Volume.Fat, Volume.Logical, CountOk, Grew, InFat1;
      hide HasReserved;
      GrewReserved(a.fat, a.ch, vol.Fat(), chain);
    }

    lemma ChainIsThere()
      requires Core()
      ensures chain == [] || IsChain(vol.Fat(), chain)
    {
      hide Sectors, NoDup, IsChain, GoodChain, Volume.Valid, Volume.Fat, Volume.Logical;
    }

    /** f_write, at the top of the file: its first cluster, allocated if it has none. */
    method FirstForWrite() returns (clst: dword)
      requires Core() && Sized() && BufferClean() && fptr == 0
      modifies `chain, `sclust, `clust, `cur, vol`disk, vol`wflag, vol`winsect, vol`lastClust, vol`freeClust
      modifies vol`fsiFlag, vol.win
      ensures clst != 1 ==> Core() && Sized() && BufferClean() && old(Secs()) <= Secs() && old(AllBytes()) <= AllBytes()
      ensures clst == 0 ==> Positioned() && vol.Valid() && NoneFree(vol.Fat())
      ensures clst == 1 ==> vol.Valid() && HasReserved(vol.Fat()) && HasReserved(old(vol.Fat()))
      ensures clst >= 2 ==> HoldsNext(vol.geo, chain, cur, clust, fptr)
      ensures clst != 1 ==> Evolves(vol.geo, old(Snap()), Snap())
    {
      hide Sectors, Volume.Valid, Volume.Logical, Volume.Fat, IsChain, GoodChain, NoDup, NoneFree, HasReserved;
      hide HoldsNext, Evolves;
      hide View, BytesOf, HoldsPrevious, FreeSet;
      CoreFacts();
      EvolvesNot(vol.geo, Snap());
      clst := sclust;
      if clst == 0 {
        clst := GrowData(0, 0);
        ghost var f := vol.Fat();
        sclust := clst;
        assert vol.Fat() == f;
      }
      if clst >= 2 {
        clust, cur := clst, 0;
        CoreFacts();
        NextCluster(vol.geo, chain, 0, clust, 0);
      }
    }

    /** f_write, on a later cluster boundary: the next cluster, allocated if there is none. */
    method NextForWrite() returns (clst: dword)
      requires Core() && Sized() && BufferClean() && Positioned() && 0 < fptr && fptr % SECTOR_SIZE == 0
      requires fptr / SECTOR_SIZE % vol.geo.csize == 0
      modifies `chain, `sclust, `clust, `cur, vol`disk, vol`wflag, vol`winsect, vol`lastClust, vol`freeClust
      modifies vol`fsiFlag, vol.win
      ensures clst != 1 ==> Core() && Sized() && BufferClean() && old(Secs()) <= Secs() && old(AllBytes()) <= AllBytes()
      ensures clst == 0 ==> Positioned() && vol.Valid() && NoneFree(vol.Fat())
      ensures clst == 1 ==> vol.Valid() && HasReserved(vol.Fat()) && HasReserved(old(vol.Fat()))
      ensures clst >= 2 ==> HoldsNext(vol.geo, chain, cur, clust, fptr)
      ensures clst != 1 ==> Evolves(vol.geo, old(Snap()), Snap())
    {
      hide Sectors, Volume.Valid, Volume.Logical, Volume.Fat, IsChain, GoodChain, NoDup, NoneFree, HasReserved;
      hide HoldsNext, Evolves;
      hide View, BytesOf, HoldsPrevious, FreeSet;
      CoreFacts();
      PositionedFacts();
      clst := GrowData(clust, cur);
      StillHolds(vol.geo, old(chain), chain, cur, clust, fptr);
      if clst >= 2 {
        NextCluster(vol.geo, chain, cur, clust, fptr);
        clust, cur := clst, cur + 1;
      }
    }

    lemma PositionedFacts()
      requires Positioned() && fptr > 0
      ensures cur < |chain| && clust == chain[cur]
    {
    }

    /** disk_write of `n` consecutive sectors from the caller's data. */
    method DiskWrite(s: nat, piece: seq<byte>, n: nat)
      requires vol.Valid() && vol.geo.database <= s && s + n <= |vol.disk| && !(s <= vol.winsect < s + n)
      requires SECTOR_SIZE * n <= |piece|
      modifies vol`disk
      ensures vol.Valid() && vol.Fat() == old(vol.Fat())
      ensures vol.Logical() == PutRun(old(vol.Logical()), s, piece, n)
    {
      hide Volume.Logical, FatAreaOk, DataAreaOk, Mirrored, Volume.Fat;
      ghost var d := vol.Logical();
      var i := 0;
      while i < n
        invariant i <= n && vol.Valid() && |vol.disk| == |d|
        invariant vol.Fat() == old(vol.Fat()) && vol.Logical() == PutRun(d, s, piece, i)
      {
        vol.WriteData(s + i, piece[SECTOR_SIZE * i..SECTOR_SIZE * (i + 1)]);
        i := i + 1;
      }
    }

    /** f_write, whole sectors: write them straight to the drive and refill the buffer if it held one of them. */
    method WriteDirect(piece: seq<byte>, csect: nat, sect: nat, cc: nat)
      requires Core() && !dirty && BufferClean() && AtSector(vol.geo, chain, fptr, csect, sect)
      requires 0 < cc <= vol.geo.csize - csect && |piece| == SECTOR_SIZE * cc
      modifies buf, `dirty, vol`disk
      ensures Core() && !dirty && BufferClean() && fptr + |piece| <= |AllBytes()|
      ensures AllBytes() == Splice(old(AllBytes()), fptr, piece)
      ensures Evolves(vol.geo, old(Snap()), Snap())
    {
      hide Core, Secs, View, BufferClean, AllBytes, Snap, Evolves, Volume.Valid, Volume.Logical, Volume.Fat, AtSector;
      hide Splice, PutRun, BytesOf, GoodChain, NoDup, RunAt;
      CoreFacts();
      ghost var d, a, all, secs := vol.Logical(), Snap(), AllBytes(), Secs();
      BeforeGrowth();
      DirectPlace(csect, sect, cc);
      RunWritten(d, secs, fptr / SECTOR_SIZE, sect, piece, cc);
      DiskWrite(sect, piece, cc);
      RefillBuffer(piece, sect, cc, d);
      CoreOnSameChain(secs);
      CleanBytes();
      DirectWritten(a, d, all, piece);
    }

    lemma CleanBytes()
      requires Core() && !dirty
      ensures vol.Valid() && (forall k :: 0 <= k < |Secs()| ==> Secs()[k] < |vol.Logical()|)
      ensures AllBytes() == BytesOf(vol.Logical(), Secs())
    {
    }

    /** The sectors of a direct transfer. */
    lemma DirectPlace(csect: nat, sect: nat, cc: nat)
      requires Core() && AtSector(vol.geo, chain, fptr, csect, sect) && 0 < cc <= vol.geo.csize - csect
      ensures fptr == SECTOR_SIZE * (fptr / SECTOR_SIZE) && RunAt(Secs(), fptr / SECTOR_SIZE, sect, cc) && NoDup(Secs())
      ensures fptr + SECTOR_SIZE * cc <= SECTOR_SIZE * |Secs()|
      ensures 0 < vol.geo.database <= sect && sect + cc <= |vol.disk| <= 0x1_0000_0000
      ensures !(sect <= vol.winsect < sect + cc)
      ensures FileChain(vol.geo, vol.Fat(), |vol.disk|, sclust, chain) && vol.winsect !in Secs()
      ensures (if dsect == 0 then !dirty else dsect in Secs())
      ensures dsect < |vol.disk| && |View()| == |vol.disk|
    {
      hide Sectors, NoDup, IsChain, GoodChain, Volume.Logical, Volume.Fat, AtSector, SectorRun;
      vol.Facts();
      AllSectorFacts();
      AtSectorRun(vol.geo, chain, fptr, csect, sect, cc);
      RunMember(Secs(), fptr / SECTOR_SIZE, sect, cc, vol.winsect);
    }

    /** f_write, whole sectors: the clean buffer is refilled if it held one of the sectors just written. */
    method RefillBuffer(piece: seq<byte>, sect: nat, cc: nat, ghost d: Disk)
      requires !dirty && buf.Length == SECTOR_SIZE && |piece| == SECTOR_SIZE * cc && dsect < |d| <= 0x1_0000_0000
      requires 0 < sect && sect + cc <= |d|
      requires dsect != 0 ==> buf[..] == d[dsect]
      modifies buf, `dirty
      ensures !dirty && (dsect != 0 ==> buf[..] == PutRun(d, sect, piece, cc)[dsect])
    {
      hide PutRun, Splice;
      UnsignedDistance(dsect, sect, cc);
      PutRunAt(d, sect, piece, cc, dsect);
      if (dsect - sect) % 0x1_0000_0000 < cc {
        CopyInto(buf, 0, piece[(dsect - sect) * SECTOR_SIZE..(dsect - sect) * SECTOR_SIZE + SECTOR_SIZE]);
        WholeSector(old(buf[..]), piece[(dsect - sect) * SECTOR_SIZE..(dsect - sect) * SECTOR_SIZE + SECTOR_SIZE]);
        dirty := false;
      }
    }

    /** A direct write replaced just its stretch of the bytes. */
    lemma DirectWritten(a: Snapshot, d: Disk, all: seq<byte>, piece: seq<byte>)
      requires fptr + |piece| <= |all|
      requires Core() && !dirty && a.secs == Secs() && a.ch == chain && a.fat == vol.Fat()
      requires a.count == vol.freeClust && a.flag == vol.fsiFlag
      requires a.win == vol.winsect
      requires a.view == d && |d| == |vol.disk| && AllBytes() == Splice(all, fptr, piece)
      requires forall t :: 0 <= t < |d| && t !in a.secs ==> vol.Logical()[t] == d[t]
      requires dsect != 0 ==> buf[..] == vol.Logical()[dsect]
      ensures BufferClean() && fptr + |piece| <= |AllBytes()| && AllBytes() == Splice(all, fptr, piece)
      ensures Evolves(vol.geo, a, Snap())
    {
      hide Sectors, NoDup, IsChain, GoodChain, Volume.Logical, Volume.Fat, BytesOf, Grew, CountOk, Splice, FileChain;
      GrewNone(a.fat, a.ch);
    }

    /** f_write, partial sector on a sector boundary: load the sector unless it lies behind the end of the file. */
    method BufferForWrite(sect: nat)
      requires Core() && !dirty && BufferClean() && sect in Secs() && sect != 0
      modifies `dsect, buf
      ensures Core() && dsect == sect && View() == old(View())
      ensures fptr < fsize ==> BufferClean()
    {
      hide Volume.Valid, Volume.Logical, Sectors, NoDup, IsChain, GoodChain;
      if dsect != sect {
        if fptr < fsize {
          LoadBuffer(sect);
        }
      }
      dsect := sect;
    }

    /** f_write, part of the buffered sector. Where the buffer shows its sector exactly these bytes change; at the
        growing edge it may be stale, and the bytes behind the new end are arbitrary. */
    method PutBuffered(piece: seq<byte>)
      requires Core() && dsect != 0 && fptr / SECTOR_SIZE < |Secs()| && dsect == Secs()[fptr / SECTOR_SIZE]
      requires 0 < |piece| <= SECTOR_SIZE - fptr % SECTOR_SIZE
      requires View()[dsect] == buf[..] || fptr % SECTOR_SIZE == 0
      modifies `dirty, buf
      ensures Core() && BufferClean() && dirty && Evolves(vol.geo, old(Snap()), Snap())
      ensures fptr + |piece| <= |AllBytes()|
      ensures old(View()[dsect] == buf[..]) ==> AllBytes() == Splice(old(AllBytes()), fptr, piece)
      ensures AllBytes()[..fptr + |piece|] == old(AllBytes())[..fptr] + piece
    {
      hide Volume.Valid, Volume.Logical, Volume.Fat, Sectors, NoDup, IsChain, GoodChain, BytesOf, Splice, Grew, CountOk;
      GrewNone(vol.Fat(), chain);
      var off := fptr % SECTOR_SIZE;
      ghost var q, d, secs, w := fptr / SECTOR_SIZE, View(), Secs(), buf[..];
      CopyInto(buf, off, piece);
      dirty := true;
      assert View() == d[dsect := buf[..]];
      PutInSector(d, secs, q, w, off, piece);
    }

    /** Whole sectors from a sector boundary on end in the cluster, on a boundary. */
    static lemma SectorsInCluster(p: nat, cur: nat, csize: nat, csect: nat, cc: nat)
      requires p == SECTOR_SIZE * (cur * csize + csect) && cc <= csize - csect
      ensures p + SECTOR_SIZE * cc <= SECTOR_SIZE * (cur * csize + csize) && (p + SECTOR_SIZE * cc) % SECTOR_SIZE == 0
    {
      Remainder(p + SECTOR_SIZE * cc, SECTOR_SIZE, cur * csize + csect + cc, 0);
    }

    /** f_write, whole sectors at once, clipped at the end of the cluster. */
    method WriteSectors(data: seq<byte>, count: nat, csect: nat, sect: nat) returns (wcnt: nat)
      requires Core() && Sized() && !dirty && BufferClean() && 0 < count && SECTOR_SIZE * count <= |data|
      requires fptr + |data| < 0x1_0000_0000
      requires HoldsNext(vol.geo, chain, cur, clust, fptr) && AtSector(vol.geo, chain, fptr, csect, sect)
      requires fptr == SECTOR_SIZE * (cur * vol.geo.csize + csect)
      modifies `fptr, buf, `dirty, vol`disk
      ensures Writing() && 0 < wcnt <= |data| && fptr == old(fptr) + wcnt
      ensures RoundDone(old(AllBytes()), fsize, old(fptr), data[..wcnt], AllBytes())
      ensures Evolves(vol.geo, old(Snap()), Snap())
    {
      hide Core, Secs, View, Snap, AllBytes, BufferClean, Sectors, BytesOf, Splice, HoldsNext, HoldsPrevious, AtSector;
      hide Evolves, RoundDone, Volume.Valid, Volume.Fat, GoodChain;
      CoreFacts();
      AtSectorFacts(vol.geo, chain, fptr, csect, sect);
      var cc := count;
      if csect + cc > vol.geo.csize {
        cc := vol.geo.csize - csect;
      }
      wcnt := SECTOR_SIZE * cc;
      ghost var all := AllBytes();
      WriteDirect(data[..wcnt], csect, sect, cc);
      RoundInPlace(all, fsize, fptr, data[..wcnt]);
      SectorsInCluster(fptr, cur, vol.geo.csize, csect, cc);
      MoveOn(vol.geo, chain, cur, clust, fptr, wcnt);
      MovePointer(wcnt);
    }

    /** f_write, part of the buffered sector. */
    method WritePartial(data: seq<byte>) returns (wcnt: nat)
      requires Core() && Sized() && 0 < |data| && fptr + |data| < 0x1_0000_0000
      requires HoldsNext(vol.geo, chain, cur, clust, fptr) && fptr / SECTOR_SIZE < |Secs()|
      requires dsect != 0 && dsect == Secs()[fptr / SECTOR_SIZE]
      requires View()[dsect] == buf[..] || (fptr % SECTOR_SIZE == 0 && fsize <= fptr)
      modifies `fptr, buf, `dirty
      ensures Writing() && 0 < wcnt <= |data| && fptr == old(fptr) + wcnt
      ensures RoundDone(old(AllBytes()), fsize, old(fptr), data[..wcnt], AllBytes())
      ensures Evolves(vol.geo, old(Snap()), Snap())
    {
      hide Core, Secs, View, Snap, AllBytes, BufferClean, Sectors, BytesOf, Splice, HoldsNext, HoldsPrevious, Evolves;
      hide RoundDone, Volume.Valid, Volume.Fat, GoodChain, Positioned, MidSector;
      CoreFacts();
      SectorFacts(fptr / SECTOR_SIZE);
      wcnt := SECTOR_SIZE - fptr % SECTOR_SIZE;
      if wcnt > |data| {
        wcnt := |data|;
      }
      ghost var all, shown := AllBytes(), View()[dsect] == buf[..];
      PutBuffered(data[..wcnt]);
      if shown {
        RoundInPlace(all, fsize, fptr, data[..wcnt]);
      } else {
        RoundAtEdge(all, fsize, fptr, data[..wcnt], AllBytes());
      }
      MoveOn(vol.geo, chain, cur, clust, fptr, wcnt);
      StillInSector(fptr, wcnt);
      MovePointer(wcnt);
    }

    lemma StillInSector(p: nat, n: nat)
      requires 0 < n <= SECTOR_SIZE - p % SECTOR_SIZE
      ensures (p + n) % SECTOR_SIZE != 0 ==> (p + n) / SECTOR_SIZE == p / SECTOR_SIZE
      ensures p + n <= SECTOR_SIZE * (p / SECTOR_SIZE + 1)
    {
    }

    /** f_write, on a sector boundary: the current cluster, then the current sector with the buffer flushed.
        `clst` is 0 when the disk is full and 1 when the FAT holds a reserved entry. */
    method AdvanceWrite() returns (clst: dword, csect: nat, sect: nat)
      requires Core() && Sized() && BufferClean() && Positioned() && fptr % SECTOR_SIZE == 0
      modifies `chain, `sclust, `clust, `cur, `dirty, vol`disk, vol`wflag, vol`winsect, vol`lastClust, vol`freeClust
      modifies vol`fsiFlag, vol.win
      ensures clst != 1 ==> Core() && Sized() && BufferClean() && old(AllBytes()) <= AllBytes()
      ensures clst == 0 ==> Positioned() && vol.Valid() && NoneFree(vol.Fat())
      ensures clst == 1 ==> vol.Valid() && HasReserved(vol.Fat()) && HasReserved(old(vol.Fat()))
      ensures clst >= 2 ==>
        !dirty && HoldsNext(vol.geo, chain, cur, clust, fptr) && AtSector(vol.geo, chain, fptr, csect, sect)
      ensures clst >= 2 ==> fptr == SECTOR_SIZE * (cur * vol.geo.csize + csect) && 0 < sect
      ensures clst != 1 ==> Evolves(vol.geo, old(Snap()), Snap())
    {
      hide Sectors, View, IsChain, GoodChain, NoDup, NoneFree, HasReserved, HoldsNext, AtSector, Evolves, BytesOf;
      hide FreeSet, FatAreaOk, DataAreaOk, Volume.Logical, Volume.Fat;
      CoreFacts();
      EvolvesNot(vol.geo, Snap());
      NextCluster(vol.geo, chain, cur, clust, fptr);
      csect := fptr / SECTOR_SIZE % vol.geo.csize;
      sect := 0;
      clst := 2;
      if csect == 0 {
        if fptr == 0 {
          clst := FirstForWrite();
        } else {
          clst := NextForWrite();
        }
        if clst < 2 {
          return;
        }
      }
      FlushBuffer();
      PointerSector(vol.geo, |vol.disk|, chain, cur, clust, fptr);
      sect := Clust2Sect(vol.geo, clust);
      sect := sect + csect;
    }

    /** f_write, one round of the loop. */
    method WriteSome(data: seq<byte>) returns (clst: dword, wcnt: nat)
      requires Writing() && 0 < |data| && fptr + |data| < 0x1_0000_0000
      modifies `chain, `sclust, `clust, `cur, `fptr, `dsect, `dirty, buf, vol`disk, vol`wflag, vol`winsect
      modifies vol`lastClust, vol`freeClust, vol`fsiFlag, vol.win
      ensures clst == 0 ==> Writing() && wcnt == 0 && vol.Valid() && NoneFree(vol.Fat()) && fptr == old(fptr)
      ensures clst == 0 ==> old(AllBytes()) <= AllBytes()
      ensures clst == 1 ==> vol.Valid() && HasReserved(vol.Fat()) && HasReserved(old(vol.Fat()))
      ensures clst >= 2 ==> Writing() && 0 < wcnt <= |data| && fptr == old(fptr) + wcnt
      ensures clst >= 2 ==> RoundDone(old(AllBytes()), fsize, old(fptr), data[..wcnt], AllBytes())
      ensures clst != 1 ==> Evolves(vol.geo, old(Snap()), Snap())
    {
      hide Core, Sectors, View, BytesOf, HoldsNext, HoldsPrevious, AtSector, Evolves, RoundDone, NoneFree, HasReserved;
      if fptr % SECTOR_SIZE == 0 {
        clst, wcnt := WriteAtBoundary(data);
      } else {
        CoreFacts();
        SectorFacts(fptr / SECTOR_SIZE);
        BufferShown();
        MidCluster(vol.geo, chain, cur, clust, fptr);
        clst := 2;
        wcnt := WritePartial(data);
      }
    }

    lemma BufferShown()
      requires Core() && BufferClean() && dsect != 0
      ensures dsect < |View()| && View()[dsect] == buf[..]
    {
    }

    method WriteAtBoundary(data: seq<byte>) returns (clst: dword, wcnt: nat)
      requires Writing() && 0 < |data| && fptr + |data| < 0x1_0000_0000 && fptr % SECTOR_SIZE == 0
      modifies `chain, `sclust, `clust, `cur, `fptr, `dsect, `dirty, buf, vol`disk, vol`wflag, vol`winsect
      modifies vol`lastClust, vol`freeClust, vol`fsiFlag, vol.win
      ensures clst == 0 ==> Writing() && wcnt == 0 && vol.Valid() && NoneFree(vol.Fat()) && fptr == old(fptr)
      ensures clst == 0 ==> old(AllBytes()) <= AllBytes()
      ensures clst == 1 ==> vol.Valid() && HasReserved(vol.Fat()) && HasReserved(old(vol.Fat()))
      ensures clst >= 2 ==> Writing() && 0 < wcnt <= |data| && fptr == old(fptr) + wcnt
      ensures clst >= 2 ==> RoundDone(old(AllBytes()), fsize, old(fptr), data[..wcnt], AllBytes())
      ensures clst != 1 ==> Evolves(vol.geo, old(Snap()), Snap())
    {
      hide Core, Sectors, View, BytesOf, HoldsNext, HoldsPrevious, AtSector, Evolves, RoundDone, NoneFree, HasReserved;
      ghost var a, all, sz := Snap(), AllBytes(), fsize;
      var csect, sect;
      clst, csect, sect := AdvanceWrite();
      wcnt := 0;
      if clst >= 2 {
        ghost var b, grown := Snap(), AllBytes();
        var cc := |data| / SECTOR_SIZE;
        if cc != 0 {
          wcnt := WriteSectors(data, cc, csect, sect);
        } else {
          CoreFacts();
          AtSectorFacts(vol.geo, chain, fptr, csect, sect);
          BufferForWrite(sect);
          if fptr < fsize { BufferShown(); }
          wcnt := WritePartial(data);
        }
        CoreFacts();
        EvolvesTwice(vol.geo, a, b, Snap());
        RoundAfterGrowth(all, grown, fsize, old(fptr), data[..wcnt], AllBytes());
      }
    }

    /** f_write, the loop: `clst` is 1 after a reserved FAT entry and 0 when the disk got full. */
    method WriteAll(data: seq<byte>) returns (clst: dword, bw: nat)
      requires Valid() && fptr + |data| < 0x1_0000_0000
      modifies `chain, `sclust, `clust, `cur, `fptr, `dsect, `dirty, buf, vol`disk, vol`wflag, vol`winsect
      modifies vol`lastClust, vol`freeClust, vol`fsiFlag, vol.win
      ensures bw <= |data|
      ensures clst != 1 ==> Writing() && fptr == old(fptr) + bw && Max(fsize, fptr) <= |AllBytes()|
      ensures clst != 1 ==> AllBytes()[..Max(fsize, fptr)] == Overwrite(old(Content()), old(fptr), data[..bw])
      ensures clst != 1 ==> Evolves(vol.geo, old(Snap()), Snap())
      ensures clst == 0 ==> vol.Valid() && NoneFree(vol.Fat())
      ensures clst == 1 ==> vol.Valid() && HasReserved(vol.Fat()) && HasReserved(old(vol.Fat()))
      ensures clst >= 2 ==> bw == |data|
    {
      hide Core, Secs, Sectors, View, BytesOf, AllBytes, Overwrite, Evolves, RoundDone, NoneFree, HasReserved;
      hide BufferClean, Positioned, MidSector, GoodChain, Volume.Valid, Volume.Fat, Volume.Logical;
      ghost var a, p, c := Snap(), fptr, Content();
      EvolvesNot(vol.geo, a);
      ChainIsThere();
      WriteNothing(c, p, data);
      bw := 0;
      clst := 2;
      while bw < |data|
        invariant Writing() && bw <= |data| && fptr == p + bw && clst >= 2
        invariant Max(fsize, fptr) <= |AllBytes()| && AllBytes()[..Max(fsize, fptr)] == Overwrite(c, p, data[..bw])
        invariant Evolves(vol.geo, a, Snap())
      {
        ghost var b, all := Snap(), AllBytes();
        ReservedBefore(a);
        var wcnt;
        clst, wcnt := WriteSome(data[bw..]);
        if clst == 1 {
          return;
        }
        CoreFacts();
        EvolvesTwice(vol.geo, a, b, Snap());
        if clst == 0 {
          PrefixOfGrown(all, AllBytes(), Max(fsize, fptr));
          return;
        }
        WriteRounds(c, p, data, bw, wcnt, all, fsize, AllBytes());
        bw := bw + wcnt;
      }
    }

    /** f_write: the written bytes replace exactly the stretch behind the pointer. Fewer than asked for are written only
        when the disk is full, and none at all when the size would reach 4 GB. */
    method Write(data: seq<byte>) returns (res: FResult, bw: nat)
      requires Valid() && |data| < 0x1_0000_0000
      modifies this, buf, vol`disk, vol`wflag, vol`winsect, vol`lastClust, vol`freeClust, vol`fsiFlag, vol.win
      ensures old(error) || !canWrite ==> res == if old(error) then IntErr else Denied
      ensures old(error) || !canWrite ==>
        bw == 0 && Valid() && Snap() == old(Snap()) && fptr == old(fptr) && fsize == old(fsize)
      ensures old(error) || !canWrite ==> error == old(error) && Content() == old(Content())
      ensures !old(error) && canWrite ==> res == Ok || (res == IntErr && error)
      ensures !old(error) && res == IntErr ==> vol.Valid() && HasReserved(vol.Fat()) && HasReserved(old(vol.Fat()))
      ensures res == Ok ==> Valid() && bw <= |data| && fptr == old(fptr) + bw && written && !error
      ensures res == Ok ==> Content() == Overwrite(old(Content()), old(fptr), data[..bw])
      ensures res == Ok && bw < |data| ==> old(fsize) + |data| >= 0x1_0000_0000 || (vol.Valid() && NoneFree(vol.Fat()))
      ensures res == Ok && old(fsize) + |data| >= 0x1_0000_0000 ==> bw == 0
      ensures res == Ok ==> Evolves(vol.geo, old(Snap()), Snap())
    {
      hide Core, Secs, Sectors, View, BytesOf, Evolves, NoneFree, HasReserved, BufferClean, Positioned, MidSector;
      hide AllBytes, Snap, Volume.Valid, Volume.Fat, Volume.Logical;
      bw := 0;
      if error {
        return IntErr, 0;
      }
      if !canWrite {
        return Denied, 0;
      }
      ghost var c, p := Content(), fptr;
      var btw := |data|;
      if (fsize + btw) % 0x1_0000_0000 < fsize {
        btw := 0;
      }
      var clst;
      clst, bw := WriteAll(data[..btw]);
      if clst == 1 {
        error := true;
        return IntErr, bw;
      }
      assert data[..btw][..bw] == data[..bw];
      CommitSize();
      res := Ok;
    }

    /** f_write, last step: the recorded size follows the pointer. */
    method CommitSize()
      requires Writing()
      modifies `fsize, `written
      ensures Valid() && written && fsize == Max(old(fsize), fptr) && fsize <= |AllBytes()|
      ensures AllBytes() == old(AllBytes()) && Snap() == old(Snap()) && Content() == AllBytes()[..fsize]
    {
      hide Core, Sectors, View, BytesOf;
      if fptr > fsize {
        fsize := fptr;
      }
      written := true;
    }

    /** What every step of f_lseek keeps: the bytes of the sectors it had, and everything but its own growth. */
    ghost predicate Seeking(a: Snapshot, all: seq<byte>)
      reads `chain, `sclust, `dirty, `dsect, `fsize, buf, vol`disk, vol`wflag, vol`winsect, vol`freeClust,
            vol`fsiFlag, vol.win
    {
      Core() && BufferClean() && fsize <= SECTOR_SIZE * |Secs()| && all <= AllBytes() && Evolves(vol.geo, a, Snap())
    }

    lemma SeekingOn(a: Snapshot, b: Snapshot, all: seq<byte>)
      requires Core() && Evolves(vol.geo, a, b) && Evolves(vol.geo, b, Snap())
      ensures Evolves(vol.geo, a, Snap())
    {
      CoreFacts();
      EvolvesTwice(vol.geo, a, b, Snap());
    }

    /** f_lseek, the start of the walk when it begins at the top of the file: the first cluster, created if there is
        none. */
    method SeekTop(ghost a: Snapshot, ghost all: seq<byte>) returns (clst: dword)
      requires Seeking(a, all) && fptr == 0
      modifies `chain, `sclust, `clust, `cur, `fptr, vol`disk, vol`wflag, vol`winsect, vol`lastClust, vol`freeClust
      modifies vol`fsiFlag, vol.win
      ensures Seeking(a, all) && fptr == 0
      ensures clst == 0 ==> NoneFree(vol.Fat()) && chain == []
      ensures clst == 1 ==> HasReserved(vol.Fat())
      ensures clst >= 2 ==> AtCluster(vol.geo, chain, cur, clst, fptr) && clust == clst
    {
      hide Sectors, View, BytesOf, IsChain, GoodChain, NoDup, NoneFree, HasReserved, Evolves, Volume.Valid, Volume.Fat;
      hide Volume.Logical;
      CoreFacts();
      clst := sclust;
      if clst == 0 {
        ghost var b := Snap();
        clst := GrowData(0, 0);
        CoreFacts();
        SeekingOn(a, b, all);
        if clst == 1 {
          return;
        }
        sclust := clst;
      }
      clust, cur := clst, 0;
    }

    /** f_lseek, one step of the walk: the next cluster, forced into existence in write mode. */
    method SeekNext(ghost a: Snapshot, ghost all: seq<byte>, ghost ofs: nat) returns (clst: dword)
      requires Seeking(a, all) && AtCluster(vol.geo, chain, cur, clust, fptr) && ofs > vol.geo.csize * SECTOR_SIZE
      requires fptr + ofs < 0x1_0000_0000 && (canWrite || fptr + ofs <= fsize)
      modifies `chain, `sclust, `clust, `cur, `fptr, vol`disk, vol`wflag, vol`winsect, vol`lastClust, vol`freeClust
      modifies vol`fsiFlag, vol.win
      ensures Seeking(a, all)
      ensures clst == 0 ==>
        canWrite && NoneFree(vol.Fat()) && AtCluster(vol.geo, chain, cur, clust, fptr) && fptr == old(fptr)
      ensures clst == 1 ==> HasReserved(vol.Fat())
      ensures clst >= 2 ==>
        AtCluster(vol.geo, chain, cur, clust, fptr) && clust == clst && fptr == old(fptr) + vol.geo.csize * SECTOR_SIZE
    {
      hide Core, Sectors, View, BytesOf, BufferClean, IsChain, GoodChain, NoDup, NoneFree, HasReserved, Evolves;
      hide AtCluster, Volume.Valid, Volume.Fat, Volume.Logical;
      CoreFacts();
      ghost var b := Snap();
      AtClusterFacts();
      if canWrite {
        clst := GrowData(clust, cur);
        StillAtCluster(vol.geo, old(chain), chain, cur, clust, fptr);
      } else {
        clst := FollowSeek(ofs);
        LooksEvolves(vol.geo, b, Snap());
      }
      CoreFacts();
      SeekingOn(a, b, all);
      if clst >= 2 {
        NextAtCluster(vol.geo, chain, cur, clust, fptr);
        clust, cur := clst, cur + 1;
        fptr := fptr + vol.geo.csize * SECTOR_SIZE;
      }
    }

    lemma AtClusterFacts()
      requires AtCluster(vol.geo, chain, cur, clust, fptr)
      ensures cur < |chain| && clust == chain[cur] && chain != []
    {
    }

    /** f_lseek in read mode follows the chain through the FAT. */
    method FollowSeek(ghost ofs: nat) returns (clst: dword)
      requires Core() && BufferClean() && AtCluster(vol.geo, chain, cur, clust, fptr)
      requires ofs > vol.geo.csize * SECTOR_SIZE
      requires fptr + ofs <= fsize <= SECTOR_SIZE * |Secs()|
      modifies vol`disk, vol`wflag, vol`winsect, vol.win
      ensures Core() && BufferClean() && Looks(vol.geo, old(Snap()), Snap())
      ensures cur + 1 < |chain| && clst == chain[cur + 1] && clst >= 2
    {
      hide Sectors, IsChain, GoodChain, NoDup, Volume.Fat, Volume.Logical, FatAreaOk, DataAreaOk, AtCluster;
      CoreFacts();
      AtClusterFacts();
      GoesOn(vol.geo, chain, cur, clust, fptr, ofs);
      ChainLink(vol.Fat(), chain, cur);
      ChainLink(vol.Fat(), chain, cur + 1);
      clst := vol.GetFat(clust);
      vol.Facts();
    }

    /** f_lseek, the cluster following loop. The rest `left` of the offset ends up inside the current cluster; when the
        disk gets full it is clipped to the end of the last one. */
    method SeekWalk(ghost a: Snapshot, ghost all: seq<byte>, clst0: dword, ofs: nat)
      returns (clst: dword, left: nat, ghost full: bool)
      requires Seeking(a, all) && AtCluster(vol.geo, chain, cur, clust, fptr) && clst0 == clust && 0 < ofs && clst0 >= 2
      requires fptr + ofs < 0x1_0000_0000 && (canWrite || fptr + ofs <= fsize)
      modifies `chain, `sclust, `clust, `cur, `fptr, vol`disk, vol`wflag, vol`winsect, vol`lastClust, vol`freeClust
      modifies vol`fsiFlag, vol.win
      ensures Seeking(a, all)
      ensures clst == 1 ==> HasReserved(vol.Fat())
      ensures clst != 1 ==> AtCluster(vol.geo, chain, cur, clust, fptr) && 0 < left <= vol.geo.csize * SECTOR_SIZE
      ensures clst != 1 && !full ==> clst == clust && fptr + left == old(fptr) + ofs
      ensures full ==> left % SECTOR_SIZE == 0 && canWrite && NoneFree(vol.Fat()) && fptr + left < old(fptr) + ofs
    {
      hide Seeking, AtCluster, NoneFree, HasReserved, Volume.Valid, Volume.Fat, Volume.Logical;
      SeekingFacts(a, all);
      var bcs := vol.geo.csize * SECTOR_SIZE;
      clst, left, full := clst0, ofs, false;
      while left > bcs
        invariant Seeking(a, all) && vol.Valid() && clst == clust && clst >= 2 && 0 < left && !full
        invariant AtCluster(vol.geo, chain, cur, clust, fptr) && fptr + left == old(fptr) + ofs
        decreases left
      {
        clst := SeekNext(a, all, left);
        SeekingFacts(a, all);
        if canWrite && clst == 0 {
          left := bcs;
          full := true;
          break;
        }
        if clst == 1 {
          return;
        }
        left := left - bcs;
      }
    }

    lemma SeekingFacts(a: Snapshot, all: seq<byte>)
      requires Seeking(a, all)
      ensures Core() && vol.Valid() && BufferClean() && 0 < vol.geo.csize <= 128 && GoodChain(vol.geo, chain)
      ensures fsize <= SECTOR_SIZE * |Secs()|
    {
    }

    /** f_lseek, last step: the buffer follows a pointer in the middle of another sector, the size a pointer behind
        it. */
    method SeekBuffer(ghost a: Snapshot, ghost all: seq<byte>, nsect: nat)
      requires Seeking(a, all) && Sized() && Positioned()
      requires fptr % SECTOR_SIZE != 0 ==> nsect == Secs()[fptr / SECTOR_SIZE]
      modifies `dsect, `dirty, `fsize, `written, buf, vol`disk
      ensures Seeking(a, all) && Valid() && fsize == Max(old(fsize), fptr) && AllBytes() == old(AllBytes())
      ensures written == (old(written) || fptr > old(fsize))
      ensures vol.Valid() && old(vol.Valid()) && vol.Fat() == old(vol.Fat())
    {
      hide Core, Secs, View, Snap, AllBytes, BufferClean, Seeking, Positioned, Volume.Valid, Volume.Fat;
      SeekingFacts(a, all);
      if fptr % SECTOR_SIZE != 0 {
        SectorFacts(fptr / SECTOR_SIZE);
        if nsect != dsect {
          BufferForSeek(a, all, nsect);
        }
      }
      ReachPointer(a, all);
    }

    /** f_lseek: the buffer is written back and filled with sector `nsect`. */
    method BufferForSeek(ghost a: Snapshot, ghost all: seq<byte>, nsect: nat)
      requires Seeking(a, all) && nsect in Secs() && nsect != 0
      modifies `dsect, `dirty, buf, vol`disk
      ensures Seeking(a, all) && AllBytes() == old(AllBytes()) && dsect == nsect && vol.Valid() && old(vol.Valid())
      ensures vol.Fat() == old(vol.Fat())
    {
      hide Sectors, BytesOf, Evolves, Volume.Valid, Volume.Fat, Volume.Logical, NoDup, IsChain, GoodChain;
      CoreFacts();
      FlushBuffer();
      LoadBuffer(nsect);
    }

    /** f_lseek: the recorded size follows a pointer behind it. */
    method ReachPointer(ghost a: Snapshot, ghost all: seq<byte>)
      requires Seeking(a, all) && Sized() && Positioned()
      requires (fptr % SECTOR_SIZE != 0 ==> dsect == Secs()[fptr / SECTOR_SIZE])
      modifies `fsize, `written
      ensures Seeking(a, all) && Valid() && fsize == Max(old(fsize), fptr) && AllBytes() == old(AllBytes())
      ensures written == (old(written) || fptr > old(fsize))
    {
      hide Core, Secs, View, Snap, AllBytes, BufferClean, Positioned, Evolves, Volume.Valid;
      if fptr > fsize {
        fsize := fptr;
        written := true;
      }
    }

    /** f_lseek, the cluster to walk from: the current one when the target is not in front of it, else the first one. */
    method SeekStart(ghost a: Snapshot, ghost all: seq<byte>, ofs: nat) returns (clst: dword, left: nat)
      requires Seeking(a, all) && Positioned() && 0 < ofs < 0x1_0000_0000
      modifies `chain, `sclust, `clust, `cur, `fptr, vol`disk, vol`wflag, vol`winsect, vol`lastClust, vol`freeClust
      modifies vol`fsiFlag, vol.win
      ensures Seeking(a, all)
      ensures clst == 0 ==> NoneFree(vol.Fat()) && fptr == 0 && chain == []
      ensures clst == 1 ==> HasReserved(vol.Fat())
      ensures clst >= 2 ==>
        AtCluster(vol.geo, chain, cur, clust, fptr) && clst == clust && 0 < left && fptr + left == ofs
    {
      hide Seeking, AtCluster, NoneFree, HasReserved, HoldsPrevious, Volume.Valid, Volume.Fat, Volume.Logical;
      SeekingFacts(a, all);
      var ifptr := fptr;
      var bcs := vol.geo.csize * SECTOR_SIZE;
      fptr := 0;
      left := ofs;
      if ifptr > 0 {
        ClusterOfPointer(vol.geo, chain, cur, clust, ifptr);
      }
      if ifptr > 0 && (ofs - 1) / bcs >= (ifptr - 1) / bcs {
        RoundDownBelow(ofs - 1, ifptr - 1, bcs);
        fptr := (ifptr - 1) / bcs * bcs;
        left := left - fptr;
        clst := clust;
        CurrentClusterValid(a, all);
      } else {
        clst := SeekTop(a, all);
      }
    }

    lemma ClusterSect()
      requires vol.Valid() && GoodChain(vol.geo, chain) && AtCluster(vol.geo, chain, cur, clust, fptr)
      ensures 2 <= clust < vol.geo.nFatent < 0x1_0000_0000 && Clust2Sect(vol.geo, clust) == ClusterStart(vol.geo, clust)
    {
      vol.Facts();
      Clust2SectStart(vol.geo, |vol.disk|, clust);
    }

    lemma EmptyChain(a: Snapshot, all: seq<byte>)
      requires Seeking(a, all) && chain == []
      ensures fsize == 0
    {
    }

    lemma CurrentClusterValid(a: Snapshot, all: seq<byte>)
      requires Seeking(a, all) && AtCluster(vol.geo, chain, cur, clust, fptr)
      ensures clust >= 2
    {
    }

    /** f_lseek, pointer: moves it to `ofs`, or to the end of the last cluster when the disk gets full, and finds its
        sector. */
    method SeekPointer(ghost a: Snapshot, ghost all: seq<byte>, ofs: nat) returns (st: dword, nsect: nat)
      requires Seeking(a, all) && Positioned() && ofs < 0x1_0000_0000 && (canWrite || ofs <= fsize)
      modifies `chain, `sclust, `clust, `cur, `fptr, vol`disk, vol`wflag, vol`winsect, vol`lastClust, vol`freeClust
      modifies vol`fsiFlag, vol.win
      ensures Seeking(a, all)
      ensures st == 1 ==> HasReserved(vol.Fat())
      ensures st != 1 ==> Sized() && Positioned() && fptr <= ofs
      ensures st != 1 && fptr % SECTOR_SIZE != 0 ==> nsect == Secs()[fptr / SECTOR_SIZE]
      ensures st != 1 && fptr < ofs ==> canWrite && NoneFree(vol.Fat())
    {
      hide Seeking, AtCluster, NoneFree, HasReserved, HoldsPrevious, Volume.Valid, Volume.Fat, Volume.Logical, Sectors;
      hide Clust2Sect;
      SeekingFacts(a, all);
      nsect := 0;
      st := 2;
      if ofs == 0 {
        fptr := 0;
        return;
      }
      var left;
      st, left := SeekStart(a, all, ofs);
      SeekingFacts(a, all);
      if st < 2 {
        if st == 0 {
          EmptyChain(a, all);
        }
        return;
      }
      ghost var full;
      st, left, full := SeekWalk(a, all, st, left);
      if st == 1 {
        return;
      }
      SeekingFacts(a, all);
      InsideCluster(vol.geo, chain, cur, clust, fptr, left);
      ClusterSect();
      fptr := fptr + left;
      if left % SECTOR_SIZE != 0 {
        nsect := Clust2Sect(vol.geo, st);
        nsect := nsect + left / SECTOR_SIZE;
      }
    }

    lemma SeekReserved(a: Snapshot, all: seq<byte>)
      requires Seeking(a, all) && (a.ch == [] || IsChain(a.fat, a.ch)) && HasReserved(vol.Fat())
      ensures HasReserved(a.fat)
    {
      hide Core, BufferClean, HasReserved, IsChain, Evolves, Volume.Valid, Volume.Fat, Volume.Logical;
      ReservedBefore(a);
    }

    lemma SeekingNow()
      requires Core() && BufferClean() && fsize <= SECTOR_SIZE * |Secs()|
      ensures Seeking(Snap(), AllBytes())
    {
      EvolvesNot(vol.geo, Snap());
    }

    /** f_lseek: moves the pointer, in write mode even behind the end of the file, which then grows. Existing bytes
        stay. It stops short of the target only when the disk is full. */
    method Lseek(ofs: dword) returns (res: FResult)
      requires Valid()
      modifies this, buf, vol`disk, vol`wflag, vol`winsect, vol`lastClust, vol`freeClust, vol`fsiFlag, vol.win
      ensures old(error) ==>
        res == IntErr && Valid() && Snap() == old(Snap()) && fptr == old(fptr) && fsize == old(fsize)
      ensures !old(error) ==> (res == Ok && !error) || (res == IntErr && error)
      ensures !old(error) && res == IntErr ==> vol.Valid() && HasReserved(vol.Fat()) && HasReserved(old(vol.Fat()))
      ensures res == Ok ==> Valid() && fsize == Max(old(fsize), fptr) && written == (old(written) || fptr > old(fsize))
      ensures res == Ok ==> Content()[..old(fsize)] == old(Content())
      ensures res == Ok ==> var target := if ofs > old(fsize) && !canWrite then old(fsize) else ofs;
        fptr == target || (fptr < target && canWrite && vol.Valid() && NoneFree(vol.Fat()))
      ensures res == Ok ==> Evolves(vol.geo, old(Snap()), Snap())
    {
      hide Core, Secs, Sectors, View, BytesOf, Evolves, NoneFree, HasReserved, BufferClean, Positioned, MidSector;
      hide Volume.Valid, Volume.Fat, Volume.Logical;
      if error {
        return IntErr;
      }
      ghost var a, all := Snap(), AllBytes();
      SeekingNow();
      ChainIsThere();
      var target := if ofs > fsize && !canWrite then fsize else ofs;
      var st, nsect := SeekPointer(a, all, target);
      SeekingFacts(a, all);
      if st == 1 {
        SeekReserved(a, all);
        error := true;
        return IntErr;
      }
      SeekBuffer(a, all, nsect);
      PrefixOfGrown(all, AllBytes(), old(fsize));
      res := Ok;
    }

    /** f_sync, directory part: the updated entry goes through the window, and the volume is flushed. */
    method StoreDirEntry(time: dword) returns (res: FResult)
      requires vol.Valid() && FatEnd(vol.geo) <= dirSect < |vol.disk| && dirAt + SZ_DIR <= SECTOR_SIZE
      modifies `written, vol`disk, vol`wflag, vol`winsect, vol`fsiFlag, vol.win
      ensures vol.Valid() && res == Ok && !written && !vol.wflag && vol.disk == vol.Logical()
      ensures vol.Fat() == old(vol.Fat()) && |vol.disk| == old(|vol.disk|)
      ensures vol.disk[dirSect] == UpdatedEntry(old(vol.Logical()[dirSect]), dirAt, sclust, time, fsize)
      ensures forall s :: vol.geo.fatbase <= s < |vol.disk| && s != dirSect ==> vol.disk[s] == old(vol.Logical())[s]
      ensures vol.winsect == 0 || vol.winsect == dirSect
      ensures vol.InfoWritten(old(vol.Logical()), old(vol.fsiFlag), vol.disk) && (vol.geo.fsType == Fat32 ==> !vol.fsiFlag)
    {
      hide Volume.Logical, FatOf, UpdatedEntry, DataAreaOk, Mirrored;
      vol.MoveWindow(dirSect);
      vol.StoreWindow(UpdatedEntry(vol.win[..], dirAt, sclust, time, fsize));
      written := false;
      res := vol.Sync();
    }

    /** f_sync: afterwards the drive alone holds the file and its directory entry; nothing is pending anywhere. */
    method Sync(time: dword) returns (res: FResult)
      requires Valid()
      requires FatEnd(vol.geo) <= dirSect < |vol.disk| && dirSect !in Secs() && dirAt + SZ_DIR <= SECTOR_SIZE
      modifies `dirty, `written, vol`disk, vol`wflag, vol`winsect, vol`fsiFlag, vol.win
      ensures Valid() && res == Ok && !written && Content() == old(Content()) && |View()| == old(|View()|)
      ensures vol.Fat() == old(vol.Fat())
      ensures (vol.winsect == 0 || vol.winsect == dirSect || vol.winsect == old(vol.winsect))
      ensures !old(written) ==> Snap() == old(Snap()) && dirty == old(dirty)
      ensures old(written) ==> !dirty && vol.Valid() && !vol.wflag && vol.disk == vol.Logical()
      ensures old(written) ==>
        vol.disk[dirSect] == UpdatedEntry(old(vol.Logical()[dirSect]), dirAt, sclust, time, fsize)
      ensures old(written) ==>
        vol.InfoWritten(old(vol.Logical()), old(vol.fsiFlag), vol.disk) && (vol.geo.fsType == Fat32 ==> !vol.fsiFlag)
      ensures forall s :: vol.geo.fatbase <= s < |vol.disk| && s != dirSect ==> View()[s] == old(View())[s]
    {
      hide FileChain, Sectors, BytesOf, Volume.Logical, Volume.Fat, UpdatedEntry, Volume.Valid;
      res := Ok;
      if written {
        ghost var v := View();
        CoreFacts();
        AllSectorFacts();
        FlushBuffer();
        vol.Facts();
        res := StoreDirEntry(time);
        BytesSame(v, View(), Secs());
      }
    }
  }

  /** A directory sector in a used cluster of another chain stays apart from the file however much the file grows. */
  lemma DirSectorStaysApart(g: Layout, n: nat, a: Snapshot, b: Snapshot, other: seq<nat>, c: nat, s: nat)
    requires FatAreaOk(g, n) && DataAreaOk(g, n) && |a.fat| == g.nFatent
    requires Evolves(g, a, b) && GoodChain(g, b.ch) && b.secs == Sectors(g, b.ch)
    requires IsChain(a.fat, other) && (forall x :: x in other ==> x !in a.ch) && c in other && InCluster(g, c, s)
    ensures s !in b.secs
  {
    GrewKeepsOthers(a.fat, a.ch, b.fat, b.ch, other);
    if s in b.secs {
      var k :| 0 <= k < |b.secs| && b.secs[k] == s;
      var j := SectorOwner(g, b.ch, k);
      ClustersDisjoint(g, c, b.ch[j], s);
    }
  }

  /** f_close and f_open again: a file opened from the directory entry that f_sync wrote has the same content. */
  method CloseAndReopen(f: File, time: dword) returns (res: FResult, g: File)
    requires f.Valid() && f.written && f.dirAt + SZ_DIR <= SECTOR_SIZE
    requires FatEnd(f.vol.geo) <= f.dirSect < |f.vol.disk| && f.dirSect !in f.Secs()
    modifies f`dirty, f`written, f.vol`disk, f.vol`wflag, f.vol`winsect, f.vol`fsiFlag, f.vol.win
    ensures res == Ok && fresh(g) && g.vol == f.vol && g.Valid()
    ensures g.fptr == 0 && g.fsize == f.fsize && g.sclust == f.sclust && g.Content() == old(f.Content())
  {
    hide FileChain, Sectors, BytesOf, UpdatedEntry, Volume.Logical, FatOf, EntrySize, EntryCluster;
    ghost var w, c := f.vol.Logical()[f.dirSect], f.Content();
    res := f.Sync(time);
    UpdatedEntrySize(w, f.dirAt, f.sclust, time, f.fsize);
    UpdatedEntryCluster(w, f.dirAt, f.sclust, time, f.fsize);
    f.vol.Facts();
    f.vol.MoveWindow(f.dirSect);
    g := new File.Open(f.vol, f.dirAt, true, true, false, f.chain);
  }
}
