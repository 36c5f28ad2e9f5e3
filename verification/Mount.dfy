/** Mounting: where a boot record says the parts of a volume lie, in 32-bit arithmetic. */
module Mounts {
  import opened Bytes
  import opened Geometry
  import opened FatTable
  import opened Chains
  import opened Volumes

  // Offsets in the boot record and the partition table
  const BPB_BYTS_PER_SEC := 11
  const BPB_SEC_PER_CLUS := 13
  const BPB_RSVD_SEC_CNT := 14
  const BPB_NUM_FATS := 16
  const BPB_ROOT_ENT_CNT := 17
  const BPB_TOT_SEC16 := 19
  const BPB_FAT_SZ16 := 22
  const BPB_TOT_SEC32 := 32
  const BPB_FAT_SZ32 := 36
  const BPB_ROOT_CLUS := 44
  const BPB_FS_INFO := 48
  const BS_FIL_SYS_TYPE := 54
  const BS_FIL_SYS_TYPE32 := 82
  const MBR_TABLE := 446

  const ENTRIES_PER_SECTOR := 16
  const MIN_FAT16 := 4086
  const MIN_FAT32 := 65526

  datatype RecordKind = FatRecord | OtherRecord | NoRecord

  /** check_fs */
  function CheckFs(w: Sector): RecordKind {
    if LdWord(w, BS_55AA) != 0xAA55 then NoRecord
    else if LdDword(w, BS_FIL_SYS_TYPE) % 0x100_0000 == 0x544146 then FatRecord
    else if LdDword(w, BS_FIL_SYS_TYPE32) % 0x100_0000 == 0x544146 then FatRecord
    else OtherRecord
  }

  datatype Search = At(bsect: dword) | Failed(res: FResult)

  /** Where chk_mounted finds a volume: at the start of the drive, or in the first partition. */
  function Locate(d: Disk): Search {
    if d == [] then Failed(DiskErr)
    else
      match CheckFs(d[0])
      case FatRecord => At(0)
      case NoRecord => Failed(NoFilesystem)
      case OtherRecord =>
        if d[0][MBR_TABLE + 4] == 0 then Failed(NoFilesystem)
        else
          var bsect := LdDword(d[0], MBR_TABLE + 8);
          if bsect >= |d| then Failed(DiskErr)
          else if CheckFs(d[bsect]) == FatRecord then At(bsect) else Failed(NoFilesystem)
  }

  /** The fields of a boot record that mounting looks at. */
  datatype Fields = Fields(
    sectorSize: word, csize: byte, nrsv: word, nFats: byte, nRootdir: word,
    tsect: dword,      // the 16-bit count, or the 32-bit one if that is 0
    fsize: dword,      // the 16-bit FAT size, or the 32-bit one if that is 0
    rootClus: dword, fsInfo: word)

  function ReadFields(w: Sector): Fields {
    Fields(
      LdWord(w, BPB_BYTS_PER_SEC), w[BPB_SEC_PER_CLUS], LdWord(w, BPB_RSVD_SEC_CNT), w[BPB_NUM_FATS], LdWord(w, BPB_ROOT_ENT_CNT),
      if LdWord(w, BPB_TOT_SEC16) != 0 then LdWord(w, BPB_TOT_SEC16) else LdDword(w, BPB_TOT_SEC32),
      if LdWord(w, BPB_FAT_SZ16) != 0 then LdWord(w, BPB_FAT_SZ16) else LdDword(w, BPB_FAT_SZ32),
      LdDword(w, BPB_ROOT_CLUS), LdWord(w, BPB_FS_INFO))
  }

  /** The FAT type follows from the number of clusters alone. */
  function SubType(nclst: nat): FatType {
    if nclst >= MIN_FAT32 then Fat32 else if nclst >= MIN_FAT16 then Fat16 else Fat12
  }

  /** chk_mounted: the layout that a boot record in sector `bsect` describes; every sum and product is cut to 32
      bits. */
  function Place(f: Fields, bsect: dword): Option<Layout> {
    var fasize := f.fsize * f.nFats % WRAP;
    var sysect := (f.nrsv + fasize + f.nRootdir / ENTRIES_PER_SECTOR) % WRAP;
    if f.sectorSize != SECTOR_SIZE || (f.nFats != 1 && f.nFats != 2) then None
    else if f.csize == 0 || !IsPowerOfTwo(f.csize) || f.nRootdir % ENTRIES_PER_SECTOR != 0 || f.nrsv == 0 then None
    else if f.tsect < sysect || (f.tsect - sysect) / f.csize == 0 then None
    else
      QuotientAtLeast(f.tsect - sysect, f.csize, 0);
      var nclst := (f.tsect - sysect) / f.csize;
      var t, nFatent := SubType(nclst), (nclst + 2) % WRAP;
      var fatbase := (bsect + f.nrsv) % WRAP;
      if (t == Fat32) != (f.nRootdir == 0) then None
      else if f.fsize < SpanSectors(t, nFatent) then None
      else Some(Layout(t, f.csize, f.nFats, f.nRootdir, nFatent, f.fsize, fatbase,
                       if t == Fat32 then f.rootClus else (fatbase + fasize) % WRAP, (bsect + sysect) % WRAP))
  }

  /** Sectors of FAT that the mount check demands for `n` entries. */
  function SpanSectors(t: FatType, n: nat): nat {
    (FatSpan(t, n) % WRAP + (SECTOR_SIZE - 1)) % WRAP / SECTOR_SIZE
  }

  /** Sectors in front of the data area, in unbounded arithmetic. */
  function SystemSectors(f: Fields): nat {
    f.nrsv + f.fsize * f.nFats + f.nRootdir / ENTRIES_PER_SECTOR
  }

  /** The system area and the end of the volume have 32-bit sector numbers. */
  predicate Fits(f: Fields, bsect: dword) {
    SystemSectors(f) < WRAP && bsect + f.tsect <= WRAP
  }

  /** FATs, root directory and data area follow each other inside the `n` sectors that end with the volume. */
  ghost predicate Confined(g: Layout, bsect: dword, n: nat) {
    && bsect < g.fatbase
    && g.fatbase + g.fsize * g.nFats + g.nRootdir / ENTRIES_PER_SECTOR <= g.database
    && g.database + (g.nFatent - 2) * g.csize <= n <= WRAP
  }

  lemma Accepted(f: Fields, bsect: dword)
    requires Place(f, bsect).Some?
    ensures var g := Place(f, bsect).value;
      g.csize in {1, 2, 4, 8, 16, 32, 64, 128} && g.csize == f.csize && g.nFats == f.nFats && g.nFats in {1, 2} &&
      g.fsize == f.fsize && g.nRootdir == f.nRootdir && 0 < f.nrsv &&
      g.nRootdir % ENTRIES_PER_SECTOR == 0 && (g.fsType == Fat32 <==> g.nRootdir == 0) &&
      g.database == (bsect + SystemSectors(f) % WRAP) % WRAP && g.fatbase == (bsect + f.nrsv) % WRAP &&
      SystemSectors(f) % WRAP <= f.tsect &&
      var nclst := (f.tsect - SystemSectors(f) % WRAP) / g.csize;
      0 < nclst && g.fsType == SubType(nclst) && g.nFatent == (nclst + 2) % WRAP &&
      g.fsize >= SpanSectors(g.fsType, g.nFatent) &&
      (g.fsType != Fat32 ==> g.dirbase == (g.fatbase + g.fsize * g.nFats % WRAP) % WRAP)
  {
    hide SpanSectors, SubType, IsPowerOfTwo;
    if IsPowerOfTwo(f.csize) {
      SmallPowers(f.csize);
    }
    AddWrapped(f.nrsv + f.nRootdir / ENTRIES_PER_SECTOR, f.fsize * f.nFats);
  }

  lemma AddWrapped(a: nat, b: nat)
    ensures (a + b % WRAP) % WRAP == (a + b) % WRAP
  {
    Remainder(a + b, WRAP, b / WRAP + (a + b % WRAP) / WRAP, (a + b % WRAP) % WRAP);
  }

  /** The order of the areas in wrapping arithmetic: `p` sectors of FATs, `data` sectors of clusters. */
  lemma AreasInOrder(bsect: dword, nrsv: word, p: nat, root: word, t: dword, data: int)
    requires 0 < nrsv && (nrsv + p + root) % WRAP < t && data <= t - (nrsv + p + root) % WRAP
    ensures var sys := nrsv + p + root;
      var fatbase, database := (bsect + nrsv) % WRAP, (bsect + sys % WRAP) % WRAP;
      (bsect < fatbase && fatbase + p + root <= database && database + data <= bsect + t <= WRAP) <==>
      (sys < WRAP && bsect + t <= WRAP)
  {
    var sys := nrsv + p + root;
    var fatbase, database := (bsect + nrsv) % WRAP, (bsect + sys % WRAP) % WRAP;
    if sys < WRAP && bsect + t <= WRAP {
      assert sys % WRAP == sys && database == bsect + sys && fatbase == bsect + nrsv;
    }
    if bsect < fatbase && fatbase + p + root <= database {
      if bsect + nrsv >= WRAP {
        Remainder(bsect + nrsv, WRAP, 1, bsect + nrsv - WRAP);
      } else {
        assert fatbase == bsect + nrsv;
      }
    }
  }

  /** Sectors of the clusters, also when the count of FAT entries wraps to 0. */
  lemma DataSectors(room: nat, csize: nat)
    requires 0 < csize && room < WRAP && 0 < room / csize
    ensures var nFatent := (room / csize + 2) % WRAP; (nFatent - 2) * csize <= room
    ensures room / csize + 2 < WRAP ==> room / csize <= room
  {
    var nclst := room / csize;
    assert csize * nclst <= room;
    MulMono(nclst, 1, csize);
    if nclst + 2 >= WRAP {
      Remainder(nclst + 2, WRAP, 1, nclst + 2 - WRAP);
      MulMono(csize, nclst + 2 - WRAP - 2, 0);
    }
  }

  lemma SomeRoom(room: nat, csize: nat)
    requires 0 < csize && 0 < room / csize
    ensures 0 < room
  {
    if room == 0 {
      Remainder(0, csize, 0, 0);
    }
  }

  /** The areas of an accepted volume are in order, disjoint and inside the volume if and only if no sector number of
      the system area or the end of the volume wraps. */
  lemma MountConfines(f: Fields, bsect: dword)
    requires Place(f, bsect).Some?
    ensures Confined(Place(f, bsect).value, bsect, bsect + f.tsect) <==> Fits(f, bsect)
  {
    hide Place, FatSpan, SpanSectors, SubType;
    Accepted(f, bsect);
    var g := Place(f, bsect).value;
    var room := f.tsect - SystemSectors(f) % WRAP;
    SomeRoom(room, g.csize);
    DataSectors(room, g.csize);
    AreasInOrder(bsect, f.nrsv, g.fsize * g.nFats, g.nRootdir / ENTRIES_PER_SECTOR, f.tsect, (g.nFatent - 2) * g.csize);
  }

  /** A FAT of 2^31 sectors, two of them: their sizes add up to 0, and the volume is accepted with its FATs behind
      its end. */
  lemma WrappedFatsAreAccepted()
    ensures var f := Fields(512, 1, 32, 2, 0, 0x2_0000, 0x8000_0000, 2, 1);
      Place(f, 0).Some? && !Fits(f, 0)
  {
  }

  /** Clusters on the volume, in unbounded arithmetic. */
  function ClusterCount(f: Fields): int
    requires 0 < f.csize
  {
    (f.tsect - SystemSectors(f)) / f.csize
  }

  /** An accepted volume that fits has a FAT with room for every entry, whose end mark is no cluster number, and a data
      area inside the volume: always on FAT12 and FAT16, on FAT32 if and only if cluster numbers have 28 bits. */
  lemma MountedAreas(f: Fields, bsect: dword)
    requires Place(f, bsect).Some? && Fits(f, bsect)
    ensures var g, n := Place(f, bsect).value, bsect + f.tsect;
      0 < f.csize && (FatAreaOk(g, n) && DataAreaOk(g, n) <==> (g.fsType == Fat32 ==> ClusterCount(f) + 2 <= EndMark(Fat32)))
    ensures var g := Place(f, bsect).value;
      g.fsType != Fat32 ==> g.dirbase == FatEnd(g) && g.dirbase + g.nRootdir / ENTRIES_PER_SECTOR == g.database
  {
    hide Place, SubType, SystemSectors, FatSpan, FatEnd, FatAreaOk, DataAreaOk, EndMark, SpanSectors;
    AcceptedFits(f, bsect);
    AreasFollow(f, bsect);
    var g := Place(f, bsect).value;
    SubTypeBounds(ClusterCount(f));
    AreasOk(g, bsect + f.tsect, f.tsect - SystemSectors(f));
  }

  /** What the record of a volume that fits says, without wrapping. */
  lemma AcceptedFits(f: Fields, bsect: dword)
    requires Place(f, bsect).Some? && Fits(f, bsect)
    ensures var g, room := Place(f, bsect).value, f.tsect - SystemSectors(f);
      g.csize in {1, 2, 4, 8, 16, 32, 64, 128} && g.csize == f.csize && 0 < room && 0 < room / g.csize &&
      g.fsType == SubType(room / g.csize) && g.nFatent == (room / g.csize + 2) % WRAP &&
      g.fsize >= SpanSectors(g.fsType, g.nFatent)
  {
    hide Place, SystemSectors, SubType, SpanSectors;
    Accepted(f, bsect);
    assert SystemSectors(f) % WRAP == SystemSectors(f);
    SomeRoom(f.tsect - SystemSectors(f), Place(f, bsect).value.csize);
  }

  lemma AcceptedAreas(f: Fields, bsect: dword)
    requires Place(f, bsect).Some? && Fits(f, bsect)
    ensures var g := Place(f, bsect).value;
      g.nFats == f.nFats && g.nFats in {1, 2} && g.fsize == f.fsize && g.nRootdir == f.nRootdir && 0 < f.nrsv &&
      g.database == (bsect + SystemSectors(f)) % WRAP && g.fatbase == (bsect + f.nrsv) % WRAP &&
      (g.fsType != Fat32 ==> g.dirbase == (g.fatbase + g.fsize * g.nFats % WRAP) % WRAP)
  {
    hide Place, SystemSectors, SubType, SpanSectors;
    Accepted(f, bsect);
    assert SystemSectors(f) % WRAP == SystemSectors(f);
  }

  /** The areas of a volume that fits follow each other. */
  lemma AreasFollow(f: Fields, bsect: dword)
    requires Place(f, bsect).Some? && Fits(f, bsect) && SystemSectors(f) < f.tsect
    ensures var g := Place(f, bsect).value;
      g.nFats in {1, 2} && g.database + (f.tsect - SystemSectors(f)) == bsect + f.tsect && 1 <= g.fatbase &&
      FatEnd(g) <= g.database &&
      (g.fsType != Fat32 ==> g.dirbase == FatEnd(g) && g.dirbase + g.nRootdir / ENTRIES_PER_SECTOR == g.database)
  {
    hide Place, FatEnd;
    AcceptedAreas(f, bsect);
    FatsInOrder(Place(f, bsect).value, bsect, f.nrsv, f.tsect);
  }

  /** A FAT32 volume of 0x11000000 sectors, one to a cluster, is accepted, although its cluster numbers pass for end
      marks. */
  lemma TooManyClustersAreAccepted()
    ensures var f := Fields(512, 1, 32, 1, 0, 0x1100_0000, 0x0022_0000, 2, 1);
      Place(f, 0).Some? && Fits(f, 0) && Place(f, 0).value.fsType == Fat32 && ClusterCount(f) + 2 > EndMark(Fat32) &&
      !(FatAreaOk(Place(f, 0).value, f.tsect) && DataAreaOk(Place(f, 0).value, f.tsect))
  {
    var f := Fields(512, 1, 32, 1, 0, 0x1100_0000, 0x0022_0000, 2, 1);
    MountedAreas(f, 0);
  }

  lemma AreasOk(g: Layout, n: nat, room: nat)
    requires g.csize in {1, 2, 4, 8, 16, 32, 64, 128} && g.nFats in {1, 2} && 0 < room / g.csize && room < WRAP
    requires g.nFatent == (room / g.csize + 2) % WRAP && n <= WRAP && g.database + room == n
    requires 1 <= g.fatbase && FatEnd(g) <= g.database && g.fsize >= SpanSectors(g.fsType, g.nFatent)
    ensures FatAreaOk(g, n) && DataAreaOk(g, n) <==> room / g.csize + 2 <= EndMark(g.fsType)
  {
    hide FatEnd, FatSpan, SpanSectors;
    CountFits(g.nFatent, room, g.csize, EndMark(g.fsType));
    if 3 <= g.nFatent <= EndMark(g.fsType) {
      SpanFits(g);
    }
  }

  lemma CountFits(nFatent: nat, room: nat, csize: nat, mark: nat)
    requires 0 < csize && 0 < room / csize && room < WRAP && nFatent == (room / csize + 2) % WRAP && mark < WRAP
    ensures 3 <= nFatent <= mark <==> room / csize + 2 <= mark
    ensures (nFatent - 2) * csize <= room
  {
    DataSectors(room, csize);
    var nclst := room / csize;
    assert csize * nclst <= room;
    MulMono(nclst, 1, csize);
    if nclst + 2 >= WRAP {
      Remainder(nclst + 2, WRAP, 1, nclst + 2 - WRAP);
    }
  }

  lemma SubTypeBounds(nclst: nat)
    ensures SubType(nclst) == Fat12 ==> nclst + 2 <= EndMark(Fat12)
    ensures SubType(nclst) == Fat16 ==> nclst + 2 <= EndMark(Fat16)
  {
  }

  /** A FAT size that passes the check holds every entry. */
  lemma SpanFits(g: Layout)
    requires 3 <= g.nFatent <= EndMark(g.fsType) && g.fsize >= SpanSectors(g.fsType, g.nFatent)
    ensures FatSpan(g.fsType, g.nFatent) <= SECTOR_SIZE * g.fsize && 1 <= g.fsize
  {
    var span := FatSpan(g.fsType, g.nFatent);
    assert 0 < span && span + SECTOR_SIZE < WRAP;
  }

  lemma FatsInOrder(g: Layout, bsect: dword, nrsv: word, t: dword)
    requires g.nFats in {1, 2} && 0 < nrsv && nrsv + g.fsize * g.nFats + g.nRootdir / ENTRIES_PER_SECTOR < t
    requires bsect + t <= WRAP
    requires g.fatbase == (bsect + nrsv) % WRAP
    requires g.database == (bsect + (nrsv + g.fsize * g.nFats + g.nRootdir / ENTRIES_PER_SECTOR)) % WRAP
    ensures g.fatbase == bsect + nrsv && FatEnd(g) == g.fatbase + g.fsize * g.nFats
    ensures FatEnd(g) + g.nRootdir / ENTRIES_PER_SECTOR == g.database
    ensures (g.fatbase + g.fsize * g.nFats % WRAP) % WRAP == FatEnd(g)
  {
  }

  // ---------------------------------------------------------------- the allocation hints

  /** What the FSInfo sector of a drive says: the last allocated cluster and the free count, if it is one. */
  function Hints(d: Disk, fsi: nat): (dword, dword) {
    if fsi < |d| && LdWord(d[fsi], BS_55AA) == 0xAA55 && LdDword(d[fsi], FSI_LEAD_SIG) == 0x41615252 &&
       LdDword(d[fsi], FSI_STRUC_SIG) == 0x61417272
    then (LdDword(d[fsi], FSI_NXT_FREE), LdDword(d[fsi], FSI_FREE_COUNT))
    else (0, 0xFFFF_FFFF)
  }

  /** The hints that sync wrote are the hints that the next mount reads. */
  lemma HintsSurvive(v: Volume, d: Disk)
    requires v.fsiSector < |d| && d[v.fsiSector] == v.FsInfo()
    ensures Hints(d, v.fsiSector) == (v.lastClust, v.freeClust)
  {
    hide StWord, StDword, LdWord, LdDword;
    var w0 := Zeros();
    var w1: Sector := StWord(w0, BS_55AA, 0xAA55);
    var w2: Sector := StDword(w1, FSI_LEAD_SIG, 0x41615252);
    var w3: Sector := StDword(w2, FSI_STRUC_SIG, 0x61417272);
    var w4: Sector := StDword(w3, FSI_FREE_COUNT, v.freeClust);
    var w5: Sector := StDword(w4, FSI_NXT_FREE, v.lastClust);
    WordRoundTrip(w0, BS_55AA, 0xAA55);
    DwordRoundTrip(w1, FSI_LEAD_SIG, 0x41615252);
    DwordRoundTrip(w2, FSI_STRUC_SIG, 0x61417272);
    DwordRoundTrip(w3, FSI_FREE_COUNT, v.freeClust);
    DwordRoundTrip(w4, FSI_NXT_FREE, v.lastClust);
    WordAfter(w1, FSI_LEAD_SIG, 0x41615252, BS_55AA);
    WordAfter(w2, FSI_STRUC_SIG, 0x61417272, BS_55AA);
    WordAfter(w3, FSI_FREE_COUNT, v.freeClust, BS_55AA);
    WordAfter(w4, FSI_NXT_FREE, v.lastClust, BS_55AA);
    StoresBeside(w2, FSI_STRUC_SIG, 0x61417272, FSI_LEAD_SIG);
    StoresBeside(w3, FSI_FREE_COUNT, v.freeClust, FSI_LEAD_SIG);
    StoresBeside(w4, FSI_NXT_FREE, v.lastClust, FSI_LEAD_SIG);
    StoresBeside(w3, FSI_FREE_COUNT, v.freeClust, FSI_STRUC_SIG);
    StoresBeside(w4, FSI_NXT_FREE, v.lastClust, FSI_STRUC_SIG);
    StoresBeside(w4, FSI_NXT_FREE, v.lastClust, FSI_FREE_COUNT);
  }

  lemma WordAfter(w: Sector, i: nat, v: nat, k: nat)
    requires i + 4 <= k && k + 1 < SECTOR_SIZE
    ensures LdWord(StDword(w, i, v), k) == LdWord(w, k)
  {
  }

  // ---------------------------------------------------------------- chk_mounted

  /** The layout chk_mounted finds on a drive. */
  function LayoutAt(d: Disk, bsect: dword): Option<Layout>
    requires bsect < |d|
  {
    Place(ReadFields(d[bsect]), bsect)
  }

  function MountResult(d: Disk): FResult {
    match Locate(d)
    case Failed(res) => res
    case At(bsect) => if bsect < |d| && LayoutAt(d, bsect).Some? then Ok else NoFilesystem
  }

  // ---------------------------------------------------------------- what the drive says of the volume

  /** The boot record on the drive is that of the volume. */
  ghost predicate OnRecord(v: Volume, d: Disk, bsect: dword) {
    && Locate(d) == At(bsect) && bsect < |d| && LayoutAt(d, bsect) == Some(v.geo)
    && (v.geo.fsType == Fat32 ==> v.fsiSector == (bsect + ReadFields(d[bsect]).fsInfo) % WRAP)
  }

  /** The free count `count` is the one on the drive, unless it is still to be written there. */
  ghost predicate InfoNoted(v: Volume, d: Disk, count: dword, flag: bool) {
    v.geo.fsType == Fat32 ==> flag || Hints(d, v.fsiSector).1 == count
  }

  /** The record on the drive leads to the volume, with an FSInfo sector of its own that has the free count. */
  ghost predicate OnBooks(v: Volume, d: Disk, count: dword, flag: bool, bsect: dword) {
    && OnRecord(v, d, bsect) && bsect < v.geo.fatbase <= |d| && InfoNoted(v, d, count, flag)
    && (v.geo.fsType == Fat32 ==> v.fsiSector < v.geo.fatbase && v.fsiSector !in {0, bsect})
  }

  ghost predicate InBooks(v: Volume, bsect: dword)
    reads v, v.win
  {
    v.Valid() && OnBooks(v, v.Logical(), v.freeClust, v.fsiFlag, bsect)
  }

  /** sync keeps it. */
  lemma BooksSynced(v: Volume, d: Disk, count: dword, flag: bool, d': Disk, bsect: dword)
    requires OnBooks(v, d, count, flag, bsect) && v.InfoWritten(d, flag, d') && v.freeClust == count
    ensures OnBooks(v, d', count, false, bsect)
  {
    hide Volume.FsInfo, Hints, OnRecord;
    assert v.geo.fsType == Fat32 ==> Hints(d', v.fsiSector).1 == count by {
      if v.geo.fsType == Fat32 && flag {
        HintsSurvive(v, d');
      } else if v.geo.fsType == Fat32 {
        assert d'[v.fsiSector] == d[v.fsiSector];
        SameHints(d, d', v.fsiSector);
      }
    }
    assert 0 < v.geo.fatbase && d'[0] == d[0] && d'[bsect] == d[bsect];
    RecordStays(v, d, d', bsect);
  }

  lemma SameHints(d: Disk, d': Disk, fsi: nat)
    requires fsi < |d| == |d'| && d'[fsi] == d[fsi]
    ensures Hints(d', fsi) == Hints(d, fsi)
  {
  }

  /** Changes behind the reserved sectors keep it, if a changed free count is noted. */
  lemma BooksKept(v: Volume, d: Disk, count: dword, flag: bool, d': Disk, count': dword, flag': bool, bsect: dword)
    requires OnBooks(v, d, count, flag, bsect) && |d'| == |d| && Noted(count, flag, count', flag')
    requires forall s :: 0 <= s < v.geo.fatbase ==> d'[s] == d[s]
    ensures OnBooks(v, d', count', flag', bsect)
  {
    hide Hints, OnRecord;
    assert 0 < v.geo.fatbase && d'[0] == d[0] && d'[bsect] == d[bsect];
    RecordStays(v, d, d', bsect);
    if v.geo.fsType == Fat32 {
      SameHints(d, d', v.fsiSector);
    }
  }

  lemma NowInBooks(v: Volume, d: Disk, bsect: dword)
    requires v.Valid() && v.Logical() == d && OnRecord(v, d, bsect) && InfoNoted(v, d, v.freeClust, v.fsiFlag)
    requires bsect < v.geo.fatbase && (v.geo.fsType == Fat32 ==> v.fsiSector !in {0, bsect})
    ensures InBooks(v, bsect)
  {
    hide OnRecord, Hints, Volume.Logical;
  }

  /** The free count of the volume is right, or unknown. */
  ghost predicate Counted(v: Volume)
    reads v, v.win
  {
    v.Valid() && CountOk(v.Fat(), v.freeClust)
  }

  // ---------------------------------------------------------------- a drive that is ready

  /** What a boot record should say of the drive it is on, and does not have to for chk_mounted to accept it. */
  ghost predicate Sound(d: Disk, bsect: dword) {
    bsect < |d| && LayoutAt(d, bsect).Some? &&
    var f, g := ReadFields(d[bsect]), LayoutAt(d, bsect).value;
    && 0 < f.csize && Fits(f, bsect) && bsect + f.tsect <= |d| <= WRAP
    && (g.fsType == Fat32 ==> f.fsInfo < f.nrsv && ClusterCount(f) + 2 <= EndMark(Fat32))
    && (FatAreaOk(g, |d|) ==> Mirrored(g, d))
  }

  /** chk_mounted on a drive that is ready. On a sound record the volume is consistent, with the drive as it is. */
  method ChkMounted(d: Disk) returns (res: FResult, v: Volume?)
    ensures res == MountResult(d)
    ensures res == Ok <==> v != null
    ensures res == Ok ==>
      fresh(v) && fresh(v.win) && v.disk == d && !v.wflag && v.winsect == 0 && Locate(d).At? && Locate(d).bsect < |d|
    ensures res == Ok ==> LayoutAt(d, Locate(d).bsect) == Some(v.geo) && v.win.Length == SECTOR_SIZE
    ensures res == Ok && v.geo.fsType == Fat32 ==> (v.lastClust, v.freeClust) == Hints(d, v.fsiSector)
    ensures res == Ok && v.geo.fsType == Fat32 ==>
      v.fsiSector == (Locate(d).bsect + ReadFields(d[Locate(d).bsect]).fsInfo) % WRAP
    ensures res == Ok && v.geo.fsType != Fat32 ==> (v.lastClust, v.freeClust) == (0, 0xFFFF_FFFF)
    ensures res == Ok ==> OnRecord(v, d, Locate(d).bsect) && InfoNoted(v, d, v.freeClust, v.fsiFlag)
    ensures res == Ok && Sound(d, Locate(d).bsect) ==> v.Valid() && v.Logical() == d
  {
    hide ReadFields, Place, Hints;
    v := null;
    if |d| == 0 {
      return DiskErr, null;
    }
    var bsect: dword := 0;
    var win := d[bsect];
    var fmt := CheckFs(win);
    if fmt == OtherRecord && win[MBR_TABLE + 4] != 0 {
      bsect := LdDword(win, MBR_TABLE + 8);
      if bsect >= |d| {
        return DiskErr, null;
      }
      win := d[bsect];
      fmt := CheckFs(win);
    }
    if fmt != FatRecord {
      return NoFilesystem, null;
    }
    var f := ReadFields(win);
    var geo := Place(f, bsect);
    if geo.None? {
      return NoFilesystem, null;
    }
    var last, free, fsi := 0, 0xFFFF_FFFF, 0;
    if geo.value.fsType == Fat32 {
      fsi := (bsect + f.fsInfo) % WRAP;
      var hints := Hints(d, fsi);
      last, free := hints.0, hints.1;
    }
    v := new Volume.Mount(geo.value, d, fsi, last, free);
    res := Ok;
    if Sound(d, bsect) {
      SoundIsValid(d, bsect);
    }
  }

  lemma SoundIsValid(d: Disk, bsect: dword)
    requires Sound(d, bsect)
    ensures var f, g := ReadFields(d[bsect]), LayoutAt(d, bsect).value;
      FatAreaOk(g, |d|) && DataAreaOk(g, |d|) && (g.fsType == Fat32 ==> (bsect + f.fsInfo) % WRAP < g.fatbase)
  {
    hide ReadFields, Place, SubType, FatSpan, FatEnd, EndMark, SpanSectors, SystemSectors, ClusterCount;
    var f, g := ReadFields(d[bsect]), LayoutAt(d, bsect).value;
    MountedAreas(f, bsect);
    LargerDrive(g, bsect + f.tsect, |d|);
    MountConfines(f, bsect);
    Accepted(f, bsect);
    ReservedThenFat(f, bsect);
  }

  /** Areas that lie on a drive lie on a larger one. */
  lemma LargerDrive(g: Layout, n: nat, m: nat)
    requires FatAreaOk(g, n) && DataAreaOk(g, n) && n <= m <= WRAP
    ensures FatAreaOk(g, m) && DataAreaOk(g, m)
  {
    hide FatSpan, EndMark, FatEnd;
  }

  /** The first FAT lies right behind the reserved sectors. */
  lemma ReservedThenFat(f: Fields, bsect: dword)
    requires Place(f, bsect).Some? && Fits(f, bsect)
    ensures Place(f, bsect).value.fatbase == bsect + f.nrsv && 0 < f.nrsv
  {
    hide Place, SubType, FatEnd;
    AcceptedFits(f, bsect);
    AcceptedAreas(f, bsect);
    FatsInOrder(Place(f, bsect).value, bsect, f.nrsv, f.tsect);
  }

  // ---------------------------------------------------------------- mounting again

  /** It stays so as long as the record, and the partition table in front of it, are left alone. */
  lemma RecordStays(v: Volume, d: Disk, d': Disk, bsect: dword)
    requires OnRecord(v, d, bsect) && |d'| == |d| && d'[0] == d[0] && d'[bsect] == d[bsect]
    ensures OnRecord(v, d', bsect)
  {
    hide ReadFields, Place, CheckFs;
  }

  /** An FSInfo sector is no boot record, and holds no partition. */
  lemma FsInfoIsNoRecord(v: Volume)
    ensures CheckFs(v.FsInfo()) == OtherRecord && v.FsInfo()[MBR_TABLE + 4] == 0
  {
    var w1: Sector := StWord(Zeros(), BS_55AA, 0xAA55);
    var w2: Sector := StDword(w1, FSI_LEAD_SIG, 0x41615252);
    var w3: Sector := StDword(w2, FSI_STRUC_SIG, 0x61417272);
    var w4: Sector := StDword(w3, FSI_FREE_COUNT, v.freeClust);
    WordRoundTrip(Zeros(), BS_55AA, 0xAA55);
    WordAfter(w1, FSI_LEAD_SIG, 0x41615252, BS_55AA);
    WordAfter(w2, FSI_STRUC_SIG, 0x61417272, BS_55AA);
    WordAfter(w3, FSI_FREE_COUNT, v.freeClust, BS_55AA);
    WordAfter(w4, FSI_NXT_FREE, v.lastClust, BS_55AA);
  }

  /** The FSInfo sector written over the boot record, or over the partition table that leads to it: no volume is
      found any more. */
  lemma RecordLost(v: Volume, d: Disk, bsect: dword)
    requires OnRecord(v, d, bsect) && v.fsiSector < |d| && v.fsiSector in {0, bsect}
    ensures MountResult(d[v.fsiSector := v.FsInfo()]) == NoFilesystem
  {
    hide ReadFields, Place, CheckFs, Volume.FsInfo;
    FsInfoIsNoRecord(v);
  }

  /** Such a record is accepted: BPB_FSInfo names the boot sector itself. */
  lemma FsInfoOnBootSector()
    ensures var f := Fields(512, 1, 32, 1, 0, 0x2_0000, 0x400, 2, 0);
      Place(f, 0).Some? && Place(f, 0).value.fsType == Fat32 && Fits(f, 0) && f.fsInfo < f.nrsv &&
      (0 + f.fsInfo) % WRAP == 0
  {
  }

  lemma FsInfoOnDrive(v: Volume)
    requires v.Valid() && v.geo.fsType == Fat32
    ensures v.fsiSector < |v.disk|
  {
  }

  /** sync and the next chk_mounted: the volume comes back with its layout, its table, its contents and the hints
      just written, if and only if sync had no FSInfo sector to write over the boot record. */
  method SyncAndMount(v: Volume, ghost bsect: dword) returns (res: FResult, w: Volume?)
    requires v.Valid() && OnRecord(v, v.Logical(), bsect)
    modifies v`disk, v`wflag, v`winsect, v`fsiFlag, v.win
    ensures res == Ok <==> !(v.geo.fsType == Fat32 && old(v.fsiFlag) && v.fsiSector in {0, bsect})
    ensures res == Ok || res == NoFilesystem
    ensures v.Valid()
    ensures (res == Ok ==> w != null && fresh(w) && w.Valid() && w.geo == v.geo && w.disk == w.Logical() == v.disk == v.Logical())
    ensures res == Ok ==> w.Fat() == v.Fat() == old(v.Fat()) && OnRecord(w, w.Logical(), bsect)
    ensures res == Ok && v.geo.fsType == Fat32 ==> w.fsiSector == v.fsiSector
    ensures res == Ok && v.geo.fsType == Fat32 && old(v.fsiFlag) ==>
      (w.lastClust, w.freeClust) == (v.lastClust, v.freeClust)
    ensures res == Ok && old(InfoNoted(v, v.Logical(), v.freeClust, v.fsiFlag)) && CountOk(v.Fat(), v.freeClust) ==>
      CountOk(w.Fat(), w.freeClust)
  {
    hide Hints, Volume.FsInfo, Volume.Valid, Volume.Logical, Volume.Fat, Locate, LayoutAt, MountResult, OnRecord;
    hide ReadFields, Sound;
    ghost var d, written := v.Logical(), v.geo.fsType == Fat32 && v.fsiFlag;
    if written {
      FsInfoOnDrive(v);
    }
    RecordFound(v, d, bsect);
    var ok := v.Sync();
    if written && v.fsiSector in {0, bsect} {
      RecordLost(v, d, bsect);
    } else {
      RecordStays(v, d, v.disk, bsect);
      RecordFound(v, v.disk, bsect);
    }
    res, w := ChkMounted(v.disk);
    if res == Ok {
      MountedAgain(v, w, bsect);
      if written {
        HintsSurvive(v, v.disk);
      }
    }
  }

  lemma RecordFound(v: Volume, d: Disk, bsect: dword)
    requires OnRecord(v, d, bsect)
    ensures 0 < |d| && bsect < |d| && MountResult(d) == Ok && Locate(d) == At(bsect)
    ensures LayoutAt(d, bsect) == Some(v.geo)
    ensures v.geo.fsType == Fat32 ==> v.fsiSector == (bsect + ReadFields(d[bsect]).fsInfo) % WRAP
  {
    hide ReadFields, Place, CheckFs;
  }

  /** A volume mounted with the layout and the drive of a volume without pending writes is as consistent, and holds
      the same. */
  lemma MountedAgain(v: Volume, w: Volume, bsect: dword)
    requires v.Valid() && !v.wflag && w.geo == v.geo && w.disk == v.disk && !w.wflag && w.winsect == 0
    requires w.win.Length == SECTOR_SIZE
    requires OnRecord(v, v.disk, bsect) && (v.geo.fsType == Fat32 ==> w.fsiSector == v.fsiSector)
    ensures w.Valid() && v.Logical() == v.disk && w.Logical() == w.disk && w.Fat() == v.Fat()
    ensures OnRecord(w, w.disk, bsect)
  {
    hide ReadFields, Place, CheckFs, FatOf, FatAreaOk, DataAreaOk, Mirrored;
  }
}
