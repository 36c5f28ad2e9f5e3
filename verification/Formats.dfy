/** The formats on the drive, byte by byte: what other systems read and write. */
module OnDisk {
  import opened Bytes
  import opened Geometry
  import opened FatTable
  import opened Volumes
  import opened Mounts
  import opened Formatting
  import opened Files
  import opened LongNames
  import D = DirTables
  import N = NumberedNames
  import S = ShortNames
  import Saving
  import Directories

  // ---------------------------------------------------------------- boot record and partition table

  /** Words are stored with their lowest byte first. */
  lemma LittleEndian(s: seq<byte>, i: nat, v: nat)
    requires i + 3 < |s|
    ensures LdWord(s, i) == s[i] as int + 256 * (s[i + 1] as int)
    ensures LdDword(s, i) == LdWord(s, i) as int + 65536 * (LdWord(s, i + 2) as int)
    ensures var r := StWord(s, i, v); LdWord(r, i) == v % 65536 && r == s[i := v % 256][i + 1 := r[i + 1]]
    ensures var r := StDword(s, i, v); r[i..i + 4] == [v % 256, v / 256 % 256, v / 65536 % 256, v / 16777216 % 256]
  {
    WordRoundTrip(s, i, v);
  }

  /** Where mounting finds the fields of a boot record. */
  lemma RecordFields(w: Sector)
    ensures var f := ReadFields(w);
      f.sectorSize == LdWord(w, 11) && f.csize == w[13] && f.nrsv == LdWord(w, 14) && f.nFats == w[16] &&
      f.nRootdir == LdWord(w, 17) && f.tsect == (if LdWord(w, 19) != 0 then LdWord(w, 19) else LdDword(w, 32)) &&
      f.fsize == (if LdWord(w, 22) != 0 then LdWord(w, 22) else LdDword(w, 36)) && f.rootClus == LdDword(w, 44) &&
      f.fsInfo == LdWord(w, 48)
  {
  }

  ghost predicate SaysFatAt(w: Sector, i: nat)
    requires i + 2 < SECTOR_SIZE
  {
    w[i] == 0x46 && w[i + 1] == 0x41 && w[i + 2] == 0x54
  }

  /** A sector is the boot record of a FAT volume if it ends in 55 AA and says "FAT" at 54 or 82. */
  lemma RecordMarks(w: Sector)
    ensures CheckFs(w) == NoRecord <==> !(w[510] == 0x55 && w[511] == 0xAA)
    ensures CheckFs(w) == FatRecord <==> w[510] == 0x55 && w[511] == 0xAA && (SaysFatAt(w, 54) || SaysFatAt(w, 82))
  {
    LowBytes(w, 54);
    LowBytes(w, 82);
  }

  /** The first entry of a partition table: a type that is not 0 at 450, the first sector at 454. */
  lemma FirstPartition(d: Disk)
    requires d != [] && CheckFs(d[0]) == OtherRecord
    ensures d[0][450] == 0 ==> Locate(d) == Failed(NoFilesystem)
    ensures d[0][450] != 0 ==> var b := LdDword(d[0], 454);
      Locate(d) == if b >= |d| then Failed(DiskErr) else if CheckFs(d[b]) == FatRecord then At(b) else Failed(NoFilesystem)
  {
    hide CheckFs;
  }

  /** The number of clusters alone divides the FAT types. */
  lemma TypeByClusters(f: Fields, bsect: dword)
    requires Place(f, bsect).Some?
    ensures 0 < f.csize
    ensures var n, t := (f.tsect - SystemSectors(f) % WRAP) / f.csize, Place(f, bsect).value.fsType;
      (t == Fat12 <==> n < 4086) && (t == Fat16 <==> 4086 <= n < 65526) && (t == Fat32 <==> 65526 <= n)
  {
    hide Place;
    Accepted(f, bsect);
  }

  /** A card of 2 GB with 62000 clusters of 32 KB is mounted as a FAT16 volume. */
  method MountCard(d: Disk) returns (res: FResult, v: Volume?)
    requires d != [] && CheckFs(d[0]) == FatRecord && ReadFields(d[0]).(rootClus := 0, fsInfo := 0) ==
      Fields(512, 64, 1, 2, 512, 3968519, 243, 0, 0)
    ensures res == Ok && v != null && v.geo == Layout(Fat16, 64, 2, 512, 62002, 243, 1, 487, 519)
  {
    hide ReadFields, CheckFs, Hints;
    CardIsFat16(ReadFields(d[0]));
    res, v := ChkMounted(d);
  }

  lemma CardIsFat16(f: Fields)
    requires f.(rootClus := 0, fsInfo := 0) == Fields(512, 64, 1, 2, 512, 3968519, 243, 0, 0)
    ensures Place(f, 0) == Some(Layout(Fat16, 64, 2, 512, 62002, 243, 1, 487, 519))
  {
  }

  /** Where mounting finds the allocation hints: in a sector marked "RRaA", "rrAa" and 55 AA, the free count at 488
      and the last cluster at 492. */
  lemma InfoFields(d: Disk, fsi: nat)
    requires fsi < |d|
    ensures var w := d[fsi];
      Hints(d, fsi) ==
        if BytesAt(w, 0, 0x52, 0x52, 0x61, 0x41) && BytesAt(w, 484, 0x72, 0x72, 0x41, 0x61) && w[510] == 0x55 && w[511] == 0xAA
        then (LdDword(w, 492), LdDword(w, 488)) else (0, 0xFFFF_FFFF)
  {
  }

  /** The FSInfo sector that sync writes: these marks, and zeros everywhere but in the hints. */
  lemma FsInfoBytes(v: Volume)
    ensures var w := v.FsInfo();
      BytesAt(w, 0, 0x52, 0x52, 0x61, 0x41) && BytesAt(w, 484, 0x72, 0x72, 0x41, 0x61) && w[510] == 0x55 && w[511] == 0xAA
    ensures forall k :: 4 <= k < 484 || 496 <= k < 510 ==> v.FsInfo()[k] == 0
  {
    var w1: Sector := StWord(Zeros(), 510, 0xAA55);
    var w2: Sector := StDword(w1, 0, 0x41615252);
    var w3: Sector := StDword(w2, 484, 0x61417272);
    var w4: Sector := StDword(w3, 488, v.freeClust);
    var w5: Sector := StDword(w4, 492, v.lastClust);
    assert v.FsInfo() == w5;
    FirstSector(w1);
    hide StDword, StWord, LdDword, Volume.FsInfo;
    FourBytes(w1, 0, 0x41615252);
    FourBytes(w2, 484, 0x61417272);
    OtherBytes(w3, 488, v.freeClust);
    OtherBytes(w4, 492, v.lastClust);
  }

  lemma OtherBytes(w: Sector, i: nat, v: nat)
    requires i + 3 < SECTOR_SIZE
    ensures forall k :: 0 <= k < SECTOR_SIZE && !(i <= k < i + 4) ==> StDword(w, i, v)[k] == w[k]
  {
  }

  predicate BytesAt(w: Sector, i: nat, a: byte, b: byte, c: byte, d: byte)
    requires i + 3 < SECTOR_SIZE
  {
    w[i] == a && w[i + 1] == b && w[i + 2] == c && w[i + 3] == d
  }

  lemma FirstSector(w: Sector)
    requires w == StWord(Zeros(), 510, 0xAA55)
    ensures w[510] == 0x55 && w[511] == 0xAA && forall k :: 0 <= k < 510 ==> w[k] == 0
  {
  }

  lemma FourBytes(w: Sector, i: nat, v: nat)
    requires i + 3 < SECTOR_SIZE
    ensures var r := StDword(w, i, v);
      r[i] == v % 256 && r[i + 1] == v / 256 % 256 && r[i + 2] == v / 65536 % 256 && r[i + 3] == v / 16777216 % 256 &&
      forall k :: 0 <= k < SECTOR_SIZE && !(i <= k < i + 4) ==> r[k] == w[k]
  {
  }

  /** Fields of a boot record that mounting does not look at: the media descriptor, the geometry and the hidden
      sectors. */
  ghost predicate SaysCommon(w: Sector, p: Plan, media: byte) {
    && (forall k :: 0 <= k < 11 ==> w[k] == [0xEB, 0xFE, 0x90, 0x4D, 0x53, 0x44, 0x4F, 0x53, 0x35, 0x2E, 0x30][k])
    && w[21] == media && LdWord(w, 24) == 63 && LdWord(w, 26) == 255 && LdDword(w, 28) == p.bVol % WRAP
  }

  /** The drive number, the extended signature and the serial number. */
  ghost predicate SaysDrive(w: Sector, at: nat, time: dword)
    requires at + 6 < SECTOR_SIZE
  {
    w[at] == 0x80 && w[at + 2] == 0x29 && LdDword(w, at + 3) == time
  }

  lemma HeadBytes(p: Plan)
    requires p.au < 0x100
    ensures forall k :: 0 <= k < 11 ==> RecordHead(p)[k] == OEM_NAME[k]
  {
    hide Zeros;
  }

  lemma CommonBytes(p: Plan, media: byte)
    requires p.au < 0x100
    ensures SaysCommon(CommonRecord(p, media), p, media)
  {
    hide RecordHead;
    HeadBytes(p);
    var w := RecordHead(p);
    var w1: Sector := if p.nVol < 0x1_0000 then StWord(w, BPB_TOT_SEC16, p.nVol) else StDword(w, BPB_TOT_SEC32, p.nVol);
    var w2: Sector := StWord(w1[21 := media], 24, 63);
    var w3: Sector := StWord(w2, 26, 255);
    DwordRoundTrip(w3, 28, p.bVol);
  }

  lemma CommonStays(w: Sector, w': Sector, p: Plan, media: byte)
    requires SaysCommon(w, p, media) && forall k :: 0 <= k < 22 || 24 <= k < 32 ==> w'[k] == w[k]
    ensures SaysCommon(w', p, media)
  {
  }

  lemma Body32Bytes(p: Plan, media: byte, time: dword)
    requires p.au < 0x100
    ensures var w := Body32(p, media, time); SaysCommon(w, p, media) && SaysDrive(w, 64, time)
  {
    hide CommonRecord, SaysCommon;
    CommonBytes(p, media);
    CommonStays(CommonRecord(p, media), Body32(p, media, time), p, media);
    Digits(time);
  }

  lemma Body16Bytes(p: Plan, media: byte, time: dword)
    requires p.au < 0x100
    ensures var w := Body16(p, media, time); SaysCommon(w, p, media) && SaysDrive(w, 36, time)
  {
    hide CommonRecord, SaysCommon;
    CommonBytes(p, media);
    CommonStays(CommonRecord(p, media), Body16(p, media, time), p, media);
    Digits(time);
  }

  lemma SignedBytes(w: Sector, at: nat, kind: seq<byte>, p: Plan, media: byte, time: dword)
    requires |kind| == 8 && 43 <= at <= 71 && SaysCommon(w, p, media) && SaysDrive(w, at - 7, time)
    ensures var r := Signed(w, at, kind); SaysCommon(r, p, media) && SaysDrive(r, at - 7, time) && r[at..at + 19] == NO_NAME + kind
  {
    var r := Signed(w, at, kind);
    assert forall k :: 0 <= k < at ==> r[k] == w[k];
    CommonStays(w, r, p, media);
    assert r[at..at + 19] == Splice(w, at, NO_NAME + kind)[at..at + 19];
  }

  /** The rest of a boot record that f_mkfs writes: jump and name of the system, the media descriptor, the geometry,
      the hidden sectors, the drive number, the serial number, the label and the type in words. */
  lemma RecordRest(p: Plan, media: byte, time: dword)
    requires p.au < 0x100
    ensures var w, at := BootRecord(p, media, time), if p.t == Fat32 then 64 else 36;
      SaysCommon(w, p, media) && SaysDrive(w, at, time) &&
      w[at + 7..at + 18] == [0x4E, 0x4F, 0x20, 0x4E, 0x41, 0x4D, 0x45, 0x20, 0x20, 0x20, 0x20] &&
      w[at + 18..at + 26] == [0x46, 0x41, 0x54] +
        if p.t == Fat32 then [0x33, 0x32, 0x20, 0x20, 0x20] else [0x20, 0x20, 0x20, 0x20, 0x20]
  {
    hide Body32, Body16, Signed, SaysCommon, SaysDrive;
    var w := BootRecord(p, media, time);
    if p.t == Fat32 {
      Body32Bytes(p, media, time);
      SignedBytes(Body32(p, media, time), 71, FAT32_NAME, p, media, time);
      Parts19(w[71..90], NO_NAME, FAT32_NAME);
    } else {
      Body16Bytes(p, media, time);
      SignedBytes(Body16(p, media, time), 43, FAT_NAME, p, media, time);
      Parts19(w[43..62], NO_NAME, FAT_NAME);
    }
  }

  lemma Parts19(s: seq<byte>, a: seq<byte>, b: seq<byte>)
    requires s == a + b && |a| == 11
    ensures s[..11] == a && s[11..] == b
  {
  }

  /** The partition table that f_mkfs writes. */
  lemma TableBytes(p: Plan)
    ensures var w := PartitionTable(p);
      w[450] == (match p.t case Fat12 => 1 case Fat16 => if p.nVol < 65536 then 4 else 6 case Fat32 => 12) &&
      w[446] == 0 && w[447] == 1 && w[448] == 1 && w[449] == 0 && w[451] == 254 &&
      LdDword(w, 454) == 63 && LdDword(w, 458) == p.nVol % WRAP && w[510] == 0x55 && w[511] == 0xAA
    ensures forall k :: 0 <= k < 446 || 462 <= k < 510 ==> PartitionTable(p)[k] == 0
  {
    Digits(p.nVol);
  }

  /** The entries that f_mkfs reserves: the media descriptor with all other bits set, and an end mark. */
  lemma ReservedEntries(t: FatType, media: byte)
    ensures var w := FirstFat(t, media);
      w[0] == media && w[1] == 255 && w[2] == 255 && w[3] == (if t == Fat12 then 0 else 255) &&
      (t == Fat32 ==> LdDword(w, 4) == 0xFFFF_FFFF && LdDword(w, 8) == 0x0FFF_FFFF)
    ensures forall k :: (if t == Fat32 then 12 else 4) <= k < 512 ==> FirstFat(t, media)[k] == 0
  {
  }

  /** Layouts on the drive of this repository, whose erase block has 128 sectors: for a card of 2 GB, for one of 8 GB,
      and for one of 4 MB without a partition table. */
  lemma PlanExamples()
    ensures PlanOf(3911680, false, 0, 128) == Some(Plan(Fat16, 64, 63, 3911617, 1, 288, 32, 61114))
    ensures PlanOf(15523840, false, 0, 128) == Some(Plan(Fat32, 64, 63, 15523777, 89, 1896, 0, 242528))
    ensures PlanOf(8192, true, 0, 128) == Some(Plan(Fat12, 4, 0, 8192, 1, 95, 32, 2016))
  {
    hide Decide, UnitOf;
    Decide16();
    Decide32();
    Decide12();
    ChosenUnits(3911617);
    ChosenUnits(15523777);
    ChosenUnits(8192);
  }

  lemma Decide16()
    ensures Decide(3911617, 63, 64, 128) == Some(Plan(Fat16, 64, 63, 3911617, 1, 288, 32, 61114))
  {
    assert SubType(3911617 / 64) == Fat16 && FatSectors(Fat16, 61119) == 239 && Gap(335, 128) == 49;
  }

  lemma Decide32()
    ensures Decide(15523777, 63, 64, 128) == Some(Plan(Fat32, 64, 63, 15523777, 89, 1896, 0, 242528))
  {
    assert SubType(15523777 / 64) == Fat32 && FatSectors(Fat32, 242559) == 1896 && Gap(1991, 128) == 57;
  }

  lemma Decide12()
    ensures Decide(8192, 0, 4, 128) == Some(Plan(Fat12, 4, 0, 8192, 1, 95, 32, 2016))
  {
    assert SubType(8192 / 4) == Fat12 && FatSectors(Fat12, 2048) == 7 && Gap(40, 128) == 88;
  }

  /** The FAT is sized exactly for the clusters that the whole volume could hold. */
  lemma FatSizedExactly(t: FatType, n: nat)
    requires n * 4 + 8 + 512 <= WRAP
    ensures var span := match t case Fat12 => (n * 3 + 1) / 2 + 3 case Fat16 => 2 * n + 4 case Fat32 => 4 * n + 8;
      512 * (FatSectors(t, n) - 1) < span <= 512 * FatSectors(t, n)
  {
  }

  /** The data area starts at the first multiple of the erase block behind the reserved sectors, the FAT and the root
      directory; FAT32 reserves the sectors in between, the others add them to the FAT. */
  lemma LayoutIsTight(nVol: dword, bVol: nat, au: nat, block: nat)
    requires 0 < au && 0 < block && Decide(nVol, bVol, au, block).Some?
    ensures var n, p := nVol / au, Decide(nVol, bVol, au, block).value;
      0 <= n && p.t == (if n < 4086 then Fat12 else if n < 65526 then Fat16 else Fat32) &&
      p.nDir == (if p.t == Fat32 then 0 else 32) && (if p.t == Fat32 then p.nFat == FatSectors(p.t, n) else p.nRsv == 1)
    ensures var n, p := nVol / au, Decide(nVol, bVol, au, block).value;
      0 <= n &&
      var start, data := bVol + (if p.t == Fat32 then 32 else 1) + FatSectors(p.t, n) + p.nDir, bVol + SystemArea(p);
      data % block == 0 && start <= data < start + block
  {
    hide FatSectors, SubType;
    QuotientAtLeast(nVol, au, 0);
    TypeIs(nVol / au);
    var t := SubType(nVol / au);
    var start := bVol + (if t == Fat32 then 32 else 1) + FatSectors(t, nVol / au) + if t == Fat32 then 0 else 32;
    Remainder((start + block - 1) / block * block, block, (start + block - 1) / block, 0);
  }

  lemma TypeIs(n: nat)
    ensures SubType(n) == if n < 4086 then Fat12 else if n < 65526 then Fat16 else Fat32
  {
  }

  /** Cluster sizes that f_mkfs chooses by the size of the volume in millions of bytes. */
  lemma ChosenUnits(nVol: nat)
    ensures var m, u := nVol / 2000, 512 * UnitOf(nVol, 0);
      u == if m >= 1024 then 32768 else if m >= 512 then 16384 else if m >= 256 then 8192 else if m >= 128 then 4096
           else if m >= 64 then 2048 else if m >= 32 then 16384 else if m >= 16 then 8192 else if m >= 8 then 4096
           else if m >= 4 then 2048 else if m >= 2 then 1024 else 512
  {
  }

  // ---------------------------------------------------------------- the FAT

  /** FAT12 entries are packed two into three bytes, FAT16 and FAT32 entries lie in two and four bytes, lowest first;
      of FAT32 entries the top four bits are not part. */
  lemma EntriesInBytes(g: Layout, d: Disk, c: nat)
    requires FatAreaOk(g, |d|) && c < g.nFatent
    ensures EntryAt(g.fsType, c) + EntryBytes(g.fsType) <= SECTOR_SIZE * g.fsize && g.fatbase + g.fsize <= |d|
    ensures g.fsType == Fat12 && c % 2 == 0 ==>
      3 * (c / 2) + 1 < SECTOR_SIZE * g.fsize &&
      Entry(g, d, c) == FatByte(g, d, 3 * (c / 2)) as int + 256 * (FatByte(g, d, 3 * (c / 2) + 1) as int % 16)
    ensures g.fsType == Fat12 && c % 2 == 1 ==>
      3 * (c / 2) + 2 < SECTOR_SIZE * g.fsize &&
      Entry(g, d, c) == FatByte(g, d, 3 * (c / 2) + 1) as int / 16 + 16 * (FatByte(g, d, 3 * (c / 2) + 2) as int)
    ensures g.fsType == Fat16 ==>
      Entry(g, d, c) == FatByte(g, d, 2 * c) as int + 256 * (FatByte(g, d, 2 * c + 1) as int)
    ensures g.fsType == Fat32 ==>
      Entry(g, d, c) == FatByte(g, d, 4 * c) as int + 256 * (FatByte(g, d, 4 * c + 1) as int) +
        65536 * (FatByte(g, d, 4 * c + 2) as int) + 16777216 * (FatByte(g, d, 4 * c + 3) as int % 16)
  {
    hide FatAreaOk, FatByte;
    EntryInside(g, |d|, c);
    var at := EntryAt(g.fsType, c);
    match g.fsType
    case Fat12 => Packed12(c, FatByte(g, d, at), FatByte(g, d, at + 1));
    case Fat16 =>
    case Fat32 => Packed32(FatByte(g, d, at), FatByte(g, d, at + 1), FatByte(g, d, at + 2), FatByte(g, d, at + 3));
  }

  lemma Packed12(c: nat, x: byte, y: byte)
    ensures c % 2 == 0 ==> EntryAt(Fat12, c) == 3 * (c / 2) && Unpack12(false, x, y) == x as int + 256 * (y as int % 16)
    ensures c % 2 == 1 ==> EntryAt(Fat12, c) == 3 * (c / 2) + 1 && Unpack12(true, x, y) == x as int / 16 + 16 * (y as int)
  {
    Remainder(x as int + 256 * (y as int), 0x1000, y as int / 16, x as int + 256 * (y as int % 16));
    Remainder(x as int + 256 * (y as int), 16, x as int / 16 + 16 * (y as int), x as int % 16);
  }

  lemma Packed32(x: byte, y: byte, z: byte, top: byte)
    ensures Unpack32(x, y, z, top) == x as int + 256 * (y as int) + 65536 * (z as int) + 16777216 * (top as int % 16)
  {
    var low := x as int + 256 * (y as int) + 65536 * (z as int);
    Remainder(low + 16777216 * (top as int), 0x1000_0000, top as int / 16, low + 16777216 * (top as int % 16));
  }

  // ---------------------------------------------------------------- directory entries

  /** An entry is deleted or unused by its first byte, and by its attributes a part of a long name, a volume label,
      or the entry of an object, which may be a directory or read-only. */
  lemma EntryKinds(e: DirEntry)
    ensures D.IsBlank(e) <==> e[0] == 0 || e[0] == 0xE5
    ensures D.IsLong(e) <==> e[11] % 64 == 15
    ensures D.IsLabel(e) <==> e[11] / 8 % 2 == 1 && e[11] % 64 != 15
    ensures D.IsShort(e) <==> e[0] != 0 && e[0] != 0xE5 && e[11] / 8 % 2 == 0
    ensures Saving.IsReadOnly(e) <==> e[11] % 2 == 1
    ensures Saving.IsDirectory(e) <==> e[11] / 16 % 2 == 1
  {
    if e[11] % 64 == 15 {
      Remainder(e[11], 8, 8 * (e[11] as int / 64) + 1, 7);
    }
  }

  /** A new entry: the short name, the case flags at 12, and zeros. */
  lemma NewEntryBytes(fn: seq<byte>, nt: byte)
    requires |fn| == 11
    ensures var e := D.ShortEntry(fn, nt); e[..11] == fn && e[12] == nt && forall k :: k == 11 || 13 <= k < 32 ==> e[k] == 0
  {
  }

  /** The case flags: 8 for a body, 16 for an extension in lower case. */
  lemma CaseFlagBits(o: S.ObjectName)
    ensures Directories.CaseFlags(o) == (if o.body then 8 else 0) + if o.ext then 16 else 0
  {
  }

  predicate InCleared(i: int) {
    i == 11 || 14 <= i < 18 || 20 <= i < 22 || 26 <= i < 32
  }

  /** What f_open clears of the entry of a new file, with the creation time at 14. */
  lemma ClearedEntryBytes(w: Sector, at: nat, time: dword)
    requires at + 32 <= 512
    ensures var w' := Saving.ClearedEntry(w, at, time);
      w'[at + 11] == 0 && LdDword(w', at + 14) == time && LdWord(w', at + 20) == 0 && LdWord(w', at + 26) == 0 &&
      LdDword(w', at + 28) == 0
    ensures forall k :: 0 <= k < 512 && !InCleared(k - at) ==> Saving.ClearedEntry(w, at, time)[k] == w[k]
  {
    Digits(time);
  }

  /** What f_sync writes: the archive bit, the cluster in two halves, the write time and the size. */
  lemma UpdatedEntryBytes(w: Sector, at: nat, clust: dword, time: dword, size: dword)
    requires at + 32 <= 512
    ensures var w' := UpdatedEntry(w, at, clust, time, size);
      w'[at + 11] as int / 32 % 2 == 1 && LdWord(w', at + 20) == clust / 65536 && LdDword(w', at + 22) == time &&
      LdWord(w', at + 26) == clust % 65536 && LdDword(w', at + 28) == size
    ensures forall k :: 0 <= k < 512 && k != at + 11 && !(at + 20 <= k < at + 32) ==>
      UpdatedEntry(w, at, clust, time, size)[k] == w[k]
  {
    UpdatedEntryAttr(w, at, clust, time, size);
    UpdatedEntryCluster(w, at, clust, time, size);
    UpdatedEntryTime(w, at, clust, time, size);
    UpdatedEntrySize(w, at, clust, time, size);
    hide UpdatedEntry;
    BitSet(w[at + 11]);
    forall k | 0 <= k < 512 && k != at + 11 && !(at + 20 <= k < at + 32)
      ensures UpdatedEntry(w, at, clust, time, size)[k] == w[k]
    {
      UpdatedEntryKeeps(w, at, clust, time, size, k);
    }
    var w' := UpdatedEntry(w, at, clust, time, size);
    Halves(LdWord(w', at + 20), LdWord(w', at + 26));
  }

  lemma BitSet(a: byte)
    ensures (if a / 0x20 % 2 == 1 then a as int else a + 0x20) / 32 % 2 == 1
  {
  }

  lemma Halves(hi: word, lo: word)
    ensures (65536 * (hi as int) + lo) / 65536 == hi && (65536 * (hi as int) + lo) % 65536 == lo
  {
  }

  /** Where the 13 units of a part of a long name lie. */
  function UnitAt(s: nat): nat {
    if s < 5 then 1 + 2 * s else if s < 11 then 14 + 2 * (s - 5) else 28 + 2 * (s - 11)
  }

  /** A part of a long name: its number, with bit 6 set in the last part, the attributes 0F, the checksum at 13, and
      the units, ended by a zero and filled up with FFFF. */
  lemma PartBytes(e: DirEntry, name: seq<word>, ord: nat, sum: byte)
    requires IsPart(e, name, ord, sum)
    ensures e[0] == (if 13 * ord >= |name| then ord + 64 else ord) && e[11] == 15 && e[12] == 0 && e[13] == sum
    ensures e[26] == 0 && e[27] == 0
    ensures forall s :: 0 <= s < 13 ==> var k := 13 * (ord - 1) + s;
      LdWord(e, UnitAt(s)) == if k < |name| then name[k] else if k == |name| then 0 else 65535
  {
    forall s | 0 <= s < 13
      ensures var k := 13 * (ord - 1) + s;
        LdWord(e, UnitAt(s)) == if k < |name| then name[k] else if k == |name| then 0 else 65535
    {
      assert UnitAt(s) == LFN_OFS[s];
      assert Unit(e, s) == Stored(name, (ord - 1) * PART + s);
    }
  }

  // ---------------------------------------------------------------- names

  /** The first bytes of double-byte characters. */
  lemma LeadBytes(c: byte)
    ensures N.IsLead(c) <==> 0x81 <= c <= 0x9F || 0xE0 <= c <= 0xFC
  {
  }

  /** Characters that no name may contain: `" * : < > ? |` and the delete character. */
  lemma IllegalCharacters(seg: seq<byte>, k: nat)
    requires k < |seg| && seg[k] in {0x22, 0x2A, 0x3A, 0x3C, 0x3E, 0x3F, 0x7C, 0x7F}
    ensures !S.Acceptable(seg)
  {
  }

  /** A name of at most 255 other characters is acceptable, unless it is all dots and spaces. */
  lemma OtherCharacters(seg: seq<byte>)
    requires |seg| <= 255 && (exists k :: 0 <= k < |seg| && seg[k] != 0x20 && seg[k] != 0x2E)
    requires forall k :: 0 <= k < |seg| ==> seg[k] !in {0x22, 0x2A, 0x3A, 0x3C, 0x3E, 0x3F, 0x7C, 0x7F}
    ensures S.Acceptable(seg)
  {
  }

  /** Slashes separate segments, a control character ends the path; letters are A to Z and a to z. */
  lemma PathCharacters(c: byte)
    ensures S.IsSeparator(c) <==> c == 0x2F || c == 0x5C
    ensures S.EndsSegment(c) <==> c < 0x20 || c == 0x2F || c == 0x5C
    ensures S.Up(c) == (if 0x61 <= c <= 0x7A then c - 32 else c) && S.Low(c) == if 0x41 <= c <= 0x5A then c + 32 else c
  {
  }

  /** A short name prints its body, a dot and its extension, up to the first spaces; 05 stands for E5. */
  lemma PrintedCharacters(c: byte)
    requires c != 0x20 && c != 0x05
    ensures S.Printed([c, 0x20, 0x20, 0x20, 0x20, 0x20, 0x20, 0x20, 0x54, 0x20, 0x20], false, false) == [c, 0x2E, 0x54]
    ensures S.Printed([0x05, c, 0x20, 0x20, 0x20, 0x20, 0x20, 0x20, 0x20, 0x20, 0x20], false, false) == [0xE5, c]
  {
    var a: seq<byte>, b: seq<byte> := [c, 0x20, 0x20, 0x20, 0x20, 0x20, 0x20, 0x20, 0x54, 0x20, 0x20],
      [0x05, c, 0x20, 0x20, 0x20, 0x20, 0x20, 0x20, 0x20, 0x20, 0x20];
    S.ToSpaceIs(a[..8], 1);
    S.ToSpaceIs(a[8..], 1);
    S.ToSpaceIs(b[..8], 2);
    hide S.ToSpace;
  }

  /** Short names hold no spaces and dots, and an underscore for each of `+ , ; = [ ]`. */
  lemma KeptCharacters(s: seq<byte>, c: byte)
    ensures S.Kept(s + [c]) == S.Kept(s) +
      if c == 0x20 || c == 0x2E then [] else if c in {0x2B, 0x2C, 0x3B, 0x3D, 0x5B, 0x5D} then [0x5F] else [c]
  {
    assert (s + [c])[..|s + [c]| - 1] == s;
  }

  /** The first five short names for a long name are numbered plainly: "LONGNA~1WAV" to "LONGNA~5WAV". */
  lemma PlainNumbers(name: seq<word>, n: word)
    requires 1 <= n <= 5
    ensures N.Numbered([0x4C, 0x4F, 0x4E, 0x47, 0x4E, 0x41, 0x4D, 0x45, 0x57, 0x41, 0x56], name, n) ==
      [0x4C, 0x4F, 0x4E, 0x47, 0x4E, 0x41, 0x7E, 0x30 + n, 0x57, 0x41, 0x56]
  {
    var src: seq<byte> := [0x4C, 0x4F, 0x4E, 0x47, 0x4E, 0x41, 0x4D, 0x45, 0x57, 0x41, 0x56];
    assert N.Number(n, name) == n && N.Hex(n) == [N.HexDigit(n)];
    assert N.Cut(src, 4, 6) == 6;
    assert N.Cut(src, 2, 6) == 6;
    assert N.Cut(src, 0, 6) == 6;
  }

  /** From the sixth on the number is mixed with the long name: for "a b" the seventh is "AB~208B". */
  lemma MixedNumber()
    ensures N.Numbered([0x41, 0x42, 0x20, 0x20, 0x20, 0x20, 0x20, 0x20, 0x20, 0x20, 0x20], [0x61, 0x20, 0x62], 7) ==
      [0x41, 0x42, 0x7E, 0x32, 0x30, 0x38, 0x42, 0x20, 0x20, 0x20, 0x20]
    ensures N.Number(6, [0x61, 0x20, 0x62]) == 0x8B
  {
    hide N.Hash, N.Hex, N.Cut;
    MixedWith(6, 0x64, 0x52, 0x8B);
    MixedWith(7, 0x8064, 0x4052, 0x208B);
    Digits208B();
    CutBehindTwo([0x41, 0x42, 0x20, 0x20, 0x20, 0x20, 0x20, 0x20, 0x20, 0x20, 0x20]);
  }

  lemma CutBehindTwo(src: seq<byte>)
    requires |src| == 11 && src[0] == 0x41 && src[1] == 0x42 && src[2] == 0x20
    ensures N.Cut(src, 0, 3) == 2
  {
    assert N.Cut(src, 2, 3) == 2;
    assert N.Cut(src, 1, 3) == 2;
  }

  lemma MixedWith(n: word, a: word, b: word, c: word)
    requires N.Mix(n, 0x61) == a && N.Mix(a, 0x20) == b && N.Mix(b, 0x62) == c
    ensures N.Hash(n, [0x61, 0x20, 0x62]) == c
  {
    var name: seq<word> := [0x61, 0x20, 0x62];
    assert name[..2] == [0x61, 0x20] && name[..2][..1] == [0x61] && [0x61][..0] == [];
    assert N.Hash(n, []) == n;
    assert N.Hash(n, [0x61]) == a;
    assert N.Hash(n, name[..2]) == b;
  }

  lemma Digits208B()
    ensures N.Hex(0x208B) == [0x32, 0x30, 0x38, 0x42]
  {
    assert N.Hex(2) == [0x32];
    NextDigit(0x20, 2, 0);
    NextDigit(0x208, 0x20, 8);
    NextDigit(0x208B, 0x208, 11);
    hide N.Hex;
  }

  lemma NextDigit(n: nat, q: nat, r: nat)
    requires n == 16 * q + r && 0 < q && r < 16
    ensures N.Hex(n) == N.Hex(q) + [N.HexDigit(r)]
  {
  }

  /** There are 99 of them. */
  lemma NinetyNineNumbers(t: D.Table, sn: seq<byte>, name: seq<word>)
    requires |sn| == 11
    ensures D.AllTaken(t, sn, name) <==> forall m: word :: 1 <= m <= 99 ==> D.HasShort(t, N.Numbered(sn, name, m))
  {
  }
}
