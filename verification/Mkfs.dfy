/** Formatting a drive, and mounting what was formatted. */
module Formatting {
  import opened Bytes
  import opened Geometry
  import opened FatTable
  import opened Chains
  import opened Volumes
  import opened Mounts

  const N_ROOTDIR := 512
  const VST := [1024, 512, 256, 128, 64, 32, 16, 8, 4, 2, 0]
  const CST := [32768, 16384, 8192, 4096, 2048, 16384, 8192, 4096, 2048, 1024, 512]

  /** The decisions of f_mkfs: one FAT copy, the data area aligned to an erase block. */
  datatype Plan = Plan(
    t: FatType,
    au: nat,      // sectors per cluster
    bVol: nat,    // first sector of the volume
    nVol: nat,    // sectors of the volume
    nRsv: nat,    // reserved sectors
    nFat: nat,    // sectors of the FAT
    nDir: nat,    // sectors of the root directory
    nClst: nat)   // clusters

  /** Sectors per cluster for an allocation unit in bytes. */
  function UnitSectors(au: nat): (u: nat)
    ensures 1 <= u <= 128
  {
    var u := au / SECTOR_SIZE;
    if u == 0 then 1 else if u > 128 then 128 else u
  }

  lemma UnitIsPower(au: nat)
    requires IsPowerOfTwo(au)
    ensures UnitSectors(au) in {1, 2, 4, 8, 16, 32, 64, 128}
  {
    if au < 0x1_0000 {
      SmallPowers(au);
    }
  }

  /** Sectors of a FAT for `n` clusters; on FAT32 the byte count is cut to 32 bits. */
  function FatSectors(t: FatType, n: nat): nat {
    match t
    case Fat12 => ((n * 3 + 1) / 2 + 3 + (SECTOR_SIZE - 1)) / SECTOR_SIZE
    case Fat16 => (n * 2 + 4 + (SECTOR_SIZE - 1)) / SECTOR_SIZE
    case Fat32 => (n * 4 % WRAP + 8 + (SECTOR_SIZE - 1)) % WRAP / SECTOR_SIZE
  }

  /** Sectors from `at` to the next multiple of the erase block. */
  function Gap(at: nat, block: nat): (g: int)
    requires 0 < block
    ensures 0 <= g < block
  {
    (at + block - 1) / block * block - at
  }

  /** The layout f_mkfs decides on: sized for the clusters the whole volume could hold, then aligned, then counted
      again. */
  function Decide(nVol: dword, bVol: nat, au: nat, block: nat): (p: Option<Plan>)
    requires 0 < au && 0 < block
  {
    QuotientAtLeast(nVol, au, 0);
    var t := SubType(nVol / au);
    var nFat := FatSectors(t, nVol / au);
    var nRsv := if t == Fat32 then 32 else 1;
    var nDir := if t == Fat32 then 0 else N_ROOTDIR / ENTRIES_PER_SECTOR;
    var bData := bVol + nRsv + nFat + nDir;
    if nVol < bData + au - bVol then None
    else
      var gap := Gap(bData, block);
      var rsv, fat := if t == Fat32 then nRsv + gap else nRsv, if t == Fat32 then nFat else nFat + gap;
      var room := (nVol - rsv - fat - nDir) % WRAP;
      QuotientAtLeast(room, au, 0);
      var nClst := room / au;
      if (t == Fat16 && nClst < MIN_FAT16) || (t == Fat32 && nClst < MIN_FAT32) then None
      else Some(Plan(t, au, bVol, nVol, rsv, fat, nDir, nClst))
  }

  // ---------------------------------------------------------------- the FAT is large enough

  /** Bytes of FAT for `n` clusters as f_mkfs and as chk_mounted compute them: one formula, also on FAT12 with its
      rounding. */
  lemma SameSpan(n: nat)
    ensures FatSpan(Fat12, n + 2) == (n * 3 + 1) / 2 + 3
    ensures FatSpan(Fat16, n + 2) == n * 2 + 4
    ensures FatSpan(Fat32, n + 2) == n * 4 + 8
  {
    Span12(n);
  }

  lemma Span12(n: nat)
    ensures (n + 2) * 3 / 2 + (n + 2) % 2 == (n * 3 + 1) / 2 + 3
  {
    var m := n / 2;
    if n == 2 * m {
      Remainder((n + 2) * 3, 2, 3 * m + 3, 0);
      Remainder(n + 2, 2, m + 1, 0);
      Remainder(n * 3 + 1, 2, 3 * m, 1);
    } else {
      assert n == 2 * m + 1;
      Remainder((n + 2) * 3, 2, 3 * m + 4, 1);
      Remainder(n + 2, 2, m + 1, 1);
      Remainder(n * 3 + 1, 2, 3 * m + 2, 0);
    }
  }

  lemma SpanGrows(t: FatType, m: nat, n: nat)
    requires m <= n
    ensures FatSpan(t, m + 2) <= FatSpan(t, n + 2)
  {
    SameSpan(m);
    SameSpan(n);
  }

  function SystemArea(p: Plan): nat {
    p.nRsv + p.nFat + p.nDir
  }

  /** The aligned layout leaves a cluster. */
  predicate Room(p: Plan) {
    SystemArea(p) + p.au <= p.nVol
  }

  /** Byte counts of the FAT stay below 2^32. */
  predicate Countable(nVol: nat, au: nat)
    requires 0 < au
  {
    nVol / au * 4 + 8 + SECTOR_SIZE <= WRAP
  }

  /** The clusters counted last are no more than those the FAT was sized for, so it still holds every entry. */
  lemma FatStillFits(nVol: dword, bVol: nat, au: nat, block: nat)
    requires 0 < au <= 128 && 0 < block <= 32768 && Countable(nVol, au) && Decide(nVol, bVol, au, block).Some?
    ensures var p := Decide(nVol, bVol, au, block).value;
      p.nRsv < 0x1_0000 && 0 < p.nFat < 0x100_0000 && (p.t != Fat32 ==> p.nFat < 0x1_0000) &&
      (p.t == Fat32 ==> 32 <= p.nRsv) &&
      (SystemArea(p) <= nVol ==>
        p.nClst == (nVol - SystemArea(p)) / au && p.nClst <= nVol / au && (p.nClst >= 1 <==> Room(p)) &&
        (Room(p) ==> p.t == SubType(p.nClst)) &&
        FatSpan(p.t, p.nClst + 2) <= SECTOR_SIZE * p.nFat && FatSpan(p.t, p.nClst + 2) + SECTOR_SIZE <= WRAP)
  {
    hide FatSpan, FatSectors, Gap;
    QuotientAtLeast(nVol, au, 0);
    var n0 := nVol / au;
    var p := Decide(nVol, bVol, au, block).value;
    FirstSize(p.t, n0);
    if SystemArea(p) <= nVol {
      var room := nVol - SystemArea(p);
      QuotientAtLeast(room, au, 0);
      FewerClusters(room, nVol, au);
      SpanGrows(p.t, room / au, n0);
    }
  }

  lemma FirstSize(t: FatType, n: nat)
    requires n * 4 + 8 + SECTOR_SIZE <= WRAP && t == SubType(n)
    ensures FatSpan(t, n + 2) + SECTOR_SIZE <= WRAP
    ensures FatSpan(t, n + 2) <= SECTOR_SIZE * FatSectors(t, n)
    ensures 0 < FatSectors(t, n) && FatSectors(t, n) < if t == Fat32 then 0x80_0001 else 0x200
  {
    hide FatSpan;
    SameSpan(n);
  }

  lemma FewerClusters(room: nat, all: nat, au: nat)
    requires 0 < au && room <= all
    ensures room / au <= all / au
    ensures room / au >= 1 <==> room >= au
  {
    QuotientAtLeast(all, au, room / au);
    if room >= au {
      QuotientAtLeast(room, au, 1);
    } else {
      Remainder(room, au, 0, room);
    }
  }

  // ---------------------------------------------------------------- the sectors that are written

  function MediaByte(sfd: bool): byte {
    if sfd then 0xF0 else 0xF8
  }

  function SystemId(p: Plan): byte {
    match p.t
    case Fat12 => 0x01
    case Fat16 => if p.nVol < 0x1_0000 then 0x04 else 0x06
    case Fat32 => 0x0C
  }

  /** The partition table of a drive with one partition. */
  function PartitionTable(p: Plan): Sector {
    var n: nat := (p.bVol + p.nVol) / 63 / 255;
    var w: Sector := Zeros();
    var w: Sector := w[MBR_TABLE + 1 := 1][MBR_TABLE + 2 := 1][MBR_TABLE + 4 := SystemId(p)][MBR_TABLE + 5 := 254];
    var w: Sector := w[MBR_TABLE + 6 := (n / 4 / 64 * 64 + 63) % 0x100][MBR_TABLE + 7 := n % 0x100];
    var w: Sector := StDword(w, MBR_TABLE + 8, 63);
    var w: Sector := StDword(w, MBR_TABLE + 12, p.nVol);
    StWord(w, BS_55AA, 0xAA55)
  }

  const OEM_NAME: seq<byte> := [0xEB, 0xFE, 0x90, 0x4D, 0x53, 0x44, 0x4F, 0x53, 0x35, 0x2E, 0x30]   // jump, "MSDOS5.0"
  const NO_NAME: seq<byte> := [0x4E, 0x4F, 0x20, 0x4E, 0x41, 0x4D, 0x45, 0x20, 0x20, 0x20, 0x20]    // "NO NAME    "
  const FAT_NAME: seq<byte> := [0x46, 0x41, 0x54, 0x20, 0x20, 0x20, 0x20, 0x20]                     // "FAT     "
  const FAT32_NAME: seq<byte> := [0x46, 0x41, 0x54, 0x33, 0x32, 0x20, 0x20, 0x20]                   // "FAT32   "

  /** The boot record, first fields. */
  function RecordHead(p: Plan): Sector
    requires p.au < 0x100
  {
    var w: Sector := Splice(Zeros(), 0, OEM_NAME);
    var w: Sector := StWord(w, BPB_BYTS_PER_SEC, SECTOR_SIZE);
    var w: Sector := w[BPB_SEC_PER_CLUS := p.au];
    var w: Sector := StWord(w, BPB_RSVD_SEC_CNT, p.nRsv);
    var w: Sector := w[BPB_NUM_FATS := 1];
    StWord(w, BPB_ROOT_ENT_CNT, if p.t == Fat32 then 0 else N_ROOTDIR)
  }

  /** The boot record, fields common to all types. */
  function CommonRecord(p: Plan, media: byte): Sector
    requires p.au < 0x100
  {
    var w := RecordHead(p);
    var w: Sector := if p.nVol < 0x1_0000 then StWord(w, BPB_TOT_SEC16, p.nVol) else StDword(w, BPB_TOT_SEC32, p.nVol);
    var w: Sector := w[21 := media];
    var w: Sector := StWord(w, 24, 63);
    var w: Sector := StWord(w, 26, 255);
    StDword(w, 28, p.bVol)
  }

  /** The boot record, last fields: the volume label, the type at its end, and the signature. */
  function Signed(w: Sector, at: nat, kind: seq<byte>): Sector
    requires |kind| == 8 && at <= 71
  {
    var w: Sector := Splice(w, at, NO_NAME + kind);
    StWord(w, BS_55AA, 0xAA55)
  }

  lemma SignedSays(w: Sector, at: nat, kind: seq<byte>)
    requires |kind| == 8 && at <= 71
    ensures var r := Signed(w, at, kind);
      LdWord(r, BS_55AA) == 0xAA55 && (forall k :: 0 <= k < 3 ==> r[at + 11 + k] == kind[k]) && forall k :: 0 <= k < at ==> r[k] == w[k]
  {
  }

  /** The three letters in front of the type make a FAT boot record. */
  lemma SaysFat(w: Sector)
    requires LdWord(w, BS_55AA) == 0xAA55
    requires (w[BS_FIL_SYS_TYPE] == 0x46 && w[BS_FIL_SYS_TYPE + 1] == 0x41 && w[BS_FIL_SYS_TYPE + 2] == 0x54) ||
             (w[BS_FIL_SYS_TYPE32] == 0x46 && w[BS_FIL_SYS_TYPE32 + 1] == 0x41 && w[BS_FIL_SYS_TYPE32 + 2] == 0x54)
    ensures CheckFs(w) == FatRecord
  {
    LowBytes(w, BS_FIL_SYS_TYPE);
    LowBytes(w, BS_FIL_SYS_TYPE32);
  }

  lemma LowBytes(w: Sector, i: nat)
    requires i + 3 < SECTOR_SIZE
    ensures LdDword(w, i) % 0x100_0000 == w[i] as int + 0x100 * (w[i + 1] as int) + 0x1_0000 * (w[i + 2] as int)
  {
    Remainder(LdDword(w, i), 0x100_0000, w[i + 3], w[i] as int + 0x100 * (w[i + 1] as int) + 0x1_0000 * (w[i + 2] as int));
  }

  /** The boot record of a FAT32 volume. */
  function Body32(p: Plan, media: byte, time: dword): Sector
    requires p.au < 0x100
  {
    var w: Sector := StDword(CommonRecord(p, media), 67, time);
    var w: Sector := StDword(w, BPB_FAT_SZ32, p.nFat);
    var w: Sector := StDword(w, BPB_ROOT_CLUS, 2);
    var w: Sector := StWord(w, BPB_FS_INFO, 1);
    var w: Sector := StWord(w, 50, 6);
    w[64 := 0x80][66 := 0x29]
  }

  /** The boot record of a FAT12 or FAT16 volume. */
  function Body16(p: Plan, media: byte, time: dword): Sector
    requires p.au < 0x100
  {
    var w: Sector := StDword(CommonRecord(p, media), 39, time);
    var w: Sector := StWord(w, BPB_FAT_SZ16, p.nFat);
    w[36 := 0x80][38 := 0x29]
  }

  function BootRecord(p: Plan, media: byte, time: dword): Sector
    requires p.au < 0x100
  {
    if p.t == Fat32 then Signed(Body32(p, media, time), 71, FAT32_NAME) else Signed(Body16(p, media, time), 43, FAT_NAME)
  }

  /** What the boot record of a plan says, field by field. */
  function FieldsOf(p: Plan): Fields
    requires p.au < 0x100 && p.nRsv < 0x1_0000 && p.nVol < WRAP && p.nFat < WRAP
  {
    Fields(SECTOR_SIZE, p.au, p.nRsv, 1, if p.t == Fat32 then 0 else N_ROOTDIR, p.nVol, p.nFat,
           if p.t == Fat32 then 2 else 0, if p.t == Fat32 then 1 else 0)
  }

  ghost predicate Agree(f: Fields, g: Fields) {
    && f.sectorSize == g.sectorSize && f.csize == g.csize && f.nrsv == g.nrsv
    && f.nFats == g.nFats && f.nRootdir == g.nRootdir && f.tsect == g.tsect
  }

  lemma CommonSays(p: Plan, media: byte)
    requires p.au < 0x100 && p.nRsv < 0x1_0000 && 0 < p.nVol < WRAP && p.nFat < WRAP
    ensures Agree(ReadFields(CommonRecord(p, media)), FieldsOf(p))
    ensures LdWord(CommonRecord(p, media), BPB_FAT_SZ16) == 0
  {
    hide RecordHead;
    HeadSays(p);
    Digits(p.nVol);
  }

  lemma HeadSays(p: Plan)
    requires p.au < 0x100 && p.nRsv < 0x1_0000
    ensures var w := RecordHead(p);
      LdWord(w, BPB_BYTS_PER_SEC) == SECTOR_SIZE && w[BPB_SEC_PER_CLUS] == p.au &&
      LdWord(w, BPB_RSVD_SEC_CNT) == p.nRsv &&
      w[BPB_NUM_FATS] == 1 && LdWord(w, BPB_ROOT_ENT_CNT) == (if p.t == Fat32 then 0 else N_ROOTDIR) &&
      forall k :: BPB_TOT_SEC16 <= k < SECTOR_SIZE ==> w[k] == 0
  {
    hide Splice, Zeros;
    Blank();
    Digits(p.nRsv);
  }

  lemma Blank()
    ensures var w := Splice(Zeros(), 0, OEM_NAME); forall k :: 11 <= k < SECTOR_SIZE ==> w[k] == 0
  {
  }

  lemma Body32Says(p: Plan, media: byte, time: dword)
    requires p.au < 0x100 && p.nRsv < 0x1_0000 && 0 < p.nVol < WRAP && p.nFat < WRAP && p.t == Fat32
    ensures ReadFields(Body32(p, media, time)) == FieldsOf(p)
  {
    hide CommonRecord;
    CommonSays(p, media);
    Digits(p.nFat);
  }

  lemma Body16Says(p: Plan, media: byte, time: dword)
    requires p.au < 0x100 && p.nRsv < 0x1_0000 && 0 < p.nVol < WRAP && 0 < p.nFat < 0x1_0000 && p.t != Fat32
    ensures var f := ReadFields(Body16(p, media, time)); Agree(f, FieldsOf(p)) && f.fsize == p.nFat
  {
    hide CommonRecord;
    CommonSays(p, media);
    Digits(p.nFat);
  }

  /** All the fields lie in front of the label. */
  lemma FieldsInFront(w: Sector, w': Sector, at: nat)
    requires BPB_TOT_SEC32 + 8 <= at <= SECTOR_SIZE && forall k :: 0 <= k < at ==> w'[k] == w[k]
    ensures var f, f' := ReadFields(w), ReadFields(w'); Agree(f', f) && f'.fsize == f.fsize && (BPB_FS_INFO + 2 <= at ==> f' == f)
  {
  }

  lemma RecordSays(p: Plan, media: byte, time: dword)
    requires p.au < 0x100 && p.nRsv < 0x1_0000 && 0 < p.nVol < WRAP && 0 < p.nFat < WRAP
    requires (p.t != Fat32 ==> p.nFat < 0x1_0000)
    ensures var w := BootRecord(p, media, time);
      Agree(ReadFields(w), FieldsOf(p)) && ReadFields(w).fsize == p.nFat && CheckFs(w) == FatRecord &&
      (p.t == Fat32 ==> ReadFields(w) == FieldsOf(p))
  {
    hide Body32, Body16, ReadFields, CheckFs, Signed, LdWord;
    var w := BootRecord(p, media, time);
    if p.t == Fat32 {
      Body32Says(p, media, time);
      SignedSays(Body32(p, media, time), 71, FAT32_NAME);
      FieldsInFront(Body32(p, media, time), w, 71);
      assert forall k :: 0 <= k < 3 ==> w[71 + 11 + k] == FAT32_NAME[k];
      assert w[82] == FAT32_NAME[0] && w[83] == FAT32_NAME[1] && w[84] == FAT32_NAME[2];
    } else {
      Body16Says(p, media, time);
      SignedSays(Body16(p, media, time), 43, FAT_NAME);
      FieldsInFront(Body16(p, media, time), w, 43);
      assert w[54] == FAT_NAME[0] && w[55] == FAT_NAME[1] && w[56] == FAT_NAME[2];
    }
    SaysFat(w);
  }

  lemma TableSays(p: Plan)
    requires p.nVol < WRAP
    ensures var w := PartitionTable(p);
      CheckFs(w) == OtherRecord && w[MBR_TABLE + 4] != 0 && LdDword(w, MBR_TABLE + 8) == 63
  {
    Digits(63);
  }

  /** The first sector of the FAT: entries 0 and 1, and on FAT32 the root directory's cluster. */
  function FirstFat(t: FatType, media: byte): Sector {
    match t
    case Fat12 => StDword(Zeros(), 0, 0x00FF_FF00 + media)
    case Fat16 => StDword(Zeros(), 0, 0xFFFF_FF00 + media)
    case Fat32 => StDword(StDword(StDword(Zeros(), 0, 0xFFFF_FF00 + media), 4, 0xFFFF_FFFF), 8, 0x0FFF_FFFF)
  }

  function FreshInfo(free: nat): Sector {
    var w: Sector := StDword(Zeros(), FSI_LEAD_SIG, 0x41615252);
    var w: Sector := StDword(w, FSI_STRUC_SIG, 0x61417272);
    var w: Sector := StDword(w, FSI_FREE_COUNT, free);
    var w: Sector := StDword(w, FSI_NXT_FREE, 2);
    StWord(w, BS_55AA, 0xAA55)
  }

  /** The first step of the table that the volume size reaches. */
  function Step(vs: nat, i: nat): (k: nat)
    requires i <= 10
    ensures k <= 10
    decreases 10 - i
  {
    if i == 10 || vs >= VST[i] then i else Step(vs, i + 1)
  }

  function BlockOf(blk: dword): nat {
    if blk == 0 || blk > 32768 then 1 else blk
  }

  function UnitOf(nVol: nat, au: dword): (u: nat)
    ensures 1 <= u <= 128
  {
    UnitSectors(if au == 0 then CST[Step(nVol / 2000, 0)] else au)
  }

  /** The plan for a drive of `n` sectors, with (`sfd` false) or without a partition table. */
  function PlanOf(n: dword, sfd: bool, au: dword, blk: dword): Option<Plan>
    requires 128 <= n
  {
    var bVol := if sfd then 0 else 63;
    Decide(n - bVol, bVol, UnitOf(n - bVol, au), BlockOf(blk))
  }

  /** Sectors of the root directory as it is created. */
  function RootSectors(p: Plan): nat {
    if p.t == Fat32 then p.au else p.nDir
  }

  /** Sectors of the FAT as they are written: the first one always. */
  function FatWritten(p: Plan): nat {
    if p.nFat == 0 then 1 else p.nFat
  }

  /** The FAT and the root directory fit a drive of `n` sectors. */
  predicate Writable(p: Plan, n: nat) {
    p.bVol + p.nRsv + FatWritten(p) + RootSectors(p) <= n
  }

  /** The sectors f_mkfs writes. */
  predicate Written(p: Plan, sfd: bool, s: int) {
    || (!sfd && s == 0)
    || s == p.bVol
    || (p.t == Fat32 && (s == p.bVol + 1 || s == p.bVol + 6 || s == p.bVol + 7))
    || p.bVol + p.nRsv <= s < p.bVol + p.nRsv + FatWritten(p) + RootSectors(p)
  }

  /** The drive `d'` is `d` formatted by the plan. */
  ghost predicate Formatted(p: Plan, sfd: bool, time: dword, d: Disk, d': Disk)
    requires p.au < 0x100
  {
    var fat := p.bVol + p.nRsv;
    && |d'| == |d| && p.bVol + 7 < |d| && Writable(p, |d|)
    && (!sfd ==> d'[0] == PartitionTable(p))
    && d'[p.bVol] == BootRecord(p, MediaByte(sfd), time)
    && d'[fat] == FirstFat(p.t, MediaByte(sfd))
    && (forall s :: fat < s < fat + FatWritten(p) + RootSectors(p) ==> d'[s] == Zeros())
    && (p.t == Fat32 ==> d'[p.bVol + 1] == FreshInfo((p.nClst - 1) % WRAP))
    && (p.t == Fat32 ==> d'[p.bVol + 6] == d'[p.bVol] && d'[p.bVol + 7] == d'[p.bVol + 1])
    && forall s :: 0 <= s < |d| && !Written(p, sfd, s) ==> d'[s] == d[s]
  }

  /** disk_write of `n` empty sectors, one by one; fails behind the end of the drive. */
  method WriteZeros(d: Disk, wsect: nat, n: nat) returns (ok: bool, d': Disk)
    ensures ok <==> n == 0 || wsect + n <= |d|
    ensures |d'| == |d|
    ensures ok ==> forall s :: 0 <= s < |d| ==> d'[s] == if wsect <= s < wsect + n then Zeros() else d[s]
  {
    d' := d;
    var i := 0;
    while i < n
      invariant i <= n && |d'| == |d| && (i > 0 ==> wsect + i <= |d|)
      invariant forall s :: 0 <= s < |d| ==> d'[s] == if wsect <= s < wsect + i then Zeros() else d[s]
    {
      if wsect + i >= |d'| {
        return false, d';
      }
      d' := d'[wsect + i := Zeros()];
      i := i + 1;
    }
    ok := true;
  }

  /** f_mkfs, automatic choice of the allocation unit. */
  method AutoUnit(nVol: nat) returns (au: dword)
    ensures au == CST[Step(nVol / 2000, 0)]
  {
    var vs, i := nVol / 2000, 0;
    while vs < VST[i]
      invariant i <= 10 && Step(vs, 0) == Step(vs, i)
      decreases 10 - i
    {
      i := i + 1;
    }
    au := CST[i];
  }

  /** An allocation unit f_mkfs accepts; 0 leaves the choice to it. */
  predicate UnitOk(au: dword) {
    au == 0 || IsPowerOfTwo(au)
  }

  /** f_mkfs: `blk` is the erase block size the drive reports, in sectors. */
  method Format(d: Disk, sfd: bool, au: dword, blk: dword, time: dword) returns (res: FResult, d': Disk)
    requires |d| < WRAP && (blk == 0 || blk > 32768 || IsPowerOfTwo(blk))
    ensures res == Ok <==>
      UnitOk(au) && |d| >= 128 && PlanOf(|d|, sfd, au, blk).Some? && Writable(PlanOf(|d|, sfd, au, blk).value, |d|)
    ensures res == InvalidParameter <==> !UnitOk(au)
    ensures res == MkfsAborted <==> UnitOk(au) && |d| >= 128 && PlanOf(|d|, sfd, au, blk).None?
    ensures res == Ok ==> Formatted(PlanOf(|d|, sfd, au, blk).value, sfd, time, d, d')
    ensures res in {Ok, InvalidParameter, MkfsAborted, DiskErr} && |d'| == |d|
  {
    hide FirstFat, FreshInfo, PartitionTable, BootRecord, Decide, Formatted, Writable;
    d' := d;
    if !UnitOk(au) {
      return InvalidParameter, d';
    }
    if |d| < 128 {
      return DiskErr, d';
    }
    var bVol := if sfd then 0 else 63;
    var nVol := |d| - bVol;
    var unit := au;
    if unit == 0 {
      unit := AutoUnit(nVol);
    }
    var plan := Decide(nVol, bVol, UnitSectors(unit), BlockOf(blk));
    if plan.None? {
      return MkfsAborted, d';
    }
    PlanShape(nVol, bVol, UnitSectors(unit), BlockOf(blk));
    res, d' := WritePlan(plan.value, sfd, time, d);
  }

  lemma PlanShape(nVol: dword, bVol: nat, au: nat, block: nat)
    requires 0 < au && 0 < block && Decide(nVol, bVol, au, block).Some?
    ensures var p := Decide(nVol, bVol, au, block).value;
      p.au == au && p.bVol == bVol && p.nVol == nVol && 1 <= p.nRsv && (p.t == Fat32 ==> 32 <= p.nRsv) &&
      0 < RootSectors(p) &&
      p.nDir == if p.t == Fat32 then 0 else N_ROOTDIR / ENTRIES_PER_SECTOR
  {
    hide FatSectors, Gap;
  }

  /** f_mkfs, partition table and boot records. */
  method WriteRecords(p: Plan, sfd: bool, time: dword, d: Disk) returns (d': Disk)
    requires p.au <= 128 && p.bVol == (if sfd then 0 else 63) && 128 <= |d|
    ensures |d'| == |d| && d'[p.bVol] == BootRecord(p, MediaByte(sfd), time) && (!sfd ==> d'[0] == PartitionTable(p))
    ensures p.t == Fat32 ==> d'[p.bVol + 6] == d'[p.bVol]
    ensures forall s :: 1 <= s < |d| && s != p.bVol && !(p.t == Fat32 && s == p.bVol + 6) ==> d'[s] == d[s]
  {
    hide PartitionTable, BootRecord;
    d' := d;
    if !sfd {
      d' := d'[0 := PartitionTable(p)];
    }
    d' := d'[p.bVol := BootRecord(p, MediaByte(sfd), time)];
    if p.t == Fat32 {
      d' := d'[p.bVol + 6 := BootRecord(p, MediaByte(sfd), time)];
    }
  }

  /** f_mkfs, the FAT from sector `fat` on and the root directory behind it. */
  method WriteAreas(p: Plan, sfd: bool, fat: nat, d: Disk) returns (ok: bool, d': Disk)
    requires 0 < RootSectors(p)
    ensures |d'| == |d|
    ensures ok <==> fat + FatWritten(p) + RootSectors(p) <= |d|
    ensures ok ==> d'[fat] == FirstFat(p.t, MediaByte(sfd))
    ensures ok ==> forall s :: 0 <= s < |d| && s != fat ==>
      d'[s] == if fat < s < fat + FatWritten(p) + RootSectors(p) then Zeros() else d[s]
  {
    hide FirstFat, Zeros;
    d' := d;
    ok := false;
    var wsect := fat;
    if wsect >= |d'| {
      return;
    }
    d' := d'[wsect := FirstFat(p.t, MediaByte(sfd))];
    wsect := wsect + 1;
    if p.nFat > 1 {
      ok, d' := WriteZeros(d', wsect, p.nFat - 1);
      if !ok {
        return;
      }
      wsect := wsect + (p.nFat - 1);
    }
    ok, d' := WriteZeros(d', wsect, RootSectors(p));
  }

  /** f_mkfs, the writing. */
  method WritePlan(p: Plan, sfd: bool, time: dword, d: Disk) returns (res: FResult, d': Disk)
    requires 1 <= p.au <= 128 && 1 <= p.nRsv && (p.t == Fat32 ==> 32 <= p.nRsv) && 0 < RootSectors(p)
    requires p.bVol == (if sfd then 0 else 63) && 128 <= |d|
    ensures res == if Writable(p, |d|) then Ok else DiskErr
    ensures res == Ok ==> Formatted(p, sfd, time, d, d')
    ensures |d'| == |d|
  {
    hide FirstFat, FreshInfo, PartitionTable, BootRecord, Zeros, RootSectors, FatWritten;
    d' := WriteRecords(p, sfd, time, d);
    var ok;
    ok, d' := WriteAreas(p, sfd, p.bVol + p.nRsv, d');
    if !ok {
      return DiskErr, d';
    }
    if p.t == Fat32 {
      d' := d'[p.bVol + 1 := FreshInfo((p.nClst - 1) % WRAP)];
      d' := d'[p.bVol + 7 := FreshInfo((p.nClst - 1) % WRAP)];
    }
    res := Ok;
  }

  // ---------------------------------------------------------------- mounting a formatted drive

  /** The layout the plan means. */
  function LayoutOf(p: Plan): Layout {
    var fat := p.bVol + p.nRsv;
    Layout(p.t, p.au, 1, if p.t == Fat32 then 0 else N_ROOTDIR, p.nClst + 2, p.nFat, fat,
           if p.t == Fat32 then 2 else fat + p.nFat, p.bVol + SystemArea(p))
  }

  /** What f_mkfs decided on a drive of `n` sectors, and what the drive had room for. */
  ghost predicate Planned(p: Plan, n: dword, sfd: bool, au: dword, blk: dword) {
    && 128 <= n && PlanOf(n, sfd, au, blk) == Some(p)
    && UnitOk(au) && (blk == 0 || blk > 32768 || IsPowerOfTwo(blk))
    && p.bVol + SystemArea(p) <= n && Countable(p.nVol, p.au)
  }

  lemma PlannedFacts(p: Plan, n: dword, sfd: bool, au: dword, blk: dword)
    requires Planned(p, n, sfd, au, blk)
    ensures p.au in {1, 2, 4, 8, 16, 32, 64, 128} && p.bVol == (if sfd then 0 else 63) && p.nVol == n - p.bVol
    ensures 0 < p.nVol
    ensures 0 < p.nRsv < 0x1_0000 && 0 < p.nFat < 0x100_0000 && (p.t != Fat32 ==> p.nFat < 0x1_0000)
    ensures (p.t == Fat32 ==> 32 <= p.nRsv)
    ensures p.nDir == if p.t == Fat32 then 0 else N_ROOTDIR / ENTRIES_PER_SECTOR
    ensures p.nClst == (p.nVol - SystemArea(p)) / p.au && (p.nClst >= 1 <==> Room(p))
    ensures (Room(p) ==> p.t == SubType(p.nClst))
    ensures FatSpan(p.t, p.nClst + 2) <= SECTOR_SIZE * p.nFat && FatSpan(p.t, p.nClst + 2) + SECTOR_SIZE <= WRAP
  {
    hide FatSectors, Gap, FatSpan, SubType, Decide, UnitOf;
    var bVol := if sfd then 0 else 63;
    var unit := UnitOf(n - bVol, au);
    UnitKnown(n - bVol, au);
    PlanShape(n - bVol, bVol, unit, BlockOf(blk));
    FatStillFits(n - bVol, bVol, unit, BlockOf(blk));
  }

  lemma UnitKnown(nVol: nat, au: dword)
    requires UnitOk(au)
    ensures UnitOf(nVol, au) in {1, 2, 4, 8, 16, 32, 64, 128}
  {
    hide Step, UnitSectors;
    SmallStep(Step(nVol / 2000, 0));
    UnitIsPower(if au == 0 then CST[Step(nVol / 2000, 0)] else au);
  }

  lemma SmallStep(k: nat)
    requires k <= 10
    ensures IsPowerOfTwo(CST[k])
  {
    PowersAre(CST[k]);
  }

  /** chk_mounted where nothing wraps: a volume with no room for a cluster is refused. */
  lemma PlaceNone(f: Fields, bsect: dword)
    requires f.nFats == 1 && 0 < f.csize && SystemSectors(f) <= f.tsect < SystemSectors(f) + f.csize
    ensures Place(f, bsect) == None
  {
    hide SpanSectors, SubType, IsPowerOfTwo;
    var sys := SystemSectors(f);
    OneFat(f);
    Remainder(f.tsect - sys, f.csize, 0, f.tsect - sys);
  }

  /** chk_mounted where nothing wraps: the layout in exact numbers. */
  lemma PlaceSome(f: Fields, bsect: dword, nclst: nat)
    requires f.sectorSize == SECTOR_SIZE && f.nFats == 1 && 0 < f.nrsv && f.nRootdir % ENTRIES_PER_SECTOR == 0
    requires f.csize > 0 && IsPowerOfTwo(f.csize) && SystemSectors(f) <= f.tsect && bsect + f.tsect < WRAP
    requires 0 < nclst == (f.tsect - SystemSectors(f)) / f.csize && nclst + 2 < WRAP
    requires f.fsize >= SpanSectors(SubType(nclst), nclst + 2) && (SubType(nclst) == Fat32 <==> f.nRootdir == 0)
    ensures Place(f, bsect) == Some(Layout(SubType(nclst), f.csize, 1, f.nRootdir, nclst + 2, f.fsize, bsect + f.nrsv,
      if SubType(nclst) == Fat32 then f.rootClus else bsect + f.nrsv + f.fsize, bsect + SystemSectors(f)))
  {
    hide SpanSectors, SubType, IsPowerOfTwo, SystemSectors;
    OneFat(f);
    AreaOrder(f);
    Cut32(nclst + 2);
    Cut32(bsect + SystemSectors(f));
    Cut32(bsect + f.nrsv);
    Cut32(bsect + f.nrsv + f.fsize);
  }

  lemma AreaOrder(f: Fields)
    requires f.nFats == 1
    ensures f.nrsv <= f.nrsv + f.fsize <= SystemSectors(f)
  {
  }

  lemma OneFat(f: Fields)
    requires f.nFats == 1 && SystemSectors(f) < WRAP
    ensures f.fsize * f.nFats == f.fsize && f.fsize * f.nFats % WRAP == f.fsize
    ensures SystemSectors(f) == f.nrsv + f.fsize + f.nRootdir / ENTRIES_PER_SECTOR
    ensures (f.nrsv + f.fsize + f.nRootdir / ENTRIES_PER_SECTOR) % WRAP == SystemSectors(f)
  {
  }

  lemma SpanAtLeast(t: FatType, k: nat)
    ensures k <= FatSpan(t, k)
  {
  }

  lemma SpanExact(t: FatType, k: nat, fsize: nat)
    requires FatSpan(t, k) + SECTOR_SIZE <= WRAP && FatSpan(t, k) <= SECTOR_SIZE * fsize
    ensures fsize >= SpanSectors(t, k)
  {
    hide FatSpan;
  }

  /** The boot record of a plan describes the layout of the plan, if that leaves a cluster, and is refused otherwise. */
  lemma RecordDescribesPlan(p: Plan, n: dword, sfd: bool, au: dword, blk: dword, media: byte, time: dword)
    requires Planned(p, n, sfd, au, blk)
    ensures p.au < 0x100 && p.bVol < WRAP
    ensures Place(ReadFields(BootRecord(p, media, time)), p.bVol) == if Room(p) then Some(LayoutOf(p)) else None
    ensures CheckFs(BootRecord(p, media, time)) == FatRecord
    ensures var f := ReadFields(BootRecord(p, media, time));
      SystemSectors(f) == SystemArea(p) && f.tsect == p.nVol && f.nrsv == p.nRsv && f.csize == p.au &&
      (p.t == Fat32 ==> f.fsInfo == 1)
  {
    hide FatSpan, SpanSectors, BootRecord, ReadFields, CheckFs, Place, IsPowerOfTwo, SubType;
    PlannedFacts(p, n, sfd, au, blk);
    hide Planned;
    var f := ReadFields(BootRecord(p, media, time));
    RecordSays(p, media, time);
    assert SystemSectors(f) == SystemArea(p);
    PowersAre(p.au);
    if Room(p) {
      SpanAtLeast(p.t, p.nClst + 2);
      SpanExact(p.t, p.nClst + 2, p.nFat);
      PlaceSome(f, p.bVol, p.nClst);
    } else {
      PlaceNone(f, p.bVol);
    }
  }

  /** chk_mounted finds the formatted volume, and accepts it if and only if the aligned layout left a cluster. */
  lemma MkfsThenMount(p: Plan, n: dword, sfd: bool, au: dword, blk: dword, time: dword, d: Disk, d': Disk)
    requires Planned(p, n, sfd, au, blk) && p.au < 0x100 && |d| == n && Formatted(p, sfd, time, d, d')
    ensures Locate(d') == At(p.bVol) && p.bVol < |d'|
    ensures LayoutAt(d', p.bVol) == if Room(p) then Some(LayoutOf(p)) else None
    ensures MountResult(d') == if Room(p) then Ok else NoFilesystem
  {
    hide Place, ReadFields, BootRecord, PartitionTable, FirstFat, FreshInfo, Zeros, FatSpan, CheckFs, LdDword, LdWord;
    PlannedFacts(p, n, sfd, au, blk);
    RecordDescribesPlan(p, n, sfd, au, blk, MediaByte(sfd), time);
    hide Planned;
    if !sfd {
      TableSays(p);
    }
  }

  /** The table of a freshly formatted volume: nothing in use but the reserved entries and the FAT32 root directory. */
  ghost predicate Fresh(t: FatType, fat: Table) {
    && 3 <= |fat| && fat[0] != 0 && fat[1] != 0
    && forall c :: 2 <= c < |fat| ==> fat[c] == if t == Fat32 && c == 2 then EndMark(Fat32) else 0
  }

  function RootChains(t: FatType): set<seq<nat>> {
    if t == Fat32 then {[2]} else {}
  }

  /** A fresh table is a forest of at most the root directory, and all other clusters are free. */
  lemma FreshIsForest(t: FatType, fat: Table)
    requires Fresh(t, fat) && |fat| <= EndMark(t)
    ensures Forest(fat, RootChains(t))
    ensures |FreeSet(fat)| == |fat| - if t == Fat32 then 3 else 2
    ensures fat[0] != 0 && fat[1] != 0
  {
    if t == Fat32 {
      assert IsChain(fat, [2]) && 2 in [2];
    }
    FreshCount(t, fat, |fat|);
    ZerosCountFree(fat, |fat|);
  }

  lemma {:induction false} FreshCount(t: FatType, fat: Table, k: nat)
    requires Fresh(t, fat) && 3 <= k <= |fat|
    ensures |FreeBelow(fat, k)| == k - if t == Fat32 then 3 else 2
  {
    if k == 3 {
      assert FreeBelow(fat, 3) == if t == Fat32 then {} else {2};
    } else {
      FreshCount(t, fat, k - 1);
      assert FreeBelow(fat, k) == FreeBelow(fat, k - 1) + {k - 1};
    }
  }

  /** Byte `b` of the FAT of a formatted drive. */
  lemma FormattedFatByte(p: Plan, sfd: bool, time: dword, d: Disk, d': Disk, b: nat)
    requires p.au < 0x100 && Formatted(p, sfd, time, d, d') && b < SECTOR_SIZE * p.nFat
    ensures LayoutOf(p).fatbase + p.nFat <= |d'|
    ensures FatByte(LayoutOf(p), d', b) == if b < 12 then FirstFat(p.t, MediaByte(sfd))[b] else 0
  {
    hide PartitionTable, BootRecord, FreshInfo;
    if b < SECTOR_SIZE {
      assert b / SECTOR_SIZE == 0;
    } else {
      QuotientAtLeast(b, SECTOR_SIZE, 1);
    }
  }

  lemma FirstFatBytes(t: FatType, media: byte)
    requires media >= 0xF0
    ensures var w := FirstFat(t, media);
      w[0] == media && w[1] == 0xFF && w[2] == 0xFF && w[3] == (if t == Fat12 then 0 else 0xFF) &&
      (forall k :: 4 <= k < 8 ==> w[k] == if t == Fat32 then 0xFF else 0) &&
      (forall k :: 8 <= k < 11 ==> w[k] == if t == Fat32 then 0xFF else 0) && w[11] == if t == Fat32 then 0x0F else 0
  {
    hide StDword, Zeros;
    var z := Zeros();
    assert forall k :: 0 <= k < 12 ==> z[k] == 0 by {
      ZeroBytes();
    }
    StoredBytes(z, 0, media, 0xFF, 0xFF, if t == Fat12 then 0 else 0xFF);
    if t == Fat32 {
      var w1: Sector := StDword(z, 0, 0xFFFF_FF00 + media);
      var w2: Sector := StDword(w1, 4, 0xFFFF_FFFF);
      StoredBytes(w1, 4, 0xFF, 0xFF, 0xFF, 0xFF);
      StoredBytes(w2, 8, 0xFF, 0xFF, 0xFF, 0x0F);
    }
  }

  lemma ZeroBytes()
    ensures forall k :: 0 <= k < SECTOR_SIZE ==> Zeros()[k] == 0
  {
  }

  lemma StoredBytes(s: seq<byte>, i: nat, a: byte, b: byte, c: byte, d: byte)
    requires i + 3 < |s|
    ensures var r := StDword(s, i, a as int + 0x100 * b as int + 0x1_0000 * c as int + 0x100_0000 * d as int);
      r[i] == a && r[i + 1] == b && r[i + 2] == c && r[i + 3] == d && forall k :: 0 <= k < |s| && !(i <= k < i + 4) ==> r[k] == s[k]
  {
    var v := a as int + 0x100 * b as int + 0x1_0000 * c as int + 0x100_0000 * d as int;
    Remainder(v, 0x100, b as int + 0x100 * c as int + 0x1_0000 * d as int, a);
    Remainder(v, 0x1_0000, c as int + 0x100 * d as int, a as int + 0x100 * b as int);
    Remainder(v, 0x100_0000, d, a as int + 0x100 * b as int + 0x1_0000 * c as int);
    Remainder(v / 0x100, 0x100, c as int + 0x100 * d as int, b);
    Remainder(v / 0x1_0000, 0x100, d, c);
  }

  /** Entries of a formatted FAT, read out of its bytes. */
  lemma FormattedEntries(p: Plan, sfd: bool, time: dword, d: Disk, d': Disk)
    requires p.au < 0x100 && Formatted(p, sfd, time, d, d') && FatAreaOk(LayoutOf(p), |d'|)
    ensures Fresh(p.t, FatOf(LayoutOf(p), d'))
  {
    hide PartitionTable, BootRecord, FreshInfo, FirstFat, FatByte, Formatted;
    var g := LayoutOf(p);
    FirstFatBytes(p.t, MediaByte(sfd));
    forall c | 0 <= c < g.nFatent
      ensures Entry(g, d', c) == if c == 0 then Entry(g, d', 0) else if c == 1 then Entry(g, d', 1)
        else if p.t == Fat32 && c == 2 then EndMark(Fat32) else 0
    {
      if c >= 2 {
        EntryInside(g, |d'|, c);
        var at := EntryAt(g.fsType, c);
        FormattedFatByte(p, sfd, time, d, d', at);
        FormattedFatByte(p, sfd, time, d, d', at + 1);
        if p.t == Fat32 {
          FormattedFatByte(p, sfd, time, d, d', at + 2);
          FormattedFatByte(p, sfd, time, d, d', at + 3);
        }
      }
    }
    ReservedEntries(p, sfd, time, d, d');
  }

  lemma ReservedEntries(p: Plan, sfd: bool, time: dword, d: Disk, d': Disk)
    requires p.au < 0x100 && Formatted(p, sfd, time, d, d') && FatAreaOk(LayoutOf(p), |d'|)
    ensures Entry(LayoutOf(p), d', 0) != 0 && Entry(LayoutOf(p), d', 1) != 0
  {
    hide PartitionTable, BootRecord, FreshInfo, FirstFat, FatByte, Formatted;
    var g := LayoutOf(p);
    FirstFatBytes(p.t, MediaByte(sfd));
    EntryInside(g, |d'|, 0);
    EntryInside(g, |d'|, 1);
    forall b | 0 <= b < 8 && b < SECTOR_SIZE * g.fsize
      ensures FatByte(g, d', b) == FirstFat(p.t, MediaByte(sfd))[b]
    {
      FormattedFatByte(p, sfd, time, d, d', b);
    }
  }

  lemma FreshHints(d: Disk, fsi: nat, free: dword)
    requires fsi < |d| && d[fsi] == FreshInfo(free)
    ensures Hints(d, fsi) == (2, free)
  {
    hide StWord, StDword, LdWord, LdDword;
    var w0 := Zeros();
    var w1: Sector := StDword(w0, FSI_LEAD_SIG, 0x41615252);
    var w2: Sector := StDword(w1, FSI_STRUC_SIG, 0x61417272);
    var w3: Sector := StDword(w2, FSI_FREE_COUNT, free);
    var w4: Sector := StDword(w3, FSI_NXT_FREE, 2);
    DwordRoundTrip(w0, FSI_LEAD_SIG, 0x41615252);
    DwordRoundTrip(w1, FSI_STRUC_SIG, 0x61417272);
    DwordRoundTrip(w2, FSI_FREE_COUNT, free);
    DwordRoundTrip(w3, FSI_NXT_FREE, 2);
    WordRoundTrip(w4, BS_55AA, 0xAA55);
    StoresBeside(w1, FSI_STRUC_SIG, 0x61417272, FSI_LEAD_SIG);
    StoresBeside(w2, FSI_FREE_COUNT, free, FSI_LEAD_SIG);
    StoresBeside(w3, FSI_NXT_FREE, 2, FSI_LEAD_SIG);
    StoresBeside(w2, FSI_FREE_COUNT, free, FSI_STRUC_SIG);
    StoresBeside(w3, FSI_NXT_FREE, 2, FSI_STRUC_SIG);
    StoresBeside(w3, FSI_NXT_FREE, 2, FSI_FREE_COUNT);
    WordStoreBehind(w4, BS_55AA, 0xAA55, FSI_LEAD_SIG);
    WordStoreBehind(w4, BS_55AA, 0xAA55, FSI_STRUC_SIG);
    WordStoreBehind(w4, BS_55AA, 0xAA55, FSI_FREE_COUNT);
    WordStoreBehind(w4, BS_55AA, 0xAA55, FSI_NXT_FREE);
  }

  /** A formatted volume with a cluster is sound. */
  lemma FormattedFits(p: Plan, n: dword, sfd: bool, au: dword, blk: dword)
    requires Planned(p, n, sfd, au, blk) && p.au < 0x100 && Room(p) && p.nClst + 2 <= EndMark(Fat32)
    ensures FatAreaOk(LayoutOf(p), n)
  {
    hide FatSpan, SubType;
    PlannedFacts(p, n, sfd, au, blk);
    hide Planned;
    SubTypeBounds(p.nClst);
  }

  lemma FormattedIsSound(p: Plan, n: dword, sfd: bool, au: dword, blk: dword, time: dword, d: Disk, d': Disk)
    requires Planned(p, n, sfd, au, blk) && p.au < 0x100 && |d| == n && Formatted(p, sfd, time, d, d')
    requires Room(p) && p.nClst + 2 <= EndMark(Fat32)
    ensures p.bVol < WRAP && Sound(d', p.bVol)
    ensures FatAreaOk(LayoutOf(p), |d'|) && Fresh(p.t, FatOf(LayoutOf(p), d'))
  {
    hide Place, ReadFields, BootRecord, PartitionTable, FirstFat, FreshInfo, Zeros, FatSpan, FatAreaOk, SystemSectors;
    hide Sound;
    hide CheckFs, LdDword, LdWord, SystemArea, LayoutAt;
    MkfsThenMount(p, n, sfd, au, blk, time, d, d');
    PlannedFacts(p, n, sfd, au, blk);
    RecordDescribesPlan(p, n, sfd, au, blk, MediaByte(sfd), time);
    FormattedFits(p, n, sfd, au, blk);
    assert d'[p.bVol] == BootRecord(p, MediaByte(sfd), time);
    hide Planned, FatOf, SubType;
    RecordIsSound(p, d');
    FormattedEntries(p, sfd, time, d, d');
  }

  lemma RecordIsSound(p: Plan, d': Disk)
    requires p.bVol < |d'| == p.bVol + p.nVol < WRAP && 0 < p.au < 0x100 && LayoutAt(d', p.bVol) == Some(LayoutOf(p))
    requires var f := ReadFields(d'[p.bVol]);
      SystemSectors(f) == SystemArea(p) && f.tsect == p.nVol && f.nrsv == p.nRsv && f.csize == p.au &&
      (p.t == Fat32 ==> f.fsInfo == 1)
    requires p.t == Fat32 ==> 32 <= p.nRsv
    requires Room(p) && p.nClst == (p.nVol - SystemArea(p)) / p.au && p.nClst + 2 <= EndMark(Fat32)
    ensures Sound(d', p.bVol)
  {
    hide Place, ReadFields, FatAreaOk, SystemSectors, SystemArea, FatSpan;
  }

  lemma FormattedIsPlanned(n: dword, sfd: bool, au: dword, blk: dword, time: dword, d: Disk, d': Disk)
    requires 128 <= n == |d| && PlanOf(n, sfd, au, blk).Some?
    requires UnitOk(au) && (blk == 0 || blk > 32768 || IsPowerOfTwo(blk))
    requires var nVol := n - (if sfd then 0 else 63); Countable(nVol, UnitOf(nVol, au))
    requires var p := PlanOf(n, sfd, au, blk).value; p.au < 0x100 ==> Formatted(p, sfd, time, d, d')
    ensures Planned(PlanOf(n, sfd, au, blk).value, n, sfd, au, blk) && PlanOf(n, sfd, au, blk).value.au < 0x100
  {
    hide Decide, UnitOf, Countable, PartitionTable, BootRecord, FirstFat, FreshInfo, Zeros;
    var bVol := if sfd then 0 else 63;
    PlanShape(n - bVol, bVol, UnitOf(n - bVol, au), BlockOf(blk));
    RootBehindFat(n - bVol, bVol, UnitOf(n - bVol, au), BlockOf(blk));
  }

  lemma RootBehindFat(nVol: dword, bVol: nat, au: nat, block: nat)
    requires 0 < au && 0 < block && Decide(nVol, bVol, au, block).Some?
    ensures var p := Decide(nVol, bVol, au, block).value; p.nDir <= RootSectors(p)
  {
    hide FatSectors, Gap;
  }

  /** The free count that mounting a formatted FAT32 volume finds. */
  lemma FormattedCount(p: Plan, n: dword, sfd: bool, au: dword, blk: dword, time: dword, d: Disk, d': Disk)
    requires Planned(p, n, sfd, au, blk) && p.au < 0x100 && |d| == n && Formatted(p, sfd, time, d, d') && Room(p)
    ensures p.t == Fat32 ==> var fsi := (p.bVol + ReadFields(d'[p.bVol]).fsInfo) % WRAP;
      p.nClst < WRAP && fsi == p.bVol + 1 < |d'| && Hints(d', fsi) == (2, p.nClst - 1)
    ensures p.bVol < LayoutOf(p).fatbase
  {
    hide ReadFields, BootRecord, FreshInfo, FatSpan, Place, Hints, Formatted, SystemArea, SystemSectors, SubType;
    hide CheckFs;
    PlannedFacts(p, n, sfd, au, blk);
    RecordDescribesPlan(p, n, sfd, au, blk, MediaByte(sfd), time);
    hide Planned;
    InfoWritten(p, sfd, time, d, d');
    if p.t == Fat32 {
      SpanAtLeast(p.t, p.nClst + 2);
      Cut32(p.nClst - 1);
      Cut32(p.bVol + 1);
      FreshHints(d', p.bVol + 1, p.nClst - 1);
    }
  }

  lemma InfoWritten(p: Plan, sfd: bool, time: dword, d: Disk, d': Disk)
    requires p.au < 0x100 && Formatted(p, sfd, time, d, d')
    ensures p.bVol + 1 < |d'| && d'[p.bVol] == BootRecord(p, MediaByte(sfd), time)
    ensures p.t == Fat32 ==> d'[p.bVol + 1] == FreshInfo((p.nClst - 1) % WRAP)
  {
    hide BootRecord, PartitionTable, FirstFat, FreshInfo, Zeros;
  }

  lemma Cut32(v: int)
    requires 0 <= v < WRAP
    ensures v % WRAP == v
  {
  }

  /** The driver's erase block, 128 sectors, moves the data area of a drive of 150 sectors so far back that no
      cluster of 64 sectors is left. */
  lemma NoRoomPlan()
    ensures var p := PlanOf(150, true, 32768, 128);
      p.Some? && !Room(p.value) && Planned(p.value, 150, true, 32768, 128) && Writable(p.value, 150)
  {
    assert UnitOf(150, 32768) == 64 && BlockOf(128) == 128;
    assert SubType(2) == Fat12;
    assert FatSectors(Fat12, 2) == 1;
    assert Gap(34, 128) == 94;
    PowersAre(32768);
    PowersAre(128);
  }

  /** On such a drive f_mkfs succeeds, and what it wrote does not mount. */
  method NoRoomExample(d: Disk, time: dword) returns (res: FResult, d': Disk)
    requires |d| == 150
    ensures res == Ok && MountResult(d') == NoFilesystem
  {
    hide PlanOf, Room, Planned, Formatted, Writable, IsPowerOfTwo;
    NoRoomPlan();
    assert UnitOk(32768) && IsPowerOfTwo(128) by {
      PowersAre(32768);
      PowersAre(128);
    }
    res, d' := Format(d, true, 32768, 128, time);
    ghost var p := PlanOf(150, true, 32768, 128).value;
    FormattedIsPlanned(150, true, 32768, 128, time, d, d');
    MkfsThenMount(p, 150, true, 32768, 128, time, d, d');
  }

  /** The table that mounting a formatted volume finds. */
  lemma FormattedTable(p: Plan, n: dword, sfd: bool, au: dword, blk: dword, time: dword, d: Disk, d': Disk)
    requires Planned(p, n, sfd, au, blk) && p.au < 0x100 && |d| == n && Formatted(p, sfd, time, d, d')
    requires Room(p) && p.nClst + 2 <= EndMark(Fat32)
    ensures p.bVol < WRAP && Sound(d', p.bVol) && FatAreaOk(LayoutOf(p), |d'|)
    ensures var fat := FatOf(LayoutOf(p), d');
      Forest(fat, RootChains(p.t)) && fat[0] != 0 && fat[1] != 0 && |FreeSet(fat)| == p.nClst - if p.t == Fat32 then 1 else 0
  {
    hide Planned, Formatted, Sound, FatOf, Forest, FreeSet, Fresh;
    FormattedIsSound(p, n, sfd, au, blk, time, d, d');
    FreshIsForest(p.t, FatOf(LayoutOf(p), d'));
  }

  /** The root directory of a formatted volume, behind the FAT, is empty; on FAT32 it is the first cluster. */
  ghost predicate EmptyRoot(g: Layout, view: Disk) {
    var size := if g.fsType == Fat32 then g.csize else N_ROOTDIR / ENTRIES_PER_SECTOR;
    && (if g.fsType == Fat32 then g.dirbase == 2 && g.database == FatEnd(g)
        else g.dirbase == FatEnd(g) && g.nRootdir == N_ROOTDIR && g.dirbase + N_ROOTDIR / ENTRIES_PER_SECTOR == g.database)
    && FatEnd(g) + size <= |view| && forall s :: FatEnd(g) <= s < FatEnd(g) + size ==> view[s] == Zeros()
  }

  lemma FormattedRoot(p: Plan, n: dword, sfd: bool, au: dword, blk: dword, time: dword, d: Disk, d': Disk)
    requires Planned(p, n, sfd, au, blk) && p.au < 0x100 && Formatted(p, sfd, time, d, d')
    ensures EmptyRoot(LayoutOf(p), d')
  {
    hide BootRecord, PartitionTable, FirstFat, FreshInfo, Zeros;
    PlannedFacts(p, n, sfd, au, blk);
    hide Planned;
  }

  /** A layout that leaves a cluster leaves room for what is written, the root cluster of FAT32 included. */
  lemma RoomIsWritable(n: dword, sfd: bool, au: dword, blk: dword)
    requires 128 <= n && PlanOf(n, sfd, au, blk).Some?
    requires var nVol := n - (if sfd then 0 else 63); Countable(nVol, UnitOf(nVol, au))
    ensures var p := PlanOf(n, sfd, au, blk).value; Room(p) ==> Writable(p, n)
  {
    hide UnitOf, FatSectors, Gap;
    var bVol := if sfd then 0 else 63;
    var nVol := n - bVol;
    QuotientAtLeast(nVol, UnitOf(nVol, au), 0);
    FirstSize(SubType(nVol / UnitOf(nVol, au)), nVol / UnitOf(nVol, au));
  }

  /** Format and mount: if that succeeds, the volume is consistent, its table is a forest of at most the root
      directory, everything else is free, the root directory is empty, and the free count is unknown or exact. It
      succeeds exactly if the aligned layout leaves a cluster. */
  method FormatAndMount(d: Disk, sfd: bool, au: dword, blk: dword, time: dword) returns (res: FResult, v: Volume?)
    requires |d| < WRAP && (blk == 0 || blk > 32768 || IsPowerOfTwo(blk))
    requires |d| >= 128 ==> var nVol := |d| - (if sfd then 0 else 63); Countable(nVol, UnitOf(nVol, au))
    ensures res == Ok <==>
      UnitOk(au) && |d| >= 128 && PlanOf(|d|, sfd, au, blk).Some? && Room(PlanOf(|d|, sfd, au, blk).value)
    ensures res == NoFilesystem <==>
      (UnitOk(au) && |d| >= 128 && PlanOf(|d|, sfd, au, blk).Some? &&
       Writable(PlanOf(|d|, sfd, au, blk).value, |d|) && !Room(PlanOf(|d|, sfd, au, blk).value))
    ensures res == Ok ==> v != null && fresh(v) && fresh(v.win) && v.geo == LayoutOf(PlanOf(|d|, sfd, au, blk).value)
    ensures res == Ok && v.geo.nFatent <= EndMark(Fat32) ==>
      v.Valid() && v.Fat()[0] != 0 && v.Fat()[1] != 0 && Forest(v.Fat(), RootChains(v.geo.fsType)) &&
      CountOk(v.Fat(), v.freeClust)
    ensures res == Ok && v.geo.nFatent <= EndMark(Fat32) ==> EmptyRoot(v.geo, v.Logical())
    ensures res == Ok && v.geo.nFatent <= EndMark(Fat32) ==> InBooks(v, if sfd then 0 else 63) && Counted(v)
    ensures res == Ok && v.geo.nFatent <= EndMark(Fat32) ==>
      |FreeSet(v.Fat())| == v.geo.nFatent - if v.geo.fsType == Fat32 then 3 else 2
  {
    hide EmptyRoot, Decide, UnitOf, Formatted, Forest, LayoutAt, Sound, FatAreaOk, Hints, Locate, Countable, FreshInfo;
    hide Volume.Valid, Volume.Logical, FatOf, FreeSet, PlanOf, Room, ReadFields, Writable, RootChains, UnitOk, InBooks;
    hide OnRecord;
    v := null;
    var d';
    res, d' := Format(d, sfd, au, blk, time);
    if |d| >= 128 && PlanOf(|d|, sfd, au, blk).Some? {
      RoomIsWritable(|d|, sfd, au, blk);
    }
    if res != Ok {
      return;
    }
    ghost var p := PlanOf(|d|, sfd, au, blk).value;
    FormattedIsPlanned(|d|, sfd, au, blk, time, d, d');
    FormattedRoot(p, |d|, sfd, au, blk, time, d, d');
    hide Planned;
    MkfsThenMount(p, |d|, sfd, au, blk, time, d, d');
    res, v := ChkMounted(d');
    if res == Ok && p.nClst + 2 <= EndMark(Fat32) {
      FormattedTable(p, |d|, sfd, au, blk, time, d, d');
      FormattedCount(p, |d|, sfd, au, blk, time, d, d');
      NowInBooks(v, d', p.bVol);
      OnFirstSectors(p, |d|, sfd, au, blk);
    }
  }

  lemma OnFirstSectors(p: Plan, n: dword, sfd: bool, au: dword, blk: dword)
    requires Planned(p, n, sfd, au, blk)
    ensures p.bVol == if sfd then 0 else 63
  {
    PlannedFacts(p, n, sfd, au, blk);
  }
}
