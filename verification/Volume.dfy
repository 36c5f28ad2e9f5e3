/** The mounted volume: a one-sector write-back window over the drive and the FAT accesses through it. */
module Volumes {
  import opened Bytes
  import opened Geometry
  import opened FatTable
  import opened Chains

  // Offsets in the FSInfo sector
  const BS_55AA := 510
  const FSI_LEAD_SIG := 0
  const FSI_STRUC_SIG := 484
  const FSI_FREE_COUNT := 488
  const FSI_NXT_FREE := 492

  class Volume {
    const geo: Layout
    const win: array<byte>   // the window
    var winsect: nat         // sector in the window, 0 when none
    var wflag: bool          // the window must be written back
    var disk: Disk           // the physical drive
    var lastClust: dword
    var freeClust: dword     // number of free clusters, 0xFFFFFFFF when unknown
    var fsiFlag: bool        // the FSInfo sector must be written back
    const fsiSector: nat

    /** chk_mounted, last part: the file system object of a volume just mounted. */
    constructor Mount(g: Layout, d: Disk, fsi: nat, last: dword, free: dword)
      ensures geo == g && disk == d && fsiSector == fsi && lastClust == last && freeClust == free
      ensures winsect == 0 && !wflag && !fsiFlag && fresh(win) && win.Length == SECTOR_SIZE
    {
      geo, disk, fsiSector := g, d, fsi;
      lastClust, freeClust, fsiFlag := last, free, false;
      winsect, wflag := 0, false;
      win := new byte[SECTOR_SIZE];
    }

    /** Sectors that may appear in the window: the first FAT, or anything behind the last FAT. */
    ghost predicate Windowed(s: int)
      reads `disk
    {
      InFat1(geo, s) || FatEnd(geo) <= s < |disk|
    }

    ghost predicate Valid()
      reads `disk, `wflag, `winsect, win
    {
      && FatAreaOk(geo, |disk|) && DataAreaOk(geo, |disk|)
      && win.Length == SECTOR_SIZE
      && (winsect == 0 || Windowed(winsect))
      && (winsect == 0 ==> !wflag)
      && (winsect != 0 && !wflag ==> win[..] == disk[winsect])
      && Mirrored(geo, disk)
      && (geo.fsType == Fat32 ==> fsiSector < geo.fatbase)
    }

    /** The drive as it will be once the window is written back. */
    ghost function Logical(): (d: Disk)
      requires Valid()
      reads `disk, `wflag, `winsect, win
      ensures |d| == |disk|
    {
      if wflag then WriteThrough(geo, disk, winsect, win[..]) else disk
    }

    lemma Facts()
      requires Valid()
      ensures 0 < geo.csize <= 128 && 2 < geo.nFatent < 0x1000_0000 && 0 < FatEnd(geo) <= geo.database
      ensures |disk| <= 0x1_0000_0000
    {
    }

    lemma LogicalMirrored()
      requires Valid()
      ensures Mirrored(geo, Logical())
    {
    }

    ghost function Fat(): (f: seq<nat>)
      requires Valid()
      reads `disk, `wflag, `winsect, win
      ensures |f| == geo.nFatent
    {
      FatOf(geo, Logical())
    }

    /** disk_read of one sector into the window. */
    method LoadWindow(sector: nat)
      requires Valid() && !wflag && sector < |disk|
      modifies win
      ensures win[..] == disk[sector]
    {
      CopyInto(win, 0, disk[sector]);
      assert Splice(old(win[..]), 0, disk[sector]) == disk[sector];
    }

    /** move_window, first part: the dirty window goes to its sector and to every further FAT copy. */
    method WriteBack()
      requires Valid() && wflag
      modifies `disk, `wflag
      ensures Valid() && disk == Logical() == old(Logical()) && !wflag
    {
      var wsect := winsect;
      disk := disk[wsect := win[..]];
      wflag := false;
      if wsect < geo.fatbase + geo.fsize {
        var nf := geo.nFats;
        while nf > 1
          modifies `disk
          invariant nf == 1 || nf == 2 == geo.nFats
          invariant nf == geo.nFats ==> wsect == winsect && disk == old(disk)[winsect := win[..]]
          invariant nf != geo.nFats ==> disk == old(Logical())
        {
          wsect := wsect + geo.fsize;
          disk := disk[wsect := win[..]];
          nf := nf - 1;
        }
      }
    }

    /** move_window: sector 0 only writes the dirty window back. */
    method MoveWindow(sector: nat)
      requires Valid() && (sector == 0 || Windowed(sector))
      modifies `disk, `wflag, `winsect, win
      ensures Valid() && Logical() == old(Logical()) && |disk| == old(|disk|)
      ensures sector != 0 ==> winsect == sector && win[..] == Logical()[sector]
      ensures sector == 0 ==> winsect == old(winsect) && win[..] == old(win[..]) && !wflag
      ensures wflag == (old(wflag) && sector == old(winsect))
    {
      if winsect != sector {
        if wflag {
          WriteBack();
        }
        if sector != 0 {
          LoadWindow(sector);
          winsect := sector;
        }
      }
    }

    /** The window shows byte `b` of the first FAT once it is moved to that byte's sector. */
    lemma WindowShowsFatByte(b: nat)
      requires Valid() && b < SECTOR_SIZE * geo.fsize
      requires winsect == geo.fatbase + b / SECTOR_SIZE && win[..] == Logical()[winsect]
      ensures win[b % SECTOR_SIZE] == FatByte(geo, Logical(), b)
    {
    }

    /** get_fat on FAT12: the two bytes may lie in different sectors. */
    method GetFat12(clst: nat) returns (r: dword)
      requires Valid() && geo.fsType == Fat12 && clst < geo.nFatent
      modifies `disk, `wflag, `winsect, win
      ensures Valid() && Logical() == old(Logical()) && |disk| == old(|disk|)
      ensures r == Fat()[clst] && InFat1(geo, winsect)
    {
      hide Mirrored, Logical, DataAreaOk, FatByte;
      EntryInside(geo, |disk|, clst);
      var bc := clst + clst / 2;
      MoveWindow(geo.fatbase + bc / SECTOR_SIZE);
      WindowShowsFatByte(bc);
      var wc: nat := win[bc % SECTOR_SIZE];
      bc := bc + 1;
      MoveWindow(geo.fatbase + bc / SECTOR_SIZE);
      WindowShowsFatByte(bc);
      wc := wc + 0x100 * (win[bc % SECTOR_SIZE] as int);
      r := if clst % 2 == 1 then wc / 0x10 else wc % 0x1000;
    }

    method GetFat16(clst: nat) returns (r: dword)
      requires Valid() && geo.fsType == Fat16 && clst < geo.nFatent
      modifies `disk, `wflag, `winsect, win
      ensures Valid() && Logical() == old(Logical()) && |disk| == old(|disk|)
      ensures r == Fat()[clst] && InFat1(geo, winsect)
    {
      Entry16InSector(geo, Logical(), clst);
      MoveWindow(geo.fatbase + clst / (SECTOR_SIZE / 2));
      r := LdWord(win[..], clst * 2 % SECTOR_SIZE);
    }

    method GetFat32(clst: nat) returns (r: dword)
      requires Valid() && geo.fsType == Fat32 && clst < geo.nFatent
      modifies `disk, `wflag, `winsect, win
      ensures Valid() && Logical() == old(Logical()) && |disk| == old(|disk|)
      ensures r == Fat()[clst] && InFat1(geo, winsect)
    {
      Entry32InSector(geo, Logical(), clst);
      MoveWindow(geo.fatbase + clst / (SECTOR_SIZE / 4));
      r := LdDword(win[..], clst * 4 % SECTOR_SIZE) % 0x1000_0000;
    }

    /** get_fat: 1 for a cluster number out of range, otherwise the cluster's FAT entry. */
    method GetFat(clst: dword) returns (r: dword)
      requires Valid()
      modifies `disk, `wflag, `winsect, win
      ensures Valid() && Logical() == old(Logical()) && Fat() == old(Fat()) && |disk| == old(|disk|)
      ensures r == if 2 <= clst < geo.nFatent then Fat()[clst] else 1
      ensures if 2 <= clst < geo.nFatent then InFat1(geo, winsect) else winsect == old(winsect)
    {
      if clst < 2 || clst >= geo.nFatent {
        return 1;
      }
      match geo.fsType {
        case Fat12 => r := GetFat12(clst);
        case Fat16 => r := GetFat16(clst);
        case Fat32 => r := GetFat32(clst);
      }
    }

    /** Stores bytes of the FAT in the window that shows their sector and marks it dirty. */
    method StoreFatBytes(at: nat, piece: seq<byte>)
      requires Valid() && Mirrored(geo, Logical())
      requires 0 < |piece| && at % SECTOR_SIZE + |piece| <= SECTOR_SIZE && at < SECTOR_SIZE * geo.fsize
      requires winsect == geo.fatbase + at / SECTOR_SIZE && win[..] == Logical()[winsect]
      modifies `wflag, win
      ensures Valid() && FatSpliced(geo, old(Logical()), Logical(), at, piece)
    {
      hide FatSpliced, FatByte, WriteThrough, DataAreaOk, Mirrored, Splice;
      WriteThroughSplices(geo, Logical(), at, piece);
      ghost var w := win[..];
      CopyInto(win, at % SECTOR_SIZE, piece);
      wflag := true;
      WriteThroughTwice(geo, disk, winsect, w, win[..]);
    }

    /** put_fat on FAT12: one byte of each of the two sectors the entry may touch. */
    method PutFat12(clst: nat, val: dword)
      requires Valid() && geo.fsType == Fat12 && clst < geo.nFatent
      modifies `disk, `wflag, `winsect, win
      ensures Valid() && InFat1(geo, winsect)
      ensures FatSpliced(geo, old(Logical()), Logical(), EntryAt(Fat12, clst), PutPiece(geo, old(Logical()), clst, val))
    {
      hide Mirrored, Logical, DataAreaOk, FatByte, FatSpliced, PutPiece, Pack12;
      ghost var d := Logical();
      var bc := clst + clst / 2;
      PutPiece12(geo, d, clst, val);
      var x, oldX := PutByte12(bc, clst % 2 == 1, true, val);
      ghost var d1 := Logical();
      SplicedElsewhere(geo, d, d1, bc, [x], bc + 1);
      bc := bc + 1;
      var y, oldY := PutByte12(bc, clst % 2 == 1, false, val);
      SplicesCompose(geo, d, d1, Logical(), bc - 1, x, y);
      Pack12Bytes(clst % 2 == 1, oldX, oldY, val);
    }

    /** put_fat on FAT12, one of the two bytes: the byte that ends up in the window and the one it replaced. */
    method PutByte12(bc: nat, odd: bool, first: bool, val: dword) returns (x: byte, x0: byte)
      requires Valid() && bc < SECTOR_SIZE * geo.fsize
      modifies `disk, `wflag, `winsect, win
      ensures Valid() && InFat1(geo, winsect) && |disk| == old(|disk|)
      ensures x0 == FatByte(geo, old(Logical()), bc) && x == NewByte12(odd, first, x0, val)
      ensures FatSpliced(geo, old(Logical()), Logical(), bc, [x])
    {
      hide Mirrored, Logical, DataAreaOk, FatByte, FatSpliced;
      MoveWindow(geo.fatbase + bc / SECTOR_SIZE);
      WindowShowsFatByte(bc);
      LogicalMirrored();
      x0 := win[bc % SECTOR_SIZE];
      x := NewByte12(odd, first, x0, val);
      StoreFatBytes(bc, [x]);
    }

    method PutFat16(clst: nat, val: dword)
      requires Valid() && geo.fsType == Fat16 && clst < geo.nFatent
      modifies `disk, `wflag, `winsect, win
      ensures Valid() && InFat1(geo, winsect)
      ensures FatSpliced(geo, old(Logical()), Logical(), EntryAt(Fat16, clst), PutPiece(geo, old(Logical()), clst, val))
    {
      hide Mirrored, Logical, DataAreaOk, FatByte;
      LogicalMirrored();
      Entry16InSector(geo, Logical(), clst);
      MoveWindow(geo.fatbase + clst / (SECTOR_SIZE / 2));
      StoreFatBytes(clst * 2, [val % 0x100, val / 0x100 % 0x100]);
    }

    method PutFat32(clst: nat, val: dword)
      requires Valid() && geo.fsType == Fat32 && clst < geo.nFatent
      modifies `disk, `wflag, `winsect, win
      ensures Valid() && InFat1(geo, winsect)
      ensures FatSpliced(geo, old(Logical()), Logical(), EntryAt(Fat32, clst), PutPiece(geo, old(Logical()), clst, val))
    {
      hide Mirrored, Logical, DataAreaOk, FatByte;
      LogicalMirrored();
      Entry32InSector(geo, Logical(), clst);
      ByteInSector(geo, Logical(), 4 * clst, 3);
      MoveWindow(geo.fatbase + clst / (SECTOR_SIZE / 4));
      var top := win[clst * 4 % SECTOR_SIZE + 3];
      StoreFatBytes(clst * 4, Pack32(top, val));
    }

    /** put_fat: entry `clst` becomes `val` cut to its width; nothing else in the FAT, and nothing outside it,
        changes. */
    method PutFat(clst: dword, val: dword) returns (res: FResult)
      requires Valid()
      modifies `disk, `wflag, `winsect, win
      ensures Valid() && |disk| == old(|disk|)
      ensures 2 <= clst < geo.nFatent ==>
        res == Ok && InFat1(geo, winsect) &&
        Fat() == old(Fat())[clst := Cut(geo.fsType, val)] && SameOutsideFat(geo, old(Logical()), Logical())
      ensures !(2 <= clst < geo.nFatent) ==>
        res == IntErr && Logical() == old(Logical()) && winsect == old(winsect)
    {
      hide Mirrored, Logical, DataAreaOk, FatByte, PutPiece;
      if clst < 2 || clst >= geo.nFatent {
        return IntErr;
      }
      ghost var d := Logical();
      match geo.fsType {
        case Fat12 => PutFat12(clst, val);
        case Fat16 => PutFat16(clst, val);
        case Fat32 => PutFat32(clst, val);
      }
      PutThenGet(geo, d, Logical(), clst, val);
      res := Ok;
    }

    /** remove_chain, loop body: the cluster becomes free and the known free count goes up. */
    method FreeCluster(clst: dword)
      requires Valid() && 2 <= clst < geo.nFatent && Fat()[clst] > 1
      modifies `disk, `wflag, `winsect, `freeClust, `fsiFlag, win
      ensures Valid() && |disk| == old(|disk|) && InFat1(geo, winsect)
      ensures Fat() == old(Fat())[clst := 0] && SameOutsideFat(geo, old(Logical()), Logical())
      ensures CountOk(old(Fat()), old(freeClust)) ==> CountOk(Fat(), freeClust)
      ensures Noted(old(freeClust), old(fsiFlag), freeClust, fsiFlag)
    {
      hide Valid, Logical, Fat, FreeSet, UsedSet, RemoveFrom, SameOutsideFat;
      assert Cut(geo.fsType, 0) == 0;
      RemoveFromStep(Fat(), clst);
      var res := PutFat(clst, 0);
      if freeClust != 0xFFFF_FFFF {
        freeClust := freeClust + 1;
        fsiFlag := true;
      }
    }

    /** remove_chain: frees every cluster its links reach, until an end mark, a free cluster or a reserved entry. */
    method RemoveChain(start: dword) returns (res: FResult)
      requires Valid()
      modifies `disk, `wflag, `winsect, `freeClust, `fsiFlag, win
      ensures Valid() && |disk| == old(|disk|)
      ensures !(2 <= start < geo.nFatent) ==>
        res == IntErr && Logical() == old(Logical()) && freeClust == old(freeClust)
      ensures 2 <= start < geo.nFatent ==>
        var r := RemoveFrom(old(Fat()), start);
        res == r.res && Fat() == r.fat && InFat1(geo, winsect) && SameOutsideFat(geo, old(Logical()), Logical())
      ensures CountOk(old(Fat()), old(freeClust)) ==> CountOk(Fat(), freeClust)
      ensures Noted(old(freeClust), old(fsiFlag), freeClust, fsiFlag)
    {
      hide Logical, DataAreaOk, FatOf, FatAreaOk, Mirrored, RemoveFrom, UsedSet, FreeSet, Windowed, CountOk, InFat1;
      if start < 2 || start >= geo.nFatent {
        return IntErr;
      }
      ghost var f0 := Fat();
      ghost var r := RemoveFrom(f0, start);
      var clst: dword := start;
      res := Ok;
      while clst < geo.nFatent
        invariant Valid() && |disk| == old(|disk|) && 2 <= clst && res == Ok
        invariant clst == start || InFat1(geo, winsect)
        invariant SameOutsideFat(geo, old(Logical()), Logical())
        invariant RemoveFrom(Fat(), clst).fat == r.fat && RemoveFrom(Fat(), clst).res == r.res
        invariant CountOk(f0, old(freeClust)) ==> CountOk(Fat(), freeClust)
        invariant Noted(old(freeClust), old(fsiFlag), freeClust, fsiFlag)
        decreases |UsedSet(Fat())|
      {
        var nxt := GetFat(clst);
        if nxt <= 1 {
          RemoveFromStop(Fat(), clst);
        }
        if nxt == 0 { break; }
        if nxt == 1 { res := IntErr; break; }
        RemoveFromStep(Fat(), clst);
        FreeCluster(clst);
        clst := nxt;
      }
      if clst >= geo.nFatent {
        RemoveFromStop(Fat(), clst);
      }
    }

    /** create_chain, second half: the free cluster becomes the end of a chain and is linked to its predecessor. */
    method LinkCluster(clst: dword, ncl: dword) returns (res: FResult)
      requires Valid() && 2 <= ncl < geo.nFatent && Fat()[ncl] == 0
      requires clst == 0 || (2 <= clst < geo.nFatent && Fat()[clst] != 0)
      modifies `disk, `wflag, `winsect, `lastClust, `freeClust, `fsiFlag, win
      ensures Valid() && |disk| == old(|disk|) && res == Ok && InFat1(geo, winsect) && lastClust == ncl
      ensures Fat() == Linked(old(Fat()), clst, ncl, EndMark(geo.fsType))
      ensures SameOutsideFat(geo, old(Logical()), Logical())
      ensures CountOk(old(Fat()), old(freeClust)) ==> CountOk(Fat(), freeClust)
      ensures Noted(old(freeClust), old(fsiFlag), freeClust, fsiFlag)
    {
      hide Logical, Fat, FreeSet;
      assert Cut(geo.fsType, 0x0FFF_FFFF) == EndMark(geo.fsType);
      assert Cut(geo.fsType, ncl) == ncl;
      LinkedTakesOne(Fat(), clst, ncl, EndMark(geo.fsType));
      hide Valid, SameOutsideFat;
      res := PutFat(ncl, 0x0FFF_FFFF);
      if res == Ok && clst != 0 {
        res := PutFat(clst, ncl);
      }
      lastClust := ncl;
      if freeClust != 0xFFFF_FFFF {
        freeClust := if freeClust == 0 then 0xFFFF_FFFF else freeClust - 1;
        fsiFlag := true;
      }
    }

    /** create_chain, first half: the cyclic search behind `scl`. 0 when nothing is free, 1 on a reserved entry. */
    method FindFree(scl: dword) returns (ncl: dword)
      requires Valid() && 1 <= scl < geo.nFatent
      modifies `disk, `wflag, `winsect, win
      ensures Valid() && |disk| == old(|disk|) && Logical() == old(Logical()) && Fat() == old(Fat())
      ensures ncl == 0 ==> NoneFree(Fat())
      ensures ncl == 1 ==> HitsReserved(Fat(), scl)
      ensures ncl >= 2 ==> FirstFree(Fat(), scl, ncl) && InFat1(geo, winsect)
      ensures InFat1(geo, winsect) || winsect == old(winsect)
    {
      hide Logical, Fat, DataAreaOk, Mirrored, InFat1;
      ghost var f := Fat();
      ghost var wrapped := false;
      ncl := scl;
      while true
        invariant Valid() && |disk| == old(|disk|) && Logical() == old(Logical()) && Fat() == f
        invariant 1 <= ncl < geo.nFatent && (ncl == 1 ==> scl == 1)
        invariant InFat1(geo, winsect) || winsect == old(winsect)
        invariant if wrapped then ncl < scl else scl <= ncl
        invariant forall x: nat :: 2 <= x < geo.nFatent && (if wrapped then scl < x || x <= ncl else scl < x <= ncl) ==>
          f[x] >= 2
        decreases if wrapped then scl - ncl else geo.nFatent + geo.nFatent - ncl
      {
        ncl := ncl + 1;
        if ncl >= geo.nFatent {
          ncl := 2;
          wrapped := true;
          if ncl > scl { return 0; }
        }
        var cs := GetFat(ncl);
        if cs == 0 { break; }
        if cs == 1 { return 1; }
        if ncl == scl { return 0; }
      }
    }

    /** create_chain: stretches the chain at `clst`, or starts a new one when `clst` is 0. Returns the cluster that
        follows, newly allocated if there was none; 0 when the disk is full; 1 on an invalid or reserved entry. */
    method CreateChain(clst: dword) returns (r: dword)
      requires Valid()
      modifies `disk, `wflag, `winsect, `lastClust, `freeClust, `fsiFlag, win
      ensures Valid() && |disk| == old(|disk|)
      ensures clst != 0 && !(2 <= clst < geo.nFatent && old(Fat())[clst] >= 2) ==>
        r == 1 && Logical() == old(Logical())
      ensures 2 <= clst < geo.nFatent && 2 <= old(Fat())[clst] < geo.nFatent ==>
        r == old(Fat())[clst] && Logical() == old(Logical()) && InFat1(geo, winsect)
      ensures clst == 0 || (2 <= clst < geo.nFatent && old(Fat())[clst] >= geo.nFatent) ==>
        Allocation(clst, old(lastClust), old(Fat()), old(Logical()), r)
      ensures InFat1(geo, winsect) || winsect == old(winsect)
      ensures CountOk(old(Fat()), old(freeClust)) ==> CountOk(Fat(), freeClust)
      ensures Noted(old(freeClust), old(fsiFlag), freeClust, fsiFlag)
    {
      hide Logical, Fat, DataAreaOk, Mirrored, FirstFree, NoneFree, HitsReserved, FreeSet, CountOk;
      var scl: dword;
      if clst == 0 {
        scl := lastClust;
        if scl == 0 || scl >= geo.nFatent {
          scl := 1;
        }
      } else {
        var cs := GetFat(clst);
        if cs < 2 { return 1; }
        if cs < geo.nFatent { return cs; }
        scl := clst;
      }
      r := FindFree(scl);
      if r < 2 { return; }
      FirstFreeIsFree(Fat(), scl, r);
      var res := LinkCluster(clst, r);
    }

    /** create_chain as its callers see it: `isNew` tells an allocated cluster from one that already followed. */
    method NextOrNew(clst: dword) returns (r: dword, ghost isNew: bool)
      requires Valid() && (clst == 0 || (2 <= clst < geo.nFatent && Fat()[clst] >= 2))
      modifies `disk, `wflag, `winsect, `lastClust, `freeClust, `fsiFlag, win
      ensures Valid() && |disk| == old(|disk|) && (InFat1(geo, winsect) || winsect == old(winsect))
      ensures !isNew ==> Logical() == old(Logical()) && Fat() == old(Fat())
      ensures !isNew && r >= 2 ==> clst != 0 && r == old(Fat())[clst] < geo.nFatent
      ensures isNew ==> 2 <= r < geo.nFatent && old(Fat())[r] == 0 && InFat1(geo, winsect)
      ensures isNew && clst != 0 ==> old(Fat())[clst] >= geo.nFatent
      ensures isNew ==> Fat() == Linked(old(Fat()), clst, r, EndMark(geo.fsType))
      ensures SameOutsideFat(geo, old(Logical()), Logical())
      ensures r == 0 ==> NoneFree(Fat())
      ensures r == 1 ==> HasReserved(Fat())
      ensures CountOk(old(Fat()), old(freeClust)) ==> CountOk(Fat(), freeClust)
      ensures Noted(old(freeClust), old(fsiFlag), freeClust, fsiFlag)
    {
      hide Logical, DataAreaOk, FatOf, Mirrored, NoneFree, FreeSet, CountOk;
      isNew := (clst == 0 || Fat()[clst] >= geo.nFatent);
      r := CreateChain(clst);
      isNew := isNew && r >= 2;
    }

    /** Outcome of a search that had to allocate: `fat` and `d` are the table and the drive before it. */
    ghost predicate Allocation(clst: dword, last: dword, fat: Table, d: Disk, r: dword)
      requires Valid() && |fat| == geo.nFatent && clst < geo.nFatent
      reads this, win
    {
      var scl := SearchStart(geo.nFatent, clst, last);
      if r == 0 then NoneFree(fat) && Logical() == d
      else if r == 1 then HitsReserved(fat, scl) && Logical() == d
      else FirstFree(fat, scl, r) && lastClust == r && InFat1(geo, winsect) &&
           Fat() == Linked(fat, clst, r, EndMark(geo.fsType)) && SameOutsideFat(geo, d, Logical())
    }

    /** f_getfree on FAT12: every entry from 2 on, through get_fat, up to the first reserved one. */
    method CountFree12() returns (res: FResult, n: nat)
      requires Valid() && geo.fsType == Fat12
      modifies `disk, `wflag, `winsect, win
      ensures Valid() && |disk| == old(|disk|) && Logical() == old(Logical()) && Fat() == old(Fat())
      ensures res == (if HasReserved(Fat()) then IntErr else Ok) && n <= geo.nFatent
      ensures res == Ok ==> n == |FreeSet(Fat())|
      ensures res == IntErr ==> exists c: nat :: FirstReserved(Fat(), c) && n == |FreeBelow(Fat(), c)|
    {
      hide Logical, Fat, DataAreaOk, Mirrored, InFat1, FreeSet, FreeBelow;
      ghost var f := Fat();
      var clst: dword := 2;
      n := 0;
      ZerosCountFree(f, geo.nFatent);
      while clst < geo.nFatent
        invariant Valid() && |disk| == old(|disk|) && Logical() == old(Logical()) && Fat() == f
        invariant 2 <= clst <= geo.nFatent && n + ZerosBelow(f, 2) == ZerosBelow(f, clst)
        invariant forall x :: 2 <= x < clst ==> f[x] != 1
      {
        var stat := GetFat(clst);
        if stat == 1 {
          ZerosCountFree(f, clst);
          assert FirstReserved(f, clst);
          return IntErr, n;
        }
        if stat == 0 {
          n := n + 1;
        }
        clst := clst + 1;
      }
      res := Ok;
    }

    /** f_getfree on FAT16 and FAT32: a raw scan over the FAT sectors that also counts entries 0 and 1. */
    method CountFreeRaw() returns (n: nat)
      requires Valid() && geo.fsType != Fat12
      modifies `disk, `wflag, `winsect, win
      ensures Valid() && |disk| == old(|disk|) && Logical() == old(Logical()) && Fat() == old(Fat())
      ensures n == |FreeSet(Fat())| + ZerosBelow(Fat(), 2)
    {
      hide Valid, Logical, Fat, ScanAt, FreeSet, FreeBelow;
      ghost var f := Fat();
      Facts();
      var clst, sect := geo.nFatent, geo.fatbase;
      var i, p := 0, 0;
      n := 0;
      ZerosCountFree(f, geo.nFatent);
      ScanStart();
      while clst > 0
        invariant Valid() && |disk| == old(|disk|) && Logical() == old(Logical()) && Fat() == f
        invariant 0 <= clst <= geo.nFatent && n == ZerosBelow(f, geo.nFatent - clst)
        invariant ScanAt(geo.nFatent - clst, sect, i, p)
      {
        var zero;
        zero, sect, i, p := ScanEntry(geo.nFatent - clst, sect, i, p);
        if zero {
          n := n + 1;
        }
        clst := clst - 1;
      }
    }

    /** The raw scan is at entry `c`: `i` bytes are left in the window behind offset `p`; sector `sect` comes next. */
    ghost predicate ScanAt(c: nat, sect: nat, i: nat, p: nat)
      requires Valid()
      reads `disk, `wflag, `winsect, win
    {
      && i < SECTOR_SIZE && (i == 0 || i == SECTOR_SIZE - p) && geo.fatbase <= sect
      && EntryAt(geo.fsType, c) == (sect - geo.fatbase) * SECTOR_SIZE - i
      && (i > 0 ==> winsect == sect - 1 && win[..] == Logical()[winsect])
    }

    lemma ScanStart()
      requires Valid()
      ensures ScanAt(0, geo.fatbase, 0, 0)
    {
    }

    /** f_getfree, body of the raw scan: whether entry `c` is zero. */
    method ScanEntry(c: nat, sect0: nat, i0: nat, p0: nat) returns (zero: bool, sect: nat, i: nat, p: nat)
      requires Valid() && geo.fsType != Fat12 && c < geo.nFatent && ScanAt(c, sect0, i0, p0)
      modifies `disk, `wflag, `winsect, win
      ensures Valid() && |disk| == old(|disk|) && Logical() == old(Logical()) && Fat() == old(Fat())
      ensures ScanAt(c + 1, sect, i, p) && zero == (Fat()[c] == 0)
    {
      hide Logical, DataAreaOk, Mirrored, Entry, RawEntry, LdWord, LdDword;
      sect, i, p := sect0, i0, p0;
      if i == 0 {
        RawEntryInSector(geo, Logical(), c, 0, sect);
        MoveWindow(sect);
        sect := sect + 1;
        p := 0;
        i := SECTOR_SIZE;
      }
      RawEntryInSector(geo, Logical(), c, p, sect - 1);
      zero := RawEntry(geo.fsType, win[..], p) == 0;
      var size := if geo.fsType == Fat16 then 2 else 4;
      p := p + size;
      i := i - size;
    }

    /** f_getfree: the cached count when it is plausible, otherwise a scan of the FAT that renews it. A reserved
        entry ends the scan of a FAT12 volume with an error; the count up to it is cached all the same. */
    method GetFree() returns (res: FResult, n: nat)
      requires Valid()
      modifies `disk, `wflag, `winsect, `freeClust, `fsiFlag, win
      ensures Valid() && |disk| == old(|disk|) && Logical() == old(Logical()) && Fat() == old(Fat())
      ensures old(freeClust) <= geo.nFatent - 2 ==> res == Ok && n == freeClust == old(freeClust)
      ensures old(freeClust) > geo.nFatent - 2 ==>
        n == freeClust && res == if geo.fsType == Fat12 && HasReserved(Fat()) then IntErr else Ok
      ensures old(freeClust) > geo.nFatent - 2 && res == Ok ==>
        n == |FreeSet(Fat())| + (if geo.fsType == Fat12 then 0 else ZerosBelow(Fat(), 2))
      ensures res == IntErr ==> exists c: nat :: FirstReserved(Fat(), c) && freeClust == |FreeBelow(Fat(), c)|
      ensures res == Ok && CountOk(old(Fat()), old(freeClust)) && Fat()[0] != 0 && Fat()[1] != 0 ==>
        n == |FreeSet(Fat())|
      ensures CountOk(Fat(), freeClust) <==>
        if old(freeClust) <= geo.nFatent - 2 then CountOk(Fat(), old(freeClust)) else ScanIsExact(geo.fsType == Fat12, Fat())
      ensures geo.fsType == Fat32 ==> Noted(old(freeClust), old(fsiFlag), freeClust, fsiFlag)
    {
      hide Logical, Fat, DataAreaOk, Mirrored, FreeSet, FreeBelow, FirstReserved, HasReserved, ScanIsExact;
      if freeClust <= geo.nFatent - 2 {
        return Ok, freeClust;
      }
      ZerosCountFree(Fat(), geo.nFatent);
      if geo.fsType == Fat12 {
        res, n := CountFree12();
        ScanStops(Fat(), res == IntErr, n);
      } else {
        n := CountFreeRaw();
        res := Ok;
        ScanCountsReserved(Fat());
      }
      freeClust := n;
      if geo.fsType == Fat32 {
        fsiFlag := true;
      }
    }

    /** The FSInfo sector that sync composes. */
    function FsInfo(): Sector
      reads `freeClust, `lastClust
    {
      var w := StWord(Zeros(), BS_55AA, 0xAA55);
      var w := StDword(w, FSI_LEAD_SIG, 0x41615252);
      var w := StDword(w, FSI_STRUC_SIG, 0x61417272);
      var w := StDword(w, FSI_FREE_COUNT, freeClust);
      StDword(w, FSI_NXT_FREE, lastClust)
    }

    /** In front of the FATs, `d'` differs from `d` by the FSInfo sector, if that was to be written. */
    ghost predicate InfoWritten(d: Disk, flag: bool, d': Disk)
      reads `freeClust, `lastClust
    {
      |d'| == |d| && forall s :: 0 <= s < |d| && s < geo.fatbase ==>
        d'[s] == if geo.fsType == Fat32 && flag && s == fsiSector then FsInfo() else d[s]
    }

    /** sync: afterwards the drive alone holds the whole logical disk, and FSInfo the allocation hints. */
    method Sync() returns (res: FResult)
      requires Valid()
      modifies `disk, `wflag, `winsect, `fsiFlag, win
      ensures Valid() && res == Ok && disk == Logical() && !wflag
      ensures disk == if geo.fsType == Fat32 && old(fsiFlag) then old(Logical())[fsiSector := FsInfo()] else old(Logical())
      ensures Fat() == old(Fat()) && SameBehindReserved(old(Logical()), Logical())
      ensures geo.fsType == Fat32 ==> !fsiFlag
      ensures winsect == 0 || winsect == old(winsect)
    {
      hide FsInfo, DataAreaOk, FatByte;
      MoveWindow(0);
      ghost var d := Logical();
      if geo.fsType == Fat32 && fsiFlag {
        winsect := 0;
        CopyInto(win, 0, FsInfo());
        assert win[..] == FsInfo();
        disk := disk[fsiSector := win[..]];
        fsiFlag := false;
        ReservedWriteKeepsFat(geo, d, fsiSector, win[..]);
      }
      res := Ok;
    }

    ghost predicate SameBehindReserved(d: Disk, d': Disk) {
      |d| == |d'| && forall s :: geo.fatbase <= s < |d| ==> d[s] == d'[s]
    }

    /** disk_read of one data sector past the window. */
    method ReadData(s: nat) returns (w: Sector)
      requires Valid() && geo.database <= s < |disk| && s != winsect
      ensures w == Logical()[s]
    {
      w := disk[s];
    }

    /** disk_write of one data sector past the window. */
    method WriteData(s: nat, w: Sector)
      requires Valid() && geo.database <= s < |disk| && s != winsect
      modifies `disk
      ensures Valid() && Logical() == old(Logical())[s := w] && Fat() == old(Fat())
    {
      ghost var d := Logical();
      if wflag {
        DataWriteCommutes(geo, disk, winsect, win[..], s, w);
      }
      DataWriteKeepsFat(geo, d, s, w);
      disk := disk[s := w];
    }

    /** Changes a sector behind the FAT through the window and marks it dirty. */
    method StoreWindow(w: Sector)
      requires Valid() && FatEnd(geo) <= winsect
      modifies `wflag, win
      ensures Valid() && winsect < |disk| && Logical() == old(Logical())[winsect := w] && Fat() == old(Fat())
    {
      ghost var d := Logical();
      DataWriteKeepsFat(geo, d, winsect, w);
      CopyInto(win, 0, w);
      wflag := true;
      assert win[..] == w;
    }

    /** The window written to the sector it is set to, whatever that sector held. */
    method WriteWindow()
      requires FatAreaOk(geo, |disk|) && DataAreaOk(geo, |disk|) && win.Length == SECTOR_SIZE && Mirrored(geo, disk)
      requires FatEnd(geo) <= winsect < |disk| && (geo.fsType == Fat32 ==> fsiSector < geo.fatbase)
      modifies `disk, `wflag, `winsect, win
      ensures Valid() && !wflag && winsect == old(winsect) && win[..] == old(win[..])
      ensures disk == old(disk)[winsect := win[..]]
      ensures FatOf(geo, disk) == FatOf(geo, old(disk))
    {
      wflag := true;
      DataWriteKeepsFat(geo, disk, winsect, win[..]);
      MoveWindow(0);
    }

    /** dir_next, the clearing of a new cluster: the window, emptied, is written to every sector of it. */
    method ClearCluster(clst: dword)
      requires Valid() && 2 <= clst < geo.nFatent
      modifies `disk, `wflag, `winsect, win
      ensures Valid() && |disk| == old(|disk|) && Fat() == old(Fat()) && !wflag
      ensures winsect == geo.database + (clst - 2) * geo.csize && FatEnd(geo) <= winsect
      ensures forall s :: 0 <= s < |disk| ==>
        Logical()[s] == if winsect <= s < winsect + geo.csize then Zeros() else old(Logical())[s]
    {
      hide FatOf, Zeros, Mirrored, FatAreaOk, DataAreaOk, FatEnd;
      ClusterOnDrive(geo, |disk|, clst);
      MoveWindow(0);
      ghost var d, f := disk, FatOf(geo, disk);
      Fill(win, 0);
      AllZero(win[..]);
      var start := Clust2Sect(geo, clst);
      winsect := start;
      var c := 0;
      while c < geo.csize
        invariant c <= geo.csize && winsect == start + c && |disk| == |d| && !wflag && win[..] == Zeros()
        invariant Mirrored(geo, disk) && FatOf(geo, disk) == f
        invariant forall s :: 0 <= s < |d| ==> disk[s] == if start <= s < start + c then Zeros() else d[s]
      {
        WriteWindow();
        winsect := winsect + 1;
        c := c + 1;
      }
      winsect := winsect - c;
    }
  }

  lemma ScanStops(fat: Table, stopped: bool, n: nat)
    requires 2 <= |fat| && stopped == HasReserved(fat)
    requires if stopped then exists c: nat :: FirstReserved(fat, c) && n == |FreeBelow(fat, c)| else n == |FreeSet(fat)|
    ensures n == |FreeSet(fat)| <==> ScanIsExact(true, fat)
  {
    hide FreeSet, FreeBelow;
    if stopped {
      var c: nat :| FirstReserved(fat, c) && n == |FreeBelow(fat, c)|;
      FreeBeforeReserved(fat, c);
    }
  }

  lemma ScanCountsReserved(fat: Table)
    requires 2 <= |fat|
    ensures ZerosBelow(fat, 2) == 0 <==> ScanIsExact(false, fat)
  {
    assert ZerosBelow(fat, 1) == if fat[0] == 0 then 1 else 0;
  }

  lemma ClusterOnDrive(g: Layout, n: nat, c: dword)
    requires FatAreaOk(g, n) && DataAreaOk(g, n) && 2 <= c < g.nFatent
    ensures g.nFatent < 0x1000_0000 && Clust2Sect(g, c) == g.database + (c - 2) * g.csize && 0 < g.csize
    ensures 0 < FatEnd(g)
    ensures FatEnd(g) <= Clust2Sect(g, c) && Clust2Sect(g, c) + g.csize <= n
  {
    var start := g.database + (c - 2) * g.csize;
    ClusterInsideVolume(g, n, c, start);
    ClusterInsideVolume(g, n, c, start + g.csize - 1);
  }

  lemma AllZero(w: seq<byte>)
    requires |w| == SECTOR_SIZE && forall i :: 0 <= i < |w| ==> w[i] == 0
    ensures w == Zeros()
  {
  }

  /** create_chain on a forest: a new chain, or a chain stretched at its tail, is a legal step, and no other chain
      changes. */
  method CreateInForest(v: Volume, clst: dword, ghost chains: set<seq<nat>>, ghost call: Call) returns (r: dword)
    requires v.Valid() && Forest(v.Fat(), chains) && Legal(call, chains) && !call.Remove?
    requires (call.Stretch? ==> call.ch != []) && clst == TailOfCall(call)
    modifies v`disk, v`wflag, v`winsect, v`lastClust, v`freeClust, v`fsiFlag, v.win
    ensures v.Valid() && r != 1 && (call.Create? || IsChain(old(v.Fat()), call.ch))
    ensures Effect(old(v.Fat()), call, r, EndMark(v.geo.fsType), v.Fat())
    ensures Forest(v.Fat(), ChainsAfter(chains, call, r))
    ensures CountOk(old(v.Fat()), old(v.freeClust)) ==> CountOk(v.Fat(), v.freeClust)
    ensures Noted(old(v.freeClust), old(v.fsiFlag), v.freeClust, v.fsiFlag)
  {
    hide Forest, FirstFree, HitsReserved, NoneFree, Linked, Effect, CountOk, Volume.Logical, FatOf, DataAreaOk;
    hide Mirrored, IsChain, SameOutsideFat;
    ghost var fat, last := v.Fat(), v.lastClust;
    if call.Stretch? {
      TailLinks(fat, chains, call);
    }
    r := v.CreateChain(clst);
    SearchIsStep(fat, chains, call, SearchStart(|fat|, clst, last), r, EndMark(v.geo.fsType), v.Fat());
  }

  lemma TailLinks(fat: Table, chains: set<seq<nat>>, call: Call)
    requires Forest(fat, chains) && Legal(call, chains) && call.Stretch?
    ensures call.ch != [] && 2 <= TailOfCall(call) < |fat| && fat[TailOfCall(call)] >= |fat|
  {
    hide Forest, IsChain;
    ForestHasChain(fat, chains, call);
    ChainLink(fat, call.ch, |call.ch| - 1);
  }

  /** remove_chain on a forest: exactly the chain goes. */
  method RemoveInForest(v: Volume, start: dword, ghost chains: set<seq<nat>>, ghost ch: seq<nat>) returns (res: FResult)
    requires v.Valid() && Forest(v.Fat(), chains) && ch in chains && ch != [] && start == ch[0]
    modifies v`disk, v`wflag, v`winsect, v`freeClust, v`fsiFlag, v.win
    ensures v.Valid() && res == Ok && Forest(v.Fat(), chains - {ch})
    ensures forall c :: 0 <= c < v.geo.nFatent ==> v.Fat()[c] == if c in ch then 0 else old(v.Fat())[c]
    ensures CountOk(old(v.Fat()), old(v.freeClust)) ==> CountOk(v.Fat(), v.freeClust)
    ensures Noted(old(v.freeClust), old(v.fsiFlag), v.freeClust, v.fsiFlag)
  {
    hide PairwiseDisjoint, CountOk, Volume.Logical, FatOf, DataAreaOk, Mirrored, SameOutsideFat;
    ghost var fat := v.Fat();
    RemoveFromChain(fat, ch);
    RemoveKeepsForest(fat, chains, ch);
    res := v.RemoveChain(start);
  }
}
