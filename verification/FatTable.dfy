/** The packed FAT entries of a disk image. */
module FatTable {
  import opened Bytes
  import opened Geometry

  /** Byte `b` of the first FAT. */
  function FatByte(g: Layout, d: Disk, b: nat): byte
    requires b < SECTOR_SIZE * g.fsize && g.fatbase + g.fsize <= |d|
  {
    d[g.fatbase + b / SECTOR_SIZE][b % SECTOR_SIZE]
  }

  /** First byte of entry `c`. */
  function EntryAt(t: FatType, c: nat): nat {
    match t
    case Fat12 => c + c / 2
    case Fat16 => 2 * c
    case Fat32 => 4 * c
  }

  function EntryBytes(t: FatType): nat {
    if t == Fat32 then 4 else 2
  }

  lemma EntryInside(g: Layout, n: nat, c: nat)
    requires FatAreaOk(g, n) && c < g.nFatent
    ensures EntryAt(g.fsType, c) + EntryBytes(g.fsType) <= SECTOR_SIZE * g.fsize
    ensures g.fatbase + g.fsize <= g.database <= n
  {
  }

  /** A FAT12 entry out of its two bytes: odd entries hold the upper, even entries the lower twelve bits. */
  function Unpack12(odd: bool, x: byte, y: byte): nat {
    var w: nat := x as int + 0x100 * (y as int);
    if odd then w / 0x10 else w % 0x1000
  }

  function Unpack32(x: byte, y: byte, z: byte, top: byte): nat {
    (x as int + 0x100 * (y as int) + 0x1_0000 * (z as int) + 0x100_0000 * (top as int)) % 0x1000_0000
  }

  /** Aligned 16- and 32-bit entries never straddle a sector. */
  lemma SameSector(b: nat, i: nat)
    requires (i < 2 && b % 2 == 0) || (i < 4 && b % 4 == 0)
    ensures b % SECTOR_SIZE + i < SECTOR_SIZE
    ensures (b + i) / SECTOR_SIZE == b / SECTOR_SIZE && (b + i) % SECTOR_SIZE == b % SECTOR_SIZE + i
  {
    var q, r := b / SECTOR_SIZE, b % SECTOR_SIZE;
    assert b == SECTOR_SIZE * q + r;
    if b % 4 == 0 {
      assert r == 4 * (b / 4 - 128 * q);
    } else {
      assert r == 2 * (b / 2 - 256 * q);
    }
    Remainder(b + i, SECTOR_SIZE, q, r + i);
  }

  /** Entry `c` as the on-disk format packs it: 12 bits shared across bytes, 16 bits, or the low 28 of 32. */
  ghost function Entry(g: Layout, d: Disk, c: nat): nat
    requires FatAreaOk(g, |d|) && c < g.nFatent
  {
    EntryInside(g, |d|, c);
    var at := EntryAt(g.fsType, c);
    match g.fsType
    case Fat12 => Unpack12(c % 2 == 1, FatByte(g, d, at), FatByte(g, d, at + 1))
    case Fat16 => FatByte(g, d, at) as int + 0x100 * (FatByte(g, d, at + 1) as int)
    case Fat32 => Unpack32(FatByte(g, d, at), FatByte(g, d, at + 1), FatByte(g, d, at + 2), FatByte(g, d, at + 3))
  }

  /** Entries 16 bits wide, read out of the sector that holds them. */
  lemma Entry16InSector(g: Layout, d: Disk, c: nat)
    requires FatAreaOk(g, |d|) && c < g.nFatent && g.fsType == Fat16
    ensures InFat1(g, g.fatbase + c / 256) && g.fatbase + c / 256 < |d| && c * 2 % SECTOR_SIZE + 1 < SECTOR_SIZE
    ensures LdWord(d[g.fatbase + c / 256], c * 2 % SECTOR_SIZE) == Entry(g, d, c)
  {
    EntryInside(g, |d|, c);
    SameSector(2 * c, 1);
    assert 2 * c / SECTOR_SIZE == c / 256;
  }

  /** Entries 32 bits wide, read out of the sector that holds them. */
  lemma Entry32InSector(g: Layout, d: Disk, c: nat)
    requires FatAreaOk(g, |d|) && c < g.nFatent && g.fsType == Fat32
    ensures InFat1(g, g.fatbase + c / 128) && g.fatbase + c / 128 < |d| && c * 4 % SECTOR_SIZE + 3 < SECTOR_SIZE
    ensures LdDword(d[g.fatbase + c / 128], c * 4 % SECTOR_SIZE) % 0x1000_0000 == Entry(g, d, c)
  {
    hide FatAreaOk, FatByte, FatSpan;
    EntryInside(g, |d|, c);
    assert 4 * c / SECTOR_SIZE == c / 128;
    ByteInSector(g, d, 4 * c, 0);
    ByteInSector(g, d, 4 * c, 1);
    ByteInSector(g, d, 4 * c, 2);
    ByteInSector(g, d, 4 * c, 3);
  }

  lemma ByteInSector(g: Layout, d: Disk, b: nat, i: nat)
    requires FatAreaOk(g, |d|) && b + i < SECTOR_SIZE * g.fsize && b % 4 == 0 && i < 4
    ensures b % SECTOR_SIZE + i < SECTOR_SIZE
    ensures FatByte(g, d, b + i) == d[g.fatbase + b / SECTOR_SIZE][b % SECTOR_SIZE + i]
  {
    SameSector(b, i);
  }

  /** A 16- or 32-bit entry at offset `p` of a FAT sector. */
  function RawEntry(t: FatType, w: Sector, p: nat): nat
    requires t != Fat12 && p + 3 < SECTOR_SIZE + (if t == Fat16 then 2 else 0)
  {
    if t == Fat16 then LdWord(w, p) else LdDword(w, p) % 0x1000_0000
  }

  lemma RawEntryInSector(g: Layout, d: Disk, c: nat, p: nat, s: nat)
    requires FatAreaOk(g, |d|) && c < g.nFatent && g.fsType != Fat12
    requires p < SECTOR_SIZE && EntryAt(g.fsType, c) == (s - g.fatbase) * SECTOR_SIZE + p
    ensures InFat1(g, s) && s < |d| && p + EntryBytes(g.fsType) <= SECTOR_SIZE
    ensures RawEntry(g.fsType, d[s], p) == Entry(g, d, c)
  {
    Remainder(EntryAt(g.fsType, c), SECTOR_SIZE, s - g.fatbase, p);
    if g.fsType == Fat16 {
      Entry16InSector(g, d, c);
      assert c / 256 == s - g.fatbase;
    } else {
      Entry32InSector(g, d, c);
      assert c / 128 == s - g.fatbase;
    }
  }

  /** The whole table, entry by entry. */
  ghost function FatOf(g: Layout, d: Disk): (f: seq<nat>)
    requires FatAreaOk(g, |d|)
    ensures |f| == g.nFatent
    ensures forall c :: 0 <= c < g.nFatent ==> f[c] == Entry(g, d, c)
  {
    seq(g.nFatent, c requires 0 <= c < g.nFatent => Entry(g, d, c))
  }

  /** A value cut to the width of an entry. */
  function Cut(t: FatType, v: nat): nat {
    v % (EndMark(t) + 1)
  }

  /** Sector `s` written to the drive, and to the second FAT when it belongs to the first. */
  function WriteThrough(g: Layout, d: Disk, s: nat, w: Sector): (d': Disk)
    requires s < |d| && (g.nFats == 2 && s < g.fatbase + g.fsize ==> s + g.fsize < |d|)
    ensures |d'| == |d|
  {
    if g.nFats == 2 && s < g.fatbase + g.fsize then d[s := w][s + g.fsize := w] else d[s := w]
  }

  /** The second FAT is a copy of the first. */
  ghost predicate Mirrored(g: Layout, d: Disk)
    requires FatAreaOk(g, |d|)
  {
    g.nFats == 2 ==> forall s :: InFat1(g, s) ==> d[s] == d[s + g.fsize]
  }

  ghost predicate SameOutsideFat(g: Layout, d: Disk, d': Disk) {
    |d| == |d'| && forall s :: 0 <= s < |d| && !InAnyFat(g, s) ==> d'[s] == d[s]
  }

  /** From `d` to `d'` exactly the FAT bytes `[at, at + |piece|)` become `piece`, in every copy of the FAT. */
  ghost predicate FatSpliced(g: Layout, d: Disk, d': Disk, at: nat, piece: seq<byte>)
    requires FatAreaOk(g, |d|)
  {
    && SameOutsideFat(g, d, d')
    && Mirrored(g, d')
    && at + |piece| <= SECTOR_SIZE * g.fsize
    && forall b :: 0 <= b < SECTOR_SIZE * g.fsize ==>
         FatByte(g, d', b) == if at <= b < at + |piece| then piece[b - at] else FatByte(g, d, b)
  }

  /** A FAT sector with a few bytes replaced, written through, changes exactly those bytes of the table. */
  lemma WriteThroughSplices(g: Layout, d: Disk, at: nat, piece: seq<byte>)
    requires FatAreaOk(g, |d|) && Mirrored(g, d)
    requires 0 < |piece| && at % SECTOR_SIZE + |piece| <= SECTOR_SIZE && at < SECTOR_SIZE * g.fsize
    ensures g.fatbase + at / SECTOR_SIZE < |d|
    ensures var s := g.fatbase + at / SECTOR_SIZE;
      FatSpliced(g, d, WriteThrough(g, d, s, Splice(d[s], at % SECTOR_SIZE, piece)), at, piece)
  {
    var k := at / SECTOR_SIZE;
    var s := g.fatbase + k;
    var w := Splice(d[s], at % SECTOR_SIZE, piece);
    var d' := WriteThrough(g, d, s, w);
    WriteThroughKeepsCopies(g, d, s, w);
    forall b | 0 <= b < SECTOR_SIZE * g.fsize
      ensures FatByte(g, d', b) == if at <= b < at + |piece| then piece[b - at] else FatByte(g, d, b)
    {
      WriteThroughByte(g, d, at, piece, b);
    }
  }

  /** Writing a reserved sector in front of the FAT leaves the table as it is. */
  lemma ReservedWriteKeepsFat(g: Layout, d: Disk, s: nat, w: Sector)
    requires FatAreaOk(g, |d|) && s < g.fatbase
    ensures FatOf(g, d[s := w]) == FatOf(g, d)
    ensures Mirrored(g, d) ==> Mirrored(g, d[s := w])
  {
    var d' := d[s := w];
    assert forall b: nat :: b < SECTOR_SIZE * g.fsize ==> FatByte(g, d', b) == FatByte(g, d, b);
    forall c | 0 <= c < g.nFatent ensures Entry(g, d', c) == Entry(g, d, c) {
      EntryInside(g, |d|, c);
    }
  }

  /** Writing a sector behind the FAT leaves the table as it is. */
  lemma DataWriteKeepsFat(g: Layout, d: Disk, s: nat, w: Sector)
    requires FatAreaOk(g, |d|) && FatEnd(g) <= s < |d|
    ensures FatOf(g, d[s := w]) == FatOf(g, d)
    ensures Mirrored(g, d) ==> Mirrored(g, d[s := w])
  {
    var d' := d[s := w];
    assert forall b: nat :: b < SECTOR_SIZE * g.fsize ==> FatByte(g, d', b) == FatByte(g, d, b);
    forall c | 0 <= c < g.nFatent ensures Entry(g, d', c) == Entry(g, d, c) {
      EntryInside(g, |d|, c);
    }
  }

  /** A data sector written past the window and the pending write of the window do not interfere. */
  lemma DataWriteCommutes(g: Layout, d: Disk, s: nat, w: Sector, t: nat, v: Sector)
    requires FatAreaOk(g, |d|) && FatEnd(g) <= t < |d| && (InFat1(g, s) || FatEnd(g) <= s < |d|) && s != t
    ensures WriteThrough(g, d[t := v], s, w) == WriteThrough(g, d, s, w)[t := v]
  {
  }

  lemma SplicedElsewhere(g: Layout, d: Disk, d': Disk, at: nat, piece: seq<byte>, b: nat)
    requires FatAreaOk(g, |d|) && FatSpliced(g, d, d', at, piece)
    requires b < SECTOR_SIZE * g.fsize && !(at <= b < at + |piece|)
    ensures |d'| == |d| && FatByte(g, d', b) == FatByte(g, d, b)
  {
  }

  /** Only the last write of a sector counts. */
  lemma WriteThroughTwice(g: Layout, d: Disk, s: nat, w: Sector, w': Sector)
    requires FatAreaOk(g, |d|) && (InFat1(g, s) || FatEnd(g) <= s < |d|)
    ensures WriteThrough(g, WriteThrough(g, d, s, w), s, w') == WriteThrough(g, d, s, w')
  {
  }

  lemma WriteThroughKeepsCopies(g: Layout, d: Disk, s: nat, w: Sector)
    requires FatAreaOk(g, |d|) && Mirrored(g, d) && InFat1(g, s)
    ensures Mirrored(g, WriteThrough(g, d, s, w)) && SameOutsideFat(g, d, WriteThrough(g, d, s, w))
  {
  }

  lemma WriteThroughByte(g: Layout, d: Disk, at: nat, piece: seq<byte>, b: nat)
    requires FatAreaOk(g, |d|) && b < SECTOR_SIZE * g.fsize
    requires 0 < |piece| && at % SECTOR_SIZE + |piece| <= SECTOR_SIZE && at < SECTOR_SIZE * g.fsize
    ensures var s := g.fatbase + at / SECTOR_SIZE;
      FatByte(g, WriteThrough(g, d, s, Splice(d[s], at % SECTOR_SIZE, piece)), b)
      == if at <= b < at + |piece| then piece[b - at] else FatByte(g, d, b)
  {
  }

  lemma SplicesCompose(g: Layout, d: Disk, d1: Disk, d2: Disk, at: nat, x: byte, y: byte)
    requires FatAreaOk(g, |d|) && FatSpliced(g, d, d1, at, [x]) && FatSpliced(g, d1, d2, at + 1, [y])
    ensures FatSpliced(g, d, d2, at, [x, y])
  {
    forall b | 0 <= b < SECTOR_SIZE * g.fsize
      ensures FatByte(g, d2, b) == if at <= b < at + 2 then [x, y][b - at] else FatByte(g, d, b)
    {
    }
  }

  /** Bitwise or of two four-bit numbers. */
  function OrNibble(a: nat, b: nat): (r: nat)
    requires a < 0x10 && b < 0x10
    ensures r < 0x10
    ensures a == 0 ==> r == b
  {
    var r := (a as bv4) | (b as bv4);
    assert a == 0 ==> r == b as bv4;
    r as int
  }

  /** The first or second byte of a FAT12 entry after storing `v`: it keeps the four bits of a neighbour that shares
      it. */
  function NewByte12(odd: bool, first: bool, x: byte, v: dword): byte {
    if first then if odd then x % 0x10 + 0x10 * (v % 0x10) else v % 0x100
    else if odd then v / 0x10 % 0x100 else 0x10 * (x / 0x10) + v / 0x100 % 0x10
  }

  /** The two bytes of a FAT12 entry after storing `v`. */
  function Pack12(odd: bool, x: byte, y: byte, v: dword): (p: seq<byte>)
    ensures |p| == 2
  {
    [NewByte12(odd, true, x, v), NewByte12(odd, false, y, v)]
  }

  lemma Pack12Bytes(odd: bool, x: byte, y: byte, v: dword)
    ensures Pack12(odd, x, y, v) == [NewByte12(odd, true, x, v), NewByte12(odd, false, y, v)]
  {
  }

  /** The four bytes of a FAT32 entry after storing `v`, which is ored with the reserved top four bits. */
  function Pack32(top: byte, v: dword): (p: seq<byte>)
    ensures |p| == 4
  {
    [v % 0x100, v / 0x100 % 0x100, v / 0x1_0000 % 0x100,
     v / 0x100_0000 % 0x10 + 0x10 * OrNibble(v / 0x1000_0000, top / 0x10)]
  }

  /** The reserved bits end up set if they were, or if the value sets them. */
  lemma ReservedBitsJoin(top: byte, v: dword)
    ensures Pack32(top, v)[3] / 0x10 < 0x10
    ensures (Pack32(top, v)[3] / 0x10) as bv4 == ((v / 0x1000_0000) as bv4) | ((top / 0x10) as bv4)
  {
    var r := ((v / 0x1000_0000) as bv4) | ((top / 0x10) as bv4);
    assert Pack32(top, v)[3] / 0x10 == r as int;
    NibbleBack(r);
  }

  lemma NibbleBack(r: bv4)
    ensures (r as int) as bv4 == r
  {
  }

  /** The bytes put_fat stores for entry `c`. */
  ghost function PutPiece(g: Layout, d: Disk, c: nat, v: dword): (p: seq<byte>)
    requires FatAreaOk(g, |d|) && c < g.nFatent
    ensures |p| == EntryBytes(g.fsType)
  {
    EntryInside(g, |d|, c);
    var at := EntryAt(g.fsType, c);
    match g.fsType
    case Fat12 => Pack12(c % 2 == 1, FatByte(g, d, at), FatByte(g, d, at + 1), v)
    case Fat16 => [v % 0x100, v / 0x100 % 0x100]
    case Fat32 => Pack32(FatByte(g, d, at + 3), v)
  }

  lemma PutPiece12(g: Layout, d: Disk, c: nat, v: dword)
    requires FatAreaOk(g, |d|) && c < g.nFatent && g.fsType == Fat12
    ensures var bc := c + c / 2;
      bc + 1 < SECTOR_SIZE * g.fsize && g.fatbase + g.fsize <= |d| &&
      PutPiece(g, d, c, v) == Pack12(c % 2 == 1, FatByte(g, d, bc), FatByte(g, d, bc + 1), v)
  {
    EntryInside(g, |d|, c);
  }

  /** Read over write: storing `v` in entry `c` makes it read as `v` cut to its width, and no other entry changes. */
  lemma PutThenGet(g: Layout, d: Disk, d': Disk, c: nat, v: dword)
    requires FatAreaOk(g, |d|) && c < g.nFatent
    requires FatSpliced(g, d, d', EntryAt(g.fsType, c), PutPiece(g, d, c, v))
    ensures |d'| == |d| && FatOf(g, d') == FatOf(g, d)[c := Cut(g.fsType, v)]
  {
    match g.fsType
    case Fat12 => PutThenGet12(g, d, d', c, v);
    case Fat16 => PutThenGet16(g, d, d', c, v);
    case Fat32 => PutThenGet32(g, d, d', c, v);
  }

  lemma PutThenGet12(g: Layout, d: Disk, d': Disk, c: nat, v: dword)
    requires FatAreaOk(g, |d|) && c < g.nFatent && g.fsType == Fat12
    requires FatSpliced(g, d, d', EntryAt(g.fsType, c), PutPiece(g, d, c, v))
    ensures |d'| == |d| && FatOf(g, d') == FatOf(g, d)[c := Cut(g.fsType, v)]
  {
    forall e | 0 <= e < g.nFatent
      ensures Entry(g, d', e) == if e == c then Cut(g.fsType, v) else Entry(g, d, e)
    {
      Entry12(g, d, d', c, v, e);
    }
  }

  lemma Entry12(g: Layout, d: Disk, d': Disk, c: nat, v: dword, e: nat)
    requires FatAreaOk(g, |d|) && c < g.nFatent && e < g.nFatent && g.fsType == Fat12
    requires FatSpliced(g, d, d', EntryAt(g.fsType, c), PutPiece(g, d, c, v))
    ensures |d'| == |d| && Entry(g, d', e) == if e == c then Cut(g.fsType, v) else Entry(g, d, e)
  {
    hide Pack12, Unpack12;
    EntryInside(g, |d|, c);
    EntryInside(g, |d|, e);
    var at, be := EntryAt(Fat12, c), EntryAt(Fat12, e);
    var x, y := FatByte(g, d, at), FatByte(g, d, at + 1);
    var x0, y0 := FatByte(g, d, be), FatByte(g, d, be + 1);
    PackUnpack12(c % 2 == 1, x, y, v);
    PackKeepsNeighbour(x, y, v, x0, y0);
  }

  lemma PackUnpack12(odd: bool, x: byte, y: byte, v: dword)
    ensures var p := Pack12(odd, x, y, v); Unpack12(odd, p[0], p[1]) == v % 0x1000
  {
    var p := Pack12(odd, x, y, v);
    Halves(p[0], p[1]);
    Digits12(v);
    NewBytes12(x, y, v);
  }

  /** An even entry shares its last byte with the odd one that follows it. */
  lemma PackKeepsNeighbour(x: byte, y: byte, v: dword, x0: byte, y0: byte)
    ensures Unpack12(true, Pack12(false, x, y, v)[1], y0) == Unpack12(true, y, y0)
    ensures Unpack12(false, x0, Pack12(true, x, y, v)[0]) == Unpack12(false, x0, x)
  {
    var p, q := Pack12(false, x, y, v), Pack12(true, x, y, v);
    NewBytes12(x, y, v);
    assert p[1] == NewByte12(false, false, y, v) && q[0] == NewByte12(true, true, x, v);
    hide NewByte12, Pack12;
    Halves(p[1], y0);
    Halves(y, y0);
    Halves(x0, q[0]);
    Halves(x0, x);
  }

  /** The nibbles of the shared bytes. */
  lemma NewBytes12(x: byte, y: byte, v: dword)
    ensures NewByte12(true, true, x, v) % 0x10 == x % 0x10 && NewByte12(true, true, x, v) / 0x10 == v % 0x10
    ensures NewByte12(false, false, y, v) / 0x10 == y / 0x10 && NewByte12(false, false, y, v) % 0x10 == v / 0x100 % 0x10
  {
    Remainder(x % 0x10 + 0x10 * (v % 0x10), 0x10, v % 0x10, x % 0x10);
    Remainder(0x10 * (y / 0x10) + v / 0x100 % 0x10, 0x10, y / 0x10, v / 0x100 % 0x10);
  }

  /** A little-endian pair of bytes split into its upper and lower twelve bits. */
  lemma Halves(x: byte, y: byte)
    ensures (x as int + 0x100 * (y as int)) / 0x10 == x as int / 0x10 + 0x10 * (y as int)
    ensures (x as int + 0x100 * (y as int)) % 0x1000 == x as int + 0x100 * (y as int % 0x10)
  {
  }

  lemma Digits12(v: nat)
    ensures v % 0x100 + 0x100 * (v / 0x100 % 0x10) == v % 0x1000
    ensures v * 0x10 % 0x100 == 0x10 * (v % 0x10)
    ensures v % 0x10 + 0x10 * (v / 0x10 % 0x100) == v % 0x1000
  {
    Digit(v, 0x100, 0x10);
    Digit(v, 0x10, 0x100);
    Remainder(v * 0x10, 0x100, v / 0x10, 0x10 * (v % 0x10));
  }

  lemma PutThenGet16(g: Layout, d: Disk, d': Disk, c: nat, v: dword)
    requires FatAreaOk(g, |d|) && c < g.nFatent && g.fsType == Fat16
    requires FatSpliced(g, d, d', EntryAt(g.fsType, c), PutPiece(g, d, c, v))
    ensures |d'| == |d| && FatOf(g, d') == FatOf(g, d)[c := Cut(g.fsType, v)]
  {
    forall e | 0 <= e < g.nFatent
      ensures Entry(g, d', e) == if e == c then Cut(g.fsType, v) else Entry(g, d, e)
    {
      EntryInside(g, |d|, c);
      EntryInside(g, |d|, e);
      Digits(v);
    }
  }

  lemma PutThenGet32(g: Layout, d: Disk, d': Disk, c: nat, v: dword)
    requires FatAreaOk(g, |d|) && c < g.nFatent && g.fsType == Fat32
    requires FatSpliced(g, d, d', EntryAt(g.fsType, c), PutPiece(g, d, c, v))
    ensures |d'| == |d| && FatOf(g, d') == FatOf(g, d)[c := Cut(g.fsType, v)]
  {
    forall e | 0 <= e < g.nFatent
      ensures Entry(g, d', e) == if e == c then Cut(g.fsType, v) else Entry(g, d, e)
    {
      Entry32(g, d, d', c, v, e);
    }
  }

  lemma Entry32(g: Layout, d: Disk, d': Disk, c: nat, v: dword, e: nat)
    requires FatAreaOk(g, |d|) && c < g.nFatent && e < g.nFatent && g.fsType == Fat32
    requires FatSpliced(g, d, d', EntryAt(g.fsType, c), PutPiece(g, d, c, v))
    ensures |d'| == |d| && Entry(g, d', e) == if e == c then Cut(g.fsType, v) else Entry(g, d, e)
  {
    EntryInside(g, |d|, c);
    EntryInside(g, |d|, e);
    hide Pack32, Unpack32;
    PackUnpack32(FatByte(g, d, EntryAt(Fat32, c) + 3), v);
  }

  lemma PackUnpack32(top: byte, v: dword)
    ensures var p := Pack32(top, v); Unpack32(p[0], p[1], p[2], p[3]) == v % 0x1000_0000
  {
    Digits28(v);
    var nibble := OrNibble(v / 0x1000_0000, top / 0x10);
    Remainder(v % 0x1000_0000 + 0x1000_0000 * nibble, 0x1000_0000, nibble, v % 0x1000_0000);
  }

  /** The reserved top four bits of a FAT32 entry survive every store of a 28-bit value. */
  lemma ReservedBitsKept(g: Layout, d: Disk, d': Disk, c: nat, v: dword)
    requires FatAreaOk(g, |d|) && c < g.nFatent && g.fsType == Fat32 && v < 0x1000_0000
    requires FatSpliced(g, d, d', EntryAt(g.fsType, c), PutPiece(g, d, c, v))
    ensures 4 * c + 3 < SECTOR_SIZE * g.fsize && g.fatbase + g.fsize <= |d| == |d'|
    ensures FatByte(g, d', 4 * c + 3) / 0x10 == FatByte(g, d, 4 * c + 3) / 0x10
  {
    EntryInside(g, |d|, c);
    assert FatByte(g, d', 4 * c + 3) == PutPiece(g, d, c, v)[3];
  }

  lemma Digits28(v: dword)
    ensures v % 0x1_0000 + 0x1_0000 * (v / 0x1_0000 % 0x100) + 0x100_0000 * (v / 0x100_0000 % 0x10) == v % 0x1000_0000
    ensures v % 0x100 + 0x100 * (v / 0x100 % 0x100) == v % 0x1_0000
  {
    Digit(v, 0x100, 0x100);
    Digit(v, 0x1_0000, 0x100);
    Digit(v, 0x100_0000, 0x10);
  }
}
