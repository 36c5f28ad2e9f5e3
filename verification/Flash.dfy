/** The EPCQ flash writer: erasing sets every bit of a sector, programming a word only clears bits. */
module Flash {
  import opened Bytes

  const BLANK: bv8 := 0xFF
  const WORD_BYTES := 4

  datatype Status = Success | Invalid | IoError

  /** Programming clears bits only. */
  function Clear(x: bv8, y: bv8): bv8 {
    x & y
  }

  /** `n` bytes from `at` on set to 0xFF. */
  ghost function Erased(m: seq<bv8>, at: nat, n: nat): (r: seq<bv8>)
    requires at + n <= |m|
    ensures |r| == |m|
  {
    seq(|m|, i requires 0 <= i < |m| => if at <= i < at + n then BLANK else m[i])
  }

  /** The bytes of `s` programmed over the memory from `at` on; those behind its end program nothing. */
  ghost function Programmed(m: seq<bv8>, at: nat, s: seq<bv8>): (r: seq<bv8>)
    ensures |r| == |m|
  {
    seq(|m|, i requires 0 <= i < |m| => if at <= i < at + |s| then Clear(m[i], s[i - at]) else m[i])
  }

  /** Byte `i` lies in a sector that `n` bytes from `at` on touch. */
  ghost predicate Touched(size: nat, at: nat, n: nat, i: nat)
    requires 0 < size
  {
    n > 0 && at / size <= i / size <= (at + n - 1) / size
  }

  /** What a write is for: the bytes of `s` from `at` on, 0xFF in the rest of every sector they touch, and no change
      elsewhere. */
  ghost function Image(m: seq<bv8>, size: nat, at: nat, s: seq<bv8>): (r: seq<bv8>)
    requires 0 < size && at + |s| <= |m|
    ensures |r| == |m|
  {
    seq(|m|, i requires 0 <= i < |m| =>
      if at <= i < at + |s| then s[i - at]
      else if Touched(size, at, |s|, i) then BLANK
      else m[i])
  }

  /** A word padded with 0xFF programs only the bytes that are not padding. */
  lemma PaddedWord(m: seq<bv8>, at: nat, s: seq<bv8>, b: nat, n: nat, w: nat, pad: nat, word: seq<bv8>)
    requires b + n <= |s| && |word| == WORD_BYTES
    requires pad + n <= WORD_BYTES && w + pad == at + b
    requires word == Splice([BLANK, BLANK, BLANK, BLANK], pad, s[b..b + n])
    ensures Programmed(Programmed(m, at, s[..b]), w, word) == Programmed(m, at, s[..b + n])
  {
    var x, y := Programmed(Programmed(m, at, s[..b]), w, word), Programmed(m, at, s[..b + n]);
    hide Programmed, Splice;
    forall i | 0 <= i < |m| ensures x[i] == y[i] {
      PaddedByte(m, at, s, b, n, w, pad, word, i);
    }
  }

  lemma PaddedByte(m: seq<bv8>, at: nat, s: seq<bv8>, b: nat, n: nat, w: nat, pad: nat, word: seq<bv8>, i: nat)
    requires b + n <= |s| && |word| == WORD_BYTES && i < |m|
    requires pad + n <= WORD_BYTES && w + pad == at + b
    requires word == Splice([BLANK, BLANK, BLANK, BLANK], pad, s[b..b + n])
    ensures Programmed(Programmed(m, at, s[..b]), w, word)[i] == Programmed(m, at, s[..b + n])[i]
  {
    hide Programmed, Splice, Clear;
    var p := Programmed(m, at, s[..b]);
    ProgrammedAt(m, at, s[..b], i);
    ProgrammedAt(p, w, word, i);
    ProgrammedAt(m, at, s[..b + n], i);
    if w <= i < w + WORD_BYTES {
      WordByte(s, b, n, pad, i - w);
      Padding(p[i]);
      if pad <= i - w < pad + n {
        assert s[..b + n][i - at] == s[i - at] && p[i] == m[i];
      }
    }
  }

  lemma ProgrammedAt(m: seq<bv8>, at: nat, s: seq<bv8>, i: nat)
    requires i < |m|
    ensures Programmed(m, at, s)[i] == if at <= i < at + |s| then Clear(m[i], s[i - at]) else m[i]
  {
  }

  lemma WordByte(s: seq<bv8>, b: nat, n: nat, pad: nat, k: nat)
    requires b + n <= |s| && pad + n <= WORD_BYTES && k < WORD_BYTES
    ensures Splice([BLANK, BLANK, BLANK, BLANK], pad, s[b..b + n])[k] == if pad <= k < pad + n then s[b + k - pad] else BLANK
  {
  }

  lemma Padding(x: bv8)
    ensures Clear(x, BLANK) == x && Clear(BLANK, x) == x
  {
  }

  lemma NothingProgrammed(m: seq<bv8>, at: nat, s: seq<bv8>)
    ensures Programmed(m, at, s[..0]) == m
  {
  }

  lemma NothingWritten(m: seq<bv8>, size: nat, at: nat, s: seq<bv8>)
    requires 0 < size && at <= |m|
    ensures Image(m, size, at, s[..0]) == m
  {
  }

  /** The bytes of sector `q`. */
  lemma InSector(i: nat, size: nat, q: nat)
    requires 0 < size
    ensures i / size == q <==> q * size <= i < q * size + size
  {
    if q * size <= i < q * size + size {
      Remainder(i, size, q, i - q * size);
    }
  }

  /** The next sector joins the touched ones. */
  lemma TouchedGrows(size: nat, at: nat, b: nat, n: nat, q: nat, i: nat)
    requires 0 < size && 0 < n && 0 <= q * size <= at + b && at + b + n <= q * size + size
    requires (b > 0 ==> at + b == q * size)
    ensures Touched(size, at, b + n, i) <==> Touched(size, at, b, i) || q * size <= i < q * size + size
  {
    InSector(at + b + n - 1, size, q);
    InSector(i, size, q);
    if b == 0 {
      InSector(at, size, q);
    } else {
      Distribute(size, q, -1);
      QuotientAtLeast(at + b - 1, size, 0);
      InSector(at + b - 1, size, q - 1);
      FirstBefore(size, at, b, q);
    }
  }

  lemma FirstBefore(size: nat, at: nat, b: nat, q: nat)
    requires 0 < size && 0 < b && at + b == q * size
    ensures 1 <= q && at / size <= q - 1
  {
    if q == 0 {
      assert false;
    }
    if at / size >= q {
      MulMono(size, q, at / size);
    }
  }

  /** One round of the write: sector `q` erased and its share of the data programmed. */
  lemma SectorWritten(m: seq<bv8>, size: nat, at: nat, s: seq<bv8>, b: nat, n: nat, q: nat)
    requires 0 < size && at + |s| <= |m| && b + n <= |s| && 0 < n
    requires 0 <= q * size <= at + b && at + b + n <= q * size + size <= |m| && (b > 0 ==> at + b == q * size)
    ensures var m1 := Image(m, size, at, s[..b]);
      Programmed(Erased(m1, q * size, size), at + b, s[b..b + n]) == Image(m, size, at, s[..b + n])
  {
    hide Touched;
    var start := q * size;
    var m1 := Image(m, size, at, s[..b]);
    var x, y := Programmed(Erased(m1, start, size), at + b, s[b..b + n]), Image(m, size, at, s[..b + n]);
    forall i | 0 <= i < |m| ensures x[i] == y[i] {
      TouchedGrows(size, at, b, n, q, i);
      if at + b <= i < at + b + n {
        Padding(s[i - at]);
      }
    }
  }

  /** How many of `length` bytes from `offset` on lie in a memory of `size` bytes; none if `offset` does not. */
  function Reach(size: nat, offset: int, length: nat): (n: nat)
    ensures n <= length && (n > 0 ==> 0 <= offset && offset + n <= size)
  {
    if offset < 0 || offset >= size then 0 else if offset + length <= size then length else size - offset
  }

  /** The memory after the first `n` bytes of `s` are written; nothing is written to an offset outside it. */
  ghost function After(m: seq<bv8>, size: nat, offset: int, s: seq<bv8>, n: nat): (r: seq<bv8>)
    requires 0 < size && n <= Reach(|m|, offset, |s|)
    ensures |r| == |m|
  {
    if 0 <= offset < |m| then Image(m, size, offset, s[..n]) else m
  }

  lemma AfterNothing(m: seq<bv8>, size: nat, offset: int, s: seq<bv8>)
    requires 0 < size
    ensures After(m, size, offset, s, 0) == m
  {
    if 0 <= offset < |m| {
      NothingWritten(m, size, offset, s);
    }
  }

  /** One more sector of the data. */
  lemma AfterSector(m: seq<bv8>, size: nat, offset: int, s: seq<bv8>, b: nat, n: nat, q: nat)
    requires 0 < size && 0 <= offset < |m| && b + n <= Reach(|m|, offset, |s|) && 0 < n
    requires 0 <= q * size <= offset + b && offset + b + n <= q * size + size <= |m|
    requires (b > 0 ==> offset + b == q * size)
    ensures Programmed(Erased(After(m, size, offset, s, b), q * size, size), offset + b, s[b..][..n]) == After(m, size, offset, s, b + n)
  {
    var t := s[..b + n];
    assert s[b..][..n] == t[b..b + n] && t[..b] == s[..b] && t[..b + n] == t;
    SectorWritten(m, size, offset, t, b, n, q);
  }

  class Epcq {
    const dataBase: dword
    const sectorSize: nat
    const numberOfSectors: nat
    const protectedSectors: set<nat>
    var mem: seq<bv8>

    ghost predicate Valid()
      reads `mem
    {
      && WORD_BYTES <= sectorSize && sectorSize % WORD_BYTES == 0
      && 0 < numberOfSectors <= 0x1_0000
      && |mem| == numberOfSectors * sectorSize < 0x8000_0000
      && dataBase + |mem| < WRAP
    }

    constructor (base: dword, size: nat, count: nat, locked: set<nat>, m: seq<bv8>)
      requires WORD_BYTES <= size && size % WORD_BYTES == 0 && 0 < count <= 0x1_0000
      requires |m| == count * size < 0x8000_0000 && base + |m| < WRAP
      ensures Valid() && mem == m && dataBase == base && sectorSize == size && numberOfSectors == count
      ensures protectedSectors == locked
    {
      dataBase, sectorSize, numberOfSectors, protectedSectors, mem := base, size, count, locked, m;
    }

    /** The sector of a byte inside the memory. */
    lemma SectorInside(i: nat)
      requires Valid() && i < |mem|
      ensures var q := i / sectorSize; 0 <= q * sectorSize <= i < q * sectorSize + sectorSize <= |mem| && 0 <= q < numberOfSectors
      ensures i / sectorSize * sectorSize % WORD_BYTES == 0
    {
      var q := i / sectorSize;
      InSector(i, sectorSize, q);
      if q >= numberOfSectors {
        MulMono(sectorSize, numberOfSectors, q);
      }
      MulMono(sectorSize, q + 1, numberOfSectors);
      Distribute(sectorSize, q, 1);
      WordsInSector(sectorSize, q);
    }

    /** `at` is the offset of a sector. */
    predicate Boundary(at: int)
      requires Valid()
      reads `mem
    {
      0 <= at < |mem| && at % sectorSize == 0
    }

    lemma SectorAt(at: int)
      requires Valid() && Boundary(at)
      ensures var q := at / sectorSize; at == q * sectorSize && at + sectorSize <= |mem| && 0 <= q < numberOfSectors
    {
      SectorInside(at);
    }

    /** alt_epcq_controller_erase_block */
    method EraseBlock(blockOffset: int) returns (st: Status)
      requires Valid()
      modifies `mem
      ensures Valid()
      ensures st == Invalid <==> !old(Boundary(blockOffset))
      ensures st == IoError ==> blockOffset / sectorSize in protectedSectors
      ensures st == Success ==>
        blockOffset / sectorSize !in protectedSectors && 0 <= blockOffset && blockOffset + sectorSize <= |mem|
      ensures st == Success ==> mem == Erased(old(mem), blockOffset, sectorSize)
      ensures st != Success ==> mem == old(mem)
    {
      if blockOffset < 0 || blockOffset >= |mem| || blockOffset % sectorSize != 0 {
        return Invalid;
      }
      SectorAt(blockOffset);
      var command := blockOffset / sectorSize % 0x1_0000;
      if command in protectedSectors {
        return IoError;
      }
      EraseSector(command);
      st := Success;
    }

    /** The device's sector erase. */
    method EraseSector(q: nat)
      requires Valid() && 0 <= q * sectorSize && q * sectorSize + sectorSize <= |mem|
      modifies `mem
      ensures Valid() && mem == Erased(old(mem), q * sectorSize, sectorSize)
    {
      var at, m := q * sectorSize, mem;
      mem := seq(|m|, i requires 0 <= i < |m| => if at <= i < at + sectorSize then BLANK else m[i]);
    }

    /** One 32-bit store into the memory, or behind it. */
    method StoreWord(at: nat, word: seq<bv8>) returns (ok: bool)
      requires Valid() && |word| == WORD_BYTES
      modifies `mem
      ensures Valid() && ok == (at / sectorSize !in protectedSectors)
      ensures mem == if ok then Programmed(old(mem), at, word) else old(mem)
    {
      ok := at / sectorSize !in protectedSectors;
      if ok {
        var m := mem;
        mem := seq(|m|, i requires 0 <= i < |m| => if at <= i < at + WORD_BYTES then Clear(m[i], word[i - at]) else m[i]);
      }
    }

    /** Byte `i` lies in a protected sector. */
    predicate Protected(i: nat)
      requires 0 < sectorSize
    {
      i / sectorSize in protectedSectors
    }

    /** No byte from `a` to `b` lies in a protected sector. */
    ghost predicate Writable(a: int, b: int)
      requires 0 < sectorSize
    {
      forall i: nat :: a <= i < b ==> !Protected(i)
    }

    /** The data written from `at` on meets its first protected sector at byte `b`. */
    ghost predicate StoppedAt(at: int, b: nat)
      requires 0 < sectorSize
    {
      0 <= at && Protected(at + b) && Writable(at, at + b)
    }

    /** The argument test of alt_epcq_controller_write_block; the room left in the sector is an unsigned number. */
    predicate AcceptsBlock(blockOffset: int, dataOffset: int, length: nat)
      requires Valid()
      reads `mem
    {
      && Boundary(blockOffset) && 0 <= dataOffset < |mem|
      && length <= (sectorSize - (dataOffset - blockOffset)) % WRAP
    }

    /** A write that passes the test stays in its sector if and only if it starts in the sector or right behind it. */
    lemma StaysInSector(blockOffset: int, dataOffset: int, length: nat)
      requires Valid() && 0 < length < 0x8000_0000 && AcceptsBlock(blockOffset, dataOffset, length)
      ensures blockOffset <= dataOffset && dataOffset + length <= blockOffset + sectorSize <==>
              blockOffset <= dataOffset <= blockOffset + sectorSize
    {
      var room := sectorSize - (dataOffset - blockOffset);
      if 0 <= room < WRAP {
        Remainder(room, WRAP, 0, room);
      }
    }

    /** The bytes of one sector are all protected or all not. */
    lemma OneSector(blockOffset: int, at: nat, n: nat)
      requires Valid() && Boundary(blockOffset) && blockOffset <= at && at + n <= blockOffset + sectorSize
      ensures forall i: nat :: at <= i < at + n ==> (Protected(i) <==> blockOffset / sectorSize in protectedSectors)
      ensures at + n <= |mem|
    {
      SectorAt(blockOffset);
      forall i: nat | at <= i < at + n ensures i / sectorSize == blockOffset / sectorSize {
        InSector(i, sectorSize, blockOffset / sectorSize);
      }
    }

    /** A write that stays in its sector fails at its first byte or not at all. */
    lemma OneSectorOutcome(blockOffset: int, at: nat, length: nat, ok: bool, n: nat)
      requires Valid() && 0 < length < 0x8000_0000 && AcceptsBlock(blockOffset, at, length)
      requires blockOffset <= at <= blockOffset + sectorSize
      requires Writable(at, at + n) && if ok then n == length else n < length && StoppedAt(at, n)
      ensures at + length <= |mem|
      ensures if ok then blockOffset / sectorSize !in protectedSectors
        else n == 0 && blockOffset / sectorSize in protectedSectors
    {
      hide Protected, AcceptsBlock;
      StaysInSector(blockOffset, at, length);
      assert Boundary(blockOffset) by {
        AcceptsBoundary(blockOffset, at, length);
      }
      OneSector(blockOffset, at, length);
      assert Protected(at) <==> blockOffset / sectorSize in protectedSectors;
      assert !ok ==> (Protected(at + n) <==> blockOffset / sectorSize in protectedSectors);
    }

    lemma AcceptsBoundary(blockOffset: int, at: nat, length: nat)
      requires Valid() && AcceptsBlock(blockOffset, at, length)
      ensures Boundary(blockOffset)
    {
    }

    /** With sectors of 65536 bytes, a byte in front of sector 1 and one in sector 2 pass the test for sectors 1 and
        0. */
    lemma OtherSectorsAccepted()
      requires Valid() && sectorSize == 0x1_0000 && 3 <= numberOfSectors
      ensures AcceptsBlock(0x1_0000, 0, 1) && AcceptsBlock(0, 0x2_0001, 1)
    {
      MulMono(sectorSize, 3, numberOfSectors);
      Remainder(0x1_0000, sectorSize, 1, 0);
      Remainder(0, sectorSize, 0, 0);
    }

    /** alt_epcq_controller_write_block: the data is programmed where the data offset says, up to the first protected
        sector. */
    method WriteBlock(blockOffset: int, dataOffset: int, data: seq<bv8>) returns (st: Status)
      requires Valid() && |data| < 0x8000_0000 && dataOffset < 0x8000_0000
      modifies `mem
      ensures Valid() && |mem| == old(|mem|)
      ensures st == Invalid <==> !old(AcceptsBlock(blockOffset, dataOffset, |data|))
      ensures st == Invalid ==> mem == old(mem)
      ensures st == Success ==>
        Writable(dataOffset, dataOffset + |data|) && mem == Programmed(old(mem), dataOffset, data)
      ensures st == IoError ==>
        exists b: nat :: b < |data| && StoppedAt(dataOffset, b) && mem == Programmed(old(mem), dataOffset, data[..b])
      ensures blockOffset <= dataOffset <= blockOffset + sectorSize && st == IoError ==>
        data != [] && blockOffset / sectorSize in protectedSectors && mem == old(mem)
      ensures blockOffset <= dataOffset <= blockOffset + sectorSize && st == Success && data != [] ==>
        blockOffset / sectorSize !in protectedSectors && dataOffset + |data| <= |mem|
    {
      hide Programmed, Writable, Protected, StoppedAt;
      if blockOffset < 0 || dataOffset < 0 || dataOffset >= |mem| || blockOffset >= |mem| ||
         |data| > (sectorSize - (dataOffset - blockOffset)) % WRAP || blockOffset % sectorSize != 0 {
        return Invalid;
      }
      var ok, n := WriteWords(dataOffset, data);
      st := if ok then Success else IoError;
      if blockOffset <= dataOffset <= blockOffset + sectorSize && data != [] {
        OneSectorOutcome(blockOffset, dataOffset, |data|, ok, n);
        NothingProgrammed(old(mem), dataOffset, data);
      }
    }

    /** alt_epcq_controller_write_block: where the next word starts, and how much of the data behind its padding fits
        in. */
    static method AlignWord(writeOffset: nat, remaining: nat) returns (at: nat, padding: nat, toCopy: nat)
      requires remaining > 0
      ensures at % WORD_BYTES == 0 && at + padding == writeOffset && padding < WORD_BYTES
      ensures 0 < toCopy <= remaining && padding + toCopy <= WORD_BYTES
      ensures toCopy < remaining ==> padding + toCopy == WORD_BYTES
    {
      at, padding, toCopy := writeOffset, 0, WORD_BYTES;
      if writeOffset % WORD_BYTES != 0 {
        padding := writeOffset % WORD_BYTES;
        toCopy := toCopy - padding;
        if toCopy > remaining {
          toCopy := remaining;
        }
        at := writeOffset - padding;
      } else if toCopy > remaining {
        toCopy := remaining;
      }
    }

    /** alt_epcq_controller_write_block, the loop: one 32-bit word at a time, padded to word boundaries; `n` bytes of
        the data are programmed. */
    method WriteWords(dataOffset: nat, data: seq<bv8>) returns (ok: bool, ghost n: nat)
      requires Valid()
      modifies `mem
      ensures Valid() && |mem| == old(|mem|) && n <= |data| && mem == Programmed(old(mem), dataOffset, data[..n])
      ensures Writable(dataOffset, dataOffset + n)
      ensures if ok then n == |data| && data[..n] == data else n < |data| && StoppedAt(dataOffset, n)
    {
      ghost var m0 := mem;
      hide Programmed, Splice, Protected;
      NothingProgrammed(m0, dataOffset, data);
      var writeOffset: nat, remaining: nat, bufferOffset: nat := dataOffset, |data|, 0;
      while remaining > 0
        invariant Valid() && |mem| == |m0| && bufferOffset + remaining == |data|
        invariant mem == Programmed(m0, dataOffset, data[..bufferOffset])
        invariant Writable(dataOffset, dataOffset + bufferOffset)
        invariant remaining > 0 ==> writeOffset == dataOffset + bufferOffset
        decreases remaining
      {
        var word, padding, toCopy := [BLANK, BLANK, BLANK, BLANK], 0, 0;
        writeOffset, padding, toCopy := AlignWord(writeOffset, remaining);
        word := Splice(word, padding, data[bufferOffset..bufferOffset + toCopy]);
        WordOnOneSide(writeOffset, padding, toCopy);
        PaddedWord(m0, dataOffset, data, bufferOffset, toCopy, writeOffset, padding, word);
        ok := StoreWord(writeOffset, word);
        if !ok {
          n := bufferOffset;
          return;
        }
        bufferOffset := bufferOffset + toCopy;
        remaining := remaining - toCopy;
        writeOffset := writeOffset + WORD_BYTES;
      }
      assert data[..bufferOffset] == data;
      ok, n := true, bufferOffset;
    }

    /** The bytes of a word are all protected or all not. */
    lemma WordOnOneSide(w: nat, padding: nat, n: nat)
      requires Valid() && w % WORD_BYTES == 0 && padding + n <= WORD_BYTES && 0 < n
      ensures if w / sectorSize in protectedSectors then Protected(w + padding)
        else Writable(w + padding, w + padding + n)
    {
      forall i: nat | w <= i < w + WORD_BYTES ensures i / sectorSize == w / sectorSize {
        WordInSector(w, i, sectorSize);
      }
    }

    /** alt_epcq_validate_read_write_arguments */
    predicate Accepts(offset: int, length: nat)
      requires Valid()
      reads `mem
    {
      (dataBase + offset) % WRAP < dataBase + |mem| && (dataBase + offset + length) % WRAP < dataBase + |mem|
    }

    /** Byte `w`, the next one to write after `b` bytes, lies in sector `q`, and at its start unless it is the first. */
    ghost predicate AtSector(q: nat, w: nat, b: nat) {
      0 <= q * sectorSize <= w < q * sectorSize + sectorSize && (b > 0 ==> w == q * sectorSize)
    }

    /** alt_epcq_controller_write, loop body: the sector that holds `writeOffset` is erased and written. `b` bytes of
        `src` were written before. */
    method WriteSector(writeOffset: nat, rest: seq<bv8>, ghost m0: seq<bv8>, ghost offset: int, ghost src: seq<bv8>,
                       ghost b: nat, ghost q: nat)
      returns (st: Status, n: nat)
      requires Valid() && |m0| == |mem| && 0 <= offset && offset + b == writeOffset && q < numberOfSectors
      requires AtSector(q, writeOffset, b)
      requires b < |src| < 0x8000_0000 && rest == src[b..] && b <= Reach(|m0|, offset, |src|) && offset < |m0|
      requires mem == After(m0, sectorSize, offset, src, b)
      modifies `mem
      ensures Valid() && |mem| == old(|mem|) && writeOffset < |mem|
      ensures st == if Protected(writeOffset) then IoError else Success
      ensures st != Success ==> mem == old(mem)
      ensures st == Success ==>
        0 < n <= |rest| && b + n <= Reach(|m0|, offset, |src|) && mem == After(m0, sectorSize, offset, src, b + n)
      ensures st == Success ==> forall i: nat :: writeOffset <= i < writeOffset + n ==> !Protected(i)
      ensures st == Success && n < |rest| ==> writeOffset + n == q * sectorSize + sectorSize
    {
      hide After, Erased, Programmed;
      SectorBelow(q);
      InSector(writeOffset, sectorSize, q);
      SectorStart(q);
      n := 0;
      var blockOffset := writeOffset / sectorSize * sectorSize;
      var within := 0;
      if blockOffset != writeOffset {
        within := writeOffset - blockOffset;
      }
      st := EraseBlock(blockOffset);
      if st != Success {
        return;
      }
      n := if sectorSize - within < |rest| then sectorSize - within else |rest|;
      AfterSector(m0, sectorSize, offset, src, b, n, q);
      Remainder(sectorSize - within, WRAP, 0, sectorSize - within);
      st := WriteBlock(blockOffset, writeOffset, rest[..n]);
      forall i: nat | writeOffset <= i < writeOffset + n ensures !Protected(i) {
        InSector(i, sectorSize, q);
      }
    }

    lemma SectorStart(q: nat)
      requires Valid() && q < numberOfSectors && 0 <= q * sectorSize && q * sectorSize + sectorSize <= |mem|
      ensures Boundary(q * sectorSize) && q * sectorSize / sectorSize == q
    {
      Remainder(q * sectorSize, sectorSize, q, 0);
    }

    /** alt_epcq_controller_write: erases and writes sector by sector. Success means that all of the data that lies
        in the memory was written; an error comes from the first protected sector and leaves what was written before
        it. */
    method Write(offset: int, src: seq<bv8>) returns (st: Status)
      requires Valid() && |src| < 0x8000_0000 && -0x8000_0000 <= offset < 0x8000_0000
      modifies `mem
      ensures Valid() && |mem| == old(|mem|)
      ensures st == Invalid <==> !old(Accepts(offset, |src|))
      ensures st == Invalid ==> mem == old(mem)
      ensures st == Success ==> mem == After(old(mem), sectorSize, offset, src, Reach(|mem|, offset, |src|))
      ensures st == Success ==> Writable(offset, offset + Reach(|mem|, offset, |src|))
      ensures st == IoError ==>
        exists i: nat :: offset <= i < offset + Reach(|mem|, offset, |src|) && Protected(i) && Writable(offset, i) &&
                         mem == After(old(mem), sectorSize, offset, src, i - offset)
    {
      hide After, Erased, Programmed;
      if !Accepts(offset, |src|) {
        return Invalid;
      }
      ghost var m0, inside := mem, 0 <= offset < |mem|;
      var writeOffset: nat, remaining: nat, bufferOffset: nat := offset % WRAP, |src|, 0;
      StartOfLoop(offset, writeOffset);
      AfterNothing(mem, sectorSize, offset, src);
      var i: nat := writeOffset / sectorSize;
      st := Success;
      while i < numberOfSectors
        invariant Valid() && |mem| == |m0| && bufferOffset + remaining == |src| && st == Success
        invariant bufferOffset <= Reach(|m0|, offset, |src|) && mem == After(m0, sectorSize, offset, src, bufferOffset)
        invariant if inside then writeOffset == offset + bufferOffset else i >= numberOfSectors
        invariant inside && remaining > 0 ==> AtSector(i, writeOffset, bufferOffset)
        invariant Writable(offset, offset + bufferOffset)
        decreases numberOfSectors - i
      {
        if remaining == 0 {
          break;
        }
        SectorBelow(i);
        var n;
        st, n := WriteSector(writeOffset, src[bufferOffset..], m0, offset, src, bufferOffset, i);
        if st != Success {
          return;
        }
        remaining := remaining - n;
        bufferOffset := bufferOffset + n;
        writeOffset := writeOffset + n;
        i := i + 1;
      }
      if inside && remaining > 0 {
        Exhausted(i, writeOffset, bufferOffset);
      }
      assert bufferOffset == Reach(|m0|, offset, |src|);
    }

    lemma Exhausted(q: nat, w: nat, b: nat)
      requires Valid() && q >= numberOfSectors && AtSector(q, w, b)
      ensures |mem| <= w
    {
      MulMono(sectorSize, numberOfSectors, q);
    }

    lemma SectorBelow(q: nat)
      requires Valid() && q < numberOfSectors
      ensures 0 <= q * sectorSize && q * sectorSize + sectorSize <= |mem|
      ensures (q + 1) * sectorSize == q * sectorSize + sectorSize
    {
      MulMono(sectorSize, q + 1, numberOfSectors);
      Distribute(sectorSize, q, 1);
    }

    lemma StartOfLoop(offset: int, w: nat)
      requires Valid() && -0x8000_0000 <= offset < 0x8000_0000 && w == offset % WRAP
      ensures 0 <= w / sectorSize
      ensures if 0 <= offset < |mem| then w == offset && AtSector(w / sectorSize, w, 0)
        else w / sectorSize >= numberOfSectors
    {
      QuotientAtLeast(w, sectorSize, 0);
      if offset < 0 {
        Remainder(offset, WRAP, -1, offset + WRAP);
      }
      if 0 <= offset < |mem| {
        SectorInside(offset);
      } else {
        QuotientAtLeast(w, sectorSize, numberOfSectors);
      }
    }

    /** Success writes all of the data if and only if the data lies in the memory. */
    lemma AllIsWritten(offset: int, length: nat)
      requires Valid()
      ensures Reach(|mem|, offset, length) == length <==> length == 0 || (0 <= offset && offset + length <= |mem|)
    {
    }

    /** Of the writes inside the memory exactly those are refused that end with its last byte, or start behind it. */
    lemma LastByteIsRefused(offset: nat, length: nat)
      requires Valid() && offset + length <= |mem|
      ensures Accepts(offset, length) <==> offset + length < |mem|
    {
    }

    /** The check in unbounded arithmetic: as long as no address wraps, a write is accepted exactly if it ends in front
        of the last byte. An end at or behind the end of the memory is accepted only if its address wraps past 2^32. */
    lemma EndIsRefused(offset: int, length: nat)
      requires Valid() && -(dataBase as int) <= offset < 0x8000_0000 && length < 0x8000_0000
      ensures dataBase + offset + length < WRAP ==> (Accepts(offset, length) <==> offset + length < |mem|)
      ensures dataBase + offset < WRAP <= dataBase + offset + length ==>
        (Accepts(offset, length) <==> offset < |mem| && dataBase + offset + length - WRAP < dataBase + |mem|)
      ensures WRAP <= dataBase + offset ==>
        (Accepts(offset, length) <==> dataBase + offset + length - WRAP < dataBase + |mem|)
    {
      var a, b := dataBase + offset, dataBase + offset + length;
      Remainder(a, WRAP, if a < WRAP then 0 else 1, if a < WRAP then a else a - WRAP);
      if b < 2 * WRAP {
        Remainder(b, WRAP, if b < WRAP then 0 else 1, if b < WRAP then b else b - WRAP);
      }
    }

    /** An offset in front of the memory passes the check, and then nothing is written and success reported. */
    lemma NegativeOffsetAccepted(offset: int, length: nat)
      requires Valid() && 0 <= dataBase + offset < dataBase && offset + length < |mem|
      ensures Accepts(offset, length) && Reach(|mem|, offset, length) == 0
    {
    }
  }

  lemma WordsInSector(size: nat, q: nat)
    requires size % WORD_BYTES == 0
    ensures q * size % WORD_BYTES == 0
  {
    var k := size / WORD_BYTES;
    assert size == WORD_BYTES * k;
    Associate(q, WORD_BYTES, k);
    assert q * size == WORD_BYTES * (q * k);
  }

  /** The bytes of a word lie in one sector. */
  lemma WordInSector(w: nat, i: nat, size: nat)
    requires 0 < size && size % WORD_BYTES == 0 && w % WORD_BYTES == 0 && w <= i < w + WORD_BYTES
    ensures i / size == w / size
  {
    var q := w / size;
    InSector(w, size, q);
    WordsInSector(size, q);
    WholeWords(w, q * size, size);
    InSector(i, size, q);
  }

  lemma WholeWords(w: nat, block: nat, size: nat)
    requires size % WORD_BYTES == 0 && w % WORD_BYTES == 0 && block % WORD_BYTES == 0 && w < block + size
    ensures w + WORD_BYTES <= block + size
  {
    var a, b, c := w / WORD_BYTES, block / WORD_BYTES, size / WORD_BYTES;
    assert w == WORD_BYTES * a && block == WORD_BYTES * b && size == WORD_BYTES * c;
    assert a + 1 <= b + c;
  }
}
