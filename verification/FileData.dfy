/** The bytes of a file: the sectors of its cluster chain, laid end to end. */
module FileData {
  import opened Bytes
  import opened Geometry
  import opened Chains
  import opened FatTable

  /** First sector of a valid cluster. */
  function ClusterStart(g: Layout, c: nat): (s: nat)
    requires 2 <= c
  {
    MulMono(g.csize, 0, c - 2);
    g.database + (c - 2) * g.csize
  }

  lemma Clust2SectStart(g: Layout, n: nat, c: nat)
    requires FatAreaOk(g, n) && DataAreaOk(g, n) && 2 <= c < g.nFatent
    ensures c < 0x1_0000_0000 && Clust2Sect(g, c) == ClusterStart(g, c) > 0 && 0 < g.csize
  {
  }

  function ClusterSectors(g: Layout, c: nat): (secs: seq<nat>)
    requires 2 <= c
    ensures |secs| == g.csize
    ensures forall i :: 0 <= i < g.csize ==> secs[i] == ClusterStart(g, c) + i
  {
    seq(g.csize, (i: nat) => (var s: nat := ClusterStart(g, c) + i; s))
  }

  /** All clusters of the chain exist and no cluster occurs twice. */
  ghost predicate GoodChain(g: Layout, ch: seq<nat>) {
    && (forall i :: 0 <= i < |ch| ==> 2 <= ch[i] < g.nFatent)
    && (forall i, j :: 0 <= i < j < |ch| ==> ch[i] != ch[j])
  }

  /** The sectors of a file whose chain is `ch`, in file order. */
  ghost function Sectors(g: Layout, ch: seq<nat>): (secs: seq<nat>)
    requires GoodChain(g, ch)
    ensures |secs| == |ch| * g.csize
  {
    if ch == [] then []
    else
      var n := |ch| - 1;
      Distribute(g.csize, n, 1);
      Sectors(g, ch[..n]) + ClusterSectors(g, ch[n])
  }

  /** Sector `i` of the `j`-th cluster is sector `j * csize + i` of the file. */
  lemma SectorIndex(g: Layout, ch: seq<nat>, j: nat, i: nat)
    requires GoodChain(g, ch) && j < |ch| && i < g.csize
    ensures 0 <= j * g.csize + i < |Sectors(g, ch)|
    ensures Sectors(g, ch)[j * g.csize + i] == ClusterStart(g, ch[j]) + i
  {
    var n := |ch| - 1;
    Distribute(g.csize, j, 1);
    MulMono(g.csize, 0, j);
    MulMono(g.csize, j + 1, n + 1);
    if j < n {
      MulMono(g.csize, j + 1, n);
      SectorIndex(g, ch[..n], j, i);
    }
  }

  /** Every sector of the file belongs to one of its clusters. */
  lemma SectorOwner(g: Layout, ch: seq<nat>, k: nat) returns (j: nat)
    requires GoodChain(g, ch) && k < |Sectors(g, ch)|
    ensures j < |ch| && InCluster(g, ch[j], Sectors(g, ch)[k])
  {
    var n := |ch| - 1;
    var front := Sectors(g, ch[..n]);
    if k < |front| {
      j := SectorOwner(g, ch[..n], k);
    } else {
      j := n;
      assert Sectors(g, ch)[k] == ClusterSectors(g, ch[n])[k - |front|];
    }
  }

  ghost predicate NoDup(s: seq<nat>) {
    forall i, j :: 0 <= i < j < |s| ==> s[i] != s[j]
  }

  /** No two file offsets share a sector. */
  lemma SectorsDistinct(g: Layout, ch: seq<nat>)
    requires GoodChain(g, ch)
    ensures NoDup(Sectors(g, ch))
  {
    if ch != [] {
      var n := |ch| - 1;
      var front, back := Sectors(g, ch[..n]), ClusterSectors(g, ch[n]);
      SectorsDistinct(g, ch[..n]);
      forall x, y | 0 <= x < |front| && 0 <= y < |back| ensures front[x] != back[y] {
        var j := SectorOwner(g, ch[..n], x);
        assert ch[j] != ch[n];
        if front[x] == back[y] {
          ClustersDisjoint(g, ch[j], ch[n], front[x]);
        }
      }
      assert NoDup(front + back);
    }
  }

  /** A stretched chain keeps its sectors in front. */
  lemma SectorsExtend(g: Layout, ch: seq<nat>, c: nat)
    requires GoodChain(g, ch) && GoodChain(g, ch + [c]) && 2 <= c
    ensures Sectors(g, ch + [c]) == Sectors(g, ch) + ClusterSectors(g, c)
  {
    assert (ch + [c])[..|ch|] == ch;
  }

  /** The bytes of a list of sectors on a drive. */
  ghost function BytesOf(d: Disk, secs: seq<nat>): (b: seq<byte>)
    requires forall k :: 0 <= k < |secs| ==> secs[k] < |d|
    ensures |b| == SECTOR_SIZE * |secs|
  {
    seq(SECTOR_SIZE * |secs|, i requires 0 <= i < SECTOR_SIZE * |secs| => d[secs[i / SECTOR_SIZE]][i % SECTOR_SIZE])
  }

  /** Overwriting part of one sector overwrites exactly that stretch of the bytes. */
  lemma SpliceSector(d: Disk, secs: seq<nat>, k: nat, off: nat, piece: seq<byte>)
    requires NoDup(secs) && k < |secs| && off + |piece| <= SECTOR_SIZE
    requires forall k :: 0 <= k < |secs| ==> secs[k] < |d|
    ensures SECTOR_SIZE * k + off + |piece| <= SECTOR_SIZE * |secs|
    ensures BytesOf(d[secs[k] := Splice(d[secs[k]], off, piece)], secs) == Splice(BytesOf(d, secs), SECTOR_SIZE * k + off, piece)
  {
    var d' := d[secs[k] := Splice(d[secs[k]], off, piece)];
    var a, b := BytesOf(d', secs), Splice(BytesOf(d, secs), SECTOR_SIZE * k + off, piece);
    forall i | 0 <= i < |a| ensures a[i] == b[i] {
      if i / SECTOR_SIZE != k {
        assert secs[i / SECTOR_SIZE] != secs[k];
      }
    }
  }

  /** Only the listed sectors matter. */
  lemma BytesSame(d: Disk, d': Disk, secs: seq<nat>)
    requires forall k :: 0 <= k < |secs| ==> secs[k] < |d| && secs[k] < |d'| && d'[secs[k]] == d[secs[k]]
    ensures BytesOf(d', secs) == BytesOf(d, secs)
  {
    var a, b := BytesOf(d', secs), BytesOf(d, secs);
    forall i | 0 <= i < |a| ensures a[i] == b[i] {
      assert d'[secs[i / SECTOR_SIZE]] == d[secs[i / SECTOR_SIZE]];
    }
  }

  lemma BytesPrefix(d: Disk, secs: seq<nat>, more: seq<nat>)
    requires forall k :: 0 <= k < |secs + more| ==> (secs + more)[k] < |d|
    requires forall k :: 0 <= k < |secs| ==> secs[k] < |d|
    ensures BytesOf(d, secs) == BytesOf(d, secs + more)[..SECTOR_SIZE * |secs|]
  {
  }

  /** `n` consecutive sectors from `s` on. */
  function SectorRun(s: nat, n: nat): (r: seq<nat>)
    ensures |r| == n
    ensures forall i :: 0 <= i < n ==> r[i] == s + i
  {
    seq(n, (i: nat) => (var t: nat := s + i; t))
  }

  /** A run of file sectors carries the corresponding stretch of the file's bytes. */
  lemma BytesOfRun(d: Disk, secs: seq<nat>, q: nat, n: nat)
    requires 0 < n && q + n <= |secs| && forall k :: 0 <= k < |secs| ==> secs[k] < |d|
    requires secs[q..q + n] == SectorRun(secs[q], n)
    ensures forall k :: 0 <= k < n ==> SectorRun(secs[q], n)[k] < |d|
    ensures BytesOf(d, SectorRun(secs[q], n)) == BytesOf(d, secs)[SECTOR_SIZE * q..SECTOR_SIZE * (q + n)]
  {
    var r := SectorRun(secs[q], n);
    assert forall k :: 0 <= k < n ==> r[k] == secs[q..q + n][k] == secs[q + k];
    var a, b := BytesOf(d, r), BytesOf(d, secs)[SECTOR_SIZE * q..SECTOR_SIZE * (q + n)];
    forall i | 0 <= i < |a| ensures a[i] == b[i] {
      Remainder(SECTOR_SIZE * q + i, SECTOR_SIZE, q + i / SECTOR_SIZE, i % SECTOR_SIZE);
    }
  }

  /** Sector `q` of the file, at or behind the start of its `cur`-th cluster, as an offset into a cluster. */
  lemma SectorInCluster(csize: nat, cur: nat, q: nat)
    requires 0 < csize && 0 <= cur * csize <= q <= cur * csize + csize
    ensures q % csize == if q == cur * csize + csize then 0 else q - cur * csize
  {
    if q == cur * csize + csize {
      Distribute(csize, cur, 1);
      Remainder(q, csize, cur + 1, 0);
    } else {
      Remainder(q, csize, cur, q - cur * csize);
    }
  }

  /** From sector `q` to the end of its cluster the file's sectors are consecutive. */
  lemma RunInCluster(g: Layout, ch: seq<nat>, cur: nat, q: nat)
    requires GoodChain(g, ch) && cur < |ch| && 0 <= cur * g.csize <= q < cur * g.csize + g.csize
    ensures cur * g.csize + g.csize <= |Sectors(g, ch)|
    ensures var i := q - cur * g.csize;
      Sectors(g, ch)[q..q + (g.csize - i)] == SectorRun(ClusterStart(g, ch[cur]) + i, g.csize - i)
  {
    Distribute(g.csize, cur, 1);
    MulMono(g.csize, cur + 1, |ch|);
    var i: nat := q - cur * g.csize;
    var a, b := Sectors(g, ch)[q..q + (g.csize - i)], SectorRun(ClusterStart(g, ch[cur]) + i, g.csize - i);
    forall k | 0 <= k < g.csize - i ensures a[k] == b[k] {
      SectorIndex(g, ch, cur, i + k);
      assert a[k] == Sectors(g, ch)[cur * g.csize + (i + k)];
    }
  }

  /** A cluster whose end lies in front of the end of the chain is not the last one. */
  lemma NotLast(csize: nat, cur: nat, n: nat)
    requires 0 < csize && cur * csize + csize < n * csize
    ensures cur + 1 < n
  {
    if n <= cur + 1 {
      MulMono(csize, n, cur + 1);
      Distribute(csize, cur, 1);
    }
  }

  lemma BytesOfNext(d: Disk, s: nat, n: nat)
    requires s + n < |d|
    ensures SectorRun(s, n + 1) == SectorRun(s, n) + [s + n]
    ensures BytesOf(d, SectorRun(s, n + 1)) == BytesOf(d, SectorRun(s, n)) + d[s + n]
  {
    var a, b := BytesOf(d, SectorRun(s, n + 1)), BytesOf(d, SectorRun(s, n)) + d[s + n];
    forall i | 0 <= i < |a| ensures a[i] == b[i] {
      if i < SECTOR_SIZE * n {
        assert SectorRun(s, n + 1)[i / SECTOR_SIZE] == SectorRun(s, n)[i / SECTOR_SIZE];
      } else {
        Remainder(i, SECTOR_SIZE, n, i - SECTOR_SIZE * n);
      }
    }
  }

  lemma ReadNone(b: seq<byte>, at: nat, d: Disk, s: nat)
    requires at <= |b|
    ensures Splice(b, at, BytesOf(d, SectorRun(s, 0))) == b
  {
  }

  /** One more sector read behind those already in the buffer. */
  lemma ReadNext(b: seq<byte>, at: nat, d: Disk, s: nat, n: nat)
    requires s + n < |d| && at + SECTOR_SIZE * (n + 1) <= |b|
    ensures Splice(Splice(b, at, BytesOf(d, SectorRun(s, n))), at + SECTOR_SIZE * n, d[s + n])
            == Splice(b, at, BytesOf(d, SectorRun(s, n + 1)))
  {
    BytesOfNext(d, s, n);
    SpliceSplice(b, at, BytesOf(d, SectorRun(s, n)), d[s + n]);
  }

  /** One sector overlaid on a drive shows in a run that contains it, and only there. */
  lemma OverlayRun(d: Disk, t: nat, w: Sector, s: nat, n: nat)
    requires s + n <= |d| && t < |d|
    ensures BytesOf(d[t := w], SectorRun(s, n)) ==
      if s <= t < s + n then Splice(BytesOf(d, SectorRun(s, n)), (t - s) * SECTOR_SIZE, w) else BytesOf(d, SectorRun(s, n))
  {
    hide BytesOf, Splice;
    var r := SectorRun(s, n);
    if s <= t < s + n {
      assert r[t - s] == t;
      WholeSector(d[t], w);
      SpliceSector(d, r, t - s, 0, w);
    } else {
      BytesSame(d, d[t := w], r);
    }
  }

  /** The drive after a write of `n` sectors' worth of `piece` from sector `s` on. */
  function PutRun(d: Disk, s: nat, piece: seq<byte>, n: nat): (d': Disk)
    requires s + n <= |d| && SECTOR_SIZE * n <= |piece|
    ensures |d'| == |d|
  {
    if n == 0 then d
    else PutRun(d, s, piece, n - 1)[s + (n - 1) := piece[SECTOR_SIZE * (n - 1)..SECTOR_SIZE * n]]
  }

  lemma {:induction false} PutRunAt(d: Disk, s: nat, piece: seq<byte>, n: nat, t: nat)
    requires s + n <= |d| && SECTOR_SIZE * n <= |piece| && t < |d|
    ensures PutRun(d, s, piece, n)[t] ==
      if s <= t < s + n then piece[SECTOR_SIZE * (t - s)..SECTOR_SIZE * (t - s) + SECTOR_SIZE] else d[t]
  {
    if n > 0 {
      PutRunAt(d, s, piece, n - 1, t);
    }
  }

  /** Writing a run of the file's sectors overwrites exactly that stretch of its bytes. */
  lemma {:induction false} PutRunBytes(d: Disk, secs: seq<nat>, q: nat, s: nat, piece: seq<byte>, n: nat)
    requires NoDup(secs) && q + n <= |secs| && secs[q..q + n] == SectorRun(s, n) && s + n <= |d|
    requires SECTOR_SIZE * n <= |piece| && forall k :: 0 <= k < |secs| ==> secs[k] < |d|
    ensures BytesOf(PutRun(d, s, piece, n), secs) == Splice(BytesOf(d, secs), SECTOR_SIZE * q, piece[..SECTOR_SIZE * n])
  {
    hide BytesOf, Splice, SectorRun;
    if n == 0 {
      SpliceEmpty(BytesOf(d, secs), SECTOR_SIZE * q);
    } else {
      var m := n - 1;
      RunPart(secs, q, n, s, n);
      if m > 0 {
        RunPart(secs, q, n, s, m);
      } else {
        assert secs[q..q] == SectorRun(s, 0);
      }
      PutRunBytes(d, secs, q, s, piece, m);
      PutSectorBytes(d, PutRun(d, s, piece, m), secs, q, piece, m);
    }
  }

  lemma PutSectorBytes(d: Disk, d1: Disk, secs: seq<nat>, q: nat, piece: seq<byte>, m: nat)
    requires NoDup(secs) && q + m < |secs| && |d1| == |d|
    requires SECTOR_SIZE * (m + 1) <= |piece| && forall k :: 0 <= k < |secs| ==> secs[k] < |d|
    requires BytesOf(d1, secs) == Splice(BytesOf(d, secs), SECTOR_SIZE * q, piece[..SECTOR_SIZE * m])
    ensures BytesOf(d1[secs[q + m] := piece[SECTOR_SIZE * m..SECTOR_SIZE * (m + 1)]], secs)
         == Splice(BytesOf(d, secs), SECTOR_SIZE * q, piece[..SECTOR_SIZE * (m + 1)])
  {
    hide BytesOf, Splice;
    var w := piece[SECTOR_SIZE * m..SECTOR_SIZE * (m + 1)];
    WholeSector(d1[secs[q + m]], w);
    SpliceSector(d1, secs, q + m, 0, w);
    assert piece[..SECTOR_SIZE * (m + 1)] == piece[..SECTOR_SIZE * m] + w;
    SpliceSplice(BytesOf(d, secs), SECTOR_SIZE * q, piece[..SECTOR_SIZE * m], w);
  }

  /** Replacing a whole sector leaves the bytes in front of it as they are. */
  lemma ReplacedSector(d: Disk, secs: seq<nat>, q: nat, w: Sector, n: nat)
    requires NoDup(secs) && q < |secs| && n <= SECTOR_SIZE
    requires forall k :: 0 <= k < |secs| ==> secs[k] < |d|
    ensures BytesOf(d[secs[q] := w], secs)[..SECTOR_SIZE * q + n] == BytesOf(d, secs)[..SECTOR_SIZE * q] + w[..n]
  {
    WholeSector(d[secs[q]], w);
    SpliceSector(d, secs, q, 0, w);
  }

  /** A piece put into a copy `w` of a sector that may be stale in front of which nothing is kept. */
  lemma PutInSector(d: Disk, secs: seq<nat>, q: nat, w: Sector, off: nat, piece: seq<byte>)
    requires NoDup(secs) && q < |secs| && off + |piece| <= SECTOR_SIZE && forall k :: 0 <= k < |secs| ==> secs[k] < |d|
    requires d[secs[q]] == w || off == 0
    ensures d[secs[q]] == w ==>
      BytesOf(d[secs[q] := Splice(w, off, piece)], secs) == Splice(BytesOf(d, secs), SECTOR_SIZE * q + off, piece)
    ensures var b := BytesOf(d[secs[q] := Splice(w, off, piece)], secs);
      b[..SECTOR_SIZE * q + off + |piece|] == BytesOf(d, secs)[..SECTOR_SIZE * q + off] + piece
  {
    hide NoDup, BytesOf, Splice;
    if d[secs[q]] == w {
      SpliceSector(d, secs, q, off, piece);
      SplicePrefix(BytesOf(d, secs), SECTOR_SIZE * q + off, piece);
    } else {
      ReplacedSector(d, secs, q, Splice(w, off, piece), |piece|);
      SplicePrefix(w, 0, piece);
    }
  }

  lemma WholeSector(a: Sector, w: Sector)
    ensures Splice(a, 0, w) == w
  {
  }

  lemma SpliceEmpty(b: seq<byte>, at: nat)
    requires at <= |b|
    ensures Splice(b, at, []) == b
  {
  }

  // ---------------------------------------------------------------- the pointer and its cluster

  /** `clust`, the `cur`-th cluster, holds the byte in front of the pointer. */
  ghost predicate HoldsPrevious(g: Layout, ch: seq<nat>, cur: nat, clust: nat, fptr: nat) {
    cur < |ch| && clust == ch[cur] &&
    SECTOR_SIZE * (cur * g.csize) < fptr <= SECTOR_SIZE * (cur * g.csize + g.csize)
  }

  /** `clust`, the `cur`-th cluster, holds the byte at the pointer. */
  ghost predicate HoldsNext(g: Layout, ch: seq<nat>, cur: nat, clust: nat, fptr: nat) {
    cur < |ch| && clust == ch[cur] &&
    SECTOR_SIZE * (cur * g.csize) <= fptr < SECTOR_SIZE * (cur * g.csize + g.csize)
  }

  /** Moving on inside the current cluster. */
  lemma MoveOn(g: Layout, ch: seq<nat>, cur: nat, clust: nat, fptr: nat, n: nat)
    requires HoldsNext(g, ch, cur, clust, fptr) && 0 < n
    requires n <= SECTOR_SIZE - fptr % SECTOR_SIZE || fptr + n <= SECTOR_SIZE * (cur * g.csize + g.csize)
    ensures HoldsPrevious(g, ch, cur, clust, fptr + n)
  {
  }

  /** In the middle of a sector both notions of the current cluster agree. */
  lemma MidCluster(g: Layout, ch: seq<nat>, cur: nat, clust: nat, fptr: nat)
    requires HoldsPrevious(g, ch, cur, clust, fptr) && fptr % SECTOR_SIZE != 0
    ensures HoldsNext(g, ch, cur, clust, fptr)
  {
  }

  /** `clust`, the `cur`-th cluster, starts at the pointer. */
  ghost predicate AtCluster(g: Layout, ch: seq<nat>, cur: nat, clust: nat, fptr: int) {
    cur < |ch| && clust == ch[cur] && fptr == SECTOR_SIZE * (cur * g.csize)
  }

  /** Rounding the pointer down to a cluster boundary finds the start of the current cluster. */
  lemma ClusterOfPointer(g: Layout, ch: seq<nat>, cur: nat, clust: nat, fptr: nat)
    requires 0 < fptr && 0 < g.csize && HoldsPrevious(g, ch, cur, clust, fptr)
    ensures var bcs := g.csize * SECTOR_SIZE;
      0 < bcs && AtCluster(g, ch, cur, clust, (fptr - 1) / bcs * bcs) && (fptr - 1) / bcs == cur
  {
    CursorQuotient(g.csize, cur, fptr);
  }

  lemma CursorQuotient(csize: nat, cur: nat, fptr: nat)
    requires 0 < csize && SECTOR_SIZE * (cur * csize) < fptr <= SECTOR_SIZE * (cur * csize + csize)
    ensures var bcs := csize * SECTOR_SIZE;
      0 < bcs && (fptr - 1) / bcs == cur && (fptr - 1) / bcs * bcs == SECTOR_SIZE * (cur * csize)
  {
    var bcs := csize * SECTOR_SIZE;
    Associate(cur, SECTOR_SIZE, csize);
    Associate(cur, csize, SECTOR_SIZE);
    Remainder(fptr - 1, bcs, cur, fptr - 1 - bcs * cur);
  }

  lemma NextAtCluster(g: Layout, ch: seq<nat>, cur: nat, clust: nat, fptr: nat)
    requires AtCluster(g, ch, cur, clust, fptr) && cur + 1 < |ch|
    ensures AtCluster(g, ch, cur + 1, ch[cur + 1], fptr + g.csize * SECTOR_SIZE)
  {
    Distribute(g.csize, cur, 1);
  }

  lemma InsideCluster(g: Layout, ch: seq<nat>, cur: nat, clust: nat, fptr: nat, ofs: nat)
    requires AtCluster(g, ch, cur, clust, fptr) && 0 < ofs <= g.csize * SECTOR_SIZE && GoodChain(g, ch) && 0 < g.csize
    ensures HoldsPrevious(g, ch, cur, clust, fptr + ofs) && fptr + ofs <= SECTOR_SIZE * |Sectors(g, ch)|
    ensures ofs % SECTOR_SIZE != 0 ==> (fptr + ofs) / SECTOR_SIZE < |Sectors(g, ch)|
    ensures ofs % SECTOR_SIZE != 0 ==>
      Sectors(g, ch)[(fptr + ofs) / SECTOR_SIZE] == ClusterStart(g, clust) + ofs / SECTOR_SIZE
    ensures (fptr + ofs) % SECTOR_SIZE == ofs % SECTOR_SIZE
  {
    hide Sectors, ClusterStart, GoodChain;
    SectorIndex(g, ch, cur, 0);
    SectorIndex(g, ch, cur, g.csize - 1);
    SectorOffset(cur * g.csize, ofs);
    if ofs % SECTOR_SIZE != 0 {
      SectorIndex(g, ch, cur, ofs / SECTOR_SIZE);
    }
  }

  lemma SectorOffset(first: int, ofs: nat)
    ensures (SECTOR_SIZE * first + ofs) / SECTOR_SIZE == first + ofs / SECTOR_SIZE
    ensures (SECTOR_SIZE * first + ofs) % SECTOR_SIZE == ofs % SECTOR_SIZE
  {
    Remainder(SECTOR_SIZE * first + ofs, SECTOR_SIZE, first + ofs / SECTOR_SIZE, ofs % SECTOR_SIZE);
  }

  /** The chain of a file that reaches behind the end of a cluster goes on. */
  lemma GoesOn(g: Layout, ch: seq<nat>, cur: nat, clust: nat, fptr: nat, ofs: nat)
    requires AtCluster(g, ch, cur, clust, fptr) && 0 < g.csize && GoodChain(g, ch)
    requires ofs > g.csize * SECTOR_SIZE && fptr + ofs <= SECTOR_SIZE * |Sectors(g, ch)|
    ensures cur + 1 < |ch|
  {
    NotLast(g.csize, cur, |ch|);
  }

  /** The current cluster stays current when the chain grows. */
  lemma StillHolds(g: Layout, ch: seq<nat>, ch': seq<nat>, cur: nat, clust: nat, fptr: nat)
    requires HoldsPrevious(g, ch, cur, clust, fptr) && ch <= ch'
    ensures HoldsPrevious(g, ch', cur, clust, fptr)
  {
  }

  lemma StillAtCluster(g: Layout, ch: seq<nat>, ch': seq<nat>, cur: nat, clust: nat, fptr: nat)
    requires AtCluster(g, ch, cur, clust, fptr) && ch <= ch'
    ensures AtCluster(g, ch', cur, clust, fptr)
  {
  }

  /** A sector carries its stretch of the file's bytes. */
  lemma SectorShows(d: Disk, secs: seq<nat>, fptr: nat, n: nat)
    requires fptr / SECTOR_SIZE < |secs| && fptr % SECTOR_SIZE + n <= SECTOR_SIZE
    requires forall k :: 0 <= k < |secs| ==> secs[k] < |d|
    ensures fptr + n <= |BytesOf(d, secs)|
    ensures BytesOf(d, secs)[fptr..fptr + n] == d[secs[fptr / SECTOR_SIZE]][fptr % SECTOR_SIZE..fptr % SECTOR_SIZE + n]
  {
    var off := fptr % SECTOR_SIZE;
    var a, b := BytesOf(d, secs)[fptr..fptr + n], d[secs[fptr / SECTOR_SIZE]][off..off + n];
    forall i | 0 <= i < n ensures a[i] == b[i] {
      Remainder(fptr + i, SECTOR_SIZE, fptr / SECTOR_SIZE, off + i);
    }
  }

  /** The pointer is at the start of sector `sect`, which is `csect` sectors into its cluster. */
  ghost predicate AtSector(g: Layout, ch: seq<nat>, fptr: nat, csect: nat, sect: nat)
    requires GoodChain(g, ch)
  {
    var q := fptr / SECTOR_SIZE;
    fptr % SECTOR_SIZE == 0 && csect < g.csize && q + (g.csize - csect) <= |Sectors(g, ch)| &&
    Sectors(g, ch)[q..q + (g.csize - csect)] == SectorRun(sect, g.csize - csect)
  }

  /** The sector computed from the current cluster is the file's sector at the pointer. */
  lemma PointerSector(g: Layout, n: nat, ch: seq<nat>, cur: nat, clust: dword, fptr: nat)
    requires FatAreaOk(g, n) && DataAreaOk(g, n) && GoodChain(g, ch)
    requires HoldsNext(g, ch, cur, clust, fptr) && fptr % SECTOR_SIZE == 0
    ensures var csect := fptr / SECTOR_SIZE % g.csize;
      AtSector(g, ch, fptr, csect, Clust2Sect(g, clust) + csect) &&
      Clust2Sect(g, clust) == ClusterStart(g, clust) > 0 &&
      fptr == SECTOR_SIZE * (cur * g.csize + csect)
  {
    hide FatAreaOk, DataAreaOk, Clust2Sect, ClusterStart, Sectors, SectorRun;
    var q := fptr / SECTOR_SIZE;
    Clust2SectStart(g, n, clust);
    MulMono(g.csize, 0, cur);
    SectorInCluster(g.csize, cur, q);
    RunInCluster(g, ch, cur, q);
  }

  /** Which cluster comes next when the pointer is on a sector boundary. */
  lemma NextCluster(g: Layout, ch: seq<nat>, cur: nat, clust: nat, fptr: nat)
    requires 0 < g.csize && fptr % SECTOR_SIZE == 0
    requires fptr > 0 ==> HoldsPrevious(g, ch, cur, clust, fptr)
    ensures fptr / SECTOR_SIZE % g.csize != 0 ==> HoldsNext(g, ch, cur, clust, fptr)
    ensures fptr == 0 && ch != [] ==> HoldsNext(g, ch, 0, ch[0], fptr)
    ensures fptr > 0 && fptr / SECTOR_SIZE % g.csize == 0 ==>
      fptr == SECTOR_SIZE * (cur * g.csize + g.csize) &&
      (cur + 1 < |ch| ==> HoldsNext(g, ch, cur + 1, ch[cur + 1], fptr))
  {
    if fptr > 0 {
      MulMono(g.csize, 0, cur);
      SectorInCluster(g.csize, cur, fptr / SECTOR_SIZE);
      Distribute(g.csize, cur, 1);
    }
  }

  /** The sectors from the pointer to the end of its cluster are file sectors. */
  lemma AtSectorRun(g: Layout, ch: seq<nat>, fptr: nat, csect: nat, sect: nat, n: nat)
    requires GoodChain(g, ch) && AtSector(g, ch, fptr, csect, sect) && 0 < n <= g.csize - csect
    ensures var q := fptr / SECTOR_SIZE;
      fptr == SECTOR_SIZE * q && q + n <= |Sectors(g, ch)| && Sectors(g, ch)[q..q + n] == SectorRun(sect, n)
    ensures Sectors(g, ch)[fptr / SECTOR_SIZE] == sect && Sectors(g, ch)[fptr / SECTOR_SIZE + n - 1] == sect + n - 1
  {
    hide Sectors;
    var q := fptr / SECTOR_SIZE;
    RunPart(Sectors(g, ch), q, g.csize - csect, sect, n);
  }

  lemma AtSectorFacts(g: Layout, ch: seq<nat>, fptr: nat, csect: nat, sect: nat)
    requires GoodChain(g, ch) && AtSector(g, ch, fptr, csect, sect)
    ensures csect < g.csize && fptr % SECTOR_SIZE == 0 && fptr / SECTOR_SIZE < |Sectors(g, ch)|
    ensures Sectors(g, ch)[fptr / SECTOR_SIZE] == sect
  {
    AtSectorRun(g, ch, fptr, csect, sect, 1);
  }

  lemma RunPart(secs: seq<nat>, q: nat, m: nat, sect: nat, n: nat)
    requires 0 < n <= m && q + m <= |secs| && secs[q..q + m] == SectorRun(sect, m)
    ensures secs[q..q + n] == SectorRun(sect, n)
    ensures secs[q] == sect && secs[q + n - 1] == sect + n - 1
  {
    var r := SectorRun(sect, m);
    assert secs[q..q + n] == r[..n];
    assert secs[q] == r[0] && secs[q + n - 1] == r[n - 1];
  }

  lemma RunMember(secs: seq<nat>, q: nat, sect: nat, n: nat, x: nat)
    requires q + n <= |secs| && secs[q..q + n] == SectorRun(sect, n)
    ensures sect <= x < sect + n ==> x in secs
  {
    if sect <= x < sect + n {
      assert secs[q..q + n][x - sect] == x;
    }
  }

  /** What a direct transfer leaves in the caller's buffer: file bytes, the dirty sector included. */
  lemma OverlaidRead(b: seq<byte>, at: nat, d: Disk, t: nat, w: Sector, secs: seq<nat>, q: nat, n: nat)
    requires 0 < n && q + n <= |secs| && secs[q..q + n] == SectorRun(secs[q], n)
    requires at + SECTOR_SIZE * n <= |b| && t < |d| && forall k :: 0 <= k < |secs| ==> secs[k] < |d|
    ensures forall k :: 0 <= k < n ==> SectorRun(secs[q], n)[k] < |d|
    ensures var s := secs[q];
      var b' := Splice(b, at, BytesOf(d, SectorRun(s, n)));
      Splice(b, at, BytesOf(d[t := w], secs)[SECTOR_SIZE * q..SECTOR_SIZE * (q + n)]) ==
        if s <= t < s + n then Splice(b', at + (t - s) * SECTOR_SIZE, w) else b'
  {
    hide BytesOf, Splice;
    var s := secs[q];
    BytesOfRun(d, secs, q, n);
    BytesOfRun(d[t := w], secs, q, n);
    assert SectorRun(s, n)[n - 1] == s + n - 1;
    OverlayRun(d, t, w, s, n);
    if s <= t < s + n {
      SpliceInside(b, at, BytesOf(d, SectorRun(s, n)), (t - s) * SECTOR_SIZE, w);
    }
  }

  // ---------------------------------------------------------------- the chain of a file

  /** `ch` is the chain of a file that starts in cluster `start` (0 for an empty file), on a drive of `n` sectors. */
  ghost predicate FileChain(g: Layout, fat: Table, n: nat, start: nat, ch: seq<nat>) {
    && GoodChain(g, ch)
    && (if ch == [] then start == 0 else start == ch[0] && IsChain(fat, ch))
    && NoDup(Sectors(g, ch))
    && forall k :: 0 <= k < |Sectors(g, ch)| ==> g.database <= Sectors(g, ch)[k] < n
  }

  /** Every complete chain of the FAT is the chain of a file: its sectors are distinct data sectors of the volume. */
  lemma EveryChainIsAFile(g: Layout, fat: Table, n: nat, ch: seq<nat>)
    requires FatAreaOk(g, n) && DataAreaOk(g, n) && |fat| == g.nFatent && IsChain(fat, ch)
    ensures FileChain(g, fat, n, ch[0], ch)
  {
    SectorsDistinct(g, ch);
    hide FatAreaOk, DataAreaOk, IsChain;
    forall k | 0 <= k < |Sectors(g, ch)| ensures g.database <= Sectors(g, ch)[k] < n {
      var j := SectorOwner(g, ch, k);
      ClusterInsideVolume(g, n, ch[j], Sectors(g, ch)[k]);
    }
  }

  /** The cluster create_chain links a new cluster to when the file has chain `ch`. */
  function TailOf(ch: seq<nat>): nat {
    if ch == [] then 0 else ch[|ch| - 1]
  }

  /** A stretched file keeps its sectors in front and stays a file. */
  lemma StretchedFile(g: Layout, fat: Table, n: nat, start: nat, ch: seq<nat>, r: nat)
    requires FatAreaOk(g, n) && DataAreaOk(g, n) && |fat| == g.nFatent && FileChain(g, fat, n, start, ch)
    requires 2 <= r < g.nFatent && fat[r] == 0
    ensures TailOf(ch) < g.nFatent
    ensures FileChain(g, Linked(fat, TailOf(ch), r, EndMark(g.fsType)), n, if ch == [] then r else start, ch + [r])
    ensures Sectors(g, ch + [r]) == Sectors(g, ch) + ClusterSectors(g, r)
  {
    var fat' := Linked(fat, TailOf(ch), r, EndMark(g.fsType));
    if ch == [] {
      assert IsChain(fat', [r]) && ch + [r] == [r];
    } else {
      LinkedStretches(fat, ch, r, EndMark(g.fsType));
    }
    EveryChainIsAFile(g, fat', n, ch + [r]);
    SectorsExtend(g, ch, r);
  }

  /** A change of FAT sectors does not show in the data sectors, with or without a sector overlaid. */
  lemma FatChangeInvisible(g: Layout, d: Disk, d': Disk, secs: seq<nat>)
    requires SameOutsideFat(g, d, d') && FatEnd(g) <= g.database
    requires forall k :: 0 <= k < |secs| ==> g.database <= secs[k] < |d|
    ensures forall k :: 0 <= k < |secs| ==> secs[k] < |d'| && d'[secs[k]] == d[secs[k]]
  {
  }

  /** A stretched file keeps its bytes. */
  lemma StretchedBytes(d: Disk, d': Disk, secs: seq<nat>, more: seq<nat>)
    requires forall k :: 0 <= k < |secs| ==> secs[k] < |d| && secs[k] < |d'| && d'[secs[k]] == d[secs[k]]
    requires forall k :: 0 <= k < |secs + more| ==> (secs + more)[k] < |d'|
    ensures BytesOf(d', secs + more)[..SECTOR_SIZE * |secs|] == BytesOf(d, secs)
  {
    BytesSame(d, d', secs);
    BytesPrefix(d', secs, more);
  }

  /** Sectors `q` to `q + n` of a list are the run of `n` sectors from `s` on. */
  ghost predicate RunAt(secs: seq<nat>, q: nat, s: nat, n: nat) {
    0 < n && q + n <= |secs| && secs[q..q + n] == SectorRun(s, n) && secs[q] == s
  }

  /** A run of sectors written to the drive: the bytes of the file, and all other sectors. */
  lemma RunWritten(d: Disk, secs: seq<nat>, q: nat, s: nat, piece: seq<byte>, n: nat)
    requires NoDup(secs) && RunAt(secs, q, s, n) && s + n <= |d| && |piece| == SECTOR_SIZE * n
    requires forall k :: 0 <= k < |secs| ==> secs[k] < |d|
    ensures BytesOf(PutRun(d, s, piece, n), secs) == Splice(BytesOf(d, secs), SECTOR_SIZE * q, piece)
    ensures forall t :: 0 <= t < |d| && t !in secs ==> PutRun(d, s, piece, n)[t] == d[t]
  {
    hide BytesOf, Splice, PutRun, NoDup, SectorRun;
    PutRunBytes(d, secs, q, s, piece, n);
    assert piece[..SECTOR_SIZE * n] == piece;
    forall t | 0 <= t < |d| && t !in secs ensures PutRun(d, s, piece, n)[t] == d[t] {
      PutRunAt(d, s, piece, n, t);
      RunMember(secs, q, s, n, t);
    }
  }

  /** A run of sectors read into a buffer, with the file's own sector `t`, if it is to be laid over the drive. */
  lemma RunRead(b: seq<byte>, at: nat, d: Disk, over: bool, t: nat, w: Sector, secs: seq<nat>, q: nat, s: nat, n: nat)
    requires RunAt(secs, q, s, n) && at + SECTOR_SIZE * n <= |b| && t < |d| && forall k :: 0 <= k < |secs| ==>
      secs[k] < |d|
    ensures forall k :: 0 <= k < n ==> SectorRun(s, n)[k] < |d|
    ensures var b' := Splice(b, at, BytesOf(d, SectorRun(s, n)));
      Splice(b, at, BytesOf(if over then d[t := w] else d, secs)[SECTOR_SIZE * q..SECTOR_SIZE * (q + n)]) ==
        if over && s <= t < s + n then Splice(b', at + (t - s) * SECTOR_SIZE, w) else b'
  {
    hide BytesOf, Splice;
    if over {
      OverlaidRead(b, at, d, t, w, secs, q, n);
    } else {
      BytesOfRun(d, secs, q, n);
    }
  }

  // ---------------------------------------------------------------- what a write may change

  /** The volume as a file sees it: table, its chain and sectors, the drive with its buffer overlaid, the free count,
      and the sector in the window. */
  datatype Snapshot = Snapshot(fat: Table, ch: seq<nat>, secs: seq<nat>, view: Disk, count: dword, flag: bool, win: nat)

  /** The window ends up in the first FAT, where it was, or on a sector of the chain. */
  ghost predicate WindowNear(g: Layout, a: Snapshot, b: Snapshot) {
    InFat1(g, b.win) || b.win == a.win || b.win in b.secs
  }

  /** Nothing but the window has moved. */
  ghost predicate Looks(g: Layout, a: Snapshot, b: Snapshot) {
    b == a.(win := b.win) && WindowNear(g, a, b)
  }

  /** The file's chain grew over free clusters; other chains, sectors of other files and the exactness of the free
      count are kept, and the window is not left on a sector of another file. */
  ghost predicate Evolves(g: Layout, a: Snapshot, b: Snapshot) {
    && Grew(a.fat, a.ch, b.fat, b.ch)
    && a.secs <= b.secs
    && |b.view| == |a.view|
    && (forall s :: 0 <= s < |a.view| && !InAnyFat(g, s) && s !in b.secs ==> b.view[s] == a.view[s])
    && (CountOk(a.fat, a.count) ==> CountOk(b.fat, b.count))
    && Noted(a.count, a.flag, b.count, b.flag)
    && WindowNear(g, a, b)
  }

  lemma EvolvesTwice(g: Layout, a: Snapshot, b: Snapshot, c: Snapshot)
    requires Evolves(g, a, b) && Evolves(g, b, c) && GoodChain(g, c.ch)
    ensures Evolves(g, a, c)
  {
    hide CountOk, InFat1;
    GrewTwice(a.fat, a.ch, b.fat, b.ch, c.fat, c.ch);
    hide Grew;
    forall s | 0 <= s < |a.view| && !InAnyFat(g, s) && s !in c.secs ensures c.view[s] == a.view[s] {
      assert s !in b.secs;
    }
    if b.win in b.secs {
      assert c.secs[..|b.secs|] == b.secs;
    }
  }

  lemma LooksTwice(g: Layout, a: Snapshot, b: Snapshot, c: Snapshot)
    requires Looks(g, a, b) && Looks(g, b, c)
    ensures Looks(g, a, c)
  {
    hide InFat1;
  }

  lemma LooksEvolves(g: Layout, a: Snapshot, b: Snapshot)
    requires Looks(g, a, b)
    ensures Evolves(g, a, b)
  {
    hide InFat1;
    EvolvesNot(g, a);
  }

  lemma EvolvesNot(g: Layout, a: Snapshot)
    ensures Evolves(g, a, a) && Looks(g, a, a)
  {
  }
}
