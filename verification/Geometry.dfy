/** Where the parts of a mounted FAT volume lie on the drive. */
module Geometry {
  import opened Bytes

  datatype FatType = Fat12 | Fat16 | Fat32

  /** The layout fields of the file system object, fixed while the volume stays mounted. */
  datatype Layout = Layout(
    fsType: FatType,
    csize: nat,      // sectors per cluster
    nFats: nat,      // number of FAT copies
    nRootdir: nat,   // root directory entries (FAT12/16)
    nFatent: nat,    // number of clusters + 2
    fsize: nat,      // sectors per FAT
    fatbase: nat,    // first sector of the first FAT
    dirbase: nat,    // root directory: first sector, or first cluster on FAT32
    database: nat)   // first sector of cluster 2

  /** Value of the end-of-chain mark 0x0FFFFFFF once cut to the width of an entry. */
  function EndMark(t: FatType): nat {
    match t
    case Fat12 => 0xFFF
    case Fat16 => 0xFFFF
    case Fat32 => 0x0FFF_FFFF
  }

  /** Bytes of FAT that `n` entries need. */
  function FatSpan(t: FatType, n: nat): nat {
    match t
    case Fat12 => n * 3 / 2 + n % 2
    case Fat16 => n * 2
    case Fat32 => n * 4
  }

  /** First sector after the last FAT copy. */
  function FatEnd(g: Layout): nat {
    if g.nFats == 2 then g.fatbase + 2 * g.fsize else g.fatbase + g.fsize
  }

  /** The FAT copies lie on a drive of `n` sectors in front of the data area, hold every entry, and no
      cluster number reads as an end mark. */
  ghost predicate FatAreaOk(g: Layout, n: nat) {
    && g.nFats in {1, 2}
    && 1 <= g.fatbase && 1 <= g.fsize
    && FatEnd(g) <= g.database <= n <= 0x1_0000_0000
    && 3 <= g.nFatent <= EndMark(g.fsType)
    && FatSpan(g.fsType, g.nFatent) <= SECTOR_SIZE * g.fsize
  }

  /** The clusters lie on a drive of `n` sectors. */
  ghost predicate DataAreaOk(g: Layout, n: nat) {
    && 2 <= g.nFatent
    && g.csize in {1, 2, 4, 8, 16, 32, 64, 128}
    && g.database + (g.nFatent - 2) * g.csize <= n
  }

  ghost predicate InFat1(g: Layout, s: int) {
    g.fatbase <= s < g.fatbase + g.fsize
  }

  ghost predicate InAnyFat(g: Layout, s: int) {
    g.fatbase <= s < FatEnd(g)
  }

  /** First sector of a cluster; 0 when the cluster number is invalid. The subtraction wraps at 32 bits. */
  function Clust2Sect(g: Layout, clst: dword): nat
    requires 2 <= g.nFatent <= 0x1_0000_0000
  {
    var c := (clst - 2) % 0x1_0000_0000;
    if c >= g.nFatent - 2 then 0 else c * g.csize + g.database
  }

  /** `s` is one of the sectors of cluster `c`. */
  ghost predicate InCluster(g: Layout, c: int, s: int) {
    2 <= c < g.nFatent && g.database + (c - 2) * g.csize <= s < g.database + (c - 2) * g.csize + g.csize
  }

  lemma ClusterInsideVolume(g: Layout, n: nat, c: int, s: int)
    requires FatAreaOk(g, n) && DataAreaOk(g, n) && InCluster(g, c, s)
    ensures FatEnd(g) <= g.database <= s < n
  {
    LastCluster(g.csize, c - 2, g.nFatent - 2);
  }

  /** Clusters of `size` sectors one after the other: the `k`-th of `n` ends in front of the end. */
  lemma LastCluster(size: nat, k: nat, n: nat)
    requires k < n
    ensures 0 <= k * size && k * size + size <= n * size
  {
    MulMono(size, k + 1, n);
    Distribute(size, k, 1);
  }

  lemma ClustersDisjoint(g: Layout, c: int, d: int, s: int)
    requires 0 < g.csize && InCluster(g, c, s) && InCluster(g, d, s)
    ensures c == d
  {
    if c < d {
      MulMono(g.csize, c - 1, d - 2);
      Distribute(g.csize, c - 2, 1);
    } else if d < c {
      MulMono(g.csize, d - 1, c - 2);
      Distribute(g.csize, d - 2, 1);
    }
  }
}
