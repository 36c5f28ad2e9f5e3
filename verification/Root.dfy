/** The root directory of a freshly formatted volume: where every directory starts from. */
module FormattedRoots {
  import opened Bytes
  import opened Geometry
  import opened Chains
  import opened Volumes
  import opened FileData
  import opened Formatting
  import opened Directories
  import D = DirTables

  /** A table of empty entries is well formed. */
  lemma EmptyIsWellFormed(t: D.Table)
    requires forall k :: 0 <= k < |t| ==> t[k] == D.ZeroEntry()
    ensures D.WellFormed(t)
  {
    forall k | 0 <= k < |t| ensures t[k][0] == 0 {
      assert t[k] == D.ZeroEntry();
    }
  }

  /** The root directory of a formatted volume starts right behind the FAT. */
  lemma RootSectorsAre(g: Layout, view: Disk, ch: seq<nat>)
    requires EmptyRoot(g, view) && GoodChain(g, ch) && ch == if g.fsType == Fat32 then [2] else []
    ensures var secs := TableSectors(g, ch);
      forall k :: 0 <= k < |secs| ==> secs[k] == FatEnd(g) + k < |view| && view[secs[k]] == Zeros()
  {
    hide FatEnd, Zeros;
    var secs := TableSectors(g, ch);
    if ch != [] {
      assert ch[..0] == [];
      assert secs == ClusterSectors(g, 2);
      assert ClusterStart(g, 2) == g.database;
      hide ClusterStart;
    }
    assert forall k :: 0 <= k < |secs| ==> secs[k] == FatEnd(g) + k;
  }

  /** It holds nothing but empty entries. */
  lemma RootTableEmpty(g: Layout, view: Disk, ch: seq<nat>)
    requires EmptyRoot(g, view) && GoodChain(g, ch) && ch == if g.fsType == Fat32 then [2] else []
    ensures forall k :: 0 <= k < |TableSectors(g, ch)| ==> TableSectors(g, ch)[k] < |view|
    ensures forall k :: 0 <= k < |TableOf(view, TableSectors(g, ch))| ==>
      TableOf(view, TableSectors(g, ch))[k] == D.ZeroEntry()
  {
    hide FatEnd, Zeros, TableSectors, EmptyRoot, GoodChain, EntryOf, D.ZeroEntry;
    RootSectorsAre(g, view, ch);
    var secs := TableSectors(g, ch);
    var t := TableOf(view, secs);
    forall k | 0 <= k < |t| ensures t[k] == D.ZeroEntry() {
      ZeroEntries(k % PER_SECTOR);
      assert view[secs[k / PER_SECTOR]] == Zeros();
    }
  }

  lemma ZeroEntries(i: nat)
    requires i < PER_SECTOR
    ensures EntryOf(Zeros(), i) == D.ZeroEntry()
  {
  }

  /** The root directory has its place in the volume. */
  lemma RootHasPlace(g: Layout, fat: Table, n: nat)
    requires FatAreaOk(g, n) && DataAreaOk(g, n) && |fat| == g.nFatent && Forest(fat, RootChains(g.fsType))
    requires g.fsType != Fat32 ==> RootAreaOk(g)
    ensures g.fsType == Fat32 ==> FileChain(g, fat, n, 2, [2])
  {
    if g.fsType == Fat32 {
      assert [2] in RootChains(g.fsType);
      EveryChainIsAFile(g, fat, n, [2]);
    }
  }

  /** follow_path, start: a directory object for the root directory of a freshly formatted volume is valid, and the
      directory is empty and well formed. */
  method OpenRoot(v: Volume) returns (root: Dir)
    requires v.Valid() && Forest(v.Fat(), RootChains(v.geo.fsType)) && EmptyRoot(v.geo, v.Logical())
    ensures fresh(root) && root.vol == v && root.Valid() && D.WellFormed(root.Table()) && 0 < |root.Table()|
    ensures forall k :: 0 <= k < |root.Table()| ==> root.Table()[k] == D.ZeroEntry()
    ensures if v.geo.fsType == Fat32 then root.chain != [] else |root.Table()| == N_ROOTDIR
  {
    hide Forest, TableOf, Sectors, NoDup, Volume.Fat, Volume.Logical, D.WellFormed, RootChains;
    ghost var ch := if v.geo.fsType == Fat32 then [2] else [];
    v.Facts();
    RootHasPlace(v.geo, v.Fat(), |v.disk|);
    RootTableEmpty(v.geo, v.Logical(), ch);
    root := new Dir(v, 0, ch);
    root.SomeEntries();
    EmptyIsWellFormed(root.Table());
  }
}
