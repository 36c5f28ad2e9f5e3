/** Fast seek: a table of the fragments of a file's chain, built once and consulted instead of the FAT. */
module LinkMaps {
  import opened Bytes
  import opened Geometry
  import opened Chains
  import opened Volumes
  import opened FileData
  import opened Files
  import M = Mounts

  /** A stretch of consecutive clusters. */
  datatype Fragment = Fragment(len: nat, top: nat)

  ghost function Clusters(fr: Fragment): (ch: seq<nat>)
    ensures |ch| == fr.len
    ensures forall i :: 0 <= i < fr.len ==> ch[i] == fr.top + i
  {
    seq(fr.len, (i: nat) => (var c: nat := fr.top + i; c))
  }

  /** The chain that a list of fragments stands for. */
  ghost function Expand(frags: seq<Fragment>): seq<nat> {
    if frags == [] then []
    else Expand(frags[..|frags| - 1]) + Clusters(frags[|frags| - 1])
  }

  /** The number of stretches of consecutive clusters a chain falls into: one more than its jumps. */
  function FragmentCount(ch: seq<nat>): (n: nat)
    ensures n <= |ch| && (n == 0 <==> ch == [])
  {
    var n := |ch|;
    if n <= 1 then n
    else FragmentCount(ch[..n - 1]) + if ch[n - 1] == ch[n - 2] + 1 then 0 else 1
  }

  /** The table: its length, a pair for every fragment, and a zero. */
  ghost predicate Encoded(t: seq<dword>, frags: seq<Fragment>) {
    && 2 * |frags| + 2 <= |t|
    && t[0] == 2 * |frags| + 2
    && Pairs(t, frags)
    && t[2 * |frags| + 1] == 0
  }

  ghost predicate Pairs(t: seq<dword>, frags: seq<Fragment>) {
    && 2 * |frags| + 1 <= |t|
    && forall k :: 0 <= k < |frags| ==> 0 < frags[k].len && t[2 * k + 1] == frags[k].len && t[2 * k + 2] == frags[k].top
  }

  /** The table stands for the chain `ch`. */
  ghost predicate Maps(t: seq<dword>, ch: seq<nat>) {
    exists frags :: Encoded(t, frags) && Expand(frags) == ch
  }

  // ---------------------------------------------------------------- looking up

  lemma ExpandNext(frags: seq<Fragment>, k: nat)
    requires k < |frags|
    ensures Expand(frags[..k + 1]) == Expand(frags[..k]) + Clusters(frags[k])
  {
    assert frags[..k + 1][..k] == frags[..k];
  }

  lemma {:induction false} ExpandPrefix(frags: seq<Fragment>, k: nat)
    requires k <= |frags|
    ensures Expand(frags[..k]) <= Expand(frags)
  {
    if k == |frags| {
      assert frags[..k] == frags;
    } else {
      ExpandPrefix(frags[..|frags| - 1], k);
      assert frags[..|frags| - 1][..k] == frags[..k];
    }
  }

  /** clmt_clust: the cluster of the file that holds byte `ofs`, 0 behind the end of the chain. */
  method ClmtClust(g: Layout, tbl: array<dword>, ofs: dword, ghost ch: seq<nat>) returns (r: nat)
    requires 0 < g.csize && Maps(tbl[..], ch)
    ensures ofs / SECTOR_SIZE / g.csize < |ch| ==> r == ch[ofs / SECTOR_SIZE / g.csize]
    ensures ofs / SECTOR_SIZE / g.csize >= |ch| ==> r == 0
  {
    hide Expand;
    ghost var frags: seq<Fragment> :| Encoded(tbl[..], frags) && Expand(frags) == ch;
    var cl := ofs / SECTOR_SIZE / g.csize;
    ghost var order, k := cl, 0;
    var at, ncl := 1, 0;
    NothingExpands(frags);
    while true
      invariant k <= |frags| && at == 2 * k + 1 && 0 <= cl && order == |Expand(frags[..k])| + cl
      decreases |frags| - k
    {
      ncl := tbl[at];
      at := at + 1;
      if k == |frags| {
        assert tbl[..][2 * k + 1] == 0 && frags[..k] == frags;
      } else {
        assert tbl[..][2 * k + 1] == frags[k].len && tbl[..][2 * k + 2] == frags[k].top;
        ExpandNext(frags, k);
        ExpandPrefix(frags, k + 1);
      }
      if ncl == 0 {
        return 0;
      }
      if cl < ncl {
        break;
      }
      cl := cl - ncl;
      at := at + 1;
      k := k + 1;
    }
    r := cl + tbl[at];
    assert Expand(frags[..k + 1])[order] == Clusters(frags[k])[cl];
  }

  lemma NothingExpands(frags: seq<Fragment>)
    ensures Expand(frags[..0]) == []
  {
  }

  /** The cluster that `k` links lead to from `c`. */
  function Walk(fat: Table, c: nat, k: nat): nat {
    if k == 0 then c
    else
      var p := Walk(fat, c, k - 1);
      if p < |fat| then fat[p] else p
  }

  /** Walking the FAT from the start cluster reaches the chain, cluster by cluster. */
  lemma {:induction false} WalkFindsChain(fat: Table, ch: seq<nat>, k: nat)
    requires IsChain(fat, ch) && k < |ch|
    ensures Walk(fat, ch[0], k) == ch[k]
  {
    if k > 0 {
      WalkFindsChain(fat, ch, k - 1);
      ChainLink(fat, ch, k - 1);
    }
  }

  /** f_read and f_write on a cluster boundary: the table gives the cluster that the FAT links to the current one. */
  method NextByMap(f: File, tbl: array<dword>) returns (clst: nat)
    requires f.Valid() && f.vol.Valid() && Maps(tbl[..], f.chain) && 0 < f.fptr && 0 < f.vol.geo.csize
    requires f.fptr % SECTOR_SIZE == 0 && f.fptr / SECTOR_SIZE % f.vol.geo.csize == 0
    ensures f.cur < |f.chain| && f.clust == f.chain[f.cur] < |f.vol.Fat()|
    ensures f.cur + 1 < |f.chain| ==> clst == f.vol.Fat()[f.clust]
    ensures f.cur + 1 >= |f.chain| ==> clst == 0
  {
    hide Expand, Sectors, NoDup, FatAreaOk, DataAreaOk, Volume.Fat, Volume.Logical, IsChain;
    ghost var g, ch := f.vol.geo, f.chain;
    NextCluster(g, ch, f.cur, f.clust, f.fptr);
    Distribute(g.csize, f.cur, 1);
    Remainder(f.fptr / SECTOR_SIZE, g.csize, f.cur + 1, 0);
    ChainLink(f.vol.Fat(), ch, f.cur);
    clst := ClmtClust(f.vol.geo, tbl, f.fptr, f.chain);
  }

  // ---------------------------------------------------------------- building

  /** The last link of the chain reads as the number of the cluster behind it: possible only at the end of the
      volume. */
  ghost predicate RunsOff(fat: Table, ch: seq<nat>) {
    ch != [] && ch[|ch| - 1] < |fat| && fat[ch[|ch| - 1]] == ch[|ch| - 1] + 1 == |fat|
  }

  /** On such a volume CREATE_LINKMAP fails although the chain is complete. */
  lemma RunsOffExample()
    ensures var fat := [0xFF8, 0xFFF, 3]; IsChain(fat, [2]) && RunsOff(fat, [2])
  {
  }

  /** The format defines the end marks from FF8, FFF8 and 0FFFFFF8 on; the code takes smaller numbers behind the volume
      for end marks, too. With a mark of the format the chain cannot run off on FAT12 and FAT16, whose cluster numbers
      stay below it; on FAT32 only if they reach it. */
  lemma MarksDoNotRunOff(nclst: nat, fat: Table, ch: seq<nat>)
    requires |fat| == nclst + 2 && ch != [] && ch[|ch| - 1] < |fat|
    requires fat[ch[|ch| - 1]] >= match M.SubType(nclst) case Fat12 => 0xFF8 case Fat16 => 0xFFF8 case Fat32 => 0x0FFF_FFF8
    ensures RunsOff(fat, ch) ==> M.SubType(nclst) == Fat32 && |fat| >= 0x0FFF_FFF8
  {
  }

  /** The file and its volume are as the snapshot says, with the bytes `all`. */
  ghost predicate Kept(f: File, s: Snapshot, all: seq<byte>)
    reads f`chain, f`sclust, f`dirty, f`dsect, f`fptr, f`fsize, f`clust, f`cur, f.buf
    reads f.vol`disk, f.vol`wflag, f.vol`winsect, f.vol`freeClust, f.vol`fsiFlag, f.vol.win
  {
    f.Valid() && f.vol.Valid() && Looks(f.vol.geo, s, f.Snap()) && f.AllBytes() == all
  }

  /** get_fat on behalf of the file. */
  method FollowLink(f: File, cl: dword, ghost s: Snapshot, ghost all: seq<byte>) returns (r: dword)
    requires Kept(f, s, all)
    modifies f.vol`disk, f.vol`wflag, f.vol`winsect, f.vol.win
    ensures Kept(f, s, all)
    ensures r == if 2 <= cl < |s.fat| then s.fat[cl] else 1
  {
    hide Sectors, IsChain, GoodChain, NoDup, Volume.Fat, Volume.Logical, FatAreaOk, DataAreaOk, HoldsPrevious, BytesOf;
    f.CoreFacts();
    f.vol.Facts();
    r := f.vol.GetFat(cl);
  }

  /** CREATE_LINKMAP, inner loop: the longest run of consecutive clusters from the `i`-th cluster of the chain on. */
  method Measure(f: File, tcl: dword, ghost i: nat, ghost s: Snapshot, ghost all: seq<byte>)
    returns (ncl: nat, cl: dword)
    requires Kept(f, s, all) && IsChain(s.fat, s.ch) && |s.fat| < 0x1000_0000 && i < |s.ch| && tcl == s.ch[i]
    modifies f.vol`disk, f.vol`wflag, f.vol`winsect, f.vol.win
    ensures Kept(f, s, all)
    ensures cl <= 1 ==> cl == 1 && RunsOff(s.fat, s.ch)
    ensures cl > 1 ==> 0 < ncl <= |s.ch| - i && s.ch[i..i + ncl] == Clusters(Fragment(ncl, tcl))
    ensures cl > 1 ==> s.ch[i + ncl - 1] < |s.fat| && cl == s.fat[s.ch[i + ncl - 1]] != s.ch[i + ncl - 1] + 1
    ensures cl > 1 ==> ncl < 0x1_0000_0000
  {
    hide Kept, IsChain;
    ghost var ch, fat := s.ch, s.fat;
    ncl := 0;
    cl := tcl;
    while true
      invariant Kept(f, s, all)
      invariant i + ncl <= |ch| && cl == tcl + ncl
      invariant forall k :: i <= k < i + ncl ==> ch[k] == tcl + (k - i)
      invariant if i + ncl < |ch| then cl == ch[i + ncl] else cl == |fat| && RunsOff(fat, ch)
      decreases |ch| - i - ncl
    {
      var pcl := cl;
      if i + ncl < |ch| {
        LinkAt(fat, ch, i + ncl);
        if i + ncl + 1 < |ch| {
          LinkAt(fat, ch, i + ncl + 1);
        }
      }
      ncl := ncl + 1;
      cl := FollowLink(f, cl, s, all);
      if cl <= 1 {
        return;
      }
      if cl != pcl + 1 {
        break;
      }
    }
  }

  /** What a valid file says of its chain. */
  lemma KeptNow(f: File)
    requires f.Valid()
    ensures f.Core() && f.vol.Valid() && Kept(f, f.Snap(), f.AllBytes())
  {
    hide File.Core, File.BufferClean, File.Positioned, File.MidSector, File.AllBytes, File.Snap;
    f.CoreFacts();
    EvolvesNot(f.vol.geo, f.Snap());
  }

  lemma KeptMeans(f: File, s: Snapshot, all: seq<byte>)
    requires Kept(f, s, all)
    ensures f.Valid() && f.vol.Valid() && Looks(f.vol.geo, s, f.Snap()) && f.fsize <= |all|
    ensures f.Content() == all[..f.fsize]
  {
    hide File.Core, File.BufferClean, File.Positioned, File.MidSector, File.AllBytes, File.Snap, Looks;
  }

  lemma TheChain(f: File, s: Snapshot, all: seq<byte>)
    requires Kept(f, s, all)
    ensures f.vol.Valid() && s.fat == f.vol.Fat() && s.ch == f.chain && |s.fat| == f.vol.geo.nFatent < 0x1000_0000
    ensures s.ch == [] ==> !RunsOff(s.fat, s.ch)
    ensures if s.ch == [] then f.sclust == 0 else IsChain(s.fat, s.ch) && f.sclust == s.ch[0] >= 2
  {
  }

  /** The fragments cover the first `i` clusters of the chain, and there are as many as the clusters fall into. */
  ghost predicate Covers(frags: seq<Fragment>, ch: seq<nat>, i: nat) {
    i <= |ch| && Expand(frags) == ch[..i] && FragmentCount(ch[..i]) == |frags|
  }

  /** One more fragment found: the chain up to it is covered, and it starts a new one. */
  lemma AnotherFragment(ch: seq<nat>, frags: seq<Fragment>, i: nat, fr: Fragment)
    requires i + fr.len <= |ch| && 0 < fr.len && Covers(frags, ch, i)
    requires ch[i..i + fr.len] == Clusters(fr) && (i > 0 ==> ch[i] != ch[i - 1] + 1)
    ensures Covers(frags + [fr], ch, i + fr.len)
  {
    hide FragmentCount, Clusters;
    assert (frags + [fr])[..|frags|] == frags;
    assert ch[..i + fr.len] == ch[..i] + ch[i..i + fr.len];
    RunCounts(ch, i, fr, fr.len);
  }

  lemma OneMore(ch: seq<nat>, n: nat)
    requires 0 < n <= |ch|
    ensures FragmentCount(ch[..n]) == FragmentCount(ch[..n - 1]) + if n > 1 && ch[n - 1] == ch[n - 2] + 1 then 0 else 1
  {
    assert ch[..n][..n - 1] == ch[..n - 1];
  }

  lemma {:induction false} RunCounts(ch: seq<nat>, i: nat, fr: Fragment, n: nat)
    requires i + fr.len <= |ch| && 0 < n <= fr.len && ch[i..i + fr.len] == Clusters(fr)
    requires (i > 0 ==> ch[i] != ch[i - 1] + 1)
    ensures FragmentCount(ch[..i + n]) == FragmentCount(ch[..i]) + 1
  {
    hide FragmentCount;
    OneMore(ch, i + n);
    if n > 1 {
      assert ch[i..i + fr.len][n - 1] == ch[i + n - 1] && ch[i..i + fr.len][n - 2] == ch[i + n - 2];
      RunCounts(ch, i, fr, n - 1);
    }
  }

  /** Distinct clusters below `n` are fewer than `n`. */
  lemma {:induction false} FewClusters(ch: seq<nat>, n: nat)
    requires (forall i :: 0 <= i < |ch| ==> ch[i] < n) && (forall i, j :: 0 <= i < j < |ch| ==> ch[i] != ch[j])
    ensures |ch| <= n
    decreases n
  {
    if ch != [] {
      assert ch[0] < n;
      if n - 1 in ch {
        var k :| 0 <= k < |ch| && ch[k] == n - 1;
        FewClusters(ch[..k] + ch[k + 1..], n - 1);
      } else {
        FewClusters(ch, n - 1);
      }
    }
  }

  lemma FewFragments(fat: Table, ch: seq<nat>)
    requires ch != [] ==> IsChain(fat, ch)
    ensures FragmentCount(ch) <= |fat| && ch[..|ch|] == ch
  {
    if ch != [] {
      FewClusters(ch, |fat|);
    }
  }

  lemma VolumeValid(f: File)
    requires f.Valid()
    ensures f.vol.Valid()
  {
  }

  lemma NothingYet(ch: seq<nat>, t: seq<dword>)
    requires t != []
    ensures Covers([], ch, 0) && Pairs(t, [])
  {
  }

  lemma LinkAt(fat: Table, ch: seq<nat>, i: nat)
    requires IsChain(fat, ch) && i < |ch|
    ensures 2 <= ch[i] < |fat|
    ensures fat[ch[i]] >= |fat| <==> i + 1 == |ch|
    ensures i + 1 < |ch| ==> fat[ch[i]] == ch[i + 1]
  {
    ChainLink(fat, ch, i);
    if i + 1 < |ch| {
      ChainLink(fat, ch, i + 1);
    }
  }

  lemma MorePairs(t: seq<dword>, t': seq<dword>, frags: seq<Fragment>, fr: Fragment)
    requires Pairs(t, frags) && |t'| == |t| && 2 * |frags| + 3 <= |t| && 0 < fr.len
    requires forall k :: 0 <= k < |t| ==>
      t'[k] == if k == 2 * |frags| + 1 then fr.len else if k == 2 * |frags| + 2 then fr.top else t[k]
    ensures Pairs(t', frags + [fr])
  {
  }

  lemma Finished(t: seq<dword>, t': seq<dword>, frags: seq<Fragment>, ch: seq<nat>)
    requires Pairs(t, frags) && Covers(frags, ch, |ch|) && 2 * |frags| + 2 <= |t| == |t'|
    requires t'[0] == 2 * |frags| + 2 && t'[2 * |frags| + 1] == 0 && forall k :: 1 <= k <= 2 * |frags| ==> t'[k] == t[k]
    ensures Maps(t', ch)
  {
    assert Encoded(t', frags) && ch[..|ch|] == ch;
  }

  lemma AllCovered(frags: seq<Fragment>, ch: seq<nat>)
    requires Covers(frags, ch, |ch|)
    ensures |frags| == FragmentCount(ch)
  {
    assert ch[..|ch|] == ch;
  }

  /** CREATE_LINKMAP: stores the length and the top of a fragment. */
  method PutFragment(tbl: array<dword>, at: nat, ncl: dword, tcl: dword, ghost frags: seq<Fragment>) returns (next: nat)
    requires Pairs(tbl[..], frags) && at == 2 * |frags| + 1 && at + 2 <= tbl.Length && 0 < ncl
    modifies tbl
    ensures next == at + 2 && Pairs(tbl[..], frags + [Fragment(ncl, tcl)])
    ensures forall i :: 0 <= i < tbl.Length && !(at <= i < next) ==> tbl[i] == old(tbl[i])
  {
    tbl[at] := ncl;
    next := at + 1;
    tbl[next] := tcl;
    next := next + 1;
    MorePairs(old(tbl[..]), tbl[..], frags, Fragment(ncl, tcl));
  }

  /** CREATE_LINKMAP, outer loop: fragment after fragment, stored as long as there is room. `cl` is 1 if the chain runs
      off the volume. */
  method MapFragments(f: File, tbl: array<dword>, cl0: dword, ghost s: Snapshot, ghost all: seq<byte>)
    returns (cl: dword, ulen: nat, at: nat, ghost frags: seq<Fragment>)
    requires Kept(f, s, all) && IsChain(s.fat, s.ch) && |s.fat| == f.vol.geo.nFatent < 0x1000_0000 && s.ch != []
    requires cl0 == s.ch[0]
    requires 0 < tbl.Length && tbl[0] <= tbl.Length
    modifies tbl, f.vol`disk, f.vol`wflag, f.vol`winsect, f.vol.win
    ensures Kept(f, s, all)
    ensures cl <= 1 <==> RunsOff(s.fat, s.ch)
    ensures cl > 1 ==> ulen == 2 * |frags| + 2 && Covers(frags, s.ch, |s.ch|)
    ensures cl > 1 && ulen <= tbl[0] ==> at == ulen - 1 && Pairs(tbl[..], frags)
    ensures tbl[0] == old(tbl[0]) && forall i :: 0 < i < tbl.Length && tbl[0] <= i ==> tbl[i] == old(tbl[i])
  {
    hide Kept, IsChain, Covers, Pairs;
    ghost var ch, fat := s.ch, s.fat;
    var tlen := tbl[0];
    at, ulen, cl := 1, 2, cl0;
    ghost var i := 0;
    frags := [];
    NothingYet(ch, tbl[..]);
    while true
      invariant Kept(f, s, all)
      invariant i < |ch| && cl == ch[i] && (i > 0 ==> ch[i] != ch[i - 1] + 1)
      invariant ulen == 2 * |frags| + 2 && Covers(frags, ch, i)
      invariant tbl[0] == tlen && (ulen <= tlen || frags == [] ==> at == ulen - 1 && Pairs(tbl[..], frags))
      invariant forall i :: 0 < i < tbl.Length && tlen <= i ==> tbl[i] == old(tbl[i])
      decreases |ch| - i
    {
      var tcl := cl;
      var ncl;
      ulen := ulen + 2;
      ncl, cl := Measure(f, tcl, i, s, all);
      if cl <= 1 {
        return;
      }
      AnotherFragment(ch, frags, i, Fragment(ncl, tcl));
      if ulen <= tlen {
        at := PutFragment(tbl, at, ncl, tcl, frags);
      }
      frags := frags + [Fragment(ncl, tcl)];
      i := i + ncl;
      LinkAt(fat, ch, i - 1);
      if cl >= f.vol.geo.nFatent {
        break;
      }
    }
  }

  /** f_lseek with CREATE_LINKMAP: the table of the file's chain, or only its length if the given one is too short.
      `tbl[0]` holds the number of items in the table. Nothing behind that many items is touched. */
  method CreateLinkMap(f: File, tbl: array<dword>) returns (res: FResult)
    requires f.Valid() && 0 < tbl.Length && tbl[0] <= tbl.Length
    modifies tbl, f`error, f.vol`disk, f.vol`wflag, f.vol`winsect, f.vol.win
    ensures f.Valid() && f.vol.Valid() && Looks(f.vol.geo, old(f.Snap()), f.Snap()) && f.Content() == old(f.Content())
    ensures res == IntErr <==> f.error
    ensures res == IntErr <==> old(f.error) || RunsOff(f.vol.Fat(), f.chain)
    ensures res != IntErr ==> tbl[0] == 2 * FragmentCount(f.chain) + 2
    ensures res != IntErr ==> res == if tbl[0] <= old(tbl[0]) then Ok else NotEnoughCore
    ensures res == Ok ==> Maps(tbl[..], f.chain)
    ensures forall i :: 0 < i < tbl.Length && old(tbl[0]) <= i ==> tbl[i] == old(tbl[i])
  {
    hide File.Valid, File.Content, File.Snap, File.AllBytes, Kept, Looks, Maps, Covers, Volume.Valid, Volume.Fat;
    hide IsChain, Expand, FragmentCount, Pairs, RunsOff;
    KeptNow(f);
    ghost var s, all := f.Snap(), f.AllBytes();
    TheChain(f, s, all);
    KeptMeans(f, s, all);
    if f.error {
      return IntErr;
    }
    NothingYet(f.chain, tbl[..]);
    var tlen, at, ulen := tbl[0], 1, 2;
    var cl: dword := f.sclust;
    ghost var frags: seq<Fragment> := [];
    if cl != 0 {
      cl, ulen, at, frags := MapFragments(f, tbl, cl, s, all);
      TheChain(f, s, all);
      KeptMeans(f, s, all);
      if cl <= 1 {
        f.error := true;
        return IntErr;
      }
    }
    FewFragments(s.fat, s.ch);
    AllCovered(frags, f.chain);
    ghost var t := tbl[..];
    tbl[0] := ulen;
    if ulen <= tlen {
      tbl[at] := 0;
      Finished(t, tbl[..], frags, f.chain);
      res := Ok;
    } else {
      res := NotEnoughCore;
    }
  }

  // ---------------------------------------------------------------- seeking

  /** Byte `p` of a file lies in sector `q % csize` of its `q / csize`-th cluster, where `q` is its sector. */
  lemma ByteInCluster(csize: nat, n: nat, p: nat)
    requires 0 < csize && p < SECTOR_SIZE * (n * csize)
    ensures var q := p / SECTOR_SIZE; var j := q / csize;
      0 <= j < n && q == j * csize + q % csize && SECTOR_SIZE * (j * csize) <= p < SECTOR_SIZE * (j * csize + csize)
  {
    var q := p / SECTOR_SIZE;
    var j := q / csize;
    Associate(1, csize, j);
    assert q == csize * j + q % csize;
    if n <= j {
      MulMono(csize, n, j);
    }
  }

  /** The pointer determines the current cluster: seeking with or without the table ends in the same state. */
  lemma PointerDeterminesCluster(g: Layout, ch: seq<nat>, cur0: nat, clust0: nat, cur1: nat, clust1: nat, fptr: nat)
    requires 0 < g.csize && HoldsPrevious(g, ch, cur0, clust0, fptr) && HoldsPrevious(g, ch, cur1, clust1, fptr)
    ensures clust0 == clust1
  {
    if cur0 < cur1 {
      MulMono(g.csize, cur0 + 1, cur1);
      Distribute(g.csize, cur0, 1);
    } else if cur1 < cur0 {
      MulMono(g.csize, cur1 + 1, cur0);
      Distribute(g.csize, cur1, 1);
    }
  }

  /** The cluster and sector of the byte in front of a pointer inside the file. */
  lemma PointerPlace(f: File, p: nat)
    requires f.Valid() && f.vol.Valid() && 0 < p <= f.fsize
    ensures 0 < f.vol.geo.csize
    ensures var g := f.vol.geo; var q := (p - 1) / SECTOR_SIZE; var j := q / g.csize;
      0 <= j < |f.chain| && HoldsPrevious(g, f.chain, j, f.chain[j], p) && 2 <= f.chain[j] < g.nFatent < 0x1000_0000 &&
      Clust2Sect(g, f.chain[j]) == ClusterStart(g, f.chain[j]) > 0 &&
      (p % SECTOR_SIZE != 0 ==>
        p / SECTOR_SIZE < |f.Secs()| && f.Secs()[p / SECTOR_SIZE] == ClusterStart(g, f.chain[j]) + q % g.csize)
  {
    hide Sectors, FatAreaOk, DataAreaOk, IsChain, NoDup, Volume.Fat, Volume.Logical;
    var g, ch := f.vol.geo, f.chain;
    f.vol.Facts();
    ByteInCluster(g.csize, |ch|, p - 1);
    var q := (p - 1) / SECTOR_SIZE;
    var j := q / g.csize;
    Clust2SectStart(g, |f.vol.disk|, ch[j]);
    SectorIndex(g, ch, j, q % g.csize);
    if p % SECTOR_SIZE != 0 {
      assert p / SECTOR_SIZE == q;
    }
  }

  /** f_lseek through the table: the pointer moves to the target, or to the end of the file if that is nearer, without
      a look at the FAT; the file never grows. */
  method FastSeek(f: File, tbl: array<dword>, ofs: dword) returns (res: FResult)
    requires f.Valid() && Maps(tbl[..], f.chain)
    modifies f`fptr, f`clust, f`cur, f`dsect, f`dirty, f.buf, f.vol`disk
    ensures f.Valid() && f.Content() == old(f.Content()) && f.Snap() == old(f.Snap())
    ensures res == if f.error then IntErr else Ok
    ensures f.fptr == if f.error then old(f.fptr) else if ofs > f.fsize then f.fsize else ofs
  {
    hide File.View, Sectors, IsChain, GoodChain, NoDup, Maps, Volume.Valid, Volume.Fat, Volume.Logical, HoldsPrevious;
    hide BytesOf, Clust2Sect, ClusterStart;
    res := if f.error then IntErr else Ok;
    if f.error {
      return;
    }
    VolumeValid(f);
    var target := if ofs > f.fsize then f.fsize else ofs;
    if target > 0 {
      PointerPlace(f, target);
      var c := ClmtClust(f.vol.geo, tbl, target - 1, f.chain);
      var dsc := Clust2Sect(f.vol.geo, c);
      dsc := dsc + (target - 1) / SECTOR_SIZE % f.vol.geo.csize;
      Reposition(f, target, c, dsc, (target - 1) / SECTOR_SIZE / f.vol.geo.csize);
    } else {
      f.fptr := 0;
    }
  }

  /** f_lseek, last part: the pointer and the current cluster are set and the buffer follows. */
  method Reposition(f: File, target: dword, clust: dword, dsc: nat, ghost j: nat)
    requires f.Valid() && target <= f.fsize && HoldsPrevious(f.vol.geo, f.chain, j, clust, target)
    requires target % SECTOR_SIZE != 0 ==> target / SECTOR_SIZE < |f.Secs()| && dsc == f.Secs()[target / SECTOR_SIZE]
    modifies f`fptr, f`clust, f`cur, f`dsect, f`dirty, f.buf, f.vol`disk
    ensures f.Valid() && f.Content() == old(f.Content()) && f.Snap() == old(f.Snap()) && f.fptr == target
  {
    hide File.View, Sectors, IsChain, GoodChain, NoDup, Volume.Valid, Volume.Fat, Volume.Logical, HoldsPrevious;
    hide BytesOf;
    f.fptr, f.clust, f.cur := target, clust, j;
    if target % SECTOR_SIZE != 0 && dsc != f.dsect {
      f.SectorFacts(target / SECTOR_SIZE);
      f.FlushBuffer();
      f.LoadBuffer(dsc);
    }
  }
}
