/** A session: any number of open files on one volume, served one request after the other. */
module Sessions {
  import opened Bytes
  import opened Geometry
  import opened Chains
  import opened Volumes
  import opened FileData
  import opened Files
  import opened Beside
  import M = Mounts

  /** A file as its user sees it. */
  datatype FileState = FileState(content: seq<byte>, ptr: nat)

  datatype Request = ReadFrom(file: nat, n: dword) | WriteTo(file: nat, data: seq<byte>) | SeekIn(file: nat, ofs: dword)

  /** The result code, the number of bytes transferred, and those read. */
  datatype Reply = Reply(res: FResult, n: nat, got: seq<byte>)

  predicate Proper(req: Request, n: nat) {
    req.file < n && (req.WriteTo? ==> |req.data| < 0x1_0000_0000)
  }

  /** The files are open on the volume, each with a buffer and a chain of its own, and none has been aborted. */
  ghost predicate InSession(v: Volume, fs: seq<File>)
    reads v, v.win, fs, set f: File | f in fs :: f.buf
  {
    && v.Valid() && (forall i :: 0 <= i < |fs| ==> fs[i].vol == v && fs[i].Valid() && !fs[i].error)
    && forall i, j :: 0 <= i < |fs| && 0 <= j < |fs| && i != j ==>
         fs[i] != fs[j] && fs[i].buf != fs[j].buf && NoShare(fs[i].chain, fs[j].chain)
  }

  /** The FAT is a forest of chains, those of the files among them. */
  ghost predicate InForest(v: Volume, fs: seq<File>, chains: set<seq<nat>>)
    requires v.Valid()
    reads v, v.win, fs
  {
    Forest(v.Fat(), chains) && forall i :: 0 <= i < |fs| ==> fs[i].chain == [] || fs[i].chain in chains
  }

  ghost function StateOf(f: File): FileState
    requires f.Valid()
    reads f, f.buf, f.vol, f.vol.win
  {
    FileState(f.Content(), f.fptr)
  }

  /** What a request does to the file it names: exactly the read, write or seek on a sequence of bytes, cut short
      only on a full disk or when a file would reach 4 GB. */
  ghost predicate Answered(s: FileState, t: FileState, req: Request, r: Reply, canRead: bool, canWrite: bool,
                           full: bool)
    requires s.ptr <= |s.content|
  {
    match req
    case ReadFrom(_, n) =>
      var m := if n < |s.content| - s.ptr then n else |s.content| - s.ptr;
      if canRead then r == Reply(Ok, m, s.content[s.ptr..s.ptr + m]) && t == s.(ptr := s.ptr + m)
      else r == Reply(Denied, 0, []) && t == s
    case WriteTo(_, data) =>
      if canWrite then
        && r.res == Ok && r.n <= |data| && t == FileState(Overwrite(s.content, s.ptr, data[..r.n]), s.ptr + r.n)
        && (r.n < |data| ==> |s.content| + |data| >= 0x1_0000_0000 || full)
      else r == Reply(Denied, 0, []) && t == s
    case SeekIn(_, ofs) =>
      var target := if ofs > |s.content| && !canWrite then |s.content| else ofs;
      && r.res == Ok && s.content <= t.content && |t.content| == Max(|s.content|, t.ptr)
      && (t.ptr == target || (t.ptr < target && canWrite && full))
  }

  // ---------------------------------------------------------------- the file that is served

  /** One request, on a volume without reserved entries. */
  method ServeOne(f: File, req: Request) returns (r: Reply)
    requires f.Valid() && f.vol.Valid() && !f.error && !HasReserved(f.vol.Fat())
    requires (req.WriteTo? ==> |req.data| < 0x1_0000_0000)
    modifies f, f.buf, f.vol`disk, f.vol`wflag, f.vol`winsect, f.vol`lastClust, f.vol`freeClust, f.vol`fsiFlag
    modifies f.vol.win
    ensures f.Valid() && f.vol.Valid() && !f.error && Evolves(f.vol.geo, old(f.Snap()), f.Snap())
    ensures Answered(old(StateOf(f)), StateOf(f), req, r, f.canRead, f.canWrite, NoneFree(f.vol.Fat()))
  {
    hide File.Core, File.Sized, File.BufferClean, File.Positioned, File.MidSector, File.Snap, File.Content;
    hide Evolves, Looks, Overwrite, Volume.Valid, Volume.Fat, Volume.Logical, HasReserved, NoneFree, Splice;
    ghost var s, a := StateOf(f), f.Snap();
    EvolvesNot(f.vol.geo, a);
    match req
    case ReadFrom(_, n) =>
      var buff := new byte[n];
      ghost var b := buff[..];
      var res, br := f.Read(buff, n);
      FileBuffer(f);
      LooksEvolves(f.vol.geo, a, f.Snap());
      r := Reply(res, br, buff[..br]);
      ReadInFront(b, s.content[s.ptr..f.fptr]);
    case WriteTo(_, data) =>
      var res, bw := f.Write(data);
      FileBuffer(f);
      r := Reply(res, bw, []);
    case SeekIn(_, ofs) =>
      var res := f.Lseek(ofs);
      FileBuffer(f);
      PrefixOf(s.content, f.Content());
      r := Reply(res, 0, []);
  }

  lemma ReadInFront(b: seq<byte>, piece: seq<byte>)
    requires |piece| <= |b|
    ensures Splice(b, 0, piece)[..|piece|] == piece
  {
  }

  lemma PrefixOf(c: seq<byte>, d: seq<byte>)
    requires |c| <= |d| && d[..|c|] == c
    ensures c <= d
  {
  }

  // ---------------------------------------------------------------- the other files

  /** The file `o` lies beside `f` on a volume that `f` saw as `a`, with the logical disk `l`, and is in the state
      `s`. */
  ghost predicate Aside(o: File, f: File, a: Snapshot, l: Disk, s: FileState)
    reads o, o.buf
  {
    && o != f && o.buf != f.buf && o.vol == f.vol && o.buf != f.vol.win && !o.error && NoShare(a.ch, o.chain)
    && FileOn(o, a.fat, l, a.win) && s == FileState(ContentOn(o, a.fat, l, a.win), o.fptr)
  }

  lemma AsideBefore(f: File, o: File)
    requires Both(f, o) && !o.error
    ensures Aside(o, f, f.Snap(), f.vol.Logical(), StateOf(o)) && o.buf != f.vol.win
  {
    hide File.Core, File.Valid, File.Content, File.Snap, FileOn, ContentOn, NoShare, Shows, Volume.Valid, Volume.Fat;
    hide Volume.Logical;
    BothBefore(f, o);
    FileBuffer(o);
    SnapChain(f);
  }

  lemma SnapChain(f: File)
    requires f.Valid()
    ensures f.Snap().ch == f.chain
  {
  }

  lemma AsideAfter(f: File, o: File, a: Snapshot, l: Disk, s: FileState)
    requires Aside(o, f, a, l, s) && f.Valid() && Evolves(f.vol.geo, a, f.Snap()) && Shows(a, l)
    requires |a.fat| == f.vol.geo.nFatent
    ensures o.Valid() && !o.error && StateOf(o) == s && NoShare(f.chain, o.chain) && NoShare(o.chain, f.chain)
  {
    hide File.Core, File.Valid, File.Content, File.Snap, FileOn, ContentOn, NoShare, Shows, Evolves, Volume.Valid;
    hide Volume.Fat, Volume.Logical;
    StillBoth(f, o, a, l);
    Apart(f.chain, o.chain);
  }

  lemma BothOf(v: Volume, fs: seq<File>, k: nat, i: nat)
    requires InSession(v, fs) && k < |fs| && i < |fs| && i != k
    ensures Both(fs[k], fs[i]) && !fs[i].error && fs[k].Core()
  {
    hide File.Core, File.Sized, File.BufferClean, File.Positioned, File.MidSector, NoShare, Volume.Valid;
  }

  lemma ServedFile(v: Volume, fs: seq<File>, k: nat)
    requires InSession(v, fs) && k < |fs|
    ensures var f := fs[k];
      f.vol == v && f.Valid() && !f.error && f.Core() && |f.Snap().fat| == v.geo.nFatent &&
      Shows(f.Snap(), v.Logical()) &&
      f.Snap().ch == f.chain && f.Snap().fat == v.Fat() &&
      f.Snap().count == v.freeClust && f.Snap().flag == v.fsiFlag && (f.chain == [] || IsChain(v.Fat(), f.chain))
  {
    hide File.Core, File.Sized, File.BufferClean, File.Positioned, File.MidSector, File.Snap, NoShare, Shows;
    hide Volume.Valid, Volume.Fat, Volume.Logical, IsChain;
    FileShows(fs[k]);
    FileSnap(fs[k]);
    fs[k].ChainIsThere();
  }

  /** One request of a session: the file it names does as it should, all others stay as they are, and no FAT entry
      turns out to be reserved. */
  method Serve(v: Volume, fs: seq<File>, req: Request, ghost chains: set<seq<nat>>)
    returns (r: Reply, ghost after: set<seq<nat>>)
    requires InSession(v, fs) && InForest(v, fs, chains) && Proper(req, |fs|)
    modifies fs[req.file], fs[req.file].buf, v`disk, v`wflag, v`winsect, v`lastClust, v`freeClust, v`fsiFlag, v.win
    ensures InSession(v, fs) && InForest(v, fs, after)
    ensures forall i :: 0 <= i < |fs| && i != req.file ==> StateOf(fs[i]) == old(StateOf(fs[i]))
    ensures var f := fs[req.file];
      Answered(old(StateOf(f)), StateOf(f), req, r, f.canRead, f.canWrite, NoneFree(v.Fat()))
    ensures forall b: dword :: old(M.InBooks(v, b)) ==> M.InBooks(v, b)
    ensures old(M.Counted(v)) ==> M.Counted(v)
  {
    hide M.OnBooks, CountOk;
    hide File.Core, File.Valid, File.Content, File.Snap, FileOn, ContentOn, NoShare, Shows, Evolves, Volume.Valid;
    hide Volume.Fat, Volume.Logical, StateOf, Answered, Forest, IsChain, HasReserved, NoneFree, Aside;
    ghost var k, f := req.file, fs[req.file];
    ServedFile(v, fs, k);
    ForestUnreserved(v.Fat(), chains);
    ghost var a, l := f.Snap(), v.Logical();
    forall i | 0 <= i < |fs| && i != k ensures Aside(fs[i], f, a, l, StateOf(fs[i])) && fs[i].buf != v.win {
      BothOf(v, fs, k, i);
      AsideBefore(f, fs[i]);
    }
    r := ServeOne(fs[req.file], req);
    forall i | 0 <= i < |fs| && i != k
      ensures fs[i].Valid() && !fs[i].error && StateOf(fs[i]) == old(StateOf(fs[i])) && NoShare(f.chain, fs[i].chain)
      ensures NoShare(fs[i].chain, f.chain)
    {
      AsideAfter(f, fs[i], a, l, old(StateOf(fs[i])));
    }
    forall b: dword | old(M.InBooks(v, b)) ensures M.InBooks(v, b) {
      FileBooks(f, a, l, b);
    }
    if CountOk(a.fat, a.count) {
      FileCounts(f, a);
    }
    after := ChainsAfter(chains, a.ch, f.chain);
    ForestAfter(f, chains, a);
    forall i | 0 <= i < |fs| && i != k ensures fs[i].chain == [] || fs[i].chain in after {
      OtherChain(chains, a.ch, f.chain, fs[i].chain);
    }
  }

  /** The chains after one of them, or a file without one, has got longer. */
  ghost function ChainsAfter(chains: set<seq<nat>>, ch: seq<nat>, ch': seq<nat>): set<seq<nat>> {
    if ch' == [] then chains else chains - {ch} + {ch'}
  }

  lemma ForestAfter(f: File, chains: set<seq<nat>>, a: Snapshot)
    requires f.Valid() && Forest(a.fat, chains) && Evolves(f.vol.geo, a, f.Snap()) && (a.ch == [] || a.ch in chains)
    ensures f.vol.Valid() && Forest(f.vol.Fat(), ChainsAfter(chains, a.ch, f.chain)) && a.ch <= f.chain
    ensures f.chain == [] || f.chain in ChainsAfter(chains, a.ch, f.chain)
  {
    hide Sectors, NoDup, IsChain, GoodChain, File.View, Volume.Valid, Volume.Fat, Volume.Logical, CountOk, InFat1;
    hide Forest, HoldsPrevious;
    f.ChainIsThere();
    if f.chain != [] {
      GrewKeepsForest(a.fat, chains, a.ch, f.vol.Fat(), f.chain);
    } else {
      assert f.vol.Fat() == a.fat;
    }
  }

  lemma OtherChain(chains: set<seq<nat>>, ch: seq<nat>, ch': seq<nat>, o: seq<nat>)
    requires (o == [] || o in chains) && ch <= ch' && NoShare(ch', o)
    ensures o == [] || o in ChainsAfter(chains, ch, ch')
  {
    if ch != [] {
      assert ch[0] == ch'[0];
      assert ch[0] in ch && ch[0] !in o;
    }
  }

  // ---------------------------------------------------------------- whole sessions

  /** The files as their users see them, and the FAT. */
  datatype Moment = Moment(files: seq<FileState>, fat: Table)

  ghost predicate Shown(v: Volume, fs: seq<File>, m: Moment)
    requires InSession(v, fs)
    reads v, v.win, fs, set f: File | f in fs :: f.buf
  {
    m.fat == v.Fat() && |m.files| == |fs| && forall i :: 0 <= i < |fs| ==> m.files[i] == StateOf(fs[i])
  }

  /** From one moment to the next the request is answered, and only its file changes. */
  ghost predicate Step(fs: seq<File>, m: Moment, m': Moment, req: Request, r: Reply) {
    && |m.files| == |m'.files| == |fs| && req.file < |fs| && m.files[req.file].ptr <= |m.files[req.file].content|
    && (forall i :: 0 <= i < |fs| && i != req.file ==> m'.files[i] == m.files[i])
    && var f := fs[req.file];
       Answered(m.files[req.file], m'.files[req.file], req, r, f.canRead, f.canWrite, NoneFree(m'.fat))
  }

  lemma Look(v: Volume, fs: seq<File>) returns (m: Moment)
    requires InSession(v, fs)
    ensures Shown(v, fs, m)
  {
    hide File.Core, File.Sized, File.BufferClean, File.Positioned, File.MidSector, File.Content, NoShare, Volume.Valid;
    hide Volume.Fat, StateOf;
    var s: seq<FileState> := [];
    while |s| < |fs|
      invariant |s| <= |fs| && forall i :: 0 <= i < |s| ==> s[i] == StateOf(fs[i])
    {
      s := s + [StateOf(fs[|s|])];
    }
    m := Moment(s, v.Fat());
  }

  lemma PointerInside(v: Volume, fs: seq<File>, k: nat)
    requires InSession(v, fs) && k < |fs|
    ensures StateOf(fs[k]).ptr <= |StateOf(fs[k]).content|
  {
    hide File.Core, File.BufferClean, File.Positioned, File.MidSector, File.Content, NoShare, Volume.Valid;
  }

  /** Any session: requests are answered one by one as by separate sequences of bytes, each changes its own file
      only, none ends in an internal error, and the FAT stays a forest of chains. */
  method Run(v: Volume, fs: seq<File>, reqs: seq<Request>, ghost chains: set<seq<nat>>)
    returns (replies: seq<Reply>, ghost trace: seq<Moment>, ghost after: set<seq<nat>>)
    requires InSession(v, fs) && InForest(v, fs, chains) && forall j :: 0 <= j < |reqs| ==> Proper(reqs[j], |fs|)
    modifies fs, set f: File | f in fs :: f.buf
    modifies v`disk, v`wflag, v`winsect, v`lastClust, v`freeClust, v`fsiFlag, v.win
    ensures InSession(v, fs) && InForest(v, fs, after)
    ensures |replies| == |reqs| && |trace| == |reqs| + 1 && old(Shown(v, fs, trace[0])) && Shown(v, fs, trace[|reqs|])
    ensures forall j :: 0 <= j < |reqs| ==>
      Step(fs, trace[j], trace[j + 1], reqs[j], replies[j]) && replies[j].res in {Ok, Denied}
    ensures forall b: dword :: old(M.InBooks(v, b)) ==> M.InBooks(v, b)
    ensures old(M.Counted(v)) ==> M.Counted(v)
  {
    hide M.InBooks, M.Counted;
    hide File.Core, File.Valid, File.Content, NoShare, Volume.Valid, Volume.Fat, StateOf, Answered, NoneFree, InForest;
    replies, after := [], chains;
    ghost var m := Look(v, fs);
    trace := [m];
    while |replies| < |reqs|
      invariant InSession(v, fs) && v.Valid() && InForest(v, fs, after) && |replies| <= |reqs|
      invariant |trace| == |replies| + 1
      invariant old(Shown(v, fs, trace[0])) && Shown(v, fs, trace[|replies|])
      invariant forall j :: 0 <= j < |replies| ==>
        Step(fs, trace[j], trace[j + 1], reqs[j], replies[j]) && replies[j].res in {Ok, Denied}
      invariant forall b: dword :: old(M.InBooks(v, b)) ==> M.InBooks(v, b)
      invariant old(M.Counted(v)) ==> M.Counted(v)
    {
      var req := reqs[|replies|];
      PointerInside(v, fs, req.file);
      ghost var m0 := trace[|replies|];
      var r;
      r, after := Serve(v, fs, req, after);
      ghost var m1 := Look(v, fs);
      AnsweredWell(m0.files[req.file], m1.files[req.file], req, r, fs[req.file].canRead, fs[req.file].canWrite, NoneFree(m1.fat));
      assert Step(fs, m0, m1, req, r);
      replies, trace := replies + [r], trace + [m1];
    }
  }

  lemma AnsweredWell(s: FileState, t: FileState, req: Request, r: Reply, canRead: bool, canWrite: bool, full: bool)
    requires s.ptr <= |s.content| && Answered(s, t, req, r, canRead, canWrite, full)
    ensures r.res in {Ok, Denied}
  {
  }
}
