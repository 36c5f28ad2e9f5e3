/** Directories seen as tables of entries: searching a name and registering one. */
module DirTables {
  import opened Bytes
  import opened LongNames
  import opened NumberedNames

  const DIR_NTRES := 12
  const ATTR_LIMIT := 0x40         // attributes are the bits below
  const MAX_ENTRIES := 0x1_0000    // entry numbers have 16 bits
  const NONE: byte := 0xFF         // no long name under way

  type Table = seq<DirEntry>

  function ZeroEntry(): DirEntry {
    seq(SZ_DIR, _ => 0)
  }

  /** sum_sfn: the bytes of a short name, added up with a rotation before each. */
  function SumSfn(name: seq<byte>): byte {
    if name == [] then 0
    else
      var sum := SumSfn(name[..|name| - 1]);
      (sum / 2 + sum % 2 * 0x80 + name[|name| - 1]) % 0x100
  }

  /** One round rotates the sum to the right by one bit, and adds the next byte. */
  lemma SumRotates(name: seq<byte>, c: byte)
    ensures SumSfn(name + [c]) == ((SumSfn(name) as bv8).RotateRight(1) as int + c) % 0x100
  {
    assert (name + [c])[..|name + [c]| - 1] == name;
    RotatedByte(SumSfn(name));
  }

  lemma RotatedByte(x: byte)
    ensures (x as bv8).RotateRight(1) as int == x / 2 + x % 2 * 0x80
  {
    Rotated(x as bv8);
    ByteBits(x);
  }

  lemma ByteBits(x: byte)
    ensures (x as bv8) as int == x
  {
  }

  lemma Rotated(x: bv8)
    ensures x.RotateRight(1) as int == x as int / 2 + x as int % 2 * 0x80
  {
    var y := x.RotateRight(1);
    assert y >> 7 == x & 1 && y & 0x7F == x >> 1;
    LowBit(x);
    HighBit(y);
  }

  lemma LowBit(x: bv8)
    ensures (x >> 1) as int == x as int / 2 && (x & 1) as int == x as int % 2
  {
  }

  lemma HighBit(y: bv8)
    ensures (y >> 7) as int == y as int / 0x80 && (y & 0x7F) as int == y as int % 0x80
  {
  }

  lemma SumNext(name: seq<byte>, sum: byte, c: byte, longer: seq<byte>)
    requires SumSfn(name) == sum && longer == name + [c]
    ensures SumSfn(longer) == (sum / 2 + sum % 2 * 0x80 + c) % 0x100
  {
    assert longer[..|longer| - 1] == name;
  }

  /** The checksum of "MUSIC_~1WAV". */
  lemma SumExample()
    ensures SumSfn([0x4D, 0x55, 0x53, 0x49, 0x43, 0x5F, 0x7E, 0x31, 0x57, 0x41, 0x56]) == 0x7D
  {
    assert SumSfn([]) == 0;
    hide SumSfn;
    SumNext([], 0x00, 0x4D, [0x4D]);
    SumNext([0x4D], 0x4D, 0x55, [0x4D, 0x55]);
    SumNext([0x4D, 0x55], 0xFB, 0x53, [0x4D, 0x55, 0x53]);
    SumNext([0x4D, 0x55, 0x53], 0x50, 0x49, [0x4D, 0x55, 0x53, 0x49]);
    SumNext([0x4D, 0x55, 0x53, 0x49], 0x71, 0x43,
            [0x4D, 0x55, 0x53, 0x49, 0x43]);
    SumNext([0x4D, 0x55, 0x53, 0x49, 0x43], 0xFB, 0x5F,
            [0x4D, 0x55, 0x53, 0x49, 0x43, 0x5F]);
    SumNext([0x4D, 0x55, 0x53, 0x49, 0x43, 0x5F], 0x5C, 0x7E,
            [0x4D, 0x55, 0x53, 0x49, 0x43, 0x5F, 0x7E]);
    SumNext([0x4D, 0x55, 0x53, 0x49, 0x43, 0x5F, 0x7E], 0xAC, 0x31,
            [0x4D, 0x55, 0x53, 0x49, 0x43, 0x5F, 0x7E, 0x31]);
    SumNext([0x4D, 0x55, 0x53, 0x49, 0x43, 0x5F, 0x7E, 0x31], 0x87, 0x57,
            [0x4D, 0x55, 0x53, 0x49, 0x43, 0x5F, 0x7E, 0x31, 0x57]);
    SumNext([0x4D, 0x55, 0x53, 0x49, 0x43, 0x5F, 0x7E, 0x31, 0x57], 0x1A, 0x41,
            [0x4D, 0x55, 0x53, 0x49, 0x43, 0x5F, 0x7E, 0x31, 0x57, 0x41]);
    SumNext([0x4D, 0x55, 0x53, 0x49, 0x43, 0x5F, 0x7E, 0x31, 0x57, 0x41], 0x4E, 0x56,
            [0x4D, 0x55, 0x53, 0x49, 0x43, 0x5F, 0x7E, 0x31, 0x57, 0x41, 0x56]);
  }

  /** The loop of sum_sfn over the 11 bytes of a short name. */
  method SumShortName(name: seq<byte>) returns (sum: byte)
    requires |name| == SFN
    ensures sum == SumSfn(name)
  {
    sum := 0;
    var n := 0;
    while n < SFN
      invariant n <= SFN && sum == SumSfn(name[..n])
    {
      assert name[..n + 1][..n] == name[..n];
      Remainder(sum * 0x80, 0x100, sum / 2, sum % 2 * 0x80);
      sum := (sum / 2 + sum * 0x80 % 0x100 + name[n]) % 0x100;
      n := n + 1;
    }
    assert name[..n] == name;
  }

  /** What is searched: the short name, whether it is too lossy to stand for the name, and the buffer with the long
      name, unless short names alone are searched. */
  datatype Key = Key(fn: seq<byte>, loss: bool, lfn: Option<seq<word>>)

  ghost predicate KeyOk(key: Key) {
    |key.fn| == SFN && (key.lfn.Some? ==> |key.lfn.value| == MAX_LFN + 1)
  }

  predicate IsBlank(e: DirEntry) {
    e[0] == DDE || e[0] == 0
  }

  predicate IsLong(e: DirEntry) {
    e[LDIR_ATTR] % ATTR_LIMIT == AM_LFN
  }

  /** A volume label, which is no entry of a file. */
  predicate IsLabel(e: DirEntry) {
    e[LDIR_ATTR] / 8 % 2 == 1 && !IsLong(e)
  }

  /** An entry with a short name of an object. */
  predicate IsShort(e: DirEntry) {
    !IsBlank(e) && !IsLong(e) && !IsLabel(e)
  }

  datatype Verdict = Found | EndOfTable | GoOn(ord: byte, sum: byte)

  /** dir_find, one entry: `ord` is the order number expected next in a run of matching long-name entries. */
  ghost function Judge(e: DirEntry, key: Key, up: word -> word, ord: byte, sum: byte): Verdict
    requires KeyOk(key)
  {
    if e[0] == 0 then EndOfTable
    else if e[0] == DDE || IsLabel(e) then GoOn(NONE, sum)
    else if IsLong(e) then
      if key.lfn.None? then GoOn(ord, sum) else
      var c := if IsEnd(e) then e[0] - LLE else e[0];
      var sum := if IsEnd(e) then e[LDIR_CHKSUM] else sum;
      if (IsEnd(e) || c == ord) && sum == e[LDIR_CHKSUM] && Matches(key.lfn.value, e, up) then GoOn((c + 0xFF) % 0x100, sum)
      else GoOn(NONE, sum)
    else if ord == 0 && sum == SumSfn(e[..SFN]) then Found
    else if !key.loss && e[..SFN] == key.fn then Found
    else GoOn(NONE, sum)
  }

  /** dir_find from entry `k` on. */
  ghost function FindFrom(t: Table, k: nat, key: Key, up: word -> word, ord: byte, sum: byte): Option<nat>
    requires KeyOk(key)
    decreases |t| - k
  {
    if k >= |t| || k >= MAX_ENTRIES then None
    else
      match Judge(t[k], key, up, ord, sum)
      case Found => Some(k)
      case EndOfTable => None
      case GoOn(o, s) => FindFrom(t, k + 1, key, up, o, s)
  }

  ghost function Find(t: Table, key: Key, up: word -> word): Option<nat>
    requires KeyOk(key)
  {
    FindFrom(t, 0, key, up, NONE, NONE)
  }

  /** A table that ends with its first unused entry. */
  ghost predicate ZeroTerminated(t: Table) {
    forall i, j :: 0 <= i < j < |t| && t[i][0] == 0 ==> t[j][0] == 0
  }

  /** Entries `k` to `k + ne` exist and are unused. */
  ghost predicate FreeRun(t: Table, k: nat, ne: nat) {
    k + ne <= |t| && k + ne <= MAX_ENTRIES && forall j :: k <= j < k + ne ==> IsBlank(t[j])
  }

  /** The table has `ne` unused entries in a row. */
  ghost predicate HasRoom(t: Table, ne: nat) {
    exists k: nat :: FreeRun(t, k, ne)
  }

  /** The short entry of a new object. */
  function ShortEntry(fn: seq<byte>, nt: byte): DirEntry
    requires |fn| == SFN
  {
    var e: DirEntry := Splice(ZeroEntry(), 0, fn);
    e[DIR_NTRES := nt]
  }

  /** Registration of a name in `ne` entries from entry `first` on: the table may grow by unused entries, entries in
      use stay. */
  ghost predicate Registered(t: Table, t': Table, first: nat, ne: nat, name: seq<word>, fn: seq<byte>, nt: byte)
    requires |fn| == SFN
  {
    && |t| <= |t'| && 1 <= ne && first + ne <= |t'| && first + ne <= MAX_ENTRIES
    && (forall k :: 0 <= k < |t'| && !(first <= k < first + ne) ==> t'[k] == if k < |t| then t[k] else ZeroEntry())
    && (forall k :: first <= k < first + ne && k < |t| ==> IsBlank(t[k]))
    && (forall k :: first <= k < first + ne - 1 ==> IsPart(t'[k], name, first + ne - 1 - k, SumSfn(fn)))
    && t'[first + ne - 1] == ShortEntry(fn, nt)
    && (ZeroTerminated(t) ==> forall k :: 0 <= k < first && k < |t| ==> t[k][0] != 0)
    && (ZeroTerminated(t) ==> first <= |t|)
  }

  // ---------------------------------------------------------------- a registered name is found

  /** The search passes entries that hold neither the name nor the end of the table. */
  lemma {:induction false} SearchPasses(t: Table, t': Table, k: nat, first: nat, key: Key,
                                        up: word -> word, ord: byte, sum: byte)
    returns (o: byte, s: byte)
    requires KeyOk(key) && k <= first <= |t| && first < |t'| && first < MAX_ENTRIES
    requires forall i :: 0 <= i < first ==> t[i] == t'[i] && t[i][0] != 0
    requires FindFrom(t, k, key, up, ord, sum) == None
    ensures FindFrom(t', k, key, up, ord, sum) == FindFrom(t', first, key, up, o, s)
    decreases first - k
  {
    if k == first {
      o, s := ord, sum;
    } else {
      assert t[k] == t'[k];
      var v := Judge(t[k], key, up, ord, sum);
      o, s := SearchPasses(t, t', k + 1, first, key, up, v.ord, v.sum);
    }
  }

  lemma ShortIsShort(fn: seq<byte>, nt: byte)
    requires |fn| == SFN && fn[0] != 0 && fn[0] != DDE
    ensures var e := ShortEntry(fn, nt); e[..SFN] == fn && e[0] == fn[0] && !IsLong(e) && !IsLabel(e)
  {
  }

  /** The head of a part of a long name. */
  lemma PartHead(e: DirEntry, name: seq<word>, ord: nat, sum: byte)
    requires IsPart(e, name, ord, sum) && GoodName(name) && ord <= Parts(name)
    ensures 1 <= ord <= 20 && !IsBlank(e) && e[0] != 0 && e[0] != DDE && IsLong(e) && !IsLabel(e)
    ensures e[LDIR_CHKSUM] == sum
    ensures (IsEnd(e) <==> ord == Parts(name)) && e[LDIR_ORD] == if IsEnd(e) then ord + LLE else ord
  {
    hide Unit;
    assert ord * PART >= |name| <==> ord == Parts(name);
  }

  /** A long-name entry that matches and is due. */
  lemma PartIsDue(e: DirEntry, name: seq<word>, ord: nat, sum: byte, key: Key, up: word -> word, o: byte, s: byte)
    requires KeyOk(key) && IsPart(e, name, ord, sum) && GoodName(name) && ord <= Parts(name) && key.lfn.Some?
    requires Matches(key.lfn.value, e, up)
    requires ord == Parts(name) || (o == ord && s == sum)
    ensures Judge(e, key, up, o, s) == GoOn(ord - 1, sum)
  {
    hide Unit, Matches, Fillers, IsPart, GoodName, Parts, IsBlank, IsLong, IsLabel, IsEnd;
    PartHead(e, name, ord, sum);
  }

  /** The search runs through the parts of the long name and stops at the short entry. */
  lemma {:induction false} SearchFollows(t': Table, first: nat, ne: nat, j: nat, name: seq<word>, fn: seq<byte>,
                                         nt: byte, key: Key, up: word -> word, o: byte, s: byte)
    requires KeyOk(key) && key.lfn.Some? && 2 <= ne == Parts(name) + 1 && j <= ne - 1 && first + ne <= |t'|
    requires first + ne <= MAX_ENTRIES && GoodName(name)
    requires |fn| == SFN && fn[0] != 0 && fn[0] != DDE && t'[first + ne - 1] == ShortEntry(fn, nt)
    requires forall k :: first <= k < first + ne - 1 ==>
      IsPart(t'[k], name, first + ne - 1 - k, SumSfn(fn)) && Matches(key.lfn.value, t'[k], up)
    requires j > 0 ==> o == ne - 1 - j && s == SumSfn(fn)
    ensures FindFrom(t', first + j, key, up, o, s) == Some(first + ne - 1)
    decreases ne - j
  {
    hide IsPart, Matches, SumSfn;
    if j == ne - 1 {
      ShortIsShort(fn, nt);
    } else {
      PartIsDue(t'[first + j], name, ne - 1 - j, SumSfn(fn), key, up, o, s);
      SearchFollows(t', first, ne, j + 1, name, fn, nt, key, up, ne - 2 - j, SumSfn(fn));
    }
  }

  /** The parts in the table, in the order of their numbers. */
  lemma PartsInOrder(t': Table, first: nat, name: seq<word>, sum: byte) returns (es: seq<DirEntry>)
    requires first + Parts(name) <= |t'|
    requires forall k :: first <= k < first + Parts(name) ==> IsPart(t'[k], name, first + Parts(name) - k, sum)
    ensures StoredName(es, name, sum) && |es| == Parts(name)
    ensures forall k :: 0 <= k < |es| ==> es[k] == t'[first + (Parts(name) - 1 - k)]
  {
    hide IsPart;
    es := seq(Parts(name), k requires 0 <= k < Parts(name) => t'[first + (Parts(name) - 1 - k)]);
  }

  /** All parts of the registered name match the key that holds it. */
  lemma PartsMatch(t': Table, first: nat, name: seq<word>, sum: byte, buf: seq<word>, up: word -> word)
    requires GoodName(name) && |name| < MAX_LFN && Holds(buf, name) && IsUpper(up)
    requires first + Parts(name) <= |t'|
    requires forall k :: first <= k < first + Parts(name) ==> IsPart(t'[k], name, first + Parts(name) - k, sum)
    ensures forall k :: first <= k < first + Parts(name) ==> Matches(buf, t'[k], up)
  {
    hide IsPart, Matches;
    var es := PartsInOrder(t', first, name, sum);
    LongNamesCompare(es, name, sum, buf, name, up);
    forall k | first <= k < first + Parts(name) ensures Matches(buf, t'[k], up) {
      assert es[first + Parts(name) - 1 - k] == t'[k];
    }
  }

  // ---------------------------------------------------------------- what a search finds

  /** A long-name entry with order number `ord` and checksum `sum` that matches the name in the buffer; `last` marks
      the end of the name. */
  ghost predicate PartOf(e: DirEntry, ord: nat, last: bool, sum: byte, buf: seq<word>, up: word -> word)
    requires |buf| == MAX_LFN + 1
  {
    && !IsBlank(e) && IsLong(e) && IsEnd(e) == last && e[LDIR_ORD] == (if last then ord + LLE else ord)
    && e[LDIR_CHKSUM] == sum && Matches(buf, e, up)
  }

  /** In front of entry `k` lies a run of parts with order numbers `n` down to `ord + 1`. */
  ghost predicate RunBefore(t: Table, k: nat, ord: nat, n: nat, sum: byte, buf: seq<word>, up: word -> word)
    requires |buf| == MAX_LFN + 1
  {
    && ord < n && n - ord <= k <= |t|
    && forall p :: k - (n - ord) <= p < k ==> PartOf(t[p], ord + (k - p), ord + (k - p) == n, sum, buf, up)
  }

  /** The short name is the one searched for, and good enough to stand for the name. */
  predicate ByShort(e: DirEntry, key: Key) {
    !key.loss && e[..SFN] == key.fn
  }

  /** All parts of a long name in front of entry `k`, down to the first, belong to its short name and match. */
  ghost predicate ByLong(t: Table, k: nat, key: Key, up: word -> word)
    requires KeyOk(key) && k < |t|
  {
    key.lfn.Some? && exists n :: RunBefore(t, k, 0, n, SumSfn(t[k][..SFN]), key.lfn.value, up)
  }

  /** Entry `k` is that of an object with the name searched for. */
  ghost predicate Carries(t: Table, k: nat, key: Key, up: word -> word)
    requires KeyOk(key)
  {
    k < |t| && k < MAX_ENTRIES && IsShort(t[k]) && (ByShort(t[k], key) || ByLong(t, k, key, up))
  }

  /** Entry `k` lies in front of the end of the table. */
  ghost predicate InFront(t: Table, k: nat) {
    k < |t| && k < MAX_ENTRIES && forall j :: 0 <= j <= k ==> t[j][0] != 0
  }

  /** Entry `k` is the first of the name in front of the end of the table. */
  ghost predicate FirstOfName(t: Table, k: nat, key: Key, up: word -> word)
    requires KeyOk(key)
  {
    InFront(t, k) && Carries(t, k, key, up) && forall j :: 0 <= j < k ==> !Carries(t, j, key, up)
  }

  /** What the state of the search says of the entries behind it: which parts of a long name, if any, it has just
      passed. */
  ghost predicate Tracks(t: Table, k: nat, key: Key, up: word -> word, ord: byte, sum: byte)
    requires KeyOk(key)
  {
    if key.lfn.None? then ord == NONE
    else
      && (ord != NONE ==> exists n :: RunBefore(t, k, ord, n, sum, key.lfn.value, up))
      && forall o: nat, n, s: byte :: RunBefore(t, k, o, n, s, key.lfn.value, up) ==> o == ord && s == sum
  }

  lemma TracksFromStart(t: Table, key: Key, up: word -> word)
    requires KeyOk(key)
    ensures Tracks(t, 0, key, up, NONE, NONE)
  {
  }

  /** A run that ends in front of entry `k + 1` is a single last part, or goes on from a run in front of `k`. */
  lemma RunSplits(t: Table, k: nat, o: nat, n: nat, s: byte, buf: seq<word>, up: word -> word)
    requires |buf| == MAX_LFN + 1 && k < |t|
    ensures RunBefore(t, k + 1, o, n, s, buf, up) <==>
      PartOf(t[k], o + 1, n == o + 1, s, buf, up) && (n == o + 1 || RunBefore(t, k, o + 1, n, s, buf, up))
  {
    hide PartOf;
    if PartOf(t[k], o + 1, n == o + 1, s, buf, up) && n != o + 1 && RunBefore(t, k, o + 1, n, s, buf, up) {
      forall p | k + 1 - (n - o) <= p < k + 1 ensures PartOf(t[p], o + (k + 1 - p), o + (k + 1 - p) == n, s, buf, up) {
        assert p < k ==> PartOf(t[p], o + 1 + (k - p), o + 1 + (k - p) == n, s, buf, up);
      }
    }
    if RunBefore(t, k + 1, o, n, s, buf, up) {
      assert PartOf(t[k], o + (k + 1 - k), o + (k + 1 - k) == n, s, buf, up);
      forall p | k - (n - (o + 1)) <= p < k ensures PartOf(t[p], o + 1 + (k - p), o + 1 + (k - p) == n, s, buf, up) {
        assert PartOf(t[p], o + (k + 1 - p), o + (k + 1 - p) == n, s, buf, up);
      }
    }
  }

  /** One step of the search keeps track. */
  lemma KeepsTrack(t: Table, k: nat, key: Key, up: word -> word, ord: byte, sum: byte)
    requires KeyOk(key) && k < |t| && Tracks(t, k, key, up, ord, sum) && Judge(t[k], key, up, ord, sum).GoOn?
    ensures var v := Judge(t[k], key, up, ord, sum); Tracks(t, k + 1, key, up, v.ord, v.sum)
  {
    hide RunBefore, SumSfn, Matches;
    var v := Judge(t[k], key, up, ord, sum);
    if key.lfn.Some? {
      var buf, k' := key.lfn.value, k + 1;
      forall o: nat, n, s: byte | RunBefore(t, k', o, n, s, buf, up) ensures o == v.ord && s == v.sum {
        RunSplits(t, k, o, n, s, buf, up);
      }
      if v.ord != NONE {
        if IsEnd(t[k]) {
          RunSplits(t, k, v.ord, v.ord as int + 1, v.sum, buf, up);
        } else {
          var n :| RunBefore(t, k, ord, n, sum, buf, up);
          RunLength(t, k, ord, n, sum, buf, up);
          RunSplits(t, k, v.ord, n, v.sum, buf, up);
        }
      }
    }
  }

  lemma RunLength(t: Table, k: nat, o: nat, n: nat, s: byte, buf: seq<word>, up: word -> word)
    requires |buf| == MAX_LFN + 1 && RunBefore(t, k, o, n, s, buf, up)
    ensures o < n
  {
  }

  /** The search stops at an entry exactly if that is one of the name. */
  lemma StopsAtName(t: Table, k: nat, key: Key, up: word -> word, ord: byte, sum: byte)
    requires KeyOk(key) && k < |t| && k < MAX_ENTRIES && Tracks(t, k, key, up, ord, sum)
    ensures Judge(t[k], key, up, ord, sum) == Found <==> t[k][0] != 0 && Carries(t, k, key, up)
  {
    hide RunBefore, SumSfn, Matches;
  }

  lemma {:induction false} FindFromIsFirst(t: Table, k: nat, key: Key, up: word -> word, ord: byte, sum: byte)
    requires KeyOk(key) && k <= |t| && Tracks(t, k, key, up, ord, sum)
    requires (forall j :: 0 <= j < k ==> t[j][0] != 0 && !Carries(t, j, key, up))
    ensures match FindFrom(t, k, key, up, ord, sum)
      case Some(i) => FirstOfName(t, i, key, up)
      case None => forall i: nat :: !FirstOfName(t, i, key, up)
    decreases |t| - k
  {
    hide Carries, Tracks, Judge;
    if k < |t| && k < MAX_ENTRIES {
      StopsAtName(t, k, key, up, ord, sum);
      JudgeEnd(t[k], key, up, ord, sum);
      var v := Judge(t[k], key, up, ord, sum);
      if v.GoOn? {
        KeepsTrack(t, k, key, up, ord, sum);
        FindFromIsFirst(t, k + 1, key, up, v.ord, v.sum);
      }
    } else {
      CarriersInside(t, key, up);
    }
  }

  lemma CarriersInside(t: Table, key: Key, up: word -> word)
    requires KeyOk(key)
    ensures forall i: nat :: Carries(t, i, key, up) ==> i < |t| && i < MAX_ENTRIES
  {
  }

  lemma JudgeEnd(e: DirEntry, key: Key, up: word -> word, ord: byte, sum: byte)
    requires KeyOk(key)
    ensures Judge(e, key, up, ord, sum) == EndOfTable <==> e[0] == 0
  {
    hide SumSfn, Matches;
  }

  /** dir_find stops at entry `k` if and only if `k` is the first entry of the name in front of the end of the table. */
  lemma FindIsFirst(t: Table, key: Key, up: word -> word, k: nat)
    requires KeyOk(key)
    ensures Find(t, key, up) == Some(k) <==> FirstOfName(t, k, key, up)
  {
    hide Carries;
    Decided(t, key, up);
  }

  lemma Decided(t: Table, key: Key, up: word -> word)
    requires KeyOk(key)
    ensures match Find(t, key, up)
      case Some(i) => FirstOfName(t, i, key, up)
      case None => forall i: nat :: !FirstOfName(t, i, key, up)
  {
    hide Judge, Carries, Tracks;
    TracksFromStart(t, key, up);
    FindFromIsFirst(t, 0, key, up, NONE, NONE);
  }

  /** A registered name that was not in the table is found at its short entry, through its long-name entries, or
      through the short name if it has none: if and only if no end of the table lies in front of it. */
  lemma RegisteredIsFound(t: Table, t': Table, first: nat, ne: nat, name: seq<word>, fn: seq<byte>, nt: byte,
                          loss: bool, buf: seq<word>, up: word -> word)
    requires |fn| == SFN && fn[0] != 0 && fn[0] != DDE && |buf| == MAX_LFN + 1
    requires Registered(t, t', first, ne, name, fn, nt)
    requires if ne == 1 then !loss
      else ne == Parts(name) + 1 && GoodName(name) && |name| < MAX_LFN && Holds(buf, name) && IsUpper(up)
    requires Find(t, Key(fn, loss, Some(buf)), up) == None
    ensures Find(t', Key(fn, loss, Some(buf)), up) == Some(first + ne - 1) <==> InFront(t', first + ne - 1)
  {
    hide IsPart, Matches, SumSfn, Judge, Carries;
    var key := Key(fn, loss, Some(buf));
    if InFront(t', first + ne - 1) {
      StartsInside(t, t', first, ne, name, fn, nt);
      var o, s := SearchPasses(t, t', 0, first, key, up, NONE, NONE);
      if ne == 1 {
        FoundByShortName(t', first, fn, nt, key, up, o, s);
      } else {
        PartsMatch(t', first, name, SumSfn(fn), buf, up);
        SearchFollows(t', first, ne, 0, name, fn, nt, key, up, o, s);
      }
    } else {
      Decided(t', key, up);
    }
  }

  lemma StartsInside(t: Table, t': Table, first: nat, ne: nat, name: seq<word>, fn: seq<byte>, nt: byte)
    requires |fn| == SFN && fn[0] != 0 && fn[0] != DDE && Registered(t, t', first, ne, name, fn, nt)
    requires InFront(t', first + ne - 1)
    ensures first <= |t| && forall k :: 0 <= k < first ==> t'[k][0] != 0 && t[k][0] != 0
  {
    hide IsPart, SumSfn, ShortEntry, ZeroEntry;
    RegisteredEntries(t, t', first, ne, name, fn, nt);
  }

  lemma FoundByShortName(t': Table, k: nat, fn: seq<byte>, nt: byte, key: Key, up: word -> word, o: byte, s: byte)
    requires KeyOk(key) && !key.loss && key.fn == fn && fn[0] != 0 && fn[0] != DDE && k < |t'| && k < MAX_ENTRIES
    requires t'[k] == ShortEntry(fn, nt)
    ensures FindFrom(t', k, key, up, o, s) == Some(k)
  {
    hide SumSfn;
    ShortIsShort(fn, nt);
  }

  /** Entry `k` is the short entry of the long name `name`, whose parts lie in front of it. */
  ghost predicate StoredAt(t: Table, k: nat, name: seq<word>) {
    && Parts(name) <= k < |t| && k < MAX_ENTRIES && IsShort(t[k])
    && forall p :: k - Parts(name) <= p < k ==> IsPart(t[p], name, k - p, SumSfn(t[k][..SFN]))
  }

  /** An object with the long name `name` is one of the name searched for if and only if the two are equal up to
      case, and have at most 254 units, or its short name is the one searched for. */
  lemma StoredNameCarries(t: Table, k: nat, name: seq<word>, key: Key, other: seq<word>, up: word -> word)
    requires StoredAt(t, k, name) && GoodName(name) && KeyOk(key) && key.lfn.Some? && Holds(key.lfn.value, other)
    requires IsUpper(up)
    ensures Carries(t, k, key, up) <==> ByShort(t[k], key) || (SameName(name, other, up) && |name| < MAX_LFN)
  {
    hide IsPart, Matches, SumSfn, Holds, SameName, IsUpper, IsShort;
    var sum, buf := SumSfn(t[k][..SFN]), key.lfn.value;
    var first := k - Parts(name);
    var es := PartsInOrder(t, first, name, sum);
    LongNamesCompare(es, name, sum, buf, other, up);
    forall p | first <= p < k ensures PartOf(t[p], k - p, k - p == Parts(name), sum, buf, up) <==> Matches(buf, t[p], up) {
      PartIsPart(t[p], name, k - p, sum, buf, up);
    }
    if exists n :: RunBefore(t, k, 0, n, sum, buf, up) {
      var n: nat :| RunBefore(t, k, 0, n, sum, buf, up);
      WholeRun(t, k, name, n, sum, buf, up);
      forall j | 0 <= j < |es| ensures Matches(buf, es[j], up) {
        assert PartOf(t[k - 1 - j], 0 + (k - (k - 1 - j)), 0 + (k - (k - 1 - j)) == n, sum, buf, up);
      }
    }
    if forall j :: 0 <= j < |es| ==> Matches(buf, es[j], up) {
      forall p | first <= p < k ensures PartOf(t[p], 0 + (k - p), 0 + (k - p) == Parts(name), sum, buf, up) {
        assert es[k - 1 - p] == t[p];
      }
      assert RunBefore(t, k, 0, Parts(name), sum, buf, up);
    }
  }

  /** A registered long name is stored at its short entry. */
  lemma RegisteredIsStored(t: Table, t': Table, first: nat, ne: nat, name: seq<word>, fn: seq<byte>, nt: byte)
    requires |fn| == SFN && fn[0] != 0 && fn[0] != DDE && Registered(t, t', first, ne, name, fn, nt)
    requires 2 <= ne == Parts(name) + 1
    ensures StoredAt(t', first + ne - 1, name)
  {
    hide IsPart, SumSfn;
    ShortIsShort(fn, nt);
  }

  lemma PartIsPart(e: DirEntry, name: seq<word>, j: nat, sum: byte, buf: seq<word>, up: word -> word)
    requires IsPart(e, name, j, sum) && GoodName(name) && 1 <= j <= Parts(name) && |buf| == MAX_LFN + 1
    ensures PartOf(e, j, j == Parts(name), sum, buf, up) <==> Matches(buf, e, up)
    ensures IsEnd(e) <==> j == Parts(name)
  {
    hide Unit, Matches, IsPart, GoodName, Parts, IsBlank, IsLong, IsEnd;
    PartHead(e, name, j, sum);
  }

  /** A run in front of the short entry of a stored name is the whole name. */
  lemma WholeRun(t: Table, k: nat, name: seq<word>, n: nat, sum: byte, buf: seq<word>, up: word -> word)
    requires StoredAt(t, k, name) && GoodName(name) && |buf| == MAX_LFN + 1 && sum == SumSfn(t[k][..SFN])
    requires RunBefore(t, k, 0, n, sum, buf, up)
    ensures n == Parts(name)
  {
    hide IsPart, Matches, SumSfn, IsShort;
    var p := if n < Parts(name) then n else Parts(name);
    var q := k - p;
    assert IsPart(t[q], name, k - q, sum);
    PartIsPart(t[q], name, p, sum, buf, up);
    assert PartOf(t[q], 0 + (k - q), 0 + (k - q) == n, sum, buf, up);
  }

  /** A name that is stored in front of the end of the table is found under every spelling in which only the case of
      letters differs, at its entry or one in front of it that has the name, too. */
  lemma StoredNameIsFound(t: Table, k: nat, name: seq<word>, key: Key, other: seq<word>, up: word -> word)
    requires StoredAt(t, k, name) && InFront(t, k) && GoodName(name) && KeyOk(key) && key.lfn.Some?
    requires Holds(key.lfn.value, other) && IsUpper(up)
    ensures SameName(name, other, up) && |name| < MAX_LFN ==> Find(t, key, up).Some? && Find(t, key, up).value <= k
    ensures Find(t, key, up) == Some(k) ==> ByShort(t[k], key) || (SameName(name, other, up) && |name| < MAX_LFN)
  {
    hide Carries, StoredAt, SameName, Holds, GoodName, IsUpper, FindFrom;
    StoredNameCarries(t, k, name, key, other, up);
    FindIsFirst(t, key, up, k);
    if SameName(name, other, up) && |name| < MAX_LFN {
      FirstExists(t, k, key, up);
    }
  }

  lemma {:induction false} FirstExists(t: Table, k: nat, key: Key, up: word -> word)
    requires KeyOk(key) && InFront(t, k) && Carries(t, k, key, up)
    ensures Find(t, key, up).Some? && Find(t, key, up).value <= k
    decreases k
  {
    hide Carries, FindFrom;
    if j: nat :| j < k && Carries(t, j, key, up) {
      FirstExists(t, j, key, up);
    } else {
      FindIsFirst(t, key, up, k);
    }
  }

  // ---------------------------------------------------------------- other names are found as before

  /** Every long-name entry is followed by an entry in use: no parts of a name without its short entry. */
  ghost predicate Tidy(t: Table) {
    forall k :: 0 <= k < |t| && !IsBlank(t[k]) && IsLong(t[k]) ==> k + 1 < |t| && !IsBlank(t[k + 1])
  }

  /** Two searches through the same entries, of which `t'` may have more that are unused: with no long name under way
      the last checksum does not matter. */
  lemma {:induction false} SumForgotten(t: Table, t': Table, k: nat, key: Key,
                                        up: word -> word, ord: byte, sum: byte, sum': byte)
    requires KeyOk(key) && |t| <= |t'| && (ord == NONE || sum == sum')
    requires forall i :: k <= i < |t'| ==> t'[i] == if i < |t| then t[i] else ZeroEntry()
    ensures FindFrom(t, k, key, up, ord, sum) == FindFrom(t', k, key, up, ord, sum')
    decreases |t| - k
  {
    hide Matches, SumSfn;
    if k < |t| && k < MAX_ENTRIES {
      var v, v' := Judge(t[k], key, up, ord, sum), Judge(t'[k], key, up, ord, sum');
      if v.GoOn? {
        SumForgotten(t, t', k + 1, key, up, v.ord, v.sum, v'.sum);
      }
    }
  }

  /** Before the registered entries both searches see the same; with a tidy table no long name is under way there. */
  lemma {:induction false} SearchesAgree(t: Table, t': Table, k: nat, first: nat, key: Key,
                                         up: word -> word, ord: byte, sum: byte)
    returns (done: bool, o: byte, s: byte)
    requires KeyOk(key) && k <= first <= |t| && first < |t'| && first < MAX_ENTRIES
    requires forall i :: 0 <= i < first ==> t[i] == t'[i] && t[i][0] != 0
    ensures done ==> FindFrom(t, k, key, up, ord, sum) == FindFrom(t', k, key, up, ord, sum)
    ensures !done ==> FindFrom(t, k, key, up, ord, sum) == FindFrom(t, first, key, up, o, s)
    ensures !done ==> FindFrom(t', k, key, up, ord, sum) == FindFrom(t', first, key, up, o, s)
    ensures !done && key.lfn.None? && ord == NONE ==> o == NONE
    ensures !done && (if k == first then ord == NONE else !IsLong(t[first - 1]) || IsBlank(t[first - 1])) ==> o == NONE
    decreases first - k
  {
    hide Matches, SumSfn;
    if k == first {
      done, o, s := false, ord, sum;
    } else {
      assert t[k] == t'[k];
      var v := Judge(t[k], key, up, ord, sum);
      done, o, s := true, ord, sum;
      if v.GoOn? {
        done, o, s := SearchesAgree(t, t', k + 1, first, key, up, v.ord, v.sum);
      }
    }
  }

  /** The search passes the parts of another name and its short entry, with no long name under way behind them. */
  lemma {:induction false} OtherPassed(t': Table, first: nat, ne: nat, j: nat, name: seq<word>, fn: seq<byte>, nt: byte,
                                       key: Key, up: word -> word, o: byte, s: byte)
    returns (s': byte)
    requires KeyOk(key) && (key.loss || key.fn != fn) && j < ne && first + ne <= |t'| && first + ne <= MAX_ENTRIES
    requires |fn| == SFN && fn[0] != 0 && fn[0] != DDE && t'[first + ne - 1] == ShortEntry(fn, nt)
    requires ne > 1 ==> ne == Parts(name) + 1 && GoodName(name)
    requires forall k :: first <= k < first + ne - 1 ==> IsPart(t'[k], name, first + ne - 1 - k, SumSfn(fn))
    requires key.lfn.Some? && ne > 1 ==> exists k :: first <= k < first + ne - 1 && !Matches(key.lfn.value, t'[k], up)
    requires key.lfn.None? || ne == 1 || j > 0 ==>
      o == NONE ||
      (o == ne - 1 - j && s == SumSfn(fn) && key.lfn.Some? && 0 < j &&
       forall k :: first <= k < first + j ==> Matches(key.lfn.value, t'[k], up))
    ensures FindFrom(t', first + j, key, up, o, s) == FindFrom(t', first + ne, key, up, NONE, s')
    decreases ne - j
  {
    hide IsPart, Matches, SumSfn;
    if j == ne - 1 {
      ShortIsShort(fn, nt);
      s' := s;
    } else {
      OtherPart(t'[first + j], name, ne - 1 - j, SumSfn(fn), key, up, o, s);
      var v := Judge(t'[first + j], key, up, o, s);
      s' := OtherPassed(t', first, ne, j + 1, name, fn, nt, key, up, v.ord, v.sum);
    }
  }

  /** One part of another name. */
  lemma OtherPart(e: DirEntry, name: seq<word>, ord: nat, sum: byte, key: Key, up: word -> word, o: byte, s: byte)
    requires KeyOk(key) && IsPart(e, name, ord, sum) && GoodName(name) && ord <= Parts(name)
    requires if key.lfn.None? then o == NONE else ord == Parts(name) || o == NONE || (o == ord && s == sum)
    ensures Judge(e, key, up, o, s).GoOn?
    ensures var v := Judge(e, key, up, o, s);
      v.ord == NONE ||
      (v.ord == ord - 1 && v.sum == sum && key.lfn.Some? && Matches(key.lfn.value, e, up) && (ord == Parts(name) || (o == ord && s == sum)))
  {
    hide Unit, Matches, Fillers, IsPart, GoodName, Parts, IsBlank, IsLong, IsLabel, IsEnd;
    PartHead(e, name, ord, sum);
  }

  /** The registered entries were unused: a search either ends there or passes them. */
  lemma {:induction false} BlanksPassed(t: Table, k: nat, hi: nat, key: Key, up: word -> word, ord: byte, sum: byte)
    requires KeyOk(key) && ZeroTerminated(t) && k <= hi <= MAX_ENTRIES && forall i :: k <= i < hi && i < |t| ==>
      IsBlank(t[i])
    ensures FindFrom(t, k, key, up, ord, sum) == if k == hi then FindFrom(t, hi, key, up, ord, sum) else FindFrom(t, hi, key, up, NONE, sum)
    decreases hi - k
  {
    hide Matches, SumSfn;
    if k < hi && k < |t| {
      if t[k][0] != 0 {
        BlanksPassed(t, k + 1, hi, key, up, NONE, sum);
      } else if hi < |t| {
        assert t[hi][0] == 0;
      }
    }
  }

  /** Registration of a name changes no search for another name. A name of 255 units is not found under its long name,
      either: it counts as another name for every search. */
  lemma OthersFoundAsBefore(t: Table, t': Table, first: nat, ne: nat, name: seq<word>, fn: seq<byte>, nt: byte,
                            key: Key, other: seq<word>, up: word -> word)
    requires |fn| == SFN && fn[0] != 0 && fn[0] != DDE && ZeroTerminated(t) && KeyOk(key) && IsUpper(up)
    requires Registered(t, t', first, ne, name, fn, nt)
    requires if ne == 1 then Tidy(t) else ne == Parts(name) + 1 && GoodName(name)
    requires key.loss || key.fn != fn
    requires key.lfn.Some? && ne > 1 ==> Holds(key.lfn.value, other) && !(SameName(name, other, up) && |name| < MAX_LFN)
    ensures Find(t', key, up) == Find(t, key, up)
  {
    hide IsPart, Matches, SumSfn, Judge, Holds, SameName;
    var done, o, s := SearchesAgree(t, t', 0, first, key, up, NONE, NONE);
    if !done {
      if key.lfn.Some? && ne > 1 {
        SomePartDiffers(t', first, name, SumSfn(fn), key.lfn.value, other, up);
      }
      var s' := OtherPassed(t', first, ne, 0, name, fn, nt, key, up, o, s);
      BlanksPassed(t, first, first + ne, key, up, o, s);
      SumForgotten(t, t', first + ne, key, up, NONE, s, s');
    }
  }

  /** Some part of another name does not match. */
  lemma SomePartDiffers(t': Table, first: nat, name: seq<word>, sum: byte, buf: seq<word>, other: seq<word>,
                        up: word -> word)
    requires GoodName(name) && Holds(buf, other) && IsUpper(up) && !(SameName(name, other, up) && |name| < MAX_LFN)
    requires first + Parts(name) <= |t'|
    requires forall k :: first <= k < first + Parts(name) ==> IsPart(t'[k], name, first + Parts(name) - k, sum)
    ensures exists k :: first <= k < first + Parts(name) && !Matches(buf, t'[k], up)
  {
    hide IsPart, Matches;
    var es := PartsInOrder(t', first, name, sum);
    LongNamesCompare(es, name, sum, buf, other, up);
    var k :| 0 <= k < |es| && !Matches(buf, es[k], up);
    assert es[k] == t'[first + (Parts(name) - 1 - k)];
  }

  // ---------------------------------------------------------------- short names in a table

  predicate IsNamed(e: DirEntry, fn: seq<byte>) {
    IsShort(e) && e[..SFN] == fn
  }

  /** An object in front of the end of the table has the short name. */
  ghost predicate HasShort(t: Table, fn: seq<byte>) {
    exists k: nat :: InFront(t, k) && IsNamed(t[k], fn)
  }

  /** No two objects of the table have the same short name. */
  ghost predicate ShortsDiffer(t: Table) {
    forall i, j :: 0 <= i < j < |t| && j < MAX_ENTRIES && IsShort(t[i]) && IsShort(t[j]) ==> t[i][..SFN] != t[j][..SFN]
  }

  /** What the code keeps of a directory: nothing behind its end, no parts without a short entry, no short name
      twice. */
  ghost predicate WellFormed(t: Table) {
    ZeroTerminated(t) && Tidy(t) && ShortsDiffer(t)
  }

  /** A search that fails has seen no object with the short name. */
  lemma NotFoundNotThere(t: Table, key: Key, up: word -> word)
    requires KeyOk(key) && !key.loss && Find(t, key, up) == None
    ensures !HasShort(t, key.fn)
  {
    hide Judge, FindFrom;
    if k: nat :| InFront(t, k) && IsNamed(t[k], key.fn) {
      FirstExists(t, k, key, up);
    }
  }

  /** dir_find for a short name alone decides whether an object has it. */
  lemma ShortSearchDecides(t: Table, fn: seq<byte>, up: word -> word)
    requires |fn| == SFN
    ensures Find(t, Key(fn, false, None), up).Some? <==> HasShort(t, fn)
  {
    hide Judge, FindFrom;
    var key := Key(fn, false, None);
    Decided(t, key, up);
    if Find(t, key, up) == None {
      NotFoundNotThere(t, key, up);
    }
  }

  /** A short name that does not stand for the name plays no part in the search. */
  lemma {:induction false} LossySearchIgnores(t: Table, k: nat, fn: seq<byte>, fn': seq<byte>, buf: Option<seq<word>>,
                                              up: word -> word, ord: byte, sum: byte)
    requires |fn| == |fn'| == SFN && (buf.Some? ==> |buf.value| == MAX_LFN + 1)
    ensures FindFrom(t, k, Key(fn, true, buf), up, ord, sum) == FindFrom(t, k, Key(fn', true, buf), up, ord, sum)
    decreases |t| - k
  {
    hide SumSfn, Matches;
    if k < |t| && k < MAX_ENTRIES {
      var v := Judge(t[k], Key(fn, true, buf), up, ord, sum);
      if v.GoOn? {
        LossySearchIgnores(t, k + 1, fn, fn', buf, up, v.ord, v.sum);
      }
    }
  }

  /** Registration under a new short name keeps the table well formed. */
  lemma RegisteredKeeps(t: Table, t': Table, first: nat, ne: nat, name: seq<word>, fn: seq<byte>, nt: byte)
    requires |fn| == SFN && fn[0] != 0 && fn[0] != DDE && ZeroTerminated(t)
    requires Registered(t, t', first, ne, name, fn, nt)
    ensures ZeroTerminated(t') && HasShort(t', fn) && InFront(t', first + ne - 1)
    ensures WellFormed(t) && !HasShort(t, fn) ==> WellFormed(t')
  {
    hide SumSfn, IsPart, ShortEntry, ZeroEntry, IsLong, IsLabel, Tidy, ShortsDiffer;
    RegisteredEntries(t, t', first, ne, name, fn, nt);
    var last := first + ne - 1;
    assert InFront(t', last);
    if WellFormed(t) && !HasShort(t, fn) {
      StaysTidy(t, t', first, ne, name, fn, nt);
      ShortsStillDiffer(t, t', first, ne, name, fn, nt);
    }
  }

  /** The entries that were written, and those that lie around them. */
  lemma RegisteredEntries(t: Table, t': Table, first: nat, ne: nat, name: seq<word>, fn: seq<byte>, nt: byte)
    requires |fn| == SFN && fn[0] != 0 && fn[0] != DDE && Registered(t, t', first, ne, name, fn, nt)
    ensures var last := first + ne - 1;
      IsNamed(t'[last], fn) && t'[last][0] != 0 && (forall k :: first <= k < last ==> !IsBlank(t'[k]) && IsLong(t'[k]))
    ensures forall k :: 0 <= k < |t'| && !(first <= k < first + ne) ==> if k < |t| then t'[k] == t[k] else t'[k][0] == 0
    ensures ZeroTerminated(t) ==> forall k :: 0 <= k < first ==> t'[k][0] != 0
  {
    hide SumSfn, ShortEntry, IsLabel;
    ShortIsShort(fn, nt);
    var last := first + ne - 1;
    forall k | first <= k < last ensures !IsBlank(t'[k]) && IsLong(t'[k]) {
      assert IsPart(t'[k], name, last - k, SumSfn(fn));
    }
  }

  lemma StaysTidy(t: Table, t': Table, first: nat, ne: nat, name: seq<word>, fn: seq<byte>, nt: byte)
    requires |fn| == SFN && fn[0] != 0 && fn[0] != DDE && Registered(t, t', first, ne, name, fn, nt) && Tidy(t)
    ensures Tidy(t')
  {
    hide SumSfn, IsPart, ShortEntry, ZeroEntry, IsLong, IsLabel;
    RegisteredEntries(t, t', first, ne, name, fn, nt);
  }

  lemma ShortsStillDiffer(t: Table, t': Table, first: nat, ne: nat, name: seq<word>, fn: seq<byte>, nt: byte)
    requires |fn| == SFN && fn[0] != 0 && fn[0] != DDE && Registered(t, t', first, ne, name, fn, nt)
    requires ZeroTerminated(t) && ShortsDiffer(t) && !HasShort(t, fn)
    ensures ShortsDiffer(t')
  {
    hide SumSfn, IsPart, ShortEntry, ZeroEntry, IsLong, IsLabel;
    RegisteredEntries(t, t', first, ne, name, fn, nt);
    var last := first + ne - 1;
    forall k | 0 <= k < |t'| && k < MAX_ENTRIES && k != last && IsShort(t'[k]) ensures k < |t| && t'[k] == t[k] && t[k][..SFN] != fn {
      assert k < |t| ==> InFront(t, k);
    }
  }

  // ---------------------------------------------------------------- the numbered short names

  const LAST_NUMBER := 99

  /** All the numbered short names for a long name are taken. */
  ghost predicate AllTaken(t: Table, sn: seq<byte>, name: seq<word>)
    requires |sn| == SFN
  {
    TakenBelow(t, sn, name, LAST_NUMBER + 1)
  }

  ghost predicate TakenBelow(t: Table, sn: seq<byte>, name: seq<word>, n: word)
    requires |sn| == SFN
  {
    forall m: word :: 1 <= m < n ==> HasShort(t, Numbered(sn, name, m))
  }

  /** The first of the numbered short names that is not taken. */
  ghost predicate FirstNumbered(t: Table, sn: seq<byte>, name: seq<word>, fn: seq<byte>)
    requires |sn| == SFN
  {
    !HasShort(t, fn) && exists n: word :: 1 <= n <= LAST_NUMBER && fn == Numbered(sn, name, n) && TakenBelow(t, sn, name, n)
  }

  /** Then the table is crowded: 94 of them stand in different entries. */
  lemma AllTakenIsCrowded(t: Table, sn: seq<byte>, name: seq<word>) returns (at: seq<nat>)
    requires |sn| == SFN && AllTaken(t, sn, name)
    ensures |at| == LAST_NUMBER - LAST_PLAIN
    ensures forall i :: 0 <= i < |at| ==> at[i] < |t| && IsNamed(t[at[i]], Numbered(sn, name, LAST_PLAIN + 1 + i))
    ensures forall i, j :: 0 <= i < j < |at| ==> at[i] != at[j]
  {
    hide Numbered, IsShort;
    at := seq<nat>(LAST_NUMBER - LAST_PLAIN,
      i requires 0 <= i < LAST_NUMBER - LAST_PLAIN => PlaceOf(t, Numbered(sn, name, LAST_PLAIN + 1 + i)));
    forall i | 0 <= i < |at| ensures 0 <= at[i] < |t| && IsNamed(t[at[i]], Numbered(sn, name, LAST_PLAIN + 1 + i)) {
      assert at[i] == PlaceOf(t, Numbered(sn, name, LAST_PLAIN + 1 + i));
    }
    forall i, j | 0 <= i < j < |at| ensures at[i] != at[j] {
      NumberedDiffer(sn, name, LAST_PLAIN + 1 + i, LAST_PLAIN + 1 + j);
    }
  }

  ghost function PlaceOf(t: Table, fn: seq<byte>): (k: nat)
    requires HasShort(t, fn)
    ensures k < |t| && IsNamed(t[k], fn)
  {
    var k: nat :| InFront(t, k) && IsNamed(t[k], fn); k
  }

  // ---------------------------------------------------------------- entries rewritten under their names

  /** Entries that differ, if at all, in fields outside the names of objects. */
  ghost predicate SameNames(t: Table, t': Table) {
    |t'| == |t| && forall k :: 0 <= k < |t| ==> t'[k] == t[k] || (IsShort(t[k]) && IsShort(t'[k]) && t'[k][..SFN] == t[k][..SFN])
  }

  /** Every search ends where it did. */
  lemma {:induction false} SameNamesFound(t: Table, t': Table, k: nat, key: Key, up: word -> word, ord: byte, sum: byte)
    requires KeyOk(key) && SameNames(t, t')
    ensures FindFrom(t', k, key, up, ord, sum) == FindFrom(t, k, key, up, ord, sum)
    decreases |t| - k
  {
    hide SumSfn, Matches;
    if k < |t| && k < MAX_ENTRIES {
      if t'[k] != t[k] {
        assert t'[k][0] == t'[k][..SFN][0] == t[k][..SFN][0] == t[k][0];
      }
      var v := Judge(t[k], key, up, ord, sum);
      assert Judge(t'[k], key, up, ord, sum) == v;
      if v.GoOn? {
        SameNamesFound(t, t', k + 1, key, up, v.ord, v.sum);
      }
    }
  }

  lemma SameNamesFind(t: Table, t': Table, key: Key, up: word -> word)
    requires KeyOk(key) && SameNames(t, t')
    ensures Find(t', key, up) == Find(t, key, up)
  {
    SameNamesFound(t, t', 0, key, up, NONE, NONE);
  }

  /** A well-formed table stays so. */
  lemma SameNamesWellFormed(t: Table, t': Table)
    requires SameNames(t, t') && WellFormed(t)
    ensures WellFormed(t')
  {
    forall k | 0 <= k < |t|
      ensures t'[k][0] == t[k][0] && t'[k][..SFN] == t[k][..SFN]
      ensures (IsShort(t'[k]) <==> IsShort(t[k]))
      ensures (!IsBlank(t'[k]) && IsLong(t'[k]) <==> !IsBlank(t[k]) && IsLong(t[k]))
    {
      assert t'[k][0] == t'[k][..SFN][0] && t[k][0] == t[k][..SFN][0];
    }
  }
}
