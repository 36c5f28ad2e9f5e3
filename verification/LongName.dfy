/** Long file names cut into directory entries of 13 units each, and put together or compared again. */
module LongNames {
  import opened Bytes

  const PART := 13                 // units per entry
  const LLE := 0x40                // marks the entry with the end of the name
  const AM_LFN := 0x0F
  const LDIR_ORD := 0
  const LDIR_ATTR := 11
  const LDIR_TYPE := 12
  const LDIR_CHKSUM := 13
  const LDIR_FST_CLUS_LO := 26
  const FILLER: word := 0xFFFF

  const LFN_OFS := [1, 3, 5, 7, 9, 14, 16, 18, 20, 22, 24, 28, 30]

  type DirEntry = e: seq<byte> | |e| == SZ_DIR witness seq(SZ_DIR, _ => 0)

  function Unit(e: DirEntry, s: nat): word
    requires s < PART
  {
    LdWord(e, LFN_OFS[s])
  }

  predicate IsEnd(e: DirEntry) {
    e[LDIR_ORD] / LLE % 2 == 1
  }

  /** Where the units of an entry belong in the name: 13 for each order number; an order of 0 wraps to the far end. */
  function StartOf(order: nat): nat {
    (order - 1) * PART % 0x1_0000_0000
  }

  /** Index of the first zero unit from the `s`-th on, 13 if there is none. */
  function ZeroFrom(e: DirEntry, s: nat): (z: nat)
    requires s <= PART
    ensures s <= z <= PART && (z < PART ==> Unit(e, z) == 0)
    decreases PART - s
  {
    if s == PART || Unit(e, s) == 0 then s else ZeroFrom(e, s + 1)
  }

  lemma {:induction false} NoZeroBefore(e: DirEntry, s: nat, k: nat)
    requires s <= PART && s <= k < ZeroFrom(e, s)
    ensures k < PART && Unit(e, k) != 0
    decreases k - s
  {
    if s < k {
      NoZeroBefore(e, s + 1, k);
    }
  }

  ghost predicate Fillers(e: DirEntry) {
    forall s :: ZeroFrom(e, 0) < s < PART ==> Unit(e, s) == FILLER
  }

  // ---------------------------------------------------------------- storing

  /** Unit `k` of a stored name: the name, a zero, and fillers. */
  function Stored(name: seq<word>, k: nat): word {
    if k < |name| then name[k] else if k == |name| then 0 else FILLER
  }

  /** Number of entries for a name. */
  function Parts(name: seq<word>): nat {
    (|name| + PART - 1) / PART
  }

  /** Entry number `ord` of a stored name. */
  ghost predicate IsPart(e: DirEntry, name: seq<word>, ord: nat, sum: byte) {
    && 1 <= ord < LLE
    && e[LDIR_ORD] == (if ord * PART >= |name| then ord + LLE else ord)
    && e[LDIR_ATTR] == AM_LFN && e[LDIR_TYPE] == 0 && e[LDIR_CHKSUM] == sum && LdWord(e, LDIR_FST_CLUS_LO) == 0
    && forall s :: 0 <= s < PART ==> Unit(e, s) == Stored(name, (ord - 1) * PART + s)
  }

  /** A name with no unit that the format reserves. */
  ghost predicate GoodName(name: seq<word>) {
    1 <= |name| <= MAX_LFN && forall k :: 0 <= k < |name| ==> name[k] != 0 && name[k] != FILLER
  }

  /** Storing units 0 to s of an entry one by one. */
  lemma UnitsApart(e: DirEntry, s: nat, t: nat, v: word)
    requires s < PART && t < PART
    ensures Unit(StWord(e, LFN_OFS[s], v), t) == if s == t then v else Unit(e, t)
  {
    Digits(v);
  }

  lemma OtherFields(e: DirEntry, s: nat, v: word)
    requires s < PART
    ensures var w := StWord(e, LFN_OFS[s], v);
      w[LDIR_ORD] == e[LDIR_ORD] && w[LDIR_ATTR] == e[LDIR_ATTR] && w[LDIR_TYPE] == e[LDIR_TYPE] &&
      w[LDIR_CHKSUM] == e[LDIR_CHKSUM] &&
      LdWord(w, LDIR_FST_CLUS_LO) == LdWord(e, LDIR_FST_CLUS_LO)
  {
  }

  lemma OrderApart(e: DirEntry, x: byte, t: nat)
    requires t < PART
    ensures Unit(e[LDIR_ORD := x], t) == Unit(e, t)
    ensures LdWord(e[LDIR_ORD := x], LDIR_FST_CLUS_LO) == LdWord(e, LDIR_FST_CLUS_LO)
  {
  }

  lemma ClusterApart(e: DirEntry)
    ensures var w := StWord(e, LDIR_FST_CLUS_LO, 0);
      w[LDIR_ATTR] == e[LDIR_ATTR] && w[LDIR_TYPE] == e[LDIR_TYPE] && w[LDIR_CHKSUM] == e[LDIR_CHKSUM] &&
      LdWord(w, LDIR_FST_CLUS_LO) == 0
  {
  }

  /** fit_lfn: a directory entry filled with part `ord` of the zero-terminated name in `buf`. */
  method FitLfn(buf: array<word>, e: DirEntry, ord: byte, sum: byte, ghost name: seq<word>) returns (d: DirEntry)
    requires buf.Length == MAX_LFN + 1 && GoodName(name) && buf[..|name|] == name && buf[|name|] == 0
    requires 1 <= ord <= Parts(name)
    ensures IsPart(d, name, ord, sum)
  {
    hide LdWord, StWord, Unit;
    d := e[LDIR_CHKSUM := sum][LDIR_ATTR := AM_LFN][LDIR_TYPE := 0];
    ClusterApart(d);
    d := StWord(d, LDIR_FST_CLUS_LO, 0);
    var last;
    d, last := FitUnits(buf, d, ord, name);
    var order: byte := if last then ord + LLE else ord;
    ghost var units := d;
    d := d[LDIR_ORD := order];
    OrderApart(units, order, 0);
    forall t | 0 <= t < PART ensures Unit(d, t) == Stored(name, (ord as int - 1) * PART + t) {
      OrderApart(units, order, t);
    }
  }

  /** fit_lfn, the loop: the 13 units, and whether the name ends in this part. */
  method FitUnits(buf: array<word>, e: DirEntry, ord: byte, ghost name: seq<word>) returns (d: DirEntry, last: bool)
    requires buf.Length == MAX_LFN + 1 && GoodName(name) && buf[..|name|] == name && buf[|name|] == 0
    requires 1 <= ord <= Parts(name)
    ensures forall t :: 0 <= t < PART ==> Unit(d, t) == Stored(name, (ord as int - 1) * PART + t)
    ensures d[LDIR_CHKSUM] == e[LDIR_CHKSUM] && d[LDIR_ATTR] == e[LDIR_ATTR] && d[LDIR_TYPE] == e[LDIR_TYPE]
    ensures LdWord(d, LDIR_FST_CLUS_LO) == LdWord(e, LDIR_FST_CLUS_LO)
    ensures last == (ord as int * PART >= |name|)
  {
    hide LdWord, StWord, Unit;
    d := e;
    var i: nat, s: nat, wc: word := (ord as int - 1) * PART, 0, 0;
    ghost var start := i;
    while s < PART
      invariant s <= PART
      invariant d[LDIR_CHKSUM] == e[LDIR_CHKSUM] && d[LDIR_ATTR] == e[LDIR_ATTR] && d[LDIR_TYPE] == e[LDIR_TYPE]
      invariant LdWord(d, LDIR_FST_CLUS_LO) == LdWord(e, LDIR_FST_CLUS_LO)
      invariant forall t :: 0 <= t < s ==> Unit(d, t) == Stored(name, start + t)
      invariant if wc == FILLER then start + s > |name| else i == start + s <= |name|
    {
      if wc != FILLER {
        wc := buf[i];
        assert i < |name| ==> buf[..|name|][i] == name[i];
        i := i + 1;
      }
      forall t | 0 <= t < PART ensures Unit(StWord(d, LFN_OFS[s], wc), t) == if s == t then wc else Unit(d, t) {
        UnitsApart(d, s, t, wc);
      }
      OtherFields(d, s, wc);
      d := StWord(d, LFN_OFS[s], wc);
      if wc == 0 {
        wc := FILLER;
      }
      s := s + 1;
    }
    last := wc == FILLER || buf[i] == 0;
    if wc != FILLER && i < |name| {
      assert buf[..|name|][i] == name[i];
    }
  }

  // ---------------------------------------------------------------- reading back

  /** The units an entry holds, its zero included. */
  function Units(e: DirEntry): (u: seq<word>)
    ensures |u| == if ZeroFrom(e, 0) < PART then ZeroFrom(e, 0) + 1 else PART
    ensures forall s :: 0 <= s < |u| ==> u[s] == Unit(e, s)
  {
    var n := if ZeroFrom(e, 0) < PART then ZeroFrom(e, 0) + 1 else PART;
    seq(n, s requires 0 <= s < n => Unit(e, s))
  }

  /** The entry fits the buffer: its units, and behind the end of the name a terminator. */
  ghost predicate Pickable(e: DirEntry) {
    && Fillers(e)
    && StartOf(e[LDIR_ORD] % LLE) + |Units(e)| + (if IsEnd(e) then 1 else 0) <= MAX_LFN
  }

  /** The name buffer after an entry was picked. */
  ghost function Picked(buf: seq<word>, e: DirEntry): (r: seq<word>)
    requires |buf| == MAX_LFN + 1 && Pickable(e)
    ensures |r| == |buf|
  {
    var start, u := StartOf(e[LDIR_ORD] % LLE), Units(e);
    var b := Splice(buf, start, u);
    if IsEnd(e) then b[start + |u| := 0] else b
  }

  /** pick_lfn: the units of an entry go to their place in the name buffer, unless they would overflow it or the entry
      holds something else than fillers behind its zero. */
  method PickLfn(buf: array<word>, e: DirEntry) returns (ok: bool)
    requires buf.Length == MAX_LFN + 1
    modifies buf
    ensures ok == Pickable(e)
    ensures ok ==> buf[..] == Picked(old(buf[..]), e)
  {
    hide Unit, Splice, ZeroFrom, Units;
    ghost var b, u, start := buf[..], Units(e), StartOf(e[LDIR_ORD] % LLE);
    EmptySplice(b, if start <= |b| then start else 0, u);
    var i: nat, s: nat, wc: word := (e[LDIR_ORD] as int % LLE - 1) * PART % 0x1_0000_0000, 0, 1;
    while s < PART
      invariant s <= PART && (wc == 0 <==> s > ZeroFrom(e, 0))
      invariant forall t :: ZeroFrom(e, 0) < t < s ==> Unit(e, t) == FILLER
      invariant i == start + if s <= |u| then s else |u|
      invariant s > 0 ==> i <= MAX_LFN
      invariant if i <= MAX_LFN then buf[..] == Splice(b, start, u[..i - start]) else buf[..] == b
    {
      var uc := Unit(e, s);
      if wc != 0 {
        if i >= MAX_LFN {
          return false;
        }
        if s < ZeroFrom(e, 0) {
          NoZeroBefore(e, 0, s);
        }
        SpliceNext(b, start, u, s);
        buf[i] := uc;
        i := i + 1;
        wc := uc;
      } else if uc != FILLER {
        return false;
      }
      s := s + 1;
    }
    assert u[..|u|] == u;
    if e[LDIR_ORD] / LLE % 2 == 1 {
      if i >= MAX_LFN {
        return false;
      }
      buf[i] := 0;
    }
    ok := true;
  }

  lemma EmptySplice(b: seq<word>, start: nat, u: seq<word>)
    requires start <= |b|
    ensures Splice(b, start, u[..0]) == b
  {
  }

  lemma SpliceNext(b: seq<word>, start: nat, u: seq<word>, s: nat)
    requires s < |u| && start + s < |b|
    ensures Splice(b, start, u[..s])[start + s := u[s]] == Splice(b, start, u[..s + 1])
  {
  }

  lemma {:induction false} ZeroIs(e: DirEntry, s: nat, z: nat)
    requires s <= z <= PART && (forall k :: s <= k < z ==> Unit(e, k) != 0) && (z < PART ==> Unit(e, z) == 0)
    ensures ZeroFrom(e, s) == z
    decreases z - s
  {
    if s < z {
      ZeroIs(e, s + 1, z);
    }
  }

  /** The head of a part of a stored name. */
  lemma PartOrder(e: DirEntry, name: seq<word>, ord: nat, sum: byte)
    requires IsPart(e, name, ord, sum) && GoodName(name) && ord <= Parts(name)
    ensures e[LDIR_ORD] % LLE == ord && StartOf(ord) == (ord - 1) * PART < |name| && IsEnd(e) == (ord * PART >= |name|)
  {
    hide Unit;
  }

  /** A part of a stored name, read back unit by unit. */
  lemma PartUnits(e: DirEntry, name: seq<word>, ord: nat, sum: byte)
    requires IsPart(e, name, ord, sum) && GoodName(name) && ord <= Parts(name)
    ensures var start := (ord - 1) * PART;
      e[LDIR_ORD] % LLE == ord && StartOf(ord) == start < |name| && IsEnd(e) == (ord * PART >= |name|) && Fillers(e) &&
      ZeroFrom(e, 0) == (if ord * PART <= |name| then PART else |name| - start) &&
      Units(e) == if ord * PART <= |name| then name[start..ord * PART] else name[start..] + [0]
  {
    hide Unit, ZeroFrom, Units, StartOf, IsEnd;
    PartOrder(e, name, ord, sum);
    var start := (ord - 1) * PART;
    var z := if ord * PART <= |name| then PART else |name| - start;
    assert forall k :: 0 <= k < z ==> Unit(e, k) == name[start + k];
    ZeroIs(e, 0, z);
    var u, v := Units(e), if ord * PART <= |name| then name[start..ord * PART] else name[start..] + [0];
    forall s | 0 <= s < |u| ensures u[s] == v[s] {
      assert Unit(e, s) == Stored(name, start + s);
    }
  }

  /** Every part of a stored name can be picked up again, except the last one of a name of 254 or 255 units. */
  lemma PartPickable(e: DirEntry, name: seq<word>, ord: nat, sum: byte)
    requires IsPart(e, name, ord, sum) && GoodName(name) && ord <= Parts(name)
    ensures Pickable(e) <==> ord < Parts(name) || |name| <= MAX_LFN - 2
  {
    hide Unit, IsPart, Fillers;
    PartUnits(e, name, ord, sum);
  }

  /** The entries of a stored name in order of their numbers; on the drive the last one comes first. */
  ghost predicate StoredName(es: seq<DirEntry>, name: seq<word>, sum: byte) {
    |es| == Parts(name) && forall k :: 0 <= k < |es| ==> IsPart(es[k], name, k + 1, sum)
  }

  /** What picking the entries from the `k`-th down to the first leaves in the buffer; [] when one of them is
      refused. */
  ghost function PickDown(buf: seq<word>, es: seq<DirEntry>, k: nat): seq<word>
    requires |buf| == MAX_LFN + 1 && k <= |es|
    decreases k
  {
    if k == 0 then buf
    else if Pickable(es[k - 1]) then PickDown(Picked(buf, es[k - 1]), es, k - 1)
    else []
  }

  lemma {:induction false} PickRest(buf: seq<word>, es: seq<DirEntry>, name: seq<word>, sum: byte, k: nat)
    requires |buf| == MAX_LFN + 1 && StoredName(es, name, sum) && GoodName(name) && |name| <= MAX_LFN - 2 && k <= |es|
    requires k < |es| ==> buf[k * PART..|name|] == name[k * PART..] && buf[|name|] == 0
    ensures var r := PickDown(buf, es, k); |r| == |buf| && r[..|name|] == name && r[|name|] == 0
    decreases k
  {
    hide Unit, Fillers, IsPart, Pickable, Picked;
    if k > 0 {
      PartPickable(es[k - 1], name, k, sum);
      var b := Picked(buf, es[k - 1]);
      PickedPart(buf, es[k - 1], name, k, sum);
      PickRest(b, es, name, sum, k - 1);
    }
  }

  lemma PickedPart(buf: seq<word>, e: DirEntry, name: seq<word>, ord: nat, sum: byte)
    requires |buf| == MAX_LFN + 1 && IsPart(e, name, ord, sum) && GoodName(name) && ord <= Parts(name) && Pickable(e)
    requires ord < Parts(name) ==> buf[ord * PART..|name|] == name[ord * PART..] && buf[|name|] == 0
    ensures |name| < |buf|
    ensures var r := Picked(buf, e); r[(ord - 1) * PART..|name|] == name[(ord - 1) * PART..] && r[|name|] == 0
  {
    hide Unit, Fillers, IsPart, Picked, Units, Pickable, StartOf, IsEnd, ZeroFrom;
    PartUnits(e, name, ord, sum);
    var start, r := (ord - 1) * PART, Picked(buf, e);
    var last := ord * PART >= |name|;
    PickableEnd(e);
    assert last ==> |name| < |buf|;
    forall k | start <= k <= |name| ensures r[k] == if k < |name| then name[k] else 0 {
      PickedAt(buf, e, k);
      if !last && k < |name| && k >= ord * PART {
        assert buf[ord * PART..|name|][k - ord * PART] == name[ord * PART..][k - ord * PART];
      }
    }
  }

  lemma PickableEnd(e: DirEntry)
    requires Pickable(e)
    ensures StartOf(e[LDIR_ORD] % LLE) + |Units(e)| + (if IsEnd(e) then 1 else 0) <= MAX_LFN
  {
  }

  lemma PickedAt(buf: seq<word>, e: DirEntry, k: nat)
    requires |buf| == MAX_LFN + 1 && Pickable(e) && k < |buf|
    ensures var start, u := StartOf(e[LDIR_ORD] % LLE), Units(e);
      Picked(buf, e)[k] == if start <= k < start + |u| then u[k - start] else if IsEnd(e) && k == start + |u| then 0 else buf[k]
  {
    hide Units, StartOf, IsEnd;
  }

  /** Long names round-trip: the entries of a name of at most 253 units give it back, whatever the buffer held
      before; those of a longer name are refused. */
  lemma LongNameRoundTrip(buf: seq<word>, es: seq<DirEntry>, name: seq<word>, sum: byte)
    requires |buf| == MAX_LFN + 1 && StoredName(es, name, sum) && GoodName(name)
    ensures |name| <= MAX_LFN - 2 <==> PickDown(buf, es, |es|) != []
    ensures |name| <= MAX_LFN - 2 ==> var r := PickDown(buf, es, |es|); |r| == |buf| && r[..|name|] == name && r[|name|] == 0
  {
    hide IsPart, Pickable, Picked;
    if |name| <= MAX_LFN - 2 {
      PickRest(buf, es, name, sum, |es|);
    } else {
      PartPickable(es[|es| - 1], name, |es|, sum);
    }
  }

  // ---------------------------------------------------------------- comparing

  /** Upper-casing of a unit: the zero, and no other unit, stays zero. */
  ghost predicate IsUpper(up: word -> word) {
    up(0) == 0 && forall c :: up(c) == 0 ==> c == 0
  }

  lemma UpperZero(up: word -> word, c: word)
    requires IsUpper(up)
    ensures up(c) == 0 <==> c == 0
  {
  }

  function CompareStart(e: DirEntry): nat {
    StartOf(if IsEnd(e) then e[LDIR_ORD] - LLE else e[LDIR_ORD])
  }

  /** Unit `s` of the entry agrees with the name in the buffer. */
  ghost predicate Agrees(buf: seq<word>, e: DirEntry, up: word -> word, s: nat)
    requires |buf| == MAX_LFN + 1 && s < PART
  {
    CompareStart(e) + s < MAX_LFN && up(Unit(e, s)) == up(buf[CompareStart(e) + s])
  }

  /** The entry agrees with the zero-terminated name in the buffer. */
  ghost predicate Matches(buf: seq<word>, e: DirEntry, up: word -> word)
    requires |buf| == MAX_LFN + 1
  {
    && (forall s :: 0 <= s <= ZeroFrom(e, 0) && s < PART ==> Agrees(buf, e, up, s))
    && Fillers(e)
    && (IsEnd(e) && ZeroFrom(e, 0) == PART ==> CompareStart(e) + PART <= MAX_LFN && buf[CompareStart(e) + PART] == 0)
  }

  /** cmp_lfn */
  method CmpLfn(buf: array<word>, e: DirEntry, up: word -> word) returns (same: bool)
    requires buf.Length == MAX_LFN + 1 && IsUpper(up)
    ensures same == Matches(buf[..], e, up)
  {
    hide Unit, IsUpper, CompareStart, ZeroFrom;
    ghost var start, z := CompareStart(e), ZeroFrom(e, 0);
    var i: nat, s: nat, wc: word := CompareStart(e), 0, 1;
    while s < PART
      invariant s <= PART && (wc == 0 <==> s > z) && i == start + (if s <= z then s else z + 1)
      invariant forall t :: 0 <= t <= z && t < s ==> Agrees(buf[..], e, up, t)
      invariant forall t :: z < t < s ==> Unit(e, t) == FILLER
    {
      var uc := Unit(e, s);
      if wc != 0 {
        if s < z {
          NoZeroBefore(e, 0, s);
        }
        UpperZero(up, uc);
        wc := up(uc);
        if i >= MAX_LFN || wc != up(buf[i]) {
          assert !Agrees(buf[..], e, up, s);
          return false;
        }
        i := i + 1;
      } else if uc != FILLER {
        return false;
      }
      s := s + 1;
    }
    assert z == PART ==> Agrees(buf[..], e, up, PART - 1);
    if e[LDIR_ORD] / LLE % 2 == 1 && wc != 0 && buf[i] != 0 {
      return false;
    }
    same := true;
  }

  /** Two names are equal up to case. */
  ghost predicate SameName(a: seq<word>, b: seq<word>, up: word -> word) {
    |a| == |b| && forall k :: 0 <= k < |a| ==> up(a[k]) == up(b[k])
  }

  /** The buffer holds a zero-terminated name; what lies behind the zero does not matter. */
  ghost predicate Holds(buf: seq<word>, key: seq<word>) {
    |buf| == MAX_LFN + 1 && |key| <= MAX_LFN && buf[..|key|] == key && buf[|key|] == 0 && forall k :: 0 <= k < |key| ==> key[k] != 0
  }

  /** What it means that one part matches. */
  lemma PartMatches(e: DirEntry, name: seq<word>, ord: nat, sum: byte, buf: seq<word>, up: word -> word)
    requires IsPart(e, name, ord, sum) && GoodName(name) && ord <= Parts(name) && |buf| == MAX_LFN + 1 && IsUpper(up)
    ensures Matches(buf, e, up) <==>
      (forall k :: (ord - 1) * PART <= k < ord * PART && k < |name| ==> up(name[k]) == up(buf[k])) &&
      (ord * PART >= |name| ==> |name| < MAX_LFN && buf[|name|] == 0)
  {
    hide Unit, Fillers, IsUpper, Agrees, CompareStart, IsPart;
    PartUnits(e, name, ord, sum);
    PartStart(e, name, ord, sum);
    var start, z := (ord - 1) * PART, ZeroFrom(e, 0);
    forall s | 0 <= s <= z && s < PART
      ensures Agrees(buf, e, up, s) <==>
        if start + s < |name| then up(name[start + s]) == up(buf[start + s]) else |name| < MAX_LFN && buf[|name|] == 0
    {
      UnitAgrees(e, name, ord, sum, buf, up, s);
    }
    if Matches(buf, e, up) {
      forall k | start <= k < ord * PART && k < |name| ensures up(name[k]) == up(buf[k]) {
        assert Agrees(buf, e, up, k - start);
      }
      if ord * PART > |name| {
        assert Agrees(buf, e, up, |name| - start);
      }
    }
  }

  lemma PartStart(e: DirEntry, name: seq<word>, ord: nat, sum: byte)
    requires IsPart(e, name, ord, sum) && GoodName(name) && ord <= Parts(name)
    ensures CompareStart(e) == (ord - 1) * PART
  {
    hide Unit, Fillers;
    PartUnits(e, name, ord, sum);
  }

  lemma UnitAgrees(e: DirEntry, name: seq<word>, ord: nat, sum: byte, buf: seq<word>, up: word -> word, s: nat)
    requires IsPart(e, name, ord, sum) && GoodName(name) && ord <= Parts(name) && |buf| == MAX_LFN + 1 && IsUpper(up)
    requires s < PART
    requires (ord - 1) * PART + s <= |name|
    ensures var k := (ord - 1) * PART + s;
      Agrees(buf, e, up, s) <==> if k < |name| then up(name[k]) == up(buf[k]) else |name| < MAX_LFN && buf[|name|] == 0
  {
    hide Unit, IsUpper, CompareStart;
    PartStart(e, name, ord, sum);
    UpperZero(up, 0);
    if (ord - 1) * PART + s == |name| {
      UpperZero(up, buf[|name|]);
    }
  }

  /** All entries of a stored name match the searched one if and only if the two are equal up to case; a stored name
      of 255 units is never found. */
  lemma LongNamesCompare(es: seq<DirEntry>, name: seq<word>, sum: byte, buf: seq<word>, key: seq<word>,
                         up: word -> word)
    requires StoredName(es, name, sum) && GoodName(name) && Holds(buf, key) && IsUpper(up)
    ensures (forall k :: 0 <= k < |es| ==> Matches(buf, es[k], up)) <==> SameName(name, key, up) && |name| < MAX_LFN
  {
    hide IsPart, Matches;
    forall k | 0 <= k < |es|
      ensures Matches(buf, es[k], up) <==>
        (forall i :: k * PART <= i < (k + 1) * PART && i < |name| ==> up(name[i]) == up(buf[i])) &&
        ((k + 1) * PART >= |name| ==> |name| < MAX_LFN && buf[|name|] == 0)
    {
      PartMatches(es[k], name, k + 1, sum, buf, up);
    }
    if forall k :: 0 <= k < |es| ==> Matches(buf, es[k], up) {
      assert Matches(buf, es[|es| - 1], up);
      forall i | 0 <= i < |name| ensures up(name[i]) == up(buf[i]) && buf[i] != 0 {
        assert Matches(buf, es[i / PART], up);
      }
      SameLength(buf, key, |name|);
      assert forall i :: 0 <= i < |key| ==> buf[i] == buf[..|key|][i];
    }
    if SameName(name, key, up) && |name| < MAX_LFN {
      assert forall i :: 0 <= i < |key| ==> buf[i] == buf[..|key|][i];
    }
  }

  /** The first zero of the buffer ends the name. */
  lemma SameLength(buf: seq<word>, key: seq<word>, n: nat)
    requires Holds(buf, key) && n < |buf| && buf[n] == 0 && forall i :: 0 <= i < n ==> buf[i] != 0
    ensures |key| == n
  {
    assert forall i :: 0 <= i < |key| ==> buf[i] == buf[..|key|][i] == key[i];
  }
}
