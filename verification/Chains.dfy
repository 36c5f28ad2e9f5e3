/** Cluster chains in a FAT seen as a sequence of entries: allocation, removal and the forest they keep. */
module Chains {
  import opened Bytes

  type Table = seq<nat>

  /** `ch` lists a complete chain: distinct clusters, each linking to the next, the last holding an end mark. */
  ghost predicate IsChain(fat: Table, ch: seq<nat>) {
    && ch != []
    && (forall i :: 0 <= i < |ch| ==> 2 <= ch[i] < |fat|)
    && (forall i :: 0 <= i < |ch| - 1 ==> fat[ch[i]] == ch[i + 1])
    && fat[ch[|ch| - 1]] >= |fat|
    && (forall i, j :: 0 <= i < j < |ch| ==> ch[i] != ch[j])
  }

  /** Every cluster of a chain is in use. */
  lemma OnChainUsed(fat: Table, ch: seq<nat>, c: nat)
    requires IsChain(fat, ch) && c in ch
    ensures 2 <= c < |fat| && fat[c] >= 2
  {
    var i :| 0 <= i < |ch| && ch[i] == c;
    if i < |ch| - 1 {
      assert fat[ch[i]] == ch[i + 1];
    }
  }

  lemma ChainLink(fat: Table, ch: seq<nat>, i: nat)
    requires IsChain(fat, ch) && i < |ch|
    ensures 2 <= ch[i] < |fat|
    ensures i + 1 < |ch| ==> fat[ch[i]] == ch[i + 1]
    ensures i + 1 == |ch| ==> fat[ch[i]] >= |fat|
  {
  }

  /** A free cluster is on no chain. */
  lemma NewIsElsewhere(fat: Table, ch: seq<nat>, r: nat)
    requires IsChain(fat, ch) && r < |fat| && fat[r] == 0
    ensures r !in ch
  {
    if r in ch {
      OnChainUsed(fat, ch, r);
    }
  }

  ghost function FreeSet(fat: Table): set<nat> {
    set c | 2 <= c < |fat| && fat[c] == 0
  }

  ghost function UsedSet(fat: Table): set<nat> {
    set c | 0 <= c < |fat| && fat[c] != 0
  }

  /** The free count the volume keeps is unknown or exact. */
  ghost predicate CountOk(fat: Table, count: dword) {
    count != 0xFFFF_FFFF ==> count == |FreeSet(fat)|
  }

  /** A free count that has changed is to be written to the FSInfo sector. */
  predicate Noted(count: dword, flag: bool, count': dword, flag': bool) {
    (flag ==> flag') && (count' != count ==> flag')
  }

  /** Zero entries among the first `k`, entries 0 and 1 included. */
  ghost function ZerosBelow(fat: Table, k: nat): (n: nat)
    requires k <= |fat|
    ensures n <= k
  {
    if k == 0 then 0 else ZerosBelow(fat, k - 1) + if fat[k - 1] == 0 then 1 else 0
  }

  ghost function FreeBelow(fat: Table, k: nat): set<nat>
    requires k <= |fat|
  {
    set c | 2 <= c < k && fat[c] == 0
  }

  /** Counting zero entries one by one gives the size of the free set, plus one for each zero among entries 0 and 1. */
  lemma {:induction false} ZerosCountFree(fat: Table, k: nat)
    requires 2 <= k <= |fat|
    ensures ZerosBelow(fat, k) == |FreeBelow(fat, k)| + ZerosBelow(fat, 2)
    ensures FreeBelow(fat, |fat|) == FreeSet(fat)
  {
    if k == 2 {
      assert FreeBelow(fat, 2) == {};
    } else {
      ZerosCountFree(fat, k - 1);
      assert FreeBelow(fat, k) == if fat[k - 1] == 0 then FreeBelow(fat, k - 1) + {k - 1} else FreeBelow(fat, k - 1);
    }
  }

  ghost predicate HasReserved(fat: Table) {
    exists c: nat :: 2 <= c < |fat| && fat[c] == 1
  }

  ghost predicate FirstReserved(fat: Table, c: nat) {
    2 <= c < |fat| && fat[c] == 1 && forall x :: 2 <= x < c ==> fat[x] != 1
  }

  /** f_getfree's scan of the table meets just the free clusters: on FAT12 none lies behind a reserved entry, where
      it stops; on the other types entries 0 and 1, which it counts, too, are in use. */
  ghost predicate ScanIsExact(fat12: bool, fat: Table)
    requires 2 <= |fat|
  {
    if fat12 then forall c, x :: 2 <= c < x < |fat| && fat[c] == 1 ==> fat[x] != 0
    else fat[0] != 0 && fat[1] != 0
  }

  /** The clusters in front of the first reserved entry are all the free ones if and only if none is free behind it. */
  lemma FreeBeforeReserved(fat: Table, c: nat)
    requires FirstReserved(fat, c)
    ensures |FreeBelow(fat, c)| == |FreeSet(fat)| <==> ScanIsExact(true, fat)
  {
    var behind := set x | c < x < |fat| && fat[x] == 0;
    assert FreeSet(fat) == FreeBelow(fat, c) + behind;
    assert behind == {} <==> ScanIsExact(true, fat) by {
      if behind == {} {
        forall r, x | 2 <= r < x < |fat| && fat[r] == 1 ensures fat[x] != 0 {
          assert x !in behind;
        }
      }
    }
  }

  /** A reserved entry in front of a free one: the scan of a FAT12 volume counts no free cluster. On a FAT16 volume,
      which has at least 4086 clusters, with entry 0 zero the scan counts one too many. */
  lemma WrongCountExamples()
    ensures var fat := [0xFF8, 0xFFF, 1, 0];
      FirstReserved(fat, 2) && |FreeBelow(fat, 2)| == 0 && |FreeSet(fat)| == 1 && !ScanIsExact(true, fat)
    ensures var fat := seq(4088, c => if c == 0 || c == 2 then 0 else 0xFFFF);
      ZerosBelow(fat, |fat|) == 2 && |FreeSet(fat)| == 1 && !ScanIsExact(false, fat)
  {
    var f: Table, g: Table := [0xFF8, 0xFFF, 1, 0], seq(4088, c => if c == 0 || c == 2 then 0 else 0xFFFF);
    assert FreeBelow(f, 2) == {} && FreeSet(f) == {3};
    assert f[2] == 1 && f[3] == 0;
    assert FreeSet(g) == {2} && g[0] == 0 && g[1] != 0;
    ZerosCountFree(g, |g|);
    assert ZerosBelow(g, 1) == 1 && ZerosBelow(g, 2) == 1;
  }

  // ---------------------------------------------------------------- allocation

  /** Cluster `x` comes before `r` in the cyclic search order that starts behind `scl`. */
  ghost predicate SearchedBefore(n: nat, scl: nat, r: nat, x: nat) {
    2 <= x < n && if scl < r then scl < x < r else scl < x || x < r
  }

  /** Where create_chain starts its search. */
  function SearchStart(n: nat, clst: nat, lastClust: nat): nat {
    if clst != 0 then clst else if lastClust == 0 || lastClust >= n then 1 else lastClust
  }

  /** `r` is the first free cluster behind `scl`, and no reserved entry comes before it. */
  ghost predicate FirstFree(fat: Table, scl: nat, r: nat) {
    && 2 <= r < |fat| && fat[r] == 0
    && forall x: nat :: SearchedBefore(|fat|, scl, r, x) ==> fat[x] >= 2
  }

  /** The search behind `scl` meets an entry of value 1 before any free one. */
  ghost predicate HitsReserved(fat: Table, scl: nat) {
    exists r: nat :: 2 <= r < |fat| && fat[r] == 1 && forall x: nat :: SearchedBefore(|fat|, scl, r, x) ==> fat[x] >= 2
  }

  lemma FirstFreeIsFree(fat: Table, scl: nat, r: nat)
    requires FirstFree(fat, scl, r)
    ensures 2 <= r < |fat| && fat[r] == 0
  {
  }

  ghost predicate NoneFree(fat: Table) {
    forall x: nat :: 2 <= x < |fat| ==> fat[x] >= 2
  }

  /** The table after `r` became the end of the chain that ended in `clst`, or a chain of its own if `clst` is 0. */
  function Linked(fat: Table, clst: nat, r: nat, mark: nat): (f: Table)
    requires r < |fat| && clst < |fat|
    ensures |f| == |fat|
  {
    if clst == 0 then fat[r := mark] else fat[r := mark][clst := r]
  }

  /** An allocated cluster leaves the free set, and nothing else does. */
  lemma LinkedTakesOne(fat: Table, clst: nat, r: nat, mark: nat)
    requires 2 <= r < |fat| && fat[r] == 0 && mark != 0
    requires clst == 0 || (2 <= clst < |fat| && fat[clst] != 0)
    ensures FreeSet(Linked(fat, clst, r, mark)) == FreeSet(fat) - {r}
    ensures |FreeSet(Linked(fat, clst, r, mark))| == |FreeSet(fat)| - 1
  {
    assert r in FreeSet(fat);
  }

  /** Stretching appends exactly the new cluster to the chain that ends in `clst`. */
  lemma LinkedStretches(fat: Table, ch: seq<nat>, r: nat, mark: nat)
    requires IsChain(fat, ch) && 2 <= r < |fat| && fat[r] == 0 && mark >= |fat|
    ensures IsChain(Linked(fat, ch[|ch| - 1], r, mark), ch + [r])
  {
    NewIsElsewhere(fat, ch, r);
  }

  /** A chain that does not end in the stretched cluster is untouched by an allocation. */
  lemma LinkedKeepsOthers(fat: Table, ch: seq<nat>, clst: nat, r: nat, mark: nat)
    requires IsChain(fat, ch) && 2 <= r < |fat| && fat[r] == 0 && clst < |fat| && clst !in ch
    ensures IsChain(Linked(fat, clst, r, mark), ch) && r !in ch
  {
    NewIsElsewhere(fat, ch, r);
    var fat' := Linked(fat, clst, r, mark);
    assert forall i :: 0 <= i < |ch| ==> ch[i] in ch && fat'[ch[i]] == fat[ch[i]];
  }

  /** From `fat` to `fat'` one chain grew from `ch` to `ch'` over clusters that were free; no other entry changed. */
  ghost predicate Grew(fat: Table, ch: seq<nat>, fat': Table, ch': seq<nat>) {
    && |fat'| == |fat| && ch <= ch'
    && (forall i :: |ch| <= i < |ch'| ==> ch'[i] < |fat| && fat[ch'[i]] == 0)
    && (forall c :: 0 <= c < |fat| && c !in ch' ==> fat'[c] == fat[c])
  }

  lemma GrewByOne(fat: Table, ch: seq<nat>, clst: nat, r: nat, mark: nat)
    requires r < |fat| && fat[r] == 0 && clst < |fat| && (if ch == [] then clst == 0 else clst in ch)
    ensures Grew(fat, ch, Linked(fat, clst, r, mark), ch + [r])
  {
  }

  lemma GrewNone(fat: Table, ch: seq<nat>)
    ensures Grew(fat, ch, fat, ch)
  {
  }

  lemma GrewTwice(fat0: Table, ch0: seq<nat>, fat1: Table, ch1: seq<nat>, fat2: Table, ch2: seq<nat>)
    requires Grew(fat0, ch0, fat1, ch1) && Grew(fat1, ch1, fat2, ch2)
    requires forall i, j :: 0 <= i < j < |ch2| ==> ch2[i] != ch2[j]
    ensures Grew(fat0, ch0, fat2, ch2)
  {
    forall i | |ch0| <= i < |ch2| ensures ch2[i] < |fat0| && fat0[ch2[i]] == 0 {
      if i >= |ch1| {
        assert ch2[i] !in ch1;
      } else {
        assert ch2[i] == ch1[i];
      }
    }
    forall c | 0 <= c < |fat0| && c !in ch2 ensures fat2[c] == fat0[c] {
      assert c !in ch1;
    }
  }

  /** Growing one chain leaves every chain disjoint from it as it was. */
  lemma GrewKeepsOthers(fat: Table, ch: seq<nat>, fat': Table, ch': seq<nat>, other: seq<nat>)
    requires Grew(fat, ch, fat', ch') && IsChain(fat, other) && forall c :: c in other ==> c !in ch
    ensures IsChain(fat', other) && forall c :: c in other ==> c !in ch'
  {
    forall c | c in other ensures c !in ch' && fat'[c] == fat[c] {
      OnChainUsed(fat, other, c);
    }
    assert forall i :: 0 <= i < |other| ==> other[i] in other && fat'[other[i]] == fat[other[i]];
  }

  /** Growth of a chain makes no reserved entry and removes none. */
  lemma GrewReserved(fat: Table, ch: seq<nat>, fat': Table, ch': seq<nat>)
    requires Grew(fat, ch, fat', ch') && (ch == [] || IsChain(fat, ch)) && (ch' == [] || IsChain(fat', ch'))
    ensures HasReserved(fat') <==> HasReserved(fat)
  {
    forall c | 2 <= c < |fat| && (fat[c] == 1 || fat'[c] == 1) ensures fat'[c] == fat[c] {
      if c in ch' {
        OnChainUsed(fat', ch', c);
        UsedOrFree(fat, ch, ch', c);
      }
    }
  }

  lemma UsedOrFree(fat: Table, ch: seq<nat>, ch': seq<nat>, c: nat)
    requires (ch == [] || IsChain(fat, ch)) && ch <= ch' && c in ch'
    requires forall i :: |ch| <= i < |ch'| ==> ch'[i] < |fat| && fat[ch'[i]] == 0
    ensures c < |fat| && fat[c] != 1
  {
    if c in ch {
      OnChainUsed(fat, ch, c);
    } else {
      var i :| 0 <= i < |ch'| && ch'[i] == c;
      assert i >= |ch|;
    }
  }

  // ---------------------------------------------------------------- removal

  datatype Removal = Removal(fat: Table, freed: set<nat>, res: FResult)

  /** What following and freeing the links from `c` on does to any table, whatever it holds. */
  ghost function RemoveFrom(fat: Table, c: nat): (r: Removal)
    ensures |r.fat| == |fat|
    ensures r.freed <= UsedSet(fat)
    ensures forall x :: 0 <= x < |fat| ==> r.fat[x] == if x in r.freed then 0 else fat[x]
    decreases UsedSet(fat)
  {
    if c >= |fat| || fat[c] == 0 then Removal(fat, {}, Ok)
    else if fat[c] == 1 then Removal(fat, {}, IntErr)
    else
      assert UsedSet(fat[c := 0]) == UsedSet(fat) - {c} && c in UsedSet(fat);
      var rest := RemoveFrom(fat[c := 0], fat[c]);
      Removal(rest.fat, rest.freed + {c}, rest.res)
  }

  /** One iteration of remove_chain. */
  lemma RemoveFromStep(fat: Table, c: nat)
    requires c < |fat| && fat[c] > 1
    ensures |UsedSet(fat[c := 0])| < |UsedSet(fat)|
    ensures var rest := RemoveFrom(fat[c := 0], fat[c]);
      RemoveFrom(fat, c) == Removal(rest.fat, rest.freed + {c}, rest.res)
    ensures 2 <= c ==> |FreeSet(fat[c := 0])| == |FreeSet(fat)| + 1
  {
    assert UsedSet(fat[c := 0]) == UsedSet(fat) - {c} && c in UsedSet(fat);
    if 2 <= c {
      assert FreeSet(fat[c := 0]) == FreeSet(fat) + {c};
    }
  }

  lemma RemoveFromStop(fat: Table, c: nat)
    requires c >= |fat| || fat[c] <= 1
    ensures RemoveFrom(fat, c) == Removal(fat, {}, if c < |fat| && fat[c] == 1 then IntErr else Ok)
  {
  }

  lemma ChainNotEmpty(fat: Table, ch: seq<nat>)
    requires IsChain(fat, ch)
    ensures ch != []
  {
  }

  lemma TailIsChain(fat: Table, ch: seq<nat>)
    requires IsChain(fat, ch)
    ensures ch != [] && ch[0] < |fat| && fat[ch[0]] > 1
    ensures |ch| > 1 ==> fat[ch[0]] == ch[1] && IsChain(fat[ch[0] := 0], ch[1..])
    ensures |ch| == 1 ==> fat[ch[0]] >= |fat|
  {
    if |ch| > 1 {
      assert 2 <= ch[1];
    }
  }

  /** Removing a chain from its head zeroes exactly that chain. */
  lemma {:induction false} RemoveFromChain(fat: Table, ch: seq<nat>)
    requires IsChain(fat, ch)
    ensures ch != [] && var r := RemoveFrom(fat, ch[0]); r.res == Ok && r.freed == (set c | c in ch)
    decreases |ch|
  {
    hide RemoveFrom, UsedSet, FreeSet, IsChain;
    ChainNotEmpty(fat, ch);
    TailIsChain(fat, ch);
    var fat' := fat[ch[0] := 0];
    RemoveFromStep(fat, ch[0]);
    if |ch| == 1 {
      RemoveFromStop(fat', fat[ch[0]]);
      assert (set c | c in ch) == {ch[0]};
    } else {
      var tail := ch[1..];
      RemoveFromChain(fat', tail);
      assert (set c | c in ch) == (set c | c in tail) + {ch[0]};
    }
  }

  /** `path` follows links from `c`. */
  ghost predicate Follows(fat: Table, c: nat, path: seq<nat>) {
    && path != [] && path[0] == c
    && (forall i :: 0 <= i < |path| ==> path[i] < |fat|)
    && (forall i :: 0 <= i < |path| - 1 ==> fat[path[i]] == path[i + 1])
  }

  /** Whatever the table holds, even cycles and cross-links, removal only frees what its links reach. */
  lemma {:induction false} RemoveFromReaches(fat: Table, c: nat, x: nat)
    requires x in RemoveFrom(fat, c).freed
    ensures exists path :: Follows(fat, c, path) && path[|path| - 1] == x
  {
    var path := ReachedBy(fat, c, x);
  }

  lemma {:induction false} ReachedBy(fat: Table, c: nat, x: nat) returns (path: seq<nat>)
    requires x in RemoveFrom(fat, c).freed
    ensures Follows(fat, c, path) && path[|path| - 1] == x
    ensures forall i :: 0 <= i < |path| ==> path[i] in RemoveFrom(fat, c).freed
    decreases UsedSet(fat)
  {
    if x == c {
      path := [c];
    } else {
      var fat' := fat[c := 0];
      assert UsedSet(fat') == UsedSet(fat) - {c} && c in UsedSet(fat);
      var p := ReachedBy(fat', fat[c], x);
      assert forall i :: 0 <= i < |p| ==> p[i] in UsedSet(fat') && p[i] != c;
      path := [c] + p;
    }
  }

  /** Every freed cluster joins the free set, and no other. */
  lemma RemoveFromFrees(fat: Table, c: nat)
    requires 2 <= c
    ensures var r := RemoveFrom(fat, c);
      FreeSet(r.fat) == FreeSet(fat) + r.freed && FreeSet(fat) !! r.freed &&
      |FreeSet(r.fat)| == |FreeSet(fat)| + |r.freed|
  {
    var r := RemoveFrom(fat, c);
    FreedInRange(fat, c);
  }

  lemma FreedInRange(fat: Table, c: nat)
    requires 2 <= c
    ensures forall x :: x in RemoveFrom(fat, c).freed ==> 2 <= x
    decreases UsedSet(fat)
  {
    if c < |fat| && fat[c] > 1 {
      assert UsedSet(fat[c := 0]) == UsedSet(fat) - {c} && c in UsedSet(fat);
      FreedInRange(fat[c := 0], fat[c]);
    }
  }

  // ---------------------------------------------------------------- the forest

  ghost predicate Disjoint(a: seq<nat>, b: seq<nat>) {
    forall c :: c in a ==> c !in b
  }

  ghost predicate PairwiseDisjoint(chains: set<seq<nat>>) {
    forall a, b :: a in chains && b in chains && a != b ==> Disjoint(a, b)
  }

  /** The used clusters are exactly those of a set of pairwise disjoint complete chains. */
  ghost predicate Forest(fat: Table, chains: set<seq<nat>>) {
    && (forall ch :: ch in chains ==> IsChain(fat, ch))
    && PairwiseDisjoint(chains)
    && (forall c :: 2 <= c < |fat| && fat[c] != 0 ==> exists ch :: ch in chains && c in ch)
  }

  /** In a forest no entry below the end mark is reserved. */
  lemma ForestHasNoReserved(fat: Table, chains: set<seq<nat>>, c: nat)
    requires Forest(fat, chains) && 2 <= c < |fat|
    ensures fat[c] != 1
  {
    if fat[c] != 0 {
      var ch :| ch in chains && c in ch;
      OnChainUsed(fat, ch, c);
    }
  }

  lemma ForestUnreserved(fat: Table, chains: set<seq<nat>>)
    requires Forest(fat, chains)
    ensures !HasReserved(fat)
  {
    forall c: nat | 2 <= c < |fat| ensures fat[c] != 1 {
      ForestHasNoReserved(fat, chains, c);
    }
  }

  /** A forest stays one when one of its chains grows, or a new one begins. */
  lemma GrewKeepsForest(fat: Table, chains: set<seq<nat>>, ch: seq<nat>, fat': Table, ch': seq<nat>)
    requires Forest(fat, chains) && Grew(fat, ch, fat', ch') && IsChain(fat', ch') && (ch == [] || ch in chains)
    ensures Forest(fat', chains - {ch} + {ch'})
  {
    hide IsChain;
    var after := chains - {ch} + {ch'};
    forall o | o in chains - {ch} ensures IsChain(fat', o) && Disjoint(o, ch') && Disjoint(ch', o) {
      assert ch != [] ==> Disjoint(o, ch);
      GrewKeepsOthers(fat, ch, fat', ch', o);
    }
    forall c | 2 <= c < |fat'| && fat'[c] != 0 ensures exists o :: o in after && c in o {
      if c in ch' {
        assert ch' in after;
      } else {
        var o :| o in chains && c in o;
        assert o in after;
      }
    }
  }

  /** The calls the file system makes: a new chain, a chain stretched at its tail, a chain removed from its head. */
  datatype Call = Create | Stretch(ch: seq<nat>) | Remove(ch: seq<nat>)

  ghost predicate Legal(call: Call, chains: set<seq<nat>>) {
    call.Create? || call.ch in chains
  }

  /** The chains after a call that allocated `r` (0 when the disk is full) or removed a chain. */
  function ChainsAfter(chains: set<seq<nat>>, call: Call, r: nat): set<seq<nat>> {
    match call
    case Create => if r == 0 then chains else chains + {[r]}
    case Stretch(ch) => if r == 0 then chains else chains - {ch} + {ch + [r]}
    case Remove(ch) => chains - {ch}
  }

  /** What a call may do to the table; `r` is the cluster it allocated, 0 if none. */
  ghost predicate Effect(fat: Table, call: Call, r: nat, mark: nat, fat': Table)
    requires call.Create? || IsChain(fat, call.ch)
  {
    match call
    case Create => if r == 0 then NoneFree(fat) && fat' == fat
                   else r < |fat| && 2 <= r && fat[r] == 0 && fat' == Linked(fat, 0, r, mark)
    case Stretch(ch) => if r == 0 then NoneFree(fat) && fat' == fat
                        else r < |fat| && 2 <= r && fat[r] == 0 && fat' == Linked(fat, ch[|ch| - 1], r, mark)
    case Remove(ch) => fat' == RemoveFrom(fat, ch[0]).fat
  }

  /** One call keeps the forest: it changes only the chain it names. */
  lemma CallKeepsForest(fat: Table, chains: set<seq<nat>>, call: Call, r: nat, mark: nat, fat': Table)
    requires Forest(fat, chains) && Legal(call, chains) && mark >= |fat|
    requires Effect(fat, call, r, mark, fat')
    ensures |fat'| == |fat| && Forest(fat', ChainsAfter(chains, call, r))
  {
    hide RemoveFrom, Linked, Forest, NoneFree, IsChain;
    ForestHasChain(fat, chains, call);
    match call
    case Create => if r != 0 { CreateKeepsForest(fat, chains, r, mark); }
    case Stretch(ch) => if r != 0 { StretchKeepsForest(fat, chains, ch, r, mark); }
    case Remove(ch) => RemoveKeepsForest(fat, chains, ch);
  }

  lemma ForestHasChain(fat: Table, chains: set<seq<nat>>, call: Call)
    requires Forest(fat, chains) && Legal(call, chains)
    ensures !call.Create? ==> IsChain(fat, call.ch) && call.ch != []
  {
  }

  lemma CreateKeepsForest(fat: Table, chains: set<seq<nat>>, r: nat, mark: nat)
    requires Forest(fat, chains) && mark >= |fat| && 2 <= r < |fat| && fat[r] == 0
    ensures Forest(Linked(fat, 0, r, mark), chains + {[r]})
  {
    var fat' := Linked(fat, 0, r, mark);
    var after := chains + {[r]};
    assert IsChain(fat', [r]);
    hide IsChain;
    forall ch | ch in chains ensures IsChain(fat', ch) && Disjoint(ch, [r]) && Disjoint([r], ch) {
      ZeroOffChain(fat, ch);
      LinkedKeepsOthers(fat, ch, 0, r, mark);
    }
    forall c | 2 <= c < |fat'| && fat'[c] != 0 ensures exists ch :: ch in after && c in ch {
      if c == r {
        assert [r] in after && r in [r];
      } else {
        var ch :| ch in chains && c in ch;
        assert ch in after;
      }
    }
  }

  lemma ZeroOffChain(fat: Table, ch: seq<nat>)
    requires IsChain(fat, ch)
    ensures 0 !in ch
  {
  }

  lemma StretchKeepsForest(fat: Table, chains: set<seq<nat>>, grown: seq<nat>, r: nat, mark: nat)
    requires Forest(fat, chains) && grown in chains && mark >= |fat| && 2 <= r < |fat| && fat[r] == 0
    ensures Forest(Linked(fat, grown[|grown| - 1], r, mark), chains - {grown} + {grown + [r]})
  {
    var tail := grown[|grown| - 1];
    assert tail < |fat| && fat[tail] != 0 && tail in grown;
    var fat' := Linked(fat, tail, r, mark);
    var longer := grown + [r];
    LinkedStretches(fat, grown, r, mark);
    StretchCovers(fat, chains, grown, r, mark);
    hide IsChain;
    forall ch | ch in chains - {grown} ensures IsChain(fat', ch) && r !in ch {
      assert Disjoint(grown, ch);
      LinkedKeepsOthers(fat, ch, tail, r, mark);
    }
    StretchKeepsDisjoint(chains, grown, r);
  }

  lemma StretchKeepsDisjoint(chains: set<seq<nat>>, grown: seq<nat>, r: nat)
    requires PairwiseDisjoint(chains) && grown in chains
    requires forall ch :: ch in chains - {grown} ==> r !in ch
    ensures PairwiseDisjoint(chains - {grown} + {grown + [r]})
  {
    var longer := grown + [r];
    var after := chains - {grown} + {longer};
    forall a, b | a in after && b in after && a != b ensures Disjoint(a, b) {
      if a == longer {
        assert Disjoint(grown, b);
      } else if b == longer {
        assert Disjoint(a, grown);
      }
    }
  }

  lemma StretchCovers(fat: Table, chains: set<seq<nat>>, grown: seq<nat>, r: nat, mark: nat)
    requires Forest(fat, chains) && grown in chains && mark >= |fat| && 2 <= r < |fat| && fat[r] == 0
    ensures var fat' := Linked(fat, grown[|grown| - 1], r, mark);
      forall c :: 2 <= c < |fat'| && fat'[c] != 0 ==> exists ch :: ch in chains - {grown} + {grown + [r]} && c in ch
  {
    var tail := grown[|grown| - 1];
    var fat' := Linked(fat, tail, r, mark);
    assert tail < |fat| && fat[tail] != 0;
    LinkedUses(fat, tail, r, mark);
    hide IsChain, Linked;
    forall c | 2 <= c < |fat'| && fat'[c] != 0 ensures exists ch :: ch in chains - {grown} + {grown + [r]} && c in ch {
      StretchedCover(chains, grown, r, c);
    }
  }

  lemma LinkedUses(fat: Table, tail: nat, r: nat, mark: nat)
    requires tail < |fat| && r < |fat| && fat[tail] != 0
    ensures |Linked(fat, tail, r, mark)| == |fat|
    ensures forall c :: 0 <= c < |fat| && Linked(fat, tail, r, mark)[c] != 0 ==> c == r || fat[c] != 0
  {
  }

  lemma StretchedCover(chains: set<seq<nat>>, grown: seq<nat>, r: nat, c: nat)
    requires grown in chains && (c == r || exists ch :: ch in chains && c in ch)
    ensures exists ch :: ch in chains - {grown} + {grown + [r]} && c in ch
  {
    var longer := grown + [r];
    if c == r || c in grown {
      assert longer in chains - {grown} + {longer} && c in longer;
    } else {
      var ch :| ch in chains && c in ch;
      assert ch in chains - {grown} + {longer};
    }
  }

  lemma RemoveKeepsForest(fat: Table, chains: set<seq<nat>>, gone: seq<nat>)
    requires Forest(fat, chains) && gone in chains
    ensures Forest(RemoveFrom(fat, gone[0]).fat, chains - {gone})
  {
    hide RemoveFrom, IsChain, Disjoint, PairwiseDisjoint;
    RemoveFromChain(fat, gone);
    var r := RemoveFrom(fat, gone[0]);
    FewerDisjoint(chains, gone);
    RemovalCovers(fat, r.fat, chains, gone, r.freed);
    forall ch | ch in chains - {gone} ensures IsChain(r.fat, ch) {
      RemovalKeepsOthers(fat, r.fat, ch, gone, r.freed);
    }
  }

  lemma FewerDisjoint(chains: set<seq<nat>>, gone: seq<nat>)
    requires PairwiseDisjoint(chains) && gone in chains
    ensures PairwiseDisjoint(chains - {gone}) && forall ch :: ch in chains - {gone} ==> Disjoint(ch, gone)
  {
    hide Disjoint;
  }

  lemma RemovalCovers(fat: Table, fat': Table, chains: set<seq<nat>>, gone: seq<nat>, freed: set<nat>)
    requires Forest(fat, chains) && gone in chains && |fat'| == |fat| && freed == (set c | c in gone)
    requires forall x :: 0 <= x < |fat| ==> fat'[x] == if x in freed then 0 else fat[x]
    ensures forall c :: 2 <= c < |fat'| && fat'[c] != 0 ==> exists ch :: ch in chains - {gone} && c in ch
  {
    hide IsChain, PairwiseDisjoint;
    forall c | 2 <= c < |fat'| && fat'[c] != 0 ensures exists ch :: ch in chains - {gone} && c in ch {
      var ch :| ch in chains && c in ch;
      assert ch in chains - {gone} && c in ch;
    }
  }

  lemma RemovalKeepsOthers(fat: Table, fat': Table, ch: seq<nat>, gone: seq<nat>, freed: set<nat>)
    requires IsChain(fat, ch) && |fat'| == |fat| && Disjoint(ch, gone) && freed == (set c | c in gone)
    requires forall x :: 0 <= x < |fat| ==> fat'[x] == if x in freed then 0 else fat[x]
    ensures IsChain(fat', ch)
  {
    assert forall i :: 0 <= i < |ch| ==> ch[i] in ch && fat'[ch[i]] == fat[ch[i]];
  }

  /** In a forest the allocation search never meets a reserved entry. */
  lemma SearchMeetsNoReserved(fat: Table, chains: set<seq<nat>>, scl: nat)
    requires Forest(fat, chains)
    ensures !HitsReserved(fat, scl)
  {
    hide Forest;
    forall r: nat | 2 <= r < |fat| ensures fat[r] != 1 {
      ForestHasNoReserved(fat, chains, r);
    }
  }

  /** The last cluster of the chain a call stretches, 0 for a new chain. */
  function TailOfCall(call: Call): nat
    requires call.Create? || (call.Stretch? && call.ch != [])
  {
    if call.Create? then 0 else call.ch[|call.ch| - 1]
  }

  /** What the allocation search may end with, and the table it leaves. */
  ghost predicate SearchOutcome(fat: Table, scl: nat, clst: nat, r: nat, mark: nat, fat': Table)
    requires clst < |fat|
  {
    if r == 0 then NoneFree(fat) && fat' == fat
    else if r == 1 then HitsReserved(fat, scl) && fat' == fat
    else FirstFree(fat, scl, r) && fat' == Linked(fat, clst, r, mark)
  }

  /** In a forest whatever the search ends with is a legal step of a run. */
  lemma SearchIsStep(fat: Table, chains: set<seq<nat>>, call: Call, scl: nat, r: nat, mark: nat, fat': Table)
    requires Forest(fat, chains) && Legal(call, chains) && !call.Remove? && mark >= |fat| > 0
    requires (call.Stretch? ==> call.ch != []) && TailOfCall(call) < |fat|
    requires SearchOutcome(fat, scl, TailOfCall(call), r, mark, fat')
    ensures r != 1 && (call.Create? || IsChain(fat, call.ch)) && Effect(fat, call, r, mark, fat')
    ensures Forest(fat', ChainsAfter(chains, call, r))
  {
    hide Forest, HitsReserved, IsChain, NoneFree, Linked, SearchedBefore, RemoveFrom;
    SearchMeetsNoReserved(fat, chains, scl);
    ForestHasChain(fat, chains, call);
    CallKeepsForest(fat, chains, call, r, mark, fat');
  }

  /** One step of a run: the call, the cluster it allocated and the table it left. */
  datatype Step = Step(call: Call, r: nat, fat: Table)

  /** A run of legal calls from a table with the given chains. */
  ghost predicate Run(fat: Table, chains: set<seq<nat>>, mark: nat, steps: seq<Step>)
    requires Forest(fat, chains) && mark >= |fat|
    decreases |steps|
  {
    steps == [] ||
    var s := steps[0];
    && Legal(s.call, chains)
    && Effect(fat, s.call, s.r, mark, s.fat)
    && (CallKeepsForest(fat, chains, s.call, s.r, mark, s.fat);
        Run(s.fat, ChainsAfter(chains, s.call, s.r), mark, steps[1..]))
  }

  function ChainsAtEnd(chains: set<seq<nat>>, steps: seq<Step>): set<seq<nat>>
    decreases |steps|
  {
    if steps == [] then chains
    else ChainsAtEnd(ChainsAfter(chains, steps[0].call, steps[0].r), steps[1..])
  }

  /** After any run the table is a forest of exactly the chains the calls account for. */
  lemma {:induction false} RunKeepsForest(fat: Table, chains: set<seq<nat>>, mark: nat, steps: seq<Step>)
    requires Forest(fat, chains) && mark >= |fat| && Run(fat, chains, mark, steps)
    ensures var end := if steps == [] then fat else steps[|steps| - 1].fat;
      |end| == |fat| && Forest(end, ChainsAtEnd(chains, steps))
    decreases |steps|
  {
    hide Effect, Forest, IsChain, Linked, RemoveFrom, NoneFree;
    if steps != [] {
      var s := steps[0];
      CallKeepsForest(fat, chains, s.call, s.r, mark, s.fat);
      RunKeepsForest(s.fat, ChainsAfter(chains, s.call, s.r), mark, steps[1..]);
    }
  }
}
