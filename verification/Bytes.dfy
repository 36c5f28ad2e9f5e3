/** Bytes, sectors and the little-endian word access macros of the FAT module. */
module Bytes {

  type byte = x: int | 0 <= x < 0x100
  type word = x: int | 0 <= x < 0x1_0000
  type dword = x: int | 0 <= x < 0x1_0000_0000

  const WRAP := 0x1_0000_0000
  const SECTOR_SIZE := 512

  // Directory entries: their size, the lengths of long and of short names, and the first byte of a deleted one
  const SZ_DIR := 32
  const MAX_LFN := 255
  const SFN := 11
  const DDE: byte := 0xE5

  datatype Option<T> = None | Some(value: T)

  type Sector = s: seq<byte> | |s| == SECTOR_SIZE witness seq(SECTOR_SIZE, _ => 0)

  /** A physical drive: its sectors in order. */
  type Disk = seq<Sector>

  function Zeros(): Sector {
    seq(SECTOR_SIZE, _ => 0)
  }

  function LdWord(s: seq<byte>, i: nat): word
    requires i + 1 < |s|
  {
    s[i] as int + 0x100 * (s[i + 1] as int)
  }

  function LdDword(s: seq<byte>, i: nat): dword
    requires i + 3 < |s|
  {
    s[i] as int + 0x100 * (s[i + 1] as int) + 0x1_0000 * (s[i + 2] as int) + 0x100_0000 * (s[i + 3] as int)
  }

  function StWord(s: seq<byte>, i: nat, v: nat): (r: seq<byte>)
    requires i + 1 < |s|
    ensures |r| == |s|
  {
    s[i := v % 0x100][i + 1 := v / 0x100 % 0x100]
  }

  function StDword(s: seq<byte>, i: nat, v: nat): (r: seq<byte>)
    requires i + 3 < |s|
    ensures |r| == |s|
  {
    s[i := v % 0x100][i + 1 := v / 0x100 % 0x100][i + 2 := v / 0x1_0000 % 0x100][i + 3 := v / 0x100_0000 % 0x100]
  }

  /** Bytes `[at, at + |piece|)` of `s` replaced by `piece`. */
  function Splice<T>(s: seq<T>, at: nat, piece: seq<T>): (r: seq<T>)
    requires at + |piece| <= |s|
    ensures |r| == |s|
  {
    s[..at] + piece + s[at + |piece|..]
  }

  lemma SpliceSplice<T>(s: seq<T>, at: nat, p: seq<T>, q: seq<T>)
    requires at + |p| + |q| <= |s|
    ensures Splice(Splice(s, at, p), at + |p|, q) == Splice(s, at, p + q)
  {
  }

  lemma SpliceInside<T>(s: seq<T>, at: nat, p: seq<T>, off: nat, q: seq<T>)
    requires at + |p| <= |s| && off + |q| <= |p|
    ensures Splice(Splice(s, at, p), at + off, q) == Splice(s, at, Splice(p, off, q))
  {
  }

  lemma SplicePrefix<T>(s: seq<T>, at: nat, p: seq<T>)
    requires at + |p| <= |s|
    ensures Splice(s, at, p)[..at + |p|] == s[..at] + p
    ensures at == 0 ==> Splice(s, at, p)[..|p|] == p
  {
  }

  /** The unsigned 32-bit test `t - s < n` finds out whether `t` is among the `n` sectors from `s` on. */
  lemma UnsignedDistance(t: nat, s: nat, n: nat)
    requires t < 0x1_0000_0000 && s + n <= 0x1_0000_0000
    ensures (t - s) % 0x1_0000_0000 < n <==> s <= t < s + n
  {
    if t < s {
      Remainder(t - s, 0x1_0000_0000, -1, t - s + 0x1_0000_0000);
    }
  }

  lemma WordRoundTrip(s: seq<byte>, i: nat, v: nat)
    requires i + 1 < |s|
    ensures LdWord(StWord(s, i, v), i) == v % 0x1_0000
  {
    Digits(v);
  }

  lemma StWordElsewhere(s: seq<byte>, i: nat, v: nat, k: nat)
    requires i + 1 < |s| && k < |s| && !(i <= k < i + 2)
    ensures StWord(s, i, v)[k] == s[k]
  {
  }

  lemma StDwordElsewhere(s: seq<byte>, i: nat, v: nat, k: nat)
    requires i + 3 < |s| && k < |s| && !(i <= k < i + 4)
    ensures StDword(s, i, v)[k] == s[k]
  {
  }

  /** A store leaves what lies beside it as it was. */
  lemma StoresBeside(s: seq<byte>, i: nat, v: nat, k: nat)
    requires i + 3 < |s| && k + 3 < |s|
    ensures k + 4 <= i || i + 2 <= k ==> LdDword(StWord(s, i, v), k) == LdDword(s, k)
    ensures k + 2 <= i || i + 2 <= k ==> LdWord(StWord(s, i, v), k) == LdWord(s, k)
    ensures k + 4 <= i || i + 4 <= k ==> LdDword(StDword(s, i, v), k) == LdDword(s, k)
    ensures k + 2 <= i || i + 4 <= k ==> LdWord(StDword(s, i, v), k) == LdWord(s, k)
  {
  }

  lemma WordStoreBehind(s: seq<byte>, i: nat, v: nat, k: nat)
    requires k + 4 <= i && i + 1 < |s|
    ensures LdDword(StWord(s, i, v), k) == LdDword(s, k)
  {
  }

  lemma DwordRoundTrip(s: seq<byte>, i: nat, v: nat)
    requires i + 3 < |s|
    ensures LdDword(StDword(s, i, v), i) == v % 0x1_0000_0000
  {
    Digits(v);
  }

  /** The byte digits of a number rebuild it modulo 2^16 and 2^32. */
  lemma Digits(v: nat)
    ensures v % 0x100 + 0x100 * (v / 0x100 % 0x100) == v % 0x1_0000
    ensures v % 0x1_0000 + 0x1_0000 * (v / 0x1_0000 % 0x100) + 0x100_0000 * (v / 0x100_0000 % 0x100) == v % 0x1_0000_0000
  {
    Digit(v, 0x100, 0x100);
    Digit(v, 0x1_0000, 0x100);
    Digit(v, 0x100_0000, 0x100);
  }

  /** The next digit, in radix `radix`, above the digits below `base`. */
  lemma Digit(v: nat, base: nat, radix: nat)
    requires 0 < base && 0 < radix
    ensures 0 < radix * base
    ensures v % base + base * (v / base % radix) == v % (radix * base)
  {
    var q := v / base;
    var lo, hi := v % base + base * (q % radix), q / radix;
    calc {
      v;
      base * q + v % base;
      { assert q == radix * hi + q % radix; }
      base * (radix * hi + q % radix) + v % base;
      { Distribute(base, radix * hi, q % radix); }
      base * (radix * hi) + lo;
      { Associate(base, radix, hi); }
      radix * base * hi + lo;
    }
    MulMono(base, q % radix + 1, radix);
    Remainder(v, radix * base, hi, lo);
  }

  lemma Distribute(a: int, x: int, y: int)
    ensures a * (x + y) == a * x + a * y
  {
  }

  lemma Associate(a: int, x: int, y: int)
    ensures a * (x * y) == x * a * y
  {
  }

  /** Quotient and remainder are unique. */
  lemma Remainder(v: int, d: int, q: int, r: int)
    requires 0 <= r < d && v == d * q + r
    ensures v / d == q && v % d == r
  {
    QuotientAtLeast(v, d, q);
    if v / d >= q + 1 {
      MulMono(d, q + 1, v / d);
    }
  }

  lemma QuotientAtLeast(v: int, d: int, q: int)
    requires 0 < d && d * q <= v
    ensures q <= v / d
  {
    if v / d <= q - 1 {
      MulMono(d, v / d, q - 1);
    }
  }

  /** Rounding down to a multiple of `d` keeps order. */
  lemma RoundDownBelow(a: int, b: int, d: int)
    requires 0 < d && 0 <= a && 0 <= b && a / d >= b / d
    ensures 0 <= b / d * d <= a
  {
    MulMono(d, b / d, a / d);
    MulMono(d, 0, b / d);
  }

  lemma MulMono(d: int, a: int, b: int)
    requires 0 <= d && a <= b
    ensures d * a <= d * b
  {
  }

  /** `n` is a power of two: what `n & (n - 1)` tells for n > 0. */
  predicate IsPowerOfTwo(n: nat) {
    n == 1 || (n > 1 && n % 2 == 0 && IsPowerOfTwo(n / 2))
  }

  lemma {:induction false} SmallPowers(n: nat)
    requires IsPowerOfTwo(n) && n < 0x1_0000
    ensures n in {1, 2, 4, 8, 16, 32, 64, 128, 256, 512, 1024, 2048, 4096, 8192, 16384, 32768}
  {
    if n > 1 {
      SmallPowers(n / 2);
    }
  }

  lemma {:induction false} PowersAre(n: nat)
    requires n in {1, 2, 4, 8, 16, 32, 64, 128, 256, 512, 1024, 2048, 4096, 8192, 16384, 32768}
    ensures IsPowerOfTwo(n)
  {
    if n > 1 {
      PowersAre(n / 2);
    }
  }

  /** The bit test on a byte singles out the powers of two. */
  lemma BitTest(x: bv8)
    requires x != 0
    ensures x & (x - 1) == 0 <==> x == 1 || x == 2 || x == 4 || x == 8 || x == 16 || x == 32 || x == 64 || x == 128
  {
  }

  /** Copies `piece` into `a` from index `at` on, as mem_cpy does. */
  method CopyInto<T>(a: array<T>, at: nat, piece: seq<T>)
    requires at + |piece| <= a.Length
    modifies a
    ensures a[..] == Splice(old(a[..]), at, piece)
  {
    var i := 0;
    while i < |piece|
      invariant i <= |piece|
      invariant forall k :: 0 <= k < a.Length ==> a[k] == if at <= k < at + i then piece[k - at] else old(a[k])
    {
      a[at + i] := piece[i];
      i := i + 1;
    }
  }

  /** Fills all of `a` with `v`, as mem_set does. */
  method Fill<T>(a: array<T>, v: T)
    modifies a
    ensures forall i :: 0 <= i < a.Length ==> a[i] == v
  {
    for i := 0 to a.Length
      invariant forall j :: 0 <= j < i ==> a[j] == v
    {
      a[i] := v;
    }
  }

  datatype FResult =
    | Ok
    | DiskErr
    | IntErr
    | NotReady
    | NoFile
    | InvalidName
    | Denied
    | Exist
    | InvalidParameter
    | NoFilesystem
    | MkfsAborted
    | NotEnoughCore
}
