/** Numbered short names: the short names under which long names outside the 8.3 form are stored. */
module NumberedNames {
  import opened Bytes
  import S = ShortNames

  const TILDE: byte := 0x7E
  const LAST_PLAIN := 5            // numbers above are mixed with the long name

  /** First byte of a double-byte character, code page 932. */
  predicate IsLead(c: byte) {
    0x81 <= c <= 0x9F || 0xE0 <= c <= 0xFC
  }

  // ---------------------------------------------------------------- the number

  /** A rotation to the right, and a unit of the name added. */
  function Mix(n: word, u: word): word {
    (n / 2 + n % 2 * 0x8000 + u) % 0x1_0000
  }

  function Hash(n: word, name: seq<word>): word {
    if name == [] then n else Mix(Hash(n, name[..|name| - 1]), name[|name| - 1])
  }

  /** The number that stands in the `n`-th short name for a long name. */
  function Number(n: word, name: seq<word>): word {
    if n > LAST_PLAIN then Hash(n, name) else n
  }

  /** Different numbers stay different, whatever name they are mixed with. */
  lemma {:induction false} HashKeepsApart(m: word, n: word, name: seq<word>)
    requires m != n
    ensures Hash(m, name) != Hash(n, name)
  {
    if name != [] {
      HashKeepsApart(m, n, name[..|name| - 1]);
      MixKeepsApart(Hash(m, name[..|name| - 1]), Hash(n, name[..|name| - 1]), name[|name| - 1]);
    }
  }

  lemma MixKeepsApart(m: word, n: word, u: word)
    requires m != n
    ensures Mix(m, u) != Mix(n, u)
  {
    var x, y := m / 2 + m % 2 * 0x8000, n / 2 + n % 2 * 0x8000;
    assert x != y && 0 <= x < 0x1_0000 && 0 <= y < 0x1_0000;
    assert Mix(m, u) == if x + u < 0x1_0000 then x + u else x + u - 0x1_0000;
    assert Mix(n, u) == if y + u < 0x1_0000 then y + u else y + u - 0x1_0000;
  }

  /** The left shift of the code drops all but the lowest bit. */
  lemma MixShifts(n: word, u: word)
    ensures (n / 2 + n as int * 0x8000 + u) % 0x1_0000 == Mix(n, u)
  {
    var whole := n / 2 * 0x1_0000;
    assert n as int * 0x8000 == whole + n % 2 * 0x8000;
    Remainder(n / 2 + n as int * 0x8000 + u, 0x1_0000, n / 2 + (n / 2 + n % 2 * 0x8000 + u) / 0x1_0000, Mix(n, u));
  }

  function HexDigit(d: nat): byte
    requires d < 16
  {
    if d < 10 then 0x30 + d else 0x37 + d
  }

  function Hex(n: nat): seq<byte> {
    if n < 16 then [HexDigit(n)] else Hex(n / 16) + [HexDigit(n % 16)]
  }

  function DigitValue(c: byte): int {
    if c <= 0x39 then c - 0x30 else c - 0x37
  }

  function HexValue(s: seq<byte>): int {
    if s == [] then 0 else HexValue(s[..|s| - 1]) * 16 + DigitValue(s[|s| - 1])
  }

  lemma {:induction false} HexReadsBack(n: nat)
    ensures HexValue(Hex(n)) == n
    ensures forall k :: 0 <= k < |Hex(n)| ==> Hex(n)[k] != TILDE && Hex(n)[k] != S.SPACE
  {
    if n >= 16 {
      HexReadsBack(n / 16);
      assert Hex(n)[..|Hex(n)| - 1] == Hex(n / 16);
    }
  }

  lemma HexLength(n: word)
    ensures 1 <= |Hex(n)| <= 4
  {
    var a := n / 16;
    var b := a / 16;
    var c := b / 16;
    assert n >= 16 ==> |Hex(n)| == |Hex(a)| + 1;
    assert a >= 16 ==> |Hex(a)| == |Hex(b)| + 1;
    assert b >= 16 ==> |Hex(b)| == |Hex(c)| + 1;
    assert c < 16 && |Hex(c)| == 1;
  }

  // ---------------------------------------------------------------- the name

  /** Where the number goes: behind the body, but not behind `i`, and not into a double-byte character. */
  function Cut(body: seq<byte>, j: nat, i: nat): (r: nat)
    requires j <= i <= |body|
    ensures j <= r <= i
    decreases i - j
  {
    if j == i || body[j] == S.SPACE then j
    else if !IsLead(body[j]) then Cut(body, j + 1, i)
    else if j == i - 1 then j
    else Cut(body, j + 2, i)
  }

  /** The text consists of complete characters. */
  predicate WholeCharacters(s: seq<byte>) {
    if s == [] then true
    else if !IsLead(s[0]) then WholeCharacters(s[1..])
    else |s| >= 2 && WholeCharacters(s[2..])
  }

  /** No character is cut in two, and as much is kept as fits. */
  lemma {:induction false} CutKeepsCharacters(body: seq<byte>, j: nat, i: nat)
    requires j <= i <= |body|
    ensures var r := Cut(body, j, i);
      WholeCharacters(body[j..r]) && (r < i ==> body[r] == S.SPACE || (r == i - 1 && IsLead(body[r])))
    decreases i - j
  {
    var r := Cut(body, j, i);
    if j < i && body[j] != S.SPACE {
      if !IsLead(body[j]) {
        CutKeepsCharacters(body, j + 1, i);
        assert body[j..r][1..] == body[j + 1..r];
      } else if j < i - 1 {
        CutKeepsCharacters(body, j + 2, i);
        assert body[j..r][2..] == body[j + 2..r];
      }
    }
  }

  function Blanks(n: nat): (s: seq<byte>)
    ensures |s| == n
  {
    seq(n, _ => S.SPACE)
  }

  /** The `n`-th short name for the long name `name`: the body of `src` cut short, a tilde and the number. */
  function Numbered(src: seq<byte>, name: seq<word>, n: word): (fn: seq<byte>)
    requires |src| == SFN
    ensures |fn| == SFN
  {
    HexLength(Number(n, name));
    var digits := Hex(Number(n, name));
    var i := S.BODY - 1 - |digits|;
    var j := Cut(src, 0, i);
    src[..j] + [TILDE] + digits + Blanks(i - j) + src[S.BODY..]
  }

  /** Index behind the last tilde, 0 if there is none. */
  function AfterTilde(s: seq<byte>): (d: nat)
    ensures d <= |s|
  {
    if s == [] then 0 else if s[|s| - 1] == TILDE then |s| else AfterTilde(s[..|s| - 1])
  }

  lemma {:induction false} AfterTildeIs(s: seq<byte>, d: nat)
    requires 0 < d <= |s| && s[d - 1] == TILDE && forall k :: d <= k < |s| ==> s[k] != TILDE
    ensures AfterTilde(s) == d
  {
    if d < |s| {
      AfterTildeIs(s[..|s| - 1], d);
    }
  }

  /** The number that a short name carries behind its last tilde. */
  function NumberIn(fn: seq<byte>): int
    requires |fn| == SFN
  {
    HexValue(S.ToSpace(fn[AfterTilde(fn[..S.BODY])..S.BODY]))
  }

  /** The number can be read out of the numbered name, whose body starts as before and whose extension is the old
      one. */
  lemma NumberReadsBack(src: seq<byte>, name: seq<word>, n: word)
    requires |src| == SFN
    ensures var fn := Numbered(src, name, n);
      NumberIn(fn) == Number(n, name) && fn[S.BODY..] == src[S.BODY..] && (fn[0] == src[0] || fn[0] == TILDE)
  {
    hide Cut, Hex;
    var fn, digits := Numbered(src, name, n), Hex(Number(n, name));
    HexLength(Number(n, name));
    HexReadsBack(Number(n, name));
    var i := S.BODY - 1 - |digits|;
    var j := Cut(src, 0, i);
    assert fn[..S.BODY] == src[..j] + [TILDE] + digits + Blanks(i - j);
    AfterTildeIs(fn[..S.BODY], j + 1);
    assert fn[j + 1..S.BODY] == digits + Blanks(i - j);
    S.ToSpaceIs(fn[j + 1..S.BODY], |digits|);
  }

  /** All numbered names for one name are different: the plain ones among each other, and the mixed ones among each
      other. */
  lemma NumberedDiffer(src: seq<byte>, name: seq<word>, m: word, n: word)
    requires |src| == SFN && m != n && (m <= LAST_PLAIN <==> n <= LAST_PLAIN)
    ensures Numbered(src, name, m) != Numbered(src, name, n)
  {
    hide Numbered;
    NumberReadsBack(src, name, m);
    NumberReadsBack(src, name, n);
    HashKeepsApart(m, n, name);
  }

  // ---------------------------------------------------------------- gen_numname

  /** The buffer holds the name and its terminator. */
  ghost predicate InBuffer(lfn: array<word>, name: seq<word>)
    reads lfn
  {
    lfn.Length == MAX_LFN + 1 && 1 <= |name| <= MAX_LFN && lfn[..|name|] == name && lfn[|name|] == 0 &&
    forall k :: 0 <= k < |name| ==> name[k] != 0
  }

  /** gen_numname: the `n`-th short name for the name in the buffer. */
  method GenNumName(dst: array<byte>, src: seq<byte>, lfn: array<word>, n: word, ghost name: seq<word>)
    requires dst.Length == |src| == SFN && InBuffer(lfn, name)
    modifies dst
    ensures dst[..] == Numbered(src, name, n)
  {
    hide Hash, Hex, Cut, InBuffer, Numbered;
    CopyInto(dst, 0, src);
    var number := n;
    if n > LAST_PLAIN {
      number := MixName(lfn, n, name);
    }
    var ns := new byte[S.BODY];
    var i := WriteHex(ns, number);
    ns[i] := TILDE;
    assert ns[..][i..] == [TILDE] + Hex(number);
    NumberedIs(src, name, n, ns[..], i);
    AppendNumber(dst, ns[..], i, src);
  }

  lemma NumberedIs(src: seq<byte>, name: seq<word>, n: word, ns: seq<byte>, i: nat)
    requires |src| == SFN && |ns| == S.BODY && i < S.BODY && ns[i..] == [TILDE] + Hex(Number(n, name))
    ensures var j := Cut(src, 0, i);
      Numbered(src, name, n) == src[..j] + ns[i..] + Blanks(i - j) + src[S.BODY..]
  {
    hide Hex, Cut, Number;
    assert |ns[i..]| == S.BODY - i;
  }

  /** gen_numname, the hash of the number and the long name. */
  method MixName(lfn: array<word>, n: word, ghost name: seq<word>) returns (h: word)
    requires InBuffer(lfn, name)
    ensures h == Hash(n, name)
  {
    hide Mix;
    h := n;
    var k := 0;
    var more := true;
    while more
      invariant k <= |name| && h == Hash(n, name[..k]) && more == (k < |name|)
      decreases |name| - k
    {
      assert name[..k + 1][..k] == name[..k];
      assert lfn[..|name|][k] == lfn[k];
      MixShifts(h, lfn[k]);
      h := (h / 2 + h as int * 0x8000 + lfn[k]) % 0x1_0000;
      k := k + 1;
      more := lfn[k] != 0;
      assert k < |name| ==> lfn[..|name|][k] == lfn[k];
    }
    assert name[..k] == name;
  }

  /** gen_numname, the digits: stored from the last one down to the first, which is at index `i + 1`. */
  method WriteHex(ns: array<byte>, number: word) returns (i: nat)
    requires ns.Length == S.BODY
    modifies ns
    ensures i < S.BODY && ns[i + 1..] == Hex(number)
  {
    HexLength(number);
    i := S.BODY - 1;
    var rest: nat := number;
    var more := true;
    while more
      invariant i < S.BODY && (more || rest == 0)
      invariant Hex(number) == (if more then Hex(rest) else []) + ns[i + 1..]
      decreases more, rest
    {
      ghost var was := ns[i + 1..];
      assert 1 <= |Hex(rest)|;
      ns[i] := HexDigit(rest % 16);
      assert ns[i..] == [HexDigit(rest % 16)] + was;
      i := i - 1;
      rest := rest / 16;
      more := rest != 0;
    }
  }

  /** gen_numname, the end: the body is cut and the number appended, with spaces behind it. */
  method AppendNumber(dst: array<byte>, ns: seq<byte>, i0: nat, ghost src: seq<byte>)
    requires dst.Length == |src| == SFN && dst[..] == src && |ns| == S.BODY && i0 < S.BODY
    modifies dst
    ensures var j := Cut(src, 0, i0);
      dst[..] == src[..j] + ns[i0..] + Blanks(i0 - j) + src[S.BODY..]
  {
    var i, j := i0, 0;
    while j < i && dst[j] != S.SPACE
      invariant j <= i && Cut(src, 0, i) == Cut(src, j, i)
    {
      if IsLead(dst[j]) {
        if j == i - 1 {
          break;
        }
        j := j + 1;
      }
      j := j + 1;
    }
    ghost var c := j;
    while j < S.BODY
      invariant c <= j <= S.BODY && i == (if i0 + (j - c) < S.BODY then i0 + (j - c) else S.BODY)
      invariant forall k :: 0 <= k < SFN ==>
        dst[k] == if !(c <= k < j) then src[k] else if i0 + (k - c) < S.BODY then ns[i0 + (k - c)] else S.SPACE
    {
      if i < S.BODY {
        dst[j] := ns[i];
        i := i + 1;
      } else {
        dst[j] := S.SPACE;
      }
      j := j + 1;
    }
  }
}
