/** Path segments turned into 8.3 names with case flags, and printed back. Characters are ASCII. */
module ShortNames {
  import opened Bytes

  const SPACE: byte := 0x20
  const DOT: byte := 0x2E
  const SLASH: byte := 0x2F
  const BACKSLASH: byte := 0x5C
  const UNDERSCORE: byte := 0x5F
  const BODY := 8

  // Characters no name may contain, and those no short name may contain
  const ILLEGAL: seq<byte> := [0x22, 0x2A, 0x3A, 0x3C, 0x3E, 0x3F, 0x7C, 0x7F]
  const NOT_SHORT: seq<byte> := [0x2B, 0x2C, 0x3B, 0x3D, 0x5B, 0x5D]

  predicate IsUpper(c: byte) { 0x41 <= c <= 0x5A }
  predicate IsLower(c: byte) { 0x61 <= c <= 0x7A }

  function Up(c: byte): byte { if IsLower(c) then c - 0x20 else c }
  function Low(c: byte): byte { if IsUpper(c) then c + 0x20 else c }

  ghost predicate HasUpper(s: seq<byte>) { exists k :: 0 <= k < |s| && IsUpper(s[k]) }
  ghost predicate HasLower(s: seq<byte>) { exists k :: 0 <= k < |s| && IsLower(s[k]) }

  // ---------------------------------------------------------------- names that fit the 8.3 form

  /** Index behind the last dot, 0 if there is none. */
  function AfterDot(name: seq<byte>): (d: nat)
    ensures d <= |name| && (d > 0 ==> name[d - 1] == DOT)
  {
    if name == [] then 0 else if name[|name| - 1] == DOT then |name| else AfterDot(name[..|name| - 1])
  }

  lemma {:induction false} NoLaterDot(name: seq<byte>, k: nat)
    requires AfterDot(name) <= k < |name|
    ensures name[k] != DOT
  {
    if k < |name| - 1 {
      NoLaterDot(name[..|name| - 1], k);
    }
  }

  function BodyOf(name: seq<byte>): seq<byte> {
    if AfterDot(name) == 0 then name else name[..AfterDot(name) - 1]
  }

  function ExtOf(name: seq<byte>): seq<byte> {
    if AfterDot(name) == 0 then [] else name[AfterDot(name)..]
  }

  /** A character that a short name keeps. */
  predicate IsShortChar(c: byte) {
    c != SPACE && c != DOT && c !in NOT_SHORT
  }

  ghost predicate OneCase(s: seq<byte>) {
    !(HasUpper(s) && HasLower(s))
  }

  /** The name fits the 8.3 form but for the case of its letters: at most 8 and 3 characters that a short name keeps. */
  ghost predicate Fits(name: seq<byte>) {
    && 1 <= |BodyOf(name)| <= BODY && |ExtOf(name)| <= SFN - BODY
    && (forall k :: 0 <= k < |BodyOf(name)| ==> IsShortChar(BodyOf(name)[k]))
    && (forall k :: 0 <= k < |ExtOf(name)| ==> IsShortChar(ExtOf(name)[k]))
  }

  /** The name fits the 8.3 form, its parts in one case each. */
  ghost predicate IsPlain(name: seq<byte>) {
    Fits(name) && OneCase(BodyOf(name)) && OneCase(ExtOf(name))
  }

  /** The short name of a name that fits. */
  function ShortOf(name: seq<byte>): (fn: seq<byte>)
    ensures |fn| == SFN
  {
    Padded(BodyOf(name), BODY) + Padded(ExtOf(name), SFN - BODY)
  }

  /** `s` in upper case, padded with spaces to `n` characters. */
  function Padded(s: seq<byte>, n: nat): (r: seq<byte>)
    ensures |r| == n
  {
    seq(n, k requires 0 <= k < n => if k < |s| then Up(s[k]) else SPACE)
  }

  /** What a short name keeps of a part of a name: no spaces and dots, and underscores for other characters it may
      not hold. */
  function Kept(s: seq<byte>): (r: seq<byte>) {
    if s == [] then []
    else
      var c := s[|s| - 1];
      Kept(s[..|s| - 1]) + if c == SPACE || c == DOT then [] else if c in NOT_SHORT then [UNDERSCORE] else [c]
  }

  /** Spaces and dots in front of a name. */
  function Leading(name: seq<byte>): (n: nat)
    ensures n <= |name| && forall k :: 0 <= k < n ==> name[k] == SPACE || name[k] == DOT
    ensures n < |name| ==> name[n] != SPACE && name[n] != DOT
  {
    if name != [] && (name[0] == SPACE || name[0] == DOT) then 1 + Leading(name[1..]) else 0
  }

  /** The last dot separates an extension, unless nothing but spaces and dots lies in front of it. */
  predicate HasExt(name: seq<byte>) {
    AfterDot(name) > Leading(name)
  }

  /** The short name of any name: the first 8 characters kept of its body and the first 3 kept of its extension. */
  function Shortened(name: seq<byte>): (fn: seq<byte>)
    ensures |fn| == SFN
  {
    if HasExt(name) then Padded(Kept(BodyOf(name)), BODY) + Padded(Kept(ExtOf(name)), SFN - BODY)
    else Padded(Kept(name), BODY) + Padded([], SFN - BODY)
  }

  lemma {:induction false} KeptAll(s: seq<byte>)
    requires forall k :: 0 <= k < |s| ==> IsShortChar(s[k])
    ensures Kept(s) == s
  {
    if s != [] {
      KeptAll(s[..|s| - 1]);
    }
  }

  lemma {:induction false} KeptTwo(a: seq<byte>, b: seq<byte>)
    ensures Kept(a + b) == Kept(a) + Kept(b)
  {
    if b == [] {
      assert a + b == a;
    } else {
      KeptTwo(a, b[..|b| - 1]);
      assert (a + b)[..|a + b| - 1] == a + b[..|b| - 1];
    }
  }

  /** A name that fits loses nothing. */
  lemma FitsIsKept(name: seq<byte>)
    requires Fits(name)
    ensures Shortened(name) == ShortOf(name)
  {
    hide AfterDot, IsShortChar, Padded;
    var d := AfterDot(name);
    KeptAll(BodyOf(name));
    KeptAll(ExtOf(name));
    assert IsShortChar(BodyOf(name)[0]) && name[0] == BodyOf(name)[0];
    NoneInFront(name);
  }

  lemma NoneInFront(name: seq<byte>)
    requires name != [] && IsShortChar(name[0])
    ensures Leading(name) == 0
  {
  }

  // ---------------------------------------------------------------- printing

  /** Up to the first space. */
  function ToSpace(s: seq<byte>): (r: seq<byte>)
    ensures |r| <= |s| && r == s[..|r|]
  {
    if s == [] || s[0] == SPACE then [] else [s[0]] + ToSpace(s[1..])
  }

  function Cased(s: seq<byte>, lower: bool): (r: seq<byte>)
    ensures |r| == |s|
  {
    seq(|s|, k requires 0 <= k < |s| => if lower then Low(s[k]) else s[k])
  }

  const NDDE: byte := 0x05   // stands for it in the body of a short name

  function Unmarked(s: seq<byte>): (r: seq<byte>)
    ensures |r| == |s|
  {
    seq(|s|, k requires 0 <= k < |s| => if s[k] == NDDE then DDE else s[k])
  }

  /** What get_fileinfo prints for a short name with its case flags. */
  function Printed(fn: seq<byte>, body: bool, ext: bool): seq<byte>
    requires |fn| == SFN
  {
    Cased(Unmarked(ToSpace(fn[..BODY])), body) + if fn[BODY] != SPACE then [DOT] + Cased(ToSpace(fn[BODY..]), ext) else []
  }

  /** get_fileinfo, the short name: body up to its first space, then a dot and the extension if there is one. */
  method PrintName(fn: seq<byte>, body: bool, ext: bool) returns (p: seq<byte>)
    requires |fn| == SFN
    ensures p == Printed(fn, body, ext)
  {
    p := [];
    var i := 0;
    ghost var b := fn[..BODY];
    while i < BODY && fn[i] != SPACE
      invariant i <= BODY && (forall k :: 0 <= k < i ==> fn[k] != SPACE)
      invariant |p| == i && forall k :: 0 <= k < i ==>
        p[k] == (var c := if fn[k] == NDDE then DDE else fn[k]; if body then Low(c) else c)
    {
      var c := fn[i];
      if c == NDDE {
        c := DDE;
      }
      if body {
        c := Low(c);
      }
      p := p + [c];
      i := i + 1;
    }
    ToSpaceIs(b, i);
    assert p == Cased(Unmarked(ToSpace(b)), body);
    if fn[BODY] != SPACE {
      var e := PrintExt(fn, ext);
      p := p + [DOT] + e;
    }
  }

  method PrintExt(fn: seq<byte>, ext: bool) returns (p: seq<byte>)
    requires |fn| == SFN
    ensures p == Cased(ToSpace(fn[BODY..]), ext)
  {
    p := [];
    var i := BODY;
    while i < SFN && fn[i] != SPACE
      invariant BODY <= i <= SFN && |p| == i - BODY && (forall k :: 0 <= k < |p| ==> fn[BODY..][k] != SPACE)
      invariant forall k :: 0 <= k < |p| ==> p[k] == if ext then Low(fn[BODY..][k]) else fn[BODY..][k]
    {
      p := p + [if ext then Low(fn[i]) else fn[i]];
      i := i + 1;
    }
    ToSpaceIs(fn[BODY..], i - BODY);
  }

  lemma {:induction false} ToSpaceIs(s: seq<byte>, n: nat)
    requires n <= |s| && (forall k :: 0 <= k < n ==> s[k] != SPACE) && (n < |s| ==> s[n] == SPACE)
    ensures ToSpace(s) == s[..n]
  {
    if n > 0 {
      ToSpaceIs(s[1..], n - 1);
      assert s[..n] == [s[0]] + s[1..][..n - 1];
    }
  }

  /** A part of a name in one case comes back out of its padded upper-case form. */
  lemma PartBack(s: seq<byte>, n: nat)
    requires |s| <= n && OneCase(s) && forall k :: 0 <= k < |s| ==> IsShortChar(s[k])
    ensures Cased(ToSpace(Padded(s, n)), HasLower(s)) == s
  {
    var p := Padded(s, n);
    ToSpaceIs(p, |s|);
    forall k | 0 <= k < |s| ensures (if HasLower(s) then Low(p[k]) else p[k]) == s[k] {
      assert !HasLower(s) ==> !IsLower(s[k]);
      assert !HasUpper(s) ==> !IsUpper(s[k]);
    }
  }

  /** A name that fits the 8.3 form is printed back as it was, case included. */
  lemma PlainNameRoundTrip(name: seq<byte>)
    requires IsPlain(name) && (forall k :: 0 <= k < |name| ==> 0x20 <= name[k] < 0x80)
    requires name != [] && name[|name| - 1] != DOT
    ensures Printed(ShortOf(name), HasLower(BodyOf(name)), HasLower(ExtOf(name))) == name
  {
    hide AfterDot, ToSpace, Cased, Padded, BodyOf, ExtOf, OneCase;
    var b, e := BodyOf(name), ExtOf(name);
    var pb, pe := Padded(b, BODY), Padded(e, SFN - BODY);
    var fn := pb + pe;
    assert fn[..BODY] == pb && fn[BODY..] == pe && fn[BODY] == pe[0];
    TwoParts(name);
    PartBack(b, BODY);
    PartBack(e, SFN - BODY);
    FirstOfPart(b, BODY);
    FirstOfPart(e, SFN - BODY);
    NoMarks(b, BODY);
  }

  /** A name in upper case. */
  function UpperName(name: seq<byte>): (u: seq<byte>)
    ensures |u| == |name|
  {
    seq(|name|, k requires 0 <= k < |name| => Up(name[k]))
  }

  /** Without case flags, the short name of a name that fits is printed in upper case. */
  lemma ShortPrintsUpperCase(name: seq<byte>)
    requires Fits(name) && (forall k :: 0 <= k < |name| ==> 0x20 <= name[k] < 0x80)
    requires name != [] && name[|name| - 1] != DOT
    ensures Printed(ShortOf(name), false, false) == UpperName(name)
  {
    hide AfterDot, ToSpace, Cased, Padded, BodyOf, ExtOf;
    var b, e := BodyOf(name), ExtOf(name);
    var pb, pe := Padded(b, BODY), Padded(e, SFN - BODY);
    var fn := pb + pe;
    assert fn[..BODY] == pb && fn[BODY..] == pe && fn[BODY] == pe[0];
    TwoParts(name);
    PartInUpper(b, BODY);
    PartInUpper(e, SFN - BODY);
    FirstOfPart(b, BODY);
    FirstOfPart(e, SFN - BODY);
    NoMarks(b, BODY);
    assert AfterDot(name) > 0 ==> UpperName(name) == UpperName(b) + [DOT] + UpperName(e);
  }

  lemma PartInUpper(s: seq<byte>, n: nat)
    requires |s| <= n && forall k :: 0 <= k < |s| ==> IsShortChar(s[k])
    ensures Cased(ToSpace(Padded(s, n)), false) == UpperName(s)
  {
    ToSpaceIs(Padded(s, n), |s|);
  }

  /** Names that fit have the same short name if and only if they are equal up to case. */
  lemma SameShortSameName(a: seq<byte>, b: seq<byte>)
    requires Fits(a) && (forall k :: 0 <= k < |a| ==> 0x20 <= a[k] < 0x80) && a != [] && a[|a| - 1] != DOT
    requires Fits(b) && (forall k :: 0 <= k < |b| ==> 0x20 <= b[k] < 0x80) && b != [] && b[|b| - 1] != DOT
    ensures ShortOf(a) == ShortOf(b) <==> UpperName(a) == UpperName(b)
  {
    hide Fits, ShortOf, Printed, UpperName;
    ShortPrintsUpperCase(a);
    ShortPrintsUpperCase(b);
    ShortOfUpper(a);
    ShortOfUpper(b);
  }

  lemma ShortOfUpper(name: seq<byte>)
    ensures ShortOf(UpperName(name)) == ShortOf(name)
  {
    DotInUpper(name);
    var u := UpperName(name);
    assert BodyOf(u) == UpperName(BodyOf(name)) && ExtOf(u) == UpperName(ExtOf(name));
    assert Padded(BodyOf(u), BODY) == Padded(BodyOf(name), BODY);
    assert Padded(ExtOf(u), SFN - BODY) == Padded(ExtOf(name), SFN - BODY);
  }

  /** Fitting the 8.3 form does not depend on case. */
  lemma FitsInUpper(name: seq<byte>)
    ensures Fits(UpperName(name)) <==> Fits(name)
  {
    hide AfterDot, IsShortChar;
    DotInUpper(name);
    var u := UpperName(name);
    assert BodyOf(u) == UpperName(BodyOf(name)) && ExtOf(u) == UpperName(ExtOf(name));
    hide BodyOf, ExtOf;
    CharsInUpper(BodyOf(name));
    CharsInUpper(ExtOf(name));
  }

  lemma CharsInUpper(s: seq<byte>)
    ensures (forall k :: 0 <= k < |s| ==> IsShortChar(UpperName(s)[k])) <==>
      (forall k :: 0 <= k < |s| ==> IsShortChar(s[k]))
  {
    forall k | 0 <= k < |s| ensures IsShortChar(UpperName(s)[k]) <==> IsShortChar(s[k]) {
    }
  }

  lemma {:induction false} DotInUpper(name: seq<byte>)
    ensures AfterDot(UpperName(name)) == AfterDot(name)
  {
    if name != [] {
      DotInUpper(name[..|name| - 1]);
      assert UpperName(name)[..|name| - 1] == UpperName(name[..|name| - 1]);
    }
  }

  lemma NoMarks(s: seq<byte>, n: nat)
    requires |s| <= n && forall k :: 0 <= k < |s| ==> 0x20 <= s[k]
    ensures Unmarked(ToSpace(Padded(s, n))) == ToSpace(Padded(s, n))
  {
  }

  lemma TwoParts(name: seq<byte>)
    requires name != [] && name[|name| - 1] != DOT
    ensures AfterDot(name) == 0 ==> ExtOf(name) == [] && name == BodyOf(name)
    ensures AfterDot(name) > 0 ==> ExtOf(name) != [] && name == BodyOf(name) + [DOT] + ExtOf(name)
    ensures forall k :: 0 <= k < |BodyOf(name)| ==> BodyOf(name)[k] == name[k]
  {
  }

  /** The first character of a padded part is a space if and only if the part is empty. */
  lemma FirstOfPart(s: seq<byte>, n: nat)
    requires |s| <= n && 0 < n && (forall k :: 0 <= k < |s| ==> IsShortChar(s[k]))
    ensures Padded(s, n)[0] == SPACE <==> s == []
    ensures var t := ToSpace(Padded(s, n)); |t| == |s| && (t != [] ==> t[0] == Up(s[0]))
  {
    ToSpaceIs(Padded(s, n), |s|);
  }

  // ---------------------------------------------------------------- create_name

  /** An object name: its characters, the short name, and the status bits. */
  datatype ObjectName = ObjectName(lfn: seq<byte>, fn: seq<byte>, loss: bool, long: bool, last: bool, body: bool, ext: bool)

  /** Case bits of a part: 1 for lower-case, 2 for upper-case letters. */
  ghost function Bits(s: seq<byte>): nat {
    (if HasUpper(s) then 2 else 0) + if HasLower(s) then 1 else 0
  }

  function SetBit(b: nat, c: byte): nat {
    if IsUpper(c) then if b / 2 % 2 == 1 then b else b + 2
    else if IsLower(c) then if b % 2 == 1 then b else b + 1
    else b
  }

  lemma BitsNext(name: seq<byte>, lo: nat, hi: nat)
    requires lo <= hi < |name|
    ensures Bits(name[lo..hi + 1]) == SetBit(Bits(name[lo..hi]), name[hi])
  {
    var s, t := name[lo..hi], name[lo..hi + 1];
    assert t == s + [name[hi]];
    assert HasUpper(t) <==> HasUpper(s) || IsUpper(name[hi]) by {
      if HasUpper(s) { var k :| 0 <= k < |s| && IsUpper(s[k]); assert IsUpper(t[k]); }
      if IsUpper(name[hi]) { assert IsUpper(t[|s|]); }
    }
    assert HasLower(t) <==> HasLower(s) || IsLower(name[hi]) by {
      if HasLower(s) { var k :| 0 <= k < |s| && IsLower(s[k]); assert IsLower(t[k]); }
      if IsLower(name[hi]) { assert IsLower(t[|s|]); }
    }
  }

  lemma BitsLow(h: nat, b: nat, c: byte)
    requires b < 4
    ensures SetBit(4 * h + b, c) == 4 * h + SetBit(b, c)
  {
  }

  lemma BitsBelow(s: seq<byte>)
    ensures Bits(s) < 4
  {
  }

  lemma NoBits()
    ensures Bits([]) == 0
  {
  }

  /** Characters that keep a name out of the 8.3 form. */
  lemma LossAt(name: seq<byte>, k: nat)
    requires k < |name|
    requires name[k] == SPACE || name[k] in NOT_SHORT || (name[k] == DOT && k + 1 != AfterDot(name))
    ensures !Fits(name)
  {
    hide AfterDot, Fits;
    BadChar(name, k);
  }

  lemma BadChar(name: seq<byte>, k: nat)
    requires k < |name| && !IsShortChar(name[k]) && k + 1 != AfterDot(name)
    ensures !Fits(name)
  {
    hide AfterDot, IsShortChar;
    var d := AfterDot(name);
    if d == 0 || k < d - 1 {
      assert BodyOf(name)[k] == name[k];
    } else {
      assert ExtOf(name)[k - d] == name[k];
    }
  }

  lemma LeadingDot(name: seq<byte>)
    requires name != [] && (name[0] == SPACE || name[0] == DOT)
    ensures !Fits(name)
  {
    if name[0] == DOT && AfterDot(name) != 1 {
      LossAt(name, 0);
    }
    if name[0] == SPACE {
      LossAt(name, 0);
    }
  }

  /** While nothing has been lost: `si` characters are taken, the extension is under way if `inExt`. */
  ghost predicate OnTrack(name: seq<byte>, si: nat, i: nat, b: nat, inExt: bool) {
    var d := AfterDot(name);
    if !inExt then
      && i == si <= BODY && si <= |name| && (d == 0 || si < d)
      && (forall k :: 0 <= k < si ==> IsShortChar(name[k]))
      && b == Bits(name[..si])
    else
      && 1 <= d <= si <= |name| && d - 1 <= BODY && i == BODY + (si - d) <= SFN
      && (forall k :: 0 <= k < d - 1 ==> IsShortChar(name[k]))
      && (forall k :: d <= k < si ==> IsShortChar(name[k]))
      && b == 4 * Bits(name[..d - 1]) + Bits(name[d..si])
  }

  /** One more character of the body or the extension. */
  lemma TakeOne(name: seq<byte>, si: nat, i: nat, b: nat, inExt: bool)
    requires OnTrack(name, si, i, b, inExt) && si < |name| && IsShortChar(name[si])
    requires (if inExt then i < SFN else i < BODY) && si + 1 != AfterDot(name)
    ensures OnTrack(name, si + 1, i + 1, SetBit(b, name[si]), inExt)
  {
    hide AfterDot, Bits, SetBit, IsShortChar;
    var d := AfterDot(name);
    if inExt {
      BitsBelow(name[d..si]);
      BitsNext(name, d, si);
      BitsLow(Bits(name[..d - 1]), Bits(name[d..si]), name[si]);
    } else {
      BitsNext(name, 0, si);
      assert name[0..si] == name[..si] && name[0..si + 1] == name[..si + 1];
    }
  }

  /** The last dot ends the body. */
  lemma TakeDot(name: seq<byte>, si: nat, i: nat, b: nat)
    requires OnTrack(name, si, i, b, false) && si + 1 == AfterDot(name)
    ensures OnTrack(name, si + 1, BODY, b * 4, true)
  {
    NoBits();
    assert name[si + 1..si + 1] == [];
  }

  lemma TooLong(name: seq<byte>, si: nat, i: nat, b: nat, inExt: bool)
    requires OnTrack(name, si, i, b, inExt) && si < |name| && si + 1 != AfterDot(name)
    requires i >= if inExt then SFN else BODY
    ensures !Fits(name)
  {
  }

  /** All characters are taken and nothing was lost: the name fits. */
  lemma AllTaken(name: seq<byte>, i: nat, b: nat, inExt: bool)
    requires OnTrack(name, |name|, i, b, inExt) && name != [] && name[0] != DOT
    ensures Fits(name) && (if inExt then b else b * 4) == 4 * Bits(BodyOf(name)) + Bits(ExtOf(name))
  {
    hide AfterDot, Bits, IsShortChar;
    NoBits();
    if inExt {
      assert ExtOf(name) == name[AfterDot(name)..|name|];
    } else {
      assert name[..|name|] == name;
    }
  }

  lemma BitsOf(s: seq<byte>)
    ensures Bits(s) < 4 && (Bits(s) == 3 <==> !OneCase(s)) && (Bits(s) != 3 ==> (Bits(s) == 1 <==> HasLower(s)))
  {
  }

  lemma NothingTaken(name: seq<byte>)
    ensures OnTrack(name, 0, 0, 0, false)
  {
    NoBits();
    assert name[..0] == [];
  }

  lemma ExtAfterDot(name: seq<byte>, si: nat, i: nat, b: nat)
    requires OnTrack(name, si, i, b, true)
    ensures AfterDot(name) <= si
  {
  }

  /** The state of the short name in any case: what is kept of the `si` characters taken, `i` bytes of it filled. */
  ghost predicate KeptSo(name: seq<byte>, fn: seq<byte>, si: nat, i: nat, inExt: bool) {
    Leading(name) <= si <= |name| &&
    var d := AfterDot(name);
    if !inExt then
      && (HasExt(name) ==> si < d) && i == |Kept(name[..si])| <= BODY
      && fn == Padded(Kept(name[..si]), BODY) + Padded([], SFN - BODY)
    else
      && HasExt(name) && d <= si && i == BODY + |Kept(name[d..si])| <= SFN
      && fn == Padded(Kept(BodyOf(name)), BODY) + Padded(Kept(name[d..si]), SFN - BODY)
  }

  lemma {:induction false} KeptNone(s: seq<byte>)
    requires forall k :: 0 <= k < |s| ==> s[k] == SPACE || s[k] == DOT
    ensures Kept(s) == []
  {
    if s != [] {
      KeptNone(s[..|s| - 1]);
    }
  }

  lemma KeptStarts(name: seq<byte>, fn: seq<byte>)
    requires fn == seq(SFN, _ => SPACE)
    ensures KeptSo(name, fn, Leading(name), 0, false)
  {
    KeptNone(name[..Leading(name)]);
  }

  lemma KeptNext(name: seq<byte>, from: nat, si: nat)
    requires from <= si < |name|
    ensures var c := name[si];
      Kept(name[from..si + 1]) == Kept(name[from..si]) + if c == SPACE || c == DOT then [] else if c in NOT_SHORT then [UNDERSCORE] else [c]
  {
    assert name[from..si + 1][..si - from] == name[from..si];
  }

  lemma DotEnds(name: seq<byte>)
    ensures AfterDot(name) <= |name| && (AfterDot(name) > 0 ==> name[AfterDot(name) - 1] == DOT)
  {
  }

  /** A space or a dot inside the name is dropped. */
  lemma KeptSkip(name: seq<byte>, fn: seq<byte>, si: nat, i: nat, inExt: bool)
    requires KeptSo(name, fn, si, i, inExt) && si < |name|
    requires name[si] == SPACE || (name[si] == DOT && si + 1 != AfterDot(name))
    ensures KeptSo(name, fn, si + 1, i, inExt)
  {
    hide Kept, Padded, Leading, AfterDot, BodyOf;
    DotEnds(name);
    if inExt {
      KeptNext(name, AfterDot(name), si);
      assert Kept(name[AfterDot(name)..si + 1]) == Kept(name[AfterDot(name)..si]);
    } else {
      KeptNext(name, 0, si);
      assert name[..si] == name[0..si] && name[..si + 1] == name[0..si + 1];
      assert Kept(name[..si + 1]) == Kept(name[..si]);
    }
  }

  lemma PaddedNext(s: seq<byte>, c: byte, n: nat)
    requires |s| < n
    ensures Padded(s + [c], n) == Padded(s, n)[|s| := Up(c)]
  {
  }

  /** A character is taken in upper case, or an underscore for it. */
  lemma KeptTake(name: seq<byte>, fn: seq<byte>, si: nat, i: nat, inExt: bool)
    requires KeptSo(name, fn, si, i, inExt) && si < |name| && |fn| == SFN && name[si] != SPACE && name[si] != DOT
    requires i < if inExt then SFN else BODY
    ensures KeptSo(name, fn[i := if name[si] in NOT_SHORT then UNDERSCORE else Up(name[si])], si + 1, i + 1, inExt)
  {
    hide Kept, Padded, Leading;
    var d, c := AfterDot(name), if name[si] in NOT_SHORT then UNDERSCORE else name[si];
    if inExt {
      KeptNext(name, d, si);
      PaddedNext(Kept(name[d..si]), c, SFN - BODY);
    } else {
      KeptNext(name, 0, si);
      assert name[..si] == name[0..si] && name[..si + 1] == name[0..si + 1];
      PaddedNext(Kept(name[..si]), c, BODY);
    }
  }

  /** Behind as many characters as fit, the rest of a part does not matter. */
  lemma KeptEnough(s: seq<byte>, t: seq<byte>, n: nat)
    requires s <= t && |Kept(s)| >= n
    ensures Padded(Kept(t), n) == Padded(Kept(s), n)
  {
    hide Kept;
    assert t == s + t[|s|..];
    KeptTwo(s, t[|s|..]);
  }

  /** The extension begins at the last dot, or as soon as the body is full. */
  lemma KeptToExt(name: seq<byte>, fn: seq<byte>, si: nat, i: nat)
    requires KeptSo(name, fn, si, i, false) && si < |name| && si + 1 <= AfterDot(name)
    requires (si + 1 == AfterDot(name) || i >= BODY)
    ensures KeptSo(name, fn, AfterDot(name), BODY, true)
  {
    hide Padded, Leading;
    var d := AfterDot(name);
    if si + 1 < d {
      hide Kept;
      KeptEnough(name[..si], BodyOf(name), BODY);
    }
    assert Kept(name[d..d]) == [];
  }

  /** The loop ends: at the end of the name, or with a part that is full. */
  lemma KeptEnds(name: seq<byte>, fn: seq<byte>, si: nat, i: nat, inExt: bool)
    requires KeptSo(name, fn, si, i, inExt)
    requires (si == |name| || if inExt then i >= SFN || si + 1 == AfterDot(name) else i >= BODY && si + 1 > AfterDot(name))
    ensures fn == Shortened(name)
  {
    hide Padded, Leading, Kept;
    var d := AfterDot(name);
    if inExt {
      assert name[d..si] <= ExtOf(name);
      if si == |name| {
        assert name[d..si] == ExtOf(name);
      } else {
        KeptEnough(name[d..si], ExtOf(name), SFN - BODY);
      }
    } else if si == |name| {
      assert name[..si] == name;
    } else {
      KeptEnough(name[..si], name, BODY);
    }
  }

  /** create_name, the search for the extension. */
  method LastDot(name: seq<byte>) returns (di: nat)
    ensures di == AfterDot(name)
  {
    di := |name|;
    assert name[..di] == name;
    while di > 0 && name[di - 1] != DOT
      invariant di <= |name| && AfterDot(name) == AfterDot(name[..di])
    {
      assert name[..di][..di - 1] == name[..di - 1];
      di := di - 1;
    }
  }

  /** create_name, second half: the short name and the status bits of a name without trailing dots and spaces. The
      short name is exact if the name fits the 8.3 form, whatever the case of its letters, and marked as lossy
      otherwise. */
  method MakeShort(name: seq<byte>, last: bool) returns (o: ObjectName)
    requires name != [] && name[|name| - 1] != DOT && name[|name| - 1] != SPACE && forall k :: 0 <= k < |name| ==>
      0 < name[k] < 0x80
    ensures o.lfn == name && o.last == last && |o.fn| == SFN && NoZero(o.fn) && o.fn[0] != DDE
    ensures (o.loss <==> !Fits(name)) && (o.long <==> !IsPlain(name)) && (o.loss ==> o.long)
    ensures o.fn == Shortened(name) && (!o.loss ==> o.fn == ShortOf(name))
    ensures !o.long ==> o.body == HasLower(BodyOf(name)) && o.ext == HasLower(ExtOf(name))
  {
    hide IsPlain, Fits, AfterDot, OnTrack, BodyOf, ExtOf, Bits, SetBit, ShortOf, KeptSo, Shortened, Leading, Kept;
    hide HasExt;
    var fn: seq<byte> := seq(SFN, _ => SPACE);
    var loss := false;
    var si := 0;
    while name[si] == SPACE || name[si] == DOT
      invariant si < |name| && (si > 0 ==> name[0] == SPACE || name[0] == DOT)
      invariant Leading(name) == si + Leading(name[si..])
      decreases |name| - si
    {
      OneLeading(name, si);
      si := si + 1;
    }
    NoneLeading(name, si);
    KeptStarts(name, fn);
    if si > 0 {
      LeadingDot(name);
      loss := true;
    }
    var di := LastDot(name);
    if !loss {
      NothingTaken(name);
    }
    var b, ni;
    ghost var i;
    fn, loss, i, b, ni := TakeChars(name, si, di, fn, loss);
    o := Finish(name, last, fn, loss, i, b, ni);
    FirstChar(name);
    if !o.loss {
      FitsIsKept(name);
    }
  }

  /** create_name, the loop over the characters behind the leading spaces and dots, with the last dot in front of
      `di`. */
  method TakeChars(name: seq<byte>, start: nat, di: nat, fn0: seq<byte>, loss0: bool)
    returns (fn: seq<byte>, loss: bool, i: nat, b: nat, ni: nat)
    requires start < |name| && di == AfterDot(name) && |fn0| == SFN && NoZero(fn0)
    requires (forall k :: 0 <= k < |name| ==> 0 < name[k])
    requires KeptSo(name, fn0, start, 0, false)
    requires if loss0 then !Fits(name) else start == 0 && name[0] != DOT && OnTrack(name, 0, 0, 0, false)
    ensures |fn| == SFN && NoZero(fn) && (ni == BODY || ni == SFN) && fn == Shortened(name)
    ensures if loss then !Fits(name) else name[0] != DOT && OnTrack(name, |name|, i, b, ni == SFN)
  {
    hide IsPlain, Fits, AfterDot, OnTrack, BodyOf, ExtOf, Bits, SetBit, ShortOf, KeptSo, Shortened, Leading, Kept;
    hide HasExt;
    fn, loss, i, b, ni := fn0, loss0, 0, 0, BODY;
    var si := start;
    ghost var full := false;
    while si < |name|
      invariant si <= |name| && |fn| == SFN && (ni == BODY || ni == SFN) && 0 <= i <= ni && NoZero(fn)
      invariant !full && KeptSo(name, fn, si, i, ni == SFN)
      invariant if loss then !Fits(name) else name[0] != DOT && OnTrack(name, si, i, b, ni == SFN)
      decreases |name| - si
    {
      var w := name[si];
      si := si + 1;
      if w == SPACE || (w == DOT && si != di) {
        LossAt(name, si - 1);
        KeptSkip(name, fn, si - 1, i, ni == SFN);
        loss := true;
        continue;
      }
      if i >= ni || si == di {
        if ni == SFN {
          if !loss {
            ExtAfterDot(name, si - 1, i, b);
            TooLong(name, si - 1, i, b, true);
          }
          loss := true;
          KeptEnds(name, fn, si - 1, i, true);
          full := true;
          break;
        }
        if si != di {
          if !loss {
            TooLong(name, si - 1, i, b, false);
          }
          loss := true;
        } else if !loss {
          TakeDot(name, si - 1, i, b);
        }
        if si > di {
          KeptEnds(name, fn, si - 1, i, false);
          full := true;
          break;
        }
        KeptToExt(name, fn, si - 1, i);
        si, i, ni := di, BODY, SFN;
        b := b * 4;
        continue;
      }
      KeptTake(name, fn, si - 1, i, ni == SFN);
      if w in NOT_SHORT {
        LossAt(name, si - 1);
        w := UNDERSCORE;
        loss := true;
      } else {
        if !loss {
          TakeOne(name, si - 1, i, b, ni == SFN);
        }
        b := SetBit(b, w);
        w := Up(w);
      }
      fn := fn[i := w];
      i := i + 1;
    }
    if !full {
      KeptEnds(name, fn, si, i, ni == SFN);
    }
  }

  lemma OneLeading(name: seq<byte>, si: nat)
    requires si + 1 < |name| && (name[si] == SPACE || name[si] == DOT)
    ensures Leading(name[si..]) == 1 + Leading(name[si + 1..])
  {
    assert name[si..][1..] == name[si + 1..];
  }

  lemma NoneLeading(name: seq<byte>, si: nat)
    requires si < |name| && name[si] != SPACE && name[si] != DOT && Leading(name) == si + Leading(name[si..])
    ensures Leading(name) == si
  {
  }

  ghost predicate NoZero(s: seq<byte>) {
    forall k :: 0 <= k < |s| ==> s[k] != 0
  }

  /** The short name of an ASCII name is in ASCII. */
  lemma {:induction false} KeptIsAscii(s: seq<byte>)
    requires forall k :: 0 <= k < |s| ==> s[k] < 0x80
    ensures forall k :: 0 <= k < |Kept(s)| ==> Kept(s)[k] < 0x80
  {
    if s != [] {
      KeptIsAscii(s[..|s| - 1]);
    }
  }

  lemma FirstChar(name: seq<byte>)
    requires forall k :: 0 <= k < |name| ==> name[k] < 0x80
    ensures Shortened(name)[0] < 0x80
  {
    hide Kept;
    KeptIsAscii(name);
    KeptIsAscii(BodyOf(name));
  }

  /** create_name, last part: the case flags, or the demand for a long name if something was lost or the letters of a
      part differ in case. */
  method Finish(name: seq<byte>, last: bool, fn0: seq<byte>, loss: bool, ghost i: nat, b0: nat, ni: nat)
    returns (o: ObjectName)
    requires name != [] && |fn0| == SFN && NoZero(fn0) && (ni == BODY || ni == SFN)
    requires if loss then !Fits(name) else name[0] != DOT && OnTrack(name, |name|, i, b0, ni == SFN)
    ensures o.lfn == name && o.last == last && o.loss == loss && |o.fn| == SFN && NoZero(o.fn) && o.fn[0] != DDE
    ensures (o.loss <==> !Fits(name)) && (o.long <==> !IsPlain(name)) && (o.loss ==> o.long)
    ensures o.fn == if fn0[0] == DDE then fn0[0 := NDDE] else fn0
    ensures !o.long ==> o.body == HasLower(BodyOf(name)) && o.ext == HasLower(ExtOf(name))
  {
    hide Fits, AfterDot, OnTrack, BodyOf, ExtOf, Bits, OneCase, HasLower;
    var fn, long, b := fn0, loss, b0;
    if !loss {
      AllTaken(name, i, b, ni == SFN);
    }
    if fn[0] == DDE {
      fn := fn[0 := NDDE];
    }
    if ni == BODY {
      b := b * 4;
    }
    BitsOf(BodyOf(name));
    BitsOf(ExtOf(name));
    if b / 4 % 4 == 3 || b % 4 == 3 {
      long := true;
    }
    o := ObjectName(name, fn, loss, long, last, !long && b / 4 % 4 == 1, !long && b % 4 == 1);
  }

  // ---------------------------------------------------------------- path segments

  predicate IsSeparator(c: byte) {
    c == SLASH || c == BACKSLASH
  }

  /** Ends a segment: a separator, or a control character, which also ends the path. */
  predicate EndsSegment(c: byte) {
    c < SPACE || IsSeparator(c)
  }

  /** The first index from `k` on that does not hold a separator. */
  function SkipSeparators(path: seq<byte>, k: nat): (n: nat)
    requires k <= |path|
    ensures k <= n <= |path| && (n < |path| ==> !IsSeparator(path[n])) && forall i :: k <= i < n ==>
      IsSeparator(path[i])
    decreases |path| - k
  {
    if k < |path| && IsSeparator(path[k]) then SkipSeparators(path, k + 1) else k
  }

  function SegmentEnd(path: seq<byte>, k: nat): (n: nat)
    requires k <= |path|
    ensures k <= n <= |path| && (n < |path| ==> EndsSegment(path[n])) && forall i :: k <= i < n ==>
      !EndsSegment(path[i])
    decreases |path| - k
  {
    if k < |path| && !EndsSegment(path[k]) then SegmentEnd(path, k + 1) else k
  }

  /** The first segment of a path. */
  function Segment(path: seq<byte>): seq<byte> {
    var start := SkipSeparators(path, 0);
    path[start..SegmentEnd(path, start)]
  }

  /** Without trailing spaces and dots. */
  function Trimmed(s: seq<byte>): (r: seq<byte>)
    ensures r <= s && (r != [] ==> r[|r| - 1] != DOT && r[|r| - 1] != SPACE)
    ensures forall k :: |r| <= k < |s| ==> s[k] == DOT || s[k] == SPACE
  {
    if s != [] && (s[|s| - 1] == DOT || s[|s| - 1] == SPACE) then Trimmed(s[..|s| - 1]) else s
  }

  predicate IsIllegal(c: byte) {
    c in ILLEGAL
  }

  ghost predicate Acceptable(seg: seq<byte>) {
    |seg| <= MAX_LFN && (forall k :: 0 <= k < |seg| ==> !IsIllegal(seg[k])) && Trimmed(seg) != []
  }

  /** Printable ASCII characters. */
  ghost predicate IsText(s: seq<byte>) {
    forall k :: 0 <= k < |s| ==> SPACE <= s[k] < 0x80
  }

  lemma IllegalAre(seg: seq<byte>)
    ensures (exists k :: 0 <= k < |seg| && seg[k] in {0x22, 0x2A, 0x3A, 0x3C, 0x3E, 0x3F, 0x7C, 0x7F}) ==> !Acceptable(seg)
  {
    hide Trimmed;
    if k :| 0 <= k < |seg| && seg[k] in {0x22, 0x2A, 0x3A, 0x3C, 0x3E, 0x3F, 0x7C, 0x7F} {
      assert IsIllegal(seg[k]);
    }
  }

  /** create_name on a path of ASCII characters that ends with a zero: the object name of its first segment. A name
      that needs no long-name entries comes back from its short name and case flags just as it was. */
  method CreateName(path: seq<byte>) returns (res: FResult, o: ObjectName, next: nat)
    requires path != [] && path[|path| - 1] == 0 && forall k :: 0 <= k < |path| ==> path[k] < 0x80
    ensures res == if Acceptable(Segment(path)) then Ok else InvalidName
    ensures (exists k :: 0 <= k < |Segment(path)| && Segment(path)[k] in {0x22, 0x2A, 0x3A, 0x3C, 0x3E, 0x3F, 0x7C, 0x7F}) ==>
      res == InvalidName
    ensures res == Ok ==>
      next <= |path| && next > 0 && EndsSegment(path[next - 1]) && o.last == (path[next - 1] < SPACE)
    ensures res == Ok ==>
      o.lfn == Trimmed(Segment(path)) && IsText(o.lfn) && |o.fn| == SFN && NoZero(o.fn) && o.fn[0] != DDE
    ensures res == Ok ==> (o.loss <==> !Fits(o.lfn)) && (o.long <==> !IsPlain(o.lfn)) && (o.loss ==> o.long)
    ensures res == Ok ==> o.fn == Shortened(o.lfn) && (!o.loss ==> o.fn == ShortOf(o.lfn))
    ensures res == Ok && !o.long ==> Printed(o.fn, o.body, o.ext) == o.lfn
  {
    hide IsIllegal, IsPlain, Fits, ShortOf, Shortened, BodyOf, ExtOf, HasLower, Segment, SegmentEnd, SkipSeparators;
    hide Trimmed, Printed, EndsSegment, IsSeparator;
    o := ObjectName([], [], false, false, false, false, false);
    IllegalAre(Segment(path));
    var start := SkipLeading(path);
    var lfn: seq<byte>;
    res, lfn, next := TakeSegment(path, start);
    SegmentFrom(path, start);
    if res != Ok {
      return;
    }
    var name := StripEnd(lfn);
    if name == [] {
      return InvalidName, o, next;
    }
    assert forall k :: 0 <= k < |name| ==> name[k] == lfn[k];
    o := MakeShort(name, path[next - 1] < SPACE);
    if !o.long {
      PlainNameRoundTrip(name);
    }
  }

  lemma SegmentFrom(path: seq<byte>, start: nat)
    requires start == SkipSeparators(path, 0)
    ensures Segment(path) == path[start..SegmentEnd(path, start)]
    ensures SegmentEnd(path, start) < |path| ==> EndsSegment(path[SegmentEnd(path, start)])
  {
  }

  /** create_name: the separators in front of the segment. */
  method SkipLeading(path: seq<byte>) returns (start: nat)
    requires path != [] && path[|path| - 1] == 0
    ensures start == SkipSeparators(path, 0) < |path|
  {
    start := 0;
    while IsSeparator(path[start])
      invariant start < |path| && SkipSeparators(path, 0) == SkipSeparators(path, start)
      decreases |path| - start
    {
      start := start + 1;
    }
  }

  /** create_name: the dots and spaces at the end. */
  method StripEnd(lfn: seq<byte>) returns (name: seq<byte>)
    ensures name == Trimmed(lfn)
  {
    var di := |lfn|;
    assert lfn[..di] == lfn;
    while di > 0 && (lfn[di - 1] == SPACE || lfn[di - 1] == DOT)
      invariant di <= |lfn| && Trimmed(lfn) == Trimmed(lfn[..di])
    {
      assert lfn[..di][..di - 1] == lfn[..di - 1];
      di := di - 1;
    }
    name := lfn[..di];
  }

  lemma EndFound(path: seq<byte>, k: nat)
    requires k < |path| && path[|path| - 1] == 0
    ensures SegmentEnd(path, k) < |path|
  {
    assert EndsSegment(path[|path| - 1]);
  }

  lemma NextEnd(path: seq<byte>, k: nat)
    requires k < |path|
    ensures SegmentEnd(path, k) == if EndsSegment(path[k]) then k else SegmentEnd(path, k + 1)
    ensures !EndsSegment(path[k]) ==> SPACE <= path[k]
  {
  }

  /** create_name, first loop: the characters of the segment, unless it is too long or one of them is illegal. */
  method TakeSegment(path: seq<byte>, start: nat) returns (res: FResult, lfn: seq<byte>, next: nat)
    requires start < |path| && path[|path| - 1] == 0 && forall k :: 0 <= k < |path| ==> path[k] < 0x80
    ensures var seg := path[start..SegmentEnd(path, start)];
      res == if |seg| <= MAX_LFN && (forall k :: 0 <= k < |seg| ==> !IsIllegal(seg[k])) then Ok else InvalidName
    ensures res == Ok ==> SegmentEnd(path, start) < |path| && next == SegmentEnd(path, start) + 1
    ensures res == Ok ==> lfn == path[start..SegmentEnd(path, start)]
    ensures forall k :: 0 <= k < |lfn| ==> SPACE <= lfn[k] < 0x80
  {
    hide EndsSegment, IsIllegal;
    lfn := [];
    var si := start;
    EndFound(path, start);
    ghost var end := SegmentEnd(path, start);
    ghost var seg := path[start..end];
    while true
      invariant start <= si <= end < |path| && SegmentEnd(path, si) == end
      invariant lfn == path[start..si] && |lfn| <= MAX_LFN && forall k :: start <= k < si ==>
        !IsIllegal(path[k]) && SPACE <= path[k]
      decreases end - si
    {
      NextEnd(path, si);
      var w := path[si];
      if EndsSegment(w) {
        break;
      }
      if |lfn| >= MAX_LFN {
        return InvalidName, [], si;
      }
      if IsIllegal(w) {
        assert seg[si - start] == w;
        return InvalidName, [], si;
      }
      lfn := lfn + [w];
      si := si + 1;
    }
    next := si + 1;
    res := Ok;
  }
}
