/**
 The `_S5_` package in AML byte code (ACPI Specification 6.5, sections 20.2.3 to 20.2.5): how its
 pieces are encoded, and what the decoder in shutdown.c makes of arbitrary bytes.
 */
module Aml {
  import opened Words

  type Bytes = seq<Byte>

  // ---------- Little-endian numbers ----------

  function LE(v: nat, n: nat): (b: Bytes)
    ensures |b| == n
  {
    if n == 0 then [] else [v % 256] + LE(v / 256, n - 1)
  }

  function FromLE(b: Bytes): nat {
    if b == [] then 0 else b[0] + 256 * FromLE(b[1..])
  }

  function Pow256(n: nat): (p: nat)
    ensures p > 0
  {
    if n == 0 then 1 else 256 * Pow256(n - 1)
  }

  lemma {:induction false} LERoundTrip(v: nat, n: nat)
    requires v < Pow256(n)
    ensures FromLE(LE(v, n)) == v
  {
    if n > 0 {
      LERoundTrip(v / 256, n - 1);
      assert LE(v, n)[1..] == LE(v / 256, n - 1);
    }
  }

  lemma {:induction false} FromLERoundTrip(b: Bytes)
    ensures FromLE(b) < Pow256(|b|) && LE(FromLE(b), |b|) == b
  {
    if b != [] {
      FromLERoundTrip(b[1..]);
      assert FromLE(b) % 256 == b[0] && FromLE(b) / 256 == FromLE(b[1..]);
    }
  }

  lemma Rotate(x: int, p: int)
    ensures 256 * (x * p) == x * (256 * p)
  {
  }

  lemma {:induction false} FromLESnoc(b: Bytes, x: Byte)
    ensures FromLE(b + [x]) == FromLE(b) + x * Pow256(|b|)
  {
    if b == [] {
      assert [x][1..] == [];
    } else {
      assert (b + [x])[1..] == b[1..] + [x];
      FromLESnoc(b[1..], x);
      Rotate(x, Pow256(|b| - 1));
    }
  }

  // ---------- PkgLength ----------

  /**
   A package length on 1 + follow bytes. One byte holds six bits; with bytes to follow, the lead byte
   holds the low four bits, and its two spare bits are ignored.
   */
  function EncodePkg(len: nat, follow: nat, spare: nat): Bytes
    requires follow < 4 && spare < 4 && (follow == 0 ==> len < 64)
  {
    if follow == 0 then [len] else [follow * 64 + spare * 16 + len % 16] + LE(len / 16, follow)
  }

  /** The lengths that fit 1 + follow bytes: up to 2^28 - 1 on four. */
  predicate PkgFits(len: nat, follow: nat)
  {
    follow < 4 && if follow == 0 then len < 64 else len < 16 * Pow256(follow)
  }

  /** Next offset and end of the package whose length starts at at. */
  function ReadPkg(aml: Bytes, at: nat): (r: Option<(nat, nat)>)
    ensures r.Some? ==> at < r.value.0 && r.value.1 <= |aml|
  {
    if at >= |aml| || at + 1 + aml[at] / 64 > |aml| then None
    else
      var follow := aml[at] / 64;
      var len := if follow == 0 then aml[at] % 64
                 else aml[at] % 16 + 16 * FromLE(aml[at + 1..at + 1 + follow]);
      if len < 1 + follow || len > |aml| - at then None else Some((at + 1 + follow, at + len))
  }

  function Cut(x: nat, hi: nat): nat {
    if x > hi then hi else x
  }

  /** The bytes at at spell a package length that covers itself and stays inside the code. */
  ghost predicate PkgAt(aml: Bytes, at: nat, follow: nat, spare: nat, len: nat) {
    && PkgFits(len, follow) && spare < 4
    && EncodePkg(len, follow, spare) <= aml[Cut(at, |aml|)..]
    && 1 + follow <= len <= |aml| - at
  }

  lemma Parts(b: Bytes, at: nat, e: Bytes)
    requires at <= |b| && |e| > 0 && e <= b[at..]
    ensures at + |e| <= |b| && b[at] == e[0] && b[at + 1..at + |e|] == e[1..]
  {
    assert b[at..][..|e|] == e;
  }

  lemma LeadByte(follow: nat, spare: nat, low: nat)
    requires follow < 4 && spare < 4 && low < 16
    ensures (follow * 64 + spare * 16 + low) / 64 == follow && (follow * 64 + spare * 16 + low) % 16 == low
  {
  }

  lemma PkgDecodesLong(aml: Bytes, at: nat, follow: nat, spare: nat, len: nat)
    requires 0 < follow < 4 && spare < 4 && len / 16 < Pow256(follow)
    requires at + 1 + follow <= |aml| && 1 + follow <= len <= |aml| - at
    requires aml[at] == follow * 64 + spare * 16 + len % 16
    requires aml[at + 1..at + 1 + follow] == LE(len / 16, follow)
    ensures ReadPkg(aml, at) == Some((at + 1 + follow, at + len))
  {
    LERoundTrip(len / 16, follow);
    hide LE;
    hide FromLE;
    hide Pow256;
    LeadByte(follow, spare, len % 16);
  }

  /** Decoding inverts encoding, for every length and width. */
  lemma PkgDecodes(aml: Bytes, at: nat, follow: nat, spare: nat, len: nat)
    requires PkgAt(aml, at, follow, spare, len)
    ensures ReadPkg(aml, at) == Some((at + 1 + follow, at + len))
  {
    Parts(aml, at, EncodePkg(len, follow, spare));
    if follow > 0 {
      PkgDecodesLong(aml, at, follow, spare, len);
    }
  }

  lemma HeadAndTail(b: Bytes, at: nat, n: nat, x: Byte, tail: Bytes)
    requires at + 1 + n <= |b| && x == b[at] && tail == b[at + 1..at + 1 + n]
    ensures [x] + tail <= b[Cut(at, |b|)..]
  {
    assert b[at..][..1 + n] == [x] + tail;
  }

  lemma LeadParts(lead: Byte)
    ensures lead == lead / 64 * 64 + lead / 16 % 4 * 16 + lead % 16
    ensures lead / 64 == 0 ==> lead % 64 == lead
  {
    assert lead / 16 / 4 == lead / 64;
  }

  lemma LengthParts(low: nat, high: nat)
    requires low < 16
    ensures (low + 16 * high) / 16 == high && (low + 16 * high) % 16 == low
  {
  }

  lemma EncodeParts(follow: nat, spare: nat, low: nat, high: nat)
    requires 0 < follow < 4 && spare < 4 && low < 16
    ensures EncodePkg(low + 16 * high, follow, spare) == [follow * 64 + spare * 16 + low] + LE(high, follow)
  {
    LengthParts(low, high);
  }

  lemma EncodedBytes(lead: Byte, tail: Bytes)
    requires |tail| == lead / 64
    ensures var follow := lead / 64;
      var len := if follow == 0 then lead % 64 else lead % 16 + 16 * FromLE(tail);
      PkgFits(len, follow) && EncodePkg(len, follow, lead / 16 % 4) == [lead] + tail
  {
    hide FromLE;
    hide LE;
    hide Pow256;
    LeadParts(lead);
    if |tail| == 0 {
      assert [lead] + tail == [lead];
    } else {
      FromLERoundTrip(tail);
      hide EncodePkg;
      EncodeParts(lead / 64, lead / 16 % 4, lead % 16, FromLE(tail));
    }
  }

  /** Whatever it decodes was encoded that way. */
  lemma PkgEncoded(aml: Bytes, at: nat) returns (follow: nat, spare: nat, len: nat)
    requires ReadPkg(aml, at).Some?
    ensures PkgAt(aml, at, follow, spare, len)
    ensures ReadPkg(aml, at) == Some((at + 1 + follow, at + len))
  {
    hide FromLE;
    hide LE;
    hide Pow256;
    hide PkgFits;
    follow, spare := aml[at] / 64, aml[at] / 16 % 4;
    len := ReadPkg(aml, at).value.1 - at;
    var tail := aml[at + 1..at + 1 + follow];
    HeadAndTail(aml, at, follow, aml[at], tail);
    EncodedBytes(aml[at], tail);
    hide EncodePkg;
  }

  // ---------- Small integers ----------

  /** ZeroOp and OneOp take no operand bytes; the prefixes take 1, 2, 4 or 8. */
  predicate IntWidth(width: nat) {
    width == 0 || width == 1 || width == 2 || width == 4 || width == 8
  }

  function Prefix(width: nat): Byte
    requires width == 1 || width == 2 || width == 4 || width == 8
  {
    if width == 1 then 0x0A else if width == 2 then 0x0B else if width == 4 then 0x0C else 0x0E
  }

  function EncodeInt(v: nat, width: nat): Bytes
    requires IntWidth(width) && (width == 0 ==> v <= 1)
  {
    if width == 0 then [v] else [Prefix(width)] + LE(v, width)
  }

  /** The operand bytes of an opcode; None for an opcode the decoder does not know. */
  function Operands(opcode: Byte): Option<nat> {
    if opcode == 0x00 || opcode == 0x01 || opcode == 0xFF then Some(0)
    else if opcode == 0x0A then Some(1)
    else if opcode == 0x0B then Some(2)
    else if opcode == 0x0C then Some(4)
    else if opcode == 0x0E then Some(8)
    else None
  }

  /** Next offset and value of the integer at at, when it fits before end and is at most 7. */
  function ReadInt(aml: Bytes, end: nat, at: nat): Option<(nat, nat)>
    requires end <= |aml|
  {
    if at >= end || Operands(aml[at]).None? || Operands(aml[at]).value > end - at - 1 then None
    else
      var n := Operands(aml[at]).value;
      var v := if aml[at] == 0xFF then TWO_64 - 1
               else if n == 0 then aml[at]
               else FromLE(aml[at + 1..at + 1 + n]);
      if v > 7 then None else Some((at + 1 + n, v))
  }

  ghost predicate IntAt(aml: Bytes, end: nat, at: nat, width: nat, v: nat) {
    && IntWidth(width) && (width == 0 ==> v <= 1) && v <= 7
    && at + 1 + width <= end <= |aml|
    && EncodeInt(v, width) <= aml[Cut(at, |aml|)..]
  }

  lemma SmallFits(v: nat, width: nat)
    requires v <= 7 && width > 0
    ensures v < Pow256(width)
  {
  }

  lemma EncodedInt(v: nat, width: nat)
    requires IntWidth(width) && width > 0
    ensures |EncodeInt(v, width)| == 1 + width && Operands(EncodeInt(v, width)[0]) == Some(width)
    ensures EncodeInt(v, width)[0] != 0xFF && EncodeInt(v, width)[1..] == LE(v, width)
  {
    hide LE;
  }

  lemma IntDecodes(aml: Bytes, end: nat, at: nat, width: nat, v: nat)
    requires IntAt(aml, end, at, width, v)
    ensures ReadInt(aml, end, at) == Some((at + 1 + width, v))
  {
    Parts(aml, at, EncodeInt(v, width));
    if width > 0 {
      SmallFits(v, width);
      LERoundTrip(v, width);
      EncodedInt(v, width);
    }
    hide EncodeInt;
    hide LE;
    hide FromLE;
    hide Pow256;
    if width == 0 { assert aml[at] == v; }
  }

  lemma IntBytes(opcode: Byte, tail: Bytes, width: nat)
    requires Operands(opcode) == Some(width) && |tail| == width && opcode != 0xFF
    ensures IntWidth(width) && (width == 0 ==> opcode <= 1)
    ensures EncodeInt(if width == 0 then opcode else FromLE(tail), width) == [opcode] + tail
  {
    FromLERoundTrip(tail);
    hide FromLE;
    hide LE;
    hide Pow256;
  }

  lemma IntEncoded(aml: Bytes, end: nat, at: nat) returns (width: nat, v: nat)
    requires end <= |aml| && ReadInt(aml, end, at).Some?
    ensures IntAt(aml, end, at, width, v)
    ensures ReadInt(aml, end, at) == Some((at + 1 + width, v))
  {
    width, v := Operands(aml[at]).value, ReadInt(aml, end, at).value.1;
    var tail := aml[at + 1..at + 1 + width];
    HeadAndTail(aml, at, width, aml[at], tail);
    IntBytes(aml[at], tail, width);
    hide EncodeInt;
    hide Operands;
    hide FromLE;
  }

  // ---------- The _S5_ object ----------

  /** "_S5_" and PackageOp. */
  const S5_HEAD: Bytes := [0x5F, 0x53, 0x35, 0x5F, 0x12]

  predicate HeadAt(aml: Bytes, i: nat) {
    i + 5 <= |aml| && aml[i..i + 5] == S5_HEAD
  }

  function ReadPair(aml: Bytes, end: nat, at: nat): Option<(nat, nat)>
    requires end <= |aml|
  {
    match ReadInt(aml, end, at)
    case None => None
    case Some((second, a)) =>
      match ReadInt(aml, end, second)
      case None => None
      case Some((_, b)) => Some((a, b))
  }

  /** What aml_find_s5 makes of the bytes at i: the two sleep values, or nothing. */
  function ReadS5(aml: Bytes, i: nat): Option<(nat, nat)> {
    if !HeadAt(aml, i) then None
    else
      match ReadPkg(aml, i + 5)
      case None => None
      case Some((next, end)) =>
        if next >= end || aml[next] < 2 then None else ReadPair(aml, end, next + 1)
  }

  /** The widths chosen for the package length and the two integers. */
  datatype Shape = Shape(follow: nat, spare: nat, len: nat, count: Byte, widthA: nat, widthB: nat)

  ghost predicate ValuesAt(aml: Bytes, end: nat, at: nat, x: Shape, a: nat, b: nat) {
    && at < end <= |aml| && x.count >= 2 && aml[at] == x.count
    && IntAt(aml, end, at + 1, x.widthA, a)
    && IntAt(aml, end, at + 2 + x.widthA, x.widthB, b)
  }

  /**
   A well-formed _S5_ package at i: the name, a package length, an element count of at least two, and
   two integers up to 7, the whole inside the package and the package inside the code.
   */
  ghost predicate S5At(aml: Bytes, i: nat, x: Shape, a: nat, b: nat) {
    && HeadAt(aml, i)
    && PkgAt(aml, i + 5, x.follow, x.spare, x.len)
    && ValuesAt(aml, i + 5 + x.len, i + 6 + x.follow, x, a, b)
  }

  lemma ValuesBounds(aml: Bytes, end: nat, at: nat, x: Shape, a: nat, b: nat)
    requires ValuesAt(aml, end, at, x, a, b)
    ensures at < end <= |aml| && aml[at] >= 2
  {
  }

  lemma ValuesDecode(aml: Bytes, end: nat, at: nat, x: Shape, a: nat, b: nat)
    requires ValuesAt(aml, end, at, x, a, b)
    ensures ReadPair(aml, end, at + 1) == Some((a, b))
  {
    hide ReadInt;
    IntDecodes(aml, end, at + 1, x.widthA, a);
    IntDecodes(aml, end, at + 2 + x.widthA, x.widthB, b);
  }

  lemma S5Decodes(aml: Bytes, i: nat, x: Shape, a: nat, b: nat)
    requires S5At(aml, i, x, a, b)
    ensures ReadS5(aml, i) == Some((a, b))
  {
    hide PkgAt;
    hide ValuesAt;
    hide ReadPkg;
    hide ReadPair;
    hide HeadAt;
    var at, end := i + 6 + x.follow, i + 5 + x.len;
    PkgDecodes(aml, i + 5, x.follow, x.spare, x.len);
    ValuesBounds(aml, end, at, x, a, b);
    ValuesDecode(aml, end, at, x, a, b);
  }

  lemma S5Encoded(aml: Bytes, i: nat) returns (x: Shape)
    requires ReadS5(aml, i).Some?
    ensures S5At(aml, i, x, ReadS5(aml, i).value.0, ReadS5(aml, i).value.1)
  {
    hide EncodeInt;
    hide EncodePkg;
    hide ReadInt;
    hide ReadPkg;
    var follow, spare, len := PkgEncoded(aml, i + 5);
    var next, end := i + 6 + follow, i + 5 + len;
    var widthA, a := IntEncoded(aml, end, next + 1);
    var widthB, b := IntEncoded(aml, end, next + 2 + widthA);
    x := Shape(follow, spare, len, aml[next], widthA, widthB);
  }

  ghost predicate Holds(aml: Bytes, i: nat) {
    exists x: Shape, a: nat, b: nat :: S5At(aml, i, x, a, b)
  }

  predicate Accepts(aml: Bytes, i: nat) {
    ReadS5(aml, i).Some?
  }

  /** The decoder accepts exactly the offsets where a well-formed package starts. */
  lemma AcceptsExactly(aml: Bytes, i: nat)
    ensures Accepts(aml, i) <==> Holds(aml, i)
  {
    hide ReadS5;
    hide S5At;
    if ReadS5(aml, i).Some? {
      var x := S5Encoded(aml, i);
    }
    if x: Shape, a: nat, b: nat :| S5At(aml, i, x, a, b) {
      S5Decodes(aml, i, x, a, b);
    }
  }

  // ---------- The search and the control words ----------

  /** The first offset from i on that the decoder accepts. */
  function FindFrom(aml: Bytes, i: nat): Option<nat>
    decreases |aml| - i
  {
    if i + 5 > |aml| then None
    else if Accepts(aml, i) then Some(i)
    else FindFrom(aml, i + 1)
  }

  lemma TooShort(aml: Bytes, i: nat)
    requires i + 5 > |aml|
    ensures !Accepts(aml, i)
  {
  }

  lemma {:induction false} FindFromFirst(aml: Bytes, i: nat)
    ensures FindFrom(aml, i).Some? ==> FindFrom(aml, i).value >= i && Accepts(aml, FindFrom(aml, i).value)
    ensures FindFrom(aml, i).Some? ==> forall j :: i <= j < FindFrom(aml, i).value ==> !Accepts(aml, j)
    ensures FindFrom(aml, i).None? ==> forall j :: i <= j ==> !Accepts(aml, j)
    decreases |aml| - i
  {
    hide Accepts;
    if i + 5 <= |aml| {
      FindFromFirst(aml, i + 1);
    } else {
      forall j | i <= j ensures !Accepts(aml, j) {
        TooShort(aml, j);
      }
    }
  }

  /** The sleep types of the first package the decoder accepts. */
  function SleepTypes(aml: Bytes): Option<(nat, nat)> {
    match FindFrom(aml, 0)
    case None => None
    case Some(i) => ReadS5(aml, i)
  }

  lemma SmallValues(aml: Bytes, i: nat, x: Shape, a: nat, b: nat)
    requires S5At(aml, i, x, a, b)
    ensures a <= 7 && b <= 7
  {
  }

  /**
   aml_find_s5 succeeds exactly when some offset starts a well-formed package, and then returns the
   two integers of the one with the smallest offset.
   */
  lemma FindMeans(aml: Bytes)
    ensures SleepTypes(aml).Some? <==> exists i: nat :: Holds(aml, i)
    ensures SleepTypes(aml).Some? ==>
      var (a, b) := SleepTypes(aml).value;
      && a <= 7 && b <= 7
      && exists i: nat, x: Shape :: S5At(aml, i, x, a, b) && forall j: nat :: j < i ==> !Holds(aml, j)
  {
    hide ReadS5;
    hide S5At;
    FindFromFirst(aml, 0);
    forall i: nat ensures Accepts(aml, i) <==> Holds(aml, i) {
      AcceptsExactly(aml, i);
    }
    if FindFrom(aml, 0).Some? {
      var i := FindFrom(aml, 0).value;
      var x := S5Encoded(aml, i);
      SmallValues(aml, i, x, ReadS5(aml, i).value.0, ReadS5(aml, i).value.1);
    }
  }

  const SLP_EN := 0x2000

  /** A PM1 control word: the sleep type in bits 10 to 12, SLP_EN in bit 13, nothing else. */
  function ControlWord(typ: nat): nat
    requires typ <= 7
  {
    typ * 0x400 + SLP_EN
  }

  lemma ControlWordBits(typ: nat)
    requires typ <= 7
    ensures var w := ControlWord(typ);
      w / 0x400 % 8 == typ && w / 0x2000 == 1 && w % 0x400 == 0
  {
  }

  // ---------- The decoders byte by byte ----------

  function Num(b: Bytes, i: nat): int
    requires i < |b|
  {
    b[i]
  }

  lemma FromLECons(b: Bytes, i: nat)
    requires i < |b|
    ensures FromLE(b[i..]) == Num(b, i) + 256 * FromLE(b[i + 1..])
  {
    assert b[i..][1..] == b[i + 1..];
  }

  lemma ThreeBytes(b: Bytes)
    requires 1 <= |b| <= 3
    ensures FromLE(b) == Num(b, 0) + (if |b| > 1 then 0x100 * Num(b, 1) else 0)
                         + (if |b| > 2 then 0x1_0000 * Num(b, 2) else 0)
  {
    assert b[0..] == b;
    FromLECons(b, 0);
    if |b| > 1 { FromLECons(b, 1); }
    if |b| > 2 { FromLECons(b, 2); }
    assert FromLE(b[|b|..]) == 0;
    hide FromLE;
  }

  /** The length spelled at at: six bits on one byte, or four bits and then whole bytes, low ones first. */
  ghost predicate Spells(aml: Bytes, at: nat, bytes: nat, len: int) {
    && 1 <= bytes <= 4 && at + bytes <= |aml|
    && var lead := Num(aml, at);
    && (bytes == 1 ==> lead < 64 && len == lead)
    && (bytes == 2 ==> 64 <= lead < 128 && len == lead % 16 + 16 * Num(aml, at + 1))
    && (bytes == 3 ==> 128 <= lead < 192 && len == lead % 16 + 16 * Num(aml, at + 1) + 0x1000 * Num(aml, at + 2))
    && (bytes == 4 ==>
          192 <= lead
          && len == lead % 16 + 16 * Num(aml, at + 1) + 0x1000 * Num(aml, at + 2) + 0x10_0000 * Num(aml, at + 3))
  }

  lemma LengthSpelled(aml: Bytes, at: nat)
    requires at < |aml| && at + 1 + aml[at] / 64 <= |aml|
    ensures var follow := aml[at] / 64;
      Spells(aml, at, 1 + follow, if follow == 0 then aml[at] % 64
                                  else aml[at] % 16 + 16 * FromLE(aml[at + 1..at + 1 + follow]))
  {
    var follow := aml[at] / 64;
    if follow > 0 {
      var b := aml[at + 1..at + 1 + follow];
      ThreeBytes(b);
      hide FromLE;
      assert Num(b, 0) == Num(aml, at + 1);
      assert follow > 1 ==> Num(b, 1) == Num(aml, at + 2);
      assert follow > 2 ==> Num(b, 2) == Num(aml, at + 3);
    }
  }

  lemma SpellsOne(aml: Bytes, at: nat, bytes: nat, len: int, bytes': nat, len': int)
    requires Spells(aml, at, bytes, len) && Spells(aml, at, bytes', len')
    ensures bytes == bytes' && len == len'
  {
  }

  lemma SpellsLead(aml: Bytes, at: nat, bytes: nat, len: int)
    requires Spells(aml, at, bytes, len)
    ensures at < |aml| && at + 1 + aml[at] / 64 <= |aml|
  {
  }

  /** A package is accepted exactly when its length covers the length bytes and stays inside the code. */
  lemma PkgReads(aml: Bytes, at: nat, next: nat, end: nat)
    ensures ReadPkg(aml, at) == Some((next, end)) <==>
      at < next && Spells(aml, at, next - at, end - at) && next <= end <= |aml|
  {
    hide Spells;
    hide FromLE;
    if at < |aml| && at + 1 + aml[at] / 64 <= |aml| {
      LengthSpelled(aml, at);
      var follow := aml[at] / 64;
      var len := if follow == 0 then aml[at] % 64 else aml[at] % 16 + 16 * FromLE(aml[at + 1..at + 1 + follow]);
      if at < next && Spells(aml, at, next - at, end - at) {
        SpellsOne(aml, at, next - at, end - at, 1 + follow, len);
      }
    } else if at < next && Spells(aml, at, next - at, end - at) {
      SpellsLead(aml, at, next - at, end - at);
    }
  }

  lemma {:induction false} ZeroBytes(b: Bytes)
    ensures FromLE(b) == 0 <==> forall i :: 0 <= i < |b| ==> b[i] == 0
  {
    if b != [] { ZeroBytes(b[1..]); }
  }

  lemma SmallNumber(b: Bytes)
    requires b != []
    ensures FromLE(b) <= 7 <==> b[0] <= 7 && forall i :: 1 <= i < |b| ==> b[i] == 0
    ensures FromLE(b) <= 7 ==> FromLE(b) == b[0]
  {
    ZeroBytes(b[1..]);
    if FromLE(b) <= 7 { assert FromLE(b[1..]) == 0; }
    if forall i :: 1 <= i < |b| ==> b[i] == 0 {
      assert forall i :: 0 <= i < |b[1..]| ==> b[1..][i] == 0;
    }
  }

  /** The n bytes behind the opcode at at hold the number v, low byte first. */
  ghost predicate Holding(aml: Bytes, end: nat, at: nat, n: nat, v: nat) {
    && 1 <= n && at + 1 + n <= end <= |aml|
    && aml[at + 1] == v <= 7 && forall i :: at + 2 <= i < at + 1 + n ==> aml[i] == 0
  }

  lemma HoldingIs(aml: Bytes, end: nat, at: nat, n: nat, v: nat)
    requires 1 <= n && at + 1 + n <= end <= |aml|
    ensures Holding(aml, end, at, n, v) <==> FromLE(aml[at + 1..at + 1 + n]) == v <= 7
  {
    var b := aml[at + 1..at + 1 + n];
    SmallNumber(b);
    hide FromLE;
    assert forall i :: 1 <= i < n ==> b[i] == aml[at + 1 + i];
    assert (forall i :: 1 <= i < n ==> b[i] == 0) <==> (forall i :: at + 2 <= i < at + 1 + n ==> aml[i] == 0) by {
      if forall i :: 1 <= i < n ==> b[i] == 0 {
        forall i | at + 2 <= i < at + 1 + n ensures aml[i] == 0 { assert aml[i] == b[i - at - 1]; }
      }
    }
  }

  /** An integer is accepted in exactly these forms: Zero, One, and one, two, four or eight bytes up to 7. */
  lemma IntReads(aml: Bytes, end: nat, at: nat, next: nat, v: nat)
    requires end <= |aml|
    ensures ReadInt(aml, end, at) == Some((next, v)) <==>
      && at < end
      && (|| (aml[at] == v && v <= 1 && next == at + 1)
          || (aml[at] == 0x0A && Holding(aml, end, at, 1, v) && next == at + 2)
          || (aml[at] == 0x0B && Holding(aml, end, at, 2, v) && next == at + 3)
          || (aml[at] == 0x0C && Holding(aml, end, at, 4, v) && next == at + 5)
          || (aml[at] == 0x0E && Holding(aml, end, at, 8, v) && next == at + 9))
  {
    if at < end && Operands(aml[at]).Some? {
      var n := Operands(aml[at]).value;
      if n > 0 && at + 1 + n <= end { HoldingIs(aml, end, at, n, v); }
    }
    hide FromLE;
  }

  lemma PkgInside(aml: Bytes, at: nat)
    requires ReadPkg(aml, at).Some?
    ensures ReadPkg(aml, at).value.1 <= |aml|
  {
  }

  /** An accepted offset: "_S5_", the package opcode, a package of two elements or more, and two integers. */
  lemma S5Reads(aml: Bytes, i: nat, a: nat, b: nat)
    ensures ReadS5(aml, i) == Some((a, b)) <==>
      && i + 5 <= |aml| && aml[i..i + 5] == [0x5F, 0x53, 0x35, 0x5F, 0x12]
      && exists next, end, second, last ::
           && ReadPkg(aml, i + 5) == Some((next, end)) && next < end <= |aml| && aml[next] >= 2
           && ReadInt(aml, end, next + 1) == Some((second, a)) && ReadInt(aml, end, second) == Some((last, b))
  {
    hide ReadPkg;
    hide ReadInt;
    if HeadAt(aml, i) && ReadPkg(aml, i + 5).Some? {
      PkgInside(aml, i + 5);
      var (next, end) := ReadPkg(aml, i + 5).value;
      if ReadInt(aml, end, next + 1).Some? {
        var (second, x) := ReadInt(aml, end, next + 1).value;
        if ReadInt(aml, end, second).Some? { var (last, y) := ReadInt(aml, end, second).value; }
      }
    }
  }
}
