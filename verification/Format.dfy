/**
 What kvsnprintf renders: the text a format and its arguments stand for, whatever the size of the
 buffer, and when it is a panic instead.
 */
module Format {
  import opened Words

  /** buf_num is 70 bytes long, and a parsed width is cut to two less. */
  const BUF_NUM_LEN := 70
  const WIDTH_CUT := 68
  /** uvalue_to_str asserts that the minimum width is at most 32. */
  const MAX_WIDTH := 32

  type I64 = x: int | -0x8000_0000_0000_0000 <= x < 0x8000_0000_0000_0000
  type U64 = x: int | 0 <= x < 0x1_0000_0000_0000_0000

  // ---------- Numbers ----------

  function DigitChar(d: nat): char
    requires d < 36
  {
    if d < 10 then (48 + d) as char else (87 + d) as char
  }

  function DigitValue(c: char): int {
    if '0' <= c <= '9' then c as int - 48 else c as int - 87
  }

  /** The digits of v, most significant first; none for 0. */
  function Digits(v: nat, base: nat): string
    requires 2 <= base <= 36
  {
    if v == 0 then "" else Digits(v / base, base) + [DigitChar(v % base)]
  }

  function Zeros(n: nat): (s: string)
    ensures |s| == n
  {
    seq(n, _ => '0')
  }

  function Numeral(v: nat, base: nat): string
    requires 2 <= base <= 36
  {
    if v == 0 then "0" else Digits(v, base)
  }

  /** uvalue_to_str: the width only counts when zeros may fill it. */
  function Padded(v: nat, base: nat, width: nat, zpad: bool): string
    requires 2 <= base <= 36
  {
    var s := Numeral(v, base);
    if zpad && |s| < width then Zeros(width - |s|) + s else s
  }

  /** Reading digits back, most significant first. */
  function Value(s: string, base: nat): int {
    if s == "" then 0 else Value(s[..|s| - 1], base) * base + DigitValue(s[|s| - 1])
  }

  lemma DigitRoundTrip(d: nat)
    requires d < 36
    ensures DigitValue(DigitChar(d)) == d
    ensures DigitChar(d) == '0' <==> d == 0
  {
  }

  lemma DivModParts(v: nat, base: nat) returns (q: nat, r: nat)
    requires base >= 2
    ensures q == v / base && r == v % base && r < base && v == q * base + r
  {
    q, r := v / base, v % base;
  }

  lemma AtLeastDouble(q: nat, d: nat)
    ensures q * (2 + d) >= q * 2
  {
    assert q * (2 + d) == q * 2 + q * d;
  }

  lemma DivMod(v: nat, base: nat) returns (q: nat, r: nat)
    requires base >= 2
    ensures q == v / base && r == v % base && r < base && v == q * base + r
    ensures v > 0 ==> q < v
    ensures q <= v / 2
  {
    q, r := DivModParts(v, base);
    AtLeastDouble(q, base - 2);
  }

  lemma LastDigit(v: nat, base: nat) returns (q: nat, r: nat)
    requires 2 <= base <= 36 && v > 0
    ensures q == v / base && r == v % base
    ensures q < v && r < base && v == q * base + r && q <= v / 2
    ensures Digits(v, base) == Digits(q, base) + [DigitChar(r)]
  {
    q, r := DivMod(v, base);
  }

  lemma ValueSnoc(s: string, c: char, base: nat)
    ensures Value(s + [c], base) == Value(s, base) * base + DigitValue(c)
  {
    assert (s + [c])[..|s|] == s;
  }

  lemma {:induction false} DigitsReadBack(v: nat, base: nat)
    requires 2 <= base <= 36
    ensures Value(Digits(v, base), base) == v
  {
    if v > 0 {
      var q, r := LastDigit(v, base);
      hide Digits;
      DigitsReadBack(q, base);
      DigitRoundTrip(r);
      ValueSnoc(Digits(q, base), DigitChar(r), base);
    }
  }

  lemma {:induction false} LeadingZeros(n: nat, s: string, base: nat)
    ensures Value(Zeros(n) + s, base) == Value(s, base)
    decreases n + |s|
  {
    if s == "" {
      assert Zeros(n) + s == Zeros(n);
      if n > 0 {
        assert Zeros(n)[..n - 1] == Zeros(n - 1) + "";
        LeadingZeros(n - 1, "", base);
      }
    } else {
      assert (Zeros(n) + s)[..n + |s| - 1] == Zeros(n) + s[..|s| - 1];
      LeadingZeros(n, s[..|s| - 1], base);
    }
  }

  /** Every number reads back from its digits, in every base and with any padding. */
  lemma PaddedReadsBack(v: nat, base: nat, width: nat, zpad: bool)
    requires 2 <= base <= 36
    ensures Value(Padded(v, base, width, zpad), base) == v
    ensures |Padded(v, base, width, zpad)| == if zpad && |Numeral(v, base)| < width then width else |Numeral(v, base)|
  {
    DigitsReadBack(v, base);
    var s := Numeral(v, base);
    if v == 0 { assert s[..0] == ""; }
    if zpad && |s| < width { LeadingZeros(width - |s|, s, base); }
  }

  /** No digit more than needed: the first digit of a positive number is not 0. */
  lemma {:induction false} NoLeadingZero(v: nat, base: nat)
    requires 2 <= base <= 36 && v > 0
    ensures |Digits(v, base)| > 0 && Digits(v, base)[0] != '0'
  {
    var q, r := LastDigit(v, base);
    DigitRoundTrip(r);
    if q > 0 {
      hide Digits;
      NoLeadingZero(q, base);
    }
  }

  /** A number below 2^n has at most n digits in any base, so 64-bit numbers fit buf_num. */
  lemma {:induction false} DigitsFit(v: nat, base: nat, n: nat)
    requires 2 <= base <= 36 && v < Pow2(n)
    ensures |Digits(v, base)| <= n
  {
    if v > 0 {
      var q, r := LastDigit(v, base);
      hide Digits;
      DigitsFit(q, base, n - 1);
    }
  }

  // ---------- Conversions ----------

  /** An argument as the conversion that fetches it sees it. */
  datatype Arg =
    | ArgInt(i: I32)
    | ArgUInt(u: Word)
    | ArgLong(l: I64)
    | ArgULong(v: U64)
    | ArgPtr(p: Word)
    | ArgChar(c: char)
    | ArgStr(s: Option<string>)

  /** A text, a failed assertion, or a format the source gives no meaning to. */
  datatype Rendering = Text(s: string) | Panics | Undefined

  function Cat(s: string, r: Rendering): Rendering {
    if r.Text? then Text(s + r.s) else r
  }

  function IsDigit(c: char): bool {
    '0' <= c <= '9'
  }

  /** The width's digits stop counting at 10000. */
  function Widen(w: nat, c: char): nat
    requires IsDigit(c)
  {
    if w < 10000 then w * 10 + (c as int - 48) else w
  }

  /** The index after the digits from i on, and the width they give on top of w. */
  function Width(fmt: string, i: nat, w: nat): (r: (nat, nat))
    requires i <= |fmt|
    ensures i <= r.0 <= |fmt|
    decreases |fmt| - i
  {
    if i < |fmt| && IsDigit(fmt[i]) then Width(fmt, i + 1, Widen(w, fmt[i])) else (i, w)
  }

  /** What stands between '%' and the conversion character, which is at at. */
  datatype Spec = Spec(zpad: bool, width: nat, long: bool, at: nat)

  function ParseSpec(fmt: string, i: nat): (sp: Spec)
    requires i <= |fmt|
    ensures i <= sp.at <= |fmt|
  {
    var zpad := i < |fmt| && fmt[i] == '0';
    var (j, w) := Width(fmt, if zpad then i + 1 else i, 0);
    var long := j < |fmt| && fmt[j] == 'l';
    Spec(zpad, if w > WIDTH_CUT then WIDTH_CUT else w, long, if long then j + 1 else j)
  }

  function Signed(v: int, width: nat, zpad: bool): Rendering {
    if width > MAX_WIDTH then Panics
    else Text((if v < 0 then "-" else "") + Padded(if v < 0 then -v else v, 10, width, zpad))
  }

  function Unsigned(v: nat, base: nat, width: nat, zpad: bool): Rendering
    requires 2 <= base <= 36
  {
    if width > MAX_WIDTH then Panics else Text(Padded(v, base, width, zpad))
  }

  function BaseOf(c: char): (b: nat)
    ensures 2 <= b <= 16
  {
    if c == 'x' then 16 else if c == 'o' then 8 else if c == 'b' then 2 else 10
  }

  predicate Numeric(c: char) {
    c == 'd' || c == 'i' || c == 'u' || c == 'x' || c == 'o' || c == 'b' || c == 'p'
  }

  predicate Fetches(c: char) {
    Numeric(c) || c == 'c' || c == 's'
  }

  /** One conversion; a mismatch between conversion and argument is undefined, and so is %f here. */
  function Convert(sp: Spec, c: char, args: seq<Arg>): Rendering {
    if c == 'f' || (Fetches(c) && args == []) then Undefined
    else if c == 'd' || c == 'i' then
      if !sp.long && args[0].ArgInt? then Signed(args[0].i, sp.width, sp.zpad)
      else if sp.long && args[0].ArgLong? then Signed(args[0].l, sp.width, sp.zpad)
      else Undefined
    else if c == 'u' || c == 'x' || c == 'o' || c == 'b' then
      if !sp.long && args[0].ArgUInt? then Unsigned(args[0].u, BaseOf(c), sp.width, sp.zpad)
      else if sp.long && args[0].ArgULong? then Unsigned(args[0].v, BaseOf(c), sp.width, sp.zpad)
      else Undefined
    else if c == 'p' then
      if args[0].ArgPtr? then Text("0x" + Padded(args[0].p, 16, 8, true)) else Undefined
    else if c == 'c' then
      if args[0].ArgChar? then Text([args[0].c]) else Undefined
    else if c == 's' then
      if args[0].ArgStr? then Text(if args[0].s.Some? then args[0].s.value else "(null)") else Undefined
    else if c == '%' then Text("%")
    else Text(['%', c])
  }

  function Rest(c: char, args: seq<Arg>): seq<Arg> {
    if Fetches(c) && args != [] then args[1..] else args
  }

  /** The rendering of the format from index i on. */
  function Render(fmt: string, i: nat, args: seq<Arg>): Rendering
    requires i <= |fmt|
    decreases |fmt| - i
  {
    if i == |fmt| then Text("")
    else if fmt[i] == '%' && i + 1 < |fmt| then
      var sp := ParseSpec(fmt, i + 1);
      if sp.at == |fmt| then Undefined
      else
        match Convert(sp, fmt[sp.at], args)
        case Text(s) => Cat(s, Render(fmt, sp.at + 1, Rest(fmt[sp.at], args)))
        case other => other
    else Cat([fmt[i]], Render(fmt, i + 1, args))
  }

  /** A conversion of a format: what its specification says, and its character. */
  datatype Conversion = Conversion(sp: Spec, c: char)

  /** The conversions of the format from index i on, in order. */
  function Conversions(fmt: string, i: nat): seq<Conversion>
    requires i <= |fmt|
    decreases |fmt| - i
  {
    if i == |fmt| then []
    else if fmt[i] == '%' && i + 1 < |fmt| then
      var sp := ParseSpec(fmt, i + 1);
      if sp.at == |fmt| then [] else [Conversion(sp, fmt[sp.at])] + Conversions(fmt, sp.at + 1)
    else Conversions(fmt, i + 1)
  }

  /** A number wider than uvalue_to_str accepts; %p always has width 8. */
  predicate TooWide(x: Conversion) {
    Numeric(x.c) && x.c != 'p' && x.sp.width > MAX_WIDTH
  }

  lemma PanicsIfTooWide(sp: Spec, c: char, args: seq<Arg>)
    requires !Convert(sp, c, args).Undefined?
    ensures Convert(sp, c, args).Panics? <==> TooWide(Conversion(sp, c))
  {
    hide Padded;
  }

  /** A format with a meaning panics exactly when one of its conversions is a number that is too wide. */
  lemma {:induction false} PanicsIff(fmt: string, i: nat, args: seq<Arg>)
    requires i <= |fmt| && !Render(fmt, i, args).Undefined?
    ensures Render(fmt, i, args).Panics? <==> exists x <- Conversions(fmt, i) :: TooWide(x)
    decreases |fmt| - i
  {
    hide Convert;
    hide ParseSpec;
    hide TooWide;
    if i < |fmt| {
      if fmt[i] == '%' && i + 1 < |fmt| {
        var sp := ParseSpec(fmt, i + 1);
        var x, rest := Conversion(sp, fmt[sp.at]), Conversions(fmt, sp.at + 1);
        PanicsIfTooWide(sp, x.c, args);
        assert forall y :: y in [x] + rest <==> y == x || y in rest;
        if Convert(sp, x.c, args).Text? { PanicsIff(fmt, sp.at + 1, Rest(x.c, args)); }
      } else {
        PanicsIff(fmt, i + 1, args);
      }
    }
  }

  /** For instance: the width 33 is accepted by the format and refused by the number formatter. */
  lemma WideNumberPanics(n: I32)
    ensures Render("%33d", 0, [ArgInt(n)]).Panics?
  {
    var fmt := "%33d";
    assert Width(fmt, 3, 33) == (3, 33);
    assert Width(fmt, 2, 3) == (3, 33);
    assert Width(fmt, 1, 0) == (3, 33);
  }

  /** A signed number with or without its sign. */
  function SignedValue(s: string): int {
    if s != "" && s[0] == '-' then -Value(s[1..], 10) else Value(s, 10)
  }

  lemma {:induction false} DigitsHaveNoSign(v: nat, base: nat)
    requires 2 <= base <= 36
    ensures '-' !in Digits(v, base)
  {
    if v > 0 {
      var q, r := LastDigit(v, base);
      hide Digits;
      DigitsHaveNoSign(q, base);
    }
  }

  /** %d reads back to the number for every value, the most negative included, and every legal width. */
  lemma SignedReadsBack(v: int, width: nat, zpad: bool)
    requires width <= MAX_WIDTH
    ensures Signed(v, width, zpad).Text? && SignedValue(Signed(v, width, zpad).s) == v
  {
    hide Digits;
    hide Value;
    var n := if v < 0 then -v else v;
    var s := Padded(n, 10, width, zpad);
    PaddedReadsBack(n, 10, width, zpad);
    DigitsHaveNoSign(n, 10);
    if v < 0 {
      assert ("-" + s)[1..] == s;
    } else {
      assert "" + s == s;
      assert '-' !in s;
    }
  }

  // ---------- Bounded output ----------

  function Min(a: int, b: int): int {
    if a < b then a else b
  }

  /** A buffer of which the first size characters may be written, after s has been emitted. */
  function Emitted(was: string, size: nat, s: string): string
    requires size <= |was|
  {
    if size == 0 then was else s[..Min(|s|, size - 1)] + was[Min(|s|, size - 1)..]
  }

  /** And after the terminating NUL. */
  function Finished(was: string, size: nat, s: string): string
    requires size <= |was|
  {
    if size == 0 then was
    else s[..Min(|s|, size - 1)] + ['\0'] + was[Min(|s|, size - 1) + 1..]
  }

  lemma EmitOne(was: string, size: nat, s: string, c: char)
    requires size <= |was|
    ensures |Emitted(was, size, s)| == |was|
    ensures Emitted(was, size, s + [c]) ==
      if size > 0 && |s| < size - 1 then Emitted(was, size, s)[|s| := c] else Emitted(was, size, s)
  {
  }

  lemma ReplaceFirst(a: string, b: string, c: char)
    requires |b| > 0
    ensures (a + b)[|a| := c] == a + [c] + b[1..]
  {
  }

  lemma Terminate(was: string, size: nat, s: string)
    requires 0 < size <= |was|
    ensures Min(|s|, size - 1) < |was| == |Emitted(was, size, s)|
    ensures Emitted(was, size, s)[Min(|s|, size - 1) := '\0'] == Finished(was, size, s)
  {
    var n := Min(|s|, size - 1);
    ReplaceFirst(s[..n], was[n..], '\0');
    assert was[n..][1..] == was[n + 1..];
  }

  /** The finished buffer, character by character: as much text as leaves room for the NUL, the NUL, the old rest. */
  lemma FinishedMeans(was: string, size: nat, s: string, i: nat)
    requires size <= |was| && i < |was|
    ensures |Finished(was, size, s)| == |was|
    ensures Finished(was, size, s)[i] ==
      if i < |s| && i + 1 < size then s[i]
      else if i < size && (i == |s| || (i < |s| && i + 1 == size)) then 0 as char
      else was[i]
  {
  }
}
