/** buffer.c and string.c: the digit loop, and the scanner that writes through EMIT_CHAR. */
module Printf {
  import opened Words
  import opened Format

  ghost function Reversed(s: string): (r: string)
    ensures |r| == |s|
  {
    seq(|s|, i requires 0 <= i < |s| => s[|s| - 1 - i])
  }

  lemma ReversedSnoc(s: string, c: char)
    ensures Reversed(s + [c]) == [c] + Reversed(s)
  {
  }

  lemma ReversedTwice(s: string)
    ensures Reversed(Reversed(s)) == s
  {
  }

  /** A 64-bit number has at most 64 digits, and padding goes no further than 32. */
  const MAX_DIGITS := 64

  lemma FirstDigits(all: string)
    ensures all + Reversed("") == all
  {
  }

  lemma NoDigits(base: nat, s: string)
    requires 2 <= base <= 36
    ensures Digits(0, base) + s == s
  {
  }

  lemma Regroup(a: string, c: char, b: string)
    ensures a + [c] + b == a + ([c] + b)
  {
  }

  lemma DigitStep(v: nat, base: nat, done: string, all: string)
    requires 2 <= base <= 36 && v > 0 && all == Digits(v, base) + Reversed(done)
    ensures |all| > |done| && 0 <= v / base < v && 0 <= v % base < base
    ensures all == Digits(v / base, base) + Reversed(done + [DigitChar(v % base)])
  {
    var q, r := LastDigit(v, base);
    hide Digits;
    ReversedSnoc(done, DigitChar(r));
    Regroup(Digits(q, base), DigitChar(r), Reversed(done));
  }

  lemma FourBits(n: nat)
    ensures Pow2(n + 4) == 16 * Pow2(n)
  {
    assert Pow2(n + 2) == 2 * Pow2(n + 1);
    assert Pow2(n + 4) == 2 * Pow2(n + 3);
  }

  lemma SixteenBits(n: nat)
    ensures Pow2(n + 16) == 0x1_0000 * Pow2(n)
  {
    hide Pow2;
    FourBits(n);
    FourBits(n + 4);
    FourBits(n + 8);
    FourBits(n + 12);
  }

  lemma SixtyFourBits()
    ensures Pow2(64) == TWO_64
  {
    assert Pow2(0) == 1;
    hide Pow2;
    SixteenBits(0);
    SixteenBits(16);
    SixteenBits(32);
    SixteenBits(48);
  }

  /** Every 64-bit number, padded or not, fits 64 characters. */
  lemma PaddedFits(val: U64, base: int, minW: nat, zpad: bool)
    requires 2 <= base <= 36 && minW <= MAX_WIDTH
    ensures |Padded(val, base, minW, zpad)| <= MAX_DIGITS
  {
    SixtyFourBits();
    DigitsFit(val, base, MAX_DIGITS);
    hide Digits;
  }

  method WriteDigits(buf: array<char>, val: U64, base: int) returns (i: nat)
    requires 2 <= base <= 36 && |Numeral(val, base)| <= buf.Length
    modifies buf
    ensures i <= buf.Length && buf[..i] == Reversed(Numeral(val, base))
  {
    i := 0;
    if val == 0 {
      buf[i] := '0';
      i := 1;
      return;
    }
    var v: nat := val;
    ghost var all := Digits(val, base);
    hide Digits;
    FirstDigits(all);
    hide Reversed;
    while v > 0
      invariant 0 <= i <= |all| <= buf.Length
      invariant all == Digits(v, base) + Reversed(buf[..i])
      decreases v
    {
      ghost var done := buf[..i];
      DigitStep(v, base, done, all);
      buf[i] := DigitChar(v % base);
      assert buf[..i + 1] == done + [DigitChar(v % base)];
      v := v / base;
      i := i + 1;
    }
    NoDigits(base, Reversed(buf[..i]));
    ReversedTwice(buf[..i]);
  }

  ghost function Filled(n: nat, s: string): string {
    Zeros(n) + s
  }

  lemma FilledNone(s: string)
    ensures Filled(0, s) == s
  {
  }

  /** How many zeros the padding adds to n digits. */
  function Missing(n: nat, minW: nat, zpad: bool): nat {
    if zpad && n < minW then minW - n else 0
  }

  lemma PaddedIsFilled(val: nat, base: nat, minW: nat, zpad: bool)
    requires 2 <= base <= 36
    ensures Padded(val, base, minW, zpad) == Filled(Missing(|Numeral(val, base)|, minW, zpad), Numeral(val, base))
  {
    FilledNone(Numeral(val, base));
    hide Numeral;
  }

  lemma OneZero(done: string, n: nat, s: string)
    requires done == Reversed(Filled(n, s))
    ensures done + ['0'] == Reversed(Filled(n + 1, s))
  {
    assert Zeros(n + 1) + s == ['0'] + (Zeros(n) + s);
  }

  ghost predicate StartsWith(buf: array<char>, i: nat, s: string)
    reads buf
  {
    i <= buf.Length && buf[..i] == s
  }

  /** One zero behind what stands for n zeros and s. */
  method PutZero(buf: array<char>, i: nat, ghost n: nat, ghost s: string)
    requires i < buf.Length && StartsWith(buf, i, Reversed(Filled(n, s)))
    modifies buf
    ensures StartsWith(buf, i + 1, Reversed(Filled(n + 1, s)))
  {
    ghost var done := buf[..i];
    OneZero(done, n, s);
    hide Reversed;
    hide Filled;
    buf[i] := '0';
    assert buf[..i + 1] == done + ['0'];
  }

  /** The padding loop, on the digits s, last one first. */
  method WriteZeros(buf: array<char>, start: nat, minW: int, zpad: bool, ghost s: string) returns (i: nat)
    requires 0 <= minW <= MAX_WIDTH && start == |s| && start + Missing(start, minW, zpad) <= buf.Length
    requires StartsWith(buf, start, Reversed(s))
    modifies buf
    ensures i == start + Missing(start, minW, zpad)
    ensures StartsWith(buf, i, Reversed(Filled(Missing(start, minW, zpad), s)))
  {
    ghost var n := Missing(start, minW, zpad);
    FilledNone(s);
    hide Reversed;
    hide Filled;
    hide StartsWith;
    i := start;
    while i < minW && i < MAX_WIDTH && zpad
      invariant start <= i <= start + n
      invariant StartsWith(buf, i, Reversed(Filled(i - start, s)))
      decreases minW - i
    {
      PutZero(buf, i, i - start, s);
      i := i + 1;
    }
  }

  method ReverseInPlace(buf: array<char>, n: nat)
    requires n <= buf.Length
    modifies buf
    ensures buf[..n] == Reversed(old(buf[..n]))
  {
    var j := 0;
    while j < n / 2
      invariant 0 <= j <= n / 2
      invariant forall k :: 0 <= k < j ==> buf[k] == old(buf[n - 1 - k]) && buf[n - 1 - k] == old(buf[k])
      invariant forall k :: j <= k < n - j ==> buf[k] == old(buf[k])
    {
      buf[j], buf[n - 1 - j] := buf[n - 1 - j], buf[j];
      j := j + 1;
    }
    ghost var was := old(buf[..n]);
    assert forall k :: 0 <= k < n ==> buf[k] == was[n - 1 - k];
  }

  /** uvalue_to_str: digits come out last first, are padded, and are reversed in place. */
  method UvalueToStr(buf: array?<char>, val: U64, base: int, minW: int, zpad: bool) returns (r: Outcome<nat>)
    requires buf != null && 2 <= base <= 36 && 0 <= minW <= MAX_WIDTH ==>
      |Padded(val, base, minW, zpad)| <= buf.Length
    modifies buf
    ensures r.Panicked? <==> buf == null || base < 2 || base > 36 || minW < 0 || minW > MAX_WIDTH
    ensures r.Returned? ==>
      r.value <= buf.Length && buf[..r.value] == Padded(val, base, minW, zpad)
  {
    if buf == null || base < 2 || base > 36 || minW < 0 || minW > MAX_WIDTH {
      return Panicked;
    }
    var i := WriteDigits(buf, val, base);
    i := WriteZeros(buf, i, minW, zpad, Numeral(val, base));
    ReverseInPlace(buf, i);
    ReversedTwice(Padded(val, base, minW, zpad));
    PaddedIsFilled(val, base, minW, zpad);
    return Returned(i);
  }

  // ---------- The scanner ----------

  /** s has been emitted into a buffer that read was before; a null buffer is only counted. */
  ghost predicate Shows(buf: array?<char>, size: nat, was: string, s: string)
    reads buf
  {
    buf != null ==> size <= buf.Length && |was| == buf.Length && buf[..] == Emitted(was, size, s)
  }

  /** EMIT_CHAR: counts the character, and stores it while there is room for it and a NUL. */
  method EmitChar(buf: array?<char>, size: nat, idx: nat, c: char, ghost was: string, ghost s: string)
    returns (next: nat)
    requires Shows(buf, size, was, s) && idx == |s|
    modifies buf
    ensures Shows(buf, size, was, s + [c]) && next == |s + [c]|
  {
    if buf != null {
      EmitOne(was, size, s, c);
    }
    if buf != null && size > 0 && idx < size - 1 {
      buf[idx] := c;
    }
    next := idx + 1;
  }

  lemma TextNone(s: string, t: string)
    ensures s + t[..0] == s && t[..|t|] == t
  {
  }

  lemma TextStep(s: string, t: string, k: nat)
    requires k < |t|
    ensures s + t[..k] + [t[k]] == s + t[..k + 1]
  {
  }

  method EmitText(buf: array?<char>, size: nat, idx: nat, t: string, ghost was: string, ghost s: string)
    returns (next: nat)
    requires Shows(buf, size, was, s) && idx == |s|
    modifies buf
    ensures Shows(buf, size, was, s + t) && next == |s + t|
  {
    next := idx;
    var k := 0;
    TextNone(s, t);
    hide Shows;
    while k < |t|
      invariant 0 <= k <= |t|
      invariant Shows(buf, size, was, s + t[..k]) && next == |s + t[..k]|
    {
      next := EmitChar(buf, size, next, t[k], was, s + t[..k]);
      TextStep(s, t, k);
      k := k + 1;
    }
  }

  /** The flags, the width and the length modifier between '%' and the conversion character. */
  method ScanSpec(fmt: string, start: nat) returns (sp: Spec)
    requires start <= |fmt|
    ensures sp == ParseSpec(fmt, start)
  {
    var i, zpad, minW := start, false, 0;
    if i < |fmt| && fmt[i] == '0' {
      zpad := true;
      i := i + 1;
    }
    ghost var whole := Width(fmt, i, 0);
    while i < |fmt| && '0' <= fmt[i] <= '9'
      invariant i <= |fmt| && minW >= 0 && Width(fmt, i, minW) == whole
      decreases |fmt| - i
    {
      if minW < 10000 {
        minW := minW * 10 + (fmt[i] as int - 48);
      }
      i := i + 1;
    }
    if minW > WIDTH_CUT {
      minW := WIDTH_CUT;
    }
    var long := i < |fmt| && fmt[i] == 'l';
    if long {
      i := i + 1;
    }
    return Spec(zpad, minW, long, i);
  }

  /** The number conversions: digits go through a buffer of their own. */
  method EmitNumber(buf: array?<char>, size: nat, idx: nat, val: U64, base: int, minW: nat, zpad: bool,
                    ghost was: string, ghost s: string)
    returns (next: Outcome<nat>)
    requires Shows(buf, size, was, s) && idx == |s| && 2 <= base <= 36
    modifies buf
    ensures next.Panicked? <==> minW > MAX_WIDTH
    ensures next.Returned? ==>
      Shows(buf, size, was, s + Padded(val, base, minW, zpad)) && next.value == |s + Padded(val, base, minW, zpad)|
  {
    hide Padded;
    hide Numeral;
    var bufNum := new char[BUF_NUM_LEN](_ => '\0');
    if minW <= MAX_WIDTH {
      PaddedFits(val, base, minW, zpad);
    }
    var len := UvalueToStr(bufNum, val, base, minW, zpad);
    if len.Panicked? {
      return Panicked;
    }
    var n := EmitText(buf, size, idx, bufNum[..len.value], was, s);
    return Returned(n);
  }

  /** %d: the sign first, then the magnitude, computed in unsigned 64-bit arithmetic. */
  method EmitSigned(buf: array?<char>, size: nat, idx: nat, val: I64, minW: nat, zpad: bool,
                    ghost was: string, ghost s: string)
    returns (next: Outcome<nat>)
    requires Shows(buf, size, was, s) && idx == |s|
    modifies buf
    ensures next.Panicked? <==> Signed(val, minW, zpad).Panics?
    ensures next.Returned? ==>
      Shows(buf, size, was, s + Signed(val, minW, zpad).s) && next.value == |s + Signed(val, minW, zpad).s|
  {
    hide Padded;
    hide Shows;
    if val < 0 {
      var bits: U64 := val + TWO_64;
      var uval: U64 := TWO_64 - 1 - bits + 1;
      var n := EmitChar(buf, size, idx, '-', was, s);
      next := EmitNumber(buf, size, n, uval, 10, minW, zpad, was, s + ['-']);
      assert s + ['-'] + Padded(uval, 10, minW, zpad) == s + ("-" + Padded(uval, 10, minW, zpad));
    } else {
      next := EmitNumber(buf, size, idx, val, 10, minW, zpad, was, s);
      assert s + ("" + Padded(val, 10, minW, zpad)) == s + Padded(val, 10, minW, zpad);
    }
  }

  /** The conversions that emit characters as they are. */
  method EmitPlain(buf: array?<char>, size: nat, idx: nat, sp: Spec, c: char, args: seq<Arg>,
                   ghost was: string, ghost s: string)
    returns (next: nat)
    requires Shows(buf, size, was, s) && idx == |s|
    requires !Numeric(c) && !Convert(sp, c, args).Undefined?
    modifies buf
    ensures Convert(sp, c, args).Text?
    ensures Shows(buf, size, was, s + Convert(sp, c, args).s) && next == |s + Convert(sp, c, args).s|
  {
    hide Shows;
    if c == 'c' {
      next := EmitChar(buf, size, idx, args[0].c, was, s);
    } else if c == 's' {
      next := EmitText(buf, size, idx, if args[0].s.Some? then args[0].s.value else "(null)", was, s);
    } else if c == '%' {
      next := EmitChar(buf, size, idx, '%', was, s);
    } else {
      next := EmitText(buf, size, idx, ['%', c], was, s);
    }
  }

  /** The switch over the conversion character. */
  method EmitConversion(buf: array?<char>, size: nat, idx: nat, sp: Spec, c: char, args: seq<Arg>,
                        ghost was: string, ghost s: string)
    returns (next: Outcome<nat>)
    requires Shows(buf, size, was, s) && idx == |s|
    requires !Convert(sp, c, args).Undefined?
    modifies buf
    ensures next.Panicked? <==> Convert(sp, c, args).Panics?
    ensures next.Returned? ==>
      Shows(buf, size, was, s + Convert(sp, c, args).s) && next.value == |s + Convert(sp, c, args).s|
  {
    hide Padded;
    hide Shows;
    if c == 'd' || c == 'i' {
      next := EmitSigned(buf, size, idx, if sp.long then args[0].l else args[0].i, sp.width, sp.zpad, was, s);
    } else if c == 'u' || c == 'x' || c == 'o' || c == 'b' {
      var val: U64 := if sp.long then args[0].v else args[0].u;
      next := EmitNumber(buf, size, idx, val, BaseOf(c), sp.width, sp.zpad, was, s);
    } else if c == 'p' {
      var n := EmitText(buf, size, idx, "0x", was, s);
      next := EmitNumber(buf, size, n, args[0].p, 16, 8, true, was, s + "0x");
      assert s + "0x" + Padded(args[0].p, 16, 8, true) == s + ("0x" + Padded(args[0].p, 16, 8, true));
    } else {
      var n := EmitPlain(buf, size, idx, sp, c, args, was, s);
      next := Returned(n);
    }
  }

  lemma CatTwice(a: string, b: string, r: Rendering)
    ensures Cat(a, Cat(b, r)) == Cat(a + b, r)
    ensures Cat("", r) == r
    ensures Cat(a, Text("")) == Text(a)
  {
    if r.Text? {
      assert a + (b + r.s) == a + b + r.s;
      assert "" + r.s == r.s;
    }
    assert a + "" == a;
  }

  lemma RenderEnd(fmt: string, args: seq<Arg>, s: string)
    ensures Cat(s, Render(fmt, |fmt|, args)) == Text(s)
  {
    CatTwice(s, "", Text(""));
  }

  lemma OneCharacter(fmt: string, i: nat, args: seq<Arg>, s: string)
    requires i < |fmt| && !(fmt[i] == '%' && i + 1 < |fmt|)
    ensures Cat(s, Render(fmt, i, args)) == Cat(s + [fmt[i]], Render(fmt, i + 1, args))
  {
    CatTwice(s, [fmt[i]], Render(fmt, i + 1, args));
  }

  lemma NothingShown(buf: array?<char>, size: nat, was: string)
    requires buf != null ==> size <= buf.Length && was == buf[..]
    ensures Shows(buf, size, was, "")
  {
  }

  /** What one conversion contributes to the rendering from index i on. */
  lemma OneConversion(fmt: string, i: nat, args: seq<Arg>, s: string)
    requires i + 1 < |fmt| && fmt[i] == '%'
    ensures var sp := ParseSpec(fmt, i + 1);
      && (sp.at == |fmt| ==> Cat(s, Render(fmt, i, args)) == Undefined)
      && (sp.at < |fmt| ==>
            match Convert(sp, fmt[sp.at], args)
            case Text(t) => Cat(s, Render(fmt, i, args)) == Cat(s + t, Render(fmt, sp.at + 1, Rest(fmt[sp.at], args)))
            case other => Cat(s, Render(fmt, i, args)) == other)
  {
    hide Convert;
    var sp := ParseSpec(fmt, i + 1);
    if sp.at < |fmt| && Convert(sp, fmt[sp.at], args).Text? {
      CatTwice(s, Convert(sp, fmt[sp.at], args).s, Render(fmt, sp.at + 1, Rest(fmt[sp.at], args)));
    }
  }

  /** One turn of the scanning loop: a conversion, or a character that stands for itself. */
  method ScanOne(buf: array?<char>, size: nat, fmt: string, i: nat, idx: nat, args: seq<Arg>,
                 ghost was: string, ghost s: string)
    returns (next: Outcome<(nat, nat, seq<Arg>)>, ghost t: string)
    requires i < |fmt| && Shows(buf, size, was, s) && idx == |s|
    requires !Cat(s, Render(fmt, i, args)).Undefined?
    modifies buf
    ensures next.Panicked? ==> Cat(s, Render(fmt, i, args)).Panics?
    ensures next.Returned? ==>
      var (j, n, rest) := next.value;
      && i < j <= |fmt| && n == |t| && Shows(buf, size, was, t)
      && Cat(s, Render(fmt, i, args)) == Cat(t, Render(fmt, j, rest))
  {
    hide Shows;
    hide Convert;
    hide ParseSpec;
    hide Render;
    hide Cat;
    if fmt[i] == '%' && i + 1 < |fmt| {
      var sp := ScanSpec(fmt, i + 1);
      OneConversion(fmt, i, args, s);
      var n := EmitConversion(buf, size, idx, sp, fmt[sp.at], args, was, s);
      if n.Panicked? {
        return Panicked, s;
      }
      t := s + Convert(sp, fmt[sp.at], args).s;
      next := Returned((sp.at + 1, n.value, Rest(fmt[sp.at], args)));
    } else {
      OneCharacter(fmt, i, args, s);
      var n := EmitChar(buf, size, idx, fmt[i], was, s);
      t := s + [fmt[i]];
      next := Returned((i + 1, n, args));
    }
  }

  method Scan(buf: array?<char>, size: nat, fmt: string, args: seq<Arg>, ghost was: string) returns (r: Outcome<nat>)
    requires buf != null ==> size <= buf.Length && was == buf[..]
    requires !Render(fmt, 0, args).Undefined?
    modifies buf
    ensures r.Panicked? <==> Render(fmt, 0, args).Panics?
    ensures r.Returned? ==>
      Shows(buf, size, was, Render(fmt, 0, args).s) && r.value == |Render(fmt, 0, args).s|
  {
    ghost var whole := Render(fmt, 0, args);
    NothingShown(buf, size, was);
    CatTwice("", "", whole);
    hide Shows;
    hide Render;
    hide Cat;
    var idx, i, rest := 0, 0, args;
    ghost var s := "";
    while i < |fmt|
      invariant 0 <= i <= |fmt| && idx == |s|
      invariant Shows(buf, size, was, s)
      invariant whole == Cat(s, Render(fmt, i, rest))
      decreases |fmt| - i
    {
      var next, t := ScanOne(buf, size, fmt, i, idx, rest, was, s);
      if next.Panicked? {
        return Panicked;
      }
      i, idx, rest := next.value.0, next.value.1, next.value.2;
      s := t;
    }
    RenderEnd(fmt, rest, s);
    return Returned(idx);
  }

  /**
   kvsnprintf: the characters that fit, a NUL behind them, and the length of the whole rendering
   whatever the size; it panics exactly when the rendering does.
   */
  method Kvsnprintf(buf: array?<char>, size: nat, fmt: Option<string>, args: seq<Arg>) returns (r: Outcome<nat>)
    requires buf != null ==> size <= buf.Length
    requires fmt.Some? ==> !Render(fmt.value, 0, args).Undefined?
    modifies buf
    ensures fmt.None? ==> r == Returned(0) && (buf != null ==> buf[..] == old(buf[..]))
    ensures fmt.Some? ==> (r.Panicked? <==> Render(fmt.value, 0, args).Panics?)
    ensures fmt.Some? ==> (r.Panicked? <==> exists x <- Conversions(fmt.value, 0) :: TooWide(x))
    ensures fmt.Some? && r.Returned? ==> r.value == |Render(fmt.value, 0, args).s|
    ensures fmt.Some? && r.Returned? && buf != null ==>
      buf[..] == Finished(old(buf[..]), size, Render(fmt.value, 0, args).s)
  {
    if fmt.None? {
      return Returned(0);
    }
    PanicsIff(fmt.value, 0, args);
    r := Scan(buf, size, fmt.value, args, if buf == null then [] else buf[..]);
    if r.Returned? && buf != null && size > 0 {
      ghost var s := Render(fmt.value, 0, args).s;
      Terminate(old(buf[..]), size, s);
      var term := if r.value < size then r.value else size - 1;
      buf[term] := '\0';
    }
  }
}
