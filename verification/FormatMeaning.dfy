/**
 What each conversion of a format stands for, told from the text it produces: formats are written piece
 by piece, and the rendering is the pieces' texts in order, each of which reads back to its argument.
 */
module FormatMeaning {
  import opened Words
  import opened Format

  // ---------- Pieces of a format ----------

  /** What stands between '%' and the conversion character. */
  datatype Flags = Flags(zpad: bool, width: nat, long: bool)

  datatype Piece =
    | Plain(c: char)
    | Percent
    | Unknown(c: char)
    | Decimal(f: Flags, n: I64)
    | Number(f: Flags, c: char, u: U64)
    | Pointer(f: Flags, p: Word)
    | Char(f: Flags, ch: char)
    | Str(f: Flags, s: Option<string>)

  /** Legal pieces: numbers fit their type, and their width is one uvalue_to_str accepts. */
  predicate Legal(x: Piece) {
    match x
    case Plain(c) => c != '%'
    case Percent => true
    case Unknown(c) => !IsDigit(c) && c !in ['l', 'f', 'd', 'i', 'u', 'x', 'o', 'b', 'p', 'c', 's', '%']
    case Decimal(f, n) => f.width <= 32 && (f.long || -0x8000_0000 <= n < 0x8000_0000)
    case Number(f, c, u) => f.width <= 32 && c in ['u', 'x', 'o', 'b'] && (f.long || u < 0x1_0000_0000)
    case Pointer(f, _) => f.width <= 32
    case Char(f, _) => f.width <= 32
    case Str(f, _) => f.width <= 32
  }

  function WriteFlags(f: Flags): string {
    (if f.zpad then "0" else "") + Digits(f.width, 10) + (if f.long then "l" else "")
  }

  function Write(x: Piece): (s: string)
    ensures |s| > 0
  {
    match x
    case Plain(c) => [c]
    case Percent => "%%"
    case Unknown(c) => ['%', c]
    case Decimal(f, _) => "%" + WriteFlags(f) + "d"
    case Number(f, c, _) => "%" + WriteFlags(f) + [c]
    case Pointer(f, _) => "%" + WriteFlags(f) + "p"
    case Char(f, _) => "%" + WriteFlags(f) + "c"
    case Str(f, _) => "%" + WriteFlags(f) + "s"
  }

  /** The argument a piece takes. */
  function ArgOf(x: Piece): seq<Arg>
    requires Legal(x)
  {
    match x
    case Plain(_) => []
    case Percent => []
    case Unknown(_) => []
    case Decimal(f, n) => [if f.long then ArgLong(n) else ArgInt(n)]
    case Number(f, _, u) => [if f.long then ArgULong(u) else ArgUInt(u)]
    case Pointer(_, p) => [ArgPtr(p)]
    case Char(_, ch) => [ArgChar(ch)]
    case Str(_, s) => [ArgStr(s)]
  }

  function WriteAll(xs: seq<Piece>): string {
    if xs == [] then "" else Write(xs[0]) + WriteAll(xs[1..])
  }

  function Args(xs: seq<Piece>): seq<Arg>
    requires forall x <- xs :: Legal(x)
  {
    if xs == [] then [] else ArgOf(xs[0]) + Args(xs[1..])
  }

  // ---------- What the text of a piece must be ----------

  predicate DigitOf(c: char, base: nat) {
    ('0' <= c <= '9' || 'a' <= c <= 'z') && 0 <= DigitValue(c) < base
  }

  /** t is v in this base: digits that read back to v, with zeros in front only to fill the width. */
  ghost predicate ReadsAs(t: string, v: nat, base: nat, zpad: bool, width: nat) {
    && t != "" && Value(t, base) == v && (forall c <- t :: DigitOf(c, base))
    && (zpad ==> |t| >= width)
    && (t[0] == '0' ==> t == "0" || (zpad && |t| == width))
  }

  ghost predicate Denotes(x: Piece, t: string) {
    match x
    case Plain(c) => t == [c]
    case Percent => t == "%"
    case Unknown(c) => t == ['%', c]
    case Decimal(f, n) =>
      if n < 0 then t != "" && t[0] == '-' && ReadsAs(t[1..], 0 - n as int, 10, f.zpad, f.width)
      else ReadsAs(t, n, 10, f.zpad, f.width)
    case Number(f, c, u) =>
      && (c == 'u' ==> ReadsAs(t, u, 10, f.zpad, f.width))
      && (c == 'x' ==> ReadsAs(t, u, 16, f.zpad, f.width))
      && (c == 'o' ==> ReadsAs(t, u, 8, f.zpad, f.width))
      && (c == 'b' ==> ReadsAs(t, u, 2, f.zpad, f.width))
    case Pointer(_, p) => |t| == 10 && t[..2] == "0x" && ReadsAs(t[2..], p, 16, true, 8)
    case Char(_, ch) => t == [ch]
    case Str(_, s) => t == if s == None then "(null)" else s.value
  }

  function Concat(ts: seq<string>): string {
    if ts == [] then "" else ts[0] + Concat(ts[1..])
  }

  // ---------- Numbers ----------

  lemma {:induction false} DigitsAreDigits(v: nat, base: nat)
    requires 2 <= base <= 36
    ensures forall c <- Digits(v, base) :: DigitOf(c, base)
  {
    if v > 0 {
      var q, r := LastDigit(v, base);
      hide Digits;
      DigitsAreDigits(q, base);
      DigitRoundTrip(r);
    }
  }

  lemma PaddedReads(v: nat, base: nat, width: nat, zpad: bool)
    requires 2 <= base <= 36
    ensures ReadsAs(Padded(v, base, width, zpad), v, base, zpad, width)
  {
    PaddedReadsBack(v, base, width, zpad);
    DigitsAreDigits(v, base);
    if v > 0 { NoLeadingZero(v, base); }
    hide Digits;
    hide Value;
  }

  // ---------- Reading the flags ----------

  lemma SliceSnoc(fmt: string, j: nat, front: string, c: char)
    requires j + |front| + 1 <= |fmt| && fmt[j..j + |front| + 1] == front + [c]
    ensures fmt[j..j + |front|] == front && fmt[j + |front|] == c
  {
    var t := fmt[j..j + |front| + 1];
    assert t[..|front|] == front && t[|front|] == c;
  }

  lemma {:induction false} WidthReads(fmt: string, j: nat, v: nat)
    requires v < 100000 && j + |Digits(v, 10)| <= |fmt|
    requires fmt[j..j + |Digits(v, 10)|] == Digits(v, 10)
    ensures Width(fmt, j, 0) == Width(fmt, j + |Digits(v, 10)|, v)
  {
    if v > 0 {
      var q, r := LastDigit(v, 10);
      hide Digits;
      var k := |Digits(q, 10)|;
      SliceSnoc(fmt, j, Digits(q, 10), DigitChar(r));
      WidthReads(fmt, j, q);
    }
  }

  /** fmt goes on with part at i. */
  ghost predicate At(fmt: string, i: nat, part: string) {
    i + |part| <= |fmt| && fmt[i..i + |part|] == part
  }

  lemma Cut(fmt: string, i: nat, x: string, y: string)
    requires At(fmt, i, x + y)
    ensures At(fmt, i, x) && At(fmt, i + |x|, y)
  {
    var c := fmt[i..i + |x + y|];
    assert c[..|x|] == x && c[|x|..] == y;
  }

  /** A width is written without zeros in front. */
  lemma WidthStarts(w: nat)
    ensures Digits(w, 10) != "" ==> '1' <= Digits(w, 10)[0] <= '9'
    ensures w < 100 ==> |Digits(w, 10)| <= 2
  {
    if w > 0 {
      NoLeadingZero(w, 10);
      DigitsAreDigits(w, 10);
      assert Digits(w, 10)[0] in Digits(w, 10);
    }
    assert Pow2(7) == 128;
    if 0 < w < 100 {
      assert Digits(w / 10, 10) == "" || |Digits(w / 10, 10)| == 1;
    }
  }

  lemma WidthThere(fmt: string, j: nat, w: nat)
    requires w < 100000 && At(fmt, j, Digits(w, 10))
    ensures j + |Digits(w, 10)| <= |fmt| && Width(fmt, j, 0) == Width(fmt, j + |Digits(w, 10)|, w)
  {
    WidthReads(fmt, j, w);
  }

  /** The width ends where no digit follows. */
  lemma WidthEnds(fmt: string, k: nat, w: nat)
    requires k < |fmt| && !IsDigit(fmt[k])
    ensures Width(fmt, k, w) == (k, w)
  {
  }

  lemma SpecOf(fmt: string, i: nat, f: Flags, j: nat, k: nat, at: nat)
    requires i <= j <= k < |fmt| && f.width <= 32 && at == k + if f.long then 1 else 0
    requires i < |fmt| && (f.zpad <==> fmt[i] == '0') && j == i + (if f.zpad then 1 else 0)
    requires Width(fmt, j, 0) == (k, f.width) && (f.long <==> fmt[k] == 'l')
    ensures ParseSpec(fmt, i) == Spec(f.zpad, f.width, f.long, at)
  {
  }

  /** Where zero flag, width, length modifier and character stand. */
  lemma FlagParts(fmt: string, i: nat, z: string, d: string, l: string, c: char)
    requires At(fmt, i, z + d + l + [c])
    ensures At(fmt, i + |z|, d) && i + |z| + |d| + |l| < |fmt| && fmt[i + |z| + |d| + |l|] == c
    ensures fmt[i] == (if z != "" then z[0] else if d != "" then d[0] else if l != "" then l[0] else c)
    ensures fmt[i + |z| + |d|] == if l != "" then l[0] else c
  {
    var t := fmt[i..i + |z + d + l + [c]|];
    assert t[0] == fmt[i] && t[|z| + |d|] == fmt[i + |z| + |d|] && t[|z| + |d| + |l|] == fmt[i + |z| + |d| + |l|];
    Cut(fmt, i, z + d + l, [c]);
    Cut(fmt, i, z + d, l);
    Cut(fmt, i, z, d);
  }

  /** The flags in front of conversion character c are read as they were written. */
  lemma FlagsRead(fmt: string, i: nat, f: Flags, c: char)
    requires f.width <= 32 && !IsDigit(c) && c != 'l'
    requires At(fmt, i, WriteFlags(f) + [c])
    ensures i + |WriteFlags(f)| < |fmt| && fmt[i + |WriteFlags(f)|] == c
    ensures ParseSpec(fmt, i) == Spec(f.zpad, f.width, f.long, i + |WriteFlags(f)|)
  {
    var z, d, l := if f.zpad then "0" else "", Digits(f.width, 10), if f.long then "l" else "";
    var j, k := i + |z|, i + |z| + |d|;
    assert WriteFlags(f) == z + d + l && |WriteFlags(f)| == |z| + |d| + |l|;
    WidthStarts(f.width);
    hide At;
    hide Digits;
    hide Width;
    hide WriteFlags;
    hide ParseSpec;
    FlagParts(fmt, i, z, d, l, c);
    WidthThere(fmt, j, f.width);
    WidthEnds(fmt, k, f.width);
    SpecOf(fmt, i, f, j, k, i + |WriteFlags(f)|);
  }

  // ---------- One piece ----------

  /** A conversion adds the text its character, flags and argument give. */
  lemma ConversionRenders(fmt: string, i: nat, f: Flags, c: char, args: seq<Arg>, at: nat)
    requires f.width <= 32 && !IsDigit(c) && c != 'l' && at == i + 1 + |WriteFlags(f)|
    requires At(fmt, i, "%" + WriteFlags(f) + [c])
    ensures at < |fmt|
    ensures Render(fmt, i, args) ==
      match Convert(Spec(f.zpad, f.width, f.long, at), c, args)
      case Text(s) => Cat(s, Render(fmt, at + 1, Rest(c, args)))
      case other => other
  {
    var w := WriteFlags(f);
    assert "%" + w + [c] == "%" + (w + [c]);
    Cut(fmt, i, "%", w + [c]);
    assert fmt[i] == '%' by { assert fmt[i..i + 1][0] == '%'; }
    FlagsRead(fmt, i + 1, f, c);
    hide At;
    hide WriteFlags;
    hide ParseSpec;
    hide Convert;
  }

  /** The argument a conversion fetches is its own. */
  lemma FirstArg(a: Arg, rest: seq<Arg>)
    ensures ([a] + rest)[0] == a && ([a] + rest)[1..] == rest
  {
  }

  lemma DecimalConverts(f: Flags, n: I64, at: nat, rest: seq<Arg>)
    requires Legal(Decimal(f, n))
    ensures Convert(Spec(f.zpad, f.width, f.long, at), 'd', ArgOf(Decimal(f, n)) + rest) == Signed(n, f.width, f.zpad)
  {
    FirstArg(if f.long then ArgLong(n) else ArgInt(n), rest);
    hide Signed;
  }

  lemma DecimalDenotes(f: Flags, n: I64)
    requires Legal(Decimal(f, n))
    ensures Signed(n, f.width, f.zpad).Text? && Denotes(Decimal(f, n), Signed(n, f.width, f.zpad).s)
  {
    var m: nat := if n < 0 then 0 - n as int else n as int;
    PaddedReads(m, 10, f.width, f.zpad);
    hide Padded;
    hide ReadsAs;
    var u := Padded(m, 10, f.width, f.zpad);
    if n < 0 { assert ("-" + u)[1..] == u; } else { assert "" + u == u; }
  }

  lemma DecimalText(f: Flags, n: I64, at: nat, rest: seq<Arg>) returns (t: string)
    requires Legal(Decimal(f, n))
    ensures Denotes(Decimal(f, n), t)
    ensures Convert(Spec(f.zpad, f.width, f.long, at), 'd', ArgOf(Decimal(f, n)) + rest) == Text(t)
  {
    hide Convert;
    hide Denotes;
    hide Signed;
    DecimalConverts(f, n, at, rest);
    DecimalDenotes(f, n);
    t := Signed(n, f.width, f.zpad).s;
  }

  lemma NumberConverts(f: Flags, c: char, u: U64, at: nat, rest: seq<Arg>)
    requires Legal(Number(f, c, u))
    ensures Convert(Spec(f.zpad, f.width, f.long, at), c, ArgOf(Number(f, c, u)) + rest)
      == Text(Padded(u, BaseOf(c), f.width, f.zpad))
  {
    FirstArg(if f.long then ArgULong(u) else ArgUInt(u), rest);
    hide Padded;
    hide BaseOf;
  }

  lemma NumberText(f: Flags, c: char, u: U64, at: nat, rest: seq<Arg>) returns (t: string)
    requires Legal(Number(f, c, u))
    ensures Denotes(Number(f, c, u), t)
    ensures Convert(Spec(f.zpad, f.width, f.long, at), c, ArgOf(Number(f, c, u)) + rest) == Text(t)
  {
    hide Convert;
    hide Padded;
    hide ReadsAs;
    NumberConverts(f, c, u, at, rest);
    t := Padded(u, BaseOf(c), f.width, f.zpad);
    PaddedReads(u, BaseOf(c), f.width, f.zpad);
  }

  function Sixteens(n: nat): nat {
    if n == 0 then 1 else 16 * Sixteens(n - 1)
  }

  /** A number below 16^n has at most n hexadecimal digits. */
  lemma {:induction false} HexDigits(v: nat, n: nat)
    requires v < Sixteens(n)
    ensures |Digits(v, 16)| <= n
  {
    if v > 0 {
      var q, r := LastDigit(v, 16);
      hide Digits;
      HexDigits(q, n - 1);
    }
  }

  lemma EightDigits(p: Word)
    ensures |Padded(p, 16, 8, true)| == 8
  {
    assert Sixteens(2) == 256;
    assert Sixteens(4) == 256 * Sixteens(2);
    assert Sixteens(6) == 256 * Sixteens(4);
    assert Sixteens(8) == 256 * Sixteens(6);
    HexDigits(p, 8);
    hide Digits;
  }

  lemma PointerText(f: Flags, p: Word, at: nat, rest: seq<Arg>) returns (t: string)
    requires Legal(Pointer(f, p))
    ensures Denotes(Pointer(f, p), t)
    ensures Convert(Spec(f.zpad, f.width, f.long, at), 'p', ArgOf(Pointer(f, p)) + rest) == Text(t)
  {
    PaddedReads(p, 16, 8, true);
    EightDigits(p);
    FirstArg(ArgPtr(p), rest);
    hide Padded;
    hide ReadsAs;
    var u := Padded(p, 16, 8, true);
    t := "0x" + u;
    assert t[2..] == u && t[..2] == "0x";
  }

  /** The conversion character and the flags of a piece that fetches an argument. */
  predicate Fetching(x: Piece) {
    x.Decimal? || x.Number? || x.Pointer? || x.Char? || x.Str?
  }

  function LetterOf(x: Piece): char
    requires Fetching(x)
  {
    match x
    case Decimal(_, _) => 'd'
    case Number(_, c, _) => c
    case Pointer(_, _) => 'p'
    case Char(_, _) => 'c'
    case Str(_, _) => 's'
  }

  lemma FetchedText(x: Piece, at: nat, rest: seq<Arg>) returns (t: string)
    requires Legal(x) && Fetching(x)
    ensures Denotes(x, t)
    ensures Convert(Spec(x.f.zpad, x.f.width, x.f.long, at), LetterOf(x), ArgOf(x) + rest) == Text(t)
    ensures Rest(LetterOf(x), ArgOf(x) + rest) == rest
  {
    hide Padded;
    hide ReadsAs;
    match x
    case Decimal(f, n) =>
      FirstArg(if f.long then ArgLong(n) else ArgInt(n), rest);
      t := DecimalText(f, n, at, rest);
    case Number(f, c, u) =>
      FirstArg(if f.long then ArgULong(u) else ArgUInt(u), rest);
      t := NumberText(f, c, u, at, rest);
    case Pointer(f, p) =>
      FirstArg(ArgPtr(p), rest);
      t := PointerText(f, p, at, rest);
    case Char(f, ch) =>
      FirstArg(ArgChar(ch), rest);
      t := [ch];
    case Str(f, s) =>
      FirstArg(ArgStr(s), rest);
      t := if s == None then "(null)" else s.value;
  }

  lemma WriteFetching(x: Piece)
    requires Fetching(x)
    ensures Write(x) == "%" + WriteFlags(x.f) + [LetterOf(x)] && |Write(x)| == |WriteFlags(x.f)| + 2
  {
  }

  lemma FetchingLegal(x: Piece)
    requires Fetching(x) && Legal(x)
    ensures x.f.width <= 32 && !IsDigit(LetterOf(x)) && LetterOf(x) != 'l'
  {
  }

  lemma TwoChars(fmt: string, i: nat, a: char, b: char)
    requires At(fmt, i, [a, b])
    ensures i + 2 <= |fmt| && fmt[i] == a && fmt[i + 1] == b
  {
    var t := fmt[i..i + 2];
    assert t[0] == fmt[i] && t[1] == fmt[i + 1];
  }

  /** A character that is no digit and no length modifier right behind '%'. */
  lemma BareSpec(fmt: string, i: nat)
    requires i < |fmt| && !IsDigit(fmt[i]) && fmt[i] != 'l'
    ensures ParseSpec(fmt, i) == Spec(false, 0, false, i)
  {
  }

  lemma PairRenders(fmt: string, i: nat, x: Piece, rest: seq<Arg>, c: char)
    requires Legal(x) && (x == Unknown(c) || (x.Percent? && c == '%')) && At(fmt, i, ['%', c])
    ensures i + 2 <= |fmt|
    ensures Render(fmt, i, rest) == Cat(if c == '%' then "%" else ['%', c], Render(fmt, i + 2, rest))
  {
    TwoChars(fmt, i, '%', c);
    BareSpec(fmt, i + 1);
    hide At;
    hide ParseSpec;
  }

  lemma CharRenders(fmt: string, i: nat, c: char, rest: seq<Arg>)
    requires c != '%' && At(fmt, i, [c])
    ensures i + 1 <= |fmt| && Render(fmt, i, rest) == Cat([c], Render(fmt, i + 1, rest))
  {
    assert fmt[i..i + 1][0] == fmt[i];
    hide ParseSpec;
    hide Convert;
  }

  lemma PlainRenders(fmt: string, i: nat, x: Piece, rest: seq<Arg>) returns (t: string)
    requires Legal(x) && !Fetching(x) && At(fmt, i, Write(x))
    ensures Denotes(x, t) && i + |Write(x)| <= |fmt|
    ensures Render(fmt, i, ArgOf(x) + rest) == Cat(t, Render(fmt, i + |Write(x)|, rest))
  {
    hide At;
    hide Render;
    hide Cat;
    assert [] + rest == rest;
    match x
    case Plain(c) =>
      t := [c];
      CharRenders(fmt, i, c, rest);
    case Percent =>
      t := "%";
      PairRenders(fmt, i, x, rest, '%');
    case Unknown(c) =>
      t := ['%', c];
      PairRenders(fmt, i, x, rest, c);
  }

  /** A piece adds a text it denotes and takes its own argument. */
  lemma PieceRenders(fmt: string, i: nat, x: Piece, rest: seq<Arg>) returns (t: string)
    requires Legal(x) && At(fmt, i, Write(x))
    ensures Denotes(x, t) && i + |Write(x)| <= |fmt|
    ensures Render(fmt, i, ArgOf(x) + rest) == Cat(t, Render(fmt, i + |Write(x)|, rest))
  {
    hide At;
    hide Write;
    hide WriteFlags;
    hide Convert;
    hide Render;
    hide Denotes;
    hide ArgOf;
    hide Rest;
    if Fetching(x) {
      WriteFetching(x);
      FetchingLegal(x);
      var at := i + 1 + |WriteFlags(x.f)|;
      ConversionRenders(fmt, i, x.f, LetterOf(x), ArgOf(x) + rest, at);
      t := FetchedText(x, at, rest);
    } else {
      t := PlainRenders(fmt, i, x, rest);
    }
  }

  // ---------- Whole formats ----------

  /** What is left of a format behind its last piece: nothing, or a lone '%', which stands for itself. */
  predicate Ending(tail: string) {
    tail == "" || tail == "%"
  }

  lemma NoPieces(fmt: string, i: nat, tail: string)
    requires Ending(tail) && At(fmt, i, tail) && |fmt| == i + |tail|
    ensures Render(fmt, i, Args([])) == Text(Concat([]) + tail)
  {
    if tail == "%" { assert fmt[i] == fmt[i..i + 1][0]; }
    assert "" + tail == tail;
  }

  lemma CatEnding(t: string, rest: seq<string>, tail: string)
    ensures Cat(t, Text(Concat(rest) + tail)) == Text(Concat([t] + rest) + tail)
  {
    assert ([t] + rest)[1..] == rest;
    assert t + (Concat(rest) + tail) == t + Concat(rest) + tail;
  }

  lemma NextPiece(xs: seq<Piece>, tail: string)
    requires xs != []
    ensures WriteAll(xs) + tail == Write(xs[0]) + (WriteAll(xs[1..]) + tail)
  {
  }

  /** The rendering of a format from piece to piece. */
  lemma {:induction false} PiecesRender(fmt: string, i: nat, xs: seq<Piece>, tail: string) returns (ts: seq<string>)
    requires (forall x <- xs :: Legal(x)) && Ending(tail)
    requires At(fmt, i, WriteAll(xs) + tail) && |fmt| == i + |WriteAll(xs)| + |tail|
    ensures |ts| == |xs| && forall k :: 0 <= k < |xs| ==> Denotes(xs[k], ts[k])
    ensures Render(fmt, i, Args(xs)) == Text(Concat(ts) + tail)
    decreases |xs|
  {
    hide At;
    hide Denotes;
    hide Write;
    hide Legal;
    hide Render;
    hide ArgOf;
    ts := [];
    if xs == [] {
      assert "" + tail == tail;
      NoPieces(fmt, i, tail);
    } else {
      NextPiece(xs, tail);
      Cut(fmt, i, Write(xs[0]), WriteAll(xs[1..]) + tail);
      var t := PieceRenders(fmt, i, xs[0], Args(xs[1..]));
      var rest := PiecesRender(fmt, i + |Write(xs[0])|, xs[1..], tail);
      ts := [t] + rest;
      CatEnding(t, rest, tail);
    }
  }

  /**
   What a format and its arguments stand for: the texts of its pieces, in order. A number reads back to
   its argument in the base of its conversion, 10 for d and u, 16 for x and p, 8 for o, 2 for b; a '%' at
   the very end stands for itself.
   */
  lemma FormatMeans(xs: seq<Piece>, tail: string) returns (ts: seq<string>)
    requires (forall x <- xs :: Legal(x)) && Ending(tail)
    ensures |ts| == |xs| && forall k :: 0 <= k < |xs| ==> Denotes(xs[k], ts[k])
    ensures Render(WriteAll(xs) + tail, 0, Args(xs)) == Text(Concat(ts) + tail)
  {
    var fmt := WriteAll(xs) + tail;
    assert fmt[0..|fmt|] == fmt;
    ts := PiecesRender(fmt, 0, xs, tail);
  }
}
