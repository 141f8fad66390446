/**
 The CPIO "newc" format as rust/crates/drivers/src/cpio reads it, and as append_entry writes it.
 Names are accepted or not by utf8, a predicate on byte strings.
 */
module Cpio {
  import opened Words

  const HEADER_SIZE := 110
  /** The target's usize is 32 bits wide. */
  const USIZE_MAX := 0xFFFF_FFFF
  /** No Rust slice is longer than isize::MAX. */
  const ISIZE_MAX := 0x7FFF_FFFF

  datatype Error = TruncatedArchive | InvalidHeader | InvalidName | DataRangeOverflow
  datatype Result<+T> = Ok(value: T) | Err(error: Error)

  type Bytes = seq<Byte>

  function Ascii(s: string): (b: Bytes)
    requires forall i :: 0 <= i < |s| ==> s[i] as int < 128
    ensures |b| == |s|
  {
    seq(|s|, i requires 0 <= i < |s| => s[i] as int)
  }

  // ---------- Hexadecimal fields ----------

  function HexDigit(b: Byte): (d: Option<nat>)
    ensures d.Some? ==> d.value < 16
  {
    if 48 <= b <= 57 then Some(b - 48)
    else if 97 <= b <= 102 then Some(b - 87)
    else if 65 <= b <= 70 then Some(b - 55)
    else None
  }

  /** The shift drops the top digit of a 32-bit value, as checked_shl(4) does; the sum never overflows. */
  function Accumulate(result: Word, digit: nat): Word
    requires digit < 16
  {
    result * 16 % TWO_32 + digit
  }

  function ParseHex(b: Bytes): Option<Word> {
    if b == [] then Some(0)
    else
      match (ParseHex(b[..|b| - 1]), HexDigit(b[|b| - 1]))
      case (Some(high), Some(d)) => Some(Accumulate(high, d))
      case _ => None
  }

  function DigitChar(d: nat): Byte
    requires d < 16
  {
    if d < 10 then 48 + d else 55 + d
  }

  /** n upper-case digits, most significant first. */
  function FormatHex(v: nat, n: nat): (b: Bytes)
    ensures |b| == n
  {
    if n == 0 then [] else FormatHex(v / 16, n - 1) + [DigitChar(v % 16)]
  }

  function Pow16(n: nat): nat {
    if n == 0 then 1 else 16 * Pow16(n - 1)
  }

  lemma DigitRoundTrip(d: nat)
    requires d < 16
    ensures HexDigit(DigitChar(d)) == Some(d)
  {
  }

  lemma AccumulateExact(v: Word)
    ensures Accumulate(v / 16, v % 16) == v
  {
  }

  lemma {:induction false} HexRoundTrip(v: Word, n: nat)
    requires n <= 8 && v < Pow16(n)
    ensures ParseHex(FormatHex(v, n)) == Some(v)
  {
    if n > 0 {
      assert v / 16 < Pow16(n - 1);
      HexRoundTrip(v / 16, n - 1);
      var b := FormatHex(v, n);
      assert b[..n - 1] == FormatHex(v / 16, n - 1);
      DigitRoundTrip(v % 16);
      AccumulateExact(v);
    }
  }

  // ---------- The header ----------

  datatype Header = Header(mode: Word, uid: Word, gid: Word, mtime: Word, filesize: Word, namesize: Word)

  predicate Magic(b: Bytes) {
    b == Ascii("070701") || b == Ascii("070702")
  }

  function ParseHeader(raw: Bytes): Option<Header> {
    if |raw| < HEADER_SIZE || !Magic(raw[0..6]) then None
    else
      match (ParseHex(raw[14..22]), ParseHex(raw[22..30]), ParseHex(raw[30..38]),
             ParseHex(raw[46..54]), ParseHex(raw[54..62]), ParseHex(raw[94..102]))
      case (Some(mode), Some(uid), Some(gid), Some(mtime), Some(filesize), Some(namesize)) =>
        Some(Header(mode, uid, gid, mtime, filesize, namesize))
      case _ => None
  }

  // ---------- Reading one entry ----------

  function AlignTo4(x: nat): (r: Result<nat>)
    ensures r.Ok? ==> x <= r.value < x + 4 && r.value % 4 == 0 && r.value <= USIZE_MAX
    ensures r.Err? <==> x > USIZE_MAX - 3
  {
    if x + 3 > USIZE_MAX then Err(DataRangeOverflow) else Ok((x + 3) / 4 * 4)
  }

  /** Where the parts of one entry lie in the archive. */
  datatype Found = Found(header: Header, at: nat, nameEnd: nat, dataStart: nat, dataEnd: nat, next: nat) {
    function NameStart(): nat { at + HEADER_SIZE }
  }

  datatype Entry = Entry(header: Header, name: Bytes, data: Bytes)

  function NameOk(name: Bytes, utf8: Bytes -> bool): bool {
    |name| > 1 && name[|name| - 1] == 0 && 0 !in name[..|name| - 1] && utf8(name[..|name| - 1])
  }

  /** The body of next_entry: the entry at offset at, or the first thing wrong with it. */
  function ReadEntry(data: Bytes, at: nat, utf8: Bytes -> bool): (r: Result<Found>)
    requires |data| <= ISIZE_MAX
  {
    if at >= |data| || |data| - at < HEADER_SIZE then Err(TruncatedArchive)
    else
      match ParseHeader(data[at..at + HEADER_SIZE])
      case None => Err(InvalidHeader)
      case Some(h) =>
        var nameStart := at + HEADER_SIZE;
        var nameEnd := nameStart + h.namesize;
        if nameEnd > |data| || !NameOk(data[nameStart..nameEnd], utf8) then Err(InvalidName)
        else
          match AlignTo4(nameEnd)
          case Err(e) => Err(e)
          case Ok(dataStart) =>
            var dataEnd := dataStart + h.filesize;
            if dataStart > |data| then Err(TruncatedArchive)
            else if dataEnd > USIZE_MAX then Err(DataRangeOverflow)
            else if dataEnd > |data| then Err(TruncatedArchive)
            else
              match AlignTo4(dataEnd)
              case Err(e) => Err(e)
              case Ok(next) =>
                if next > |data| then Err(TruncatedArchive)
                else Ok(Found(h, at, nameEnd, dataStart, dataEnd, next))
  }

  function EntryOf(data: Bytes, f: Found): Entry
    requires f.NameStart() < f.nameEnd <= |data| && f.dataStart <= f.dataEnd <= |data|
  {
    Entry(f.header, data[f.NameStart()..f.nameEnd - 1], data[f.dataStart..f.dataEnd])
  }

  /** In order, without overlap, inside the archive, and at least 112 bytes from one entry to the next. */
  ghost predicate InBounds(f: Found, len: nat) {
    && f.NameStart() + 2 <= f.nameEnd <= f.dataStart <= f.dataEnd <= f.next <= len
    && f.next % 4 == 0 && f.at + 112 <= f.next
    && f.nameEnd == f.NameStart() + f.header.namesize && f.dataEnd == f.dataStart + f.header.filesize
  }

  lemma ReadInBounds(data: Bytes, at: nat, utf8: Bytes -> bool)
    requires |data| <= ISIZE_MAX && ReadEntry(data, at, utf8).Ok?
    ensures InBounds(ReadEntry(data, at, utf8).value, |data|) && ReadEntry(data, at, utf8).value.at == at
  {
  }

  /** The only range error is a file size that overruns 32 bits; no other sum can overflow. */
  lemma OverflowIsExact(data: Bytes, at: nat, utf8: Bytes -> bool)
    requires |data| <= ISIZE_MAX
    ensures ReadEntry(data, at, utf8) == Err(DataRangeOverflow) <==>
      && at + HEADER_SIZE <= |data| && ParseHeader(data[at..at + HEADER_SIZE]).Some?
      && var h := ParseHeader(data[at..at + HEADER_SIZE]).value;
         var nameEnd := at + HEADER_SIZE + h.namesize;
         && nameEnd <= |data| && NameOk(data[at + HEADER_SIZE..nameEnd], utf8)
         && (nameEnd + 3) / 4 * 4 <= |data| && (nameEnd + 3) / 4 * 4 + h.filesize > USIZE_MAX
  {
  }

  // ---------- Reading on ----------

  const TRAILER := "TRAILER!!!"

  /** offset and trailer_seen. */
  datatype Reader = Reader(offset: nat, trailerSeen: bool)

  /** next_entry: what it returns, and the reader afterwards. */
  function Next(data: Bytes, r: Reader, utf8: Bytes -> bool): (Result<Option<Found>>, Reader)
    requires |data| <= ISIZE_MAX
  {
    if r.trailerSeen then (Ok(None), r)
    else
      match ReadEntry(data, r.offset, utf8)
      case Err(e) => (Err(e), r)
      case Ok(f) =>
        ReadInBounds(data, r.offset, utf8);
        if EntryOf(data, f).name != Ascii(TRAILER) then (Ok(Some(f)), Reader(f.next, false))
        else if f.header.filesize != 0 then (Err(InvalidHeader), Reader(f.next, false))
        else (Ok(None), Reader(f.next, true))
  }

  /** A complete entry under the trailer's name that has data, which no archive may hold. */
  ghost predicate LoadedTrailer(data: Bytes, at: nat, utf8: Bytes -> bool)
    requires |data| <= ISIZE_MAX
  {
    && ReadEntry(data, at, utf8).Ok?
    && var f := ReadEntry(data, at, utf8).value;
       ReadInBounds(data, at, utf8);
       EntryOf(data, f).name == Ascii(TRAILER) && f.header.filesize != 0
  }

  /**
   After an error the reader stands where it was, except after a trailer with data: that one it has
   passed, so that a further call reads what lies behind it.
   */
  lemma ErrorMovesIff(data: Bytes, r: Reader, utf8: Bytes -> bool)
    requires |data| <= ISIZE_MAX && Next(data, r, utf8).0.Err?
    ensures Next(data, r, utf8).1 == r <==> !LoadedTrailer(data, r.offset, utf8)
    ensures LoadedTrailer(data, r.offset, utf8) ==>
      Next(data, r, utf8).1 == Reader(ReadEntry(data, r.offset, utf8).value.next, false)
  {
    hide ReadEntry;
    if ReadEntry(data, r.offset, utf8).Ok? { ReadInBounds(data, r.offset, utf8); }
  }

  /** What a caller who keeps calling next_entry sees, up to the first call that yields no entry. */
  datatype Listing = Listing(found: seq<Found>, end: Result<()>, reader: Reader)

  function Preceded(fs: seq<Found>, rest: Listing): Listing {
    rest.(found := fs + rest.found)
  }

  function ReadAll(data: Bytes, r: Reader, utf8: Bytes -> bool): Listing
    requires |data| <= ISIZE_MAX
    decreases |data| - r.offset
  {
    match Next(data, r, utf8)
    case (Err(e), r1) => Listing([], Err(e), r1)
    case (Ok(None), r1) => Listing([], Ok(()), r1)
    case (Ok(Some(f)), r1) =>
      ReadInBounds(data, r.offset, utf8);
      Preceded([f], ReadAll(data, r1, utf8))
  }

  /** For arbitrary bytes: the entries found are in bounds and follow one another without overlap. */
  lemma {:induction false} EntriesInOrder(data: Bytes, r: Reader, utf8: Bytes -> bool)
    requires |data| <= ISIZE_MAX
    ensures var fs := ReadAll(data, r, utf8).found;
      && (forall f <- fs :: InBounds(f, |data|) && r.offset <= f.at)
      && (forall i, j :: 0 <= i < j < |fs| ==> fs[i].next <= fs[j].at)
    decreases |data| - r.offset
  {
    hide ReadEntry;
    var (result, r1) := Next(data, r, utf8);
    if result.Ok? && result.value.Some? {
      ReadInBounds(data, r.offset, utf8);
      EntriesInOrder(data, r1, utf8);
      hide Next;
      hide EntryOf;
    }
  }

  // ---------- Writing ----------

  function Pad(len: nat): Bytes {
    if len % 4 == 0 then [] else if len % 4 == 1 then [0, 0, 0] else if len % 4 == 2 then [0, 0] else [0]
  }

  lemma PadAligns(b: Bytes)
    ensures |b + Pad(|b|)| == (|b| + 3) / 4 * 4 && forall x <- Pad(|b|) :: x == 0
  {
  }

  /** The 110 header bytes append_entry writes for a name (with its NUL) and its data. */
  function HeaderBytes(namesize: Word, filesize: Word): (b: Bytes)
    ensures |b| == HEADER_SIZE
  {
    Ascii("070701") + Ascii("00000000") + Ascii("000081A4") + Ascii("0000000000000000") + Ascii("0000000000000000")
    + FormatHex(filesize, 8) + Ascii("00000000000000000000000000000000") + FormatHex(namesize, 8) + Ascii("00000000")
  }

  /** append_entry; name includes the NUL. */
  function Append(archive: Bytes, name: Bytes, data: Bytes): (r: Bytes)
    requires |name| < TWO_32 && |data| < TWO_32
    ensures |r| >= |archive| && r[..|archive|] == archive
  {
    var named := archive + HeaderBytes(|name|, |data|) + name;
    var filled := named + Pad(|named|) + data;
    filled + Pad(|filled|)
  }

  lemma Fields(b: Bytes, namesize: Word, filesize: Word)
    requires b == HeaderBytes(namesize, filesize)
    ensures b[0..6] == Ascii("070701")
    ensures b[14..22] == Ascii("000081A4") && b[22..30] == Ascii("00000000") && b[30..38] == Ascii("00000000")
    ensures b[46..54] == Ascii("00000000")
    ensures b[54..62] == FormatHex(filesize, 8) && b[94..102] == FormatHex(namesize, 8)
  {
  }

  lemma ParseSnoc(b: Bytes, v: Word, d: nat)
    requires ParseHex(b) == Some(v) && v < 0x1000_0000 && d < 16
    ensures ParseHex(b + [DigitChar(d)]) == Some(16 * v + d)
  {
    assert (b + [DigitChar(d)])[..|b|] == b;
    DigitRoundTrip(d);
  }

  /** Four more digits. */
  lemma ParseFour(b: Bytes, v: Word, d3: nat, d2: nat, d1: nat, d0: nat)
    requires ParseHex(b) == Some(v) && v < 0x1_0000 && d3 < 16 && d2 < 16 && d1 < 16 && d0 < 16
    ensures ParseHex(b + [DigitChar(d3), DigitChar(d2), DigitChar(d1), DigitChar(d0)])
      == Some(0x1_0000 * v + 0x1000 * d3 + 0x100 * d2 + 0x10 * d1 + d0)
  {
    ParseSnoc(b, v, d3);
    hide ParseHex;
    hide DigitChar;
    var b3 := b + [DigitChar(d3)];
    ParseSnoc(b3, 16 * v + d3, d2);
    var b2 := b3 + [DigitChar(d2)];
    ParseSnoc(b2, 0x100 * v + 0x10 * d3 + d2, d1);
    var b1 := b2 + [DigitChar(d1)];
    ParseSnoc(b1, 0x1000 * v + 0x100 * d3 + 0x10 * d2 + d1, d0);
    assert b1 + [DigitChar(d0)] == b + [DigitChar(d3), DigitChar(d2), DigitChar(d1), DigitChar(d0)];
  }

  lemma FourZeros()
    ensures ParseHex(Ascii("0000")) == Some(0)
  {
    ParseFour([], 0, 0, 0, 0, 0);
    hide ParseHex;
    assert [] + [DigitChar(0), DigitChar(0), DigitChar(0), DigitChar(0)] == Ascii("0000");
  }

  lemma ZeroField()
    ensures ParseHex(Ascii("00000000")) == Some(0)
  {
    FourZeros();
    hide ParseHex;
    ParseFour(Ascii("0000"), 0, 0, 0, 0, 0);
    assert Ascii("0000") + [DigitChar(0), DigitChar(0), DigitChar(0), DigitChar(0)] == Ascii("00000000");
  }

  lemma ModeField()
    ensures ParseHex(Ascii("000081A4")) == Some(0x81A4)
  {
    FourZeros();
    hide ParseHex;
    ParseFour(Ascii("0000"), 0, 8, 1, 10, 4);
    assert Ascii("0000") + [DigitChar(8), DigitChar(1), DigitChar(10), DigitChar(4)] == Ascii("000081A4");
  }

  lemma HeaderRoundTrip(namesize: Word, filesize: Word)
    ensures ParseHeader(HeaderBytes(namesize, filesize)) == Some(Header(0x81A4, 0, 0, 0, filesize, namesize))
  {
    var b := HeaderBytes(namesize, filesize);
    Fields(b, namesize, filesize);
    ZeroField();
    ModeField();
    HexRoundTrip(namesize, 8);
    HexRoundTrip(filesize, 8);
  }

  function Up4(x: nat): nat {
    (x + 3) / 4 * 4
  }

  lemma Slice(a: Bytes, b: Bytes, c: Bytes)
    ensures (a + b + c)[|a|..|a| + |b|] == b
  {
  }

  lemma AppendLength(archive: Bytes, name: Bytes, data: Bytes)
    requires |name| < TWO_32 && |data| < TWO_32
    ensures var n1 := |archive| + HEADER_SIZE + |name|;
      && |Append(archive, name, data)| == Up4(Up4(n1) + |data|)
      && Append(archive, name, data)
           == archive + HeaderBytes(|name|, |data|) + name + Pad(n1) + data + Pad(Up4(n1) + |data|)
      && |Pad(n1)| == Up4(n1) - n1
  {
    hide HeaderBytes;
    var named := archive + HeaderBytes(|name|, |data|) + name;
    PadAligns(named);
    PadAligns(named + Pad(|named|) + data);
  }

  lemma Regroup(a: Bytes, b: Bytes, c: Bytes, d: Bytes, e: Bytes)
    ensures a + b + c + d + e == a + (b + c + d + e)
    ensures a + b + c + d + e == (a + b) + c + (d + e)
  {
  }

  lemma HeadSlices(archive: Bytes, header: Bytes, name: Bytes, after: Bytes, all: Bytes)
    requires all == archive + header + name + after
    ensures all[|archive|..|archive| + |header|] == header
    ensures all[|archive| + |header|..|archive| + |header| + |name|] == name
  {
    Slice(archive + header, name, after);
    assert all == archive + header + (name + after);
    Slice(archive, header, name + after);
  }

  /** Where append_entry puts the header, the name and the data. */
  lemma Layout(archive: Bytes, name: Bytes, data: Bytes, rest: Bytes, all: Bytes)
    requires |name| < TWO_32 && |data| < TWO_32
    requires all == Append(archive, name, data) + rest
    requires |all| >= Up4(Up4(|archive| + HEADER_SIZE + |name|) + |data|)
    ensures var at, nameEnd := |archive|, |archive| + HEADER_SIZE + |name|;
      && all[at..at + HEADER_SIZE] == HeaderBytes(|name|, |data|)
      && all[at + HEADER_SIZE..nameEnd] == name
      && all[Up4(nameEnd)..Up4(nameEnd) + |data|] == data
  {
    AppendLength(archive, name, data);
    hide Append;
    hide HeaderBytes;
    hide Up4;
    hide Pad;
    var header := HeaderBytes(|name|, |data|);
    var named := archive + header + name;
    var n1 := |named|;
    var pad2 := Pad(Up4(n1) + |data|);
    Regroup(named, Pad(n1), data, pad2, rest);
    Slice(named + Pad(n1), data, pad2 + rest);
    HeadSlices(archive, header, name, Pad(n1) + data + pad2 + rest, all);
  }

  /** ReadEntry on bytes laid out that way. */
  lemma ReadLaidOut(all: Bytes, at: nat, name: Bytes, data: Bytes, utf8: Bytes -> bool)
    requires |all| <= ISIZE_MAX && NameOk(name, utf8) && |name| < TWO_32 && |data| < TWO_32
    requires Up4(Up4(at + HEADER_SIZE + |name|) + |data|) <= |all|
    requires all[at..at + HEADER_SIZE] == HeaderBytes(|name|, |data|)
    requires all[at + HEADER_SIZE..at + HEADER_SIZE + |name|] == name
    ensures ReadEntry(all, at, utf8) ==
      Ok(Found(Header(0x81A4, 0, 0, 0, |data|, |name|), at, at + HEADER_SIZE + |name|,
               Up4(at + HEADER_SIZE + |name|), Up4(at + HEADER_SIZE + |name|) + |data|,
               Up4(Up4(at + HEADER_SIZE + |name|) + |data|)))
  {
    hide HeaderBytes;
    hide ParseHeader;
    HeaderRoundTrip(|name|, |data|);
  }

  lemma DropLast(b: Bytes, i: nat, j: nat)
    requires i < j <= |b|
    ensures b[i..j - 1] == b[i..j][..j - i - 1]
  {
  }

  /** A whole entry read back from behind whatever precedes it, whatever follows it. */
  lemma ReadAppended(archive: Bytes, name: Bytes, data: Bytes, all: Bytes, utf8: Bytes -> bool)
    requires NameOk(name, utf8) && |name| < TWO_32 && |data| < TWO_32
    requires Append(archive, name, data) <= all && |all| <= ISIZE_MAX
    ensures ReadEntry(all, |archive|, utf8).Ok?
    ensures var f := ReadEntry(all, |archive|, utf8).value;
      && InBounds(f, |all|) && f.next == |Append(archive, name, data)|
      && EntryOf(all, f) == Entry(Header(0x81A4, 0, 0, 0, |data|, |name|), name[..|name| - 1], data)
  {
    hide Append;
    hide HeaderBytes;
    hide ReadEntry;
    hide NameOk;
    hide Pad;
    var whole := Append(archive, name, data);
    var rest := all[|whole|..];
    assert all == whole + rest;
    AppendLength(archive, name, data);
    Layout(archive, name, data, rest, all);
    ReadLaidOut(all, |archive|, name, data, utf8);
    ReadInBounds(all, |archive|, utf8);
    var f := ReadEntry(all, |archive|, utf8).value;
    DropLast(all, f.NameStart(), f.nameEnd);
  }

  // ---------- Whole archives ----------

  /** A file to archive, its name without the NUL; both lengths fit the header's fields. */
  datatype NamedData = NamedData(name: Bytes, data: Bytes)
  type File = f: NamedData | |f.name| + 1 < TWO_32 && |f.data| < TWO_32 witness NamedData([], [])

  ghost predicate Archivable(f: File, utf8: Bytes -> bool) {
    |f.name| > 0 && 0 !in f.name && utf8(f.name) && f.name != Ascii(TRAILER)
  }

  function WriteFiles(archive: Bytes, files: seq<File>): (r: Bytes)
    ensures archive <= r
    decreases |files|
  {
    if files == [] then archive
    else WriteFiles(Append(archive, files[0].name + [0], files[0].data), files[1..])
  }

  function WriteArchive(archive: Bytes, files: seq<File>): (r: Bytes)
    ensures WriteFiles(archive, files) <= r
  {
    Append(WriteFiles(archive, files), Ascii(TRAILER) + [0], [])
  }

  function Expected(f: File): Entry {
    Entry(Header(0x81A4, 0, 0, 0, |f.data|, |f.name| + 1), f.name, f.data)
  }

  ghost predicate ReadsAs(data: Bytes, fs: seq<Found>, files: seq<File>) {
    && |fs| == |files|
    && forall i :: 0 <= i < |fs| ==> InBounds(fs[i], |data|) && EntryOf(data, fs[i]) == Expected(files[i])
  }

  lemma ReadFile(archive: Bytes, f: File, data: Bytes, utf8: Bytes -> bool)
    requires Archivable(f, utf8) && |data| <= ISIZE_MAX
    requires Append(archive, f.name + [0], f.data) <= data
    ensures var (result, r) := Next(data, Reader(|archive|, false), utf8);
      && r == Reader(|Append(archive, f.name + [0], f.data)|, false)
      && result.Ok? && result.value.Some?
      && InBounds(result.value.value, |data|) && EntryOf(data, result.value.value) == Expected(f)
  {
    var name := f.name + [0];
    assert name[..|name| - 1] == f.name;
    ReadAppended(archive, name, f.data, data, utf8);
  }

  lemma NoNul()
    ensures 0 !in Ascii(TRAILER)
  {
  }

  lemma ReadTrailer(archive: Bytes, data: Bytes, utf8: Bytes -> bool)
    requires |data| <= ISIZE_MAX && utf8(Ascii("TRAILER!!!"))
    requires Append(archive, Ascii("TRAILER!!!") + [0], []) <= data
    ensures Next(data, Reader(|archive|, false), utf8).0 == Ok(None)
    ensures Next(data, Reader(|archive|, false), utf8).1.trailerSeen
  {
    var name := Ascii(TRAILER) + [0];
    assert name[..|name| - 1] == Ascii(TRAILER);
    NoNul();
    ReadAppended(archive, name, [], data, utf8);
  }

  /** Such an archive exists: a trailer written with one byte of data. */
  lemma LoadedTrailerExists(utf8: Bytes -> bool)
    requires utf8(Ascii(TRAILER))
    ensures var data := Append([], Ascii(TRAILER) + [0], [1]);
      && |data| <= ISIZE_MAX && LoadedTrailer(data, 0, utf8)
      && Next(data, Reader(0, false), utf8) == (Err(InvalidHeader), Reader(|data|, false))
  {
    var name := Ascii(TRAILER) + [0];
    var data := Append([], name, [1]);
    assert name[..|name| - 1] == Ascii(TRAILER);
    NoNul();
    AppendLength([], name, [1]);
    hide Append;
    ReadAppended([], name, [1], data, utf8);
    hide ReadEntry;
  }

  lemma {:induction false} ReadBack(archive: Bytes, files: seq<File>, data: Bytes, utf8: Bytes -> bool)
    requires |data| <= ISIZE_MAX && utf8(Ascii(TRAILER))
    requires forall f <- files :: Archivable(f, utf8)
    requires WriteArchive(archive, files) <= data
    ensures var l := ReadAll(data, Reader(|archive|, false), utf8);
      l.end == Ok(()) && l.reader.trailerSeen && ReadsAs(data, l.found, files)
    decreases |files|
  {
    hide Append;
    hide Next;
    hide EntryOf;
    if files == [] {
      ReadTrailer(archive, data, utf8);
    } else {
      var first := Append(archive, files[0].name + [0], files[0].data);
      assert first <= data by {
        assert first <= WriteFiles(first, files[1..]) <= WriteArchive(archive, files);
      }
      ReadFile(archive, files[0], data, utf8);
      ReadBack(first, files[1..], data, utf8);
    }
  }

  /**
   Reading inverts writing: whatever bytes follow the trailer, next_entry yields the files in order
   with their names, data and sizes, then None, and None again on every later call.
   */
  lemma RoundTrip(files: seq<File>, extra: Bytes, utf8: Bytes -> bool)
    requires utf8(Ascii(TRAILER)) && forall f <- files :: Archivable(f, utf8)
    requires |WriteArchive([], files)| + |extra| <= ISIZE_MAX
    ensures var data := WriteArchive([], files) + extra;
      var l := ReadAll(data, Reader(0, false), utf8);
      l.end == Ok(()) && Next(data, l.reader, utf8) == (Ok(None), l.reader) && ReadsAs(data, l.found, files)
  {
    ReadBack([], files, WriteArchive([], files) + extra, utf8);
  }

  // ---------- Headers byte by byte ----------

  /** b is the hexadecimal digit d, in lower or upper case. */
  predicate IsDigit(b: Byte, d: nat) {
    d < 16 && (b == "0123456789abcdef"[d] as int || b == "0123456789ABCDEF"[d] as int)
  }

  lemma DigitIs(b: Byte, d: nat)
    ensures HexDigit(b) == Some(d) <==> IsDigit(b, d)
  {
    assert forall i: nat | i < 10 :: "0123456789abcdef"[i] as int == 48 + i == "0123456789ABCDEF"[i] as int;
    assert forall i: nat | 10 <= i < 16 :: "0123456789abcdef"[i] as int == 87 + i;
    assert forall i: nat | 10 <= i < 16 :: "0123456789ABCDEF"[i] as int == 55 + i;
  }

  /** b spells v in hexadecimal, most significant digit first. */
  ghost predicate Spells(b: Bytes, v: int) {
    if b == [] then v == 0
    else v >= 0 && IsDigit(b[|b| - 1], v % 16) && Spells(b[..|b| - 1], v / 16)
  }

  lemma LastDigitOf(high: int, d: nat)
    requires d < 16
    ensures (16 * high + d) / 16 == high && (16 * high + d) % 16 == d
  {
  }

  lemma {:induction false} SpellsBounded(b: Bytes, v: int)
    requires Spells(b, v)
    ensures 0 <= v < Pow16(|b|)
  {
    if b != [] { SpellsBounded(b[..|b| - 1], v / 16); }
  }

  lemma {:induction false} Powers(n: nat, m: nat)
    requires n <= m
    ensures Pow16(n) <= Pow16(m)
    decreases m - n
  {
    if n < m { Powers(n + 1, m); }
  }

  lemma SixteenTo(n: nat)
    requires n <= 7
    ensures Pow16(n) <= 0x1000_0000
  {
    Powers(n, 7);
    assert Pow16(3) == 0x1000;
    assert Pow16(5) == 0x100 * Pow16(3);
    assert Pow16(7) == 0x100 * Pow16(5);
  }

  lemma AccumulateSum(high: Word, d: nat)
    requires high < 0x1000_0000 && d < 16
    ensures Accumulate(high, d) == 16 * high + d
    ensures Accumulate(high, d) / 16 == high && Accumulate(high, d) % 16 == d
  {
    LastDigitOf(high, d);
  }

  lemma HighPart(front: Bytes, high: Word)
    requires |front| <= 7 && Spells(front, high)
    ensures high < 0x1000_0000
  {
    SpellsBounded(front, high);
    SixteenTo(|front|);
  }

  /** Up to eight bytes are parsed to v exactly when they spell v. */
  lemma {:induction false} HexReads(b: Bytes, v: Word)
    requires |b| <= 8
    ensures ParseHex(b) == Some(v) <==> Spells(b, v)
    decreases |b|
  {
    hide IsDigit;
    if b != [] {
      var front, last := b[..|b| - 1], b[|b| - 1];
      HexReads(front, v / 16);
      DigitIs(last, v % 16);
      if ParseHex(front).Some? {
        var high := ParseHex(front).value;
        HexReads(front, high);
        HighPart(front, high);
        if HexDigit(last).Some? { AccumulateSum(high, HexDigit(last).value); }
      }
    }
  }

  /**
   The header fields and their places: bytes 14 mode, 22 uid, 30 gid, 46 mtime, 54 file size and 94 name
   size, eight hexadecimal digits each in either case, behind one of the two magic numbers.
   */
  lemma HeaderReads(raw: Bytes, h: Header)
    ensures ParseHeader(raw) == Some(h) <==>
      && |raw| >= 110
      && (raw[0..6] == [0x30, 0x37, 0x30, 0x37, 0x30, 0x31] || raw[0..6] == [0x30, 0x37, 0x30, 0x37, 0x30, 0x32])
      && Spells(raw[14..22], h.mode) && Spells(raw[22..30], h.uid) && Spells(raw[30..38], h.gid)
      && Spells(raw[46..54], h.mtime) && Spells(raw[54..62], h.filesize) && Spells(raw[94..102], h.namesize)
  {
    assert Ascii("070701") == [0x30, 0x37, 0x30, 0x37, 0x30, 0x31];
    assert Ascii("070702") == [0x30, 0x37, 0x30, 0x37, 0x30, 0x32];
    hide Spells;
    hide ParseHex;
    if |raw| >= 110 {
      HexReads(raw[14..22], h.mode);
      HexReads(raw[22..30], h.uid);
      HexReads(raw[30..38], h.gid);
      HexReads(raw[46..54], h.mtime);
      HexReads(raw[54..62], h.filesize);
      HexReads(raw[94..102], h.namesize);
    }
  }

  // ---------- Which error ----------

  ghost predicate HeaderAt(data: Bytes, at: nat, h: Header) {
    at + 110 <= |data| && ParseHeader(data[at..at + 110]) == Some(h)
  }

  /** The name behind the header: at least one byte and a NUL, no other NUL, and UTF-8. */
  ghost predicate NameAt(data: Bytes, at: nat, size: nat, utf8: Bytes -> bool) {
    && at + size <= |data| && size >= 2 && data[at + size - 1] == 0
    && (forall i :: at <= i < at + size - 1 ==> data[i] != 0)
    && utf8(data[at..at + size - 1])
  }

  lemma NameIs(data: Bytes, at: nat, size: nat, utf8: Bytes -> bool)
    requires at + size <= |data|
    ensures NameOk(data[at..at + size], utf8) <==> NameAt(data, at, size, utf8)
  {
    var name := data[at..at + size];
    if size >= 2 {
      DropLast(data, at, at + size);
      assert forall i :: 0 <= i < size ==> name[i] == data[at + i];
      if 0 !in name[..size - 1] {
        forall i | at <= i < at + size - 1 ensures data[i] != 0 { assert name[..size - 1][i - at] == data[i]; }
      }
    }
  }

  /** The end of the name, and where data and next entry start, on multiples of four. */
  function DataStart(at: nat, h: Header): nat {
    (at + 110 + h.namesize + 3) / 4 * 4
  }

  function NextStart(at: nat, h: Header): nat {
    (DataStart(at, h) + h.filesize + 3) / 4 * 4
  }

  lemma NameTooLong(data: Bytes, at: nat, size: nat, utf8: Bytes -> bool)
    requires at + size > |data|
    ensures !NameAt(data, at, size, utf8)
  {
  }

  /**
   What next_entry makes of the bytes at an offset, case by case: no room for a header, or not enough
   bytes for padding or data; a bad header; a bad name; a data range past 32 bits; otherwise the entry.
   */
  lemma ReadCases(data: Bytes, at: nat, utf8: Bytes -> bool)
    requires |data| <= ISIZE_MAX
    ensures ReadEntry(data, at, utf8) == Err(InvalidHeader) <==>
      at + 110 <= |data| && ParseHeader(data[at..at + 110]).None?
    ensures ReadEntry(data, at, utf8) == Err(InvalidName) <==>
      exists h :: HeaderAt(data, at, h) && !NameAt(data, at + 110, h.namesize, utf8)
    ensures ReadEntry(data, at, utf8) == Err(DataRangeOverflow) <==>
      exists h :: HeaderAt(data, at, h) && NameAt(data, at + 110, h.namesize, utf8)
        && DataStart(at, h) <= |data| && DataStart(at, h) + h.filesize >= 0x1_0000_0000
    ensures ReadEntry(data, at, utf8) == Err(TruncatedArchive) <==>
      || at + 110 > |data|
      || exists h :: HeaderAt(data, at, h) && NameAt(data, at + 110, h.namesize, utf8)
           && (DataStart(at, h) > |data|
               || (DataStart(at, h) + h.filesize < 0x1_0000_0000 && NextStart(at, h) > |data|))
    ensures forall h | HeaderAt(data, at, h) && NameAt(data, at + 110, h.namesize, utf8)
                       && NextStart(at, h) <= |data| ::
      ReadEntry(data, at, utf8) ==
        Ok(Found(h, at, at + 110 + h.namesize, DataStart(at, h), DataStart(at, h) + h.filesize, NextStart(at, h)))
  {
    hide ParseHeader;
    hide NameOk;
    hide NameAt;
    if at + 110 <= |data| && ParseHeader(data[at..at + 110]).Some? {
      var h := ParseHeader(data[at..at + 110]).value;
      assert HeaderAt(data, at, h);
      if at + 110 + h.namesize <= |data| {
        NameIs(data, at + 110, h.namesize, utf8);
      } else {
        NameTooLong(data, at + 110, h.namesize, utf8);
      }
    }
  }
}
