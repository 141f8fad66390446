/** The archive reader, its driving loop, and the writer of its tests, as loops over bytes. */
module CpioArchive {
  import opened Words
  import opened Cpio

  lemma EmptyHex()
    ensures ParseHex([]) == Some(0)
  {
  }

  lemma HexStep(bytes: Bytes, i: nat)
    requires i < |bytes| && ParseHex(bytes[..i]).Some?
    ensures ParseHex(bytes[..i + 1]) ==
      match HexDigit(bytes[i]) case None => None case Some(d) => Some(Accumulate(ParseHex(bytes[..i]).value, d))
  {
    assert bytes[..i + 1][..i] == bytes[..i];
  }

  lemma {:induction false} BadDigit(bytes: Bytes, i: nat)
    requires i < |bytes| && HexDigit(bytes[i]).None?
    ensures ParseHex(bytes).None?
    decreases |bytes|
  {
    if i < |bytes| - 1 { BadDigit(bytes[..|bytes| - 1], i); }
  }

  /** parse_hex_u32. */
  method ParseHexU32(bytes: Bytes) returns (r: Option<Word>)
    ensures r == ParseHex(bytes)
  {
    hide ParseHex;
    var result: Word := 0;
    assert ParseHex(bytes[..0]) == Some(0) by { EmptyHex(); }
    var i := 0;
    while i < |bytes|
      invariant 0 <= i <= |bytes|
      invariant ParseHex(bytes[..i]) == Some(result)
    {
      HexStep(bytes, i);
      var digit := HexDigit(bytes[i]);
      if digit.None? {
        BadDigit(bytes, i);
        return None;
      }
      result := result * 16 % TWO_32 + digit.value;
      i := i + 1;
    }
    assert bytes[..i] == bytes;
    return Some(result);
  }

  method PushZeros(b: Bytes) returns (r: Bytes)
    ensures r == b + Pad(|b|)
  {
    r := b;
    while |r| % 4 != 0
      invariant |b| <= |r| && r + Pad(|r|) == b + Pad(|b|)
      decreases (4 - |r| % 4) % 4
    {
      assert Pad(|r|) == [0] + Pad(|r| + 1);
      r := r + [0];
    }
  }

  /** append_entry: each section is padded by pushing zero bytes one at a time. */
  method AppendEntry(archive: Bytes, name: Bytes, data: Bytes) returns (r: Bytes)
    requires |name| < TWO_32 && |data| < TWO_32
    ensures r == Append(archive, name, data)
  {
    hide HeaderBytes;
    r := archive + HeaderBytes(|name|, |data|) + name;
    r := PushZeros(r);
    r := r + data;
    r := PushZeros(r);
  }

  lemma ReadStep(data: Bytes, r: Reader, utf8: Bytes -> bool, fs: seq<Found>)
    requires |data| <= ISIZE_MAX
    ensures Preceded([], ReadAll(data, r, utf8)) == ReadAll(data, r, utf8)
    ensures match Next(data, r, utf8)
      case (Ok(Some(f)), r1) => Preceded(fs, ReadAll(data, r, utf8)) == Preceded(fs + [f], ReadAll(data, r1, utf8))
      case (Ok(None), r1) => Preceded(fs, ReadAll(data, r, utf8)) == Listing(fs, Ok(()), r1)
      case (Err(e), r1) => Preceded(fs, ReadAll(data, r, utf8)) == Listing(fs, Err(e), r1)
  {
    hide Next;
    var all := ReadAll(data, r, utf8);
    assert [] + all.found == all.found;
    var (result, r1) := Next(data, r, utf8);
    if result.Ok? && result.value.Some? {
      assert fs + ([result.value.value] + ReadAll(data, r1, utf8).found)
          == fs + [result.value.value] + ReadAll(data, r1, utf8).found;
    } else {
      assert fs + [] == fs;
    }
  }

  class Archive {
    const data: Bytes
    const utf8: Bytes -> bool
    var offset: nat
    var trailerSeen: bool

    ghost function Now(): Reader
      reads this
    {
      Reader(offset, trailerSeen)
    }

    constructor (data: Bytes, utf8: Bytes -> bool)
      requires |data| <= ISIZE_MAX
      ensures this.data == data && this.utf8 == utf8 && Now() == Reader(0, false)
    {
      this.data, this.utf8 := data, utf8;
      offset, trailerSeen := 0, false;
    }

    /** read_filename: whether there is a proper name of namesize bytes, NUL included. */
    method ReadFilename(start: nat, namesize: Word) returns (ok: bool)
      ensures ok <==> start + namesize <= |data| && NameOk(data[start..start + namesize], utf8)
    {
      if namesize == 0 || start + namesize > |data| {
        return false;
      }
      var bytes := data[start..start + namesize];
      if bytes[namesize - 1] != 0 {
        return false;
      }
      var clean := bytes[..namesize - 1];
      return clean != [] && 0 !in clean && utf8(clean);
    }

    /** The checks of next_entry, in its order. */
    method ReadHere() returns (r: Result<Found>)
      requires |data| <= ISIZE_MAX
      ensures r == ReadEntry(data, offset, utf8)
    {
      hide NameOk;
      hide ParseHeader;
      if offset >= |data| {
        return Err(TruncatedArchive);
      }
      if |data| - offset < HEADER_SIZE {
        return Err(TruncatedArchive);
      }
      var header := ParseHeader(data[offset..offset + HEADER_SIZE]);
      if header.None? {
        return Err(InvalidHeader);
      }
      var nameStart := offset + HEADER_SIZE;
      var named := ReadFilename(nameStart, header.value.namesize);
      if !named {
        return Err(InvalidName);
      }
      var nameEnd := nameStart + header.value.namesize;
      var dataStart := AlignTo4(nameEnd);
      if dataStart.Err? {
        return Err(DataRangeOverflow);
      }
      if dataStart.value > |data| {
        return Err(TruncatedArchive);
      }
      var dataEnd := dataStart.value + header.value.filesize;
      if dataEnd > USIZE_MAX {
        return Err(DataRangeOverflow);
      }
      if dataEnd > |data| {
        return Err(TruncatedArchive);
      }
      var next := AlignTo4(dataEnd);
      if next.Err? {
        return Err(DataRangeOverflow);
      }
      if next.value > |data| {
        return Err(TruncatedArchive);
      }
      return Ok(Found(header.value, offset, nameEnd, dataStart.value, dataEnd, next.value));
    }

    /** next_entry. */
    method NextEntry() returns (r: Result<Option<Found>>)
      requires |data| <= ISIZE_MAX
      modifies this
      ensures Next(data, old(Now()), utf8) == (r, Now())
    {
      hide ReadEntry;
      if trailerSeen {
        return Ok(None);
      }
      var found := ReadHere();
      if found.Err? {
        return Err(found.error);
      }
      var f := found.value;
      ReadInBounds(data, offset, utf8);
      offset := f.next;
      if data[f.NameStart()..f.nameEnd - 1] == Ascii(TRAILER) {
        if f.header.filesize != 0 {
          return Err(InvalidHeader);
        }
        trailerSeen := true;
        return Ok(None);
      }
      return Ok(Some(f));
    }

    /** cpio_parse: hands every entry to the callback (here, to a list) until next_entry yields none. */
    method Parse() returns (entries: seq<Entry>, ghost fs: seq<Found>, status: Result<()>)
      requires |data| <= ISIZE_MAX
      modifies this
      ensures ReadAll(data, old(Now()), utf8) == Listing(fs, status, Now())
      ensures |entries| == |fs|
      ensures forall i :: 0 <= i < |fs| ==> InBounds(fs[i], |data|) && entries[i] == EntryOf(data, fs[i])
    {
      hide ReadEntry;
      hide ReadAll;
      entries, fs := [], [];
      ghost var start := Now();
      ReadStep(data, start, utf8, fs);
      while true
        invariant ReadAll(data, start, utf8) == Preceded(fs, ReadAll(data, Now(), utf8))
        invariant |entries| == |fs|
        invariant forall i :: 0 <= i < |fs| ==> InBounds(fs[i], |data|) && entries[i] == EntryOf(data, fs[i])
        decreases |data| - offset
      {
        ghost var before := Now();
        ReadStep(data, before, utf8, fs);
        var r := NextEntry();
        match r {
          case Err(e) =>
            return entries, fs, Err(e);
          case Ok(None) =>
            return entries, fs, Ok(());
          case Ok(Some(f)) =>
            ReadInBounds(data, before.offset, utf8);
            entries := entries + [EntryOf(data, f)];
            fs := fs + [f];
        }
      }
    }
  }

  datatype Status = CpioOk | InvalidInfo | BadHeader | BadName | Truncated | DataRange

  function StatusOf(r: Result<()>): Status {
    match r
    case Ok(_) => CpioOk
    case Err(TruncatedArchive) => Truncated
    case Err(InvalidHeader) => BadHeader
    case Err(InvalidName) => BadName
    case Err(DataRangeOverflow) => DataRange
  }

  /** wrapper.rs: the one archive the kernel has been given, if any. */
  class Wrapper {
    var archive: Archive?

    constructor ()
      ensures archive == null
    {
      archive := null;
    }

    /** cpio_init; base is None for a null pointer. An archive given earlier stays when this one is refused. */
    method Init(base: Option<Bytes>, utf8: Bytes -> bool) returns (r: Status)
      modifies this
      ensures r == if base.None? || base.value == [] || |base.value| > ISIZE_MAX then InvalidInfo else CpioOk
      ensures r == InvalidInfo ==> archive == old(archive)
      ensures r == CpioOk ==>
        archive != null && fresh(archive) && archive.data == base.value && archive.utf8 == utf8
        && archive.Now() == Reader(0, false)
    {
      if base.None? || |base.value| == 0 || |base.value| > ISIZE_MAX {
        return InvalidInfo;
      }
      archive := new Archive(base.value, utf8);
      return CpioOk;
    }

    /** cpio_parse: reads on from where the archive stands, and turns its end into a status. */
    method Parse() returns (entries: seq<Entry>, r: Status)
      requires archive != null ==> |archive.data| <= ISIZE_MAX
      modifies archive
      ensures archive == null ==> r == InvalidInfo && entries == []
      ensures archive != null ==>
        var l := ReadAll(archive.data, old(archive.Now()), archive.utf8);
        && r == (match l.end
                 case Ok(_) => CpioOk
                 case Err(TruncatedArchive) => Truncated
                 case Err(InvalidHeader) => BadHeader
                 case Err(InvalidName) => BadName
                 case Err(DataRangeOverflow) => DataRange)
        && archive.Now() == l.reader && |entries| == |l.found|
        && forall i :: 0 <= i < |entries| ==>
             InBounds(l.found[i], |archive.data|) && entries[i] == EntryOf(archive.data, l.found[i])
    {
      if archive == null {
        return [], InvalidInfo;
      }
      ghost var fs: seq<Found>;
      var status: Result<()>;
      entries, fs, status := archive.Parse();
      r := StatusOf(status);
    }
  }
}
