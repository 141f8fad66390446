/**
 The boot loader's structures byte by byte (Multiboot Specification 0.6.96, section 3.3): writers for the
 information structure, the memory map and the module table, which decoding inverts, and what pmm_init
 makes of the bytes they write.
 */
module BootBytes {
  import opened Words
  import opened Frames
  import opened BootMap

  // ---------- Writers ----------

  /** Little-endian numbers. */
  function LE32(w: Word): (b: seq<Byte>)
    ensures |b| == 4
  {
    [w % 256, w / 256 % 256, w / 0x1_0000 % 256, w / 0x100_0000]
  }

  function LE64(x: nat): (b: seq<Byte>)
    requires x < TWO_64
    ensures |b| == 8
  {
    LE32(x % TWO_32) + LE32(x / TWO_32)
  }

  /** A module descriptor: first byte, byte behind the last one, command line, and a reserved word. */
  function WriteModule(m: Module, reserved: Word): (b: seq<Byte>)
    ensures |b| == 16
  {
    LE32(m.start) + LE32(m.end) + LE32(m.cmdline) + LE32(reserved)
  }

  function WriteModules(mods: seq<Module>, reserved: seq<Word>): (b: seq<Byte>)
    requires |mods| == |reserved|
    ensures |b| == 16 * |mods|
  {
    var n := |mods|;
    if n == 0 then [] else WriteModules(mods[..n - 1], reserved[..n - 1]) + WriteModule(mods[n - 1], reserved[n - 1])
  }

  /** An entry of the memory map as the boot loader writes it; more is what its size allows behind the type. */
  datatype RawEntry = RawEntry(base: nat, length: nat, kind: Word, more: seq<Byte>)

  predicate Writable(e: RawEntry) {
    e.base < TWO_64 && e.length < TWO_64 && 20 + |e.more| < TWO_32
  }

  function WriteEntry(e: RawEntry): (b: seq<Byte>)
    requires Writable(e)
    ensures |b| == 24 + |e.more|
  {
    LE32(20 + |e.more|) + LE64(e.base) + LE64(e.length) + LE32(e.kind) + e.more
  }

  function WriteMap(es: seq<RawEntry>): seq<Byte>
    requires forall e <- es :: Writable(e)
  {
    if es == [] then [] else WriteEntry(es[0]) + WriteMap(es[1..])
  }

  /** The information structure: the fields pmm_init reads, and the bytes between them. */
  datatype RawInfo = RawInfo(
    flags: Word, memory: seq<Byte>, cmdLine: Word, modsCount: Word, modsAddr: Word, symbols: seq<Byte>,
    mmapLen: Word, mmapAddr: Word, drives: seq<Byte>, bootLoaderName: Word, video: seq<Byte>,
    framebufferAddr: nat, framebufferPitch: Word, framebufferWidth: Word, framebufferHeight: Word, colors: seq<Byte>)

  predicate Sized(x: RawInfo) {
    && |x.memory| == 12 && |x.symbols| == 16 && |x.drives| == 12 && |x.video| == 20 && |x.colors| == 10
    && x.framebufferAddr < TWO_64
  }

  /** Bytes 0 to 43. */
  function WriteStrings(x: RawInfo): (b: seq<Byte>)
    requires Sized(x)
    ensures |b| == 44
  {
    LE32(x.flags) + x.memory + LE32(x.cmdLine) + LE32(x.modsCount) + LE32(x.modsAddr) + x.symbols
  }

  /** Bytes 44 to 87. */
  function WriteTables(x: RawInfo): (b: seq<Byte>)
    requires Sized(x)
    ensures |b| == 44
  {
    LE32(x.mmapLen) + LE32(x.mmapAddr) + x.drives + LE32(x.bootLoaderName) + x.video
  }

  /** Bytes 88 to 117. */
  function WriteFramebuffer(x: RawInfo): (b: seq<Byte>)
    requires Sized(x)
    ensures |b| == 30
  {
    LE64(x.framebufferAddr) + LE32(x.framebufferPitch) + LE32(x.framebufferWidth) + LE32(x.framebufferHeight) + x.colors
  }

  function WriteInfo(x: RawInfo): (b: seq<Byte>)
    requires Sized(x)
    ensures |b| == 118
  {
    WriteStrings(x) + WriteTables(x) + WriteFramebuffer(x)
  }

  // ---------- Decoding inverts writing ----------

  ghost predicate At(b: seq<Byte>, off: nat, part: seq<Byte>) {
    off + |part| <= |b| && b[off..off + |part|] == part
  }

  /** Of two parts in a row each is at its place. */
  lemma Cut(b: seq<Byte>, off: nat, x: seq<Byte>, y: seq<Byte>)
    requires At(b, off, x + y)
    ensures At(b, off, x) && At(b, off + |x|, y)
  {
    var c := b[off..off + |x + y|];
    assert c[..|x|] == x && c[|x|..] == y;
  }

  lemma WordBytes(w: Word)
    ensures w % 256 + 0x100 * (w / 256 % 256) + 0x1_0000 * (w / 0x1_0000 % 256) + 0x100_0000 * (w / 0x100_0000) == w
  {
    assert w / 0x1_0000 == w / 256 / 256 && w / 0x100_0000 == w / 0x1_0000 / 256;
  }

  lemma ReadWord(b: seq<Byte>, off: nat, w: Word)
    requires At(b, off, LE32(w))
    ensures off + 4 <= |b| && U32(b, off) == w
  {
    var c := b[off..off + 4];
    assert b[off] == c[0] && b[off + 1] == c[1] && b[off + 2] == c[2] && b[off + 3] == c[3];
    WordBytes(w);
  }

  lemma ReadLong(b: seq<Byte>, off: nat, x: nat)
    requires x < TWO_64 && At(b, off, LE64(x))
    ensures off + 8 <= |b| && U64(b, off) == x
  {
    Cut(b, off, LE32(x % TWO_32), LE32(x / TWO_32));
    ReadWord(b, off, x % TWO_32);
    ReadWord(b, off + 4, x / TWO_32);
  }

  lemma ModuleThere(b: seq<Byte>, i: nat, m: Module, reserved: Word)
    requires At(b, 16 * i, WriteModule(m, reserved))
    ensures 16 * (i + 1) <= |b|
  {
  }

  lemma ModuleDecodes(b: seq<Byte>, i: nat, m: Module, reserved: Word)
    requires At(b, 16 * i, WriteModule(m, reserved))
    ensures 16 * (i + 1) <= |b| && ModuleAt(b, i) == m
  {
    hide At;
    Cut(b, 16 * i, LE32(m.start) + LE32(m.end) + LE32(m.cmdline), LE32(reserved));
    Cut(b, 16 * i, LE32(m.start) + LE32(m.end), LE32(m.cmdline));
    Cut(b, 16 * i, LE32(m.start), LE32(m.end));
    hide LE32;
    hide U32;
    ReadWord(b, 16 * i, m.start);
    ReadWord(b, 16 * i + 4, m.end);
    ReadWord(b, 16 * i + 8, m.cmdline);
    ModuleThere(b, i, m, reserved);
  }

  lemma {:induction false} TableParts(mods: seq<Module>, reserved: seq<Word>, i: nat)
    requires i < |mods| == |reserved|
    ensures At(WriteModules(mods, reserved), 16 * i, WriteModule(mods[i], reserved[i]))
    decreases |mods|
  {
    var n := |mods| - 1;
    if i < n {
      TableParts(mods[..n], reserved[..n], i);
    }
  }

  /** Every module table is read back as written. */
  lemma ModulesDecode(mods: seq<Module>, reserved: seq<Word>)
    requires |mods| == |reserved|
    ensures Modules(WriteModules(mods, reserved)) == mods
  {
    var b := WriteModules(mods, reserved);
    forall i | 0 <= i < |mods| ensures ModuleAt(b, i) == mods[i] {
      TableParts(mods, reserved, i);
      ModuleDecodes(b, i, mods[i], reserved[i]);
    }
    assert |Modules(b)| == |mods|;
  }

  lemma StringsDecode(b: seq<Byte>, x: RawInfo)
    requires Sized(x) && At(b, 0, WriteStrings(x)) && |b| == 118
    ensures U32(b, 0) == x.flags && U32(b, 16) == x.cmdLine && U32(b, 20) == x.modsCount && U32(b, 24) == x.modsAddr
  {
    hide At;
    hide U32;
    Cut(b, 0, LE32(x.flags) + x.memory + LE32(x.cmdLine) + LE32(x.modsCount) + LE32(x.modsAddr), x.symbols);
    Cut(b, 0, LE32(x.flags) + x.memory + LE32(x.cmdLine) + LE32(x.modsCount), LE32(x.modsAddr));
    Cut(b, 0, LE32(x.flags) + x.memory + LE32(x.cmdLine), LE32(x.modsCount));
    Cut(b, 0, LE32(x.flags) + x.memory, LE32(x.cmdLine));
    Cut(b, 0, LE32(x.flags), x.memory);
    hide LE32;
    ReadWord(b, 0, x.flags);
    ReadWord(b, 16, x.cmdLine);
    ReadWord(b, 20, x.modsCount);
    ReadWord(b, 24, x.modsAddr);
  }

  lemma TablesDecode(b: seq<Byte>, x: RawInfo)
    requires Sized(x) && At(b, 44, WriteTables(x)) && |b| == 118
    ensures U32(b, 44) == x.mmapLen && U32(b, 48) == x.mmapAddr && U32(b, 64) == x.bootLoaderName
  {
    hide At;
    hide U32;
    Cut(b, 44, LE32(x.mmapLen) + LE32(x.mmapAddr) + x.drives + LE32(x.bootLoaderName), x.video);
    Cut(b, 44, LE32(x.mmapLen) + LE32(x.mmapAddr) + x.drives, LE32(x.bootLoaderName));
    Cut(b, 44, LE32(x.mmapLen) + LE32(x.mmapAddr), x.drives);
    Cut(b, 44, LE32(x.mmapLen), LE32(x.mmapAddr));
    hide LE32;
    ReadWord(b, 44, x.mmapLen);
    ReadWord(b, 48, x.mmapAddr);
    ReadWord(b, 64, x.bootLoaderName);
  }

  lemma FramebufferDecodes(b: seq<Byte>, x: RawInfo)
    requires Sized(x) && At(b, 88, WriteFramebuffer(x)) && |b| == 118
    ensures U64(b, 88) == x.framebufferAddr && U32(b, 96) == x.framebufferPitch && U32(b, 104) == x.framebufferHeight
  {
    hide At;
    hide U32;
    hide U64;
    var addr, pitch, width, height :=
      LE64(x.framebufferAddr), LE32(x.framebufferPitch), LE32(x.framebufferWidth), LE32(x.framebufferHeight);
    hide LE32;
    hide LE64;
    Cut(b, 88, addr + pitch + width + height, x.colors);
    Cut(b, 88, addr + pitch + width, height);
    Cut(b, 88, addr + pitch, width);
    Cut(b, 88, addr, pitch);
    ReadLong(b, 88, x.framebufferAddr);
    ReadWord(b, 96, x.framebufferPitch);
    ReadWord(b, 104, x.framebufferHeight);
  }

  /** The information structure is read back as written, whatever stands between the fields. */
  lemma InfoDecodes(addr: Word, x: RawInfo)
    requires Sized(x)
    ensures InfoAt(addr, WriteInfo(x)) ==
      BootInfo(addr, x.flags, x.cmdLine, x.modsCount, x.modsAddr, x.mmapLen, x.mmapAddr, x.bootLoaderName,
               x.framebufferAddr, x.framebufferPitch, x.framebufferHeight)
  {
    var b := WriteInfo(x);
    assert At(b, 0, WriteStrings(x) + WriteTables(x) + WriteFramebuffer(x));
    hide At;
    hide U32;
    hide U64;
    hide WriteStrings;
    hide WriteTables;
    hide WriteFramebuffer;
    Cut(b, 0, WriteStrings(x) + WriteTables(x), WriteFramebuffer(x));
    Cut(b, 0, WriteStrings(x), WriteTables(x));
    StringsDecode(b, x);
    TablesDecode(b, x);
    FramebufferDecodes(b, x);
  }

  // ---------- The memory map ----------

  function EntryOf(e: RawEntry): Entry {
    Entry(e.base, e.length, e.kind)
  }

  predicate Wraps(e: RawEntry) {
    e.length != 0 && e.base + e.length >= TWO_64
  }

  lemma EntryDecodes(b: seq<Byte>, off: nat, e: RawEntry)
    requires Writable(e) && At(b, off, WriteEntry(e))
    ensures off + 24 + |e.more| <= |b|
    ensures U32(b, off) == 20 + |e.more| && EntryAt(b, off) == EntryOf(e)
  {
    var size, base, length, kind := LE32(20 + |e.more|), LE64(e.base), LE64(e.length), LE32(e.kind);
    assert off + 24 + |e.more| <= |b| && At(b, off, size + base + length + kind + e.more);
    hide At;
    hide U32;
    hide U64;
    hide LE32;
    hide LE64;
    Cut(b, off, size + base + length + kind, e.more);
    Cut(b, off, size + base + length, kind);
    Cut(b, off, size + base, length);
    Cut(b, off, size, base);
    ReadWord(b, off, 20 + |e.more|);
    ReadLong(b, off + 4, e.base);
    ReadLong(b, off + 12, e.length);
    ReadWord(b, off + 20, e.kind);
  }

  lemma MapCut(b: seq<Byte>, off: nat, es: seq<RawEntry>)
    requires es != [] && (forall e <- es :: Writable(e))
    requires At(b, off, WriteMap(es)) && |b| == off + |WriteMap(es)|
    ensures At(b, off, WriteEntry(es[0]))
    ensures var next := off + |WriteEntry(es[0])|;
      At(b, next, WriteMap(es[1..])) && |b| == next + |WriteMap(es[1..])|
  {
    Cut(b, off, WriteEntry(es[0]), WriteMap(es[1..]));
  }

  /** x is one of the entries that are not empty. */
  ghost predicate Listed(es: seq<RawEntry>, x: Entry) {
    exists e <- es :: e.length != 0 && x == EntryOf(e)
  }

  lemma ListedCons(es: seq<RawEntry>, x: Entry)
    requires es != []
    ensures Listed(es, x) <==> (es[0].length != 0 && x == EntryOf(es[0])) || Listed(es[1..], x)
  {
  }

  ghost predicate SomeWraps(es: seq<RawEntry>) {
    exists e <- es :: Wraps(e)
  }

  lemma SomeWrapsCons(es: seq<RawEntry>)
    requires es != []
    ensures SomeWraps(es) <==> Wraps(es[0]) || SomeWraps(es[1..])
  {
  }

  /** One entry of the map read, the rest still to come. */
  lemma EntriesNext(b: seq<Byte>, off: nat, e: RawEntry)
    requires Writable(e) && At(b, off, WriteEntry(e))
    ensures off + |WriteEntry(e)| <= |b|
    ensures Entries(b, off) ==
      if Wraps(e) then Panicked
      else Prepend(if e.length == 0 then [] else [EntryOf(e)], Entries(b, off + |WriteEntry(e)|))
  {
    EntryDecodes(b, off, e);
    hide At;
    hide WriteEntry;
    hide U32;
    hide EntryAt;
  }

  lemma MembersPrepend(front: seq<Entry>, rest: seq<Entry>, x: Entry)
    ensures x in front + rest <==> x in front || x in rest
  {
  }

  /** Reading these entries panics if one of them wraps, and yields those that are not empty. */
  ghost predicate Reads(r: Outcome<seq<Entry>>, es: seq<RawEntry>) {
    && (r.Panicked? <==> SomeWraps(es))
    && (r.Returned? ==> forall x :: x in r.value <==> Listed(es, x))
  }

  lemma ReadsNone()
    ensures Reads(Returned([]), [])
  {
  }

  lemma ReadsNext(es: seq<RawEntry>, rest: Outcome<seq<Entry>>)
    requires es != [] && Reads(rest, es[1..])
    ensures Reads(if Wraps(es[0]) then Panicked
                  else Prepend(if es[0].length == 0 then [] else [EntryOf(es[0])], rest), es)
  {
    SomeWrapsCons(es);
    hide SomeWraps;
    hide Listed;
    hide Wraps;
    if rest.Returned? {
      var front := if es[0].length == 0 then [] else [EntryOf(es[0])];
      forall x ensures x in front + rest.value <==> Listed(es, x) {
        MembersPrepend(front, rest.value, x);
        ListedCons(es, x);
      }
    }
  }

  lemma EntriesEnd(b: seq<Byte>)
    ensures Entries(b, |b|) == Returned([])
  {
  }

  /** A written map is read back entry by entry, but for the empty ones, and panics if one of them wraps. */
  lemma {:induction false} MapDecodes(b: seq<Byte>, off: nat, es: seq<RawEntry>)
    requires (forall e <- es :: Writable(e)) && At(b, off, WriteMap(es)) && |b| == off + |WriteMap(es)|
    ensures Reads(Entries(b, off), es)
    decreases |es|
  {
    hide Reads;
    hide Entries;
    hide At;
    hide WriteEntry;
    hide Wraps;
    hide Prepend;
    if es == [] {
      EntriesEnd(b);
      ReadsNone();
    } else {
      MapCut(b, off, es);
      EntriesNext(b, off, es[0]);
      var next := off + |WriteEntry(es[0])|;
      MapDecodes(b, next, es[1..]);
      ReadsNext(es, Entries(b, next));
    }
  }

  lemma FourBytes(b0: Byte, b1: Byte, b2: Byte, b3: Byte)
    ensures var w: Word := b0 as int + 0x100 * (b1 as int) + 0x1_0000 * (b2 as int) + 0x100_0000 * (b3 as int);
      w % 256 == b0 && w / 256 % 256 == b1 && w / 0x1_0000 % 256 == b2 && w / 0x100_0000 == b3
  {
    var w := b0 as int + 0x100 * (b1 as int) + 0x1_0000 * (b2 as int) + 0x100_0000 * (b3 as int);
    assert w / 256 == b1 as int + 0x100 * (b2 as int) + 0x1_0000 * (b3 as int);
    assert w / 0x1_0000 == b2 as int + 0x100 * (b3 as int);
  }

  lemma WordWrites(b: seq<Byte>, off: nat)
    requires off + 4 <= |b|
    ensures LE32(U32(b, off)) == b[off..off + 4]
  {
    FourBytes(b[off], b[off + 1], b[off + 2], b[off + 3]);
  }

  lemma Halves(lo: Word, hi: Word)
    ensures var x := lo + TWO_32 * hi; x < TWO_64 && x % TWO_32 == lo && x / TWO_32 == hi
  {
  }

  lemma LongWrites(b: seq<Byte>, off: nat)
    requires off + 8 <= |b|
    ensures U64(b, off) < TWO_64 && LE64(U64(b, off)) == b[off..off + 8]
  {
    WordWrites(b, off);
    WordWrites(b, off + 4);
    Halves(U32(b, off), U32(b, off + 4));
    hide U32;
    hide LE32;
    assert b[off..off + 4] + b[off + 4..off + 8] == b[off..off + 8];
  }

  lemma EntryWrites(b: seq<Byte>, off: nat) returns (e: RawEntry)
    requires off < |b| && !Malformed(b, off)
    ensures Writable(e) && 24 + |e.more| == 4 + U32(b, off)
    ensures WriteEntry(e) == b[off..off + 4 + U32(b, off)]
  {
    var size := U32(b, off);
    e := RawEntry(U64(b, off + 4), U64(b, off + 12), U32(b, off + 20), b[off + 24..off + 4 + size]);
    WordWrites(b, off);
    LongWrites(b, off + 4);
    LongWrites(b, off + 12);
    WordWrites(b, off + 20);
    hide U32;
    hide U64;
    hide LE32;
    hide LE64;
    assert b[off..off + 4] + b[off + 4..off + 12] + b[off + 12..off + 20] + b[off + 20..off + 24]
      + b[off + 24..off + 4 + size] == b[off..off + 4 + size];
  }

  /** Every map that does not panic is one that can be written. */
  lemma {:induction false} MapEncoded(b: seq<Byte>, off: nat) returns (es: seq<RawEntry>)
    requires off <= |b| && Entries(b, off).Returned?
    ensures (forall e <- es :: Writable(e)) && WriteMap(es) == b[off..]
    decreases |b| - off
  {
    es := [];
    if off < |b| {
      var e := EntryWrites(b, off);
      var next := off + 4 + U32(b, off);
      var rest := MapEncoded(b, next);
      es := [e] + rest;
      assert es[1..] == rest;
      assert b[off..next] + b[next..] == b[off..];
    }
  }

  // ---------- pmm_init on the bytes ----------

  /** Some byte of frame f is one of those from start to end. */
  ghost predicate Hit(f: int, start: int, end: int) {
    start < end && start < (f + 1) * 4096 && f * 4096 < end
  }

  ghost predicate HitsModule(m: Module, f: int) {
    Hit(f, m.start, m.end) || (m.cmdline != 0 && Hit(f, m.cmdline, m.cmdline + 4096))
  }

  ghost predicate HitsSome(mods: seq<Module>, f: int) {
    exists m <- mods :: HitsModule(m, f)
  }

  /** Frame f holds a byte of a module, of its command line, or of the module table. */
  ghost predicate HitsModules(x: RawInfo, mods: seq<Module>, f: int) {
    x.flags / 8 % 2 == 1 && x.modsCount > 0
    && (|| Hit(f, x.modsAddr, x.modsAddr + 16 * x.modsCount)
        || HitsSome(mods, f))
  }

  /** Frame f holds a byte that the boot loader left there for the kernel. */
  ghost predicate HitsBoot(addr: Word, x: RawInfo, mods: seq<Module>, f: int) {
    var info := if addr >= 0xC000_0000 then addr - 0xC000_0000 else addr;
    || Hit(f, info, info + 118)
    || Hit(f, x.mmapAddr, x.mmapAddr + x.mmapLen)
    || (x.cmdLine != 0 && Hit(f, x.cmdLine, x.cmdLine + 4096))
    || (x.bootLoaderName != 0 && Hit(f, x.bootLoaderName, x.bootLoaderName + 4096))
    || HitsModules(x, mods, f)
    || (x.flags / 4096 % 2 == 1 && x.framebufferAddr < 0x1_0000_0000
          && Hit(f, x.framebufferAddr, x.framebufferAddr + x.framebufferPitch * x.framebufferHeight))
  }

  lemma Bits(flags: Word)
    ensures Flag(flags, INFO_MODS) <==> flags / 8 % 2 == 1
    ensures Flag(flags, INFO_MEM_MAP) <==> flags / 64 % 2 == 1
    ensures Flag(flags, INFO_FRAMEBUFFER) <==> flags / 4096 % 2 == 1
  {
    assert Pow2(3) == 8;
    assert Pow2(6) == 8 * Pow2(3);
    assert Pow2(9) == 8 * Pow2(6);
    assert Pow2(12) == 8 * Pow2(9);
  }

  /** What the boot loader's bytes say to the model's functions. */
  function Decoded(addr: Word, x: RawInfo): BootInfo
    requires Sized(x)
  {
    InfoAt(addr, WriteInfo(x))
  }

  lemma TouchesConcat(a: seq<Range>, b: seq<Range>, f: int)
    ensures TouchesRange(a + b, f) <==> TouchesRange(a, f) || TouchesRange(b, f)
  {
    if TouchesRange(a, f) {
      var r :| r in a && Overlaps(f, r.0, r.0 + r.1);
      assert r in a + b;
    }
    if TouchesRange(b, f) {
      var r :| r in b && Overlaps(f, r.0, r.0 + r.1);
      assert r in a + b;
    }
  }

  lemma TouchesOne(r: Range, f: int)
    ensures TouchesRange([r], f) <==> Hit(f, r.0, r.0 + r.1)
  {
    assert r in [r];
  }

  lemma TouchesText(addr: Word, f: int)
    ensures TouchesRange(Text(addr), f) <==> addr != 0 && Hit(f, addr, addr + 4096)
  {
    if addr != 0 { TouchesOne((addr, 4096), f); }
  }

  ghost predicate Reversed(mods: seq<Module>) {
    exists m <- mods :: m.end < m.start
  }

  lemma ModuleSnoc(front: seq<Module>, m: Module, f: int)
    ensures Reversed(front + [m]) <==> Reversed(front) || m.end < m.start
    ensures HitsSome(front + [m], f) <==> HitsSome(front, f) || HitsModule(m, f)
  {
    hide HitsModule;
    assert m in front + [m];
    assert forall o <- front :: o in front + [m];
  }

  lemma {:induction false} ModulesTouch(mods: seq<Module>, f: int)
    ensures ModuleRanges(mods).Panicked? <==> Reversed(mods)
    ensures ModuleRanges(mods).Returned? ==> (TouchesRange(ModuleRanges(mods).value, f) <==> HitsSome(mods, f))
  {
    if mods != [] {
      var front, m := mods[..|mods| - 1], mods[|mods| - 1];
      ModulesTouch(front, f);
      assert front + [m] == mods;
      ModuleSnoc(front, m, f);
      hide TouchesRange;
      hide Hit;
      if ModuleRanges(mods).Returned? {
        var before, payload := ModuleRanges(front).value, (m.start, m.end - m.start);
        TouchesConcat(before + [payload], Text(m.cmdline), f);
        TouchesConcat(before, [payload], f);
        TouchesOne(payload, f);
        TouchesText(m.cmdline, f);
      }
    }
  }

  /** The module table makes pmm_init panic. */
  ghost predicate BadModules(x: RawInfo, mods: seq<Module>) {
    x.flags / 8 % 2 == 1
    && (x.modsCount > 256
        || (x.modsCount > 0
            && (x.modsAddr == 0 || x.modsAddr + 16 * x.modsCount > 0x100_0000 || Reversed(mods))))
  }

  lemma TouchesNone(f: int)
    ensures !TouchesRange([], f)
  {
  }

  lemma ModsTouch(addr: Word, x: RawInfo, mods: seq<Module>, f: int)
    requires Sized(x)
    ensures ModsRanges(Decoded(addr, x), mods).Panicked? <==> BadModules(x, mods)
    ensures ModsRanges(Decoded(addr, x), mods).Returned? ==>
      (TouchesRange(ModsRanges(Decoded(addr, x), mods).value, f) <==> HitsModules(x, mods, f))
  {
    InfoDecodes(addr, x);
    Bits(x.flags);
    ModulesTouch(mods, f);
    hide InfoAt;
    hide WriteInfo;
    hide Flag;
    hide ModuleRanges;
    hide Hit;
    hide HitsSome;
    hide Reversed;
    var table := (x.modsAddr, 16 * x.modsCount);
    TouchesOne(table, f);
    if ModuleRanges(mods).Returned? { TouchesConcat([table], ModuleRanges(mods).value, f); }
    hide TouchesRange;
    assert !TouchesRange([], f) by { TouchesNone(f); }
  }

  lemma InfoTouch(addr: Word, x: RawInfo, f: int)
    requires Sized(x)
    ensures TouchesRange(InfoRanges(Decoded(addr, x)), f) <==>
      var info := if addr >= 0xC000_0000 then addr - 0xC000_0000 else addr;
      || Hit(f, info, info + 118)
      || Hit(f, x.mmapAddr, x.mmapAddr + x.mmapLen)
      || (x.cmdLine != 0 && Hit(f, x.cmdLine, x.cmdLine + 4096))
      || (x.bootLoaderName != 0 && Hit(f, x.bootLoaderName, x.bootLoaderName + 4096))
  {
    InfoDecodes(addr, x);
    hide InfoAt;
    hide WriteInfo;
    var info := if addr >= 0xC000_0000 then addr - 0xC000_0000 else addr;
    var one, two := (info, 118), (x.mmapAddr as nat, x.mmapLen as nat);
    assert [one, two] == [one] + [two];
    TouchesConcat([one, two] + Text(x.cmdLine), Text(x.bootLoaderName), f);
    TouchesConcat([one, two], Text(x.cmdLine), f);
    TouchesConcat([one], [two], f);
    TouchesOne(one, f);
    TouchesOne(two, f);
    TouchesText(x.cmdLine, f);
    TouchesText(x.bootLoaderName, f);
    hide TouchesRange;
    hide Hit;
    hide Text;
  }

  lemma FramebufferTouch(addr: Word, x: RawInfo, f: int)
    requires Sized(x)
    ensures TouchesRange(FramebufferRanges(Decoded(addr, x)), f) <==>
      (x.flags / 4096 % 2 == 1 && x.framebufferAddr < 0x1_0000_0000
        && Hit(f, x.framebufferAddr, x.framebufferAddr + x.framebufferPitch * x.framebufferHeight))
  {
    InfoDecodes(addr, x);
    Bits(x.flags);
    hide InfoAt;
    hide WriteInfo;
    hide Flag;
    ProductFits(x.framebufferPitch, x.framebufferHeight);
    TouchesOne((x.framebufferAddr, x.framebufferPitch * x.framebufferHeight), f);
    TouchesNone(f);
    hide TouchesRange;
    hide Hit;
  }

  lemma BootTouch(addr: Word, x: RawInfo, mods: seq<Module>, f: int)
    requires Sized(x)
    ensures BootRanges(Decoded(addr, x), mods).Panicked? <==> BadModules(x, mods)
    ensures BootRanges(Decoded(addr, x), mods).Returned? ==>
      (TouchesRange(BootRanges(Decoded(addr, x), mods).value, f) <==> HitsBoot(addr, x, mods, f))
  {
    ModsTouch(addr, x, mods, f);
    InfoTouch(addr, x, f);
    FramebufferTouch(addr, x, f);
    hide Decoded;
    hide ModsRanges;
    hide InfoRanges;
    hide FramebufferRanges;
    hide BadModules;
    hide HitsModules;
    hide Hit;
    hide TouchesRange;
    var info := Decoded(addr, x);
    if ModsRanges(info, mods).Returned? {
      TouchesConcat(InfoRanges(info) + ModsRanges(info, mods).value, FramebufferRanges(info), f);
      TouchesConcat(InfoRanges(info), ModsRanges(info, mods).value, f);
    }
  }

  // ---------- The free frames ----------

  /** One available entry holds all of frame f. */
  ghost predicate Offered(es: seq<RawEntry>, f: int) {
    exists e <- es :: e.kind == 1 && e.base <= f * 4096 && (f + 1) * 4096 <= e.base + e.length
  }

  /** An entry of another type holds a byte of frame f. */
  ghost predicate Withheld(es: seq<RawEntry>, f: int) {
    exists e <- es :: e.kind != 1 && Hit(f, e.base, e.base + e.length)
  }

  /** No entry reaches the end of frame 0. */
  ghost predicate NoMemory(es: seq<RawEntry>) {
    forall e <- es :: e.length != 0 ==> e.base + e.length < 4096
  }

  lemma MapFrames(es: seq<RawEntry>, xs: seq<Entry>, f: int)
    requires forall x :: x in xs <==> Listed(es, x)
    ensures InAvailable(xs, f) <==> Offered(es, f)
    ensures TouchesReserved(xs, f) <==> Withheld(es, f)
    ensures Highest(xs) < 4096 <==> NoMemory(es)
  {
    forall e | e in es && e.length != 0 ensures EntryOf(e) in xs {
      assert Listed(es, EntryOf(e));
    }
    forall x | x in xs ensures exists e <- es :: e.length != 0 && x == EntryOf(e) {
      assert Listed(es, x);
    }
  }

  /** The end of memory: every frame that an available entry holds lies below it. */
  lemma OfferedBelow(xs: seq<Entry>, f: nat)
    requires InAvailable(xs, f) && f < FRAMES
    ensures f < Clip(Highest(xs), MAX_PHYSICAL_BYTES) / PAGE_SIZE
  {
    var e :| e in xs && e.kind == AVAILABLE && Frames.Within(f, e.base, e.End());
    assert e.End() <= Highest(xs);
  }

  /** pmm_init refuses what the boot loader left. */
  ghost predicate Refused(addr: Word, x: RawInfo, es: seq<RawEntry>, mods: seq<Module>) {
    || addr == 0 || x.flags / 64 % 2 == 0
    || x.mmapLen == 0 || x.mmapAddr == 0 || x.mmapAddr + x.mmapLen > 0x100_0000
    || SomeWraps(es) || NoMemory(es) || BadModules(x, mods)
  }

  lemma MapRead(es: seq<RawEntry>)
    requires forall e <- es :: Writable(e)
    ensures Reads(Entries(WriteMap(es), 0), es)
  {
    var b := WriteMap(es);
    assert b[0..|b|] == b;
    MapDecodes(b, 0, es);
  }

  lemma TotalZero(h: nat)
    ensures Clip(h, MAX_PHYSICAL_BYTES) / PAGE_SIZE == 0 <==> h < 4096
  {
  }

  lemma RefusedIff(addr: Word, x: RawInfo, es: seq<RawEntry>, mods: seq<Module>, allocStart: Word)
    requires Sized(x) && forall e <- es :: Writable(e)
    ensures InitialFrames(Decoded(addr, x), WriteMap(es), mods, allocStart).Panicked? <==> Refused(addr, x, es, mods)
  {
    InfoDecodes(addr, x);
    Bits(x.flags);
    MapRead(es);
    BootTouch(addr, x, mods, 0);
    hide Flag;
    hide InfoAt;
    hide Entries;
    hide BadModules;
    hide Pass;
    hide Reserve;
    hide HitsBoot;
    hide BootRanges;
    hide SomeWraps;
    hide NoMemory;
    hide Highest;
    hide Listed;
    var r := Entries(WriteMap(es), 0);
    if r.Returned? {
      MapFrames(es, r.value, 0);
      TotalZero(Highest(r.value));
    }
  }

  lemma FreeBytes(addr: Word, x: RawInfo, es: seq<RawEntry>, mods: seq<Module>, allocStart: Word, f: nat)
    requires Sized(x) && (forall e <- es :: Writable(e)) && f < FRAMES
    requires InitialFrames(Decoded(addr, x), WriteMap(es), mods, allocStart).Returned?
    ensures var (total, used) := InitialFrames(Decoded(addr, x), WriteMap(es), mods, allocStart).value;
      && |used| == FRAMES
      && (!used[f] <==>
            && f >= 1 && Offered(es, f) && !Withheld(es, f)
            && f * 4096 >= allocStart && !HitsBoot(addr, x, mods, f))
  {
    FreeAfterInit(Decoded(addr, x), WriteMap(es), mods, allocStart, f);
    MapRead(es);
    BootTouch(addr, x, mods, f);
    var xs := Entries(WriteMap(es), 0).value;
    MapFrames(es, xs, f);
    hide BootRanges;
    hide TouchesRange;
    hide HitsBoot;
    hide Offered;
    hide Withheld;
    hide InAvailable;
    hide TouchesReserved;
    hide Reserve;
    hide Pass;
    hide Entries;
    if InAvailable(xs, f) { OfferedBelow(xs, f); }
  }

  /**
   pmm_init on the bytes of a boot information structure, a memory map and a module table: it panics
   exactly for the listed faults, and otherwise frame f is free exactly when it is not frame 0, one
   available entry holds all of it, and no other entry, no byte below the kernel's end and nothing the
   boot loader left for the kernel (modules included) lies in it.
   */
  lemma FreeOnBytes(addr: Word, x: RawInfo, es: seq<RawEntry>, mods: seq<Module>, reserved: seq<Word>,
                    allocStart: Word, f: nat)
    requires Sized(x) && (forall e <- es :: Writable(e)) && |mods| == |reserved| && f < FRAMES
    ensures var r :=
        InitialFrames(InfoAt(addr, WriteInfo(x)), WriteMap(es), Modules(WriteModules(mods, reserved)), allocStart);
      && (r.Panicked? <==> Refused(addr, x, es, mods))
      && (r.Returned? ==>
            && |r.value.1| == FRAMES
            && (!r.value.1[f] <==>
                  && f >= 1 && Offered(es, f) && !Withheld(es, f)
                  && f * 4096 >= allocStart && !HitsBoot(addr, x, mods, f)))
  {
    ModulesDecode(mods, reserved);
    RefusedIff(addr, x, es, mods, allocStart);
    hide Modules;
    hide WriteModules;
    hide Refused;
    var info := InfoAt(addr, WriteInfo(x));
    assert info == Decoded(addr, x);
    if InitialFrames(info, WriteMap(es), mods, allocStart).Returned? {
      FreeBytes(addr, x, es, mods, allocStart, f);
    }
  }
}
