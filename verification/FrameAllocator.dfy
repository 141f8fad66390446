/** pmm.c: the frame bitmap, eight frames to a byte, and the operations that search and mark it. */
module FrameAllocator {
  import opened Words
  import opened Frames
  import opened BootMap

  const BITMAP_BYTES := 0x2_0000

  /** 1 << k, for the bit of frame 8 * i + k in byte i. */
  function Mask(k: nat): bv8
    requires k < 8
  {
    if k == 0 then 1 else if k == 1 then 2 else if k == 2 then 4 else if k == 3 then 8
    else if k == 4 then 16 else if k == 5 then 32 else if k == 6 then 64 else 128
  }

  predicate Bit(b: bv8, k: nat)
    requires k < 8
  {
    b & Mask(k) != 0
  }

  lemma SetBit(b: bv8, k: nat, j: nat)
    requires k < 8 && j < 8
    ensures Bit(b | Mask(k), j) <==> j == k || Bit(b, j)
  {
  }

  lemma ClearBit(b: bv8, k: nat, j: nat)
    requires k < 8 && j < 8
    ensures Bit(b & !Mask(k), j) <==> j != k && Bit(b, j)
  {
  }

  /** The bitmap read out frame by frame. */
  function Unpack(bytes: seq<bv8>): (used: seq<bool>)
    ensures |used| == 8 * |bytes|
  {
    seq(8 * |bytes|, f requires 0 <= f < 8 * |bytes| => Bit(bytes[f / 8], f % 8))
  }

  /** Byte b with bit k set or cleared. */
  function WithBit(b: bv8, k: nat, v: bool): (r: bv8)
    requires k < 8
  {
    if v then b | Mask(k) else b & !Mask(k)
  }

  lemma WithBitMeans(b: bv8, k: nat, v: bool, j: nat)
    requires k < 8 && j < 8
    ensures Bit(WithBit(b, k, v), j) <==> if j == k then v else Bit(b, j)
  {
    SetBit(b, k, j);
    ClearBit(b, k, j);
  }

  lemma UnpackPoint(bytes: seq<bv8>, i: nat, x: bv8, g: nat)
    requires i < |bytes| && g < 8 * |bytes|
    ensures Unpack(bytes[i := x])[g] == if g / 8 == i then Bit(x, g % 8) else Unpack(bytes)[g]
  {
  }

  /** Changing one bit of one byte changes one frame. */
  lemma UnpackUpdate(bytes: seq<bv8>, f: nat, v: bool)
    requires f < 8 * |bytes|
    ensures Unpack(bytes[f / 8 := WithBit(bytes[f / 8], f % 8, v)]) == Unpack(bytes)[f := v]
  {
    var i, k := f / 8, f % 8;
    var x := WithBit(bytes[i], k, v);
    var r, r' := Unpack(bytes[i := x]), Unpack(bytes)[f := v];
    forall g | 0 <= g < 8 * |bytes| ensures r[g] == r'[g] {
      UnpackPoint(bytes, i, x, g);
      WithBitMeans(bytes[i], k, v, g % 8);
    }
  }

  lemma FullByte(k: nat)
    requires k < 8
    ensures Bit(0xFF, k)
  {
  }

  class Pmm {
    const bitmap: array<bv8>
    var totalFrames: Word

    ghost function Used(): (used: seq<bool>)
      reads this, bitmap
      ensures |used| == 8 * bitmap.Length
    {
      Unpack(bitmap[..])
    }

    ghost predicate Valid()
      reads this, bitmap
    {
      bitmap.Length == BITMAP_BYTES && Guarded(Used(), totalFrames)
    }

    constructor ()
      ensures bitmap.Length == BITMAP_BYTES && fresh(bitmap)
    {
      bitmap := new bv8[BITMAP_BYTES];
      totalFrames := 0;
    }

    method Test(f: nat) returns (free: bool)
      requires f < 8 * bitmap.Length
      ensures free == !Used()[f]
    {
      free := bitmap[f / 8] & Mask(f % 8) == 0;
    }

    method Assign(f: nat, reserve: bool)
      requires f < 8 * bitmap.Length
      modifies bitmap
      ensures Used() == old(Used())[f := reserve]
    {
      UnpackUpdate(bitmap[..], f, reserve);
      bitmap[f / 8] := WithBit(bitmap[f / 8], f % 8, reserve);
    }

    method DoSetFrames(start: nat, end: nat, reserve: bool)
      requires bitmap.Length == BITMAP_BYTES && totalFrames <= FRAMES
      modifies bitmap
      ensures Used() == SetFrames(old(Used()), totalFrames, start, end, reserve)
    {
      if start >= end {
        return;
      }
      var stop := end;
      if stop > MAX_PHYSICAL_BYTES {
        stop := MAX_PHYSICAL_BYTES;
      }
      if start >= stop || start >= MAX_PHYSICAL_BYTES {
        return;
      }
      var first := if reserve then start / PAGE_SIZE else (start + PAGE_MASK) / PAGE_SIZE;
      var last := if reserve then (stop + PAGE_MASK) / PAGE_SIZE else stop / PAGE_SIZE;
      if first < 1 {
        first := 1;
      }
      if last > totalFrames {
        last := totalFrames;
      }
      var frame := first;
      while frame < last
        invariant first <= frame && (frame <= last || frame == first)
        invariant forall f :: 0 <= f < FRAMES ==> Used()[f] == if first <= f < frame then reserve else old(Used())[f]
      {
        Assign(frame, reserve);
        frame := frame + 1;
      }
    }

    method ReservePhysical(addr: nat, size: nat)
      requires bitmap.Length == BITMAP_BYTES && totalFrames <= FRAMES
      modifies bitmap
      ensures Used() == ReservePhys(old(Used()), totalFrames, addr, size)
    {
      if size == 0 || addr >= MAX_PHYSICAL_BYTES {
        return;
      }
      var end := (addr + size) % TWO_64;
      if end < addr || end > MAX_PHYSICAL_BYTES {
        end := MAX_PHYSICAL_BYTES;
      }
      DoSetFrames(addr, end, true);
    }

    /** pmm_alloc_frame. */
    method DoAllocFrame() returns (r: Outcome<Word>)
      requires Valid()
      modifies bitmap
      ensures Valid()
      ensures match AllocFrame(old(Used()), totalFrames)
        case Panicked => r == Panicked && Used() == old(Used())
        case Returned((f, used)) => r == Returned(f * PAGE_SIZE) && Used() == used
    {
      var frame := 1;
      while frame < totalFrames
        invariant 1 <= frame && (frame <= totalFrames || frame == 1)
        invariant forall f :: 1 <= f < frame ==> Used()[f]
        invariant Used() == old(Used())
      {
        var free := Test(frame);
        if free {
          assert frame == LowestFree(Used(), totalFrames, 1);
          Assign(frame, true);
          return Returned(frame * PAGE_SIZE);
        }
        frame := frame + 1;
      }
      return Panicked;
    }

    /** How many of the frames from first on are free, up to pages. */
    method CountFree(first: nat, pages: nat) returns (page: nat)
      requires first + pages <= 8 * bitmap.Length
      ensures page <= pages && FreeRun(Used(), first, page)
      ensures page < pages ==> Used()[first + page]
    {
      page := 0;
      while page < pages
        invariant page <= pages && FreeRun(Used(), first, page)
      {
        var free := Test(first + page);
        if !free {
          return;
        }
        page := page + 1;
      }
    }

    /** The search of pmm_alloc_contiguous, jumping over candidates that cannot succeed. */
    method FindRun(pages: Word, align: Word) returns (first: Word)
      requires Valid()
      requires 0 < pages <= totalFrames && 0 < align <= FRAMES
      ensures first == match FirstRun(Used(), totalFrames, pages, align, 1) case None => 0 case Some(f) => f
    {
      first := 1;
      while first <= totalFrames - pages
        invariant 1 <= first <= FRAMES + FRAMES
        invariant forall g :: 1 <= g < first ==> !Fits(Used(), totalFrames, g, pages, align)
      {
        var remainder := first % align;
        if remainder != 0 {
          forall g | first <= g < first + align - remainder ensures !Fits(Used(), totalFrames, g, pages, align) {
            SkipUnaligned(Used(), totalFrames, pages, align, first, g);
          }
          first := first + (align - remainder);
        } else {
          var page := CountFree(first, pages);
          if page == pages {
            assert Fits(Used(), totalFrames, first, pages, align);
            return;
          }
          forall g | first <= g <= first + page ensures !Fits(Used(), totalFrames, g, pages, align) {
            SkipUsed(Used(), totalFrames, pages, align, first, page, g);
          }
          first := first + page + 1;
        }
      }
      return 0;
    }

    method MarkPages(first: nat, pages: nat)
      requires first + pages <= 8 * bitmap.Length
      modifies bitmap
      ensures Used() == MarkRun(old(Used()), first, pages)
    {
      var page := 0;
      while page < pages
        invariant page <= pages
        invariant Used() == MarkRun(old(Used()), first, page)
      {
        Assign(first + page, true);
        page := page + 1;
      }
    }

    /** pmm_alloc_contiguous: skipping candidates, it still finds the first aligned free run. */
    method AllocContiguous(size: Word, alignment: Word) returns (r: Word)
      requires Valid()
      modifies bitmap
      ensures Valid()
      ensures size == 0 || size > 0xFFFF_FFFF - PAGE_MASK || alignment < PAGE_SIZE || alignment % PAGE_SIZE != 0 ==>
        r == 0 && Used() == old(Used())
      ensures size != 0 && size <= 0xFFFF_FFFF - PAGE_MASK && alignment >= PAGE_SIZE && alignment % PAGE_SIZE == 0 ==>
        var pages := (size + PAGE_MASK) / PAGE_SIZE;
        match FirstRun(old(Used()), totalFrames, pages, alignment / PAGE_SIZE, 1)
        case None => r == 0 && Used() == old(Used())
        case Some(first) => r == first * PAGE_SIZE && Used() == MarkRun(old(Used()), first, pages)
    {
      if size == 0 || size > 0xFFFF_FFFF - PAGE_MASK || alignment < PAGE_SIZE || alignment % PAGE_SIZE != 0 {
        return 0;
      }
      var pages := (size + PAGE_MASK) / PAGE_SIZE;
      if pages > totalFrames {
        return 0;
      }
      var first := FindRun(pages, alignment / PAGE_SIZE);
      if first == 0 {
        return 0;
      }
      MarkPages(first, pages);
      MarkRunGuarded(old(Used()), totalFrames, first, pages);
      return first * PAGE_SIZE;
    }

    method TouchEntry(e: Entry, pass: nat)
      requires bitmap.Length == BITMAP_BYTES && totalFrames <= FRAMES
      modifies bitmap
      ensures Used() == Touch(old(Used()), totalFrames, pass, e)
    {
      if pass == 1 && e.kind == AVAILABLE {
        DoSetFrames(e.base, e.End(), false);
      } else if pass == 2 && e.kind != AVAILABLE {
        DoSetFrames(e.base, e.End(), true);
      }
    }

    /** read_memory_map's loop. */
    method Scan(mmap: seq<Byte>, pass: nat) returns (r: Outcome<nat>)
      requires bitmap.Length == BITMAP_BYTES && totalFrames <= FRAMES
      modifies bitmap
      ensures r.Panicked? <==> Entries(mmap, 0).Panicked?
      ensures r.Returned? ==> r.value == Highest(Entries(mmap, 0).value)
      ensures r.Returned? ==> Used() == Pass(old(Used()), totalFrames, pass, Entries(mmap, 0).value)
    {
      var highest, offset := 0, 0;
      ghost var u0 := Used();
      ghost var seen: seq<Entry> := [];
      PrependTwice([], [], Entries(mmap, 0));
      while offset < |mmap|
        invariant 0 <= offset <= |mmap|
        invariant Entries(mmap, 0) == Prepend(seen, Entries(mmap, offset))
        invariant highest == Highest(seen)
        invariant Used() == Pass(u0, totalFrames, pass, seen)
        decreases |mmap| - offset
      {
        if Malformed(mmap, offset) {
          return Panicked;
        }
        ReadOne(mmap, offset, seen);
        var e := EntryAt(mmap, offset);
        if e.length != 0 {
          if e.End() >= TWO_64 {
            return Panicked;
          }
          if e.End() > highest {
            highest := e.End();
          }
          TouchEntry(e, pass);
          PassOne(u0, totalFrames, pass, seen, e);
          seen := seen + [e];
        }
        offset := offset + 4 + U32(mmap, offset);
      }
      assert seen + [] == seen;
      return Returned(highest);
    }

    /** Pass 0 only measures; pass 1 frees available memory; pass 2 takes back everything else. */
    method ReadMemoryMap(info: BootInfo, mmap: seq<Byte>, pass: nat) returns (r: Outcome<nat>)
      requires bitmap.Length == BITMAP_BYTES && totalFrames <= FRAMES
      requires |mmap| == info.mmapLen
      modifies bitmap
      ensures r.Panicked? <==>
        || !Flag(info.flags, INFO_MEM_MAP) || info.mmapLen == 0 || !Readable(info.mmapAddr, info.mmapLen)
        || Entries(mmap, 0).Panicked?
      ensures r.Returned? ==> r.value == Highest(Entries(mmap, 0).value)
      ensures r.Returned? ==> Used() == Pass(old(Used()), totalFrames, pass, Entries(mmap, 0).value)
    {
      if !Flag(info.flags, INFO_MEM_MAP) || info.mmapLen == 0 || !Readable(info.mmapAddr, info.mmapLen) {
        return Panicked;
      }
      r := Scan(mmap, pass);
    }

    /** One more range, on top of those already reserved since the frames were u0. */
    method ReserveNext(addr: nat, size: nat, ghost u0: seq<bool>, ghost done: seq<Range>, ghost next: seq<Range>)
      requires bitmap.Length == BITMAP_BYTES && totalFrames <= FRAMES
      requires Used() == Reserve(u0, totalFrames, done)
      requires next == done + [(addr, size)]
      modifies bitmap
      ensures Used() == Reserve(u0, totalFrames, next)
    {
      ReservePhysical(addr, size);
      ReserveOne(u0, totalFrames, done, (addr, size));
    }

    method ReserveText(addr: Word, ghost u0: seq<bool>, ghost done: seq<Range>, ghost next: seq<Range>)
      requires bitmap.Length == BITMAP_BYTES && totalFrames <= FRAMES
      requires Used() == Reserve(u0, totalFrames, done)
      requires next == done + Text(addr)
      modifies bitmap
      ensures Used() == Reserve(u0, totalFrames, next)
    {
      if addr != 0 {
        ReserveNext(addr, STRING_BYTES, u0, done, next);
      } else {
        assert next == done;
      }
    }

    method ReserveModule(m: Module, ghost u0: seq<bool>, ghost done: seq<Range>) returns (ghost next: seq<Range>)
      requires bitmap.Length == BITMAP_BYTES && totalFrames <= FRAMES && m.start <= m.end
      requires Used() == Reserve(u0, totalFrames, done)
      modifies bitmap
      ensures next == done + [(m.start, m.end - m.start)] + Text(m.cmdline)
      ensures Used() == Reserve(u0, totalFrames, next)
    {
      ghost var mid := done + [(m.start, m.end - m.start)];
      next := mid + Text(m.cmdline);
      ReserveNext(m.start, m.end - m.start, u0, done, mid);
      ReserveText(m.cmdline, u0, mid, next);
    }

    /** The loop over the table of module descriptors. */
    method ReserveModules(table: seq<Byte>, count: nat, ghost u0: seq<bool>, ghost done: seq<Range>)
      returns (r: Outcome<()>)
      requires bitmap.Length == BITMAP_BYTES && totalFrames <= FRAMES && |table| == SIZEOF_MODULE * count
      requires Used() == Reserve(u0, totalFrames, done)
      modifies bitmap
      ensures r.Panicked? <==> ModuleRanges(Modules(table)).Panicked?
      ensures r.Returned? ==> Used() == Reserve(u0, totalFrames, done + ModuleRanges(Modules(table)).value)
    {
      ghost var mods := Modules(table);
      var i := 0;
      ghost var next := done;
      assert done + [] == done;
      while i < count
        invariant 0 <= i <= count == |mods|
        invariant ModuleRanges(mods[..i]).Returned?
        invariant next == done + ModuleRanges(mods[..i]).value
        invariant Used() == Reserve(u0, totalFrames, next)
      {
        var m := ModuleAt(table, i);
        ModuleOne(mods, i, done);
        if m.end < m.start {
          ModulePanics(mods, i + 1);
          return Panicked;
        }
        next := ReserveModule(m, u0, next);
        i := i + 1;
      }
      assert mods[..i] == mods;
      return Returned(());
    }

    method ReserveInfo(info: BootInfo, ghost u0: seq<bool>)
      requires bitmap.Length == BITMAP_BYTES && totalFrames <= FRAMES
      requires Used() == u0
      modifies bitmap
      ensures Used() == Reserve(u0, totalFrames, InfoRanges(info))
    {
      var addr := if info.addr >= KERNEL_VIRTUAL_OFFSET then info.addr - KERNEL_VIRTUAL_OFFSET else info.addr;
      ghost var one: seq<Range> := [(addr, SIZEOF_INFO)];
      ghost var two: seq<Range> := [(addr, SIZEOF_INFO), (info.mmapAddr, info.mmapLen)];
      ghost var three := two + Text(info.cmdLine);
      ReserveNext(addr, SIZEOF_INFO, u0, [], one);
      ReserveNext(info.mmapAddr, info.mmapLen, u0, one, two);
      ReserveText(info.cmdLine, u0, two, three);
      ReserveText(info.bootLoaderName, u0, three, InfoRanges(info));
    }

    /** The part of reserve_boot_structures for the loaded modules. */
    method ReserveMods(info: BootInfo, table: seq<Byte>, ghost u0: seq<bool>, ghost done: seq<Range>)
      returns (r: Outcome<()>)
      requires bitmap.Length == BITMAP_BYTES && totalFrames <= FRAMES
      requires |table| == SIZEOF_MODULE * info.modsCount
      requires Used() == Reserve(u0, totalFrames, done)
      modifies bitmap
      ensures r.Panicked? <==> ModsRanges(info, Modules(table)).Panicked?
      ensures r.Returned? ==> Used() == Reserve(u0, totalFrames, done + ModsRanges(info, Modules(table)).value)
    {
      hide Reserve;
      hide Unpack;
      hide Modules;
      hide ModuleRanges;
      hide Flag;
      assert done + [] == done;
      if !Flag(info.flags, INFO_MODS) {
        return Returned(());
      }
      if info.modsCount > 256 {
        return Panicked;
      }
      if info.modsCount == 0 {
        return Returned(());
      }
      var size := info.modsCount * SIZEOF_MODULE;
      if !Readable(info.modsAddr, size) {
        return Panicked;
      }
      ghost var whole: seq<Range> := [(info.modsAddr, size)];
      ReserveNext(info.modsAddr, size, u0, done, done + whole);
      r := ReserveModules(table, info.modsCount, u0, done + whole);
      if r.Returned? {
        assert done + whole + ModuleRanges(Modules(table)).value == done + (whole + ModuleRanges(Modules(table)).value);
      }
    }

    /** reserve_boot_structures. */
    method ReserveBootStructures(info: BootInfo, table: seq<Byte>) returns (r: Outcome<()>)
      requires bitmap.Length == BITMAP_BYTES && totalFrames <= FRAMES
      requires |table| == SIZEOF_MODULE * info.modsCount
      modifies bitmap
      ensures r.Panicked? <==> BootRanges(info, Modules(table)).Panicked?
      ensures r.Returned? ==> Used() == Reserve(old(Used()), totalFrames, BootRanges(info, Modules(table)).value)
    {
      ghost var u0 := Used();
      ReserveInfo(info, u0);
      r := ReserveMods(info, table, u0, InfoRanges(info));
      if r.Panicked? {
        return;
      }
      ghost var done := InfoRanges(info) + ModsRanges(info, Modules(table)).value;
      if Flag(info.flags, INFO_FRAMEBUFFER) && info.framebufferAddr < MAX_PHYSICAL_BYTES {
        var size := info.framebufferPitch * info.framebufferHeight;
        ReserveNext(info.framebufferAddr, size, u0, done, done + [(info.framebufferAddr, size)]);
      } else {
        assert done + [] == done;
      }
    }

    method ApplyMap(info: BootInfo, mmap: seq<Byte>, allocStart: Word)
      requires bitmap.Length == BITMAP_BYTES && totalFrames <= FRAMES
      requires Flag(info.flags, INFO_MEM_MAP) && info.mmapLen != 0 && Readable(info.mmapAddr, info.mmapLen)
      requires |mmap| == info.mmapLen && Entries(mmap, 0).Returned?
      modifies bitmap
      ensures var es := Entries(mmap, 0).value;
        Used() == SetFrames(Pass(Pass(old(Used()), totalFrames, 1, es), totalFrames, 2, es), totalFrames,
                            0, allocStart, true)
    {
      var _ := ReadMemoryMap(info, mmap, 1);
      var _ := ReadMemoryMap(info, mmap, 2);
      DoSetFrames(0, allocStart, true);
    }

    method Fill()
      requires bitmap.Length == BITMAP_BYTES
      modifies bitmap
      ensures Used() == AllUsed()
    {
      var i := 0;
      while i < BITMAP_BYTES
        invariant 0 <= i <= BITMAP_BYTES
        invariant forall j :: 0 <= j < i ==> bitmap[j] == 0xFF
      {
        bitmap[i] := 0xFF;
        i := i + 1;
      }
      forall f | 0 <= f < FRAMES ensures Used()[f] {
        FullByte(f % 8);
      }
    }

    /** pmm_init on the bytes of the boot structures: the information, the memory map and the module table. */
    method Init(addr: Word, raw: seq<Byte>, mmap: seq<Byte>, table: seq<Byte>, allocStart: Word)
      returns (r: Outcome<()>)
      requires bitmap.Length == BITMAP_BYTES && |raw| == SIZEOF_INFO
      requires |mmap| == InfoAt(addr, raw).mmapLen && |table| == SIZEOF_MODULE * InfoAt(addr, raw).modsCount
      modifies this`totalFrames, bitmap
      ensures r.Panicked? <==> InitialFrames(InfoAt(addr, raw), mmap, Modules(table), allocStart).Panicked?
      ensures r.Returned? ==> Valid()
      ensures r.Returned? ==>
        InitialFrames(InfoAt(addr, raw), mmap, Modules(table), allocStart) == Returned((totalFrames, Used()))
    {
      if addr == 0 {
        return Panicked;
      }
      var info := InfoAt(addr, raw);
      Fill();
      totalFrames := 0;
      var highest := ReadMemoryMap(info, mmap, 0);
      if highest.Panicked? {
        return Panicked;
      }
      var top := if highest.value > MAX_PHYSICAL_BYTES then MAX_PHYSICAL_BYTES else highest.value;
      totalFrames := top / PAGE_SIZE;
      if totalFrames == 0 {
        return Panicked;
      }
      PassZero(AllUsed(), 0, Entries(mmap, 0).value);
      ApplyMap(info, mmap, allocStart);
      r := ReserveBootStructures(info, table);
      if r.Returned? {
        InitialGuarded(info, mmap, Modules(table), allocStart);
      }
    }
  }
}
