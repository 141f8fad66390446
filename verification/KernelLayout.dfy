/**
 The kernel's whole address space below the recursive window: what mem_init leaves there, and what any
 run of window requests and heap stores makes of it.
 */
module KernelLayout {
  import opened Words
  import opened Frames
  import opened BootMap
  import opened Paging
  import opened AddressSpace
  import opened AccessRights
  import opened KernelBoot

  /** Written by the kernel alone, cached as usual; and the same written through. */
  const KERNEL_ACCESS := Access(true, false, false)
  const DEVICE_ACCESS := Access(true, false, true)

  ghost predicate MapsTo(mem: seq<Paging.Frame>, dir: nat, w: Word, a: Option<int>, access: Option<Access>)
    requires |mem| == FRAMES && dir < FRAMES
  {
    Translate(mem, dir, w) == a && AccessAt(mem, dir, w) == access
  }

  /**
   16 MiB at 0xC0000000 lead to the first 16 MiB of memory, 4 MiB at 0xE0000000 to the heap's frames, the
   ACPI area is mapped from 0xD0000000 up to the next free page, and every other access faults.
   */
  ghost predicate LaidOutAt(mem: seq<Paging.Frame>, dir: nat, heap: Word, next: Word, w: Word)
    requires |mem| == FRAMES && dir < FRAMES
  {
    if 0xC000_0000 <= w < 0xC100_0000 then MapsTo(mem, dir, w, Some(w - 0xC000_0000), Some(KERNEL_ACCESS))
    else if 0xE000_0000 <= w < 0xE040_0000 then MapsTo(mem, dir, w, Some(heap + (w - 0xE000_0000)), Some(KERNEL_ACCESS))
    else if 0xD000_0000 <= w < next then AccessAt(mem, dir, w) == Some(DEVICE_ACCESS)
    else MapsTo(mem, dir, w, None, None)
  }

  ghost predicate LaidOut(mem: seq<Paging.Frame>, dir: nat, heap: Word, next: Word)
    requires |mem| == FRAMES && dir < FRAMES
  {
    TablesWritable(mem[dir]) && forall w: Word :: w < RECURSIVE_BASE ==> LaidOutAt(mem, dir, heap, next, w)
  }

  // ---------- After mem_init ----------

  lemma BootEntry(d: Paging.Frame, dir: nat, i: nat)
    requires d == BootDirectory() && dir < FRAMES && i < SELF
    ensures var e := Activated(d, dir)[i];
      if 768 <= i < 772 then
        && Present(e) && Large(e) && Writes(e) && !User(e) && !Through(e)
        && e / LARGE_PAGE * LARGE_PAGE == (i - 768) * LARGE_PAGE
      else !Present(e)
  {
    if 768 <= i < 772 { LargeEntry(i - 768, (i - 768) * LARGE_PAGE); }
  }

  lemma SelfEntry(d: Paging.Frame, dir: nat)
    requires d == BootDirectory() && dir < FRAMES
    ensures TablesWritable(Activated(d, dir))
  {
    LowEntryBits(dir, 3);
    forall i | ACPI_DIR <= i <= HEAP_DIR ensures !Present(Activated(d, dir)[i]) { BootEntry(d, dir, i); }
  }

  lemma HighHalf(w: Word)
    ensures 768 <= DirIndex(w) < 772 <==> 0xC000_0000 <= w < 0xC100_0000
    ensures 768 <= DirIndex(w) < 772 ==> (DirIndex(w) - 768) * LARGE_PAGE + w % LARGE_PAGE == w - 0xC000_0000
  {
  }

  /** Before the heap is mapped only the kernel's own 16 MiB are. */
  lemma ActivatedLayout(mem: seq<Paging.Frame>, dir: nat, w: Word)
    requires |mem| == FRAMES && dir < FRAMES && w < RECURSIVE_BASE
    requires mem[dir] == Activated(BootDirectory(), dir)
    ensures if 0xC000_0000 <= w < 0xC100_0000 then MapsTo(mem, dir, w, Some(w - 0xC000_0000), Some(KERNEL_ACCESS))
            else MapsTo(mem, dir, w, None, None)
  {
    BootEntry(BootDirectory(), dir, DirIndex(w));
    HighHalf(w);
    hide Activated;
    hide BootDirectory;
  }

  lemma HeapLayout(s: State, dir: nat, first: nat, w: Word)
    requires Sound(s, dir, first, HEAP_PAGES) && TablesWritable(s.mem[dir]) && w < RECURSIVE_BASE
    requires s.mem[dir] == Activated(BootDirectory(), dir) && first * PAGE_SIZE + HEAP_SIZE <= TWO_32
    requires MapPages(s, dir, HEAP_BASE, first * PAGE_SIZE, HEAP_PAGES, HEAP_FLAGS, false).Returned?
    ensures LaidOutAt(MapPages(s, dir, HEAP_BASE, first * PAGE_SIZE, HEAP_PAGES, HEAP_FLAGS, false).value.0.mem,
                      dir, first * PAGE_SIZE, ACPI_BASE, w)
  {
    hide Sound;
    hide MapPages;
    hide Translate;
    hide AccessAt;
    hide TablesWritable;
    ActivatedLayout(s.mem, dir, w);
    MapPagesMeans(s, dir, first, HEAP_PAGES, HEAP_BASE, first * PAGE_SIZE, HEAP_PAGES, HEAP_FLAGS, false, w);
    MapPagesAccess(s, dir, first, HEAP_PAGES, HEAP_BASE, first * PAGE_SIZE, HEAP_PAGES, HEAP_FLAGS, false, w);
  }

  /** The layout mem_init leaves: the identity mapping is gone, kernel and heap are mapped, and nothing else. */
  lemma BootLaidOut(mem: seq<Paging.Frame>, dir: nat, info: BootInfo, mmap: seq<Byte>, mods: seq<Module>,
                    allocStart: Word)
    requires |mem| == FRAMES && dir < FRAMES && mem[dir] == BootDirectory()
    requires (dir + 1) * PAGE_SIZE <= allocStart
    requires MemInit(mem, dir, info, mmap, mods, allocStart).Returned?
    ensures var (s, heap) := MemInit(mem, dir, info, mmap, mods, allocStart).value;
      |s.mem| == FRAMES && LaidOut(s.mem, dir, heap, ACPI_BASE)
  {
    hide InitialFrames;
    hide Sound;
    hide MapPages;
    hide Translate;
    hide AccessAt;
    hide MapsTo;
    hide TablesWritable;
    var (total, used) := InitialFrames(info, mmap, mods, allocStart).value;
    var first := FirstRun(used, total, HEAP_PAGES, 1, 1).value;
    BootSound(mem, dir, info, mmap, mods, allocStart, first);
    SelfEntry(mem[dir], dir);
    var s := State(mem[dir := Activated(mem[dir], dir)], MarkRun(used, first, HEAP_PAGES), total);
    var s' := MapPages(s, dir, HEAP_BASE, first * PAGE_SIZE, HEAP_PAGES, HEAP_FLAGS, false).value.0;
    MapPagesAccess(s, dir, first, HEAP_PAGES, HEAP_BASE, first * PAGE_SIZE, HEAP_PAGES, HEAP_FLAGS, false, 0);
    forall w: Word | w < RECURSIVE_BASE ensures LaidOutAt(s'.mem, dir, first * PAGE_SIZE, ACPI_BASE, w) {
      HeapLayout(s, dir, first, w);
    }
  }

  // ---------- Over runs ----------

  lemma RequestLayout(k: Kernel, dir: nat, heap: Word, phys: Word, n: nat, w: Word)
    requires Sound(k.s, dir, heap / PAGE_SIZE, HEAP_PAGES) && TablesWritable(k.s.mem[dir]) && w < RECURSIVE_BASE
    requires k.next % PAGE_SIZE == 0 && ACPI_BASE <= k.next && k.next + n * PAGE_SIZE <= ACPI_LIMIT
    requires phys % PAGE_SIZE == 0 && phys + n * PAGE_SIZE <= TWO_32
    requires LaidOutAt(k.s.mem, dir, heap, k.next, w)
    requires MapPages(k.s, dir, k.next, phys, n, ACPI_FLAGS, true).Returned?
    ensures LaidOutAt(MapPages(k.s, dir, k.next, phys, n, ACPI_FLAGS, true).value.0.mem, dir, heap,
                      k.next + n * PAGE_SIZE, w)
  {
    hide Sound;
    hide MapPages;
    hide Translate;
    hide AccessAt;
    hide TablesWritable;
    MapPagesMeans(k.s, dir, heap / PAGE_SIZE, HEAP_PAGES, k.next, phys, n, ACPI_FLAGS, true, w);
    MapPagesAccess(k.s, dir, heap / PAGE_SIZE, HEAP_PAGES, k.next, phys, n, ACPI_FLAGS, true, w);
  }

  /** How many pages hold a byte of the range. */
  function PagesTouched(phys: Word, len: Word): int {
    if len == 0 then 0 else (phys + len - 1) / 4096 - phys / 4096 + 1
  }

  lemma PagesAre(phys: Word, len: Word)
    requires 0 < len
    ensures MappingSize(phys, len) == 4096 * PagesTouched(phys, len)
  {
    var x := phys % 4096;
    assert phys + len - 1 == phys / 4096 * 4096 + (x + len - 1);
    assert (phys + len - 1) / 4096 == phys / 4096 + (x + len - 1) / 4096;
    assert (x + len + 4095) / 4096 == (x + len - 1) / 4096 + 1;
  }

  /**
   acpi_map_range, with the numbers written out: the four refusals, and otherwise the address at the next
   free page, which moves on by exactly the pages that hold a byte of the request.
   */
  lemma AcpiMapRangePlaces(k: Kernel, dir: nat, heap: Word, phys: Word, len: Word)
    requires Good(k, dir, heap) && AcpiMapRange(k, dir, phys, len).Returned?
    ensures var (k', virt) := AcpiMapRange(k, dir, phys, len).value;
      if phys == 0 || len == 0 || phys + len > 0x1_0000_0000 || k.next + 4096 * PagesTouched(phys, len) > 0xE000_0000
      then virt == 0 && k' == k
      else virt == k.next + phys % 4096 && k'.next == k.next + 4096 * PagesTouched(phys, len)
  {
    hide Sound;
    hide LeadsTo;
    hide PagesTouched;
    if len > 0 { PagesAre(phys, len); }
    if !TurnedDown(k.next, phys, len) {
      RangeFits(phys, len);
      MapPagesSound(k.s, dir, heap / PAGE_SIZE, HEAP_PAGES, k.next, PageOf(phys), MappingSize(phys, len) / PAGE_SIZE,
                    ACPI_FLAGS, true);
      hide MapPages;
    }
  }

  lemma AcpiLayout(k: Kernel, dir: nat, heap: Word, phys: Word, len: Word)
    requires Good(k, dir, heap) && |k.s.mem| == FRAMES && dir < FRAMES && LaidOut(k.s.mem, dir, heap, k.next)
    requires AcpiMapRange(k, dir, phys, len).Returned?
    ensures var k' := AcpiMapRange(k, dir, phys, len).value.0;
      |k'.s.mem| == FRAMES && LaidOut(k'.s.mem, dir, heap, k'.next)
  {
    hide Sound;
    hide LeadsTo;
    hide MapPages;
    hide TablesWritable;
    hide LaidOutAt;
    if !TurnedDown(k.next, phys, len) {
      RangeFits(phys, len);
      var n := MappingSize(phys, len) / PAGE_SIZE;
      hide MappingSize;
      MapPagesSound(k.s, dir, heap / PAGE_SIZE, HEAP_PAGES, k.next, PageOf(phys), n, ACPI_FLAGS, true);
      MapPagesAccess(k.s, dir, heap / PAGE_SIZE, HEAP_PAGES, k.next, PageOf(phys), n, ACPI_FLAGS, true, 0);
      var mem := MapPages(k.s, dir, k.next, PageOf(phys), n, ACPI_FLAGS, true).value.0.mem;
      var next := k.next + n * PAGE_SIZE;
      forall w: Word | w < RECURSIVE_BASE ensures LaidOutAt(mem, dir, heap, next, w) {
        RequestLayout(k, dir, heap, PageOf(phys), n, w);
      }
    }
  }

  /** A word stored in the heap changes nobody's access. */
  lemma StoreAccess(k: Kernel, dir: nat, heap: Word, v: Word, x: Word, w: Word)
    requires Good(k, dir, heap) && HeapWord(v) && w < RECURSIVE_BASE
    ensures var mem := HeapStored(k, dir, heap, v, x).s.mem;
      && |mem| == |k.s.mem| == FRAMES && dir < FRAMES && mem[dir] == k.s.mem[dir]
      && Translate(mem, dir, w) == Translate(k.s.mem, dir, w) && AccessAt(mem, dir, w) == AccessAt(k.s.mem, dir, w)
  {
    var a := Translate(k.s.mem, dir, v).value;
    HeapStoresAreHarmless(k, dir, heap, v, a % PAGE_SIZE / 4, x, w);
    assert LeadsTo(k.s.mem, dir, Window(HEAP_BASE, heap, HEAP_SIZE));
    HeapFrame(heap, v - HEAP_BASE);
  }

  lemma SameLayout(mem: seq<Paging.Frame>, mem': seq<Paging.Frame>, dir: nat, heap: Word, next: Word, w: Word)
    requires |mem| == |mem'| == FRAMES && dir < FRAMES && LaidOutAt(mem, dir, heap, next, w)
    requires Translate(mem', dir, w) == Translate(mem, dir, w) && AccessAt(mem', dir, w) == AccessAt(mem, dir, w)
    ensures LaidOutAt(mem', dir, heap, next, w)
  {
    hide Translate;
    hide AccessAt;
  }

  lemma StoreLayout(k: Kernel, dir: nat, heap: Word, v: Word, x: Word)
    requires Good(k, dir, heap) && |k.s.mem| == FRAMES && dir < FRAMES && LaidOut(k.s.mem, dir, heap, k.next)
    requires HeapWord(v)
    ensures var k' := HeapStored(k, dir, heap, v, x);
      |k'.s.mem| == FRAMES && k'.next == k.next && LaidOut(k'.s.mem, dir, heap, k'.next)
  {
    hide Good;
    hide Translate;
    hide AccessAt;
    hide TablesWritable;
    hide LaidOutAt;
    StoreAccess(k, dir, heap, v, x, 0);
    var k' := HeapStored(k, dir, heap, v, x);
    forall w: Word | w < RECURSIVE_BASE ensures LaidOutAt(k'.s.mem, dir, heap, k.next, w) {
      StoreAccess(k, dir, heap, v, x, w);
      SameLayout(k.s.mem, k'.s.mem, dir, heap, k.next, w);
    }
  }

  lemma SizesOf(k: Kernel, dir: nat, heap: Word)
    requires Good(k, dir, heap)
    ensures |k.s.mem| == FRAMES && dir < FRAMES
  {
    hide LeadsTo;
    hide Sound;
  }

  lemma AfterLaidOut(k: Kernel, dir: nat, heap: Word, e: Event)
    requires Good(k, dir, heap) && Allowed(e) && After(k, dir, heap, e).Returned?
    requires |k.s.mem| == FRAMES && dir < FRAMES && LaidOut(k.s.mem, dir, heap, k.next)
    ensures var k' := After(k, dir, heap, e).value;
      |k'.s.mem| == FRAMES && LaidOut(k'.s.mem, dir, heap, k'.next)
  {
    SizesOf(k, dir, heap);
    hide Good;
    hide LaidOut;
    hide AcpiMapRange;
    hide HeapStored;
    match e
    case HeapStore(v, x) => StoreLayout(k, dir, heap, v, x);
    case MapRange(phys, len) => AcpiLayout(k, dir, heap, phys, len);
  }

  /** However many requests and heap stores follow boot, the address space has this layout. */
  lemma {:induction false} RunLaidOut(k: Kernel, dir: nat, heap: Word, es: seq<Event>)
    requires Good(k, dir, heap) && (forall e <- es :: Allowed(e))
    requires |k.s.mem| == FRAMES && dir < FRAMES && LaidOut(k.s.mem, dir, heap, k.next)
    requires Run(k, dir, heap, es).Returned?
    ensures var k' := Run(k, dir, heap, es).value;
      |k'.s.mem| == FRAMES && LaidOut(k'.s.mem, dir, heap, k'.next)
    decreases |es|
  {
    hide Good;
    hide After;
    hide LaidOut;
    if es != [] {
      AfterLaidOut(k, dir, heap, es[0]);
      RunLaidOut(After(k, dir, heap, es[0]).value, dir, heap, es[1..]);
    }
  }
}
