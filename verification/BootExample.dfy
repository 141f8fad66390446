/**
 A machine with 64 MiB above the first: mem_init returns on it, and the first request for a window
 can then clash with its own page table.
 */
module BootExample {
  import opened Words
  import opened Frames
  import opened BootMap
  import opened Paging
  import opened AddressSpace
  import opened KernelBoot
  import WindowContents

  /** The directory lies at 1 MiB, and the kernel ends at 2 MiB. */
  const DIR := 256
  const KERNEL_END := 0x20_0000
  /** Frames KERNEL_FRAMES .. MEMORY_FRAMES are free after pmm_init; the heap takes the first 1024. */
  const KERNEL_FRAMES := 512
  const MEMORY_FRAMES := 16640
  const HEAP_TABLE := 1536
  const FIRST_FREE := 1537

  function Info(): BootInfo {
    BootInfo(KERNEL_VIRTUAL_OFFSET + 0x1_0000, 64, 0, 0, 0, 24, 0x1_1000, 0, 0, 0, 0)
  }

  /** One available entry, from 1 MiB to 65 MiB. */
  function Map(): (b: seq<Byte>)
    ensures |b| == 24
  {
    [20, 0, 0, 0] + [0, 0, 0x10, 0, 0, 0, 0, 0] + [0, 0, 0, 4, 0, 0, 0, 0] + [1, 0, 0, 0]
  }

  lemma MapEntries()
    ensures Entries(Map(), 0) == Returned([Entry(0x10_0000, 0x400_0000, AVAILABLE)])
  {
    var b := Map();
    assert U32(b, 0) == 20;
    assert EntryAt(b, 0) == Entry(0x10_0000, 0x400_0000, AVAILABLE);
    assert Entries(b, 24) == Returned([]);
    var e := Entry(0x10_0000, 0x400_0000, AVAILABLE);
    assert [e] + [] == [e];
  }

  lemma MapFlags()
    ensures Flag(64, INFO_MEM_MAP) && !Flag(64, INFO_MODS) && !Flag(64, INFO_FRAMEBUFFER)
  {
    assert Pow2(3) == 8;
    assert Pow2(6) == 8 * Pow2(3);
    assert Pow2(9) == 8 * Pow2(6);
    assert Pow2(12) == 8 * Pow2(9);
  }

  lemma InitReturns()
    ensures InitialFrames(Info(), Map(), [], KERNEL_END).Returned?
    ensures InitialFrames(Info(), Map(), [], KERNEL_END).value.0 == MEMORY_FRAMES
    ensures BootRanges(Info(), []) == Returned([(0x1_0000, SIZEOF_INFO), (0x1_1000, 24)])
  {
    MapEntries();
    MapFlags();
    hide Entries;
    hide Flag;
    assert InfoRanges(Info()) + [] + [] == [(0x1_0000, SIZEOF_INFO), (0x1_1000, 24)];
    var es := [Entry(0x10_0000, 0x400_0000, AVAILABLE)];
    assert Highest(es[..0]) == 0;
    assert Highest(es) == MEMORY_FRAMES * PAGE_SIZE;
  }

  /** Exactly the frames between the kernel's end and the end of memory are free. */
  lemma FreeFrames(f: nat)
    requires f < FRAMES
    ensures InitialFrames(Info(), Map(), [], KERNEL_END).Returned?
    ensures var (total, used) := InitialFrames(Info(), Map(), [], KERNEL_END).value;
      Guarded(used, total) && (!used[f] <==> KERNEL_FRAMES <= f < MEMORY_FRAMES)
  {
    InitReturns();
    MapEntries();
    FreeAfterInit(Info(), Map(), [], KERNEL_END, f);
    hide InitialFrames;
    hide Entries;
    hide BootRanges;
    var es := [Entry(0x10_0000, 0x400_0000, AVAILABLE)];
    assert InAvailable(es, f) <==> Frames.Within(f, 0x10_0000, 0x410_0000) by {
      assert es[0] in es;
    }
  }

  ghost predicate FreeBetween(used: seq<bool>, lo: nat, hi: nat) {
    |used| == FRAMES && forall f: nat :: f < FRAMES ==> (!used[f] <==> lo <= f < hi)
  }

  lemma AllFreeFrames()
    ensures InitialFrames(Info(), Map(), [], KERNEL_END).Returned?
    ensures var (total, used) := InitialFrames(Info(), Map(), [], KERNEL_END).value;
      total == MEMORY_FRAMES && Guarded(used, total) && FreeBetween(used, KERNEL_FRAMES, MEMORY_FRAMES)
  {
    InitReturns();
    InitialGuarded(Info(), Map(), [], KERNEL_END);
    hide InitialFrames;
    var used := InitialFrames(Info(), Map(), [], KERNEL_END).value.1;
    forall f: nat | f < FRAMES ensures !used[f] <==> KERNEL_FRAMES <= f < MEMORY_FRAMES { FreeFrames(f); }
  }

  lemma HeapFrames(used: seq<bool>, total: nat)
    requires Guarded(used, total) && total == MEMORY_FRAMES && FreeBetween(used, KERNEL_FRAMES, MEMORY_FRAMES)
    ensures FirstRun(used, total, HEAP_PAGES, 1, 1) == Some(KERNEL_FRAMES)
    ensures FreeBetween(MarkRun(used, KERNEL_FRAMES, HEAP_PAGES), HEAP_TABLE, MEMORY_FRAMES)
  {
    assert Fits(used, total, KERNEL_FRAMES, HEAP_PAGES, 1);
    match FirstRun(used, total, HEAP_PAGES, 1, 1)
    case None =>
    case Some(g) => assert !used[g];
  }

  lemma TableFrame(used: seq<bool>, total: nat)
    requires Guarded(used, total) && FreeBetween(used, HEAP_TABLE, MEMORY_FRAMES)
    ensures AllocFrame(used, total).Returned?
    ensures FreeBetween(AllocFrame(used, total).value.1, FIRST_FREE, MEMORY_FRAMES)
  {
    assert !used[HEAP_TABLE];
    var f := AllocFrame(used, total).value.0;
    assert f == HEAP_TABLE;
  }

  /** mem_init returns here, with the heap in the first free frames and its table in the next one. */
  lemma BootReturns(mem: seq<Paging.Frame>)
    requires |mem| == FRAMES && mem[DIR] == BootDirectory()
    ensures MemInit(mem, DIR, Info(), Map(), [], KERNEL_END).Returned?
    ensures var (s, heap) := MemInit(mem, DIR, Info(), Map(), [], KERNEL_END).value;
      && |s.mem| == FRAMES && heap == KERNEL_FRAMES * PAGE_SIZE
      && FreeBetween(s.used, FIRST_FREE, MEMORY_FRAMES)
      && !Present(Pde(s.mem, DIR, ACPI_BASE))
  {
    AllFreeFrames();
    hide InitialFrames;
    hide Sound;
    hide MapPages;
    hide MarkRun;
    hide FirstRun;
    var (total, used) := InitialFrames(Info(), Map(), [], KERNEL_END).value;
    HeapFrames(used, total);
    BootSound(mem, DIR, Info(), Map(), [], KERNEL_END, KERNEL_FRAMES);
    MarkRunGuarded(used, total, KERNEL_FRAMES, HEAP_PAGES);
    var marked := MarkRun(used, KERNEL_FRAMES, HEAP_PAGES);
    TableFrame(marked, total);
    var s := State(mem[DIR := Activated(mem[DIR], DIR)], marked, total);
    NotYetMapped(mem[DIR], DIR);
    assert !marked[HEAP_TABLE];
    HeapMapsIff(s, DIR, KERNEL_FRAMES, KERNEL_FRAMES * PAGE_SIZE, HEAP_PAGES);
    MapPagesSound(s, DIR, KERNEL_FRAMES, HEAP_PAGES, HEAP_BASE, KERNEL_FRAMES * PAGE_SIZE, HEAP_PAGES, HEAP_FLAGS,
                  false);
  }

  /**
   The first request after boot, for the two lowest free frames: its page table takes the second of
   them, and the second page of the window leads to that table.
   */
  lemma FirstRequestClashes(mem: seq<Paging.Frame>)
    requires |mem| == FRAMES && mem[DIR] == BootDirectory()
    ensures MemInit(mem, DIR, Info(), Map(), [], KERNEL_END).Returned?
    ensures var k := Kernel(MemInit(mem, DIR, Info(), Map(), [], KERNEL_END).value.0, ACPI_BASE, []);
      && |k.s.mem| == FRAMES && Guarded(k.s.used, k.s.total)
      && var r := AcpiMapRange(k, DIR, FIRST_FREE * PAGE_SIZE, 2 * PAGE_SIZE);
      && r.Returned? && r.value.1 == ACPI_BASE
      && FrameOf(Pde(r.value.0.s.mem, DIR, ACPI_BASE)) == FIRST_FREE + 1
      && Translate(r.value.0.s.mem, DIR, ACPI_BASE + PAGE_SIZE) == Some((FIRST_FREE + 1) * PAGE_SIZE)
  {
    BootReturns(mem);
    MemInitGood(mem, DIR, Info(), Map(), [], KERNEL_END);
    hide MemInit;
    var (s, heap) := MemInit(mem, DIR, Info(), Map(), [], KERNEL_END).value;
    var k := Kernel(s, ACPI_BASE, []);
    WindowContents.GoodSizes(k, DIR, heap);
    hide Good;
    hide AcpiMapRange;
    WindowContents.TwoPagesClash(k, DIR, heap, FIRST_FREE);
  }
}
