/** mem_init: from the boot loader's page directory to the address space AddressSpace talks about. */
module KernelBoot {
  import opened Words
  import opened Frames
  import opened BootMap
  import opened Paging
  import opened AddressSpace

  const KERNEL_DIR := 768
  const BOOT_LARGE_PAGES := 4
  const LARGE_FLAGS := 0x83

  /** initial_page_dir: the first 4 MiB mapped low, the first 16 MiB mapped at KERNEL_VIRTUAL_OFFSET. */
  function BootDirectory(): (d: Paging.Frame)
    ensures forall i :: 0 <= i < ENTRIES ==>
      d[i] == if i == 0 then LARGE_FLAGS
              else if KERNEL_DIR <= i < KERNEL_DIR + BOOT_LARGE_PAGES then (i - KERNEL_DIR) * LARGE_PAGE + LARGE_FLAGS
              else 0
  {
    seq(ENTRIES, i requires 0 <= i < ENTRIES =>
      if i == 0 then LARGE_FLAGS
      else if KERNEL_DIR <= i < KERNEL_DIR + BOOT_LARGE_PAGES then (i - KERNEL_DIR) * LARGE_PAGE + LARGE_FLAGS
      else 0)
  }

  /** vmm_init drops the identity mapping and maps the directory into itself. */
  function Activated(d: Paging.Frame, dir: nat): Paging.Frame
    requires dir < FRAMES
  {
    d[0 := 0][SELF := dir * PAGE_SIZE + 3]
  }

  lemma LargeEntry(i: nat, a: Word)
    requires i < BOOT_LARGE_PAGES && i == a / LARGE_PAGE
    ensures DirIndex(KERNEL_VIRTUAL_OFFSET + a) == KERNEL_DIR + i
    ensures (KERNEL_VIRTUAL_OFFSET + a) % LARGE_PAGE == a % LARGE_PAGE
    ensures var e := i * LARGE_PAGE + LARGE_FLAGS;
      Present(e) && Large(e) && e / LARGE_PAGE * LARGE_PAGE + a % LARGE_PAGE == a
  {
  }

  /** The kernel reaches physical byte a of the first 16 MiB at KERNEL_VIRTUAL_OFFSET + a. */
  lemma BootMapped(mem: seq<Paging.Frame>, dir: nat, a: Word)
    requires |mem| == FRAMES && dir < FRAMES && a < BOOTSTRAP_MAPPED_BYTES
    requires forall i :: KERNEL_DIR <= i < KERNEL_DIR + BOOT_LARGE_PAGES ==> mem[dir][i] == BootDirectory()[i]
    ensures Translate(mem, dir, KERNEL_VIRTUAL_OFFSET + a) == Some(a)
  {
    var i := a / LARGE_PAGE;
    LargeEntry(i, a);
    assert mem[dir][KERNEL_DIR + i] == BootDirectory()[KERNEL_DIR + i];
  }

  /** Directory, frame map and heap frames once mem_init returns, or a panic. */
  ghost function MemInit(mem: seq<Paging.Frame>, dir: nat, info: BootInfo, mmap: seq<Byte>, mods: seq<Module>,
                         allocStart: Word): Outcome<(State, Word)>
    requires |mem| == FRAMES && dir < FRAMES
  {
    match InitialFrames(info, mmap, mods, allocStart)
    case Panicked => Panicked
    case Returned((total, used)) =>
      InitialGuarded(info, mmap, mods, allocStart);
      match FirstRun(used, total, HEAP_PAGES, 1, 1)
      case None => Panicked
      case Some(first) =>
        MarkRunGuarded(used, total, first, HEAP_PAGES);
        var s := State(mem[dir := Activated(mem[dir], dir)], MarkRun(used, first, HEAP_PAGES), total);
        match MapPages(s, dir, HEAP_BASE, first * PAGE_SIZE, HEAP_PAGES, HEAP_FLAGS, false)
        case Panicked => Panicked
        case Returned((s', ok)) => if ok then Returned((s', first * PAGE_SIZE)) else Panicked
  }

  lemma ActivatedEntries(d: Paging.Frame, dir: nat)
    requires d == BootDirectory() && dir < FRAMES
    ensures SelfMapped(Activated(d, dir), dir) && NoLarge(Activated(d, dir))
    ensures forall i :: 0 <= i < SELF ==> !IsTable(Activated(d, dir)[i])
  {
    NewEntries(dir, 0, 0);
    forall i | 0 <= i < SELF ensures !IsTable(Activated(d, dir)[i]) {
      if KERNEL_DIR <= i < KERNEL_DIR + BOOT_LARGE_PAGES { LargeEntry(i - KERNEL_DIR, (i - KERNEL_DIR) * LARGE_PAGE); }
    }
  }

  /** The directory's frame lies below the kernel's end, so the frame allocator never hands it out. */
  lemma BootSound(mem: seq<Paging.Frame>, dir: nat, info: BootInfo, mmap: seq<Byte>, mods: seq<Module>,
                  allocStart: Word, first: nat)
    requires |mem| == FRAMES && dir < FRAMES && mem[dir] == BootDirectory()
    requires (dir + 1) * PAGE_SIZE <= allocStart
    requires InitialFrames(info, mmap, mods, allocStart).Returned?
    requires var (total, used) := InitialFrames(info, mmap, mods, allocStart).value;
      Fits(used, total, first, HEAP_PAGES, 1)
    ensures var (total, used) := InitialFrames(info, mmap, mods, allocStart).value;
      var s := State(mem[dir := Activated(mem[dir], dir)], MarkRun(used, first, HEAP_PAGES), total);
      Sound(s, dir, first, HEAP_PAGES)
  {
    hide InitialFrames;
    var (total, used) := InitialFrames(info, mmap, mods, allocStart).value;
    FreeAfterInit(info, mmap, mods, allocStart, dir);
    InitialGuarded(info, mmap, mods, allocStart);
    MarkRunGuarded(used, total, first, HEAP_PAGES);
    ActivatedEntries(mem[dir], dir);
  }

  /** mem_init leaves a good address space; the assertion on mapping the heap cannot fail. */
  lemma MemInitGood(mem: seq<Paging.Frame>, dir: nat, info: BootInfo, mmap: seq<Byte>, mods: seq<Module>,
                    allocStart: Word)
    requires |mem| == FRAMES && dir < FRAMES && mem[dir] == BootDirectory()
    requires (dir + 1) * PAGE_SIZE <= allocStart
    requires MemInit(mem, dir, info, mmap, mods, allocStart).Returned?
    ensures var (s, heap) := MemInit(mem, dir, info, mmap, mods, allocStart).value;
      Good(Kernel(s, ACPI_BASE, []), dir, heap)
  {
    hide InitialFrames;
    hide Sound;
    hide MapPages;
    var (total, used) := InitialFrames(info, mmap, mods, allocStart).value;
    var first := FirstRun(used, total, HEAP_PAGES, 1, 1).value;
    BootSound(mem, dir, info, mmap, mods, allocStart, first);
    var s := State(mem[dir := Activated(mem[dir], dir)], MarkRun(used, first, HEAP_PAGES), total);
    MapPagesSound(s, dir, first, HEAP_PAGES, HEAP_BASE, first * PAGE_SIZE, HEAP_PAGES, HEAP_FLAGS, false);
    var s' := MapPages(s, dir, HEAP_BASE, first * PAGE_SIZE, HEAP_PAGES, HEAP_FLAGS, false).value.0;
    var x := Window(HEAP_BASE, first * PAGE_SIZE, HEAP_SIZE);
    forall w: Word | x.virt <= w < x.virt + x.len ensures Translate(s'.mem, dir, w) == Some(x.phys + (w - x.virt)) {
      MapPagesMeans(s, dir, first, HEAP_PAGES, HEAP_BASE, first * PAGE_SIZE, HEAP_PAGES, HEAP_FLAGS, false, w);
    }
  }

  ghost predicate HasFree(used: seq<bool>) {
    exists f :: 0 <= f < |used| && !used[f]
  }

  lemma SameTable(k: nat)
    requires k < HEAP_PAGES
    ensures DirIndex(HEAP_BASE + k * PAGE_SIZE) == DirIndex(HEAP_BASE) == HEAP_DIR
  {
  }

  /** s' has the heap's table, in the frame that was the lowest free one, and no other new entry. */
  ghost predicate OneMoreTable(s: State, s': State, dir: nat)
    requires |s.mem| == |s'.mem| == FRAMES && dir < FRAMES && Guarded(s.used, s.total)
  {
    && AllocFrame(s.used, s.total).Returned? && s'.used == AllocFrame(s.used, s.total).value.1
    && Present(Pde(s'.mem, dir, HEAP_BASE))
    && forall i :: 0 <= i < ENTRIES && i != HEAP_DIR ==> s'.mem[dir][i] == s.mem[dir][i]
  }

  /** The first page of the heap needs a table; mapping it fails exactly when no frame is free. */
  lemma FirstHeapPage(s: State, dir: nat, first: nat, p: Word)
    requires Sound(s, dir, first, HEAP_PAGES) && !Present(Pde(s.mem, dir, HEAP_BASE))
    ensures var r := MapPage(s, dir, HEAP_BASE, p, HEAP_FLAGS);
      && (r.Returned? <==> HasFree(s.used))
      && (r.Returned? ==> OneMoreTable(s, r.value.0, dir))
  {
    match AllocFrame(s.used, s.total)
    case Panicked =>
    case Returned((f, used)) =>
      FreshTable(s, dir, HEAP_BASE, f, p, HEAP_FLAGS, HEAP_BASE);
      NewEntries(f, p, HEAP_FLAGS);
  }

  lemma NextHeapPage(s: State, dir: nat, first: nat, k: nat, p: Word)
    requires Sound(s, dir, first, HEAP_PAGES) && Present(Pde(s.mem, dir, HEAP_BASE)) && k < HEAP_PAGES
    ensures var r := MapPage(s, dir, HEAP_BASE + k * PAGE_SIZE, p, HEAP_FLAGS);
      r.Returned? && r.value.0.used == s.used && r.value.0.mem[dir] == s.mem[dir]
  {
    var v := HEAP_BASE + k * PAGE_SIZE;
    SameTable(k);
    assert IsTable(Pde(s.mem, dir, v));
    ExistingTable(s, dir, v, p, HEAP_FLAGS, v);
  }

  /** One frame for the table is all that mapping the heap takes: the lowest free one. */
  lemma {:induction false} HeapMapsIff(s: State, dir: nat, first: nat, p: nat, n: nat)
    requires Sound(s, dir, first, HEAP_PAGES) && !Present(Pde(s.mem, dir, HEAP_BASE))
    requires 0 < n <= HEAP_PAGES && p + n * PAGE_SIZE <= TWO_32
    ensures var r := MapPages(s, dir, HEAP_BASE, p, n, HEAP_FLAGS, false);
      && (r.Returned? <==> HasFree(s.used))
      && (r.Returned? ==> OneMoreTable(s, r.value.0, dir))
  {
    hide Sound;
    hide MapPage;
    if n == 1 {
      FirstHeapPage(s, dir, first, p);
    } else {
      HeapMapsIff(s, dir, first, p, n - 1);
      var r := MapPages(s, dir, HEAP_BASE, p, n - 1, HEAP_FLAGS, false);
      if r.Returned? {
        MapPagesSound(s, dir, first, HEAP_PAGES, HEAP_BASE, p, n - 1, HEAP_FLAGS, false);
        NextHeapPage(r.value.0, dir, first, n - 1, p + (n - 1) * PAGE_SIZE);
      }
    }
  }

  ghost predicate FreeOutside(used: seq<bool>, f: nat, first: nat) {
    f < |used| && !used[f] && !(first <= f < first + HEAP_PAGES)
  }

  /** A contiguous run of 1024 free frames, and one more free frame for its page table. */
  ghost predicate RoomForHeap(used: seq<bool>, total: nat) {
    exists first: nat, f: nat :: Fits(used, total, first, HEAP_PAGES, 1) && FreeOutside(used, f, first)
  }

  /** It does not matter which run is taken first. */
  lemma AnyRun(used: seq<bool>, total: nat)
    requires Guarded(used, total)
    ensures RoomForHeap(used, total) <==>
      var run := FirstRun(used, total, HEAP_PAGES, 1, 1);
      run.Some? && HasFree(MarkRun(used, run.value, HEAP_PAGES))
  {
    var run := FirstRun(used, total, HEAP_PAGES, 1, 1);
    if first: nat, f: nat :| Fits(used, total, first, HEAP_PAGES, 1) && FreeOutside(used, f, first) {
      assert !used[first];
      var g := if first == run.value then f else first + HEAP_PAGES - 1;
      assert !MarkRun(used, run.value, HEAP_PAGES)[g];
    }
    if run.Some? && HasFree(MarkRun(used, run.value, HEAP_PAGES)) {
      var f :| 0 <= f < |used| && !MarkRun(used, run.value, HEAP_PAGES)[f];
      assert FreeOutside(used, f, run.value);
    }
  }

  lemma NotYetMapped(d: Paging.Frame, dir: nat)
    requires d == BootDirectory() && dir < FRAMES
    ensures !Present(Activated(d, dir)[HEAP_DIR]) && DirIndex(HEAP_BASE) == HEAP_DIR
  {
  }

  /**
   mem_init returns exactly when pmm_init does and leaves 1024 free frames in a row and one more free
   frame; otherwise it panics.
   */
  lemma MemInitReturnsIff(mem: seq<Paging.Frame>, dir: nat, info: BootInfo, mmap: seq<Byte>, mods: seq<Module>,
                          allocStart: Word)
    requires |mem| == FRAMES && dir < FRAMES && mem[dir] == BootDirectory()
    requires (dir + 1) * PAGE_SIZE <= allocStart
    ensures MemInit(mem, dir, info, mmap, mods, allocStart).Returned? <==>
      match InitialFrames(info, mmap, mods, allocStart)
      case Panicked => false
      case Returned((total, used)) => RoomForHeap(used, total)
  {
    hide InitialFrames;
    hide Sound;
    hide MapPages;
    hide RoomForHeap;
    match InitialFrames(info, mmap, mods, allocStart)
    case Panicked =>
    case Returned((total, used)) =>
      InitialGuarded(info, mmap, mods, allocStart);
      AnyRun(used, total);
      match FirstRun(used, total, HEAP_PAGES, 1, 1)
      case None =>
      case Some(first) =>
        BootSound(mem, dir, info, mmap, mods, allocStart, first);
        var s := State(mem[dir := Activated(mem[dir], dir)], MarkRun(used, first, HEAP_PAGES), total);
        NotYetMapped(mem[dir], dir);
        HeapMapsIff(s, dir, first, first * PAGE_SIZE, HEAP_PAGES);
        if MapPages(s, dir, HEAP_BASE, first * PAGE_SIZE, HEAP_PAGES, HEAP_FLAGS, false).Returned? {
          MapPagesSound(s, dir, first, HEAP_PAGES, HEAP_BASE, first * PAGE_SIZE, HEAP_PAGES, HEAP_FLAGS, false);
        }
  }

  /** The heap lies in the lowest 1024 free frames in a row, its table in the lowest free frame f beside them. */
  lemma MemInitTakes(mem: seq<Paging.Frame>, dir: nat, info: BootInfo, mmap: seq<Byte>, mods: seq<Module>,
                     allocStart: Word) returns (f: nat)
    requires |mem| == FRAMES && dir < FRAMES && mem[dir] == BootDirectory()
    requires (dir + 1) * PAGE_SIZE <= allocStart
    requires MemInit(mem, dir, info, mmap, mods, allocStart).Returned?
    ensures InitialFrames(info, mmap, mods, allocStart).Returned?
    ensures var used := InitialFrames(info, mmap, mods, allocStart).value.1;
      var (s, heap) := MemInit(mem, dir, info, mmap, mods, allocStart).value;
      var first := heap / 4096;
      && |s.used| == |used| == FRAMES && heap % 4096 == 0
      && AllFree(used, first, 1024) && (forall g :: 0 <= g < first ==> !AllFree(used, g, 1024))
      && f < FRAMES && !used[f] && !(first <= f < first + 1024)
      && (forall g :: 0 <= g < f ==> used[g] || first <= g < first + 1024)
      && forall g :: 0 <= g < FRAMES ==> (s.used[g] <==> used[g] || first <= g < first + 1024 || g == f)
  {
    hide InitialFrames;
    hide Sound;
    hide MapPages;
    var (total, used) := InitialFrames(info, mmap, mods, allocStart).value;
    InitialGuarded(info, mmap, mods, allocStart);
    FirstRunMeans(used, total, HEAP_PAGES, 1);
    var first := FirstRun(used, total, HEAP_PAGES, 1, 1).value;
    BootSound(mem, dir, info, mmap, mods, allocStart, first);
    var s := State(mem[dir := Activated(mem[dir], dir)], MarkRun(used, first, HEAP_PAGES), total);
    NotYetMapped(mem[dir], dir);
    HeapMapsIff(s, dir, first, first * PAGE_SIZE, HEAP_PAGES);
    MapPagesSound(s, dir, first, HEAP_PAGES, HEAP_BASE, first * PAGE_SIZE, HEAP_PAGES, HEAP_FLAGS, false);
    f := AllocFrame(s.used, s.total).value.0;
    forall g | 0 <= g < FRAMES ensures s.used[g] <==> used[g] || first <= g < first + 1024 {
      MarkRunMeans(used, first, HEAP_PAGES, g);
    }
  }
}
