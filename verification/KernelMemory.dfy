/** mem_init and acpi_map_range as loops over the page mapper. */
module KernelMemory {
  import opened Words
  import opened Frames
  import opened BootMap
  import opened Paging
  import opened AddressSpace
  import opened KernelBoot
  import opened FrameAllocator
  import opened PageMapper
  import KernelHeap
  import Heap

  lemma MapNoPages(s: State, dir: nat, v: nat, p: nat, flags: Word, reserve: bool)
    requires |s.mem| == FRAMES && dir < FRAMES && Guarded(s.used, s.total)
    requires v <= RECURSIVE_BASE && p <= TWO_32
    ensures MapPages(s, dir, v, p, 0, flags, reserve) == Returned((s, true))
  {
  }

  lemma MapPagesStep(s: State, dir: nat, v: nat, p: nat, n: nat, flags: Word, reserve: bool)
    requires |s.mem| == FRAMES && dir < FRAMES && Guarded(s.used, s.total)
    requires v + (n + 1) * PAGE_SIZE <= RECURSIVE_BASE && p + (n + 1) * PAGE_SIZE <= TWO_32
    requires MapPages(s, dir, v, p, n, flags, reserve).Returned? && MapPages(s, dir, v, p, n, flags, reserve).value.1
    ensures var s' := MapPages(s, dir, v, p, n, flags, reserve).value.0;
      MapPages(s, dir, v, p, n + 1, flags, reserve)
        == MapOne(s', dir, v + n * PAGE_SIZE, p + n * PAGE_SIZE, flags, reserve)
  {
  }

  lemma {:induction false} PanicPersists(s: State, dir: nat, v: nat, p: nat, k: nat, n: nat, flags: Word, reserve: bool)
    requires |s.mem| == FRAMES && dir < FRAMES && Guarded(s.used, s.total) && k <= n
    requires v + n * PAGE_SIZE <= RECURSIVE_BASE && p + n * PAGE_SIZE <= TWO_32
    requires MapPages(s, dir, v, p, k, flags, reserve).Panicked?
    ensures MapPages(s, dir, v, p, n, flags, reserve).Panicked?
  {
    if k < n { PanicPersists(s, dir, v, p, k, n - 1, flags, reserve); }
  }

  /** mem_init's first assertion. */
  lemma NullInfo(mem: seq<Paging.Frame>, dir: nat, info: BootInfo, mmap: seq<Byte>, mods: seq<Module>, allocStart: Word)
    requires |mem| == FRAMES && dir < FRAMES
    ensures info.addr == 0 ==> MemInit(mem, dir, info, mmap, mods, allocStart) == Panicked
  {
  }

  class Memory {
    const vmm: Vmm
    var acpiNext: Word
    ghost var windows: seq<Window>

    ghost function Now(): Kernel
      reads this, vmm, vmm.memory, vmm.pmm, vmm.pmm.bitmap
    {
      Kernel(vmm.Now(), acpiNext, windows)
    }

    /** A kernel whose address space is good; heap is the heap's first physical byte. */
    ghost predicate Valid(heap: Word)
      reads this, vmm, vmm.memory, vmm.pmm, vmm.pmm.bitmap
    {
      vmm.Valid() && Good(Now(), vmm.dir, heap)
    }

    constructor (vmm: Vmm)
      ensures this.vmm == vmm && acpiNext == ACPI_BASE && windows == []
    {
      this.vmm := vmm;
      acpiNext, windows := ACPI_BASE, [];
    }

    /** One page of the loop: reserve the frame, map it, and check that it is mapped. */
    method AcpiPage(v: Word, p: Word, ghost heap: Word) returns (r: Outcome<bool>)
      requires vmm.Valid() && Sound(vmm.Now(), vmm.dir, heap / PAGE_SIZE, HEAP_PAGES)
      requires ACPI_BASE <= v < ACPI_LIMIT
      modifies vmm.memory, vmm.pmm.bitmap
      ensures r.Panicked? <==> MapOne(old(vmm.Now()), vmm.dir, v, p, ACPI_FLAGS, true).Panicked?
      ensures r.Returned? ==> MapOne(old(vmm.Now()), vmm.dir, v, p, ACPI_FLAGS, true) == Returned((vmm.Now(), r.value))
      ensures r.Returned? ==> r.value && vmm.Valid()
    {
      ghost var s := vmm.Now();
      vmm.pmm.ReservePhysical(p, PAGE_SIZE);
      ReserveSound(s, vmm.dir, heap / PAGE_SIZE, HEAP_PAGES, p);
      assert vmm.Now() == ReservePage(s, p);
      r := vmm.DoMapPage(v, p, ACPI_FLAGS);
      if r.Returned? {
        MapPageSound(ReservePage(s, p), vmm.dir, heap / PAGE_SIZE, HEAP_PAGES, v, p, ACPI_FLAGS);
        MapPageMeans(ReservePage(s, p), vmm.dir, v, p, ACPI_FLAGS, v);
        var mapped := vmm.IsPageMapped(v);
        assert mapped;
      }
    }

    method MapLoop(start: Word, physicalPage: Word, mappingSize: Word, ghost heap: Word) returns (r: Outcome<()>)
      requires vmm.Valid() && Sound(vmm.Now(), vmm.dir, heap / PAGE_SIZE, HEAP_PAGES)
      requires ACPI_BASE <= start && start + mappingSize <= ACPI_LIMIT && physicalPage + mappingSize <= TWO_32
      requires mappingSize % PAGE_SIZE == 0
      modifies vmm.memory, vmm.pmm.bitmap
      ensures r.Returned? ==> vmm.Valid()
      ensures MapPages(old(vmm.Now()), vmm.dir, start, physicalPage, mappingSize / PAGE_SIZE, ACPI_FLAGS, true)
        == if r.Panicked? then Panicked else Returned((vmm.Now(), true))
    {
      hide Sound;
      hide MapPages;
      hide MapOne;
      hide Paging.Valid;
      hide Pmm.Valid;
      ghost var s := vmm.Now();
      var offset := 0;
      ghost var n := 0;
      MapNoPages(s, vmm.dir, start, physicalPage, ACPI_FLAGS, true);
      while offset < mappingSize
        invariant offset == n * PAGE_SIZE <= mappingSize && n <= mappingSize / PAGE_SIZE
        invariant vmm.Valid()
        invariant MapPages(s, vmm.dir, start, physicalPage, n, ACPI_FLAGS, true) == Returned((vmm.Now(), true))
        decreases mappingSize - offset
      {
        MapPagesSound(s, vmm.dir, heap / PAGE_SIZE, HEAP_PAGES, start, physicalPage, n, ACPI_FLAGS, true);
        MapPagesStep(s, vmm.dir, start, physicalPage, n, ACPI_FLAGS, true);
        var page := AcpiPage(start + offset, physicalPage + offset, heap);
        if page.Panicked? {
          PanicPersists(s, vmm.dir, start, physicalPage, n + 1, mappingSize / PAGE_SIZE, ACPI_FLAGS, true);
          return Panicked;
        }
        offset := offset + PAGE_SIZE;
        n := n + 1;
      }
      return Returned(());
    }

    /** acpi_map_range. */
    method DoAcpiMapRange(phys: Word, len: Word, ghost heap: Word) returns (r: Outcome<Word>)
      requires Valid(heap)
      modifies this`acpiNext, this`windows, vmm.memory, vmm.pmm.bitmap
      ensures r.Panicked? <==> AcpiMapRange(old(Now()), vmm.dir, phys, len).Panicked?
      ensures r.Returned? ==> AcpiMapRange(old(Now()), vmm.dir, phys, len) == Returned((Now(), r.value))
      ensures r.Returned? ==> Valid(heap)
    {
      hide Sound;
      hide MapPages;
      if phys == 0 || len == 0 || phys + len > MAX_PHYSICAL_BYTES {
        return Returned(0);
      }
      var mappingSize := (phys % PAGE_SIZE + len + PAGE_MASK) / PAGE_SIZE * PAGE_SIZE;
      var virtualEnd := acpiNext + mappingSize;
      if virtualEnd > ACPI_LIMIT {
        return Returned(0);
      }
      RangeFits(phys, len);
      var start := acpiNext;
      var mapped := MapLoop(start, PageOf(phys), mappingSize, heap);
      if mapped.Panicked? {
        return Panicked;
      }
      AcpiMapRangeMeans(old(Now()), vmm.dir, heap, phys, len);
      acpiNext := virtualEnd;
      windows := windows + [Window(start + phys % PAGE_SIZE, phys, len)];
      return Returned(start + phys % PAGE_SIZE);
    }

    /** A word stored in the heap by the owner of a block. */
    method StoreInHeap(v: Word, x: Word, ghost heap: Word)
      requires Valid(heap) && HeapWord(v)
      modifies vmm.memory
      ensures Now() == HeapStored(old(Now()), vmm.dir, heap, v, x) && Valid(heap)
    {
      HeapStoreGood(Now(), vmm.dir, heap, v, x);
      ghost var a := HeapTarget(Now(), vmm.dir, heap, v);
      ghost var k := HeapStored(Now(), vmm.dir, heap, v, x);
      SoundIsValid(k.s, vmm.dir, heap / PAGE_SIZE, HEAP_PAGES);
      HeapStoredIs(Now(), vmm.dir, heap, v, x, a);
      hide Good;
      hide Paging.Valid;
      hide HeapStored;
      hide Translate;
      vmm.Store(v, x, FrameOf(a), a % PAGE_SIZE / 4);
    }

    /** vmm_init up to pmm_init: both directory entries are written through the kernel's 4 MiB pages. */
    method ActivateDirectory()
      requires vmm.memory.Length == FRAMES && vmm.dir * PAGE_SIZE < BOOTSTRAP_MAPPED_BYTES
      requires vmm.memory[vmm.dir] == BootDirectory()
      modifies vmm.memory
      ensures vmm.memory[..] == old(vmm.memory[..])[vmm.dir := Activated(BootDirectory(), vmm.dir)]
    {
      hide Translate;
      var base := KERNEL_VIRTUAL_OFFSET + vmm.dir * PAGE_SIZE;
      BootMapped(vmm.memory[..], vmm.dir, vmm.dir * PAGE_SIZE);
      vmm.Store(base, 0, vmm.dir, 0);
      BootMapped(vmm.memory[..], vmm.dir, vmm.dir * PAGE_SIZE + SELF * 4);
      vmm.Store(base + SELF * 4, vmm.dir * PAGE_SIZE + 3, vmm.dir, SELF);
    }

    /** mem_init's loop: the heap's pages, in order. */
    method MapHeap(heap: Word) returns (r: Outcome<()>)
      requires vmm.Valid() && heap % PAGE_SIZE == 0 && heap + HEAP_SIZE <= TWO_32
      requires Sound(vmm.Now(), vmm.dir, heap / PAGE_SIZE, HEAP_PAGES)
      modifies vmm.memory, vmm.pmm.bitmap
      ensures r.Returned? ==> vmm.Valid()
      ensures MapPages(old(vmm.Now()), vmm.dir, HEAP_BASE, heap, HEAP_PAGES, HEAP_FLAGS, false)
        == if r.Panicked? then Panicked else Returned((vmm.Now(), true))
    {
      hide Sound;
      hide MapPages;
      hide MapPage;
      hide Paging.Valid;
      hide Pmm.Valid;
      ghost var s := vmm.Now();
      var offset := 0;
      ghost var n := 0;
      MapNoPages(s, vmm.dir, HEAP_BASE, heap, HEAP_FLAGS, false);
      while offset < HEAP_SIZE
        invariant offset == n * PAGE_SIZE && n <= HEAP_PAGES
        invariant vmm.Valid()
        invariant MapPages(s, vmm.dir, HEAP_BASE, heap, n, HEAP_FLAGS, false) == Returned((vmm.Now(), true))
        decreases HEAP_SIZE - offset
      {
        MapPagesSound(s, vmm.dir, heap / PAGE_SIZE, HEAP_PAGES, HEAP_BASE, heap, n, HEAP_FLAGS, false);
        MapPagesStep(s, vmm.dir, HEAP_BASE, heap, n, HEAP_FLAGS, false);
        ghost var s1 := vmm.Now();
        var page := vmm.DoMapPage(HEAP_BASE + offset, heap + offset, HEAP_FLAGS);
        if page.Panicked? {
          PanicPersists(s, vmm.dir, HEAP_BASE, heap, n + 1, HEAP_PAGES, HEAP_FLAGS, false);
          return Panicked;
        }
        MapPageSound(s1, vmm.dir, heap / PAGE_SIZE, HEAP_PAGES, HEAP_BASE + offset, heap + offset, HEAP_FLAGS);
        assert page.value;
        offset := offset + PAGE_SIZE;
        n := n + 1;
      }
      return Returned(());
    }

    /** mem_init up to the heap's frames. */
    method PrepareFrames(addr: Word, raw: seq<Byte>, mmap: seq<Byte>, table: seq<Byte>, allocStart: Word)
      returns (r: Outcome<Word>)
      requires |raw| == SIZEOF_INFO
      requires vmm.memory.Length == FRAMES && vmm.pmm.bitmap.Length == BITMAP_BYTES
      requires vmm.dir * PAGE_SIZE < BOOTSTRAP_MAPPED_BYTES && vmm.memory[vmm.dir] == BootDirectory()
      requires (vmm.dir + 1) * PAGE_SIZE <= allocStart
      requires |mmap| == InfoAt(addr, raw).mmapLen && |table| == SIZEOF_MODULE * InfoAt(addr, raw).modsCount
      modifies vmm.memory, vmm.pmm`totalFrames, vmm.pmm.bitmap
      ensures match InitialFrames(InfoAt(addr, raw), mmap, Modules(table), allocStart)
        case Panicked => r == Panicked
        case Returned((total, used)) =>
          match FirstRun(used, total, HEAP_PAGES, 1, 1)
          case None => r == Panicked
          case Some(first) =>
            && r == Returned(first * PAGE_SIZE) && first + HEAP_PAGES <= FRAMES
            && vmm.Now() == State(old(vmm.memory[..])[vmm.dir := Activated(BootDirectory(), vmm.dir)],
                                  MarkRun(used, first, HEAP_PAGES), total)
      ensures r.Returned? ==> vmm.Valid() && Sound(vmm.Now(), vmm.dir, r.value / PAGE_SIZE, HEAP_PAGES)
    {
      hide InitialFrames;
      hide InfoAt;
      hide Modules;
      hide MarkRun;
      hide Activated;
      hide Fits;
      hide Pmm.Valid;
      ghost var mem0 := vmm.memory[..];
      ActivateDirectory();
      var frames := vmm.pmm.Init(addr, raw, mmap, table, allocStart);
      if frames.Panicked? {
        return Panicked;
      }
      var heapPhys := vmm.pmm.AllocContiguous(HEAP_SIZE, PAGE_SIZE);
      if heapPhys == 0 {
        return Panicked;
      }
      BootSound(mem0, vmm.dir, InfoAt(addr, raw), mmap, Modules(table), allocStart, heapPhys / PAGE_SIZE);
      SoundIsValid(vmm.Now(), vmm.dir, heapPhys / PAGE_SIZE, HEAP_PAGES);
      hide Sound;
      hide Paging.Valid;
      return Returned(heapPhys);
    }

    /** mem_init up to heap_init. */
    method BootMemory(addr: Word, raw: seq<Byte>, mmap: seq<Byte>, table: seq<Byte>, allocStart: Word)
      returns (r: Outcome<Word>)
      requires |raw| == SIZEOF_INFO
      requires vmm.memory.Length == FRAMES && vmm.pmm.bitmap.Length == BITMAP_BYTES
      requires vmm.dir * PAGE_SIZE < BOOTSTRAP_MAPPED_BYTES && vmm.memory[vmm.dir] == BootDirectory()
      requires (vmm.dir + 1) * PAGE_SIZE <= allocStart
      requires |mmap| == InfoAt(addr, raw).mmapLen && |table| == SIZEOF_MODULE * InfoAt(addr, raw).modsCount
      requires acpiNext == ACPI_BASE && windows == []
      modifies vmm.memory, vmm.pmm`totalFrames, vmm.pmm.bitmap
      ensures var info, mods := InfoAt(addr, raw), Modules(table);
        MemInit(old(vmm.memory[..]), vmm.dir, info, mmap, mods, allocStart)
          == if r.Panicked? then Panicked else Returned((vmm.Now(), r.value))
      ensures r.Returned? ==> Valid(r.value)
    {
      hide InitialFrames;
      hide InfoAt;
      hide Modules;
      hide Sound;
      hide MapPages;
      hide Paging.Valid;
      hide Pmm.Valid;
      ghost var mem0 := vmm.memory[..];
      var heapPhys := PrepareFrames(addr, raw, mmap, table, allocStart);
      if heapPhys.Panicked? {
        return Panicked;
      }
      r := heapPhys;
      var mapped := MapHeap(r.value);
      if mapped.Panicked? {
        return Panicked;
      }
      MemInitGood(mem0, vmm.dir, InfoAt(addr, raw), mmap, Modules(table), allocStart);
      hide Good;
    }

    /** heap_init on the heap window. */
    static method InitHeap(heap: KernelHeap.Allocator)
      requires heap.Valid()
      modifies heap, heap.memory
      ensures heap.Valid() && heap.heapStart == HEAP_BASE
      ensures heap.segs == Heap.Fresh(HEAP_BASE, HEAP_SIZE - Heap.HEADER)
    {
      hide KernelHeap.Allocator.Valid;
      var _ := heap.Init(HEAP_BASE, HEAP_SIZE);
    }

    /**
     mem_init: panics exactly when KernelBoot.MemInit does, and otherwise leaves the good address
     space described there with one free heap segment over the whole heap window.
     */
    method Boot(addr: Word, raw: seq<Byte>, mmap: seq<Byte>, table: seq<Byte>, allocStart: Word,
                heap: KernelHeap.Allocator)
      returns (r: Outcome<Word>)
      requires |raw| == SIZEOF_INFO
      requires vmm.memory.Length == FRAMES && vmm.pmm.bitmap.Length == BITMAP_BYTES
      requires vmm.dir * PAGE_SIZE < BOOTSTRAP_MAPPED_BYTES && vmm.memory[vmm.dir] == BootDirectory()
      requires (vmm.dir + 1) * PAGE_SIZE <= allocStart
      requires |mmap| == InfoAt(addr, raw).mmapLen && |table| == SIZEOF_MODULE * InfoAt(addr, raw).modsCount
      requires heap.Valid() && acpiNext == ACPI_BASE && windows == []
      modifies vmm.memory, vmm.pmm`totalFrames, vmm.pmm.bitmap, heap, heap.memory
      ensures var info, mods := InfoAt(addr, raw), Modules(table);
        MemInit(old(vmm.memory[..]), vmm.dir, info, mmap, mods, allocStart)
          == if r.Panicked? then Panicked else Returned((vmm.Now(), r.value))
      ensures r.Returned? ==> Valid(r.value)
      ensures r.Returned? ==> heap.Valid() && heap.heapStart == HEAP_BASE
      ensures r.Returned? ==> heap.segs == Heap.Fresh(HEAP_BASE, HEAP_SIZE - Heap.HEADER)
    {
      assert InfoAt(addr, raw).addr == addr;
      assert heap.memory.Length != vmm.pmm.bitmap.Length;
      hide MemInit;
      hide InfoAt;
      hide Modules;
      hide Good;
      hide Paging.Valid;
      hide Pmm.Valid;
      hide KernelHeap.Allocator.Valid;
      if addr == 0 {
        NullInfo(vmm.memory[..], vmm.dir, InfoAt(addr, raw), mmap, Modules(table), allocStart);
        return Panicked;
      }
      assert heap.memory as object != vmm.memory && heap.memory as object != vmm.pmm.bitmap;
      r := BootMemory(addr, raw, mmap, table, allocStart);
      if r.Returned? {
        InitHeap(heap);
      }
    }
  }
}
