/**
 What the kernel's address space looks like after mem_init and any number of acpi_map_range calls:
 where the heap window and the ACPI windows lead, and that the heap never holds a page table.
 */
module AddressSpace {
  import opened Words
  import opened Frames
  import opened Paging

  const HEAP_BASE := 0xE000_0000
  const HEAP_SIZE := 0x40_0000
  const HEAP_PAGES := 1024
  const ACPI_BASE := 0xD000_0000
  const ACPI_LIMIT := 0xE000_0000
  const ACPI_DIR := 832
  const HEAP_DIR := 896
  /** PTE_RW, and PTE_RW | PTE_PWT. */
  const HEAP_FLAGS := 2
  const ACPI_FLAGS := 10

  // ---------- Mapping a run of pages ----------

  function ReservePage(s: State, p: Word): State {
    s.(used := ReservePhys(s.used, s.total, p, PAGE_SIZE))
  }

  lemma ReservePageGuarded(s: State, p: Word)
    requires Guarded(s.used, s.total)
    ensures Guarded(ReservePage(s, p).used, s.total)
    ensures forall f :: 0 <= f < FRAMES && s.used[f] ==> ReservePage(s, p).used[f]
  {
    forall f | 0 <= f < FRAMES && s.used[f] ensures ReservePage(s, p).used[f] {
      ReservePhysMeans(s.used, s.total, p, PAGE_SIZE, f);
    }
    ReservePhysMeans(s.used, s.total, p, PAGE_SIZE, 0);
  }

  /** Maps one page, after reserving its frame if asked to. */
  function MapOne(s: State, dir: nat, v: Word, p: Word, flags: Word, reserve: bool): (r: Outcome<(State, bool)>)
    requires |s.mem| == FRAMES && dir < FRAMES && Guarded(s.used, s.total)
    ensures r.Returned? ==> |r.value.0.mem| == FRAMES && Guarded(r.value.0.used, r.value.0.total)
  {
    ReservePageGuarded(s, p);
    MapPage(if reserve then ReservePage(s, p) else s, dir, v, p, flags)
  }

  /** n pages from v to n frames from p, one after the other. */
  function MapPages(s: State, dir: nat, v: nat, p: nat, n: nat, flags: Word, reserve: bool): (r: Outcome<(State, bool)>)
    requires |s.mem| == FRAMES && dir < FRAMES && Guarded(s.used, s.total)
    requires v + n * PAGE_SIZE <= RECURSIVE_BASE && p + n * PAGE_SIZE <= TWO_32
    ensures r.Returned? ==> |r.value.0.mem| == FRAMES && Guarded(r.value.0.used, r.value.0.total)
  {
    if n == 0 then Returned((s, true))
    else
      match MapPages(s, dir, v, p, n - 1, flags, reserve)
      case Panicked => Panicked
      case Returned((s1, ok)) =>
        if ok then MapOne(s1, dir, v + (n - 1) * PAGE_SIZE, p + (n - 1) * PAGE_SIZE, flags, reserve)
        else Returned((s1, false))
  }

  /** No 4 MiB page covers the ACPI and heap windows. */
  ghost predicate NoLarge(d: Paging.Frame) {
    forall i :: ACPI_DIR <= i <= HEAP_DIR ==> !(Present(d[i]) && Large(d[i]))
  }

  /** Frames set aside for the heap are allocated and are neither the directory nor a page table. */
  ghost predicate Isolated(s: State, dir: nat, first: nat, pages: nat)
    requires |s.mem| == FRAMES && dir < FRAMES && |s.used| == FRAMES
  {
    && first + pages <= FRAMES
    && (forall f :: first <= f < first + pages ==> s.used[f] && f != dir)
    && (forall i :: 0 <= i < SELF && IsTable(s.mem[dir][i]) ==>
          !(first <= FrameOf(s.mem[dir][i]) < first + pages))
  }

  /** The invariant of every run; first and pages are the heap's frames. */
  ghost predicate Sound(s: State, dir: nat, first: nat, pages: nat)
    ensures Sound(s, dir, first, pages) ==> |s.mem| == FRAMES && dir < FRAMES && Guarded(s.used, s.total)
  {
    Valid(s, dir) && NoLarge(s.mem[dir]) && Isolated(s, dir, first, pages)
  }

  lemma SoundIsValid(s: State, dir: nat, first: nat, pages: nat)
    requires Sound(s, dir, first, pages)
    ensures Valid(s, dir)
  {
  }

  lemma ReserveSound(s: State, dir: nat, first: nat, pages: nat, p: Word)
    requires Sound(s, dir, first, pages)
    ensures Sound(ReservePage(s, p), dir, first, pages)
  {
    ReservePageGuarded(s, p);
  }

  lemma MapPageSound(s: State, dir: nat, first: nat, pages: nat, v: Word, p: Word, flags: Word)
    requires Sound(s, dir, first, pages) && ACPI_BASE <= v < HEAP_BASE + HEAP_SIZE
    requires MapPage(s, dir, v, p, flags).Returned?
    ensures var (s', ok) := MapPage(s, dir, v, p, flags).value;
      ok && Sound(s', dir, first, pages) && s'.total == s.total
  {
    MapPageValid(s, dir, v, p, flags);
    var e := Pde(s.mem, dir, v);
    if IsTable(e) {
      ExistingTable(s, dir, v, p, flags, v);
    } else if !Present(e) {
      var f := AllocFrame(s.used, s.total).value.0;
      FreshTable(s, dir, v, f, p, flags, v);
      NewEntries(f, p, flags);
    }
  }

  /** Where w leads once n pages from v lead to the frames from p. */
  ghost function Mapped(mem: seq<Paging.Frame>, dir: nat, v: nat, p: nat, n: nat, w: Word): Option<int>
    requires |mem| == FRAMES && dir < FRAMES
  {
    if v <= w < v + n * PAGE_SIZE then Some(p + (w - v)) else Translate(mem, dir, w)
  }

  lemma PageInterval(v: Word, p: Word, w: Word)
    requires v % PAGE_SIZE == 0 && p % PAGE_SIZE == 0
    ensures PageOf(w) == PageOf(v) <==> v <= w < v + PAGE_SIZE
    ensures PageOf(w) == PageOf(v) ==> PageOf(p) + w % PAGE_SIZE == p + (w - v)
  {
  }

  lemma AlignedStep(v: int, n: int)
    requires v % PAGE_SIZE == 0
    ensures (v + n * PAGE_SIZE) % PAGE_SIZE == 0
  {
  }

  lemma MapOneSound(s: State, dir: nat, first: nat, pages: nat, v: Word, p: Word, flags: Word, reserve: bool)
    requires Sound(s, dir, first, pages) && ACPI_BASE <= v < HEAP_BASE + HEAP_SIZE
    requires MapOne(s, dir, v, p, flags, reserve).Returned?
    ensures var (s', ok) := MapOne(s, dir, v, p, flags, reserve).value;
      ok && Sound(s', dir, first, pages) && s'.total == s.total
  {
    ReserveSound(s, dir, first, pages, p);
    MapPageSound(if reserve then ReservePage(s, p) else s, dir, first, pages, v, p, flags);
  }

  /** One page of the run. */
  lemma MapOneMeans(s: State, dir: nat, first: nat, pages: nat, v: Word, p: Word, flags: Word, reserve: bool, w: Word)
    requires Sound(s, dir, first, pages)
    requires v % PAGE_SIZE == 0 && p % PAGE_SIZE == 0 && w < RECURSIVE_BASE
    requires ACPI_BASE <= v < HEAP_BASE + HEAP_SIZE
    requires MapOne(s, dir, v, p, flags, reserve).Returned?
    ensures Translate(MapOne(s, dir, v, p, flags, reserve).value.0.mem, dir, w)
      == if v <= w < v + PAGE_SIZE then Some(p + (w - v)) else Translate(s.mem, dir, w)
  {
    ReserveSound(s, dir, first, pages, p);
    var s2 := if reserve then ReservePage(s, p) else s;
    MapPageSound(s2, dir, first, pages, v, p, flags);
    MapPageMeans(s2, dir, v, p, flags, w);
    PageInterval(v, p, w);
  }

  lemma {:induction false} MapPagesSound(s: State, dir: nat, first: nat, pages: nat,
                                         v: nat, p: nat, n: nat, flags: Word, reserve: bool)
    requires Sound(s, dir, first, pages)
    requires ACPI_BASE <= v && v + n * PAGE_SIZE <= HEAP_BASE + HEAP_SIZE && p + n * PAGE_SIZE <= TWO_32
    requires MapPages(s, dir, v, p, n, flags, reserve).Returned?
    ensures var (s', ok) := MapPages(s, dir, v, p, n, flags, reserve).value;
      ok && Sound(s', dir, first, pages) && s'.total == s.total
  {
    hide Sound;
    hide MapOne;
    if n > 0 {
      MapPagesSound(s, dir, first, pages, v, p, n - 1, flags, reserve);
      var s1 := MapPages(s, dir, v, p, n - 1, flags, reserve).value.0;
      MapOneSound(s1, dir, first, pages, v + (n - 1) * PAGE_SIZE, p + (n - 1) * PAGE_SIZE, flags, reserve);
    }
  }

  lemma {:induction false} MapPagesMeans(s: State, dir: nat, first: nat, pages: nat,
                                         v: nat, p: nat, n: nat, flags: Word, reserve: bool, w: Word)
    requires Sound(s, dir, first, pages)
    requires v % PAGE_SIZE == 0 && p % PAGE_SIZE == 0 && w < RECURSIVE_BASE
    requires ACPI_BASE <= v && v + n * PAGE_SIZE <= HEAP_BASE + HEAP_SIZE && p + n * PAGE_SIZE <= TWO_32
    requires MapPages(s, dir, v, p, n, flags, reserve).Returned?
    ensures Translate(MapPages(s, dir, v, p, n, flags, reserve).value.0.mem, dir, w) == Mapped(s.mem, dir, v, p, n, w)
  {
    hide Sound;
    hide MapOne;
    if n > 0 {
      MapPagesSound(s, dir, first, pages, v, p, n - 1, flags, reserve);
      MapPagesMeans(s, dir, first, pages, v, p, n - 1, flags, reserve, w);
      AlignedStep(v, n - 1);
      AlignedStep(p, n - 1);
      var s1 := MapPages(s, dir, v, p, n - 1, flags, reserve).value.0;
      MapOneMeans(s1, dir, first, pages, v + (n - 1) * PAGE_SIZE, p + (n - 1) * PAGE_SIZE, flags, reserve, w);
    }
  }

  // ---------- Windows and runs ----------

  /** Bytes virt .. virt + len lead to physical bytes phys .. phys + len. */
  datatype Window = Window(virt: Word, phys: Word, len: Word)

  ghost predicate LeadsTo(mem: seq<Paging.Frame>, dir: nat, x: Window)
    requires |mem| == FRAMES && dir < FRAMES
  {
    && x.virt + x.len <= RECURSIVE_BASE
    && forall w: Word :: x.virt <= w < x.virt + x.len ==> Translate(mem, dir, w) == Some(x.phys + (w - x.virt))
  }

  /** The kernel after boot: the address space, the bump pointer, and the windows handed out so far. */
  datatype Kernel = Kernel(s: State, next: Word, windows: seq<Window>)

  function MappingSize(phys: Word, len: Word): (n: nat)
    ensures n % PAGE_SIZE == 0 && phys % PAGE_SIZE + len <= n
  {
    (phys % PAGE_SIZE + len + PAGE_MASK) / PAGE_SIZE * PAGE_SIZE
  }

  /** The requests acpi_map_range turns down: null, empty, past 4 GiB, or more than the window has left. */
  predicate TurnedDown(next: Word, phys: Word, len: Word) {
    phys == 0 || len == 0 || phys + len > MAX_PHYSICAL_BYTES || next + MappingSize(phys, len) > ACPI_LIMIT
  }

  lemma RangeFits(phys: Word, len: Word)
    requires phys + len <= MAX_PHYSICAL_BYTES
    ensures PageOf(phys) + MappingSize(phys, len) <= TWO_32
  {
  }

  /** acpi_map_range: the new kernel and the returned address, 0 when the request is turned down. */
  function AcpiMapRange(k: Kernel, dir: nat, phys: Word, len: Word): Outcome<(Kernel, Word)>
    requires |k.s.mem| == FRAMES && dir < FRAMES && Guarded(k.s.used, k.s.total)
    requires k.next % PAGE_SIZE == 0
  {
    if TurnedDown(k.next, phys, len) then Returned((k, 0))
    else
      RangeFits(phys, len);
      var n := MappingSize(phys, len) / PAGE_SIZE;
      match MapPages(k.s, dir, k.next, PageOf(phys), n, ACPI_FLAGS, true)
      case Panicked => Panicked
      case Returned((s, ok)) =>
        if !ok then Returned((k.(s := s), 0))
        else
          var virt := k.next + phys % PAGE_SIZE;
          Returned((Kernel(s, k.next + n * PAGE_SIZE, k.windows + [Window(virt, phys, len)]), virt))
  }

  ghost predicate Good(k: Kernel, dir: nat, heap: Word) {
    && heap % PAGE_SIZE == 0
    && Sound(k.s, dir, heap / PAGE_SIZE, HEAP_PAGES)
    && k.next % PAGE_SIZE == 0 && ACPI_BASE <= k.next <= ACPI_LIMIT
    && LeadsTo(k.s.mem, dir, Window(HEAP_BASE, heap, HEAP_SIZE))
    && (forall i :: 0 <= i < |k.windows| ==>
          && ACPI_BASE <= k.windows[i].virt && k.windows[i].virt + k.windows[i].len <= k.next
          && LeadsTo(k.s.mem, dir, k.windows[i]))
    && (forall i, j :: 0 <= i < j < |k.windows| ==>
          k.windows[i].virt + k.windows[i].len <= k.windows[j].virt)
  }

  /** Windows below the mapped pages, or above them, keep their translation. */
  lemma WindowKept(s: State, dir: nat, first: nat, v: nat, p: nat, n: nat, x: Window)
    requires Sound(s, dir, first, HEAP_PAGES)
    requires v % PAGE_SIZE == 0 && p % PAGE_SIZE == 0
    requires ACPI_BASE <= v && v + n * PAGE_SIZE <= HEAP_BASE + HEAP_SIZE && p + n * PAGE_SIZE <= TWO_32
    requires MapPages(s, dir, v, p, n, ACPI_FLAGS, true).Returned?
    requires LeadsTo(s.mem, dir, x)
    requires x.virt + x.len <= v || v + n * PAGE_SIZE <= x.virt
    ensures LeadsTo(MapPages(s, dir, v, p, n, ACPI_FLAGS, true).value.0.mem, dir, x)
  {
    hide Sound;
    hide Translate;
    hide MapPages;
    var mem := MapPages(s, dir, v, p, n, ACPI_FLAGS, true).value.0.mem;
    forall w: Word | x.virt <= w < x.virt + x.len ensures Translate(mem, dir, w) == Some(x.phys + (w - x.virt)) {
      MapPagesMeans(s, dir, first, HEAP_PAGES, v, p, n, ACPI_FLAGS, true, w);
    }
  }

  /** The new window leads to the requested bytes. */
  lemma WindowMade(s: State, dir: nat, first: nat, v: Word, phys: Word, len: Word)
    requires Sound(s, dir, first, HEAP_PAGES)
    requires v % PAGE_SIZE == 0 && ACPI_BASE <= v && !TurnedDown(v, phys, len)
    requires PageOf(phys) + MappingSize(phys, len) <= TWO_32
    requires MapPages(s, dir, v, PageOf(phys), MappingSize(phys, len) / PAGE_SIZE, ACPI_FLAGS, true).Returned?
    ensures LeadsTo(MapPages(s, dir, v, PageOf(phys), MappingSize(phys, len) / PAGE_SIZE, ACPI_FLAGS, true).value.0.mem,
                    dir, Window(v + phys % PAGE_SIZE, phys, len))
  {
    hide Sound;
    hide Translate;
    hide MapPages;
    var n := MappingSize(phys, len) / PAGE_SIZE;
    var mem := MapPages(s, dir, v, PageOf(phys), n, ACPI_FLAGS, true).value.0.mem;
    var x := Window(v + phys % PAGE_SIZE, phys, len);
    forall w: Word | x.virt <= w < x.virt + x.len ensures Translate(mem, dir, w) == Some(x.phys + (w - x.virt)) {
      MapPagesMeans(s, dir, first, HEAP_PAGES, v, PageOf(phys), n, ACPI_FLAGS, true, w);
    }
  }

  lemma GrantedGood(k: Kernel, dir: nat, heap: Word, phys: Word, len: Word, n: nat)
    requires Good(k, dir, heap) && !TurnedDown(k.next, phys, len)
    requires n == MappingSize(phys, len) / PAGE_SIZE && PageOf(phys) + n * PAGE_SIZE <= TWO_32
    requires MapPages(k.s, dir, k.next, PageOf(phys), n, ACPI_FLAGS, true).Returned?
    requires var s := MapPages(k.s, dir, k.next, PageOf(phys), n, ACPI_FLAGS, true).value.0;
      Sound(s, dir, heap / PAGE_SIZE, HEAP_PAGES)
    ensures var s := MapPages(k.s, dir, k.next, PageOf(phys), n, ACPI_FLAGS, true).value.0;
      Good(Kernel(s, k.next + n * PAGE_SIZE, k.windows + [Window(k.next + phys % PAGE_SIZE, phys, len)]), dir, heap)
  {
    hide Sound;
    hide MapPages;
    hide LeadsTo;
    var first := heap / PAGE_SIZE;
    WindowMade(k.s, dir, first, k.next, phys, len);
    WindowKept(k.s, dir, first, k.next, PageOf(phys), n, Window(HEAP_BASE, heap, HEAP_SIZE));
    forall i | 0 <= i < |k.windows|
      ensures LeadsTo(MapPages(k.s, dir, k.next, PageOf(phys), n, ACPI_FLAGS, true).value.0.mem, dir, k.windows[i])
    {
      WindowKept(k.s, dir, first, k.next, PageOf(phys), n, k.windows[i]);
    }
  }

  /**
   One request: the invariant survives, the answer is null exactly when the request is turned down,
   and a request that is granted gets a window to its bytes, above all earlier windows.
   */
  lemma AcpiMapRangeMeans(k: Kernel, dir: nat, heap: Word, phys: Word, len: Word)
    requires Good(k, dir, heap)
    requires AcpiMapRange(k, dir, phys, len).Returned?
    ensures var (k', virt) := AcpiMapRange(k, dir, phys, len).value;
      && Good(k', dir, heap)
      && (virt == 0 <==> TurnedDown(k.next, phys, len))
      && (virt == 0 ==> k' == k)
      && (virt != 0 ==> k'.windows == k.windows + [Window(virt, phys, len)])
  {
    hide Sound;
    hide MapPages;
    hide LeadsTo;
    if !TurnedDown(k.next, phys, len) {
      RangeFits(phys, len);
      var n := MappingSize(phys, len) / PAGE_SIZE;
      MapPagesSound(k.s, dir, heap / PAGE_SIZE, HEAP_PAGES, k.next, PageOf(phys), n, ACPI_FLAGS, true);
      GrantedGood(k, dir, heap, phys, len, n);
    }
  }

  // ---------- Stores into the heap ----------

  lemma HeapFrame(heap: Word, k: nat)
    requires heap % PAGE_SIZE == 0 && k < HEAP_SIZE && heap + k < TWO_32
    ensures heap / PAGE_SIZE <= FrameOf(heap + k) < heap / PAGE_SIZE + HEAP_PAGES
  {
  }

  lemma MultipleOfFour(heap: int, k: int)
    requires heap % PAGE_SIZE == 0 && k % 4 == 0
    ensures (heap + k) % 4 == 0
  {
    assert heap == heap / PAGE_SIZE * 1024 * 4 && k == k / 4 * 4;
  }

  lemma WordInPage(a: Word)
    requires a % 4 == 0
    ensures a == a / PAGE_SIZE * PAGE_SIZE + a % PAGE_SIZE / 4 * 4
  {
    var f, x := a / PAGE_SIZE, a % PAGE_SIZE;
    assert a == f * 1024 * 4 + x;
    assert x % 4 == 0;
  }

  /** Heap words lie on word boundaries of physical memory. */
  lemma HeapWordAt(heap: Word, k: nat)
    requires heap % PAGE_SIZE == 0 && k < HEAP_SIZE && k % 4 == 0 && heap + k < TWO_32
    ensures heap + k == FrameOf(heap + k) * PAGE_SIZE + (heap + k) % PAGE_SIZE / 4 * 4
  {
    MultipleOfFour(heap, k);
    WordInPage(heap + k);
  }

  /** Anything stored in the heap's frames leaves every translation alone. */
  lemma HeapStoresAreHarmless(k: Kernel, dir: nat, heap: Word, v: Word, i: nat, x: Word, w: Word)
    requires Good(k, dir, heap)
    requires HEAP_BASE <= v < HEAP_BASE + HEAP_SIZE && i < ENTRIES && w < RECURSIVE_BASE
    ensures Translate(k.s.mem, dir, v).Some?
    ensures var f := FrameOf(Translate(k.s.mem, dir, v).value);
      Translate(Write(k.s.mem, f, i, x), dir, w) == Translate(k.s.mem, dir, w)
  {
    assert LeadsTo(k.s.mem, dir, Window(HEAP_BASE, heap, HEAP_SIZE));
    assert Translate(k.s.mem, dir, v) == Some(heap + (v - HEAP_BASE));
    HeapFrame(heap, v - HEAP_BASE);
  }

  predicate HeapWord(v: Word) {
    HEAP_BASE <= v < HEAP_BASE + HEAP_SIZE && v % 4 == 0
  }

  /** A word stored at heap address v, wherever v leads. */
  ghost function HeapStored(k: Kernel, dir: nat, heap: Word, v: Word, x: Word): Kernel
    requires Good(k, dir, heap) && HeapWord(v)
  {
    HeapStoresAreHarmless(k, dir, heap, v, 0, x, v);
    var a := Translate(k.s.mem, dir, v).value;
    k.(s := k.s.(mem := Write(k.s.mem, FrameOf(a), a % PAGE_SIZE / 4, x)))
  }

  /** Where heap address v leads, as a frame and a word of it. */
  lemma HeapTarget(k: Kernel, dir: nat, heap: Word, v: Word) returns (a: Word)
    requires Good(k, dir, heap) && HeapWord(v)
    ensures Translate(k.s.mem, dir, v) == Some(a) == Some(FrameOf(a) * PAGE_SIZE + a % PAGE_SIZE / 4 * 4)
  {
    assert LeadsTo(k.s.mem, dir, Window(HEAP_BASE, heap, HEAP_SIZE));
    hide Sound;
    hide Translate;
    a := heap + (v - HEAP_BASE);
    hide LeadsTo;
    HeapWordAt(heap, v - HEAP_BASE);
  }

  lemma HeapStoredIs(k: Kernel, dir: nat, heap: Word, v: Word, x: Word, a: Word)
    requires Good(k, dir, heap) && HeapWord(v) && Translate(k.s.mem, dir, v) == Some(a)
    ensures HeapStored(k, dir, heap, v, x) == k.(s := k.s.(mem := Write(k.s.mem, FrameOf(a), a % PAGE_SIZE / 4, x)))
  {
  }

  /** A store into the heap breaks nothing: neither the invariant nor any window. */
  lemma HeapStoreGood(k: Kernel, dir: nat, heap: Word, v: Word, x: Word)
    requires Good(k, dir, heap) && HeapWord(v)
    ensures Good(HeapStored(k, dir, heap, v, x), dir, heap)
  {
    var a := Translate(k.s.mem, dir, v).value;
    var k' := HeapStored(k, dir, heap, v, x);
    assert LeadsTo(k.s.mem, dir, Window(HEAP_BASE, heap, HEAP_SIZE));
    HeapFrame(heap, v - HEAP_BASE);
    assert k'.s.mem[dir] == k.s.mem[dir];
    forall w: Word | w < RECURSIVE_BASE ensures Translate(k'.s.mem, dir, w) == Translate(k.s.mem, dir, w) {
      HeapStoresAreHarmless(k, dir, heap, v, a % PAGE_SIZE / 4, x, w);
    }
  }

  // ---------- Runs ----------

  /** What happens after boot: requests for windows, and stores by the owners of heap blocks. */
  datatype Event = MapRange(phys: Word, len: Word) | HeapStore(v: Word, x: Word)

  predicate Allowed(e: Event) {
    e.HeapStore? ==> HeapWord(e.v)
  }

  ghost function After(k: Kernel, dir: nat, heap: Word, e: Event): (r: Outcome<Kernel>)
    requires Good(k, dir, heap) && Allowed(e)
    ensures r.Returned? ==> Good(r.value, dir, heap) && k.windows <= r.value.windows
  {
    match e
    case HeapStore(v, x) =>
      HeapStoreGood(k, dir, heap, v, x);
      Returned(HeapStored(k, dir, heap, v, x))
    case MapRange(phys, len) =>
      match AcpiMapRange(k, dir, phys, len)
      case Panicked => Panicked
      case Returned((k1, _)) =>
        AcpiMapRangeMeans(k, dir, heap, phys, len);
        Returned(k1)
  }

  ghost function Run(k: Kernel, dir: nat, heap: Word, es: seq<Event>): Outcome<Kernel>
    requires Good(k, dir, heap) && forall e <- es :: Allowed(e)
    decreases |es|
  {
    if es == [] then Returned(k)
    else
      match After(k, dir, heap, es[0])
      case Panicked => Panicked
      case Returned(k1) => Run(k1, dir, heap, es[1..])
  }

  /**
   However many requests and heap stores follow boot, in any order, the windows granted lie inside the
   ACPI area, are disjoint, and lead to the requested bytes; those granted earlier are still there; and
   the heap window still leads to its frames, none of which holds the directory or a page table.
   */
  lemma {:induction false} RunKeepsAddressSpace(k: Kernel, dir: nat, heap: Word, es: seq<Event>)
    requires Good(k, dir, heap) && (forall e <- es :: Allowed(e))
    requires Run(k, dir, heap, es).Returned?
    ensures Good(Run(k, dir, heap, es).value, dir, heap)
    ensures k.windows <= Run(k, dir, heap, es).value.windows
    decreases |es|
  {
    hide Good;
    hide After;
    if es != [] { RunKeepsAddressSpace(After(k, dir, heap, es[0]).value, dir, heap, es[1..]); }
  }
}
