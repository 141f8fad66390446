/**
 What happens to the frames of a requested range: whether one of them comes to hold a page table, and
 whether their contents are still what they were before the request, whatever happens later.
 */
module WindowContents {
  import opened Words
  import opened Frames
  import opened Paging
  import opened AddressSpace
  import opened FrameDemand
  import opened WindowTables

  // ---------- The directory and the tables ----------

  ghost predicate HoldsTable(d: Paging.Frame, i: nat, g: nat) {
    i < SELF && IsTable(d[i]) && FrameOf(d[i]) == g
  }

  /** Frame g holds the directory or a page table. */
  ghost predicate Structural(d: Paging.Frame, dir: nat, g: nat) {
    g == dir || exists i: nat :: HoldsTable(d, i, g)
  }

  ghost predicate InHeap(first: nat, g: nat) {
    first <= g < first + HEAP_PAGES
  }

  /**
   What every step of the kernel does to frame g: once used it stays used, structural frames stay
   structural, only free frames become so, and others keep their contents unless words are stored there.
   */
  ghost predicate Steady(s: State, s': State, dir: nat, stored: bool, g: nat)
    requires |s.mem| == |s'.mem| == |s.used| == |s'.used| == FRAMES && dir < FRAMES && g < FRAMES
  {
    && (s.used[g] ==> s'.used[g])
    && (Structural(s.mem[dir], dir, g) ==> Structural(s'.mem[dir], dir, g))
    && (Structural(s'.mem[dir], dir, g) && s.used[g] ==> Structural(s.mem[dir], dir, g))
    && (!Structural(s'.mem[dir], dir, g) && !stored ==> s'.mem[g] == s.mem[g])
  }

  lemma NewTableStructural(d: Paging.Frame, dir: nat, i: nat, f: nat, flags: Word, g: nat)
    requires i < SELF && f < FRAMES && !IsTable(d[i])
    ensures Structural(d[i := NewPde(f, flags)], dir, g) <==> Structural(d, dir, g) || g == f
  {
    NewEntries(f, 0, flags);
    var d' := d[i := NewPde(f, flags)];
    if j: nat :| HoldsTable(d, j, g) { assert HoldsTable(d', j, g); }
    if j: nat :| HoldsTable(d', j, g) { assert j == i || HoldsTable(d, j, g); }
    assert HoldsTable(d', i, f);
  }

  /** Mapping one page: only its table's frame becomes structural, and only structural frames are written. */
  lemma MapPageSteady(s: State, dir: nat, first: nat, pages: nat, v: Word, p: Word, flags: Word, g: nat)
    requires Sound(s, dir, first, pages) && ACPI_BASE <= v < HEAP_BASE + HEAP_SIZE && g < FRAMES
    requires MapPage(s, dir, v, p, flags).Returned?
    ensures var s' := MapPage(s, dir, v, p, flags).value.0;
      && Steady(s, s', dir, false, g)
      && (Structural(s'.mem[dir], dir, g) <==>
            (Structural(s.mem[dir], dir, g)
              || (!Present(Pde(s.mem, dir, v)) && g == AllocFrame(s.used, s.total).value.0)))
  {
    var e := Pde(s.mem, dir, v);
    assert ACPI_DIR <= DirIndex(v) <= HEAP_DIR;
    if Present(e) {
      ExistingTable(s, dir, v, p, flags, v);
      assert HoldsTable(s.mem[dir], DirIndex(v), FrameOf(e));
    } else {
      var f := AllocFrame(s.used, s.total).value.0;
      FreshTable(s, dir, v, f, p, flags, v);
      NewTableStructural(s.mem[dir], dir, DirIndex(v), f, flags, g);
    }
  }

  /** The same for a page whose own frame is reserved first. */
  lemma MapOneSteady(s: State, dir: nat, first: nat, pages: nat, v: Word, p: Word, flags: Word, g: nat)
    requires Sound(s, dir, first, pages) && ACPI_BASE <= v < HEAP_BASE + HEAP_SIZE && g < FRAMES && p % PAGE_SIZE == 0
    requires MapOne(s, dir, v, p, flags, true).Returned?
    ensures var s' := MapOne(s, dir, v, p, flags, true).value.0;
      && Steady(s, s', dir, false, g)
      && (Structural(s'.mem[dir], dir, g) <==>
            (Structural(s.mem[dir], dir, g)
              || g in OneTaken(s.used, s.total, p / PAGE_SIZE, !Present(Pde(s.mem, dir, v)))))
  {
    ReserveSound(s, dir, first, pages, p);
    ReservePageGuarded(s, p);
    MapPageSteady(ReservePage(s, p), dir, first, pages, v, p, flags, g);
    hide Sound;
    hide Structural;
    hide ReservePhys;
  }

  lemma SteadyWeaker(s: State, s': State, dir: nat, g: nat)
    requires |s.mem| == |s'.mem| == |s.used| == |s'.used| == FRAMES && dir < FRAMES && g < FRAMES
    requires Steady(s, s', dir, false, g)
    ensures forall stored :: Steady(s, s', dir, stored, g)
  {
    hide Structural;
  }

  lemma SteadyTwice(s: State, t: State, u: State, dir: nat, stored: bool, g: nat)
    requires |s.mem| == |t.mem| == |u.mem| == |s.used| == |t.used| == |u.used| == FRAMES && dir < FRAMES && g < FRAMES
    requires Steady(s, t, dir, stored, g) && Steady(t, u, dir, stored, g)
    ensures Steady(s, u, dir, stored, g)
  {
    hide Structural;
  }

  lemma SteadySame(s: State, dir: nat, stored: bool, g: nat)
    requires |s.mem| == |s.used| == FRAMES && dir < FRAMES && g < FRAMES
    ensures Steady(s, s, dir, stored, g)
  {
  }

  /** The frames taken by the tables of n pages, the last page told apart. */
  lemma TakenPages(s: State, dir: nat, first: nat, pages: nat, v: nat, p: nat, n: nat, flags: Word)
    requires Sound(s, dir, first, pages) && p % PAGE_SIZE == 0 && n > 0
    requires ACPI_BASE <= v && v + n * PAGE_SIZE <= HEAP_BASE + HEAP_SIZE && p + n * PAGE_SIZE <= TWO_32
    requires MapPages(s, dir, v, p, n - 1, flags, true).Returned? && MapPages(s, dir, v, p, n, flags, true).Returned?
    ensures var s1, u := MapPages(s, dir, v, p, n - 1, flags, true).value.0, p / PAGE_SIZE;
      Taken(s.used, s.total, u, Needs(s.mem[dir], v, n))
        == Taken(s.used, s.total, u, Needs(s.mem[dir], v, n - 1))
          + OneTaken(s1.used, s1.total, u + n - 1, !Present(Pde(s1.mem, dir, v + (n - 1) * PAGE_SIZE)))
  {
    hide Sound;
    hide MapPages;
    hide Serve;
    hide Taken;
    hide OneTaken;
    hide Present;
    hide NeedsTable;
    hide Passed;
    var d, needs := s.mem[dir], Needs(s.mem[dir], v, n);
    assert needs[..n - 1] == Needs(d, v, n - 1) && needs[n - 1] == NeedsTable(d, v, n - 1);
    MapPagesServe(s, dir, first, pages, v, p, n - 1, flags);
    MapPagesServe(s, dir, first, pages, v, p, n, flags);
    NeedsIff(d, MapPages(s, dir, v, p, n - 1, flags, true).value.0.mem[dir], v, n - 1);
    hide *;
    TakenSnoc(s.used, s.total, p / PAGE_SIZE, needs, n - 1);
  }

  /** Exactly the frames that Taken lists become page tables. */
  lemma {:induction false} MapPagesSteady(s: State, dir: nat, first: nat, pages: nat,
                                          v: nat, p: nat, n: nat, flags: Word, g: nat)
    requires Sound(s, dir, first, pages) && p % PAGE_SIZE == 0 && g < FRAMES
    requires ACPI_BASE <= v && v + n * PAGE_SIZE <= HEAP_BASE + HEAP_SIZE && p + n * PAGE_SIZE <= TWO_32
    requires MapPages(s, dir, v, p, n, flags, true).Returned?
    ensures var s' := MapPages(s, dir, v, p, n, flags, true).value.0;
      && Steady(s, s', dir, false, g)
      && (Structural(s'.mem[dir], dir, g) <==>
            (Structural(s.mem[dir], dir, g) || g in Taken(s.used, s.total, p / PAGE_SIZE, Needs(s.mem[dir], v, n))))
  {
    hide Sound;
    hide MapOne;
    hide Serve;
    hide ServeOne;
    hide OneTaken;
    hide Structural;
    hide Steady;
    if n == 0 {
      SteadySame(s, dir, false, g);
    } else {
      var d, at := s.mem[dir], v + (n - 1) * PAGE_SIZE;
      var s1 := MapPages(s, dir, v, p, n - 1, flags, true).value.0;
      MapPagesSteady(s, dir, first, pages, v, p, n - 1, flags, g);
      MapPagesSound(s, dir, first, pages, v, p, n - 1, flags, true);
      FramesFrom(p, n - 1);
      MapOneSteady(s1, dir, first, pages, at, p + (n - 1) * PAGE_SIZE, flags, g);
      SteadyTwice(s, s1, MapPages(s, dir, v, p, n, flags, true).value.0, dir, false, g);
      TakenPages(s, dir, first, pages, v, p, n, flags);
      hide Taken;
      hide Needs;
      hide Present;
    }
  }

  // ---------- Runs ----------

  lemma HeapStoreSteady(k: Kernel, dir: nat, heap: Word, v: Word, x: Word, g: nat)
    requires Good(k, dir, heap) && HeapWord(v) && g < FRAMES
    ensures Steady(k.s, HeapStored(k, dir, heap, v, x).s, dir, InHeap(heap / PAGE_SIZE, g), g)
  {
    var a := HeapTarget(k, dir, heap, v);
    assert LeadsTo(k.s.mem, dir, Window(HEAP_BASE, heap, HEAP_SIZE));
    HeapFrame(heap, v - HEAP_BASE);
    HeapStoredIs(k, dir, heap, v, x, a);
    hide Structural;
  }

  lemma AcpiSteady(k: Kernel, dir: nat, heap: Word, phys: Word, len: Word, g: nat)
    requires Good(k, dir, heap) && g < FRAMES
    requires AcpiMapRange(k, dir, phys, len).Returned?
    ensures Steady(k.s, AcpiMapRange(k, dir, phys, len).value.0.s, dir, false, g)
  {
    hide Steady;
    hide Sound;
    hide MapPages;
    hide LeadsTo;
    if TurnedDown(k.next, phys, len) {
      SteadySame(k.s, dir, false, g);
    } else {
      RangeFits(phys, len);
      var n := MappingSize(phys, len) / PAGE_SIZE;
      MapPagesSound(k.s, dir, heap / PAGE_SIZE, HEAP_PAGES, k.next, PageOf(phys), n, ACPI_FLAGS, true);
      MapPagesSteady(k.s, dir, heap / PAGE_SIZE, HEAP_PAGES, k.next, PageOf(phys), n, ACPI_FLAGS, g);
    }
  }

  lemma GoodSound(k: Kernel, dir: nat, heap: Word)
    requires Good(k, dir, heap)
    ensures Sound(k.s, dir, heap / PAGE_SIZE, HEAP_PAGES) && ACPI_BASE <= k.next
  {
    hide LeadsTo;
    hide Sound;
  }

  lemma GoodSizes(k: Kernel, dir: nat, heap: Word)
    requires Good(k, dir, heap)
    ensures |k.s.mem| == FRAMES && dir < FRAMES && Guarded(k.s.used, k.s.total) && k.next % PAGE_SIZE == 0
  {
    hide LeadsTo;
    hide Sound;
  }

  lemma AfterSteady(k: Kernel, dir: nat, heap: Word, e: Event, g: nat)
    requires Good(k, dir, heap) && Allowed(e) && g < FRAMES && After(k, dir, heap, e).Returned?
    ensures |After(k, dir, heap, e).value.s.mem| == |After(k, dir, heap, e).value.s.used| == FRAMES
    ensures |k.s.mem| == |k.s.used| == FRAMES && dir < FRAMES
    ensures Steady(k.s, After(k, dir, heap, e).value.s, dir, InHeap(heap / PAGE_SIZE, g), g)
  {
    GoodSizes(k, dir, heap);
    GoodSizes(After(k, dir, heap, e).value, dir, heap);
    hide Good;
    hide Steady;
    hide AcpiMapRange;
    hide HeapStored;
    match e
    case HeapStore(v, x) => HeapStoreSteady(k, dir, heap, v, x, g);
    case MapRange(phys, len) =>
      AcpiSteady(k, dir, heap, phys, len, g);
      SteadyWeaker(k.s, After(k, dir, heap, e).value.s, dir, g);
  }

  /** What any run of requests and heap stores leaves alone. */
  lemma {:induction false} RunSteady(k: Kernel, dir: nat, heap: Word, es: seq<Event>, g: nat)
    requires Good(k, dir, heap) && (forall e <- es :: Allowed(e)) && g < FRAMES
    requires Run(k, dir, heap, es).Returned?
    ensures Good(Run(k, dir, heap, es).value, dir, heap)
    ensures Steady(k.s, Run(k, dir, heap, es).value.s, dir, InHeap(heap / PAGE_SIZE, g), g)
    decreases |es|
  {
    GoodSizes(k, dir, heap);
    hide Good;
    hide Steady;
    if es == [] {
      SteadySame(k.s, dir, InHeap(heap / PAGE_SIZE, g), g);
    } else {
      var k1 := After(k, dir, heap, es[0]).value;
      AfterSteady(k, dir, heap, es[0], g);
      hide After;
      RunSteady(k1, dir, heap, es[1..], g);
      GoodSizes(k1, dir, heap);
      GoodSizes(Run(k, dir, heap, es).value, dir, heap);
      SteadyTwice(k.s, k1.s, Run(k, dir, heap, es).value.s, dir, InHeap(heap / PAGE_SIZE, g), g);
    }
  }

  // ---------- The frames of a request ----------

  ghost predicate HoldsTables(d: Paging.Frame, dir: nat, lo: nat, hi: nat) {
    exists g: nat :: lo <= g < hi && Structural(d, dir, g)
  }

  lemma {:induction false} ServeMarks(used: seq<bool>, total: nat, f: nat, needs: seq<bool>, g: nat)
    requires Guarded(used, total) && f + |needs| <= FRAMES && f <= g < f + |needs|
    requires Serve(used, total, f, needs).Returned?
    ensures Serve(used, total, f, needs).value[g]
  {
    hide ServeOne;
    hide Guarded;
    var n := |needs| - 1;
    var u := Serve(used, total, f, needs[..n]).value;
    OneWasFree(u, total, f + n, needs[n]);
    if g < f + n { ServeMarks(used, total, f, needs[..n], g); }
  }

  /** The frames of a request that is not turned down, as numbers. */
  lemma RequestFrames(next: Word, phys: Word, len: Word)
    requires !TurnedDown(next, phys, len)
    ensures var n := MappingSize(phys, len) / PAGE_SIZE;
      && phys / PAGE_SIZE + n <= FRAMES && next + n * PAGE_SIZE <= ACPI_LIMIT
      && PageOf(phys) + n * PAGE_SIZE <= TWO_32 && PageOf(phys) / PAGE_SIZE == phys / PAGE_SIZE
  {
    RangeFits(phys, len);
  }

  /** acpi_map_range grants the n pages from frame f on, and needs says which of them ask for a table. */
  ghost predicate Granted(k: Kernel, dir: nat, heap: Word, phys: Word, len: Word, f: nat, n: nat, needs: seq<bool>)
    ensures Granted(k, dir, heap, phys, len, f, n, needs) ==>
      && |k.s.mem| == FRAMES && dir < FRAMES && Guarded(k.s.used, k.s.total) && k.next % PAGE_SIZE == 0
      && f + n <= FRAMES && |needs| == n && AcpiMapRange(k, dir, phys, len).Returned?
  {
    && Good(k, dir, heap) && !TurnedDown(k.next, phys, len)
    && f == phys / PAGE_SIZE && n == MappingSize(phys, len) / PAGE_SIZE && f + n <= FRAMES
    && k.next + n * PAGE_SIZE <= ACPI_LIMIT && needs == Needs(k.s.mem[dir], k.next, n)
    && AcpiMapRange(k, dir, phys, len).Returned?
  }

  ghost function AfterRequest(k: Kernel, dir: nat, heap: Word, phys: Word, len: Word, f: nat, n: nat,
                              needs: seq<bool>): (k1: Kernel)
    requires Granted(k, dir, heap, phys, len, f, n, needs)
    ensures Good(k1, dir, heap)
  {
    AcpiMapRangeMeans(k, dir, heap, phys, len);
    AcpiMapRange(k, dir, phys, len).value.0
  }

  /** A granted request marks its frames, and the frames in Taken become page tables. */
  lemma RequestTables(k: Kernel, dir: nat, heap: Word, phys: Word, len: Word, f: nat, n: nat, needs: seq<bool>, g: nat)
    requires Granted(k, dir, heap, phys, len, f, n, needs) && g < FRAMES
    ensures Serve(k.s.used, k.s.total, f, needs).Returned?
    ensures var s' := AfterRequest(k, dir, heap, phys, len, f, n, needs).s;
      && |s'.mem| == |s'.used| == FRAMES
      && (f <= g < f + n ==> s'.used[g])
      && Steady(k.s, s', dir, false, g)
      && (Structural(s'.mem[dir], dir, g) <==>
            (Structural(k.s.mem[dir], dir, g) || g in Taken(k.s.used, k.s.total, f, needs)))
  {
    RequestFrames(k.next, phys, len);
    hide MappingSize;
    hide LeadsTo;
    hide Sound;
    hide Serve;
    hide Taken;
    hide Structural;
    hide Steady;
    var first := heap / PAGE_SIZE;
    MapPagesSound(k.s, dir, first, HEAP_PAGES, k.next, PageOf(phys), n, ACPI_FLAGS, true);
    MapPagesServe(k.s, dir, first, HEAP_PAGES, k.next, PageOf(phys), n, ACPI_FLAGS);
    MapPagesSteady(k.s, dir, first, HEAP_PAGES, k.next, PageOf(phys), n, ACPI_FLAGS, g);
    hide MapPages;
    if f <= g < f + n { ServeMarks(k.s.used, k.s.total, f, needs, g); }
  }

  /** Frames that are in use become structural at once or never, and the others keep their contents. */
  lemma LaterTables(k: Kernel, dir: nat, heap: Word, phys: Word, len: Word, f: nat, n: nat, needs: seq<bool>,
                    es: seq<Event>, g: nat)
    requires Granted(k, dir, heap, phys, len, f, n, needs) && f <= g < f + n
    requires (forall e <- es :: Allowed(e))
    requires Run(AfterRequest(k, dir, heap, phys, len, f, n, needs), dir, heap, es).Returned?
    ensures Serve(k.s.used, k.s.total, f, needs).Returned?
    ensures var s := Run(AfterRequest(k, dir, heap, phys, len, f, n, needs), dir, heap, es).value.s;
      && |s.mem| == |s.used| == FRAMES
      && Steady(k.s, s, dir, InHeap(heap / PAGE_SIZE, g), g)
      && (Structural(s.mem[dir], dir, g) <==>
            (Structural(k.s.mem[dir], dir, g) || g in Taken(k.s.used, k.s.total, f, needs)))
  {
    RequestTables(k, dir, heap, phys, len, f, n, needs, g);
    var k1 := AfterRequest(k, dir, heap, phys, len, f, n, needs);
    hide Good;
    hide Structural;
    hide Granted;
    hide AfterRequest;
    RunSteady(k1, dir, heap, es, g);
    var k2 := Run(k1, dir, heap, es).value;
    GoodSizes(k2, dir, heap);
    hide Run;
    SteadyWeaker(k.s, k1.s, dir, g);
    SteadyTwice(k.s, k1.s, k2.s, dir, InHeap(heap / PAGE_SIZE, g), g);
  }

  lemma HoldsTablesSplit(d: Paging.Frame, d': Paging.Frame, dir: nat, lo: nat, hi: nat, ts: set<nat>)
    requires forall g: nat :: lo <= g < hi ==> (Structural(d', dir, g) <==> (Structural(d, dir, g) || g in ts))
    ensures HoldsTables(d', dir, lo, hi) <==> HoldsTables(d, dir, lo, hi) || WindowTables.Within(ts, lo, hi)
  {
    hide Structural;
    if t :| t in ts && lo <= t < hi { assert Structural(d', dir, t); }
  }

  /**
   A frame of a granted range holds a page table, now and after any run of further requests and heap
   stores, exactly when one did before the request or its own tables clash with it.
   */
  lemma RangeHoldsTablesIff(k: Kernel, dir: nat, heap: Word, phys: Word, len: Word, f: nat, n: nat, needs: seq<bool>,
                            es: seq<Event>)
    requires Granted(k, dir, heap, phys, len, f, n, needs) && (forall e <- es :: Allowed(e))
    requires Run(AfterRequest(k, dir, heap, phys, len, f, n, needs), dir, heap, es).Returned?
    ensures var s := Run(AfterRequest(k, dir, heap, phys, len, f, n, needs), dir, heap, es).value.s;
      && |s.mem| == FRAMES
      && (HoldsTables(s.mem[dir], dir, f, f + n) <==>
            (HoldsTables(k.s.mem[dir], dir, f, f + n) || Clash(k.s.used, f, f + n, needs)))
  {
    hide *;
    var k1 := AfterRequest(k, dir, heap, phys, len, f, n, needs);
    RequestTables(k, dir, heap, phys, len, f, n, needs, 0);
    ClashIff(k.s.used, k.s.total, f, f + n, needs);
    RunSteady(k1, dir, heap, es, 0);
    var k2 := Run(k1, dir, heap, es).value;
    GoodSizes(k2, dir, heap);
    var d, ts := k.s.mem[dir], Taken(k.s.used, k.s.total, f, needs);
    forall g: nat | f <= g < f + n
      ensures Structural(k2.s.mem[dir], dir, g) <==> (Structural(d, dir, g) || g in ts)
    {
      LaterTables(k, dir, heap, phys, len, f, n, needs, es, g);
    }
    HoldsTablesSplit(d, k2.s.mem[dir], dir, f, f + n, ts);
  }

  // ---------- Reading through a window ----------

  ghost predicate TableThrough(mem: seq<Paging.Frame>, dir: nat, w: Word)
    requires |mem| == FRAMES && dir < FRAMES
  {
    Translate(mem, dir, w).Some? && Structural(mem[dir], dir, FrameOf(Translate(mem, dir, w).value))
  }

  /** Some byte of the window leads into the directory or a page table. */
  ghost predicate LeadsToTable(mem: seq<Paging.Frame>, dir: nat, x: Window)
    requires |mem| == FRAMES && dir < FRAMES
  {
    exists w: Word :: x.virt <= w < x.virt + x.len && TableThrough(mem, dir, w)
  }

  lemma ByteInRange(phys: Word, len: Word, j: nat)
    requires j < len && phys + len <= TWO_32
    ensures phys / PAGE_SIZE <= FrameOf(phys + j) < phys / PAGE_SIZE + MappingSize(phys, len) / PAGE_SIZE
  {
  }

  lemma FrameInRange(phys: Word, len: Word, g: nat) returns (j: nat)
    requires 0 < len && phys + len <= TWO_32
    requires phys / PAGE_SIZE <= g < phys / PAGE_SIZE + MappingSize(phys, len) / PAGE_SIZE
    ensures j < len && FrameOf(phys + j) == g
  {
    j := if g * PAGE_SIZE <= phys then 0 else g * PAGE_SIZE - phys;
  }

  /** The window of a request touches every frame of its range and no other. */
  lemma LeadsToTableIff(mem: seq<Paging.Frame>, dir: nat, x: Window)
    requires |mem| == FRAMES && dir < FRAMES && 0 < x.len && x.phys + x.len <= TWO_32
    requires LeadsTo(mem, dir, x)
    ensures LeadsToTable(mem, dir, x) <==>
      HoldsTables(mem[dir], dir, x.phys / PAGE_SIZE, x.phys / PAGE_SIZE + MappingSize(x.phys, x.len) / PAGE_SIZE)
  {
    hide Structural;
    hide MappingSize;
    hide Translate;
    hide FrameOf;
    var f := x.phys / PAGE_SIZE;
    var hi := f + MappingSize(x.phys, x.len) / PAGE_SIZE;
    if w: Word :| x.virt <= w < x.virt + x.len && TableThrough(mem, dir, w) {
      ByteInRange(x.phys, x.len, w - x.virt);
    }
    if g: nat :| f <= g < hi && Structural(mem[dir], dir, g) {
      var j := FrameInRange(x.phys, x.len, g);
      assert TableThrough(mem, dir, x.virt + j);
    }
  }

  /** The byte at physical address a; words are little-endian. */
  function ByteAt(mem: seq<Paging.Frame>, a: Word): Byte
    requires |mem| == FRAMES
  {
    PhysWord(mem, a) / Pow2(8 * (a % 4)) % 256
  }

  /** The byte a load from virtual address w sees. */
  function Load(mem: seq<Paging.Frame>, dir: nat, w: Word): Option<Byte>
    requires |mem| == FRAMES && dir < FRAMES
  {
    match Translate(mem, dir, w)
    case None => None
    case Some(a) => Some(ByteAt(mem, a))
  }

  /** The window a granted request adds stays where it is. */
  lemma WindowStays(k: Kernel, dir: nat, heap: Word, phys: Word, len: Word, f: nat, n: nat, needs: seq<bool>,
                    es: seq<Event>)
    requires Granted(k, dir, heap, phys, len, f, n, needs) && (forall e <- es :: Allowed(e))
    requires Run(AfterRequest(k, dir, heap, phys, len, f, n, needs), dir, heap, es).Returned?
    ensures var s := Run(AfterRequest(k, dir, heap, phys, len, f, n, needs), dir, heap, es).value.s;
      |s.mem| == FRAMES && LeadsTo(s.mem, dir, Window(k.next + phys % PAGE_SIZE, phys, len))
  {
    AcpiMapRangeMeans(k, dir, heap, phys, len);
    var k1 := AfterRequest(k, dir, heap, phys, len, f, n, needs);
    assert k1.windows == k.windows + [Window(k.next + phys % PAGE_SIZE, phys, len)] by {
      hide Good;
      hide MapPages;
    }
    hide Granted;
    hide AfterRequest;
    hide AcpiMapRange;
    RunKeepsAddressSpace(k1, dir, heap, es);
    var k2 := Run(k1, dir, heap, es).value;
    hide Run;
    hide LeadsTo;
    hide Sound;
    assert k2.windows[|k.windows|] == k1.windows[|k.windows|];
  }

  lemma RequestBounds(k: Kernel, dir: nat, heap: Word, phys: Word, len: Word, f: nat, n: nat, needs: seq<bool>)
    requires Granted(k, dir, heap, phys, len, f, n, needs)
    ensures 0 < len && phys + len <= TWO_32 && k.next + phys % PAGE_SIZE < TWO_32
    ensures f == phys / PAGE_SIZE && n == MappingSize(phys, len) / PAGE_SIZE
  {
    hide Good;
    hide Needs;
  }

  /** When the window of a request leads to a page table, for every run that follows. */
  lemma WindowLeadsToTableIff(k: Kernel, dir: nat, heap: Word, phys: Word, len: Word, f: nat, n: nat, needs: seq<bool>,
                              es: seq<Event>)
    requires Granted(k, dir, heap, phys, len, f, n, needs) && (forall e <- es :: Allowed(e))
    requires Run(AfterRequest(k, dir, heap, phys, len, f, n, needs), dir, heap, es).Returned?
    ensures var s := Run(AfterRequest(k, dir, heap, phys, len, f, n, needs), dir, heap, es).value.s;
      && |s.mem| == FRAMES
      && (LeadsToTable(s.mem, dir, Window(k.next + phys % PAGE_SIZE, phys, len)) <==>
            (HoldsTables(k.s.mem[dir], dir, f, f + n) || Clash(k.s.used, f, f + n, needs)))
  {
    hide Granted;
    hide AfterRequest;
    hide Run;
    hide Clash;
    hide HoldsTables;
    hide LeadsTo;
    hide LeadsToTable;
    RangeHoldsTablesIff(k, dir, heap, phys, len, f, n, needs, es);
    WindowStays(k, dir, heap, phys, len, f, n, needs, es);
    RequestBounds(k, dir, heap, phys, len, f, n, needs);
    var s := Run(AfterRequest(k, dir, heap, phys, len, f, n, needs), dir, heap, es).value.s;
    LeadsToTableIff(s.mem, dir, Window(k.next + phys % PAGE_SIZE, phys, len));
  }

  lemma SameByte(mem: seq<Paging.Frame>, mem': seq<Paging.Frame>, dir: nat, x: Window, j: nat)
    requires |mem| == |mem'| == FRAMES && dir < FRAMES && j < x.len
    requires x.phys + x.len <= TWO_32 && LeadsTo(mem', dir, x)
    requires mem'[FrameOf(x.phys + j)] == mem[FrameOf(x.phys + j)]
    ensures x.virt + j < TWO_32 && Load(mem', dir, x.virt + j) == Some(ByteAt(mem, x.phys + j))
  {
    hide Translate;
    hide Pow2;
    var w, a := x.virt + j, x.phys + j;
    assert Translate(mem', dir, w) == Some(a);
  }

  /** A frame of such a range keeps its contents. */
  lemma RangeKept(k: Kernel, dir: nat, heap: Word, phys: Word, len: Word, f: nat, n: nat, needs: seq<bool>,
                  es: seq<Event>, g: nat)
    requires Granted(k, dir, heap, phys, len, f, n, needs) && (forall e <- es :: Allowed(e)) && f <= g < f + n
    requires Run(AfterRequest(k, dir, heap, phys, len, f, n, needs), dir, heap, es).Returned?
    requires !HoldsTables(k.s.mem[dir], dir, f, f + n) && !Clash(k.s.used, f, f + n, needs)
    requires !InHeap(heap / PAGE_SIZE, g)
    ensures var s := Run(AfterRequest(k, dir, heap, phys, len, f, n, needs), dir, heap, es).value.s;
      |s.mem| == FRAMES && s.mem[g] == k.s.mem[g]
  {
    RangeHoldsTablesIff(k, dir, heap, phys, len, f, n, needs, es);
    LaterTables(k, dir, heap, phys, len, f, n, needs, es, g);
    hide Granted;
    hide AfterRequest;
    hide Run;
    hide Clash;
    hide Structural;
    hide Taken;
    hide Serve;
  }

  /** Byte j of the window shows byte j of the range as it was in mem0. */
  ghost predicate ShowsByte(mem: seq<Paging.Frame>, dir: nat, x: Window, mem0: seq<Paging.Frame>, j: nat)
    requires |mem| == |mem0| == FRAMES && dir < FRAMES
  {
    && x.virt + j < TWO_32 && x.phys + j < TWO_32
    && Load(mem, dir, x.virt + j) == Some(ByteAt(mem0, x.phys + j))
  }

  ghost predicate ShowsBytes(mem: seq<Paging.Frame>, dir: nat, x: Window, mem0: seq<Paging.Frame>)
    requires |mem| == |mem0| == FRAMES && dir < FRAMES
  {
    forall j: nat | j < x.len :: ShowsByte(mem, dir, x, mem0, j)
  }

  lemma ByteShown(k: Kernel, dir: nat, heap: Word, phys: Word, len: Word, f: nat, n: nat, needs: seq<bool>,
                  es: seq<Event>, j: nat)
    requires Granted(k, dir, heap, phys, len, f, n, needs) && (forall e <- es :: Allowed(e))
    requires Run(AfterRequest(k, dir, heap, phys, len, f, n, needs), dir, heap, es).Returned?
    requires !HoldsTables(k.s.mem[dir], dir, f, f + n) && !Clash(k.s.used, f, f + n, needs)
    requires f + n <= heap / PAGE_SIZE || heap / PAGE_SIZE + HEAP_PAGES <= f
    requires j < len
    ensures var s := Run(AfterRequest(k, dir, heap, phys, len, f, n, needs), dir, heap, es).value.s;
      |s.mem| == FRAMES && ShowsByte(s.mem, dir, Window(k.next + phys % PAGE_SIZE, phys, len), k.s.mem, j)
  {
    hide Granted;
    hide AfterRequest;
    hide Run;
    hide Clash;
    hide HoldsTables;
    hide LeadsTo;
    hide Load;
    hide ByteAt;
    hide MappingSize;
    hide FrameOf;
    WindowStays(k, dir, heap, phys, len, f, n, needs, es);
    RequestBounds(k, dir, heap, phys, len, f, n, needs);
    ByteInRange(phys, len, j);
    RangeKept(k, dir, heap, phys, len, f, n, needs, es, FrameOf(phys + j));
    var s := Run(AfterRequest(k, dir, heap, phys, len, f, n, needs), dir, heap, es).value.s;
    var x := Window(k.next + phys % PAGE_SIZE, phys, len);
    SameByte(k.s.mem, s.mem, dir, x, j);
  }

  /**
   A request whose range holds no table, is clear of the heap and does not clash with its own tables
   gets a window that shows what the range held before the request, whatever requests and heap stores
   follow.
   */
  lemma WindowShowsRequest(k: Kernel, dir: nat, heap: Word, phys: Word, len: Word, f: nat, n: nat, needs: seq<bool>,
                           es: seq<Event>)
    requires Granted(k, dir, heap, phys, len, f, n, needs) && (forall e <- es :: Allowed(e))
    requires Run(AfterRequest(k, dir, heap, phys, len, f, n, needs), dir, heap, es).Returned?
    requires !HoldsTables(k.s.mem[dir], dir, f, f + n) && !Clash(k.s.used, f, f + n, needs)
    requires f + n <= heap / PAGE_SIZE || heap / PAGE_SIZE + HEAP_PAGES <= f
    ensures var s := Run(AfterRequest(k, dir, heap, phys, len, f, n, needs), dir, heap, es).value.s;
      |s.mem| == FRAMES && ShowsBytes(s.mem, dir, Window(k.next + phys % PAGE_SIZE, phys, len), k.s.mem)
  {
    hide Granted;
    hide AfterRequest;
    hide Run;
    hide Clash;
    hide HoldsTables;
    hide LeadsTo;
    RequestBounds(k, dir, heap, phys, len, f, n, needs);
    WindowStays(k, dir, heap, phys, len, f, n, needs, es);
    var s := Run(AfterRequest(k, dir, heap, phys, len, f, n, needs), dir, heap, es).value.s;
    var x := Window(k.next + phys % PAGE_SIZE, phys, len);
    hide ShowsByte;
    forall j: nat | j < len ensures ShowsByte(s.mem, dir, x, k.s.mem, j) {
      ByteShown(k, dir, heap, phys, len, f, n, needs, es, j);
    }
  }

  /**
   A request for frames that are in use already, neither the directory nor tables, is always safe: its
   window never leads to a table, and clear of the heap it shows what the range held.
   */
  lemma UsedRangeIsSafe(k: Kernel, dir: nat, heap: Word, phys: Word, len: Word, f: nat, n: nat, needs: seq<bool>,
                        es: seq<Event>)
    requires Granted(k, dir, heap, phys, len, f, n, needs) && (forall e <- es :: Allowed(e))
    requires Run(AfterRequest(k, dir, heap, phys, len, f, n, needs), dir, heap, es).Returned?
    requires forall g :: f <= g < f + n ==> k.s.used[g]
    requires !HoldsTables(k.s.mem[dir], dir, f, f + n)
    ensures var s, x := Run(AfterRequest(k, dir, heap, phys, len, f, n, needs), dir, heap, es).value.s,
        Window(k.next + phys % PAGE_SIZE, phys, len);
      && |s.mem| == FRAMES && !LeadsToTable(s.mem, dir, x)
      && (f + n <= heap / PAGE_SIZE || heap / PAGE_SIZE + HEAP_PAGES <= f ==> ShowsBytes(s.mem, dir, x, k.s.mem))
  {
    NothingFree(k.s.used, f, f + n, needs);
    hide Granted;
    hide AfterRequest;
    hide Run;
    hide Clash;
    hide HoldsTables;
    hide LeadsTo;
    hide LeadsToTable;
    hide ShowsBytes;
    WindowLeadsToTableIff(k, dir, heap, phys, len, f, n, needs, es);
    if f + n <= heap / PAGE_SIZE || heap / PAGE_SIZE + HEAP_PAGES <= f {
      WindowShowsRequest(k, dir, heap, phys, len, f, n, needs, es);
    }
  }

  // ---------- A request that clashes ----------

  /** The first page: its table takes the frame of the second page. */
  lemma FirstPageClashes(s: State, dir: nat, first: nat, v: Word, f: nat, flags: Word)
    requires Sound(s, dir, first, HEAP_PAGES) && ACPI_BASE <= v < HEAP_BASE + HEAP_SIZE && f + 1 < FRAMES
    requires !Present(Pde(s.mem, dir, v))
    requires (forall g :: 0 <= g < f ==> s.used[g]) && !s.used[f + 1]
    ensures MapOne(s, dir, v, f * PAGE_SIZE, flags, true).Returned?
    ensures var e := Pde(MapOne(s, dir, v, f * PAGE_SIZE, flags, true).value.0.mem, dir, v);
      IsTable(e) && FrameOf(e) == f + 1
  {
    ReserveOneFrame(s.used, s.total, f);
    ReserveSound(s, dir, first, HEAP_PAGES, f * PAGE_SIZE);
    var s1 := ReservePage(s, f * PAGE_SIZE);
    assert !s1.used[f + 1];
    SoundIsValid(s1, dir, first, HEAP_PAGES);
    assert AllocFrame(s1.used, s1.total).value.0 == f + 1;
    FreshTable(s1, dir, v, f + 1, f * PAGE_SIZE, flags, v);
    NewEntries(f + 1, f * PAGE_SIZE, flags);
  }

  lemma SecondPage(s: State, dir: nat, first: nat, v: Word, p: Word, flags: Word)
    requires Sound(s, dir, first, HEAP_PAGES) && ACPI_BASE <= v < HEAP_BASE + HEAP_SIZE
    requires IsTable(Pde(s.mem, dir, v))
    ensures MapOne(s, dir, v, p, flags, true).Returned?
    ensures MapOne(s, dir, v, p, flags, true).value.0.mem[dir] == s.mem[dir]
  {
    ReserveSound(s, dir, first, HEAP_PAGES, p);
    ExistingTable(ReservePage(s, p), dir, v, p, flags, v);
  }

  lemma TwoPages(s: State, dir: nat, v: Word, p: Word)
    requires |s.mem| == FRAMES && dir < FRAMES && Guarded(s.used, s.total)
    requires v + 2 * PAGE_SIZE <= RECURSIVE_BASE && p + 2 * PAGE_SIZE <= TWO_32
    requires MapOne(s, dir, v, p, ACPI_FLAGS, true).Returned? && MapOne(s, dir, v, p, ACPI_FLAGS, true).value.1
    ensures MapPages(s, dir, v, p, 2, ACPI_FLAGS, true)
      == MapOne(MapOne(s, dir, v, p, ACPI_FLAGS, true).value.0, dir, v + PAGE_SIZE, p + PAGE_SIZE, ACPI_FLAGS, true)
  {
    hide MapOne;
    assert MapPages(s, dir, v, p, 0, ACPI_FLAGS, true) == Returned((s, true));
    assert MapPages(s, dir, v, p, 1, ACPI_FLAGS, true) == MapOne(s, dir, v, p, ACPI_FLAGS, true);
  }

  /** The same for the loop over both pages. */
  lemma BothPages(s: State, dir: nat, first: nat, v: Word, p: Word, f: nat)
    requires Sound(s, dir, first, HEAP_PAGES) && ACPI_BASE <= v
    requires f + 2 <= FRAMES && p == f * PAGE_SIZE && v + 2 * PAGE_SIZE <= ACPI_LIMIT
    requires !Present(Pde(s.mem, dir, v)) && DirIndex(v + PAGE_SIZE) == DirIndex(v)
    requires (forall g :: 0 <= g < f ==> s.used[g]) && !s.used[f + 1]
    ensures var r := MapPages(s, dir, v, p, 2, ACPI_FLAGS, true);
      r.Returned? && r.value.1 && FrameOf(Pde(r.value.0.mem, dir, v)) == f + 1
  {
    hide Sound;
    hide MapOne;
    hide MapPages;
    hide DirIndex;
    hide IsTable;
    hide FrameOf;
    FirstPageClashes(s, dir, first, v, f, ACPI_FLAGS);
    MapOneSound(s, dir, first, HEAP_PAGES, v, p, ACPI_FLAGS, true);
    TwoPages(s, dir, v, p);
    var s1 := MapOne(s, dir, v, p, ACPI_FLAGS, true).value.0;
    SecondPage(s1, dir, first, v + PAGE_SIZE, p + PAGE_SIZE, ACPI_FLAGS);
    MapOneSound(s1, dir, first, HEAP_PAGES, v + PAGE_SIZE, p + PAGE_SIZE, ACPI_FLAGS, true);
  }

  lemma SecondPageLeads(s: State, dir: nat, first: nat, v: Word, p: Word)
    requires Sound(s, dir, first, HEAP_PAGES) && ACPI_BASE <= v && v % PAGE_SIZE == 0 && p % PAGE_SIZE == 0
    requires v + 2 * PAGE_SIZE <= ACPI_LIMIT && p + 2 * PAGE_SIZE <= TWO_32
    requires MapPages(s, dir, v, p, 2, ACPI_FLAGS, true).Returned?
    ensures var mem := MapPages(s, dir, v, p, 2, ACPI_FLAGS, true).value.0.mem;
      Translate(mem, dir, v + PAGE_SIZE) == Some(p + PAGE_SIZE)
  {
    hide Sound;
    hide MapPages;
    hide Translate;
    MapPagesMeans(s, dir, first, HEAP_PAGES, v, p, 2, ACPI_FLAGS, true, v + PAGE_SIZE);
  }

  lemma TwoPagesSize(f: nat)
    requires f + 2 <= FRAMES
    ensures PageOf(f * PAGE_SIZE) == f * PAGE_SIZE && MappingSize(f * PAGE_SIZE, 2 * PAGE_SIZE) == 2 * PAGE_SIZE
    ensures f * PAGE_SIZE % PAGE_SIZE == 0
  {
  }

  lemma GrantedIs(k: Kernel, dir: nat, phys: Word, len: Word, n: nat)
    requires |k.s.mem| == FRAMES && dir < FRAMES && Guarded(k.s.used, k.s.total) && k.next % PAGE_SIZE == 0
    requires !TurnedDown(k.next, phys, len) && MappingSize(phys, len) == n * PAGE_SIZE
    requires k.next + n * PAGE_SIZE <= RECURSIVE_BASE && PageOf(phys) + n * PAGE_SIZE <= TWO_32
    requires MapPages(k.s, dir, k.next, PageOf(phys), n, ACPI_FLAGS, true).Returned?
    requires MapPages(k.s, dir, k.next, PageOf(phys), n, ACPI_FLAGS, true).value.1
    ensures AcpiMapRange(k, dir, phys, len).Returned?
    ensures AcpiMapRange(k, dir, phys, len).value.0.s
      == MapPages(k.s, dir, k.next, PageOf(phys), n, ACPI_FLAGS, true).value.0
    ensures AcpiMapRange(k, dir, phys, len).value.1 == k.next + phys % PAGE_SIZE
  {
    hide MapPages;
    hide MappingSize;
    hide PageOf;
  }

  /**
   Two pages that need one table, with every frame below the first one in use and the second one free:
   the table lands in the second frame, and the second page of the window leads to the table.
   */
  lemma TwoPagesClash(k: Kernel, dir: nat, heap: Word, f: nat)
    requires Good(k, dir, heap) && 0 < f && f + 2 <= FRAMES && k.next + 2 * PAGE_SIZE <= ACPI_LIMIT
    requires !Present(Pde(k.s.mem, dir, k.next)) && DirIndex(k.next + PAGE_SIZE) == DirIndex(k.next)
    requires (forall g :: 0 <= g < f ==> k.s.used[g]) && !k.s.used[f + 1]
    ensures var r := AcpiMapRange(k, dir, f * PAGE_SIZE, 2 * PAGE_SIZE);
      && r.Returned? && r.value.1 == k.next
      && FrameOf(Pde(r.value.0.s.mem, dir, k.next)) == f + 1
      && Translate(r.value.0.s.mem, dir, k.next + PAGE_SIZE) == Some((f + 1) * PAGE_SIZE)
  {
    hide Good;
    hide AcpiMapRange;
    hide MappingSize;
    hide PageOf;
    hide DirIndex;
    hide FrameOf;
    hide Present;
    hide Sound;
    hide Translate;
    hide MapPages;
    TwoPagesSize(f);
    GoodSizes(k, dir, heap);
    GoodSound(k, dir, heap);
    var p := f * PAGE_SIZE;
    BothPages(k.s, dir, heap / PAGE_SIZE, k.next, p, f);
    SecondPageLeads(k.s, dir, heap / PAGE_SIZE, k.next, p);
    GrantedIs(k, dir, p, 2 * PAGE_SIZE, 2);
  }
}
