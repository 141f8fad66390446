/**
 What the processor lets through on the pages the kernel maps (Intel SDM Volume 3A, section 4.6): both
 entries on a walk must allow a write, or an access from user mode. Bit 1 allows writes (for the kernel
 itself only once CR0.WP is set), bit 2 user mode, and bit 3 of the last entry asks for write-through
 caching (section 4.9).
 */
module AccessRights {
  import opened Words
  import opened Frames
  import opened Paging
  import opened AddressSpace

  datatype Access = Access(write: bool, user: bool, through: bool)

  predicate Writes(e: Word) {
    e / 2 % 2 == 1
  }

  predicate User(e: Word) {
    e / 4 % 2 == 1
  }

  predicate Through(e: Word) {
    e / 8 % 2 == 1
  }

  /** How w may be accessed with the directory in frame dir, or None for a page fault. */
  function AccessAt(mem: seq<Paging.Frame>, dir: nat, w: Word): Option<Access>
    requires |mem| == FRAMES && dir < FRAMES
  {
    var e := Pde(mem, dir, w);
    if !Present(e) then None
    else if Large(e) then Some(Access(Writes(e), User(e), Through(e)))
    else
      var t := Pte(mem, FrameOf(e), w);
      if !Present(t) then None else Some(Access(Writes(e) && Writes(t), User(e) && User(t), Through(t)))
  }

  // ---------- One page ----------

  lemma EvenPlus(a: nat, y: nat)
    ensures (2 * a + y) % 2 == y % 2
  {
  }

  lemma Bit1(f: nat, x: nat)
    ensures (f * PAGE_SIZE + x) / 2 % 2 == x / 2 % 2
  {
    assert (f * PAGE_SIZE + x) / 2 == 2 * (f * 1024) + x / 2;
    EvenPlus(f * 1024, x / 2);
  }

  lemma Bit2(f: nat, x: nat)
    ensures (f * PAGE_SIZE + x) / 4 % 2 == x / 4 % 2
  {
    assert (f * PAGE_SIZE + x) / 4 == 2 * (f * 512) + x / 4;
    EvenPlus(f * 512, x / 4);
  }

  lemma Bit3(f: nat, x: nat)
    ensures (f * PAGE_SIZE + x) / 8 % 2 == x / 8 % 2
  {
    assert (f * PAGE_SIZE + x) / 8 == 2 * (f * 256) + x / 8;
    EvenPlus(f * 256, x / 8);
  }

  /** The frame part of an entry has no say in its bits 1 to 3. */
  lemma LowEntryBits(f: nat, x: nat)
    requires f * PAGE_SIZE + x < TWO_32
    ensures var e: Word := f * PAGE_SIZE + x;
      Writes(e) == (x / 2 % 2 == 1) && User(e) == (x / 4 % 2 == 1) && Through(e) == (x / 8 % 2 == 1)
  {
    Bit1(f, x);
    Bit2(f, x);
    Bit3(f, x);
  }

  lemma WithPresent(y: nat)
    ensures var x := y / 2 * 2 + 1; x / 2 == y / 2 && x / 4 == y / 4 && x / 8 == y / 8
  {
  }

  lemma PteBits(p: Word, flags: Word)
    ensures Writes(NewPte(p, flags)) == Writes(flags)
    ensures User(NewPte(p, flags)) == User(flags)
    ensures Through(NewPte(p, flags)) == Through(flags)
  {
    var low := flags % PAGE_SIZE;
    LowEntryBits(p / PAGE_SIZE, low / 2 * 2 + 1);
    LowEntryBits(flags / PAGE_SIZE, low);
    WithPresent(low);
    hide Writes;
    hide User;
    hide Through;
    assert flags == flags / PAGE_SIZE * PAGE_SIZE + low;
  }

  lemma PdeBits(f: nat, flags: Word)
    requires f < FRAMES
    ensures Writes(NewPde(f, flags)) && User(NewPde(f, flags)) == User(flags)
  {
    LowEntryBits(f, 3 + flags / 4 % 2 * 4);
  }

  /** v's page after it has been mapped: a new table is writable, and open to user mode as the page is. */
  function Granted(mem: seq<Paging.Frame>, dir: nat, v: Word, flags: Word): Access
    requires |mem| == FRAMES && dir < FRAMES
  {
    var e := Pde(mem, dir, v);
    if Present(e) then Access(Writes(e) && Writes(flags), User(e) && User(flags), Through(flags))
    else Access(Writes(flags), User(flags), Through(flags))
  }

  /**
   vmm_map_page: outside 4 MiB pages v's page gets the access its flags ask for, as far as the directory
   entry allows it, and every other page below the recursive window keeps its own.
   */
  lemma MapPageAccess(s: State, dir: nat, v: Word, p: Word, flags: Word, w: Word)
    requires Valid(s, dir) && v < RECURSIVE_BASE && w < RECURSIVE_BASE
    requires MapPage(s, dir, v, p, flags).Returned? && !(Present(Pde(s.mem, dir, v)) && Large(Pde(s.mem, dir, v)))
    ensures AccessAt(MapPage(s, dir, v, p, flags).value.0.mem, dir, w)
      == if PageOf(w) == PageOf(v) then Some(Granted(s.mem, dir, v, flags)) else AccessAt(s.mem, dir, w)
  {
    var e := Pde(s.mem, dir, v);
    SamePage(v, w);
    NewEntries(0, p, flags);
    PteBits(p, flags);
    if Present(e) {
      ExistingTable(s, dir, v, p, flags, w);
    } else {
      var f := AllocFrame(s.used, s.total).value.0;
      FreshTable(s, dir, v, f, p, flags, w);
      NewEntries(f, p, flags);
      PdeBits(f, flags);
    }
  }

  /**
   The two entries themselves: the page entry takes page p and every flag but the present bit, which it
   always has; a new directory entry is present and writable, open to user mode as asked, and no more.
   */
  lemma MapPageEntries(s: State, dir: nat, v: Word, p: Word, flags: Word)
    requires Valid(s, dir) && v < RECURSIVE_BASE
    requires MapPage(s, dir, v, p, flags).Returned? && !(Present(Pde(s.mem, dir, v)) && Large(Pde(s.mem, dir, v)))
    ensures var mem := MapPage(s, dir, v, p, flags).value.0.mem;
      var d := Pde(mem, dir, v);
      var e := Pte(mem, FrameOf(d), v);
      && e / 4096 == p / 4096 && e % 4096 / 2 == flags % 4096 / 2 && e % 2 == 1
      && if Present(Pde(s.mem, dir, v)) then d == Pde(s.mem, dir, v)
         else d % 4096 == if flags / 4 % 2 == 1 then 7 else 3
  {
    var d := Pde(s.mem, dir, v);
    NewEntries(0, p, flags);
    if Present(d) {
      ExistingTable(s, dir, v, p, flags, v);
    } else {
      var f := AllocFrame(s.used, s.total).value.0;
      FreshTable(s, dir, v, f, p, flags, v);
      NewEntries(f, p, flags);
    }
  }

  /** A page without a table gets a writable one, open to user mode as the page is. */
  lemma NewTableAccess(s: State, dir: nat, v: Word, p: Word, flags: Word)
    requires Valid(s, dir) && v < RECURSIVE_BASE && !Present(Pde(s.mem, dir, v))
    requires MapPage(s, dir, v, p, flags).Returned?
    ensures var mem := MapPage(s, dir, v, p, flags).value.0.mem;
      var e := Pde(mem, dir, v);
      && Writes(e) && User(e) == User(flags)
      && Writes(Pte(mem, FrameOf(e), v)) == Writes(flags) && User(Pte(mem, FrameOf(e), v)) == User(flags)
  {
    var f := AllocFrame(s.used, s.total).value.0;
    FreshTable(s, dir, v, f, p, flags, v);
    MapPageMeans(s, dir, v, p, flags, v);
    NewEntries(f, p, flags);
    PdeBits(f, flags);
    PteBits(p, flags);
  }

  // ---------- Runs of pages ----------

  /** Tables can be written, and reached only by the kernel, through the directory and its own entry. */
  ghost predicate TablesWritable(d: Paging.Frame) {
    && Writes(d[SELF]) && !User(d[SELF])
    && forall i :: ACPI_DIR <= i <= HEAP_DIR && Present(d[i]) ==> Writes(d[i]) && !User(d[i])
  }

  /** How w may be accessed once n pages from v are mapped with flags that keep user mode out. */
  function Opened(mem: seq<Paging.Frame>, dir: nat, v: nat, n: nat, flags: Word, w: Word): Option<Access>
    requires |mem| == FRAMES && dir < FRAMES
  {
    if v <= w < v + n * PAGE_SIZE then Some(Access(Writes(flags), false, Through(flags))) else AccessAt(mem, dir, w)
  }

  lemma MapOneAccess(s: State, dir: nat, first: nat, pages: nat, v: Word, p: Word, flags: Word, reserve: bool, w: Word)
    requires Sound(s, dir, first, pages) && TablesWritable(s.mem[dir]) && !User(flags)
    requires v % PAGE_SIZE == 0 && w < RECURSIVE_BASE && ACPI_BASE <= v < HEAP_BASE + HEAP_SIZE
    requires MapOne(s, dir, v, p, flags, reserve).Returned?
    ensures var mem := MapOne(s, dir, v, p, flags, reserve).value.0.mem;
      && TablesWritable(mem[dir])
      && AccessAt(mem, dir, w) == Opened(s.mem, dir, v, 1, flags, w)
  {
    ReserveSound(s, dir, first, pages, p);
    var s2 := if reserve then ReservePage(s, p) else s;
    assert ACPI_DIR <= DirIndex(v) <= HEAP_DIR;
    MapPageAccess(s2, dir, v, p, flags, w);
    PageInterval(v, 0, w);
    var e := Pde(s.mem, dir, v);
    if Present(e) {
      ExistingTable(s2, dir, v, p, flags, w);
    } else {
      var f := AllocFrame(s2.used, s2.total).value.0;
      FreshTable(s2, dir, v, f, p, flags, w);
      PdeBits(f, flags);
    }
  }

  lemma {:induction false} MapPagesAccess(s: State, dir: nat, first: nat, pages: nat,
                                          v: nat, p: nat, n: nat, flags: Word, reserve: bool, w: Word)
    requires Sound(s, dir, first, pages) && TablesWritable(s.mem[dir]) && !User(flags)
    requires v % PAGE_SIZE == 0 && w < RECURSIVE_BASE
    requires ACPI_BASE <= v && v + n * PAGE_SIZE <= HEAP_BASE + HEAP_SIZE && p + n * PAGE_SIZE <= TWO_32
    requires MapPages(s, dir, v, p, n, flags, reserve).Returned?
    ensures var mem := MapPages(s, dir, v, p, n, flags, reserve).value.0.mem;
      && TablesWritable(mem[dir])
      && AccessAt(mem, dir, w) == Opened(s.mem, dir, v, n, flags, w)
  {
    hide Sound;
    hide MapOne;
    hide TablesWritable;
    hide AccessAt;
    if n > 0 {
      MapPagesSound(s, dir, first, pages, v, p, n - 1, flags, reserve);
      MapPagesAccess(s, dir, first, pages, v, p, n - 1, flags, reserve, w);
      AlignedStep(v, n - 1);
      var s1 := MapPages(s, dir, v, p, n - 1, flags, reserve).value.0;
      MapOneAccess(s1, dir, first, pages, v + (n - 1) * PAGE_SIZE, p + (n - 1) * PAGE_SIZE, flags, reserve, w);
    }
  }
}
