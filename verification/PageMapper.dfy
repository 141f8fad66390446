/** vmm.c: the page mapper, which reaches directory and tables through the MMU it is configuring. */
module PageMapper {
  import opened Words
  import opened Frames
  import opened Paging
  import opened FrameAllocator

  lemma PhysIndex(f: nat, i: nat)
    requires f < FRAMES && i < ENTRIES
    ensures f * PAGE_SIZE + i * 4 < TWO_32
    ensures (f * PAGE_SIZE + i * 4) / PAGE_SIZE == f && (f * PAGE_SIZE + i * 4) % PAGE_SIZE / 4 == i
  {
  }

  /** The address of the i-th page that v's table covers, and of that page's entry in the window. */
  lemma TablePage(v: Word, i: nat) returns (u: Word)
    requires i < ENTRIES
    ensures DirIndex(u) == DirIndex(v) && TabIndex(u) == i
    ensures PteAddr(u) == PageOf(PteAddr(v)) + i * 4
  {
    u := DirIndex(v) * LARGE_PAGE + i * PAGE_SIZE;
    PageParts(u);
    PageParts(v);
    assert v / 0x400 / 4 == v / PAGE_SIZE && u / 0x400 / 4 == u / PAGE_SIZE;
  }

  /** The i-th word of v's page table lies at this virtual address. */
  lemma TableWordAddr(mem: seq<Frame>, dir: nat, v: Word, i: nat)
    requires |mem| == FRAMES && dir < FRAMES && SelfMapped(mem[dir], dir)
    requires v < RECURSIVE_BASE && Present(Pde(mem, dir, v)) && i < ENTRIES
    ensures PageOf(PteAddr(v)) + i * 4 < TWO_32
    ensures Translate(mem, dir, PageOf(PteAddr(v)) + i * 4) == Some(FrameOf(Pde(mem, dir, v)) * PAGE_SIZE + i * 4)
  {
    var u := TablePage(v, i);
    hide PteAddr;
    hide DirIndex;
    hide TabIndex;
    hide Translate;
    hide PageOf;
    PteAddrMeans(mem, dir, u);
  }

  class Vmm {
    /** Physical memory; dir is the frame CR3 names. */
    const memory: array<Frame>
    const dir: nat
    const pmm: Pmm

    ghost function Now(): State
      reads this, memory, pmm, pmm.bitmap
    {
      State(memory[..], pmm.Used(), pmm.totalFrames)
    }

    ghost predicate Valid()
      reads this, memory, pmm, pmm.bitmap
    {
      memory.Length == FRAMES && pmm.Valid() && Paging.Valid(Now(), dir)
    }

    constructor (mem: array<Frame>, dir: nat, pmm: Pmm)
      ensures this.memory == mem && this.dir == dir && this.pmm == pmm
    {
      this.memory, this.dir, this.pmm := mem, dir, pmm;
    }

    /** A load through the MMU: the kernel only makes loads that do not fault. */
    method Load(v: Word) returns (w: Word)
      requires memory.Length == FRAMES && dir < FRAMES
      requires Translate(memory[..], dir, v).Some?
      ensures w == PhysWord(memory[..], Translate(memory[..], dir, v).value)
    {
      var e := memory[dir][DirIndex(v)];
      var a := if Large(e) then e / LARGE_PAGE * LARGE_PAGE + v % LARGE_PAGE
               else PageOf(memory[FrameOf(e)][TabIndex(v)]) + v % PAGE_SIZE;
      w := memory[a / PAGE_SIZE][a % PAGE_SIZE / 4];
    }

    method Store(v: Word, w: Word, ghost f: nat, ghost i: nat)
      requires memory.Length == FRAMES && dir < FRAMES && f < FRAMES && i < ENTRIES
      requires Translate(memory[..], dir, v) == Some(f * PAGE_SIZE + i * 4)
      modifies memory
      ensures memory[..] == Write(old(memory[..]), f, i, w)
    {
      PhysIndex(f, i);
      var e := memory[dir][DirIndex(v)];
      var a := if Large(e) then e / LARGE_PAGE * LARGE_PAGE + v % LARGE_PAGE
               else PageOf(memory[FrameOf(e)][TabIndex(v)]) + v % PAGE_SIZE;
      var frame := memory[a / PAGE_SIZE];
      memory[a / PAGE_SIZE] := frame[a % PAGE_SIZE / 4 := w];
    }

    method LoadPde(v: Word) returns (e: Word)
      requires memory.Length == FRAMES && dir < FRAMES && SelfMapped(memory[dir], dir)
      ensures e == Pde(memory[..], dir, v)
    {
      PdeAddrMeans(memory[..], dir, v);
      PhysIndex(dir, DirIndex(v));
      e := Load(PdeAddr(v));
    }

    /** Clears the table that v's directory entry names, word by word through the window. */
    method ClearTable(v: Word, ghost f: nat)
      requires memory.Length == FRAMES && dir < FRAMES && SelfMapped(memory[dir], dir)
      requires v < RECURSIVE_BASE && IsTable(Pde(memory[..], dir, v))
      requires f == FrameOf(Pde(memory[..], dir, v)) && f != dir
      modifies memory
      ensures memory[..] == old(memory[..])[f := ZeroFrame()]
    {
      var base := PageOf(PteAddr(v));
      var i := 0;
      while i < ENTRIES
        invariant 0 <= i <= ENTRIES
        invariant forall g :: 0 <= g < FRAMES && g != f ==> memory[g] == old(memory[g])
        invariant forall j :: 0 <= j < i ==> memory[f][j] == 0
      {
        TableWordAddr(memory[..], dir, v, i);
        Store(base + i * 4, 0, f, i);
        i := i + 1;
      }
      assert memory[f] == ZeroFrame();
    }

    /** Points v's directory entry at frame f and makes that frame an empty table. */
    method AddTable(v: Word, f: nat, flags: Word)
      requires memory.Length == FRAMES && dir < FRAMES && SelfMapped(memory[dir], dir)
      requires v < RECURSIVE_BASE && f < FRAMES && f != dir
      modifies memory
      ensures memory[..] == NewTable(old(memory[..]), dir, v, f, flags)
      ensures SelfMapped(memory[dir], dir) && IsTable(Pde(memory[..], dir, v)) && FrameOf(Pde(memory[..], dir, v)) == f
    {
      PdeAddrMeans(memory[..], dir, v);
      NewEntries(f, 0, flags);
      Store(PdeAddr(v), NewPde(f, flags), dir, DirIndex(v));
      ClearTable(v, f);
    }

    method SetPte(v: Word, p: Word, flags: Word)
      requires memory.Length == FRAMES && dir < FRAMES && SelfMapped(memory[dir], dir)
      requires IsTable(Pde(memory[..], dir, v))
      modifies memory
      ensures memory[..] == Write(old(memory[..]), FrameOf(Pde(old(memory[..]), dir, v)), TabIndex(v), NewPte(p, flags))
    {
      PteAddrMeans(memory[..], dir, v);
      Store(PteAddr(v), NewPte(p, flags), FrameOf(Pde(memory[..], dir, v)), TabIndex(v));
    }

    /** vmm_is_page_mapped. */
    method IsPageMapped(v: Word) returns (r: bool)
      requires memory.Length == FRAMES && dir < FRAMES && SelfMapped(memory[dir], dir)
      ensures r <==> Translate(memory[..], dir, v).Some?
    {
      var e := LoadPde(v);
      if !Present(e) {
        return false;
      }
      if Large(e) {
        return true;
      }
      PteAddrMeans(memory[..], dir, v);
      PhysIndex(FrameOf(e), TabIndex(v));
      var t := Load(PteAddr(v));
      return Present(t);
    }

    /** vmm_map_page; mapping a page of the recursive window may break the invariant. */
    method DoMapPage(v: Word, p: Word, flags: Word) returns (r: Outcome<bool>)
      requires Valid()
      modifies memory, pmm.bitmap
      ensures r.Panicked? <==> MapPage(old(Now()), dir, v, p, flags).Panicked?
      ensures r.Returned? ==> MapPage(old(Now()), dir, v, p, flags) == Returned((Now(), r.value))
      ensures r.Returned? && v < RECURSIVE_BASE ==> Valid()
    {
      hide TablesApart;
      hide NewTable;
      hide Write;
      ghost var s := Now();
      var e := LoadPde(v);
      if Present(e) && Large(e) {
        return Returned(e / LARGE_PAGE * LARGE_PAGE + v % LARGE_PAGE / PAGE_SIZE * PAGE_SIZE == PageOf(p));
      }
      if !Present(e) {
        var frame := pmm.DoAllocFrame();
        if frame.Panicked? {
          return Panicked;
        }
        AddTable(v, frame.value / PAGE_SIZE, flags);
      }
      SetPte(v, p, flags);
      if v < RECURSIVE_BASE {
        MapPageValid(s, dir, v, p, flags);
      }
      return Returned(true);
    }
  }
}
