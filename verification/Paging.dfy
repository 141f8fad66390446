/**
 32-bit two-level paging (Intel SDM Volume 3A, section 4.3) over physical memory of 2^30 words, and
 what mapping one page does to it. Masks and shifts by constants are written as / and %.
 */
module Paging {
  import opened Words
  import opened Frames

  const ENTRIES := 1024
  const LARGE_PAGE := 0x40_0000
  /** Virtual addresses from here on reach the page tables themselves. */
  const RECURSIVE_BASE := 0xFFC0_0000
  const SELF := 1023

  function ZeroFrame(): (z: seq<Word>)
    ensures |z| == ENTRIES
  {
    seq(ENTRIES, _ => 0)
  }

  type Frame = w: seq<Word> | |w| == ENTRIES ghost witness ZeroFrame()

  /** Physical memory, frame by frame, and the frame allocator's view of it. */
  datatype State = State(mem: seq<Frame>, used: seq<bool>, total: nat)

  // ---------- Entries ----------

  predicate Present(e: Word) {
    e % 2 == 1
  }

  /** A directory entry with PDE_PS set maps 4 MiB directly. */
  predicate Large(e: Word) {
    e / 128 % 2 == 1
  }

  predicate IsTable(e: Word) {
    Present(e) && !Large(e)
  }

  function FrameOf(e: Word): (f: nat)
    ensures f < FRAMES
  {
    e / PAGE_SIZE
  }

  function PageOf(v: Word): Word {
    v / PAGE_SIZE * PAGE_SIZE
  }

  function DirIndex(v: Word): (i: nat)
    ensures i < ENTRIES
  {
    v / LARGE_PAGE
  }

  function TabIndex(v: Word): (i: nat)
    ensures i < ENTRIES
  {
    v / PAGE_SIZE % ENTRIES
  }

  // ---------- The MMU ----------

  function Pde(mem: seq<Frame>, dir: nat, v: Word): Word
    requires |mem| == FRAMES && dir < FRAMES
  {
    mem[dir][DirIndex(v)]
  }

  function Pte(mem: seq<Frame>, table: nat, v: Word): Word
    requires |mem| == FRAMES && table < FRAMES
  {
    mem[table][TabIndex(v)]
  }

  /** Where virtual address v leads with the directory in frame dir, or None for a page fault. */
  function Translate(mem: seq<Frame>, dir: nat, v: Word): Option<Word>
    requires |mem| == FRAMES && dir < FRAMES
  {
    var e := Pde(mem, dir, v);
    if !Present(e) then None
    else if Large(e) then Some(e / LARGE_PAGE * LARGE_PAGE + v % LARGE_PAGE)
    else
      var t := Pte(mem, FrameOf(e), v);
      if !Present(t) then None else Some(PageOf(t) + v % PAGE_SIZE)
  }

  /** The word at physical address a. */
  function PhysWord(mem: seq<Frame>, a: Word): Word
    requires |mem| == FRAMES
  {
    mem[a / PAGE_SIZE][a % PAGE_SIZE / 4]
  }

  // ---------- The invariant ----------

  /** The last directory entry points back at the directory. */
  ghost predicate SelfMapped(d: Frame, dir: nat) {
    IsTable(d[SELF]) && FrameOf(d[SELF]) == dir
  }

  /** Page-table frames are allocated, differ from the directory, and serve one entry each. */
  ghost predicate TablesApart(d: Frame, used: seq<bool>, dir: nat)
    requires |used| == FRAMES
  {
    && (forall i :: 0 <= i < SELF && IsTable(d[i]) ==> FrameOf(d[i]) != dir && used[FrameOf(d[i])])
    && (forall i, j :: 0 <= i < j < SELF && IsTable(d[i]) && IsTable(d[j]) ==> FrameOf(d[i]) != FrameOf(d[j]))
  }

  ghost predicate Valid(s: State, dir: nat) {
    && |s.mem| == FRAMES && Guarded(s.used, s.total)
    && dir < FRAMES && s.used[dir]
    && SelfMapped(s.mem[dir], dir) && TablesApart(s.mem[dir], s.used, dir)
  }

  // ---------- The recursive window ----------

  /** get_pde: 0xFFFFF000 + ((v >> 20) & 0xFFC). */
  function PdeAddr(v: Word): Word {
    0xFFFF_F000 + v / 0x10_0000 / 4 * 4
  }

  /** get_pte: 0xFFC00000 + ((v >> 10) & 0x3FFFFC). */
  function PteAddr(v: Word): Word {
    0xFFC0_0000 + v / 0x400 / 4 * 4
  }

  /** Reading at get_pde(v) reads the directory entry that controls v. */
  lemma PdeAddrMeans(mem: seq<Frame>, dir: nat, v: Word)
    requires |mem| == FRAMES && dir < FRAMES && SelfMapped(mem[dir], dir)
    ensures Translate(mem, dir, PdeAddr(v)) == Some(dir * PAGE_SIZE + DirIndex(v) * 4)
  {
    assert v / 0x10_0000 / 4 == DirIndex(v);
    assert DirIndex(PdeAddr(v)) == SELF && TabIndex(PdeAddr(v)) == SELF;
    assert PdeAddr(v) % PAGE_SIZE == DirIndex(v) * 4;
  }

  lemma PageParts(v: Word)
    ensures v / PAGE_SIZE == DirIndex(v) * ENTRIES + TabIndex(v)
  {
    assert v / LARGE_PAGE == v / PAGE_SIZE / ENTRIES;
  }

  /** Reading at get_pte(v) reads the table entry that controls v, once v has a table. */
  lemma PteAddrMeans(mem: seq<Frame>, dir: nat, v: Word)
    requires |mem| == FRAMES && dir < FRAMES && SelfMapped(mem[dir], dir)
    requires Present(Pde(mem, dir, v))
    ensures Translate(mem, dir, PteAddr(v)) == Some(FrameOf(Pde(mem, dir, v)) * PAGE_SIZE + TabIndex(v) * 4)
  {
    PageParts(v);
    assert v / 0x400 / 4 == v / PAGE_SIZE;
    var w := PteAddr(v);
    assert w == 0xFFC0_0000 + DirIndex(v) * PAGE_SIZE + TabIndex(v) * 4;
    assert DirIndex(w) == SELF && TabIndex(w) == DirIndex(v);
    assert w % PAGE_SIZE == TabIndex(v) * 4;
  }

  // ---------- Mapping a page ----------

  function NewPde(frame: nat, flags: Word): Word
    requires frame < FRAMES
  {
    frame * PAGE_SIZE + 3 + flags / 4 % 2 * 4
  }

  /** The page's frame, the low twelve flag bits, and PTE_PRESENT. */
  function NewPte(p: Word, flags: Word): Word {
    PageOf(p) + flags % PAGE_SIZE / 2 * 2 + 1
  }

  function Write(mem: seq<Frame>, f: nat, i: nat, w: Word): (r: seq<Frame>)
    requires |mem| == FRAMES && f < FRAMES && i < ENTRIES
    ensures |r| == FRAMES
  {
    mem[f := mem[f][i := w]]
  }

  /** The 4 MiB page's own idea of where v's page is. */
  function LargeTarget(e: Word, v: Word): Word {
    e / LARGE_PAGE * LARGE_PAGE + v % LARGE_PAGE / PAGE_SIZE * PAGE_SIZE
  }

  /** v's directory entry now names frame f, and frame f is an empty table. */
  function NewTable(mem: seq<Frame>, dir: nat, v: Word, f: nat, flags: Word): (r: seq<Frame>)
    requires |mem| == FRAMES && dir < FRAMES && f < FRAMES
    ensures |r| == FRAMES
  {
    Write(mem, dir, DirIndex(v), NewPde(f, flags))[f := ZeroFrame()]
  }

  function MapPage(s: State, dir: nat, v: Word, p: Word, flags: Word): Outcome<(State, bool)>
    requires |s.mem| == FRAMES && dir < FRAMES && Guarded(s.used, s.total)
  {
    var e := Pde(s.mem, dir, v);
    if Present(e) && Large(e) then Returned((s, LargeTarget(e, v) == PageOf(p)))
    else if Present(e) then
      Returned((s.(mem := Write(s.mem, FrameOf(e), TabIndex(v), NewPte(p, flags))), true))
    else
      match AllocFrame(s.used, s.total)
      case Panicked => Panicked
      case Returned((f, used)) =>
        var mem := Write(NewTable(s.mem, dir, v, f, flags), f, TabIndex(v), NewPte(p, flags));
        Returned((State(mem, used, s.total), true))
  }

  // ---------- What mapping a page means ----------

  lemma SamePage(v: Word, w: Word)
    ensures PageOf(w) == PageOf(v) <==> DirIndex(w) == DirIndex(v) && TabIndex(w) == TabIndex(v)
  {
    PageParts(v);
    PageParts(w);
  }

  lemma LowBits(f: nat, x: nat)
    requires x < PAGE_SIZE
    ensures (f * PAGE_SIZE + x) / PAGE_SIZE == f && (f * PAGE_SIZE + x) % PAGE_SIZE == x
  {
  }

  lemma LowFlags(f: nat, x: nat)
    requires x < PAGE_SIZE && f < FRAMES
    ensures Present(f * PAGE_SIZE + x) == (x % 2 == 1)
    ensures Large(f * PAGE_SIZE + x) == (x / 128 % 2 == 1)
  {
    assert f * PAGE_SIZE + x == 2 * (f * 2048) + x;
    assert (f * PAGE_SIZE + x) / 128 == 2 * (f * 16) + x / 128;
  }

  lemma NewEntries(f: nat, p: Word, flags: Word)
    requires f < FRAMES
    ensures IsTable(NewPde(f, flags)) && FrameOf(NewPde(f, flags)) == f
    ensures Present(NewPte(p, flags)) && PageOf(NewPte(p, flags)) == PageOf(p)
    ensures NewPte(p, flags) % PAGE_SIZE == flags % PAGE_SIZE / 2 * 2 + 1
  {
    LowBits(f, 3 + flags / 4 % 2 * 4);
    LowFlags(f, 3 + flags / 4 % 2 * 4);
    LowBits(p / PAGE_SIZE, flags % PAGE_SIZE / 2 * 2 + 1);
    LowFlags(p / PAGE_SIZE, flags % PAGE_SIZE / 2 * 2 + 1);
  }

  /** Where w leads once v's page leads to p's. */
  function Retarget(mem: seq<Frame>, dir: nat, v: Word, p: Word, w: Word): Option<Word>
    requires |mem| == FRAMES && dir < FRAMES
  {
    if PageOf(w) == PageOf(v) then Some(PageOf(p) + w % PAGE_SIZE) else Translate(mem, dir, w)
  }

  /** An existing table: one entry changes, and with it one page. */
  lemma ExistingTable(s: State, dir: nat, v: Word, p: Word, flags: Word, w: Word)
    requires Valid(s, dir) && v < RECURSIVE_BASE && w < RECURSIVE_BASE
    requires IsTable(Pde(s.mem, dir, v))
    ensures var mem := Write(s.mem, FrameOf(Pde(s.mem, dir, v)), TabIndex(v), NewPte(p, flags));
      && mem[dir] == s.mem[dir]
      && Translate(mem, dir, w) == Retarget(s.mem, dir, v, p, w)
  {
    SamePage(v, w);
    NewEntries(0, p, flags);
  }

  /** A new table: nothing around v was mapped before, and only v's page is afterwards. */
  lemma FreshTable(s: State, dir: nat, v: Word, f: nat, p: Word, flags: Word, w: Word)
    requires Valid(s, dir) && v < RECURSIVE_BASE && w < RECURSIVE_BASE
    requires !Present(Pde(s.mem, dir, v)) && f < FRAMES && !s.used[f]
    ensures var mem := Write(NewTable(s.mem, dir, v, f, flags), f, TabIndex(v), NewPte(p, flags));
      && mem[dir] == s.mem[dir][DirIndex(v) := NewPde(f, flags)]
      && Translate(mem, dir, w) == Retarget(s.mem, dir, v, p, w)
  {
    SamePage(v, w);
    NewEntries(f, p, flags);
  }

  lemma FreshTableApart(d: Frame, used: seq<bool>, dir: nat, i: nat, f: nat, flags: Word)
    requires |used| == FRAMES && dir < FRAMES && used[dir]
    requires SelfMapped(d, dir) && TablesApart(d, used, dir)
    requires i < SELF && f < FRAMES && !used[f]
    ensures SelfMapped(d[i := NewPde(f, flags)], dir)
    ensures TablesApart(d[i := NewPde(f, flags)], used[f := true], dir)
  {
    NewEntries(f, 0, flags);
  }

  /** Mapping panics only for want of a frame for a table, and then always. */
  lemma MapPagePanicsIff(s: State, dir: nat, v: Word, p: Word, flags: Word)
    requires Valid(s, dir)
    ensures MapPage(s, dir, v, p, flags).Panicked? <==>
      !Present(Pde(s.mem, dir, v)) && forall f :: 0 <= f < FRAMES ==> s.used[f]
  {
    if !Present(Pde(s.mem, dir, v)) {
      var r := AllocFrame(s.used, s.total);
      assert r.Returned? ==> !s.used[r.value.0];
    }
  }

  /** Mapping keeps the invariant; frames only ever become used. */
  lemma MapPageValid(s: State, dir: nat, v: Word, p: Word, flags: Word)
    requires Valid(s, dir) && v < RECURSIVE_BASE
    requires MapPage(s, dir, v, p, flags).Returned?
    ensures Valid(MapPage(s, dir, v, p, flags).value.0, dir)
    ensures MapPage(s, dir, v, p, flags).value.0.total == s.total
    ensures forall f :: 0 <= f < FRAMES && s.used[f] ==> MapPage(s, dir, v, p, flags).value.0.used[f]
  {
    var e := Pde(s.mem, dir, v);
    if IsTable(e) {
      ExistingTable(s, dir, v, p, flags, v);
    } else if !Present(e) {
      var f := AllocFrame(s.used, s.total).value.0;
      FreshTable(s, dir, v, f, p, flags, v);
      FreshTableApart(s.mem[dir], s.used, dir, DirIndex(v), f, flags);
    }
  }

  /**
   Inside the recursive window the directory is the page table: mapping v there always succeeds and
   overwrites the directory entry of v's page number, whatever that entry was.
   */
  lemma WindowMapsDirectory(s: State, dir: nat, v: Word, p: Word, flags: Word)
    requires Valid(s, dir) && v >= RECURSIVE_BASE
    ensures MapPage(s, dir, v, p, flags)
      == Returned((s.(mem := Write(s.mem, dir, TabIndex(v), NewPte(p, flags))), true))
  {
  }

  /** What a new directory entry must be for the invariant to survive. */
  ghost predicate EntryFits(d: Frame, used: seq<bool>, dir: nat, i: nat, e: Word)
    requires |used| == FRAMES && i < ENTRIES
  {
    if i == SELF then IsTable(e) && FrameOf(e) == dir
    else
      IsTable(e) ==>
        && FrameOf(e) != dir && used[FrameOf(e)]
        && forall j :: 0 <= j < SELF && j != i && IsTable(d[j]) ==> FrameOf(d[j]) != FrameOf(e)
  }

  /**
   So the invariant survives exactly when the page written is the directory itself at its own entry,
   or, elsewhere, not a table at all or a frame in use that is neither the directory nor a table yet.
   */
  lemma WindowValidIff(s: State, dir: nat, v: Word, p: Word, flags: Word)
    requires Valid(s, dir) && v >= RECURSIVE_BASE
    ensures MapPage(s, dir, v, p, flags).Returned?
    ensures Valid(MapPage(s, dir, v, p, flags).value.0, dir) <==>
      EntryFits(s.mem[dir], s.used, dir, TabIndex(v), NewPte(p, flags))
  {
    WindowMapsDirectory(s, dir, v, p, flags);
    var d, i, e := s.mem[dir], TabIndex(v), NewPte(p, flags);
    var d' := d[i := e];
    hide MapPage;
    hide IsTable;
    hide FrameOf;
    hide NewPte;
    hide TabIndex;
    if Valid(MapPage(s, dir, v, p, flags).value.0, dir) {
      assert d'[i] == e;
      forall j | 0 <= j < SELF && j != i && i != SELF && IsTable(e) && IsTable(d[j])
        ensures FrameOf(d[j]) != FrameOf(e)
      {
        assert d'[j] == d[j];
      }
    }
  }

  lemma LargePage(e: Word, v: Word, w: Word)
    ensures LargeTarget(e, v) + v % PAGE_SIZE == e / LARGE_PAGE * LARGE_PAGE + v % LARGE_PAGE
    ensures PageOf(w) == PageOf(v) ==>
      LargeTarget(e, v) + w % PAGE_SIZE == e / LARGE_PAGE * LARGE_PAGE + w % LARGE_PAGE && DirIndex(w) == DirIndex(v)
  {
    SamePage(v, w);
    assert v % LARGE_PAGE == TabIndex(v) * PAGE_SIZE + v % PAGE_SIZE by { PageParts(v); }
    assert w % LARGE_PAGE == TabIndex(w) * PAGE_SIZE + w % PAGE_SIZE by { PageParts(w); }
  }

  /**
   vmm_map_page: when it returns true, v's page leads to p's page and every other page outside the
   recursive window leads where it did; it returns false only over a 4 MiB page that leads elsewhere,
   and then changes nothing.
   */
  lemma MapPageMeans(s: State, dir: nat, v: Word, p: Word, flags: Word, w: Word)
    requires Valid(s, dir) && v < RECURSIVE_BASE && w < RECURSIVE_BASE
    requires MapPage(s, dir, v, p, flags).Returned?
    ensures var (s', ok) := MapPage(s, dir, v, p, flags).value;
      && Valid(s', dir)
      && (ok ==> Translate(s'.mem, dir, w) == Retarget(s.mem, dir, v, p, w))
      && (ok && !Large(Pde(s'.mem, dir, v)) ==>
            Pte(s'.mem, FrameOf(Pde(s'.mem, dir, v)), v) == NewPte(p, flags))
      && (!ok ==> s' == s && Translate(s.mem, dir, v) != Some(PageOf(p) + v % PAGE_SIZE))
  {
    MapPageValid(s, dir, v, p, flags);
    var e := Pde(s.mem, dir, v);
    if IsTable(e) {
      ExistingTable(s, dir, v, p, flags, w);
    } else if !Present(e) {
      FreshTable(s, dir, v, AllocFrame(s.used, s.total).value.0, p, flags, w);
    } else {
      LargePage(e, v, w);
    }
  }
}
