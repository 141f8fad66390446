/**
 The boot loader's memory map and the start state of the frame allocator (Multiboot Specification
 0.6.96, section 3.3): which frames pmm_init leaves free.
 */
module BootMap {
  import opened Words
  import opened Frames

  const ENTRY_MIN := 20
  const AVAILABLE := 1
  const BOOTSTRAP_MAPPED_BYTES := 0x100_0000
  const KERNEL_VIRTUAL_OFFSET := 0xC000_0000
  const SIZEOF_INFO := 118
  const SIZEOF_MODULE := 16
  const STRING_BYTES := 4096

  const INFO_MODS := 3
  const INFO_MEM_MAP := 6
  const INFO_FRAMEBUFFER := 12

  // ---------- Parsing ----------

  datatype Entry = Entry(base: nat, length: nat, kind: nat) {
    function End(): nat { base + length }
  }

  function U32(b: seq<Byte>, off: nat): (w: Word)
    requires off + 4 <= |b|
  {
    b[off] as int + 0x100 * (b[off + 1] as int) + 0x1_0000 * (b[off + 2] as int) + 0x100_0000 * (b[off + 3] as int)
  }

  function U64(b: seq<Byte>, off: nat): nat
    requires off + 8 <= |b|
  {
    U32(b, off) as int + TWO_32 * (U32(b, off + 4) as int)
  }

  /** The entry whose size field is at off; the caller has checked that it fits. */
  function EntryAt(b: seq<Byte>, off: nat): Entry
    requires off + 4 + ENTRY_MIN <= |b|
  {
    Entry(U64(b, off + 4), U64(b, off + 12), U32(b, off + 20))
  }

  /** No entry here: too few bytes for a size field, or a size that is too small or too large. */
  predicate Malformed(b: seq<Byte>, off: nat)
    requires off < |b|
  {
    |b| - off < 4 || U32(b, off) < ENTRY_MIN || U32(b, off) > |b| - off - 4
  }

  function Prepend(front: seq<Entry>, rest: Outcome<seq<Entry>>): Outcome<seq<Entry>> {
    match rest
    case Panicked => Panicked
    case Returned(es) => Returned(front + es)
  }

  /** The non-empty entries from off on; a malformed entry, or one that wraps, panics. */
  function Entries(b: seq<Byte>, off: nat): Outcome<seq<Entry>>
    requires off <= |b|
    decreases |b| - off
  {
    if off == |b| then Returned([])
    else if Malformed(b, off) then Panicked
    else
      var e := EntryAt(b, off);
      if e.length != 0 && e.End() >= TWO_64 then Panicked
      else
        Prepend(if e.length == 0 then [] else [e], Entries(b, off + 4 + U32(b, off)))
  }

  lemma PrependTwice(a: seq<Entry>, b: seq<Entry>, rest: Outcome<seq<Entry>>)
    ensures Prepend([], rest) == rest
    ensures Prepend(a, Prepend(b, rest)) == Prepend(a + b, rest)
  {
    if rest.Returned? {
      assert [] + rest.value == rest.value;
      assert a + (b + rest.value) == a + b + rest.value;
    }
  }

  // ---------- The passes over the map ----------

  function Highest(es: seq<Entry>): (h: nat)
    ensures forall e <- es :: e.End() <= h
    ensures h == 0 || exists e <- es :: e.End() == h
  {
    if es == [] then 0
    else
      var h := Highest(es[..|es| - 1]);
      var e := es[|es| - 1];
      if e.End() > h then e.End() else h
  }

  function Touch(used: seq<bool>, total: nat, pass: nat, e: Entry): (r: seq<bool>)
    ensures |r| == |used|
  {
    if pass == 1 && e.kind == AVAILABLE then SetFrames(used, total, e.base, e.End(), false)
    else if pass == 2 && e.kind != AVAILABLE then SetFrames(used, total, e.base, e.End(), true)
    else used
  }

  function Pass(used: seq<bool>, total: nat, pass: nat, es: seq<Entry>): (r: seq<bool>)
    ensures |r| == |used|
  {
    if es == [] then used
    else Touch(Pass(used, total, pass, es[..|es| - 1]), total, pass, es[|es| - 1])
  }

  lemma {:induction false} PassZero(used: seq<bool>, total: nat, es: seq<Entry>)
    ensures Pass(used, total, 0, es) == used
  {
    if es != [] { PassZero(used, total, es[..|es| - 1]); }
  }

  ghost predicate InAvailable(es: seq<Entry>, f: int) {
    exists e <- es :: e.kind == AVAILABLE && Within(f, e.base, e.End())
  }

  ghost predicate TouchesReserved(es: seq<Entry>, f: int) {
    exists e <- es :: e.kind != AVAILABLE && Overlaps(f, e.base, e.End())
  }

  lemma {:induction false} PassOneMeans(used: seq<bool>, total: nat, es: seq<Entry>, f: nat)
    requires Guarded(used, total) && f < FRAMES
    ensures Guarded(Pass(used, total, 1, es), total)
    ensures Pass(used, total, 1, es)[f] <==> used[f] && !(1 <= f < total && InAvailable(es, f))
  {
    if es != [] {
      var front, e := es[..|es| - 1], es[|es| - 1];
      PassOneMeans(used, total, front, f);
      assert es == front + [e];
      if e.kind == AVAILABLE {
        FreeMeans(Pass(used, total, 1, front), total, e.base, e.End(), f);
        SetFramesGuarded(Pass(used, total, 1, front), total, e.base, e.End(), false);
      }
    }
  }

  lemma {:induction false} PassTwoMeans(used: seq<bool>, total: nat, es: seq<Entry>, f: nat)
    requires Guarded(used, total) && f < FRAMES
    ensures Guarded(Pass(used, total, 2, es), total)
    ensures Pass(used, total, 2, es)[f] <==> used[f] || (1 <= f < total && TouchesReserved(es, f))
  {
    if es != [] {
      var front, e := es[..|es| - 1], es[|es| - 1];
      PassTwoMeans(used, total, front, f);
      assert es == front + [e];
      if e.kind != AVAILABLE {
        ReserveMeans(Pass(used, total, 2, front), total, e.base, e.End(), f);
        SetFramesGuarded(Pass(used, total, 2, front), total, e.base, e.End(), true);
      }
    }
  }

  /** The entries read before offset off are seen: one more entry moves it from the rest to seen. */
  lemma ReadOne(b: seq<Byte>, off: nat, seen: seq<Entry>)
    requires off < |b| && !Malformed(b, off)
    ensures var e := EntryAt(b, off);
      Prepend(seen, Entries(b, off)) ==
        if e.length != 0 && e.End() >= TWO_64 then Panicked
        else Prepend(if e.length == 0 then seen else seen + [e], Entries(b, off + 4 + U32(b, off)))
  {
    var e := EntryAt(b, off);
    PrependTwice(seen, if e.length == 0 then [] else [e], Entries(b, off + 4 + U32(b, off)));
    assert seen + [] == seen;
  }

  /** One more entry for a pass that has handled seen. */
  lemma PassOne(used: seq<bool>, total: nat, pass: nat, seen: seq<Entry>, e: Entry)
    ensures Pass(used, total, pass, seen + [e]) == Touch(Pass(used, total, pass, seen), total, pass, e)
    ensures Highest(seen + [e]) == if e.End() > Highest(seen) then e.End() else Highest(seen)
  {
    assert (seen + [e])[..|seen|] == seen;
  }

  // ---------- The boot loader's own structures ----------

  datatype Module = Module(start: Word, end: Word, cmdline: Word)

  /** A module descriptor: start, end, command line and a reserved word. */
  function ModuleAt(b: seq<Byte>, i: nat): Module
    requires SIZEOF_MODULE * (i + 1) <= |b|
  {
    Module(U32(b, SIZEOF_MODULE * i), U32(b, SIZEOF_MODULE * i + 4), U32(b, SIZEOF_MODULE * i + 8))
  }

  /** The descriptors in a table of them. */
  function Modules(b: seq<Byte>): (mods: seq<Module>)
    ensures |mods| == |b| / SIZEOF_MODULE
  {
    seq(|b| / SIZEOF_MODULE, i requires 0 <= i < |b| / SIZEOF_MODULE => ModuleAt(b, i))
  }

  /** The fields of the boot information structure that pmm_init reads; addr is 0 for a null pointer. */
  datatype BootInfo = BootInfo(
    addr: Word, flags: Word, cmdLine: Word, modsCount: Word, modsAddr: Word,
    mmapLen: Word, mmapAddr: Word, bootLoaderName: Word,
    framebufferAddr: nat, framebufferPitch: Word, framebufferHeight: Word)

  /** The structure in memory (Multiboot Specification 0.6.96, section 3.3), at virtual address addr. */
  function InfoAt(addr: Word, b: seq<Byte>): BootInfo
    requires |b| == SIZEOF_INFO
  {
    BootInfo(addr, U32(b, 0), U32(b, 16), U32(b, 20), U32(b, 24), U32(b, 44), U32(b, 48), U32(b, 64),
             U64(b, 88), U32(b, 96), U32(b, 104))
  }

  predicate Flag(flags: Word, k: nat) {
    flags / Pow2(k) % 2 == 1
  }

  /** Physical ranges the bootstrap mapping lets the kernel read. */
  predicate Readable(addr: nat, size: nat) {
    addr != 0 && addr + size <= BOOTSTRAP_MAPPED_BYTES
  }

  type Range = (nat, nat)

  function Text(addr: Word): seq<Range> {
    if addr != 0 then [(addr, STRING_BYTES)] else []
  }

  /** Each module's payload and command line; a module that ends before it starts panics. */
  function ModuleRanges(mods: seq<Module>): Outcome<seq<Range>> {
    if mods == [] then Returned([])
    else
      match ModuleRanges(mods[..|mods| - 1])
      case Panicked => Panicked
      case Returned(front) =>
        var m := mods[|mods| - 1];
        if m.end < m.start then Panicked else Returned(front + [(m.start, m.end - m.start)] + Text(m.cmdline))
  }

  function Reserve(used: seq<bool>, total: nat, rs: seq<Range>): (r: seq<bool>)
    ensures |r| == |used|
  {
    if rs == [] then used
    else ReservePhys(Reserve(used, total, rs[..|rs| - 1]), total, rs[|rs| - 1].0, rs[|rs| - 1].1)
  }

  lemma ReserveOne(used: seq<bool>, total: nat, done: seq<Range>, r: Range)
    ensures Reserve(used, total, done + [r]) == ReservePhys(Reserve(used, total, done), total, r.0, r.1)
  {
    assert (done + [r])[..|done|] == done;
  }

  lemma ModuleOne(mods: seq<Module>, i: nat, done: seq<Range>)
    requires i < |mods| && ModuleRanges(mods[..i]).Returned?
    ensures ModuleRanges(mods[..i + 1]).Panicked? <==> mods[i].end < mods[i].start
    ensures mods[i].end >= mods[i].start ==>
      done + ModuleRanges(mods[..i]).value + [(mods[i].start, mods[i].end - mods[i].start)] + Text(mods[i].cmdline)
        == done + ModuleRanges(mods[..i + 1]).value
  {
    assert mods[..i + 1][..i] == mods[..i];
  }

  lemma {:induction false} ModulePanics(mods: seq<Module>, i: nat)
    requires i <= |mods| && ModuleRanges(mods[..i]).Panicked?
    ensures ModuleRanges(mods).Panicked?
    decreases |mods|
  {
    if i < |mods| {
      assert mods[..|mods| - 1][..i] == mods[..i];
      ModulePanics(mods[..|mods| - 1], i);
    } else {
      assert mods[..i] == mods;
    }
  }

  function ModsRanges(info: BootInfo, mods: seq<Module>): Outcome<seq<Range>> {
    if !Flag(info.flags, INFO_MODS) then Returned([])
    else if info.modsCount > 256 then Panicked
    else if info.modsCount == 0 then Returned([])
    else if !Readable(info.modsAddr, info.modsCount * SIZEOF_MODULE) then Panicked
    else
      match ModuleRanges(mods)
      case Panicked => Panicked
      case Returned(rs) => Returned([(info.modsAddr, info.modsCount * SIZEOF_MODULE)] + rs)
  }

  function InfoRanges(info: BootInfo): seq<Range> {
    [(if info.addr >= KERNEL_VIRTUAL_OFFSET then info.addr - KERNEL_VIRTUAL_OFFSET else info.addr, SIZEOF_INFO),
     (info.mmapAddr, info.mmapLen)] + Text(info.cmdLine) + Text(info.bootLoaderName)
  }

  function FramebufferRanges(info: BootInfo): seq<Range> {
    if Flag(info.flags, INFO_FRAMEBUFFER) && info.framebufferAddr < MAX_PHYSICAL_BYTES
    then [(info.framebufferAddr, info.framebufferPitch * info.framebufferHeight)]
    else []
  }

  /** Everything reserve_boot_structures keeps, in its order. */
  function BootRanges(info: BootInfo, mods: seq<Module>): Outcome<seq<Range>> {
    match ModsRanges(info, mods)
    case Panicked => Panicked
    case Returned(rs) => Returned(InfoRanges(info) + rs + FramebufferRanges(info))
  }

  ghost predicate TouchesRange(rs: seq<Range>, f: int) {
    exists r <- rs :: Overlaps(f, r.0, r.0 + r.1)
  }

  lemma {:induction false} ReserveAllMeans(used: seq<bool>, total: nat, rs: seq<Range>, f: nat)
    requires Guarded(used, total) && f < FRAMES
    requires forall r <- rs :: r.1 < TWO_64
    ensures Guarded(Reserve(used, total, rs), total)
    ensures Reserve(used, total, rs)[f] <==> used[f] || (1 <= f < total && TouchesRange(rs, f))
  {
    if rs != [] {
      var front, r := rs[..|rs| - 1], rs[|rs| - 1];
      ReserveAllMeans(used, total, front, f);
      assert rs == front + [r];
      ReservePhysMeans(Reserve(used, total, front), total, r.0, r.1, f);
    }
  }

  // ---------- pmm_init ----------

  function AllUsed(): (used: seq<bool>)
    ensures |used| == FRAMES
  {
    seq(FRAMES, _ => true)
  }

  /** total_frames and the frame map that pmm_init leaves, given what the boot structures contain. */
  function InitialFrames(info: BootInfo, mmap: seq<Byte>, mods: seq<Module>, allocStart: Word)
    : Outcome<(nat, seq<bool>)>
  {
    if info.addr == 0 then Panicked
    else if !Flag(info.flags, INFO_MEM_MAP) || info.mmapLen == 0 || !Readable(info.mmapAddr, info.mmapLen) then Panicked
    else
      match Entries(mmap, 0)
      case Panicked => Panicked
      case Returned(es) =>
        var total := Clip(Highest(es), MAX_PHYSICAL_BYTES) / PAGE_SIZE;
        if total == 0 then Panicked
        else
          match BootRanges(info, mods)
          case Panicked => Panicked
          case Returned(rs) =>
            var mapped := Pass(Pass(AllUsed(), total, 1, es), total, 2, es);
            Returned((total, Reserve(SetFrames(mapped, total, 0, allocStart, true), total, rs)))
  }

  lemma {:induction false} ProductGrows(a: nat, c: nat, b: nat)
    requires a <= c
    ensures 0 <= a * b <= c * b
  {
    if b > 0 { ProductGrows(a, c, b - 1); }
  }

  lemma ProductFits(a: Word, b: Word)
    ensures 0 <= a * b < TWO_64
  {
    ProductGrows(a, 0xFFFF_FFFF, b);
  }

  lemma {:induction false} ModuleRangesFit(mods: seq<Module>)
    requires ModuleRanges(mods).Returned?
    ensures forall r <- ModuleRanges(mods).value :: r.1 < TWO_64
  {
    if mods != [] { ModuleRangesFit(mods[..|mods| - 1]); }
  }

  lemma RangesFit(info: BootInfo, mods: seq<Module>)
    requires BootRanges(info, mods).Returned?
    ensures forall r <- BootRanges(info, mods).value :: r.1 < TWO_64
  {
    ProductFits(info.framebufferPitch, info.framebufferHeight);
    assert forall r <- FramebufferRanges(info) :: r.1 < TWO_64;
    assert forall r <- InfoRanges(info) :: r.1 < TWO_64;
    hide FramebufferRanges;
    hide InfoRanges;
    if Flag(info.flags, INFO_MODS) && 0 < info.modsCount { ModuleRangesFit(mods); }
  }

  /**
   A frame is free after pmm_init exactly when one available entry contains it whole, and no
   reserved entry, no byte below the kernel's end and no boot structure touches it.
   */
  lemma FreeAfterInit(info: BootInfo, mmap: seq<Byte>, mods: seq<Module>, allocStart: Word, f: nat)
    requires InitialFrames(info, mmap, mods, allocStart).Returned? && f < FRAMES
    ensures var (total, used) := InitialFrames(info, mmap, mods, allocStart).value;
      var es := Entries(mmap, 0).value;
      && Guarded(used, total)
      && (!used[f] <==>
            && 1 <= f < total
            && InAvailable(es, f) && !TouchesReserved(es, f)
            && f * PAGE_SIZE >= allocStart
            && !TouchesRange(BootRanges(info, mods).value, f))
  {
    var es := Entries(mmap, 0).value;
    var total := Clip(Highest(es), MAX_PHYSICAL_BYTES) / PAGE_SIZE;
    var u1 := Pass(AllUsed(), total, 1, es);
    var u2 := Pass(u1, total, 2, es);
    var u3 := SetFrames(u2, total, 0, allocStart, true);
    PassOneMeans(AllUsed(), total, es, f);
    PassTwoMeans(u1, total, es, f);
    ReserveMeans(u2, total, 0, allocStart, f);
    SetFramesGuarded(u2, total, 0, allocStart, true);
    RangesFit(info, mods);
    ReserveAllMeans(u3, total, BootRanges(info, mods).value, f);
  }

  lemma InitialGuarded(info: BootInfo, mmap: seq<Byte>, mods: seq<Module>, allocStart: Word)
    requires InitialFrames(info, mmap, mods, allocStart).Returned?
    ensures var (total, used) := InitialFrames(info, mmap, mods, allocStart).value;
      Guarded(used, total)
  {
    FreeAfterInit(info, mmap, mods, allocStart, 0);
  }
}
