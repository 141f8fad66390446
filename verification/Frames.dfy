/**
 Physical page frames as the allocator's callers see them: frame f is the 4096 bytes from f * 4096,
 and used[f] says whether it is allocated.
 */
module Frames {
  import opened Words

  const PAGE_SIZE := 4096
  const PAGE_MASK := 4095
  /** The allocator manages the first 4 GiB. */
  const MAX_PHYSICAL_BYTES := 0x1_0000_0000
  const FRAMES := 0x10_0000

  /** Frame 0 and the frames past the end of memory are never handed out. */
  ghost predicate Guarded(used: seq<bool>, total: nat) {
    && |used| == FRAMES && total <= FRAMES
    && used[0]
    && forall f :: total <= f < FRAMES ==> used[f]
  }

  ghost predicate Overlaps(f: int, start: int, end: int) {
    start < end && start < (f + 1) * PAGE_SIZE && f * PAGE_SIZE < end
  }

  ghost predicate Within(f: int, start: int, end: int) {
    start <= f * PAGE_SIZE && (f + 1) * PAGE_SIZE <= end
  }

  // ---------- Marking ranges ----------

  function Clip(x: int, hi: int): int {
    if x > hi then hi else x
  }

  /** Reserving rounds outward and freeing rounds inward, so that only whole frames become free. */
  function FirstFrame(start: int, reserve: bool): int {
    var f := if reserve then start / PAGE_SIZE else (start + PAGE_MASK) / PAGE_SIZE;
    if f < 1 then 1 else f
  }

  function LastFrame(end: int, reserve: bool, total: nat): int {
    var e := Clip(end, MAX_PHYSICAL_BYTES);
    Clip(if reserve then (e + PAGE_MASK) / PAGE_SIZE else e / PAGE_SIZE, total)
  }

  function SetFrames(used: seq<bool>, total: nat, start: int, end: int, reserve: bool): (r: seq<bool>)
    ensures |r| == |used|
  {
    if start >= Clip(end, MAX_PHYSICAL_BYTES) then used
    else
      var first := FirstFrame(start, reserve);
      var last := LastFrame(end, reserve, total);
      seq(|used|, f requires 0 <= f < |used| => if first <= f < last then reserve else used[f])
  }

  /** Reserving takes every manageable frame that shares a byte with the range, and no other. */
  lemma ReserveMeans(used: seq<bool>, total: nat, start: nat, end: nat, f: nat)
    requires Guarded(used, total) && f < FRAMES
    ensures SetFrames(used, total, start, end, true)[f] <==>
      used[f] || (1 <= f < total && Overlaps(f, start, end))
  {
  }

  /** Freeing gives out every manageable frame that lies wholly inside the range, and no other. */
  lemma FreeMeans(used: seq<bool>, total: nat, start: nat, end: nat, f: nat)
    requires Guarded(used, total) && f < FRAMES
    ensures SetFrames(used, total, start, end, false)[f] <==>
      used[f] && !(1 <= f < total && Within(f, start, end))
  {
  }

  lemma SetFramesGuarded(used: seq<bool>, total: nat, start: nat, end: nat, reserve: bool)
    requires Guarded(used, total)
    ensures Guarded(SetFrames(used, total, start, end, reserve), total)
  {
  }

  /** pmm_reserve_phys: the end wraps in 64 bits, and a wrapped or too large end means "to the top". */
  function ReservePhys(used: seq<bool>, total: nat, addr: nat, size: nat): (r: seq<bool>)
    ensures |r| == |used|
  {
    if size == 0 || addr >= MAX_PHYSICAL_BYTES then used
    else
      var end := (addr + size) % TWO_64;
      SetFrames(used, total, addr, if end < addr || end > MAX_PHYSICAL_BYTES then MAX_PHYSICAL_BYTES else end, true)
  }

  /** With 64-bit arguments wrapping loses nothing: exactly the overlapping frames become used. */
  lemma ReservePhysMeans(used: seq<bool>, total: nat, addr: nat, size: nat, f: nat)
    requires Guarded(used, total) && f < FRAMES && size < TWO_64
    ensures ReservePhys(used, total, addr, size)[f] <==>
      used[f] || (1 <= f < total && Overlaps(f, addr, addr + size))
    ensures Guarded(ReservePhys(used, total, addr, size), total)
  {
    if size != 0 && addr < MAX_PHYSICAL_BYTES {
      var end := (addr + size) % TWO_64;
      var stop := if end < addr || end > MAX_PHYSICAL_BYTES then MAX_PHYSICAL_BYTES else end;
      ReserveMeans(used, total, addr, stop, f);
      SetFramesGuarded(used, total, addr, stop, true);
    }
  }

  // ---------- Single frames ----------

  /** The lowest free frame from f on, or total. */
  function LowestFree(used: seq<bool>, total: nat, f: nat): (r: nat)
    requires total <= |used|
    requires f <= total
    ensures f <= r <= total
    ensures forall g :: f <= g < r ==> used[g]
    ensures r < total ==> !used[r]
    decreases total - f
  {
    if f == total || !used[f] then f else LowestFree(used, total, f + 1)
  }

  /** pmm_alloc_frame: the lowest free frame, which becomes used; it panics when there is none. */
  function AllocFrame(used: seq<bool>, total: nat): (r: Outcome<(nat, seq<bool>)>)
    requires Guarded(used, total)
    ensures r.Returned? ==> 1 <= r.value.0 < total && !used[r.value.0] && r.value.1 == used[r.value.0 := true]
    ensures r.Returned? ==> forall f :: 0 <= f < r.value.0 ==> used[f]
    ensures r.Panicked? ==> forall f :: 0 <= f < FRAMES ==> used[f]
  {
    if total <= 1 then Panicked
    else
      var f := LowestFree(used, total, 1);
      if f == total then Panicked else Returned((f, used[f := true]))
  }

  // ---------- Contiguous runs ----------

  ghost predicate FreeRun(used: seq<bool>, first: int, pages: int) {
    0 <= first && first + pages <= |used| && forall f :: first <= f < first + pages ==> !used[f]
  }

  ghost predicate Fits(used: seq<bool>, total: nat, first: int, pages: int, align: int)
    requires align > 0
  {
    1 <= first && first + pages <= total && first % align == 0 && FreeRun(used, first, pages)
  }

  /** The simple search: try every frame in turn. */
  ghost function FirstRun(used: seq<bool>, total: nat, pages: nat, align: nat, first: nat): (r: Option<nat>)
    requires align > 0
    ensures r.Some? ==> r.value >= first && Fits(used, total, r.value, pages, align)
    ensures r.Some? ==> forall g :: first <= g < r.value ==> !Fits(used, total, g, pages, align)
    ensures r.None? ==> forall g :: first <= g ==> !Fits(used, total, g, pages, align)
    decreases total - first
  {
    if first + pages > total then None
    else if Fits(used, total, first, pages, align) then Some(first)
    else if first >= total then None
    else FirstRun(used, total, pages, align, first + 1)
  }

  function MarkRun(used: seq<bool>, first: nat, pages: nat): (r: seq<bool>)
    ensures |r| == |used|
  {
    seq(|used|, f requires 0 <= f < |used| => used[f] || first <= f < first + pages)
  }

  lemma MarkRunGuarded(used: seq<bool>, total: nat, first: nat, pages: nat)
    requires Guarded(used, total)
    ensures Guarded(MarkRun(used, first, pages), total)
  {
  }

  /** Marking a run takes its frames and no other. */
  lemma MarkRunMeans(used: seq<bool>, first: nat, pages: nat, f: nat)
    requires f < |used|
    ensures MarkRun(used, first, pages)[f] <==> used[f] || (first <= f && f < first + pages)
  {
  }

  /** All frames from first on, as many as pages, are free. */
  ghost predicate AllFree(used: seq<bool>, first: nat, pages: nat) {
    first + pages <= |used| && forall f :: first <= f < first + pages ==> !used[f]
  }

  /** The search finds the lowest aligned run of free frames, wherever memory ends, and finds one if there is any. */
  lemma FirstRunMeans(used: seq<bool>, total: nat, pages: nat, align: nat)
    requires Guarded(used, total) && pages > 0 && align > 0
    ensures match FirstRun(used, total, pages, align, 1)
      case Some(first) =>
        && first % align == 0 && AllFree(used, first, pages)
        && forall g :: 0 <= g < first && g % align == 0 ==> !AllFree(used, g, pages)
      case None => forall g: nat :: g % align == 0 ==> !AllFree(used, g, pages)
  {
    forall g: nat | AllFree(used, g, pages) && g % align == 0 ensures Fits(used, total, g, pages, align) {
      assert !used[g] && !used[g + pages - 1];
    }
  }

  lemma NoMultipleBetween(align: int, q: int, rem: int, p: int)
    requires 0 < rem < align
    ensures !(q * align + rem <= p * align < q * align + align)
  {
    if p <= q { assert p * align <= q * align; } else { assert (q + 1) * align <= p * align; }
  }

  /** Skipping to the next multiple of the alignment passes no candidate. */
  lemma SkipUnaligned(used: seq<bool>, total: nat, pages: nat, align: nat, first: nat, g: nat)
    requires align > 0 && first % align != 0
    requires first <= g < first + align - first % align
    ensures !Fits(used, total, g, pages, align)
  {
    if g % align == 0 {
      NoMultipleBetween(align, first / align, first % align, g / align);
      assert false;
    }
  }

  /** Every run starting at or before a used frame, but after first, contains that frame. */
  lemma SkipUsed(used: seq<bool>, total: nat, pages: nat, align: nat, first: nat, page: nat, g: nat)
    requires align > 0 && |used| >= total
    requires page < pages && first + page < |used| && used[first + page]
    requires first <= g <= first + page
    ensures !Fits(used, total, g, pages, align)
  {
  }
}
