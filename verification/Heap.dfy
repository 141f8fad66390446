/**
 The kernel heap seen as a list of segments: what kmalloc and kfree do to the list, and what every
 list they can reach looks like. HeapAllocator shows that the linked headers in memory hold exactly
 this list.
 */
module Heap {
  import opened Words

  const HEADER := 16
  const MIN_SPLIT := 32

  /** A header at addr and the len payload bytes behind it. */
  datatype Segment = Segment(addr: int, len: int, free: bool) {
    function Payload(): int { addr + HEADER }
    function End(): int { addr + HEADER + len }
  }

  /** The segments cover [start, limit) exactly, header after payload, in multiples of 16 bytes. */
  ghost predicate Tiles(segs: seq<Segment>, start: int, limit: int) {
    && |segs| > 0
    && segs[0].addr == start
    && segs[|segs| - 1].End() == limit
    && (forall i :: 0 <= i < |segs| ==> segs[i].addr % 16 == 0 && segs[i].len % 16 == 0 && segs[i].len >= 16)
    && (forall i, j :: 0 <= i < j < |segs| && j == i + 1 ==> segs[j].addr == segs[i].End())
  }

  ghost predicate Coalesced(segs: seq<Segment>) {
    forall i, j :: 0 <= i < j < |segs| && j == i + 1 ==> !(segs[i].free && segs[j].free)
  }

  ghost predicate WellFormed(segs: seq<Segment>, start: int, limit: int) {
    Tiles(segs, start, limit) && Coalesced(segs)
  }

  /** The live blocks: payload address and usable length. */
  ghost function Live(segs: seq<Segment>): set<(int, int)> {
    set i | 0 <= i < |segs| && !segs[i].free :: (segs[i].Payload(), segs[i].len)
  }

  // ---------- kmalloc ----------

  predicate Fits(s: Segment, n: int) {
    s.free && s.len >= n
  }

  function FirstFit(segs: seq<Segment>, n: int): (k: nat)
    ensures k <= |segs|
    ensures forall i :: 0 <= i < k ==> !Fits(segs[i], n)
    ensures k < |segs| ==> Fits(segs[k], n)
  {
    if segs == [] then 0
    else if Fits(segs[0], n) then 0
    else 1 + FirstFit(segs[1..], n)
  }

  function AlignUp(n: int): int {
    (n + 15) / 16 * 16
  }

  lemma AlignUpBounds(n: int)
    ensures n <= AlignUp(n) <= n + 15 && AlignUp(n) % 16 == 0
  {
  }

  lemma AlignDownBounds(n: int)
    ensures n - 15 <= n / 16 * 16 <= n && n / 16 * 16 % 16 == 0
  {
  }

  lemma AlignDownSum(a: int, n: int)
    requires a % 16 == 0
    ensures a + n / 16 * 16 == (a + n) / 16 * 16
  {
  }

  function Carve(s: Segment, n: int): seq<Segment> {
    if s.len - n >= HEADER + MIN_SPLIT
    then [Segment(s.addr, n, false), Segment(s.addr + HEADER + n, s.len - n - HEADER, true)]
    else [s.(free := false)]
  }

  function Allocate(segs: seq<Segment>, n: int): seq<Segment>
    requires FirstFit(segs, n) < |segs|
  {
    var k := FirstFit(segs, n);
    segs[..k] + Carve(segs[k], n) + segs[k + 1..]
  }

  // ---------- kfree ----------

  /** The index whose payload is p, or |segs|. */
  function Find(segs: seq<Segment>, p: int): (k: nat)
    ensures k <= |segs|
    ensures forall i :: 0 <= i < k ==> segs[i].Payload() != p
    ensures k < |segs| ==> segs[k].Payload() == p
  {
    if segs == [] then 0
    else if segs[0].Payload() == p then 0
    else 1 + Find(segs[1..], p)
  }

  ghost predicate IsLive(segs: seq<Segment>, p: int) {
    exists i :: 0 <= i < |segs| && !segs[i].free && segs[i].Payload() == p
  }

  /** The first and the last segment that freeing segment k merges. */
  function Lo(segs: seq<Segment>, k: nat): (lo: nat)
    requires k < |segs|
    ensures lo <= k
  {
    if k > 0 && segs[k - 1].free then k - 1 else k
  }

  function Hi(segs: seq<Segment>, k: nat): (hi: nat)
    requires k < |segs|
    ensures k <= hi < |segs|
  {
    if k + 1 < |segs| && segs[k + 1].free then k + 1 else k
  }

  /** One free segment over the bytes of segments lo..hi. */
  function Merged(segs: seq<Segment>, lo: nat, hi: nat): Segment
    requires lo <= hi < |segs|
  {
    Segment(segs[lo].addr, segs[hi].End() - segs[lo].Payload(), true)
  }

  /** Segment k becomes free and swallows whichever of its neighbours are free. */
  function Release(segs: seq<Segment>, k: nat): seq<Segment>
    requires k < |segs|
  {
    segs[..Lo(segs, k)] + [Merged(segs, Lo(segs, k), Hi(segs, k))] + segs[Hi(segs, k) + 1..]
  }

  // ---------- Geometry of a tiling ----------

  lemma {:induction false} Ordered(segs: seq<Segment>, start: int, limit: int, i: int, j: int)
    requires Tiles(segs, start, limit)
    requires 0 <= i < j < |segs|
    ensures segs[i].End() <= segs[j].addr
    decreases j - i
  {
    if i + 1 < j {
      Ordered(segs, start, limit, i, j - 1);
    }
  }

  lemma InRegion(segs: seq<Segment>, start: int, limit: int, i: int)
    requires Tiles(segs, start, limit)
    requires 0 <= i < |segs|
    ensures start <= segs[i].addr < segs[i].End() <= limit
  {
    if i > 0 { Ordered(segs, start, limit, 0, i); }
    if i < |segs| - 1 { Ordered(segs, start, limit, i, |segs| - 1); }
  }

  /** Every address of the region lies in exactly one segment; this finds it. */
  lemma {:induction false} Locate(segs: seq<Segment>, start: int, limit: int, a: int) returns (i: int)
    requires Tiles(segs, start, limit)
    requires start <= a < limit
    ensures 0 <= i < |segs| && segs[i].addr <= a < segs[i].End()
  {
    i := 0;
    while a >= segs[i].End()
      invariant 0 <= i < |segs| && segs[i].addr <= a
      decreases |segs| - i
    {
      i := i + 1;
    }
  }

  // ---------- What the operations keep ----------

  /** Two well-formed runs of segments that meet, not both free where they meet, form a longer one. */
  lemma Join(a: seq<Segment>, b: seq<Segment>, start: int, mid: int, limit: int)
    requires WellFormed(a, start, mid) && WellFormed(b, mid, limit)
    requires !(a[|a| - 1].free && b[0].free)
    ensures WellFormed(a + b, start, limit)
  {
    var r := a + b;
    forall i, j | 0 <= i < j < |r| && j == i + 1
      ensures r[j].addr == r[i].End() && !(r[i].free && r[j].free)
    {
      if i >= |a| {
        assert r[i] == b[i - |a|] && r[j] == b[j - |a|];
      }
    }
  }

  lemma Prefix(segs: seq<Segment>, start: int, limit: int, k: int)
    requires WellFormed(segs, start, limit)
    requires 0 < k <= |segs|
    ensures WellFormed(segs[..k], start, segs[k - 1].End())
  {
  }

  lemma Suffix(segs: seq<Segment>, start: int, limit: int, k: int)
    requires WellFormed(segs, start, limit)
    requires 0 <= k < |segs|
    ensures WellFormed(segs[k..], segs[k].addr, limit)
  {
    var b := segs[k..];
    forall i, j | 0 <= i < j < |b| && j == i + 1
      ensures b[j].addr == b[i].End() && !(b[i].free && b[j].free)
    {
      assert b[i] == segs[k + i] && b[j] == segs[k + j];
    }
  }

  /** Segments lo..hi give way to mid, which covers the same bytes. */
  lemma Splice(segs: seq<Segment>, start: int, limit: int, lo: int, hi: int, mid: seq<Segment>)
    requires WellFormed(segs, start, limit)
    requires 0 <= lo <= hi < |segs|
    requires WellFormed(mid, segs[lo].addr, segs[hi].End())
    requires lo > 0 ==> !(segs[lo - 1].free && mid[0].free)
    requires hi + 1 < |segs| ==> !(mid[|mid| - 1].free && segs[hi + 1].free)
    ensures WellFormed(segs[..lo] + mid + segs[hi + 1..], start, limit)
  {
    var front := segs[..lo] + mid;
    if lo == 0 {
      assert front == mid;
    } else {
      Prefix(segs, start, limit, lo);
      Join(segs[..lo], mid, start, segs[lo].addr, segs[hi].End());
    }
    if hi + 1 == |segs| {
      assert front + segs[hi + 1..] == front;
    } else {
      Suffix(segs, start, limit, hi + 1);
      Join(front, segs[hi + 1..], start, segs[hi].End(), limit);
    }
  }

  lemma CarveParts(addr: int, len: int, n: int)
    requires addr % 16 == 0 && len % 16 == 0 && n % 16 == 0
    ensures (addr + HEADER + n) % 16 == 0 && (len - n - HEADER) % 16 == 0
  {
  }

  lemma CarveWellFormed(s: Segment, n: int)
    requires s.addr % 16 == 0 && s.len % 16 == 0 && n % 16 == 0 && 16 <= n <= s.len
    ensures WellFormed(Carve(s, n), s.addr, s.End())
  {
    CarveParts(s.addr, s.len, n);
    if s.len - n >= HEADER + MIN_SPLIT {
      var x, y := Segment(s.addr, n, false), Segment(s.addr + HEADER + n, s.len - n - HEADER, true);
      assert Carve(s, n) == [x, y];
      assert Tiles([x, y], s.addr, s.End());
    } else {
      assert Tiles([s.(free := false)], s.addr, s.End());
    }
  }

  lemma AllocateWellFormed(segs: seq<Segment>, start: int, limit: int, n: int)
    requires WellFormed(segs, start, limit)
    requires n % 16 == 0 && n >= 16
    requires FirstFit(segs, n) < |segs|
    ensures WellFormed(Allocate(segs, n), start, limit)
  {
    var k := FirstFit(segs, n);
    CarveWellFormed(segs[k], n);
    Splice(segs, start, limit, k, k, Carve(segs[k], n));
  }

  lemma Multiples(a: int, b: int, len: int)
    requires a % 16 == 0 && b % 16 == 0 && len % 16 == 0
    ensures (b + HEADER + len - (a + HEADER)) % 16 == 0 && (a + HEADER + len) % 16 == 0
  {
  }

  lemma MergedWellFormed(segs: seq<Segment>, start: int, limit: int, lo: nat, hi: nat)
    requires Tiles(segs, start, limit)
    requires lo <= hi < |segs|
    ensures WellFormed([Merged(segs, lo, hi)], segs[lo].addr, segs[hi].End())
  {
    if lo < hi { Ordered(segs, start, limit, lo, hi); }
    Multiples(segs[lo].addr, segs[hi].addr, segs[hi].len);
  }

  lemma ReleaseWellFormed(segs: seq<Segment>, start: int, limit: int, k: nat)
    requires WellFormed(segs, start, limit)
    requires k < |segs| && !segs[k].free
    ensures WellFormed(Release(segs, k), start, limit)
  {
    var lo, hi := Lo(segs, k), Hi(segs, k);
    MergedWellFormed(segs, start, limit, lo, hi);
    Splice(segs, start, limit, lo, hi, [Merged(segs, lo, hi)]);
  }

  // ---------- Refinement of the map of live blocks ----------

  lemma LiveAt(segs: seq<Segment>, i: int)
    requires 0 <= i < |segs|
    ensures !segs[i].free ==> (segs[i].Payload(), segs[i].len) in Live(segs)
  {
    if !segs[i].free {
      var b := (segs[i].Payload(), segs[i].len);
      assert b in Live(segs);
    }
  }

  lemma OneLive(segs: seq<Segment>, k: nat)
    requires k < |segs| && !segs[k].free
    requires forall i :: 0 <= i < |segs| && i != k ==> segs[i].free
    ensures Live(segs) == {(segs[k].Payload(), segs[k].len)}
  {
    LiveAt(segs, k);
  }

  lemma LiveOfConcat(a: seq<Segment>, b: seq<Segment>)
    ensures Live(a + b) == Live(a) + Live(b)
  {
    forall x | x in Live(a) + Live(b) ensures x in Live(a + b) {
      if x in Live(a) {
        var i :| 0 <= i < |a| && !a[i].free && x == (a[i].Payload(), a[i].len);
        assert (a + b)[i] == a[i];
      } else {
        var i :| 0 <= i < |b| && !b[i].free && x == (b[i].Payload(), b[i].len);
        assert (a + b)[|a| + i] == b[i];
      }
    }
  }

  /** Replacing segments lo..hi by mid changes the live blocks of those segments only. */
  lemma LiveSplice(segs: seq<Segment>, lo: int, hi: int, mid: seq<Segment>)
    requires 0 <= lo <= hi < |segs|
    ensures Live(segs) == Live(segs[..lo]) + Live(segs[lo..hi + 1]) + Live(segs[hi + 1..])
    ensures Live(segs[..lo] + mid + segs[hi + 1..]) == Live(segs[..lo]) + Live(mid) + Live(segs[hi + 1..])
  {
    assert segs == segs[..lo] + segs[lo..hi + 1] + segs[hi + 1..];
    LiveOfConcat(segs[..lo] + segs[lo..hi + 1], segs[hi + 1..]);
    LiveOfConcat(segs[..lo], segs[lo..hi + 1]);
    LiveOfConcat(segs[..lo] + mid, segs[hi + 1..]);
    LiveOfConcat(segs[..lo], mid);
  }

  /** A live block other than segment k's lies wholly before segment k or wholly behind it. */
  lemma LiveElsewhere(segs: seq<Segment>, start: int, limit: int, k: int, b: (int, int))
    requires Tiles(segs, start, limit)
    requires 0 <= k < |segs|
    requires b in Live(segs) && (segs[k].free || b != (segs[k].Payload(), segs[k].len))
    ensures b.0 + b.1 <= segs[k].addr || segs[k].End() <= b.0 - HEADER
    ensures b.1 >= 16
  {
    var i :| 0 <= i < |segs| && !segs[i].free && b == (segs[i].Payload(), segs[i].len);
    if i < k { Ordered(segs, start, limit, i, k); } else { Ordered(segs, start, limit, k, i); }
  }

  lemma CarveLength(have: int, n: int)
    requires have % 16 == 0 && n % 16 == 0
    ensures have - n < HEADER + MIN_SPLIT ==> have - n <= MIN_SPLIT
  {
  }

  lemma CarveLive(s: Segment, n: int) returns (p: int, len: int)
    requires s.addr % 16 == 0 && s.len % 16 == 0 && n % 16 == 0 && s.len >= n
    ensures p == s.Payload() && p % 16 == 0 && n <= len <= n + MIN_SPLIT && p + len <= s.End()
    ensures Live(Carve(s, n)) == {(p, len)}
  {
    p, len := s.Payload(), Carve(s, n)[0].len;
    OneLive(Carve(s, n), 0);
    if len == s.len { CarveLength(s.len, n); }
  }

  /**
   The new block is aligned, big enough, in the region and clear of every other live block and its
   header; the other live blocks are exactly the old ones.
   */
  lemma AllocateLive(segs: seq<Segment>, start: int, limit: int, n: int)
    returns (p: int, len: int)
    requires WellFormed(segs, start, limit)
    requires n % 16 == 0 && n >= 16
    requires FirstFit(segs, n) < |segs|
    ensures p == segs[FirstFit(segs, n)].Payload()
    ensures p % 16 == 0 && n <= len <= n + MIN_SPLIT && start + HEADER <= p && p + len <= limit
    ensures forall b <- Live(segs) :: b.0 + b.1 <= p - HEADER || p + len <= b.0 - HEADER
    ensures Live(Allocate(segs, n)) == Live(segs) + {(p, len)}
  {
    var k := FirstFit(segs, n);
    p, len := CarveLive(segs[k], n);
    InRegion(segs, start, limit, k);
    forall b | b in Live(segs) ensures b.0 + b.1 <= p - HEADER || p + len <= b.0 - HEADER {
      LiveElsewhere(segs, start, limit, k, b);
    }
    assert segs[k..k + 1] == [segs[k]];
    assert Live([segs[k]]) == {};
    LiveSplice(segs, k, k, Carve(segs[k], n));
  }

  lemma OneGone(a: set<(int, int)>, x: (int, int), c: set<(int, int)>)
    requires x !in a + c
    ensures a + {} + c == a + {x} + c - {x}
  {
  }

  lemma NotElsewhere(segs: seq<Segment>, start: int, limit: int, k: nat, lo: nat, hi: nat)
    requires Tiles(segs, start, limit)
    requires lo <= k <= hi < |segs|
    ensures (segs[k].Payload(), segs[k].len) !in Live(segs[..lo]) + Live(segs[hi + 1..])
  {
    forall i | 0 <= i < lo || hi < i < |segs| ensures segs[i].addr != segs[k].addr {
      if i < k { Ordered(segs, start, limit, i, k); } else { Ordered(segs, start, limit, k, i); }
    }
    var rest := segs[hi + 1..];
    forall i | 0 <= i < |rest| ensures rest[i].addr != segs[k].addr {
      assert rest[i] == segs[hi + 1 + i];
    }
  }

  /** kfree removes the one block it was given and no other. */
  lemma ReleaseLive(segs: seq<Segment>, start: int, limit: int, k: nat)
    requires WellFormed(segs, start, limit)
    requires k < |segs| && !segs[k].free
    ensures Live(Release(segs, k)) == Live(segs) - {(segs[k].Payload(), segs[k].len)}
  {
    hide Tiles;
    var lo, hi := Lo(segs, k), Hi(segs, k);
    var mid := [Merged(segs, lo, hi)];
    var gone := (segs[k].Payload(), segs[k].len);
    var was := segs[lo..hi + 1];
    assert was[k - lo] == segs[k];
    OneLive(was, k - lo);
    assert Live(mid) == {};
    hide Live;
    LiveSplice(segs, lo, hi, mid);
    NotElsewhere(segs, start, limit, k, lo, hi);
    OneGone(Live(segs[..lo]), gone, Live(segs[hi + 1..]));
  }

  /** A live block and a header, or two different live blocks, never share a byte. */
  lemma LiveBlocksApart(segs: seq<Segment>, start: int, limit: int, i: int, j: int)
    requires Tiles(segs, start, limit)
    requires 0 <= i < |segs| && 0 <= j < |segs| && i != j
    ensures segs[i].End() <= segs[j].addr || segs[j].End() <= segs[i].addr
  {
    if i < j { Ordered(segs, start, limit, i, j); } else { Ordered(segs, start, limit, j, i); }
  }

  // ---------- Exhaustion ----------

  /** The header and n bytes at a lie in the region and touch no live block and no live block's header. */
  ghost predicate Gap(segs: seq<Segment>, start: int, limit: int, a: int, n: int) {
    && start <= a && a + HEADER + n <= limit
    && forall b <- Live(segs) :: b.0 + b.1 <= a || a + HEADER + n <= b.0 - HEADER
  }

  /** A free segment that is long enough is a gap. */
  lemma FitIsGap(segs: seq<Segment>, start: int, limit: int, k: nat, n: int)
    requires Tiles(segs, start, limit) && k < |segs| && Fits(segs[k], n)
    ensures Gap(segs, start, limit, segs[k].addr, n)
  {
    InRegion(segs, start, limit, k);
    forall b | b in Live(segs)
      ensures b.0 + b.1 <= segs[k].addr || segs[k].addr + n + HEADER <= b.0 - HEADER
    {
      var i :| 0 <= i < |segs| && !segs[i].free && b == (segs[i].Payload(), segs[i].len);
      LiveBlocksApart(segs, start, limit, i, k);
    }
  }

  /** The segment a gap starts in is free, and long enough because its successor is not free. */
  lemma GapIsFit(segs: seq<Segment>, start: int, limit: int, a: int, n: int) returns (i: int)
    requires WellFormed(segs, start, limit) && n > 0 && Gap(segs, start, limit, a, n)
    ensures 0 <= i < |segs| && Fits(segs[i], n) && segs[i].addr <= a
  {
    i := Locate(segs, start, limit, a);
    LiveAt(segs, i);
    assert segs[i].free;
    if i + 1 < |segs| {
      LiveAt(segs, i + 1);
    }
    assert a + n + HEADER <= segs[i].End();
  }

  /** kmalloc finds room exactly when some gap between live blocks holds the request and a header. */
  lemma ExhaustionIsExact(segs: seq<Segment>, start: int, limit: int, n: int)
    requires WellFormed(segs, start, limit)
    requires n > 0
    ensures FirstFit(segs, n) < |segs| <==> exists a :: Gap(segs, start, limit, a, n)
  {
    var k := FirstFit(segs, n);
    hide Gap;
    if k < |segs| { FitIsGap(segs, start, limit, k, n); }
    if a :| Gap(segs, start, limit, a, n) {
      var i := GapIsFit(segs, start, limit, a, n);
    }
  }

  // ---------- Whole runs ----------

  datatype Call = Malloc(size: Word) | Free(p: Word)

  /** One call on the list: the new list and the returned pointer (0 for kfree), or a panic. */
  function Step(segs: seq<Segment>, c: Call): Outcome<(seq<Segment>, int)> {
    match c
    case Malloc(size) =>
      if size == 0 || size > 0xFFFF_FFF0 - 15 then Panicked
      else
        var n := AlignUp(size);
        var k := FirstFit(segs, n);
        if k == |segs| then Panicked else Returned((Allocate(segs, n), segs[k].Payload()))
    case Free(p) =>
      if p == 0 then Returned((segs, 0))
      else
        var k := Find(segs, p);
        if k == |segs| || segs[k].free then Panicked else Returned((Release(segs, k), 0))
  }

  function Run(segs: seq<Segment>, calls: seq<Call>): Outcome<seq<Segment>>
    decreases |calls|
  {
    if calls == [] then Returned(segs)
    else match Step(segs, calls[0])
      case Panicked => Panicked
      case Returned(r) => Run(r.0, calls[1..])
  }

  function Fresh(start: int, len: int): seq<Segment> {
    [Segment(start, len, true)]
  }

  function TotalBytes(segs: seq<Segment>): int {
    if segs == [] then 0 else HEADER + segs[0].len + TotalBytes(segs[1..])
  }

  lemma {:induction false} TilesTotal(segs: seq<Segment>, start: int, limit: int)
    requires Tiles(segs, start, limit)
    ensures TotalBytes(segs) == limit - start
  {
    if |segs| > 1 {
      assert Tiles(segs[1..], segs[0].End(), limit);
      TilesTotal(segs[1..], segs[0].End(), limit);
    } else {
      assert segs[1..] == [];
    }
  }

  lemma StepKeepsHeap(segs: seq<Segment>, start: int, limit: int, c: Call)
    requires WellFormed(segs, start, limit)
    requires Step(segs, c).Returned?
    ensures WellFormed(Step(segs, c).value.0, start, limit)
  {
    match c
    case Malloc(size) => AllocateWellFormed(segs, start, limit, AlignUp(size));
    case Free(p) => if p != 0 { ReleaseWellFormed(segs, start, limit, Find(segs, p)); }
  }

  /** In every reachable state the list tiles the region, is coalesced, and no byte is lost. */
  lemma {:induction false} RunKeepsHeap(segs: seq<Segment>, start: int, limit: int, calls: seq<Call>)
    requires WellFormed(segs, start, limit)
    requires Run(segs, calls).Returned?
    ensures WellFormed(Run(segs, calls).value, start, limit)
    ensures TotalBytes(Run(segs, calls).value) == TotalBytes(segs) == limit - start
    decreases |calls|
  {
    TilesTotal(segs, start, limit);
    if calls != [] {
      var r := Step(segs, calls[0]).value.0;
      StepKeepsHeap(segs, start, limit, calls[0]);
      RunKeepsHeap(r, start, limit, calls[1..]);
    }
  }

  /** kfree returns normally exactly for null and for the address of a live block. */
  lemma FreeReturnsIff(segs: seq<Segment>, start: int, limit: int, p: Word)
    requires WellFormed(segs, start, limit)
    ensures Step(segs, Free(p)).Returned? <==> p == 0 || IsLive(segs, p)
  {
    var k := Find(segs, p);
    if i :| 0 <= i < |segs| && !segs[i].free && segs[i].Payload() == p {
      if k < i { Ordered(segs, start, limit, k, i); }
    }
  }

  lemma RoundUp(len: int, size: int)
    requires len % 16 == 0 && size <= len
    ensures AlignUp(size) <= len
  {
  }

  /** No gap for the request starts below the first fit. */
  lemma FirstFitIsLowest(segs: seq<Segment>, start: int, limit: int, a: int, size: int)
    requires WellFormed(segs, start, limit) && size > 0 && Gap(segs, start, limit, a, size)
    ensures FirstFit(segs, AlignUp(size)) < |segs| && segs[FirstFit(segs, AlignUp(size))].addr <= a
  {
    var i := GapIsFit(segs, start, limit, a, size);
    RoundUp(segs[i].len, size);
    var k := FirstFit(segs, AlignUp(size));
    if k < i { Ordered(segs, start, limit, k, i); }
  }

  /**
   kmalloc returns normally exactly for a positive size that can be aligned and for which some gap
   between live blocks holds the request and its header.
   */
  lemma MallocReturnsIff(segs: seq<Segment>, start: int, limit: int, size: Word)
    requires WellFormed(segs, start, limit)
    ensures Step(segs, Malloc(size)).Returned? <==>
      0 < size <= 0xFFFF_FFE1 && exists a :: Gap(segs, start, limit, a, size)
  {
    if size > 0 {
      AlignUpBounds(size);
      var k := FirstFit(segs, AlignUp(size));
      if k < |segs| { FitIsGap(segs, start, limit, k, size); }
      if a :| Gap(segs, start, limit, a, size) { FirstFitIsLowest(segs, start, limit, a, size); }
    }
  }

  /** What a split leaves behind is worth keeping. */
  lemma CarveRest(segs: seq<Segment>, k: nat, n: int)
    requires k < |segs|
    ensures forall s <- segs[..k] + Carve(segs[k], n) + segs[k + 1..] :: s in segs || !s.free || s.len >= 32
  {
    forall s | s in segs[..k] + Carve(segs[k], n) + segs[k + 1..] ensures s in segs || !s.free || s.len >= 32 {
    }
  }

  /**
   The pointer kmalloc returns: the payload, of at least size bytes, of a block that was not live before
   and is the only new one; it is a multiple of 16, clear of all other blocks with their headers, its own
   header lies in front of it, no gap that could hold the request is lower, and at most 47 bytes more
   than the size are taken; a rest that becomes a segment of its own holds at least 32 bytes.
   */
  lemma MallocMeans(segs: seq<Segment>, start: int, limit: int, size: Word) returns (len: int)
    requires WellFormed(segs, start, limit)
    requires Step(segs, Malloc(size)).Returned?
    ensures var (r, p) := Step(segs, Malloc(size)).value;
      && size <= len <= size + 47 && p % 16 == 0 && start + 16 <= p && p + len <= limit
      && Live(r) == Live(segs) + {(p, len)}
      && (forall b <- Live(segs) :: b.0 + b.1 <= p - 16 || p + len <= b.0 - 16)
      && (forall a :: Gap(segs, start, limit, a, size) ==> p - 16 <= a)
      && (forall s <- r :: s in segs || !s.free || s.len >= 32)
  {
    AlignUpBounds(size);
    var n, p := AlignUp(size), 0;
    p, len := AllocateLive(segs, start, limit, n);
    CarveRest(segs, FirstFit(segs, n), n);
    forall a | Gap(segs, start, limit, a, size) ensures p - 16 <= a {
      FirstFitIsLowest(segs, start, limit, a, size);
    }
  }

  /** kfree returns null for null and changes nothing then; otherwise exactly the block it was given goes. */
  lemma FreeMeans(segs: seq<Segment>, start: int, limit: int, p: Word) returns (len: int)
    requires WellFormed(segs, start, limit)
    requires Step(segs, Free(p)).Returned?
    ensures var (r, q) := Step(segs, Free(p)).value;
      q == 0 && if p == 0 then r == segs else (p, len) in Live(segs) && Live(r) == Live(segs) - {(p, len)}
  {
    len := 0;
    if p != 0 {
      var k := Find(segs, p);
      len := segs[k].len;
      LiveAt(segs, k);
      ReleaseLive(segs, start, limit, k);
    }
  }

  /** With no live block left, coalescing has put the region back into one segment. */
  lemma NoneLiveIsFresh(segs: seq<Segment>, start: int, limit: int)
    requires WellFormed(segs, start, limit)
    requires Live(segs) == {}
    ensures segs == Fresh(start, limit - start - HEADER)
  {
    LiveAt(segs, 0);
    if |segs| > 1 {
      LiveAt(segs, 1);
      assert false;
    }
  }

  /** Where a live block starts, in another list with the same live blocks. */
  lemma SameBlock(a: seq<Segment>, b: seq<Segment>, i: nat) returns (j: nat)
    requires i < |a| && !a[i].free && Live(a) == Live(b)
    ensures j < |b| && b[j] == a[i]
  {
    LiveAt(a, i);
    j :| 0 <= j < |b| && !b[j].free && (b[j].Payload(), b[j].len) == (a[i].Payload(), a[i].len);
  }

  lemma SameStart(a: seq<Segment>, b: seq<Segment>, start: int, limit: int)
    requires WellFormed(a, start, limit) && WellFormed(b, start, limit) && Live(a) == Live(b)
    requires !a[0].free
    ensures b[0] == a[0]
  {
    var j := SameBlock(a, b, 0);
    if j > 0 { Ordered(b, start, limit, 0, j); }
  }

  /** A free segment reaches to the next live block, which is there in both lists. */
  lemma SameReach(a: seq<Segment>, b: seq<Segment>, start: int, limit: int)
    requires WellFormed(a, start, limit) && WellFormed(b, start, limit) && Live(a) == Live(b)
    requires a[0].free && b[0].free
    ensures b[0].End() <= a[0].End()
  {
    InRegion(b, start, limit, 0);
    if |a| > 1 {
      var j := SameBlock(a, b, 1);
      if j > 0 { Ordered(b, start, limit, 0, j); }
    }
  }

  lemma LiveTail(a: seq<Segment>, start: int, limit: int)
    requires WellFormed(a, start, limit) && |a| > 1
    ensures Live(a[1..]) == Live(a) - (if a[0].free then {} else {(a[0].Payload(), a[0].len)})
    ensures WellFormed(a[1..], a[0].End(), limit)
  {
    LiveOfConcat(a[..1], a[1..]);
    assert a[..1] + a[1..] == a;
    Suffix(a, start, limit, 1);
    NotElsewhere(a, start, limit, 0, 0, 0);
    assert a[..1] == [a[0]];
    if !a[0].free { OneLive([a[0]], 0); }
  }

  /** The live blocks leave no choice: there is one well-formed list for them. */
  lemma {:induction false} LiveDetermines(a: seq<Segment>, b: seq<Segment>, start: int, limit: int)
    requires WellFormed(a, start, limit) && WellFormed(b, start, limit) && Live(a) == Live(b)
    ensures a == b
    decreases |a|
  {
    if !a[0].free {
      SameStart(a, b, start, limit);
    } else if !b[0].free {
      SameStart(b, a, start, limit);
    } else {
      SameReach(a, b, start, limit);
      SameReach(b, a, start, limit);
    }
    assert a[0] == b[0];
    if |a| > 1 && |b| > 1 {
      LiveTail(a, start, limit);
      LiveTail(b, start, limit);
      LiveDetermines(a[1..], b[1..], a[0].End(), limit);
      assert a == [a[0]] + a[1..] && b == [b[0]] + b[1..];
    } else if |a| > 1 {
      InRegion(a, start, limit, 1);
    } else if |b| > 1 {
      InRegion(b, start, limit, 1);
    }
  }

  function Frees(ps: seq<Word>): (cs: seq<Call>)
    ensures |cs| == |ps|
  {
    if ps == [] then [] else [Free(ps[0])] + Frees(ps[1..])
  }

  lemma LiveAfterRelease(segs: seq<Segment>, start: int, limit: int, k: nat, q: int)
    requires WellFormed(segs, start, limit)
    requires k < |segs| && !segs[k].free
    ensures IsLive(Release(segs, k), q) <==> IsLive(segs, q) && q != segs[k].Payload()
  {
    ReleaseLive(segs, start, limit, k);
    var r := Release(segs, k);
    if i :| 0 <= i < |r| && !r[i].free && r[i].Payload() == q {
      assert (q, r[i].len) in Live(r);
      if q == segs[k].Payload() {
        var j :| 0 <= j < |segs| && !segs[j].free && (segs[j].Payload(), segs[j].len) == (q, r[i].len);
        if j != k { LiveBlocksApart(segs, start, limit, j, k); }
      }
    }
    if i :| 0 <= i < |segs| && !segs[i].free && segs[i].Payload() == q && q != segs[k].Payload() {
      assert (q, segs[i].len) in Live(segs);
      assert (q, segs[i].len) in Live(r);
    }
  }

  /** Freeing every live block once, in any order, succeeds and restores the initial heap. */
  lemma {:induction false} FreeingAllRestores(segs: seq<Segment>, start: int, limit: int, ps: seq<Word>)
    requires WellFormed(segs, start, limit) && start >= 0
    requires forall i, j :: 0 <= i < j < |ps| ==> ps[i] != ps[j]
    requires forall p :: IsLive(segs, p) <==> p in ps
    ensures Run(segs, Frees(ps)) == Returned(Fresh(start, limit - start - HEADER))
    decreases |ps|
  {
    if ps == [] {
      forall b | b in Live(segs) ensures false {
        assert IsLive(segs, b.0);
      }
      NoneLiveIsFresh(segs, start, limit);
    } else {
      var p := ps[0];
      assert IsLive(segs, p);
      FreeReturnsIff(segs, start, limit, p);
      var k := Find(segs, p);
      if p == 0 { InRegion(segs, start, limit, k); assert false; }
      var r := Release(segs, k);
      ReleaseWellFormed(segs, start, limit, k);
      ReleaseLive(segs, start, limit, k);
      forall q ensures IsLive(r, q) <==> q in ps[1..] {
        LiveAfterRelease(segs, start, limit, k, q);
        assert q in ps <==> q == p || q in ps[1..];
      }
      FreeingAllRestores(r, start, limit, ps[1..]);
    }
  }
}
