/**
 The allocator itself: segment headers are four words inside the memory it hands out, linked in both
 directions and rewritten in place. Every call is proved to do to the linked headers what Heap.Step
 does to the list of segments, and to leave live payloads and everything outside the heap alone.
 */
module HeapAllocator {
  import opened Words
  import opened Heap

  /** memory[a] is the word at byte address a; headers and payloads only use multiples of four. */
  const MEMORY_SIZE := 0x1_0000_0000

  /** len_flags keeps the length in the upper 28 bits and the free flag in bit 0. */
  function LenFlags(s: Segment): int {
    s.len + if s.free then 1 else 0
  }

  lemma Decode(s: Segment)
    requires s.len % 16 == 0
    ensures LenFlags(s) / 16 * 16 == s.len
    ensures LenFlags(s) % 2 == 1 <==> s.free
  {
  }

  function NextOf(segs: seq<Segment>, i: int): int
    requires 0 <= i < |segs|
  {
    if i + 1 < |segs| then segs[i + 1].addr else 0
  }

  function PrevOf(segs: seq<Segment>, i: int): int
    requires 0 <= i < |segs|
  {
    if i > 0 then segs[i - 1].addr else 0
  }

  /** Segments stay inside [1, limit) and keep their order. */
  ghost predicate Placed(segs: seq<Segment>, limit: int) {
    && limit < TWO_32
    && (forall i :: 0 <= i < |segs| ==> 0 < segs[i].addr && segs[i].len >= 16 && segs[i].End() <= limit)
    && (forall i, j :: 0 <= i < j < |segs| ==> segs[i].End() <= segs[j].addr)
  }

  ghost predicate HeaderAt(m: seq<int>, segs: seq<Segment>, i: int)
    requires |m| == MEMORY_SIZE
    requires 0 <= i < |segs| && 0 <= segs[i].addr && segs[i].addr < TWO_32 - 16
  {
    && m[segs[i].addr] == LenFlags(segs[i])
    && m[segs[i].addr + 4] == NextOf(segs, i)
    && m[segs[i].addr + 8] == PrevOf(segs, i)
  }

  /** The headers in memory are linked up as segs says. */
  ghost predicate Linked(m: seq<int>, segs: seq<Segment>, limit: int) {
    && |m| == MEMORY_SIZE
    && Placed(segs, limit)
    && forall i :: 0 <= i < |segs| ==> HeaderAt(m, segs, i)
  }

  ghost predicate InHeader(segs: seq<Segment>, a: int) {
    exists i :: 0 <= i < |segs| && segs[i].addr <= a < segs[i].addr + HEADER
  }

  /** Only header words differ. */
  ghost predicate OnlyHeadersChanged(m: seq<int>, m': seq<int>, segs: seq<Segment>) {
    |m'| == |m| && forall a :: 0 <= a < |m| && !InHeader(segs, a) ==> m'[a] == m[a]
  }

  // ---------- Rewriting one header ----------

  function WithFlag(segs: seq<Segment>, k: int, free: bool): seq<Segment>
    requires 0 <= k < |segs|
  {
    segs[k := segs[k].(free := free)]
  }

  function FlagWrite(m: seq<int>, s: Segment, free: bool): seq<int>
    requires 0 <= s.addr < |m|
  {
    m[s.addr := s.len + if free then 1 else 0]
  }

  lemma FlagLinked(m: seq<int>, segs: seq<Segment>, limit: int, k: int, free: bool)
    requires Linked(m, segs, limit)
    requires 0 <= k < |segs|
    ensures Linked(FlagWrite(m, segs[k], free), WithFlag(segs, k, free), limit)
  {
    var r := WithFlag(segs, k, free);
    var m' := FlagWrite(m, segs[k], free);
    forall i | 0 <= i < |r| ensures HeaderAt(m', r, i) {
      assert HeaderAt(m, segs, i);
      if i != k { assert r[i] == segs[i]; }
    }
  }

  // ---------- Splitting ----------

  /** Segment k keeps n bytes; the rest becomes a free segment of its own. */
  function Split(segs: seq<Segment>, k: int, n: int): seq<Segment>
    requires 0 <= k < |segs|
  {
    var s := segs[k];
    segs[..k] + [Segment(s.addr, n, s.free), Segment(s.addr + HEADER + n, s.len - n - HEADER, true)] + segs[k + 1..]
  }

  /** A free segment's header, field by field. */
  function NewHeader(m: seq<int>, b: int, len: int, next: int, prev: int): (m': seq<int>)
    requires 0 <= b && b + 16 <= |m|
    ensures |m'| == |m|
  {
    m[b := len + 1][b + 4 := next][b + 8 := prev][b + 12 := 0]
  }

  /** The words split_segment writes, in its order. */
  function SplitWrites(m: seq<int>, segs: seq<Segment>, k: int, n: int): (m': seq<int>)
    requires |m| == MEMORY_SIZE && 0 <= k < |segs|
    requires 0 <= segs[k].addr && 0 <= n <= segs[k].len - 32 && segs[k].End() <= MEMORY_SIZE
    requires k + 1 < |segs| ==> 0 <= segs[k + 1].addr < MEMORY_SIZE - 16
    ensures |m'| == MEMORY_SIZE
  {
    var s := segs[k];
    var b := s.addr + HEADER + n;
    var m1 := NewHeader(m, b, s.len - n - HEADER, NextOf(segs, k), s.addr);
    var m2 := if k + 1 < |segs| then m1[segs[k + 1].addr + 8 := b] else m1;
    m2[s.addr + 4 := b][s.addr := n + if s.free then 1 else 0]
  }

  /** Each segment of the split list lies inside the one it comes from. */
  lemma SplitInside(segs: seq<Segment>, k: int, n: int, i: int)
    requires 0 <= k < |segs| && 16 <= n <= segs[k].len - 32 && 0 <= i < |segs| + 1
    ensures |Split(segs, k, n)| == |segs| + 1
    ensures var r, o := Split(segs, k, n)[i], segs[if i <= k then i else i - 1];
      && o.addr <= r.addr && r.End() <= o.End() && (r.len == o.len || r.len >= 16)
      && (i == k ==> r.End() == r.addr + HEADER + n) && (i == k + 1 ==> r.addr == o.addr + HEADER + n)
  {
  }

  lemma SplitPlaced(segs: seq<Segment>, limit: int, k: int, n: int)
    requires Placed(segs, limit)
    requires 0 <= k < |segs| && 16 <= n <= segs[k].len - 32
    ensures Placed(Split(segs, k, n), limit)
  {
    var r := Split(segs, k, n);
    forall i | 0 <= i < |r| ensures 0 < r[i].addr && r[i].len >= 16 && r[i].End() <= limit {
      SplitInside(segs, k, n, i);
    }
    forall i, j | 0 <= i < j < |r| ensures r[i].End() <= r[j].addr {
      SplitInside(segs, k, n, i);
      SplitInside(segs, k, n, j);
    }
  }

  /** What a memory must look like, word by word, for segment k of segs to have been split. */
  ghost predicate SplitIn(m: seq<int>, m': seq<int>, segs: seq<Segment>, k: int, n: int)
    requires 0 <= k < |segs|
  {
    var s := segs[k];
    var b := s.addr + HEADER + n;
    var next := NextOf(segs, k);
    && |m| == |m'| == MEMORY_SIZE
    && 0 < s.addr && 16 <= n <= s.len - 32 && s.End() <= MEMORY_SIZE
    && m'[s.addr] == n + (if s.free then 1 else 0) && m'[s.addr + 4] == b
    && m'[b] == s.len - n - HEADER + 1 && m'[b + 4] == next && m'[b + 8] == s.addr
    && (next != 0 ==> 0 <= next < MEMORY_SIZE - 8 && m'[next + 8] == b)
    && forall a | 0 <= a < |m| && a != s.addr && a != s.addr + 4 && !(b <= a < b + HEADER)
                  && (next == 0 || a != next + 8) :: m'[a] == m[a]
  }

  lemma SplitHeaderBefore(m: seq<int>, m': seq<int>, segs: seq<Segment>, limit: int, k: int, n: int, i: int)
    requires Linked(m, segs, limit) && 0 <= i < k < |segs|
    requires SplitIn(m, m', segs, k, n)
    ensures HeaderAt(m', Split(segs, k, n), i)
  {
    var r := Split(segs, k, n);
    assert HeaderAt(m, segs, i);
    assert r[i] == segs[i] && r[i + 1].addr == segs[i + 1].addr;
    assert segs[i].End() <= segs[k].addr;
  }

  lemma SplitHeaderAt(m: seq<int>, m': seq<int>, segs: seq<Segment>, limit: int, k: int, n: int)
    requires Linked(m, segs, limit) && 0 <= k < |segs|
    requires SplitIn(m, m', segs, k, n)
    ensures HeaderAt(m', Split(segs, k, n), k) && HeaderAt(m', Split(segs, k, n), k + 1)
  {
    var r := Split(segs, k, n);
    assert HeaderAt(m, segs, k);
    assert k + 1 < |segs| ==> r[k + 2] == segs[k + 1];
  }

  lemma SplitHeaderAfter(m: seq<int>, m': seq<int>, segs: seq<Segment>, limit: int, k: int, n: int, i: int)
    requires Linked(m, segs, limit) && 0 <= k < i < |segs|
    requires SplitIn(m, m', segs, k, n)
    ensures HeaderAt(m', Split(segs, k, n), i + 1)
  {
    var r := Split(segs, k, n);
    assert HeaderAt(m, segs, i);
    assert r[i + 1] == segs[i];
    assert i + 1 < |segs| ==> r[i + 2] == segs[i + 1];
    assert i > k + 1 ==> r[i] == segs[i - 1];
    assert segs[k].End() <= segs[i].addr;
    assert i > k + 1 ==> segs[k + 1].End() <= segs[i].addr;
  }

  lemma SplitWritten(m: seq<int>, segs: seq<Segment>, limit: int, k: int, n: int)
    requires |m| == MEMORY_SIZE && Placed(segs, limit)
    requires 0 <= k < |segs| && 16 <= n <= segs[k].len - 32
    ensures SplitIn(m, SplitWrites(m, segs, k, n), segs, k, n)
  {
    assert k + 1 < |segs| ==> segs[k].End() <= segs[k + 1].addr;
  }

  lemma SplitTouches(m: seq<int>, m': seq<int>, segs: seq<Segment>, k: int, n: int)
    requires 0 <= k < |segs|
    requires SplitIn(m, m', segs, k, n)
    ensures OnlyHeadersChanged(m, m', Split(segs, k, n))
  {
    var r := Split(segs, k, n);
    assert r[k].addr == segs[k].addr && r[k + 1].addr == segs[k].addr + HEADER + n;
    assert k + 2 < |r| ==> r[k + 2] == segs[k + 1];
  }

  lemma SplitHeader(m: seq<int>, m': seq<int>, segs: seq<Segment>, limit: int, k: int, n: int, i: int)
    requires Linked(m, segs, limit) && 0 <= k < |segs| && 0 <= i < |Split(segs, k, n)|
    requires SplitIn(m, m', segs, k, n) && Placed(Split(segs, k, n), limit)
    ensures HeaderAt(m', Split(segs, k, n), i)
  {
    hide Linked;
    hide SplitIn;
    hide HeaderAt;
    hide Placed;
    if i < k {
      SplitHeaderBefore(m, m', segs, limit, k, n, i);
    } else if i <= k + 1 {
      SplitHeaderAt(m, m', segs, limit, k, n);
    } else {
      SplitHeaderAfter(m, m', segs, limit, k, n, i - 1);
    }
  }

  lemma SplitLinked(m: seq<int>, segs: seq<Segment>, limit: int, k: int, n: int)
    requires Linked(m, segs, limit)
    requires 0 <= k < |segs| && 16 <= n <= segs[k].len - 32
    ensures Linked(SplitWrites(m, segs, k, n), Split(segs, k, n), limit)
    ensures OnlyHeadersChanged(m, SplitWrites(m, segs, k, n), Split(segs, k, n))
  {
    var r := Split(segs, k, n);
    var m' := SplitWrites(m, segs, k, n);
    SplitWritten(m, segs, limit, k, n);
    SplitTouches(m, m', segs, k, n);
    SplitPlaced(segs, limit, k, n);
    forall i | 0 <= i < |r| ensures HeaderAt(m', r, i) {
      SplitHeader(m, m', segs, limit, k, n, i);
    }
  }

  // ---------- Merging ----------

  /** Segment k takes over segment k + 1, header and all. */
  function Absorb(segs: seq<Segment>, k: int): seq<Segment>
    requires 0 <= k < |segs| - 1
  {
    segs[..k] + [Segment(segs[k].addr, segs[k].len + HEADER + segs[k + 1].len, true)] + segs[k + 2..]
  }

  /** The words either half of kfree's merging writes, in its order. */
  function AbsorbWrites(m: seq<int>, segs: seq<Segment>, k: int): (m': seq<int>)
    requires |m| == MEMORY_SIZE && 0 <= k < |segs| - 1
    requires 0 <= segs[k].addr < MEMORY_SIZE - 16
    requires k + 2 < |segs| ==> 0 <= segs[k + 2].addr < MEMORY_SIZE - 16
    ensures |m'| == MEMORY_SIZE
  {
    var m1 := m[segs[k].addr := segs[k].len + HEADER + segs[k + 1].len + 1];
    var m2 := m1[segs[k].addr + 4 := NextOf(segs, k + 1)];
    if k + 2 < |segs| then m2[segs[k + 2].addr + 8 := segs[k].addr] else m2
  }

  ghost predicate AbsorbIn(m: seq<int>, m': seq<int>, segs: seq<Segment>, k: int)
    requires 0 <= k < |segs| - 1
  {
    var s := segs[k];
    var next := NextOf(segs, k + 1);
    && |m| == |m'| == MEMORY_SIZE
    && 0 < s.addr < MEMORY_SIZE - 8
    && m'[s.addr] == s.len + HEADER + segs[k + 1].len + 1 && m'[s.addr + 4] == next
    && (next != 0 ==> 0 <= next < MEMORY_SIZE - 8 && m'[next + 8] == s.addr)
    && forall a | 0 <= a < |m| && a != s.addr && a != s.addr + 4 && (next == 0 || a != next + 8) :: m'[a] == m[a]
  }

  /** The segments that may merge: neighbours with nothing between them. */
  ghost predicate Adjacent(segs: seq<Segment>, k: int) {
    0 <= k < |segs| - 1 && segs[k].End() == segs[k + 1].addr
  }

  /** Each segment of the joined list starts and ends where one of the old segments did. */
  lemma AbsorbSpans(segs: seq<Segment>, k: int, i: int)
    requires Adjacent(segs, k) && 0 <= i < |segs| - 1
    ensures |Absorb(segs, k)| == |segs| - 1
    ensures var r := Absorb(segs, k)[i];
      && r.addr == segs[if i <= k then i else i + 1].addr
      && r.End() == segs[if i < k then i else i + 1].End()
      && (i != k ==> r.len == segs[if i < k then i else i + 1].len)
      && (i == k ==> r.len == segs[k].len + HEADER + segs[k + 1].len)
  {
  }

  lemma AbsorbPlaced(segs: seq<Segment>, limit: int, k: int)
    requires Placed(segs, limit) && Adjacent(segs, k)
    ensures Placed(Absorb(segs, k), limit)
  {
    var r := Absorb(segs, k);
    forall i | 0 <= i < |r| ensures 0 < r[i].addr && r[i].len >= 16 && r[i].End() <= limit {
      AbsorbSpans(segs, k, i);
    }
    forall i, j | 0 <= i < j < |r| ensures r[i].End() <= r[j].addr {
      AbsorbSpans(segs, k, i);
      AbsorbSpans(segs, k, j);
    }
  }

  lemma AbsorbHeaderBefore(m: seq<int>, m': seq<int>, segs: seq<Segment>, limit: int, k: int, i: int)
    requires Linked(m, segs, limit) && Adjacent(segs, k) && 0 <= i < k
    requires AbsorbIn(m, m', segs, k)
    ensures HeaderAt(m', Absorb(segs, k), i)
  {
    var r := Absorb(segs, k);
    assert HeaderAt(m, segs, i);
    assert r[i] == segs[i] && r[i + 1].addr == segs[i + 1].addr;
    assert segs[i].End() <= segs[k].addr;
  }

  lemma AbsorbHeaderAt(m: seq<int>, m': seq<int>, segs: seq<Segment>, limit: int, k: int)
    requires Linked(m, segs, limit) && Adjacent(segs, k)
    requires AbsorbIn(m, m', segs, k)
    ensures HeaderAt(m', Absorb(segs, k), k)
  {
    var r := Absorb(segs, k);
    assert HeaderAt(m, segs, k);
    assert k + 2 < |segs| ==> r[k + 1] == segs[k + 2];
  }

  lemma AbsorbHeaderAfter(m: seq<int>, m': seq<int>, segs: seq<Segment>, limit: int, k: int, i: int)
    requires Linked(m, segs, limit) && Adjacent(segs, k) && k + 1 < i < |segs|
    requires AbsorbIn(m, m', segs, k)
    ensures HeaderAt(m', Absorb(segs, k), i - 1)
  {
    var r := Absorb(segs, k);
    assert HeaderAt(m, segs, i);
    assert r[i - 1] == segs[i];
    assert i + 1 < |segs| ==> r[i] == segs[i + 1];
    assert i > k + 2 ==> r[i - 2] == segs[i - 1];
    assert segs[k].End() <= segs[i].addr;
    assert i > k + 2 ==> segs[k + 2].End() <= segs[i].addr;
  }

  lemma AbsorbWritten(m: seq<int>, segs: seq<Segment>, limit: int, k: int)
    requires |m| == MEMORY_SIZE && Placed(segs, limit) && Adjacent(segs, k)
    ensures AbsorbIn(m, AbsorbWrites(m, segs, k), segs, k)
  {
    assert k + 2 < |segs| ==> segs[k + 1].End() <= segs[k + 2].addr;
  }

  lemma AbsorbHeader(m: seq<int>, m': seq<int>, segs: seq<Segment>, limit: int, k: int, i: int)
    requires Linked(m, segs, limit) && Adjacent(segs, k) && 0 <= i < |Absorb(segs, k)|
    requires AbsorbIn(m, m', segs, k) && Placed(Absorb(segs, k), limit)
    ensures HeaderAt(m', Absorb(segs, k), i)
  {
    hide Linked;
    hide AbsorbIn;
    hide HeaderAt;
    hide Placed;
    if i < k {
      AbsorbHeaderBefore(m, m', segs, limit, k, i);
    } else if i == k {
      AbsorbHeaderAt(m, m', segs, limit, k);
    } else {
      AbsorbHeaderAfter(m, m', segs, limit, k, i + 1);
    }
  }

  lemma AbsorbLinked(m: seq<int>, segs: seq<Segment>, limit: int, k: int)
    requires Linked(m, segs, limit) && Adjacent(segs, k)
    ensures AbsorbIn(m, AbsorbWrites(m, segs, k), segs, k)
    ensures Linked(AbsorbWrites(m, segs, k), Absorb(segs, k), limit)
  {
    var r := Absorb(segs, k);
    var m' := AbsorbWrites(m, segs, k);
    AbsorbPlaced(segs, limit, k);
    AbsorbWritten(m, segs, limit, k);
    forall i | 0 <= i < |r| ensures HeaderAt(m', r, i) {
      AbsorbHeader(m, m', segs, limit, k, i);
    }
  }

  /** Merging writes to headers that were there before; it makes no new ones. */
  lemma AbsorbTouches(m0: seq<int>, m: seq<int>, m': seq<int>, segs0: seq<Segment>, segs: seq<Segment>, k: int)
    requires 0 <= k < |segs| - 1
    requires AbsorbIn(m, m', segs, k)
    requires OnlyHeadersChanged(m0, m, segs0)
    requires forall a :: InHeader(segs, a) ==> InHeader(segs0, a)
    ensures OnlyHeadersChanged(m0, m', segs0)
    ensures forall a :: InHeader(Absorb(segs, k), a) ==> InHeader(segs0, a)
  {
    var r := Absorb(segs, k);
    var next := NextOf(segs, k + 1);
    assert segs[k].addr >= 0 ==> InHeader(segs, segs[k].addr) && InHeader(segs, segs[k].addr + 4);
    assert k + 2 < |segs| ==> InHeader(segs, segs[k + 2].addr + 8);
    forall a | InHeader(r, a) ensures InHeader(segs, a) {
      var i :| 0 <= i < |r| && r[i].addr <= a < r[i].addr + HEADER;
      assert r[i].addr == segs[if i <= k then i else i + 1].addr;
    }
  }

  // ---------- The list operations as header rewrites ----------

  lemma FitsAligned(segs: seq<Segment>, start: int, limit: int, n: int)
    requires Tiles(segs, start, limit) && FirstFit(segs, n) < |segs|
    ensures var s := segs[FirstFit(segs, n)];
      s.len % 16 == 0 && s.len >= n
  {
  }

  /** Segment k after kmalloc's split, if there was one. */
  lemma AfterSplit(segs: seq<Segment>, k: nat, n: int)
    requires k < |segs| && segs[k].len % 16 == 0 && n % 16 == 0
    ensures k < |Split(segs, k, n)|
    ensures Split(segs, k, n)[k].addr == segs[k].addr && Split(segs, k, n)[k].len % 16 == 0
  {
  }

  lemma UpdateOne(segs: seq<Segment>, k: nat, z: Segment)
    requires k < |segs|
    ensures segs[k := z] == segs[..k] + [z] + segs[k + 1..]
  {
  }

  lemma UpdateMiddle(a: seq<Segment>, x: Segment, x': Segment, y: Segment, b: seq<Segment>)
    ensures (a + [x, y] + b)[|a| := x'] == a + [x', y] + b
    ensures (a + [x, y] + b)[|a|] == x
  {
  }

  lemma SplitAndFlag(segs: seq<Segment>, k: nat, n: int)
    requires k < |segs| && segs[k].len - n >= HEADER + MIN_SPLIT
    ensures 0 <= k < |Split(segs, k, n)|
    ensures WithFlag(Split(segs, k, n), k, false) == segs[..k] + Carve(segs[k], n) + segs[k + 1..]
  {
    var s := segs[k];
    var y := Segment(s.addr + HEADER + n, s.len - n - HEADER, true);
    UpdateMiddle(segs[..k], Segment(s.addr, n, s.free), Segment(s.addr, n, false), y, segs[k + 1..]);
  }

  lemma FlagOnly(segs: seq<Segment>, k: nat, n: int)
    requires k < |segs| && segs[k].len - n < HEADER + MIN_SPLIT
    ensures WithFlag(segs, k, false) == segs[..k] + Carve(segs[k], n) + segs[k + 1..]
  {
    UpdateOne(segs, k, segs[k].(free := false));
  }

  lemma AllocateSteps(segs: seq<Segment>, n: int)
    requires FirstFit(segs, n) < |segs|
    ensures var k := FirstFit(segs, n);
      Allocate(segs, n) == if segs[k].len - n >= HEADER + MIN_SPLIT then WithFlag(Split(segs, k, n), k, false)
                           else WithFlag(segs, k, false)
  {
    var k := FirstFit(segs, n);
    if segs[k].len - n >= HEADER + MIN_SPLIT {
      SplitAndFlag(segs, k, n);
    } else {
      FlagOnly(segs, k, n);
    }
    hide Split;
    hide WithFlag;
    hide Carve;
  }

  /** Segment k, already marked free, merged with a free successor. */
  function MergeForward(segs: seq<Segment>, k: int): (r: seq<Segment>)
    requires 0 <= k < |segs|
    ensures |r| > k
  {
    if k + 1 < |segs| && segs[k + 1].free then Absorb(segs, k) else segs
  }

  function MergeBackward(segs: seq<Segment>, k: int): seq<Segment>
    requires 0 <= k < |segs|
  {
    if k > 0 && segs[k - 1].free then Absorb(segs, k - 1) else segs
  }

  lemma ForwardShape(segs: seq<Segment>, start: int, limit: int, k: nat)
    requires Tiles(segs, start, limit) && k < |segs|
    ensures MergeForward(WithFlag(segs, k, true), k)
      == segs[..k] + [Merged(segs, k, Hi(segs, k))] + segs[Hi(segs, k) + 1..]
  {
    if k + 1 < |segs| && segs[k + 1].free {
      assert segs[k].End() == segs[k + 1].addr;
      assert WithFlag(segs, k, true)[k + 2..] == segs[k + 2..];
    }
  }

  lemma BackwardShape(segs: seq<Segment>, x: Segment, rest: seq<Segment>, k: nat)
    requires 0 < k <= |segs| && segs[k - 1].End() == x.addr && x.free
    ensures Absorb(segs[..k] + [x] + rest, k - 1)
      == segs[..k - 1] + [Segment(segs[k - 1].addr, x.End() - segs[k - 1].Payload(), true)] + rest
  {
    var r := segs[..k] + [x] + rest;
    assert r[..k - 1] == segs[..k - 1] && r[k + 1..] == rest;
  }

  lemma ReleaseShape(segs: seq<Segment>, x: Segment, rest: seq<Segment>, start: int, limit: int, k: nat)
    requires Tiles(segs, start, limit) && k < |segs|
    requires x == Merged(segs, k, Hi(segs, k)) && rest == segs[Hi(segs, k) + 1..]
    ensures MergeBackward(segs[..k] + [x] + rest, k) == Release(segs, k)
  {
    if k > 0 && segs[k - 1].free {
      assert segs[k - 1].End() == segs[k].addr;
      hide Tiles;
      assert (segs[..k] + [x] + rest)[k - 1] == segs[k - 1];
      BackwardShape(segs, x, rest, k);
    } else {
      hide Tiles;
      assert k > 0 ==> (segs[..k] + [x] + rest)[k - 1] == segs[k - 1];
    }
  }

  /** Setting the flag, then merging forward, then merging backward, is Release. */
  lemma ReleaseSteps(segs: seq<Segment>, start: int, limit: int, k: nat)
    requires Tiles(segs, start, limit) && k < |segs|
    ensures MergeBackward(MergeForward(WithFlag(segs, k, true), k), k) == Release(segs, k)
  {
    ForwardShape(segs, start, limit, k);
    var x := Merged(segs, k, Hi(segs, k));
    var rest := segs[Hi(segs, k) + 1..];
    ReleaseShape(segs, x, rest, start, limit, k);
  }

  /** Live payloads, and all memory outside [start, limit), read the same in m and m'. */
  ghost predicate LeavesPayloads(m: seq<int>, m': seq<int>, segs: seq<Segment>, start: int, limit: int) {
    && |m'| == |m|
    && (forall b, a | b in Live(segs) && b.0 <= a < b.0 + b.1 && 0 <= a < |m| :: m'[a] == m[a])
    && (forall a | 0 <= a < |m| && !(start <= a < limit) :: m'[a] == m[a])
  }

  /** A call that returned p, on the linked headers: what Kmalloc and Kfree guarantee. */
  ghost predicate Called(m: seq<int>, segs: seq<Segment>, m': seq<int>, segs': seq<Segment>, start: int, limit: int,
                         c: Call, p: int) {
    && Step(segs, c) == Returned((segs', p))
    && WellFormed(segs', start, limit) && Linked(m', segs', limit)
    && LeavesPayloads(m, m', segs, start, limit)
  }

  lemma PayloadNotHeader(segs: seq<Segment>, start: int, limit: int, b: (int, int), a: int, i: int)
    requires Tiles(segs, start, limit)
    requires b in Live(segs) && b.0 <= a < b.0 + b.1
    requires 0 <= i < |segs|
    ensures !(segs[i].addr <= a < segs[i].addr + HEADER)
  {
    var j :| 0 <= j < |segs| && !segs[j].free && b == (segs[j].Payload(), segs[j].len);
    if i != j { LiveBlocksApart(segs, start, limit, i, j); }
  }

  /** Headers never overlap a live payload, so rewriting headers only is harmless. */
  lemma HeadersAvoidPayloads(m: seq<int>, m': seq<int>, segs: seq<Segment>, start: int, limit: int)
    requires Tiles(segs, start, limit)
    requires OnlyHeadersChanged(m, m', segs)
    ensures LeavesPayloads(m, m', segs, start, limit)
  {
    forall b, a | b in Live(segs) && b.0 <= a < b.0 + b.1 && 0 <= a < |m| ensures m'[a] == m[a] {
      if i :| 0 <= i < |segs| && segs[i].addr <= a < segs[i].addr + HEADER {
        PayloadNotHeader(segs, start, limit, b, a, i);
        assert false;
      }
    }
    forall a | 0 <= a < |m| && !(start <= a < limit) ensures m'[a] == m[a] {
      if i :| 0 <= i < |segs| && segs[i].addr <= a < segs[i].addr + HEADER {
        InRegion(segs, start, limit, i);
        assert false;
      }
    }
  }

  /** A header rewrite followed by setting segment k's flag is a header rewrite. */
  lemma FlagTouches(m: seq<int>, m1: seq<int>, segs: seq<Segment>, k: int, free: bool)
    requires OnlyHeadersChanged(m, m1, segs)
    requires 0 <= k < |segs| && 0 <= segs[k].addr < |m|
    ensures OnlyHeadersChanged(m, FlagWrite(m1, segs[k], free), WithFlag(segs, k, free))
  {
    var r := WithFlag(segs, k, free);
    assert forall i :: 0 <= i < |segs| ==> r[i].addr == segs[i].addr;
    assert forall a :: InHeader(segs, a) ==> InHeader(r, a);
    assert InHeader(r, r[k].addr);
  }

  lemma AllocateLeaves(m: seq<int>, m': seq<int>, segs: seq<Segment>, start: int, limit: int, n: int)
    requires WellFormed(segs, start, limit)
    requires n % 16 == 0 && n >= 16 && FirstFit(segs, n) < |segs|
    requires OnlyHeadersChanged(m, m', Allocate(segs, n))
    ensures LeavesPayloads(m, m', segs, start, limit)
  {
    AllocateWellFormed(segs, start, limit, n);
    HeadersAvoidPayloads(m, m', Allocate(segs, n), start, limit);
    var p, len := AllocateLive(segs, start, limit, n);
  }

  /** No payload lies outside the range kfree checks first. */
  lemma PayloadInRange(segs: seq<Segment>, start: int, limit: int, p: int)
    requires Tiles(segs, start, limit)
    ensures Find(segs, p) < |segs| ==> start + HEADER <= p < limit && p % 16 == 0
  {
    var k := Find(segs, p);
    if k < |segs| { InRegion(segs, start, limit, k); }
  }

  /** Flipping a flag keeps the tiling; freed segments may then have free neighbours. */
  lemma FlagTiles(segs: seq<Segment>, start: int, limit: int, k: int)
    requires Tiles(segs, start, limit) && 0 <= k < |segs|
    ensures Tiles(WithFlag(segs, k, true), start, limit)
  {
  }

  lemma SumOfMultiples(a: int, b: int)
    requires a % 16 == 0 && b % 16 == 0
    ensures (a + HEADER + b) % 16 == 0
  {
  }

  lemma AbsorbTiles(segs: seq<Segment>, start: int, limit: int, k: int)
    requires Tiles(segs, start, limit) && 0 <= k < |segs| - 1
    ensures Adjacent(segs, k) && Tiles(Absorb(segs, k), start, limit)
  {
    var r := Absorb(segs, k);
    assert segs[k].End() == segs[k + 1].addr;
    forall i | 0 <= i < |r| ensures r[i].addr % 16 == 0 && r[i].len % 16 == 0 && r[i].len >= 16 {
      if i > k {
        assert r[i] == segs[i + 1];
      } else if i == k {
        SumOfMultiples(segs[k].len, segs[k + 1].len);
      }
    }
    forall i, j | 0 <= i < j < |r| && j == i + 1 ensures r[j].addr == r[i].End() {
      if i >= k {
        assert r[j] == segs[j + 1] && r[i].End() == segs[i + 1].End();
      }
    }
  }

  lemma StoreLinked(m: seq<int>, segs: seq<Segment>, limit: int, a: int, v: int)
    requires Linked(m, segs, limit) && 0 <= a < |m|
    requires forall i :: 0 <= i < |segs| ==> !(segs[i].addr <= a < segs[i].addr + HEADER)
    ensures Linked(m[a := v], segs, limit)
  {
    var m' := m[a := v];
    forall i | 0 <= i < |segs| ensures HeaderAt(m', segs, i) {
      assert HeaderAt(m, segs, i);
    }
  }
}
