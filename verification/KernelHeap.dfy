/** heap_init, kmalloc and kfree on the linked headers in memory. */
module KernelHeap {
  import opened Words
  import opened Heap
  import opened HeapAllocator

  class Allocator {
    /** The 32-bit address space, word by word. */
    const memory: array<Word>
    var heapStart: Word
    var heapEnd: Word
    /** What the linked headers say, and where the last segment ends. */
    ghost var segs: seq<Segment>
    ghost var limit: int

    /** Either heap_init has not run, or memory holds the well-formed list segs. */
    ghost predicate Valid()
      reads this, memory
    {
      && memory.Length == MEMORY_SIZE
      && (heapStart != 0 ==>
            WellFormed(segs, heapStart, limit) && limit <= heapEnd && Linked(memory[..], segs, limit))
    }

    constructor (mem: array<Word>)
      requires mem.Length == MEMORY_SIZE
      ensures Valid() && heapStart == 0 && memory == mem
    {
      memory := mem;
      heapStart, heapEnd := 0, 0;
      segs, limit := [], 0;
    }

    method IsFree(seg: Word, ghost k: int) returns (r: bool)
      requires Linked(memory[..], segs, limit) && 0 <= k < |segs| && segs[k].addr == seg
      requires segs[k].len % 16 == 0
      ensures r == segs[k].free
    {
      assert HeaderAt(memory[..], segs, k);
      Decode(segs[k]);
      r := memory[seg] % 2 != 0;
    }

    method GetLen(seg: Word, ghost k: int) returns (len: Word)
      requires Linked(memory[..], segs, limit) && 0 <= k < |segs| && segs[k].addr == seg
      requires segs[k].len % 16 == 0
      ensures len == segs[k].len
    {
      assert HeaderAt(memory[..], segs, k);
      Decode(segs[k]);
      len := memory[seg] / 16 * 16;
    }

    /** The precondition on len is the source's own assertion: no call can trip it. */
    method SetLenAndFlags(seg: Word, len: Word, free: bool)
      requires memory.Length == MEMORY_SIZE && len % 16 == 0
      modifies memory
      ensures memory[..] == old(memory[..])[seg := len + if free then 1 else 0]
    {
      memory[seg] := len + if free then 1 else 0;
    }

    method FirstHeader(usable: Word)
      requires memory.Length == MEMORY_SIZE && 0 < heapStart && heapStart % 16 == 0
      requires 16 <= usable && usable % 16 == 0 && heapStart + HEADER + usable <= heapEnd
      modifies this`segs, this`limit, memory
      ensures Valid() && limit == heapStart + HEADER + usable && segs == Fresh(heapStart, usable)
      ensures forall a :: 0 <= a < MEMORY_SIZE && !(heapStart <= a < heapStart + HEADER) ==> memory[a] == old(memory[a])
    {
      SetLenAndFlags(heapStart, usable, true);
      memory[heapStart + 4] := 0;
      memory[heapStart + 8] := 0;
      memory[heapStart + 12] := 0;
      segs := Fresh(heapStart, usable);
      limit := heapStart + HEADER + usable;
      assert HeaderAt(memory[..], segs, 0);
    }

    method Init(startAddr: Word, totalSize: Word) returns (r: Outcome<()>)
      requires Valid()
      modifies this, memory
      ensures r.Panicked? <==>
        || startAddr == 0 || totalSize == 0 || startAddr + totalSize >= TWO_32 || AlignUp(startAddr) >= TWO_32
        || totalSize < AlignUp(startAddr) - startAddr + HEADER + 16
      ensures r.Returned? ==>
        && Valid() && heapStart == AlignUp(startAddr) && heapEnd == startAddr + totalSize
        && limit == heapEnd / 16 * 16
        && segs == Fresh(heapStart, limit - heapStart - HEADER)
        && forall a :: 0 <= a < MEMORY_SIZE && !(heapStart <= a < heapStart + HEADER) ==> memory[a] == old(memory[a])
    {
      AlignUpBounds(startAddr);
      if startAddr == 0 || totalSize == 0 || totalSize > 0xFFFF_FFFF - startAddr || startAddr > 0xFFFF_FFFF - 15 {
        return Panicked;
      }
      var aligned := (startAddr + 15) / 16 * 16;
      var lost := aligned - startAddr;
      if totalSize <= HEADER + lost {
        return Panicked;
      }
      heapStart := aligned;
      AlignDownBounds(totalSize - lost - HEADER);
      AlignDownSum(aligned + HEADER, totalSize - lost - HEADER);
      var usable := (totalSize - lost - HEADER) / 16 * 16;
      if usable < 16 {
        return Panicked;
      }
      heapEnd := startAddr + totalSize;
      FirstHeader(usable);
      return Returned(());
    }

    /** The header of a new free segment. */
    method WriteHeader(seg: Word, len: Word, next: Word, prev: Word)
      requires memory.Length == MEMORY_SIZE && seg + 16 <= MEMORY_SIZE && len % 16 == 0
      modifies memory
      ensures memory[..] == NewHeader(old(memory[..]), seg, len, next, prev)
    {
      SetLenAndFlags(seg, len, true);
      memory[seg + 4] := next;
      memory[seg + 8] := prev;
      memory[seg + 12] := 0;
    }

    method WriteSplit(segment: Word, requested: Word, remaining: Word, isFree: bool, ghost k: int)
      requires Linked(memory[..], segs, limit) && 0 <= k < |segs|
      requires segs[k].addr == segment && isFree == segs[k].free
      requires 16 <= requested && remaining == segs[k].len - requested >= HEADER + MIN_SPLIT
      requires requested % 16 == 0 && remaining % 16 == 0
      modifies memory
      ensures memory[..] == SplitWrites(old(memory[..]), segs, k, requested)
    {
      assert HeaderAt(memory[..], segs, k);
      var next := memory[segment + 4];
      var newSegment := segment + HEADER + requested;
      assert next == NextOf(segs, k) && next < MEMORY_SIZE - 16;
      assert newSegment + 16 <= segs[k].End() <= limit;
      hide Linked;
      WriteHeader(newSegment, remaining - HEADER, next, segment);
      hide NewHeader;
      if next != 0 {
        memory[next + 8] := newSegment;
      }
      memory[segment + 4] := newSegment;
      SetLenAndFlags(segment, requested, isFree);
    }

    /** Splits segment k when what remains can hold a header and 32 bytes; otherwise does nothing. */
    method SplitSegment(segment: Word, requested: Word, ghost k: int)
      requires Linked(memory[..], segs, limit) && 0 <= k < |segs| && segs[k].addr == segment
      requires segs[k].len % 16 == 0 && requested % 16 == 0
      requires 16 <= requested <= segs[k].len
      modifies this`segs, memory
      ensures segs ==
        if old(segs)[k].len - requested >= HEADER + MIN_SPLIT then Split(old(segs), k, requested) else old(segs)
      ensures Linked(memory[..], segs, limit)
      ensures OnlyHeadersChanged(old(memory[..]), memory[..], segs)
    {
      var currentLen := GetLen(segment, k);
      var remaining := currentLen - requested;
      if remaining >= HEADER + MIN_SPLIT {
        SplitLinked(memory[..], segs, limit, k, requested);
        hide Linked;
        hide Split;
        hide SplitWrites;
        hide OnlyHeadersChanged;
        var isFree := IsFree(segment, k);
        WriteSplit(segment, requested, remaining, isFree, k);
        segs := Split(segs, k, requested);
      }
    }

    /** kmalloc's walk along the next links: the first free segment that is long enough, or null. */
    method FindFit(n: Word) returns (current: Word, ghost k: nat)
      requires Valid() && heapStart != 0
      ensures k == FirstFit(segs, n)
      ensures current == if FirstFit(segs, n) < |segs| then segs[FirstFit(segs, n)].addr else 0
      ensures current == 0 <==> k == |segs|
    {
      current, k := heapStart, 0;
      while current != 0
        invariant k <= |segs|
        invariant current == if k < |segs| then segs[k].addr else 0
        invariant forall i :: 0 <= i < k ==> !Fits(segs[i], n)
        decreases |segs| - k
      {
        var free := IsFree(current, k);
        var len := GetLen(current, k);
        if free && len >= n {
          return;
        }
        assert HeaderAt(memory[..], segs, k);
        current := memory[current + 4];
        k := k + 1;
      }
    }

    method SetFlag(seg: Word, free: bool, ghost k: int)
      requires Linked(memory[..], segs, limit) && 0 <= k < |segs| && segs[k].addr == seg
      requires segs[k].len % 16 == 0
      modifies this`segs, memory
      ensures segs == WithFlag(old(segs), k, free)
      ensures memory[..] == FlagWrite(old(memory[..]), old(segs)[k], free)
      ensures Linked(memory[..], segs, limit)
    {
      FlagLinked(memory[..], segs, limit, k, free);
      var len := GetLen(seg, k);
      SetLenAndFlags(seg, len, free);
      segs := WithFlag(segs, k, free);
    }

    /** The tail of kmalloc: carve the fitting segment and mark it used. */
    method Take(current: Word, n: Word, ghost k: int) returns (r: Outcome<int>)
      requires Valid() && heapStart != 0
      requires n % 16 == 0 && n >= 16
      requires k == FirstFit(segs, n) && k < |segs| && segs[k].addr == current
      modifies this`segs, memory
      ensures segs == Allocate(old(segs), n) && r == Returned(old(segs)[k].Payload())
      ensures Valid()
      ensures LeavesPayloads(old(memory[..]), memory[..], old(segs), heapStart, limit)
    {
      ghost var m := memory[..];
      AllocateSteps(segs, n);
      AllocateWellFormed(segs, heapStart, limit, n);
      FitsAligned(segs, heapStart, limit, n);
      AfterSplit(segs, k, n);
      InRegion(segs, heapStart, limit, k);
      hide WellFormed;
      hide Linked;
      hide Split;
      hide Allocate;
      hide OnlyHeadersChanged;
      SplitSegment(current, n, k);
      FlagTouches(m, memory[..], segs, k, false);
      SetFlag(current, false, k);
      AllocateLeaves(m, memory[..], old(segs), heapStart, limit, n);
      return Returned(current + HEADER);
    }

    /**
     kmalloc panics before heap_init, for size 0, for sizes that cannot be aligned, and on exhaustion.
     Otherwise list and pointer are those of Heap.Step, and no live payload byte changes.
     */
    method Kmalloc(size: Word) returns (r: Outcome<int>)
      requires Valid()
      modifies this`segs, memory
      ensures r.Panicked? <==> heapStart == 0 || Step(old(segs), Malloc(size)).Panicked?
      ensures r.Returned? ==> Step(old(segs), Malloc(size)) == Returned((segs, r.value)) && Valid()
      ensures r.Returned? ==> LeavesPayloads(old(memory[..]), memory[..], old(segs), heapStart, limit)
      ensures r.Returned? ==>
        Called(old(memory[..]), old(segs), memory[..], segs, heapStart, limit, Malloc(size), r.value)
    {
      if heapStart == 0 || size == 0 || size > 0xFFFF_FFF0 - 15 {
        return Panicked;
      }
      var n := (size + 15) / 16 * 16;
      var current, k := FindFit(n);
      if current == 0 {
        return Panicked;
      }
      r := Take(current, n, k);
    }

    /** kfree's walk: the segment whose payload is p, or null. */
    method FindPayload(p: Word) returns (segment: Word, ghost k: nat)
      requires Valid() && heapStart != 0
      ensures k == Find(segs, p)
      ensures segment == if Find(segs, p) < |segs| then segs[Find(segs, p)].addr else 0
      ensures segment == 0 <==> k == |segs|
    {
      segment, k := heapStart, 0;
      while segment != 0 && p != segment + HEADER
        invariant k <= |segs|
        invariant segment == if k < |segs| then segs[k].addr else 0
        invariant forall i :: 0 <= i < k ==> segs[i].Payload() != p
        decreases |segs| - k
      {
        assert HeaderAt(memory[..], segs, k);
        segment := memory[segment + 4];
        k := k + 1;
      }
    }

    method WriteAbsorb(seg: Word, other: Word, mergedLen: Word, ghost k: int)
      requires Linked(memory[..], segs, limit) && Adjacent(segs, k)
      requires segs[k].addr == seg && segs[k + 1].addr == other
      requires mergedLen == segs[k].len + HEADER + segs[k + 1].len && mergedLen % 16 == 0
      modifies memory
      ensures memory[..] == AbsorbWrites(old(memory[..]), segs, k)
    {
      assert HeaderAt(memory[..], segs, k + 1);
      SetLenAndFlags(seg, mergedLen, true);
      var next := memory[other + 4];
      memory[seg + 4] := next;
      if next != 0 {
        memory[next + 8] := seg;
      }
    }

    /** Either half of kfree's merging: seg takes over the segment linked behind it. */
    method AbsorbNext(seg: Word, ghost k: int, ghost m0: seq<int>, ghost segs0: seq<Segment>)
      requires Linked(memory[..], segs, limit) && Adjacent(segs, k) && segs[k].addr == seg
      requires segs[k].len % 16 == 0 && segs[k + 1].len % 16 == 0
      requires OnlyHeadersChanged(m0, memory[..], segs0)
      requires forall a :: InHeader(segs, a) ==> InHeader(segs0, a)
      modifies this`segs, memory
      ensures segs == Absorb(old(segs), k)
      ensures Linked(memory[..], segs, limit)
      ensures OnlyHeadersChanged(m0, memory[..], segs0)
      ensures forall a :: InHeader(segs, a) ==> InHeader(segs0, a)
    {
      ghost var m: seq<int> := memory[..];
      AbsorbLinked(m, segs, limit, k);
      AbsorbTouches(m0, m, AbsorbWrites(m, segs, k), segs0, segs, k);
      assert HeaderAt(m, segs, k);
      var other := memory[seg + 4];
      var len := GetLen(seg, k);
      var otherLen := GetLen(other, k + 1);
      assert other != seg;
      WriteAbsorb(seg, other, len + HEADER + otherLen, k);
      segs := Absorb(segs, k);
    }

    method MarkFree(segment: Word, ghost k: int)
      requires Valid() && heapStart != 0 && 0 <= k < |segs| && segs[k].addr == segment
      modifies this`segs, memory
      ensures segs == WithFlag(old(segs), k, true) && Tiles(segs, heapStart, limit)
      ensures Linked(memory[..], segs, limit)
      ensures OnlyHeadersChanged(old(memory[..]), memory[..], old(segs))
      ensures forall a :: InHeader(segs, a) ==> InHeader(old(segs), a)
    {
      FlagTiles(segs, heapStart, limit, k);
      FlagTouches(memory[..], memory[..], segs, k, true);
      SetFlag(segment, true, k);
      assert forall i :: 0 <= i < |segs| ==> segs[i].addr == old(segs)[i].addr;
      assert forall a :: InHeader(segs, a) ==> InHeader(old(segs), a);
    }

    /** Merges segment k with a free successor. */
    method FreeForward(segment: Word, ghost k: int, ghost m0: seq<int>, ghost segs0: seq<Segment>)
      requires Linked(memory[..], segs, limit) && Tiles(segs, heapStart, limit)
      requires 0 <= k < |segs| && segs[k].addr == segment
      requires OnlyHeadersChanged(m0, memory[..], segs0)
      requires forall a :: InHeader(segs, a) ==> InHeader(segs0, a)
      modifies this`segs, memory
      ensures segs == MergeForward(old(segs), k) && Tiles(segs, heapStart, limit) && segs[k].addr == segment
      ensures Linked(memory[..], segs, limit)
      ensures OnlyHeadersChanged(m0, memory[..], segs0)
      ensures forall a :: InHeader(segs, a) ==> InHeader(segs0, a)
    {
      assert HeaderAt(memory[..], segs, k);
      var next := memory[segment + 4];
      if next != 0 {
        var free := IsFree(next, k + 1);
        if free {
          AbsorbTiles(segs, heapStart, limit, k);
          AbsorbNext(segment, k, m0, segs0);
        }
      }
    }

    /** Merges segment k into a free predecessor. */
    method FreeBackward(segment: Word, ghost k: int, ghost m0: seq<int>, ghost segs0: seq<Segment>)
      requires Linked(memory[..], segs, limit) && Tiles(segs, heapStart, limit)
      requires 0 <= k < |segs| && segs[k].addr == segment
      requires OnlyHeadersChanged(m0, memory[..], segs0)
      requires forall a :: InHeader(segs, a) ==> InHeader(segs0, a)
      modifies this`segs, memory
      ensures segs == MergeBackward(old(segs), k)
      ensures Linked(memory[..], segs, limit)
      ensures OnlyHeadersChanged(m0, memory[..], segs0)
    {
      assert HeaderAt(memory[..], segs, k);
      var prev := memory[segment + 8];
      if prev != 0 {
        var free := IsFree(prev, k - 1);
        if free {
          AbsorbTiles(segs, heapStart, limit, k - 1);
          AbsorbNext(prev, k - 1, m0, segs0);
        }
      }
    }

    method MergeAround(segment: Word, ghost k: int, ghost m0: seq<int>, ghost segs0: seq<Segment>)
      requires Linked(memory[..], segs, limit) && Tiles(segs, heapStart, limit)
      requires 0 <= k < |segs| && segs[k].addr == segment
      requires OnlyHeadersChanged(m0, memory[..], segs0)
      requires forall a :: InHeader(segs, a) ==> InHeader(segs0, a)
      modifies this`segs, memory
      ensures segs == MergeBackward(MergeForward(old(segs), k), k)
      ensures Linked(memory[..], segs, limit)
      ensures OnlyHeadersChanged(m0, memory[..], segs0)
    {
      FreeForward(segment, k, m0, segs0);
      FreeBackward(segment, k, m0, segs0);
    }

    method FreeSegment(segment: Word, ghost k: int)
      requires Valid() && heapStart != 0
      requires 0 <= k < |segs| && segs[k].addr == segment && !segs[k].free
      modifies this`segs, memory
      ensures Valid() && segs == Release(old(segs), k)
      ensures LeavesPayloads(old(memory[..]), memory[..], old(segs), heapStart, limit)
    {
      hide Tiles;
      hide Coalesced;
      hide Linked;
      hide OnlyHeadersChanged;
      hide LeavesPayloads;
      hide Release;
      hide MergeForward;
      hide MergeBackward;
      ghost var m0, segs0 := memory[..], segs;
      MarkFree(segment, k);
      MergeAround(segment, k, m0, segs0);
      ReleaseSteps(segs0, heapStart, limit, k);
      ReleaseWellFormed(segs0, heapStart, limit, k);
      HeadersAvoidPayloads(m0, memory[..], segs0, heapStart, limit);
    }

    /**
     kfree returns normally exactly when Heap.Step does, leaves Heap.Step's list behind, and changes
     no live payload byte.
     */
    method Kfree(ptr: Word) returns (r: Outcome<()>)
      requires Valid()
      modifies this`segs, memory
      ensures r.Panicked? <==> ptr != 0 && (heapStart == 0 || Step(old(segs), Free(ptr)).Panicked?)
      ensures r.Returned? && heapStart != 0 ==> Step(old(segs), Free(ptr)) == Returned((segs, 0))
      ensures r.Returned? ==> Valid()
      ensures r.Returned? && heapStart != 0 ==>
        LeavesPayloads(old(memory[..]), memory[..], old(segs), heapStart, limit)
      ensures r.Returned? && heapStart != 0 ==>
        Called(old(memory[..]), old(segs), memory[..], segs, heapStart, limit, Free(ptr), 0)
    {
      if ptr == 0 {
        return Returned(());
      }
      if heapStart == 0 {
        return Panicked;
      }
      PayloadInRange(segs, heapStart, limit, ptr);
      if !(ptr >= heapStart + HEADER && ptr < heapEnd && ptr % 16 == 0) {
        return Panicked;
      }
      var segment, k := FindPayload(ptr);
      if segment == 0 {
        return Panicked;
      }
      var free := IsFree(segment, k);
      if free {
        return Panicked;
      }
      FreeSegment(segment, k);
      return Returned(());
    }

    /** A client may write any aligned word of a live block: the allocator's own data is not there. */
    method Store(ghost b: (int, int), a: Word, v: Word)
      requires Valid() && heapStart != 0
      requires b in Live(segs) && b.0 <= a < b.0 + b.1 && a % 4 == 0
      modifies memory
      ensures Valid() && memory[..] == old(memory[..])[a := v]
    {
      ghost var m := memory[..];
      forall i | 0 <= i < |segs| ensures !(segs[i].addr <= a < segs[i].addr + HEADER) {
        PayloadNotHeader(segs, heapStart, limit, b, a, i);
      }
      memory[a] := v;
      StoreLinked(m, segs, limit, a, v);
    }
  }
}
