/**
 The allocator's memory and the page tables together: the words kmalloc and kfree change are stores
 through the heap window, so allocator calls, requests for windows and the stores of block owners can
 come in any order without disturbing each other.
 */
module HeapOnPages {
  import opened Words
  import opened Frames
  import opened Paging
  import opened AddressSpace
  import opened WindowContents
  import opened HeapAllocator
  import Heap

  /** The heap window holds this many words. */
  const HEAP_WORDS := 0x10_0000

  // ---------- What the heap window shows ----------

  /** The word a load from virtual address v sees. */
  function LoadWord(mem: seq<Paging.Frame>, dir: nat, v: Word): Option<Word>
    requires |mem| == FRAMES && dir < FRAMES
  {
    match Translate(mem, dir, v)
    case None => None
    case Some(a) => Some(PhysWord(mem, a))
  }

  /** Through the page tables the heap window reads like the array m. */
  ghost predicate Shows(mem: seq<Paging.Frame>, dir: nat, m: seq<Word>)
    requires |mem| == FRAMES && dir < FRAMES && |m| == MEMORY_SIZE
  {
    forall v: Word | HeapWord(v) :: LoadWord(mem, dir, v) == Some(m[v])
  }

  lemma WordsApart(a: Word, b: Word)
    requires a == FrameOf(a) * PAGE_SIZE + a % PAGE_SIZE / 4 * 4
    requires b == FrameOf(b) * PAGE_SIZE + b % PAGE_SIZE / 4 * 4
    requires a != b
    ensures FrameOf(a) != FrameOf(b) || a % PAGE_SIZE / 4 != b % PAGE_SIZE / 4
  {
  }

  /** A stored word is read back, and every other word of the heap is as it was. */
  lemma LoadStored(k: Kernel, dir: nat, heap: Word, v: Word, x: Word, w: Word)
    requires Good(k, dir, heap) && HeapWord(v) && HeapWord(w)
    ensures |HeapStored(k, dir, heap, v, x).s.mem| == |k.s.mem| == FRAMES && dir < FRAMES
    ensures LoadWord(HeapStored(k, dir, heap, v, x).s.mem, dir, w) ==
      if w == v then Some(x) else LoadWord(k.s.mem, dir, w)
  {
    GoodSizes(k, dir, heap);
    var a := HeapTarget(k, dir, heap, v);
    var b := HeapTarget(k, dir, heap, w);
    HeapStoredIs(k, dir, heap, v, x, a);
    HeapStoresAreHarmless(k, dir, heap, v, a % PAGE_SIZE / 4, x, w);
    hide Good;
    hide HeapStored;
    hide Translate;
    if w != v {
      assert a != b;
      WordsApart(a, b);
    }
  }

  // ---------- The stores of an allocator call ----------

  /** The i-th word of the heap. */
  function HeapAt(i: nat): (v: Word)
    requires i < HEAP_WORDS
    ensures HeapWord(v)
  {
    HEAP_BASE + 4 * i
  }

  /** The words from the i-th on in which m' differs from m, as stores. */
  function Stores(m: seq<Word>, m': seq<Word>, i: nat): seq<Event>
    requires |m| == |m'| == MEMORY_SIZE && i <= HEAP_WORDS
    decreases HEAP_WORDS - i
  {
    if i == HEAP_WORDS then []
    else
      var v := HeapAt(i);
      (if m'[v] == m[v] then [] else [HeapStore(v, m'[v])]) + Stores(m, m', i + 1)
  }

  /** Each of these events is a store to a word of the heap that changed, of its new value. */
  lemma {:induction false} StoresAreChanges(m: seq<Word>, m': seq<Word>, i: nat)
    requires |m| == |m'| == MEMORY_SIZE && i <= HEAP_WORDS
    ensures forall e <- Stores(m, m', i) :: e.HeapStore? && HeapWord(e.v) && m'[e.v] != m[e.v] && e.x == m'[e.v]
    decreases HEAP_WORDS - i
  {
    if i < HEAP_WORDS { StoresAreChanges(m, m', i + 1); }
  }

  /** The window reads like m' before the i-th word and like m from there on. */
  ghost predicate ShowsUpTo(mem: seq<Paging.Frame>, dir: nat, m: seq<Word>, m': seq<Word>, i: nat)
    requires |mem| == FRAMES && dir < FRAMES && |m| == |m'| == MEMORY_SIZE
  {
    forall v: Word | HeapWord(v) :: LoadWord(mem, dir, v) == Some(if v < HEAP_BASE + 4 * i then m'[v] else m[v])
  }

  /** The kernel but for memory. */
  ghost predicate SameButMemory(k: Kernel, k': Kernel) {
    k'.next == k.next && k'.windows == k.windows && k'.s.used == k.s.used && k'.s.total == k.s.total
  }

  lemma WordBelow(v: Word, i: nat)
    requires i < HEAP_WORDS && HeapWord(v)
    ensures v < HEAP_BASE + 4 * (i + 1) <==> v < HEAP_BASE + 4 * i || v == HeapAt(i)
  {
  }

  /** One word further without a store, or with one. */
  lemma ShowsNext(k: Kernel, dir: nat, heap: Word, m: seq<Word>, m': seq<Word>, i: nat)
    requires Good(k, dir, heap) && |m| == |m'| == MEMORY_SIZE && i < HEAP_WORDS
    requires |k.s.mem| == FRAMES && dir < FRAMES && ShowsUpTo(k.s.mem, dir, m, m', i)
    ensures m'[HeapAt(i)] == m[HeapAt(i)] ==> ShowsUpTo(k.s.mem, dir, m, m', i + 1)
    ensures var k1 := HeapStored(k, dir, heap, HeapAt(i), m'[HeapAt(i)]);
      |k1.s.mem| == FRAMES && ShowsUpTo(k1.s.mem, dir, m, m', i + 1)
  {
    hide Good;
    hide HeapStored;
    hide LoadWord;
    hide HeapAt;
    hide HeapWord;
    var at := HeapAt(i);
    LoadStored(k, dir, heap, at, m'[at], at);
    var k1 := HeapStored(k, dir, heap, at, m'[at]);
    forall v: Word | HeapWord(v)
      ensures LoadWord(k1.s.mem, dir, v) == Some(if v < HEAP_BASE + 4 * (i + 1) then m'[v] else m[v])
      ensures m'[at] == m[at] ==>
        LoadWord(k.s.mem, dir, v) == Some(if v < HEAP_BASE + 4 * (i + 1) then m'[v] else m[v])
    {
      WordBelow(v, i);
      LoadStored(k, dir, heap, at, m'[at], v);
    }
  }

  lemma StoredSame(k: Kernel, dir: nat, heap: Word, v: Word, x: Word)
    requires Good(k, dir, heap) && HeapWord(v)
    ensures SameButMemory(k, HeapStored(k, dir, heap, v, x))
  {
  }

  /** With every word passed the window reads like m'; with none passed, like m. */
  lemma ShowsEnds(mem: seq<Paging.Frame>, dir: nat, m: seq<Word>, m': seq<Word>)
    requires |mem| == FRAMES && dir < FRAMES && |m| == |m'| == MEMORY_SIZE
    ensures ShowsUpTo(mem, dir, m, m', HEAP_WORDS) <==> Shows(mem, dir, m')
    ensures ShowsUpTo(mem, dir, m, m', 0) <==> Shows(mem, dir, m)
  {
    hide LoadWord;
  }

  /** Running the stores brings the window from m to m' and touches nothing else. */
  lemma {:induction false} StoresRun(k: Kernel, dir: nat, heap: Word, m: seq<Word>, m': seq<Word>, i: nat)
    requires Good(k, dir, heap) && |m| == |m'| == MEMORY_SIZE && i <= HEAP_WORDS
    requires |k.s.mem| == FRAMES && dir < FRAMES && ShowsUpTo(k.s.mem, dir, m, m', i)
    ensures forall e <- Stores(m, m', i) :: Allowed(e)
    ensures Run(k, dir, heap, Stores(m, m', i)).Returned?
    ensures var k' := Run(k, dir, heap, Stores(m, m', i)).value;
      Good(k', dir, heap) && SameButMemory(k, k') && |k'.s.mem| == FRAMES && Shows(k'.s.mem, dir, m')
    decreases HEAP_WORDS - i
  {
    hide Good;
    hide HeapStored;
    hide HeapAt;
    hide HeapWord;
    hide Shows;
    hide ShowsUpTo;
    StoresAreChanges(m, m', i);
    if i == HEAP_WORDS {
      ShowsEnds(k.s.mem, dir, m, m');
    } else {
      var v := HeapAt(i);
      ShowsNext(k, dir, heap, m, m', i);
      if m'[v] == m[v] {
        StoresRun(k, dir, heap, m, m', i + 1);
        assert Stores(m, m', i) == Stores(m, m', i + 1);
      } else {
        var k1 := HeapStored(k, dir, heap, v, m'[v]);
        StoredSame(k, dir, heap, v, m'[v]);
        HeapStoreGood(k, dir, heap, v, m'[v]);
        StoresRun(k1, dir, heap, m, m', i + 1);
        var es := Stores(m, m', i);
        assert es[0] == HeapStore(v, m'[v]) && es[1..] == Stores(m, m', i + 1);
        assert After(k, dir, heap, es[0]) == Returned(k1);
      }
    }
  }

  // ---------- Allocator, window requests and block owners ----------

  /** Between two actions: the kernel, the array the allocator sees, and its list of segments. */
  datatype Machine = Machine(k: Kernel, m: seq<Word>, segs: seq<Heap.Segment>)

  /** A request for a window, an allocator call, or a store into a live block by its owner. */
  datatype Action = Request(phys: Word, len: Word) | Call(c: Heap.Call) | BlockStore(b: (int, int), v: Word, x: Word)

  /** The address space is good, and through it the heap reads as the linked headers of a well-formed list. */
  ghost predicate Tied(x: Machine, dir: nat, heap: Word, limit: int) {
    && Good(x.k, dir, heap)
    && |x.k.s.mem| == FRAMES && dir < FRAMES && Guarded(x.k.s.used, x.k.s.total) && x.k.next % PAGE_SIZE == 0
    && |x.m| == MEMORY_SIZE && Shows(x.k.s.mem, dir, x.m)
    && limit <= HEAP_BASE + HEAP_SIZE
    && Heap.WellFormed(x.segs, HEAP_BASE, limit) && Linked(x.m, x.segs, limit)
  }

  /**
   What an action that does not panic does. An allocator call changes the array as Kmalloc and Kfree
   promise, and memory by a store for each word that changed.
   */
  ghost predicate Acts(x: Machine, act: Action, y: Machine, dir: nat, heap: Word, limit: int)
    requires Tied(x, dir, heap, limit)
  {
    match act
    case Request(phys, len) =>
      var r := AcpiMapRange(x.k, dir, phys, len);
      r.Returned? && y == x.(k := r.value.0)
    case Call(c) =>
      && |y.m| == MEMORY_SIZE
      && (exists p :: Called(x.m, x.segs, y.m, y.segs, HEAP_BASE, limit, c, p))
      && (StoresAreChanges(x.m, y.m, 0); Run(x.k, dir, heap, Stores(x.m, y.m, 0)) == Returned(y.k))
    case BlockStore(b, v, w) =>
      && b in Heap.Live(x.segs) && b.0 <= v < b.0 + b.1 && HeapWord(v)
      && y == x.(k := HeapStored(x.k, dir, heap, v, w), m := x.m[v := w])
  }

  lemma HeapWordIs(k: Kernel, dir: nat, heap: Word, v: Word) returns (a: Word)
    requires Good(k, dir, heap) && HeapWord(v)
    ensures |k.s.mem| == FRAMES && dir < FRAMES && a == heap + (v - HEAP_BASE)
    ensures LoadWord(k.s.mem, dir, v) == Some(PhysWord(k.s.mem, a)) && InHeap(heap / PAGE_SIZE, FrameOf(a))
  {
    GoodSizes(k, dir, heap);
    assert LeadsTo(k.s.mem, dir, Window(HEAP_BASE, heap, HEAP_SIZE));
    hide Good;
    hide Translate;
    a := heap + (v - HEAP_BASE);
    HeapFrame(heap, v - HEAP_BASE);
  }

  /** The heap's frames never hold the directory or a table. */
  lemma HeapNotStructural(k: Kernel, dir: nat, heap: Word, g: nat)
    requires Good(k, dir, heap) && InHeap(heap / PAGE_SIZE, g)
    ensures |k.s.mem| == FRAMES && g < FRAMES && !Structural(k.s.mem[dir], dir, g)
  {
    GoodSound(k, dir, heap);
    hide Good;
  }

  /** A request for a window changes no word of the heap. */
  lemma RequestKeepsHeap(k: Kernel, dir: nat, heap: Word, phys: Word, len: Word, v: Word)
    requires Good(k, dir, heap) && HeapWord(v)
    requires AcpiMapRange(k, dir, phys, len).Returned?
    ensures var k' := AcpiMapRange(k, dir, phys, len).value.0;
      |k'.s.mem| == |k.s.mem| == FRAMES && LoadWord(k'.s.mem, dir, v) == LoadWord(k.s.mem, dir, v)
  {
    AcpiMapRangeMeans(k, dir, heap, phys, len);
    var k' := AcpiMapRange(k, dir, phys, len).value.0;
    var a := HeapWordIs(k, dir, heap, v);
    var a' := HeapWordIs(k', dir, heap, v);
    HeapNotStructural(k', dir, heap, FrameOf(a));
    AcpiSteady(k, dir, heap, phys, len, FrameOf(a));
    GoodSizes(k, dir, heap);
    GoodSizes(k', dir, heap);
    hide Good;
    hide AcpiMapRange;
    hide Structural;
    hide LoadWord;
  }

  lemma RequestTied(x: Machine, phys: Word, len: Word, y: Machine, dir: nat, heap: Word, limit: int)
    requires Tied(x, dir, heap, limit) && Acts(x, Request(phys, len), y, dir, heap, limit)
    ensures Tied(y, dir, heap, limit) && x.k.windows <= y.k.windows
  {
    hide Good;
    hide AcpiMapRange;
    hide LoadWord;
    hide HeapWord;
    hide Heap.WellFormed;
    hide Linked;
    AcpiMapRangeMeans(x.k, dir, heap, phys, len);
    GoodSizes(y.k, dir, heap);
    forall v: Word | HeapWord(v) ensures LoadWord(y.k.s.mem, dir, v) == Some(y.m[v]) {
      RequestKeepsHeap(x.k, dir, heap, phys, len, v);
    }
  }

  lemma CallTied(x: Machine, c: Heap.Call, y: Machine, dir: nat, heap: Word, limit: int)
    requires Tied(x, dir, heap, limit) && Acts(x, Call(c), y, dir, heap, limit)
    ensures Tied(y, dir, heap, limit) && x.k.windows == y.k.windows
  {
    hide Good;
    hide Run;
    hide Stores;
    hide Shows;
    hide ShowsUpTo;
    hide Heap.WellFormed;
    hide Linked;
    ShowsEnds(x.k.s.mem, dir, x.m, y.m);
    StoresRun(x.k, dir, heap, x.m, y.m, 0);
    GoodSizes(y.k, dir, heap);
  }

  lemma StoreTied(x: Machine, b: (int, int), v: Word, w: Word, y: Machine, dir: nat, heap: Word, limit: int)
    requires Tied(x, dir, heap, limit) && Acts(x, BlockStore(b, v, w), y, dir, heap, limit)
    ensures Tied(y, dir, heap, limit) && x.k.windows == y.k.windows
  {
    hide Good;
    hide LoadWord;
    hide HeapStored;
    HeapStoreGood(x.k, dir, heap, v, w);
    StoredSame(x.k, dir, heap, v, w);
    GoodSizes(y.k, dir, heap);
    forall u: Word | HeapWord(u) ensures LoadWord(y.k.s.mem, dir, u) == Some(y.m[u]) {
      LoadStored(x.k, dir, heap, v, w, u);
    }
    forall i | 0 <= i < |x.segs| ensures !(x.segs[i].addr <= v < x.segs[i].addr + Heap.HEADER) {
      PayloadNotHeader(x.segs, HEAP_BASE, limit, b, v, i);
    }
    StoreLinked(x.m, x.segs, limit, v, w);
  }

  /** Every action keeps both invariants and the tie between them. */
  lemma ActsTied(x: Machine, act: Action, y: Machine, dir: nat, heap: Word, limit: int)
    requires Tied(x, dir, heap, limit) && Acts(x, act, y, dir, heap, limit)
    ensures Tied(y, dir, heap, limit) && x.k.windows <= y.k.windows
  {
    hide Tied;
    hide Acts;
    match act
    case Request(phys, len) => RequestTied(x, phys, len, y, dir, heap, limit);
    case Call(c) => CallTied(x, c, y, dir, heap, limit);
    case BlockStore(b, v, w) => StoreTied(x, b, v, w, y, dir, heap, limit);
  }

  /** A word of a live block reads the same through the page tables unless this action stores it. */
  lemma ActsKeepWord(x: Machine, act: Action, y: Machine, dir: nat, heap: Word, limit: int, b: (int, int), v: Word)
    requires Tied(x, dir, heap, limit) && Acts(x, act, y, dir, heap, limit)
    requires b in Heap.Live(x.segs) && b.0 <= v < b.0 + b.1 && HeapWord(v)
    requires act.BlockStore? ==> act.v != v
    ensures |y.k.s.mem| == |x.k.s.mem| == FRAMES && dir < FRAMES
    ensures LoadWord(y.k.s.mem, dir, v) == LoadWord(x.k.s.mem, dir, v)
  {
    ActsTied(x, act, y, dir, heap, limit);
    hide Good;
    hide LoadWord;
    hide Heap.WellFormed;
    hide Linked;
    hide Run;
    hide Stores;
    hide AcpiMapRange;
    hide Heap.Live;
    assert y.m[v] == x.m[v];
  }

  // ---------- Runs ----------

  /** The machines a list of actions passes through. */
  ghost predicate Chain(xs: seq<Machine>, acts: seq<Action>, dir: nat, heap: Word, limit: int) {
    && |xs| == |acts| + 1 && Tied(xs[0], dir, heap, limit)
    && forall i, j | 0 <= i < j < |xs| && j == i + 1 ::
         Tied(xs[i], dir, heap, limit) ==> Acts(xs[i], acts[i], xs[j], dir, heap, limit)
  }

  /**
   However requests for windows, allocator calls and stores into blocks follow each other, the address
   space stays good, the allocator's list well-formed, and the one shows the headers of the other.
   */
  lemma {:induction false} RunKeepsTied(xs: seq<Machine>, acts: seq<Action>, dir: nat, heap: Word, limit: int, n: nat)
    requires Chain(xs, acts, dir, heap, limit) && n < |xs|
    ensures Tied(xs[n], dir, heap, limit) && xs[0].k.windows <= xs[n].k.windows
  {
    hide Tied;
    hide Acts;
    if n > 0 {
      RunKeepsTied(xs, acts, dir, heap, limit, n - 1);
      ActsTied(xs[n - 1], acts[n - 1], xs[n], dir, heap, limit);
    }
  }

  /** As long as a block lives, a word of it changes only when it is stored. */
  lemma {:induction false} RunKeepsWord(xs: seq<Machine>, acts: seq<Action>, dir: nat, heap: Word, limit: int,
                                        n: nat, b: (int, int), v: Word)
    requires Chain(xs, acts, dir, heap, limit) && n < |xs|
    requires b.0 <= v < b.0 + b.1 && HeapWord(v)
    requires forall i :: 0 <= i < n ==> b in Heap.Live(xs[i].segs) && !(acts[i].BlockStore? && acts[i].v == v)
    ensures |xs[n].k.s.mem| == |xs[0].k.s.mem| == FRAMES && dir < FRAMES
    ensures LoadWord(xs[n].k.s.mem, dir, v) == LoadWord(xs[0].k.s.mem, dir, v)
  {
    if n > 0 {
      RunKeepsWord(xs, acts, dir, heap, limit, n - 1, b, v);
      RunKeepsTied(xs, acts, dir, heap, limit, n - 1);
      hide Tied;
      hide Acts;
      hide LoadWord;
      ActsKeepWord(xs[n - 1], acts[n - 1], xs[n], dir, heap, limit, b, v);
    }
  }

  // ---------- After boot ----------

  /** The heap as the page tables show it. */
  ghost function View(mem: seq<Paging.Frame>, dir: nat): (m: seq<Word>)
    requires |mem| == FRAMES && dir < FRAMES
    ensures |m| == MEMORY_SIZE
  {
    seq(MEMORY_SIZE, v requires 0 <= v < MEMORY_SIZE =>
      match LoadWord(mem, dir, v)
      case Some(x) => x
      case None => 0)
  }

  lemma ViewShows(k: Kernel, dir: nat, heap: Word)
    requires Good(k, dir, heap)
    ensures |k.s.mem| == FRAMES && dir < FRAMES && Shows(k.s.mem, dir, View(k.s.mem, dir))
  {
    GoodSizes(k, dir, heap);
    var m := View(k.s.mem, dir);
    forall v: Word | HeapWord(v) ensures LoadWord(k.s.mem, dir, v) == Some(m[v]) {
      var a := HeapWordIs(k, dir, heap, v);
    }
  }

  lemma FreshWellFormed()
    ensures Heap.WellFormed(Heap.Fresh(HEAP_BASE, HEAP_SIZE - Heap.HEADER), HEAP_BASE, HEAP_BASE + HEAP_SIZE)
  {
  }

  /** The headers heap_init writes, as stores into the mapped heap: the machine all runs start from. */
  lemma InitTied(k: Kernel, dir: nat, heap: Word, m': seq<Word>)
    requires Good(k, dir, heap) && |m'| == MEMORY_SIZE
    requires Linked(m', Heap.Fresh(HEAP_BASE, HEAP_SIZE - Heap.HEADER), HEAP_BASE + HEAP_SIZE)
    ensures |k.s.mem| == FRAMES && dir < FRAMES && Shows(k.s.mem, dir, View(k.s.mem, dir))
    ensures forall e <- Stores(View(k.s.mem, dir), m', 0) :: Allowed(e)
    ensures var r := Run(k, dir, heap, Stores(View(k.s.mem, dir), m', 0));
      && r.Returned?
      && Tied(Machine(r.value, m', Heap.Fresh(HEAP_BASE, HEAP_SIZE - Heap.HEADER)), dir, heap, HEAP_BASE + HEAP_SIZE)
  {
    hide Good;
    hide View;
    hide Shows;
    hide ShowsUpTo;
    hide Linked;
    hide Heap.WellFormed;
    hide Heap.Fresh;
    hide Stores;
    hide Run;
    ViewShows(k, dir, heap);
    FreshWellFormed();
    var m := View(k.s.mem, dir);
    ShowsEnds(k.s.mem, dir, m, m');
    StoresRun(k, dir, heap, m, m', 0);
    GoodSizes(Run(k, dir, heap, Stores(m, m', 0)).value, dir, heap);
  }
}
