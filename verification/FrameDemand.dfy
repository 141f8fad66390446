/**
 When a run of pages can be mapped: each page's own frame is reserved before it is mapped, and the
 page tables that are missing take the lowest free frames as the run reaches them.
 */
module FrameDemand {
  import opened Words
  import opened Frames
  import opened Paging
  import opened AddressSpace

  // ---------- Counting ----------

  /** How many of the frames from from on are free. */
  function FreeFrom(used: seq<bool>, from: nat): nat
    decreases |used| - from
  {
    if from >= |used| then 0 else (if used[from] then 0 else 1) + FreeFrom(used, from + 1)
  }

  /** How many of the first to frames are free. */
  function FreeBelow(used: seq<bool>, to: nat): nat
    requires to <= |used|
  {
    if to == 0 then 0 else FreeBelow(used, to - 1) + (if used[to - 1] then 0 else 1)
  }

  /** How many tables a run needs. */
  function Tables(needs: seq<bool>): nat {
    if needs == [] then 0 else (if needs[0] then 1 else 0) + Tables(needs[1..])
  }

  lemma {:induction false} TakenFrom(used: seq<bool>, from: nat, f: nat)
    requires f < |used|
    ensures FreeFrom(used[f := true], from) == FreeFrom(used, from) - if from <= f && !used[f] then 1 else 0
    decreases |used| - from
  {
    if from < |used| { TakenFrom(used, from + 1, f); }
  }

  lemma {:induction false} TakenBelow(used: seq<bool>, to: nat, f: nat)
    requires f < |used| && to <= |used|
    ensures FreeBelow(used[f := true], to) == FreeBelow(used, to) - if f < to && !used[f] then 1 else 0
  {
    if to > 0 { TakenBelow(used, to - 1, f); }
  }

  lemma {:induction false} FreeBetween(used: seq<bool>, a: nat, b: nat, f: nat)
    requires a <= b <= |used|
    ensures FreeFrom(used, a) >= FreeFrom(used, b) + if a <= f < b && !used[f] then 1 else 0
    ensures (forall g :: a <= g < b ==> used[g]) ==> FreeFrom(used, a) == FreeFrom(used, b)
    decreases b - a
  {
    if a < b { FreeBetween(used, a + 1, b, f); }
  }

  lemma {:induction false} NoneBelow(used: seq<bool>, to: nat)
    requires to <= |used|
    ensures FreeBelow(used, to) == 0 <==> forall f :: 0 <= f < to ==> used[f]
  {
    if to > 0 { NoneBelow(used, to - 1); }
  }

  lemma {:induction false} NoneFrom(used: seq<bool>, from: nat)
    ensures FreeFrom(used, from) == 0 <==> forall f :: from <= f < |used| ==> used[f]
    decreases |used| - from
  {
    if from < |used| { NoneFrom(used, from + 1); }
  }

  lemma {:induction false} TablesConcat(a: seq<bool>, b: seq<bool>)
    ensures Tables(a + b) == Tables(a) + Tables(b)
  {
    if a == [] {
      assert a + b == b;
    } else {
      assert (a + b)[1..] == a[1..] + b;
      TablesConcat(a[1..], b);
    }
  }

  // ---------- Serving a run ----------

  /** One page: its own frame f is reserved, then its table, if it needs one, takes the lowest free frame. */
  function ServeOne(used: seq<bool>, total: nat, f: nat, need: bool): (r: Outcome<seq<bool>>)
    requires Guarded(used, total) && f < FRAMES
    ensures r.Returned? ==> Guarded(r.value, total)
  {
    ReservePhysMeans(used, total, f * PAGE_SIZE, PAGE_SIZE, f);
    var u := ReservePhys(used, total, f * PAGE_SIZE, PAGE_SIZE);
    if !need then Returned(u)
    else
      match AllocFrame(u, total)
      case Panicked => Panicked
      case Returned((_, u')) => Returned(u')
  }

  /** A run of pages over the frames from f on; needs says which pages need a table. */
  function Serve(used: seq<bool>, total: nat, f: nat, needs: seq<bool>): (r: Outcome<seq<bool>>)
    requires Guarded(used, total) && f + |needs| <= FRAMES
    ensures r.Returned? ==> Guarded(r.value, total)
  {
    if needs == [] then Returned(used)
    else
      match Serve(used, total, f, needs[..|needs| - 1])
      case Panicked => Panicked
      case Returned(u) => ServeOne(u, total, f + |needs| - 1, needs[|needs| - 1])
  }

  lemma {:induction false} ServeCons(used: seq<bool>, total: nat, f: nat, needs: seq<bool>)
    requires Guarded(used, total) && f + |needs| <= FRAMES && needs != []
    ensures Serve(used, total, f, needs) ==
      match ServeOne(used, total, f, needs[0])
      case Panicked => Panicked
      case Returned(u) => Serve(u, total, f + 1, needs[1..])
  {
    hide ServeOne;
    if |needs| > 1 {
      var front := needs[..|needs| - 1];
      assert needs[1..][..|needs| - 2] == front[1..];
      ServeCons(used, total, f, front);
    } else {
      assert Serve(used, total, f, []) == Returned(used);
      assert needs[..0] == [] && needs[1..] == [];
    }
  }

  lemma ReserveOneFrame(used: seq<bool>, total: nat, f: nat)
    requires Guarded(used, total) && f < FRAMES
    ensures ReservePhys(used, total, f * PAGE_SIZE, PAGE_SIZE) == used[f := true]
  {
    var u := ReservePhys(used, total, f * PAGE_SIZE, PAGE_SIZE);
    forall g | 0 <= g < FRAMES ensures u[g] == used[f := true][g] {
      ReservePhysMeans(used, total, f * PAGE_SIZE, PAGE_SIZE, g);
    }
  }

  ghost predicate EnoughAt(used: seq<bool>, f: nat, needs: seq<bool>, k: nat)
    requires f + |needs| <= |used| && k < |needs|
  {
    needs[k] && Tables(needs[..k]) >= FreeBelow(used, f) ==> Tables(needs[k..]) <= FreeFrom(used, f + k + 1)
  }

  /**
   The free frames below the run go to the first tables; every later one needs, with those still to
   come, free frames above the part of the run that is reserved when it is reached.
   */
  ghost predicate Enough(used: seq<bool>, f: nat, needs: seq<bool>)
    requires f + |needs| <= |used|
  {
    forall k :: 0 <= k < |needs| ==> EnoughAt(used, f, needs, k)
  }

  lemma Shifted(needs: seq<bool>, k: nat)
    requires 0 < k < |needs|
    ensures needs[1..][k - 1] == needs[k]
    ensures Tables(needs[..k]) == (if needs[0] then 1 else 0) + Tables(needs[1..][..k - 1])
    ensures Tables(needs[k..]) == Tables(needs[1..][k - 1..])
  {
    assert needs[..k][1..] == needs[1..][..k - 1];
    assert needs[1..][k - 1..] == needs[k..];
  }

  /** Reserving frame f changes no count on either side of it. */
  lemma ReservedCounts(used: seq<bool>, f: nat, from: nat)
    requires f < |used| && f < from
    ensures FreeBelow(used[f := true], f + 1) == FreeBelow(used, f)
    ensures FreeFrom(used[f := true], from) == FreeFrom(used, from)
  {
    TakenBelow(used, f, f);
    TakenFrom(used, from, f);
  }

  /** From one page to all of them; after is f + 1 and rest is what is left of needs. */
  lemma AllShifted(used: seq<bool>, u: seq<bool>, f: nat, after: nat, needs: seq<bool>, rest: seq<bool>)
    requires needs != [] && f + |needs| <= |used| == |u| && after == f + 1 && rest == needs[1..]
    requires forall k, j :: 0 <= k < |rest| && j == k + 1 ==>
      (EnoughAt(used, f, needs, j) <==> EnoughAt(u, after, rest, k))
    ensures Enough(used, f, needs) <==> EnoughAt(used, f, needs, 0) && Enough(u, after, rest)
  {
    hide EnoughAt;
    if Enough(used, f, needs) {
      forall k | 0 <= k < |rest| ensures EnoughAt(u, after, rest, k) {
        assert EnoughAt(used, f, needs, k + 1);
      }
    }
    if EnoughAt(used, f, needs, 0) && Enough(u, after, rest) {
      forall k | 0 <= k < |needs| ensures EnoughAt(used, f, needs, k) {
        if k > 0 { assert EnoughAt(u, after, rest, k - 1); }
      }
    }
  }

  lemma StepPlain(used: seq<bool>, f: nat, needs: seq<bool>)
    requires needs != [] && f + |needs| <= |used| && !needs[0]
    ensures Enough(used, f, needs) <==> Enough(used[f := true], f + 1, needs[1..])
  {
    var u, after, rest := used[f := true], f + 1, needs[1..];
    forall k, j | 0 <= k < |rest| && j == k + 1
      ensures EnoughAt(used, f, needs, j) <==> EnoughAt(u, after, rest, k)
    {
      Shifted(needs, j);
      ReservedCounts(used, f, f + j + 1);
    }
    AllShifted(used, u, f, after, needs, rest);
  }

  /** A table that takes a frame below the run. */
  lemma StepBelow(used: seq<bool>, f: nat, needs: seq<bool>, low: nat)
    requires needs != [] && f + |needs| <= |used| && needs[0]
    requires low < f && !used[low]
    ensures Enough(used, f, needs) <==> Enough(used[f := true][low := true], f + 1, needs[1..])
  {
    var v, after, rest := used[f := true], f + 1, needs[1..];
    var u := v[low := true];
    forall k, j | 0 <= k < |rest| && j == k + 1
      ensures EnoughAt(used, f, needs, j) <==> EnoughAt(u, after, rest, k)
    {
      Shifted(needs, j);
      ReservedCounts(used, f, f + j + 1);
      TakenBelow(v, f + 1, low);
      TakenFrom(v, f + j + 1, low);
    }
    NoneBelow(used, f);
    AllShifted(used, u, f, after, needs, rest);
  }

  lemma NextNeed(needs: seq<bool>) returns (k: nat)
    requires needs != [] && needs[0]
    ensures 1 <= k <= |needs| && (k < |needs| ==> needs[k])
    ensures Tables(needs[k..]) == Tables(needs) - 1
  {
    k := 1;
    while k < |needs| && !needs[k]
      invariant 1 <= k <= |needs|
      invariant Tables(needs[k..]) == Tables(needs) - 1
    {
      assert needs[k..][1..] == needs[k + 1..];
      k := k + 1;
    }
  }

  /** The counts after a table has taken frame low, the lowest free one above f. */
  lemma AboveCounts(used: seq<bool>, f: nat, low: nat, from: nat)
    requires f < low < |used| && !used[low] && f < from <= |used| && FreeBelow(used, f) == 0
    requires forall g :: f < g < low ==> used[g]
    ensures var u := used[f := true][low := true];
      && FreeBelow(u, f + 1) == 0
      && FreeFrom(u, from) == FreeFrom(used, from) - (if from <= low then 1 else 0)
      && FreeFrom(used, f + 1) >= FreeFrom(used, from) + (if from <= low then 0 else 1)
      && (from <= low ==> FreeFrom(used, f + 1) == FreeFrom(used, from))
  {
    var v := used[f := true];
    ReservedCounts(used, f, from);
    TakenBelow(v, f + 1, low);
    TakenFrom(v, from, low);
    FreeBetween(used, f + 1, from, low);
  }

  lemma TablesSplit(needs: seq<bool>, k: nat)
    requires k <= |needs|
    ensures Tables(needs) == Tables(needs[..k]) + Tables(needs[k..])
    ensures k > 0 && needs[0] ==> Tables(needs[..k]) > 0
  {
    assert needs[..k] + needs[k..] == needs;
    TablesConcat(needs[..k], needs[k..]);
  }

  lemma StepAboveIf(used: seq<bool>, f: nat, needs: seq<bool>, low: nat)
    requires needs != [] && f + |needs| <= |used| && needs[0]
    requires f < low < |used| && !used[low] && FreeBelow(used, f) == 0
    requires forall g :: f < g < low ==> used[g]
    requires Enough(used, f, needs)
    ensures Enough(used[f := true][low := true], f + 1, needs[1..])
  {
    var u, after, rest := used[f := true][low := true], f + 1, needs[1..];
    assert EnoughAt(used, f, needs, 0) && needs[0..] == needs && needs[..0] == [];
    forall k | 0 <= k < |rest| ensures EnoughAt(u, after, rest, k) {
      assert EnoughAt(used, f, needs, k + 1);
      Shifted(needs, k + 1);
      TablesSplit(needs, k + 1);
      AboveCounts(used, f, low, f + k + 2);
    }
  }

  lemma NextServed(u: seq<bool>, f: nat, needs: seq<bool>, n: nat)
    requires 0 < n < |needs| && f + |needs| <= |u| && needs[n]
    requires FreeBelow(u, f + 1) == 0 && EnoughAt(u, f + 1, needs[1..], n - 1)
    ensures Tables(needs[n..]) <= FreeFrom(u, f + n + 1)
  {
    Shifted(needs, n);
  }

  /** The tables behind the first one have frames from some point on. */
  lemma ServedBehind(u: seq<bool>, f: nat, needs: seq<bool>) returns (from: nat)
    requires needs != [] && f + |needs| <= |u| && needs[0]
    requires FreeBelow(u, f + 1) == 0 && Enough(u, f + 1, needs[1..])
    ensures f < from <= |u| && Tables(needs) <= FreeFrom(u, from) + 1
  {
    var n := NextNeed(needs);
    if n < |needs| {
      assert EnoughAt(u, f + 1, needs[1..], n - 1);
      NextServed(u, f, needs, n);
      from := f + n + 1;
    } else {
      assert needs[n..] == [];
      from := |u|;
    }
  }

  /** The frame the first table took is one more above f. */
  lemma OneMoreAbove(used: seq<bool>, f: nat, low: nat, from: nat, t: int)
    requires f < low < |used| && !used[low] && f < from <= |used| && FreeBelow(used, f) == 0
    requires forall g :: f < g < low ==> used[g]
    requires t <= FreeFrom(used[f := true][low := true], from) + 1
    ensures t <= FreeFrom(used, f + 1)
  {
    AboveCounts(used, f, low, from);
  }

  lemma StepAboveOnlyIf(used: seq<bool>, f: nat, needs: seq<bool>, low: nat)
    requires needs != [] && f + |needs| <= |used| && needs[0]
    requires f < low < |used| && !used[low] && FreeBelow(used, f) == 0
    requires forall g :: f < g < low ==> used[g]
    requires Enough(used[f := true][low := true], f + 1, needs[1..])
    ensures Enough(used, f, needs)
  {
    var u, after, rest := used[f := true][low := true], f + 1, needs[1..];
    AboveCounts(used, f, low, f + 1);
    var from := ServedBehind(u, f, needs);
    OneMoreAbove(used, f, low, from, Tables(needs));
    assert needs[0..] == needs;
    forall k | 0 <= k < |needs| ensures EnoughAt(used, f, needs, k) {
      if k > 0 {
        assert EnoughAt(u, after, rest, k - 1);
        Shifted(needs, k);
        AboveCounts(used, f, low, f + k + 1);
      }
    }
  }

  /** With nothing left the first table cannot be served. */
  lemma NothingLeft(used: seq<bool>, f: nat, needs: seq<bool>)
    requires needs != [] && f + |needs| <= |used| && needs[0]
    requires forall g :: 0 <= g < |used| && g != f ==> used[g]
    ensures !Enough(used, f, needs)
  {
    NoneBelow(used, f);
    NoneFrom(used, f + 1);
    assert needs[0..] == needs && needs[..0] == [];
    assert !EnoughAt(used, f, needs, 0);
  }

  lemma EnoughStep(used: seq<bool>, total: nat, f: nat, needs: seq<bool>)
    requires Guarded(used, total) && f + |needs| <= FRAMES && needs != []
    ensures Enough(used, f, needs) <==>
      match ServeOne(used, total, f, needs[0])
      case Panicked => false
      case Returned(u) => Enough(u, f + 1, needs[1..])
  {
    hide Enough;
    ReserveOneFrame(used, total, f);
    if !needs[0] {
      StepPlain(used, f, needs);
    } else {
      ReservePhysMeans(used, total, f * PAGE_SIZE, PAGE_SIZE, f);
      var v := used[f := true];
      match AllocFrame(v, total)
      case Panicked =>
        forall g | 0 <= g < FRAMES && g != f ensures used[g] { assert v[g] == used[g]; }
        NothingLeft(used, f, needs);
      case Returned((low, u)) =>
        assert low != f && !used[low];
        forall g | 0 <= g < low && g != f ensures used[g] { assert v[g] == used[g]; }
        if low < f {
          StepBelow(used, f, needs, low);
        } else {
          NoneBelow(used, f);
          if Enough(used, f, needs) { StepAboveIf(used, f, needs, low); }
          if Enough(u, f + 1, needs[1..]) { StepAboveOnlyIf(used, f, needs, low); }
        }
    }
  }

  /** A run is served to its end exactly when the counts allow it. */
  lemma {:induction false} ServedIff(used: seq<bool>, total: nat, f: nat, needs: seq<bool>)
    requires Guarded(used, total) && f + |needs| <= FRAMES
    ensures Serve(used, total, f, needs).Returned? <==> Enough(used, f, needs)
    decreases |needs|
  {
    hide EnoughAt;
    hide ServeOne;
    if needs != [] {
      ServeCons(used, total, f, needs);
      EnoughStep(used, total, f, needs);
      hide Serve;
      hide Enough;
      var one := ServeOne(used, total, f, needs[0]);
      if one.Returned? { ServedIff(one.value, total, f + 1, needs[1..]); }
    }
  }

  /** As many free frames outside the run's range as it needs tables are always enough. */
  lemma SparedFramesSuffice(used: seq<bool>, f: nat, needs: seq<bool>)
    requires f + |needs| <= |used|
    requires Tables(needs) <= FreeBelow(used, f) + FreeFrom(used, f + |needs|)
    ensures Enough(used, f, needs)
  {
    forall k | 0 <= k < |needs| ensures EnoughAt(used, f, needs, k) {
      TablesSplit(needs, k);
      FreeBetween(used, f + k + 1, f + |needs|, f);
    }
  }

  // ---------- acpi_map_range ----------

  /** Page i of the run from v is the first one of a table that the directory does not have. */
  predicate NeedsTable(d: Paging.Frame, v: nat, i: nat)
    requires v + (i + 1) * PAGE_SIZE <= TWO_32
  {
    && !Present(d[DirIndex(v + i * PAGE_SIZE)])
    && (i == 0 || DirIndex(v + (i - 1) * PAGE_SIZE) != DirIndex(v + i * PAGE_SIZE))
  }

  function Needs(d: Paging.Frame, v: nat, n: nat): (needs: seq<bool>)
    requires v + n * PAGE_SIZE <= TWO_32
    ensures |needs| == n
  {
    seq(n, i requires 0 <= i < n => NeedsTable(d, v, i))
  }

  /** The directory entries the first n pages from v have passed. */
  predicate Passed(v: nat, n: nat, x: nat)
    requires v + n * PAGE_SIZE <= TWO_32
  {
    n > 0 && DirIndex(v) <= x <= DirIndex(v + (n - 1) * PAGE_SIZE)
  }

  lemma DirStep(v: nat, n: nat)
    requires v + (n + 1) * PAGE_SIZE <= TWO_32
    ensures DirIndex(v) <= DirIndex(v + n * PAGE_SIZE)
    ensures n > 0 ==>
      var before, here := DirIndex(v + (n - 1) * PAGE_SIZE), DirIndex(v + n * PAGE_SIZE);
      before <= here <= before + 1
  {
  }

  lemma PassOne(v: nat, n: nat, x: nat)
    requires v + (n + 1) * PAGE_SIZE <= TWO_32
    ensures Passed(v, n + 1, x) <==> Passed(v, n, x) || x == DirIndex(v + n * PAGE_SIZE)
  {
    DirStep(v, n);
    hide DirIndex;
  }

  /** With the entries passed so far filled, page n needs a table exactly when its entry is still empty. */
  lemma NeedsIff(d0: Paging.Frame, d: Paging.Frame, v: nat, n: nat)
    requires v + (n + 1) * PAGE_SIZE <= TWO_32
    requires forall x :: 0 <= x < ENTRIES ==> (Present(d[x]) <==> Present(d0[x]) || Passed(v, n, x))
    ensures NeedsTable(d0, v, n) <==> !Present(d[DirIndex(v + n * PAGE_SIZE)])
  {
    DirStep(v, n);
    hide DirIndex;
    hide Present;
    assert v + 0 * PAGE_SIZE == v;
  }

  /** Directory and frames after one more page. */
  lemma MapOneServes(s: State, dir: nat, first: nat, pages: nat, v: Word, p: Word, flags: Word)
    requires Sound(s, dir, first, pages) && ACPI_BASE <= v < HEAP_BASE + HEAP_SIZE && p % PAGE_SIZE == 0
    ensures var r := MapOne(s, dir, v, p, flags, true);
      var need := !Present(Pde(s.mem, dir, v));
      && (r.Returned? <==> ServeOne(s.used, s.total, p / PAGE_SIZE, need).Returned?)
      && (r.Returned? ==>
            && r.value.0.used == ServeOne(s.used, s.total, p / PAGE_SIZE, need).value && r.value.0.total == s.total
            && (forall x :: 0 <= x < ENTRIES ==>
                  (Present(r.value.0.mem[dir][x]) <==> Present(s.mem[dir][x]) || x == DirIndex(v))))
  {
    ReserveSound(s, dir, first, pages, p);
    var s1 := ReservePage(s, p);
    var e := Pde(s.mem, dir, v);
    SoundIsValid(s1, dir, first, pages);
    assert ACPI_DIR <= DirIndex(v) <= HEAP_DIR && !(Present(e) && Large(e));
    hide Sound;
    hide Paging.Valid;
    hide Translate;
    hide ReservePhys;
    if Present(e) {
      ExistingTable(s1, dir, v, p, flags, v);
    } else {
      match AllocFrame(s1.used, s1.total)
      case Panicked =>
      case Returned((f, _)) =>
        FreshTable(s1, dir, v, f, p, flags, v);
        NewEntries(f, p, flags);
    }
  }

  lemma NothingPassed(v: nat)
    requires v <= TWO_32
    ensures forall x: nat :: !Passed(v, 0, x)
  {
  }

  lemma FramesFrom(p: int, n: int)
    requires p % PAGE_SIZE == 0
    ensures (p + n * PAGE_SIZE) % PAGE_SIZE == 0 && (p + n * PAGE_SIZE) / PAGE_SIZE == p / PAGE_SIZE + n
  {
  }

  lemma {:induction false} MapPagesServe(s: State, dir: nat, first: nat, pages: nat,
                                         v: nat, p: nat, n: nat, flags: Word)
    requires Sound(s, dir, first, pages) && p % PAGE_SIZE == 0
    requires ACPI_BASE <= v && v + n * PAGE_SIZE <= HEAP_BASE + HEAP_SIZE && p + n * PAGE_SIZE <= TWO_32
    ensures var r := MapPages(s, dir, v, p, n, flags, true);
      var u := Serve(s.used, s.total, p / PAGE_SIZE, Needs(s.mem[dir], v, n));
      && (r.Returned? <==> u.Returned?)
      && (r.Returned? ==>
            && r.value.0.used == u.value && r.value.0.total == s.total
            && (forall x :: 0 <= x < ENTRIES ==>
                  (Present(r.value.0.mem[dir][x]) <==> Present(s.mem[dir][x]) || Passed(v, n, x))))
  {
    hide Sound;
    hide ServeOne;
    hide MapOne;
    hide Present;
    hide NeedsTable;
    hide Passed;
    if n == 0 {
      NothingPassed(v);
    } else {
      var d, needs, at := s.mem[dir], Needs(s.mem[dir], v, n), v + (n - 1) * PAGE_SIZE;
      MapPagesServe(s, dir, first, pages, v, p, n - 1, flags);
      assert needs[..n - 1] == Needs(d, v, n - 1) && needs[n - 1] == NeedsTable(d, v, n - 1);
      var r := MapPages(s, dir, v, p, n - 1, flags, true);
      if r.Returned? {
        MapPagesSound(s, dir, first, pages, v, p, n - 1, flags, true);
        FramesFrom(p, n - 1);
        MapOneServes(r.value.0, dir, first, pages, at, p + (n - 1) * PAGE_SIZE, flags);
        NeedsIff(d, r.value.0.mem[dir], v, n - 1);
        forall x: nat ensures Passed(v, n, x) <==> Passed(v, n - 1, x) || x == DirIndex(at) {
          PassOne(v, n - 1, x);
        }
      }
    }
  }

  /**
   acpi_map_range returns exactly when it turns the request down or the frames left suffice for the
   missing page tables; otherwise it panics.
   */
  lemma AcpiReturnsIff(k: Kernel, dir: nat, heap: Word, phys: Word, len: Word)
    requires Good(k, dir, heap)
    ensures TurnedDown(k.next, phys, len) ==> AcpiMapRange(k, dir, phys, len).Returned?
    ensures !TurnedDown(k.next, phys, len) ==>
      var n := MappingSize(phys, len) / PAGE_SIZE;
      && phys / PAGE_SIZE + n <= FRAMES
      && (AcpiMapRange(k, dir, phys, len).Returned? <==>
            Enough(k.s.used, phys / PAGE_SIZE, Needs(k.s.mem[dir], k.next, n)))
  {
    hide MapPages;
    hide Enough;
    hide Serve;
    if !TurnedDown(k.next, phys, len) {
      RangeFits(phys, len);
      var n := MappingSize(phys, len) / PAGE_SIZE;
      MapPagesServe(k.s, dir, heap / PAGE_SIZE, HEAP_PAGES, k.next, PageOf(phys), n, ACPI_FLAGS);
      ServedIff(k.s.used, k.s.total, phys / PAGE_SIZE, Needs(k.s.mem[dir], k.next, n));
    }
  }
}
