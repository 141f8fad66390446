/**
 Which frames the page tables of acpi_map_range come from. The frames of a range are reserved one by
 one while its tables take the lowest free frame, so a table can land in the part of the range that
 is still to be reserved, and the window then leads to its own page table.
 */
module WindowTables {
  import opened Words
  import opened Frames
  import opened Paging
  import opened AddressSpace
  import opened FrameDemand

  // ---------- The frames a run's tables take ----------

  /** The frame that page f's table takes, if it needs one and gets one. */
  function OneTaken(used: seq<bool>, total: nat, f: nat, need: bool): set<nat>
    requires Guarded(used, total) && f < FRAMES
  {
    ReservePhysMeans(used, total, f * PAGE_SIZE, PAGE_SIZE, f);
    if !need then {}
    else
      match AllocFrame(ReservePhys(used, total, f * PAGE_SIZE, PAGE_SIZE), total)
      case Panicked => {}
      case Returned((t, _)) => {t}
  }

  /** The frames taken by the tables of a run of pages over the frames from f on. */
  function Taken(used: seq<bool>, total: nat, f: nat, needs: seq<bool>): set<nat>
    requires Guarded(used, total) && f + |needs| <= FRAMES
  {
    if needs == [] then {}
    else
      var n := |needs| - 1;
      match Serve(used, total, f, needs[..n])
      case Panicked => {}
      case Returned(u) => Taken(used, total, f, needs[..n]) + OneTaken(u, total, f + n, needs[n])
  }

  lemma {:induction false} TakenSnoc(used: seq<bool>, total: nat, f: nat, needs: seq<bool>, last: nat)
    requires Guarded(used, total) && f + |needs| <= FRAMES && |needs| == last + 1
    requires Serve(used, total, f, needs).Returned?
    ensures Serve(used, total, f, needs[..last]).Returned?
    ensures Taken(used, total, f, needs) ==
      Taken(used, total, f, needs[..last])
      + OneTaken(Serve(used, total, f, needs[..last]).value, total, f + last, needs[last])
  {
    hide ServeOne;
    hide OneTaken;
    hide Guarded;
  }

  lemma {:induction false} TakenCons(used: seq<bool>, total: nat, f: nat, needs: seq<bool>)
    requires Guarded(used, total) && f + |needs| <= FRAMES && needs != []
    requires Serve(used, total, f, needs).Returned?
    ensures ServeOne(used, total, f, needs[0]).Returned?
    ensures Taken(used, total, f, needs) ==
      OneTaken(used, total, f, needs[0])
      + Taken(ServeOne(used, total, f, needs[0]).value, total, f + 1, needs[1..])
  {
    hide ServeOne;
    hide OneTaken;
    hide Guarded;
    ServeCons(used, total, f, needs);
    var n := |needs| - 1;
    TakenSnoc(used, total, f, needs, n);
    if n == 0 {
      assert needs[..0] == [] && needs[1..] == [];
    } else {
      hide Serve;
      hide Taken;
      var front, rest, u := needs[..n], needs[1..], ServeOne(used, total, f, needs[0]).value;
      assert rest[..n - 1] == front[1..] && rest[n - 1] == needs[n] && front[0] == needs[0];
      ServeCons(used, total, f, front);
      TakenCons(used, total, f, front);
      TakenSnoc(u, total, f + 1, rest, n - 1);
    }
  }

  ghost predicate Within(ts: set<nat>, lo: nat, hi: nat) {
    exists t <- ts :: lo <= t < hi
  }

  /**
   A table that is needed when no free frame below the range is left, while a frame of the range that
   is still to be reserved is free.
   */
  ghost predicate ClashAt(used: seq<bool>, f: nat, hi: nat, needs: seq<bool>, k: nat, g: nat)
    requires f + |needs| <= hi <= |used|
  {
    k < |needs| && needs[k] && Tables(needs[..k]) >= FreeBelow(used, f) && f + k < g < hi && !used[g]
  }

  ghost predicate Clash(used: seq<bool>, f: nat, hi: nat, needs: seq<bool>)
    requires f + |needs| <= hi <= |used|
  {
    exists k: nat, g: nat :: ClashAt(used, f, hi, needs, k, g)
  }

  /** A page that takes no frame of the range only moves the condition on by one page. */
  lemma ClashShifts(used: seq<bool>, u: seq<bool>, f: nat, hi: nat, needs: seq<bool>, after: nat, rest: seq<bool>)
    requires needs != [] && f + |needs| <= hi <= |used| == |u| && after == f + 1 && rest == needs[1..]
    requires forall g :: f < g < hi ==> used[g] == u[g]
    requires FreeBelow(used, f) == FreeBelow(u, after) + if needs[0] then 1 else 0
    ensures Clash(used, f, hi, needs) <==> Clash(u, after, hi, rest)
  {
    if k: nat, g: nat :| ClashAt(used, f, hi, needs, k, g) {
      assert k > 0;
      Shifted(needs, k);
      assert ClashAt(u, after, hi, rest, k - 1, g);
    }
    if k: nat, g: nat :| ClashAt(u, after, hi, rest, k, g) {
      Shifted(needs, k + 1);
      assert ClashAt(used, f, hi, needs, k + 1, g);
    }
  }

  /** t is the lowest free frame other than f. */
  ghost predicate LowestAbout(used: seq<bool>, f: nat, t: nat) {
    f < |used| && t < |used| && t != f && !used[t] && forall g :: 0 <= g < t && g != f ==> used[g]
  }

  lemma OneTakenIs(used: seq<bool>, total: nat, f: nat, need: bool)
    requires Guarded(used, total) && f < FRAMES && ServeOne(used, total, f, need).Returned?
    ensures !need ==> OneTaken(used, total, f, need) == {} && ServeOne(used, total, f, need).value == used[f := true]
    ensures need ==> (exists t: nat :: LowestAbout(used, f, t) && OneTaken(used, total, f, need) == {t}
                        && ServeOne(used, total, f, need).value == used[f := true][t := true])
  {
    ReserveOneFrame(used, total, f);
    ReservePhysMeans(used, total, f * PAGE_SIZE, PAGE_SIZE, f);
    if need {
      var v := used[f := true];
      var t := AllocFrame(v, total).value.0;
      assert t != f && !used[t];
      forall g | 0 <= g < t && g != f ensures used[g] { assert v[g] == used[g]; }
      assert LowestAbout(used, f, t);
    }
  }

  lemma OneWasFree(used: seq<bool>, total: nat, f: nat, need: bool)
    requires Guarded(used, total) && f < FRAMES && ServeOne(used, total, f, need).Returned?
    ensures forall t <- OneTaken(used, total, f, need) :: t < FRAMES && !used[t]
    ensures var u := ServeOne(used, total, f, need).value;
      |u| == FRAMES && u[f] && forall g :: 0 <= g < FRAMES && used[g] ==> u[g]
  {
    OneTakenIs(used, total, f, need);
    hide ServeOne;
    hide OneTaken;
  }

  lemma {:induction false} TakenWereFree(used: seq<bool>, total: nat, f: nat, needs: seq<bool>)
    requires Guarded(used, total) && f + |needs| <= FRAMES
    requires Serve(used, total, f, needs).Returned?
    ensures forall t <- Taken(used, total, f, needs) :: t < FRAMES && !used[t]
    decreases |needs|
  {
    if needs != [] {
      hide ServeOne;
      hide OneTaken;
      hide Guarded;
      hide LowestAbout;
      ServeCons(used, total, f, needs);
      TakenCons(used, total, f, needs);
      hide Serve;
      hide Taken;
      OneWasFree(used, total, f, needs[0]);
      TakenWereFree(ServeOne(used, total, f, needs[0]).value, total, f + 1, needs[1..]);
    }
  }

  /** The frame of a page is reserved before its table takes one, so no table of the run ever takes it. */
  lemma WithinCons(one: set<nat>, rest: set<nat>, f: nat, after: nat, hi: nat)
    requires after == f + 1 && f !in rest
    ensures Within(one + rest, f, hi) <==> Within(one, f, hi) || Within(rest, after, hi)
  {
    if t :| t in one && f <= t < hi { assert t in one + rest; }
    if t :| t in rest && after <= t < hi { assert t in one + rest; }
  }

  lemma NothingFree(used: seq<bool>, f: nat, hi: nat, needs: seq<bool>)
    requires f + |needs| <= hi <= |used|
    requires forall g :: f < g < hi ==> used[g]
    ensures !Clash(used, f, hi, needs)
  {
  }

  lemma FirstClashes(used: seq<bool>, f: nat, hi: nat, needs: seq<bool>, t: nat)
    requires needs != [] && needs[0] && f + |needs| <= hi <= |used|
    requires f < t < hi && !used[t] && FreeBelow(used, f) == 0
    ensures Clash(used, f, hi, needs)
  {
    assert needs[..0] == [];
    assert ClashAt(used, f, hi, needs, 0, t);
  }

  /** The first page: either its table clashes, or the condition moves on. */
  lemma ClashStep(used: seq<bool>, total: nat, f: nat, hi: nat, needs: seq<bool>)
    requires Guarded(used, total) && f + |needs| <= hi <= FRAMES && needs != []
    requires ServeOne(used, total, f, needs[0]).Returned?
    ensures Clash(used, f, hi, needs) <==>
      || Within(OneTaken(used, total, f, needs[0]), f, hi)
      || Clash(ServeOne(used, total, f, needs[0]).value, f + 1, hi, needs[1..])
  {
    OneTakenIs(used, total, f, needs[0]);
    hide ServeOne;
    hide OneTaken;
    var u := ServeOne(used, total, f, needs[0]).value;
    ReservedCounts(used, f, f + 1);
    if !needs[0] {
      ClashShifts(used, u, f, hi, needs, f + 1, needs[1..]);
    } else {
      var t: nat :| LowestAbout(used, f, t) && OneTaken(used, total, f, needs[0]) == {t}
        && u == used[f := true][t := true];
      TakenBelow(used[f := true], f + 1, t);
      NoneBelow(used, f);
      if t < f {
        ClashShifts(used, u, f, hi, needs, f + 1, needs[1..]);
      } else if t < hi {
        FirstClashes(used, f, hi, needs, t);
        assert t in {t};
      } else {
        NothingFree(used, f, hi, needs);
        NothingFree(u, f + 1, hi, needs[1..]);
      }
    }
  }

  lemma NoPages(used: seq<bool>, total: nat, f: nat, hi: nat)
    requires Guarded(used, total) && f <= hi <= FRAMES
    ensures !Within(Taken(used, total, f, []), f, hi) && !Clash(used, f, hi, [])
  {
  }

  /** The exact condition for a table to land in the range. */
  lemma {:induction false} ClashIff(used: seq<bool>, total: nat, f: nat, hi: nat, needs: seq<bool>)
    requires Guarded(used, total) && f + |needs| <= hi <= FRAMES
    requires Serve(used, total, f, needs).Returned?
    ensures Within(Taken(used, total, f, needs), f, hi) <==> Clash(used, f, hi, needs)
    decreases |needs|
  {
    hide ServeOne;
    hide OneTaken;
    hide Guarded;
    hide Clash;
    hide Within;
    hide Taken;
    if needs == [] {
      NoPages(used, total, f, hi);
    } else {
      ServeCons(used, total, f, needs);
      TakenCons(used, total, f, needs);
      hide Serve;
      ClashStep(used, total, f, hi, needs);
      OneWasFree(used, total, f, needs[0]);
      var u, rest := ServeOne(used, total, f, needs[0]).value, needs[1..];
      TakenWereFree(u, total, f + 1, rest);
      ClashIff(u, total, f + 1, hi, rest);
      WithinCons(OneTaken(used, total, f, needs[0]), Taken(u, total, f + 1, rest), f, f + 1, hi);
    }
  }
}
