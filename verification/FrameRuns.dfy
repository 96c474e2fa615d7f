/** Runs of the frame allocator: every interleaving of allocations, releases and markings. */
module FrameRuns {
  import opened Bitmap
  import opened PageTables
  import opened PageRange
  import opened AreaOrder
  import opened RegionList
  import VmmOutcome

  // What one call does to the set of free frames. MarkUsed covers set_page_used and the calls that
  // set_page_range_used makes.
  datatype Event = Allocated(frame: nat) | Released(frame: nat) | MarkedUsed(frame: nat)

  ghost predicate Step(total: nat, free: set<nat>, e: Event, free': set<nat>)
  {
    match e
    case Allocated(f) => f in free && (forall g :: g in free ==> f <= g) && free' == free - {f}
    case Released(f) => free' == free + if f < total then {f} else {}
    case MarkedUsed(f) => free' == free - {f}
  }

  ghost predicate Run(total: nat, states: seq<set<nat>>, events: seq<Event>)
  {
    && |states| == |events| + 1
    && forall i :: 0 <= i < |events| ==> Step(total, states[i], events[i], states[i + 1])
  }

  // A frame that becomes free between two points of a run was released there.
  lemma {:induction false} FreedByRelease(total: nat, states: seq<set<nat>>, events: seq<Event>, f: nat, i: nat, j: nat)
    requires Run(total, states, events) && i <= j <= |events|
    requires f !in states[i] && f in states[j]
    ensures exists k :: i <= k < j && events[k] == Released(f)
    decreases j
  {
    assert Step(total, states[j - 1], events[j - 1], states[j]);
    if f in states[j - 1] {
      FreedByRelease(total, states, events, f, i, j - 1);
    }
  }

  // No frame is handed out twice without a release of it in between.
  lemma NoDoubleAllocation(total: nat, states: seq<set<nat>>, events: seq<Event>, f: nat, i: nat, j: nat)
    requires Run(total, states, events) && i < j < |events|
    requires events[i] == Allocated(f) && events[j] == Allocated(f)
    ensures exists k :: i < k < j && events[k] == Released(f)
  {
    assert Step(total, states[i], events[i], states[i + 1]);
    assert Step(total, states[j], events[j], states[j + 1]);
    FreedByRelease(total, states, events, f, i + 1, j);
  }

  // From the state that init_bitmap leaves, no frame below the reserved limit is handed out
  // unless it was released first.
  lemma ReservedFramesAreKept(total: nat, kernelPhysicalEnd: nat, states: seq<set<nat>>, events: seq<Event>, j: nat)
    requires Run(total, states, events) && j < |events| && events[j].Allocated?
    requires forall g :: g in states[0] ==> (kernelPhysicalEnd + RESERVED_ABOVE_KERNEL) / PAGE_SIZE <= g
    ensures || (kernelPhysicalEnd + RESERVED_ABOVE_KERNEL) / PAGE_SIZE <= events[j].frame
            || exists k :: 0 <= k < j && events[k] == Released(events[j].frame)
  {
    var f := events[j].frame;
    assert Step(total, states[j], events[j], states[j + 1]);
    if f !in states[0] {
      FreedByRelease(total, states, events, f, 0, j);
    }
  }

  // ---------------------------------------------------------------------------------------------
  // The calls of the kernel as runs

  // The events of one call lead from the free frames before it to those after it.
  ghost predicate Leads(total: nat, free: set<nat>, events: seq<Event>, free': set<nat>)
    decreases |events|
  {
    if events == [] then free' == free
    else exists mid :: Step(total, free, events[0], mid) && Leads(total, mid, events[1..], free')
  }

  lemma {:induction false} LeadsIsARun(total: nat, free: set<nat>, events: seq<Event>, free': set<nat>)
    returns (states: seq<set<nat>>)
    requires Leads(total, free, events, free')
    ensures Run(total, states, events) && states[0] == free && states[|events|] == free'
    decreases |events|
  {
    if events == [] {
      states := [free];
    } else {
      var mid :| Step(total, free, events[0], mid) && Leads(total, mid, events[1..], free');
      var rest := LeadsIsARun(total, mid, events[1..], free');
      states := [free] + rest;
      forall i | 0 <= i < |events|
        ensures Step(total, states[i], events[i], states[i + 1])
      {
        if i > 0 {
          assert Step(total, rest[i - 1], events[1..][i - 1], rest[i]);
        }
      }
    }
  }

  ghost predicate AllocatesOnly(events: seq<Event>) {
    forall i :: 0 <= i < |events| ==> events[i].Allocated?
  }

  lemma OneStep(total: nat, free: set<nat>, e: Event, free': set<nat>)
    requires Step(total, free, e, free')
    ensures Leads(total, free, [e], free')
  {
    assert Leads(total, free', [e][1..], free');
  }

  // A call that takes the lowest free frames takes them one after another, and releases none.
  lemma {:induction false} LowestTakenIsARun(total: nat, free: set<nat>, free': set<nat>) returns (events: seq<Event>)
    requires TakesLowest(free, free')
    ensures Leads(total, free, events, free') && AllocatesOnly(events) && |events| == |free| - |free'|
    decreases |free|
  {
    if free == free' {
      events := [];
    } else {
      var f := Lowest(free);
      LowestIsTaken(free, free', f);
      var rest := LowestTakenIsARun(total, free - {f}, free');
      events := [Allocated(f)] + rest;
      assert Step(total, free, Allocated(f), free - {f}) && events[1..] == rest;
    }
  }

  lemma {:induction false} Lowest(free: set<nat>) returns (f: nat)
    requires free != {}
    ensures IsLowest(f, free)
  {
    var g :| g in free;
    if free == {g} {
      f := g;
    } else {
      var h := Lowest(free - {g});
      f := if g < h then g else h;
      forall k | k in free
        ensures f <= k
      {
        assert k == g || k in free - {g};
      }
    }
  }

  lemma LowestIsTaken(free: set<nat>, free': set<nat>, f: nat)
    requires TakesLowest(free, free') && free != free' && IsLowest(f, free)
    ensures f !in free' && TakesLowest(free - {f}, free')
  {
    var g :| g in free && g !in free';
    assert f <= g;
  }

  // allocate_physical_page: one event, or none when no frame is free.
  lemma AllocationIsARun(total: nat, free: set<nat>, address: nat, free': set<nat>) returns (events: seq<Event>)
    requires if free == {} then free' == {}
             else IsLowest(address / PAGE_SIZE, free) && free' == free - {address / PAGE_SIZE}
    ensures Leads(total, free, events, free') && AllocatesOnly(events)
    ensures events == if free == {} then [] else [Allocated(address / PAGE_SIZE)]
  {
    if free == {} {
      events := [];
    } else {
      events := [Allocated(address / PAGE_SIZE)];
      OneStep(total, free, events[0], free');
    }
  }

  // set_page_range_used: one event for each frame of the range.
  lemma {:induction false} MarkedRangeIsARun(total: nat, free: set<nat>, free': set<nat>, lo: nat, hi: nat)
    returns (events: seq<Event>)
    requires forall f :: f in free' <==> f in free && !(lo <= f < hi)
    ensures Leads(total, free, events, free') && forall e :: e in events ==> e.MarkedUsed? && lo <= e.frame < hi
    decreases if lo < hi then hi - lo else 0
  {
    if lo >= hi {
      events := [];
      assert free' == free;
    } else {
      var rest := MarkedRangeIsARun(total, free - {lo}, free', lo + 1, hi);
      events := [MarkedUsed(lo)] + rest;
      assert Step(total, free, MarkedUsed(lo), free - {lo}) && events[1..] == rest;
    }
  }

  // map_page allocates one frame for each missing table and releases none.
  lemma MapPageIsARun(total: nat, s0: State, s: State, root: Frame, path: seq<Index>, e: Entry)
    returns (events: seq<Event>)
    requires |path| == 4 && Mapped(s0, s, root, path, e)
    ensures Leads(total, s0.free, events, s.free) && AllocatesOnly(events) && |events| == Missing(s0.mem, root, path)
  {
    hide TakesLowest;
    events := LowestTakenIsARun(total, s0.free, s.free);
  }

  // vmm_allocate allocates one frame for each page and one for each link that was missing, and releases none.
  lemma VmmAllocateIsARun(total: nat, s0: State, s: State, root: Frame, rs: seq<Region>, cells: seq<Frame>, size: nat,
                          cells': seq<Frame>, top': nat)
    returns (events: seq<Event>)
    requires VmmOutcome.HasRoom(rs, size)
    requires VmmOutcome.Allocated(s0, s, root, rs, cells, size, cells', top')
    ensures Leads(total, s0.free, events, s.free) && AllocatesOnly(events)
    ensures |events| == Before(s0.mem, root, VmmOutcome.NewPages(rs, size), size / PAGE_SIZE)
  {
    hide TakesLowest, Before, KeepsTranslations, VmmOutcome.NewPages, VmmOutcome.ListLeft, VmmOutcome.CellsLeft;
    hide VmmOutcome.AllMapped, VmmOutcome.LosesPages;
    events := LowestTakenIsARun(total, s0.free, s.free);
  }

  // vmm_free releases the frame behind the header that it finds; if it finds none it does nothing.
  lemma VmmFreeIsARun(total: nat, free: set<nat>, cells: seq<Frame>, k: nat, free': set<nat>)
    returns (events: seq<Event>)
    requires k <= |cells|
    requires free' == free + if k < |cells| && cells[k] < total then {cells[k]} else {}
    ensures Leads(total, free, events, free') && events == if k < |cells| then [Released(cells[k])] else []
  {
    if k < |cells| {
      events := [Released(cells[k])];
      OneStep(total, free, events[0], free');
    } else {
      events := [];
    }
  }

  // init_vmm allocates the frame of vm_root, marks it used once more, and allocates one for each missing table.
  lemma InitVmmIsARun(total: nat, free: set<nat>, f: nat, free': set<nat>) returns (events: seq<Event>)
    requires IsLowest(f, free) && TakesLowest(free - {f}, free')
    ensures Leads(total, free, events, free') && 2 <= |events| == |free| - |free'| + 1
    ensures events[..2] == [Allocated(f), MarkedUsed(f)] && AllocatesOnly(events[2..])
  {
    hide TakesLowest;
    var tables := LowestTakenIsARun(total, free - {f}, free');
    assert free == free - {f} + {f};
    var marked := [MarkedUsed(f)] + tables;
    events := [Allocated(f)] + marked;
    assert Step(total, free - {f}, MarkedUsed(f), free - {f}) && marked[1..] == tables == events[2..];
    assert Leads(total, free - {f}, marked, free');
    assert Step(total, free, Allocated(f), free - {f}) && events[1..] == marked;
  }

  // ---------------------------------------------------------------------------------------------
  // Any interleaving of calls

  // Call i leads from frees[i] to frees[i + 1].
  ghost predicate Calls(total: nat, frees: seq<set<nat>>, calls: seq<seq<Event>>)
  {
    && |frees| == |calls| + 1
    && forall i :: 0 <= i < |calls| ==> Leads(total, frees[i], calls[i], frees[i + 1])
  }

  // A frame that is in use before one call and free before a later one was released by a call in between; by
  // the lemmas above that is no map_page and no vmm_allocate.
  lemma {:induction false} FreedByACall(total: nat, frees: seq<set<nat>>, calls: seq<seq<Event>>, f: nat,
                                        i: nat, j: nat)
    requires Calls(total, frees, calls) && i <= j <= |calls| && f !in frees[i] && f in frees[j]
    ensures exists k :: i <= k < j && Released(f) in calls[k] && !AllocatesOnly(calls[k])
    decreases j
  {
    if f in frees[j - 1] {
      FreedByACall(total, frees, calls, f, i, j - 1);
    } else {
      var events := calls[j - 1];
      var states := LeadsIsARun(total, frees[j - 1], events, frees[j]);
      FreedByRelease(total, states, events, f, 0, |events|);
      var n :| 0 <= n < |events| && events[n] == Released(f);
      assert Released(f) in calls[j - 1] && !AllocatesOnly(calls[j - 1]);
    }
  }

  lemma {:induction false} LeadsOn(total: nat, a: set<nat>, events: seq<Event>, b: set<nat>,
                                   more: seq<Event>, c: set<nat>)
    requires Leads(total, a, events, b) && Leads(total, b, more, c)
    ensures Leads(total, a, events + more, c)
    decreases |events|
  {
    if events == [] {
      assert events + more == more;
    } else {
      var mid :| Step(total, a, events[0], mid) && Leads(total, mid, events[1..], b);
      LeadsOn(total, mid, events[1..], b, more, c);
      assert (events + more)[0] == events[0] && (events + more)[1..] == events[1..] + more;
    }
  }

  // All events of the calls, one call after the other.
  function Flat(calls: seq<seq<Event>>): seq<Event> {
    if calls == [] then [] else Flat(calls[..|calls| - 1]) + calls[|calls| - 1]
  }

  lemma {:induction false} CallsAreARun(total: nat, frees: seq<set<nat>>, calls: seq<seq<Event>>)
    requires Calls(total, frees, calls)
    ensures Leads(total, frees[0], Flat(calls), frees[|calls|])
    decreases |calls|
  {
    if calls != [] {
      var n := |calls| - 1;
      CallsAreARun(total, frees[..n + 1], calls[..n]);
      LeadsOn(total, frees[0], Flat(calls[..n]), frees[n], calls[n], frees[n + 1]);
    }
  }

  // Over any interleaving of whole calls no frame is handed out twice without a release of it in between,
  // within one call or across several.
  lemma NoDoubleAllocationByCalls(total: nat, frees: seq<set<nat>>, calls: seq<seq<Event>>, f: nat, i: nat, j: nat)
    requires Calls(total, frees, calls) && i < j < |Flat(calls)|
    requires Flat(calls)[i] == Allocated(f) && Flat(calls)[j] == Allocated(f)
    ensures exists k :: i < k < j && Flat(calls)[k] == Released(f)
  {
    CallsAreARun(total, frees, calls);
    var states := LeadsIsARun(total, frees[0], Flat(calls), frees[|calls|]);
    NoDoubleAllocation(total, states, Flat(calls), f, i, j);
  }
}
