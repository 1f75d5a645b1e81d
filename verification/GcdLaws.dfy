/** Laws between GCD operations: ranges that do not meet commute, what undoes what, and the exact reach of
    the search and of the wrap-around check. */
module GcdLaws {
  import opened GcdRecords
  import opened GcdRewrite
  import opened GcdOutcome
  import opened GcdFits
  import opened GcdRuns

  // ----- disjoint ranges commute -----

  /** A call whose range is given: a conversion, or an allocation at an address. */
  datatype Call =
    | CallConvert(op: Operation, base: int, length: nat)
    | CallAllocate(request: Request, base: int)
  {
    function Length(): int {
      if CallConvert? then length else request.length
    }

    function Change(): Operation {
      if CallConvert? then op else request.Change()
    }

    /** The range does not wrap around 2^64. */
    predicate Proper() {
      0 <= base && base + Length() <= TWO_TO_64 && (CallAllocate? ==> request.allocateType == AT_ADDRESS)
    }
  }

  ghost predicate Outcome(es: seq<Record>, call: Call, limit: int, granted: bool, status: Status, fs: seq<Record>) {
    match call
    case CallConvert(op, base, length) => Converted(es, op, base, length, limit, granted, status, fs)
    case CallAllocate(r, base) => exists at :: Allocated(es, r, base, limit, granted, status, at, fs)
  }

  /** The two lists say the same of every address of [base, base+length). */
  ghost predicate AgreeOn(es: seq<Record>, fs: seq<Record>, base: int, length: int) {
    forall a :: base <= a < base + length ==> At(es, a) == At(fs, a)
  }

  lemma {:induction false} CheckRangeAgrees(es: seq<Record>, fs: seq<Record>, op: Operation, from: int, count: nat,
                                            base: int, length: int)
    requires AgreeOn(es, fs, from, count)
    ensures CheckRange(es, op, from, count, base, length) == CheckRange(fs, op, from, count, base, length)
    decreases count
  {
    if count > 0 {
      assert At(es, from) == At(fs, from);
      CheckRangeAgrees(es, fs, op, from + 1, count - 1, base, length);
    }
  }

  lemma FitsAgrees(es: seq<Record>, fs: seq<Record>, wanted: Wanted, base: int, length: int, limit: int)
    requires AgreeOn(es, fs, base, length)
    ensures Fits(es, wanted, base, length, limit) <==> Fits(fs, wanted, base, length, limit)
  {
    if Fits(es, wanted, base, length, limit) || Fits(fs, wanted, base, length, limit) {
      assert forall a :: base <= a < base + length ==> Suits(wanted, At(es, a)) == Suits(wanted, At(fs, a));
    }
  }

  /** The status of a proper call depends only on what the list says of its range. */
  lemma StatusDependsOnRange(es: seq<Record>, fs: seq<Record>, call: Call, limit: int, granted: bool,
                             s: Status, es': seq<Record>, t: Status, fs': seq<Record>)
    requires call.Proper() && (call.base + call.Length() <= limit ==> AgreeOn(es, fs, call.base, call.Length()))
    requires Outcome(es, call, limit, granted, s, es') && Outcome(fs, call, limit, granted, t, fs')
    ensures s == t
  {
    if call.base + call.Length() > limit {
    } else if call.CallConvert? {
      CheckRangeAgrees(es, fs, call.op, call.base, call.length, call.base, call.length);
    } else {
      FitsAgrees(es, fs, call.request.wanted, call.base, call.request.length, limit);
      if ParameterStatus(call.request) == Success {
        assert Choice(es, call.request, call.base, limit, call.base)
               <==> Choice(fs, call.request, call.base, limit, call.base);
      }
    }
  }

  /** A call rewrites its range or leaves the list as it is. */
  lemma OutcomeMeans(es: seq<Record>, call: Call, limit: int, granted: bool, status: Status, fs: seq<Record>)
    requires call.Proper() && Outcome(es, call, limit, granted, status, fs) && WellFormed(es, limit)
    ensures WellFormed(fs, limit)
    ensures forall a :: 0 <= a < limit ==>
              At(fs, a) == if status == Success && call.base <= a < call.base + call.Length()
                           then Apply(call.Change(), At(es, a)) else At(es, a)
  {
    if status == Success {
      assert Rewritten(es, call.Change(), call.base, call.Length(), limit, fs);
      forall a | 0 <= a < limit
        ensures At(fs, a) == if call.base <= a < call.base + call.Length()
                             then Apply(call.Change(), At(es, a)) else At(es, a)
      {
        RewrittenAt(es, call.Change(), call.base, call.Length(), limit, fs, a);
      }
    }
  }

  lemma AgreeOutside(es: seq<Record>, call: Call, limit: int, granted: bool, status: Status, fs: seq<Record>,
                     base: int, length: int)
    requires call.Proper() && Outcome(es, call, limit, granted, status, fs) && WellFormed(es, limit)
    requires base + length <= call.base || call.base + call.Length() <= base
    requires 0 <= base && base + length <= limit
    ensures AgreeOn(es, fs, base, length)
  {
    OutcomeMeans(es, call, limit, granted, status, fs);
  }

  /** Two calls on disjoint ranges, made in either order, have the same statuses and leave the identical list. */
  lemma DisjointCallsCommute(es: seq<Record>, limit: int, x: Call, xGranted: bool, y: Call, yGranted: bool,
                             x1: Status, f: seq<Record>, y2: Status, g: seq<Record>,
                             y1: Status, f': seq<Record>, x2: Status, g': seq<Record>)
    requires WellFormed(es, limit) && x.Proper() && y.Proper()
    requires x.base + x.Length() <= y.base || y.base + y.Length() <= x.base
    requires Outcome(es, x, limit, xGranted, x1, f) && Outcome(f, y, limit, yGranted, y2, g)
    requires Outcome(es, y, limit, yGranted, y1, f') && Outcome(f', x, limit, xGranted, x2, g')
    ensures x1 == x2 && y1 == y2 && g == g'
  {
    hide WellFormed, Outcome;
    if y.base + y.Length() <= limit {
      AgreeOutside(es, x, limit, xGranted, x1, f, y.base, y.Length());
    }
    if x.base + x.Length() <= limit {
      AgreeOutside(es, y, limit, yGranted, y1, f', x.base, x.Length());
    }
    StatusDependsOnRange(es, f', x, limit, xGranted, x1, f, x2, g');
    StatusDependsOnRange(es, f, y, limit, yGranted, y1, f', y2, g);
    OutcomeMeans(es, x, limit, xGranted, x1, f);
    OutcomeMeans(f, y, limit, yGranted, y2, g);
    OutcomeMeans(es, y, limit, yGranted, y1, f');
    OutcomeMeans(f', x, limit, xGranted, x2, g');
    forall a | 0 <= a < limit ensures At(g, a) == At(g', a) {
    }
    SameMeaning(g, g', limit);
  }

  // ----- disjoint ranges and one pool -----

  /** A call that takes what it needs from the answers of the pool. */
  ghost predicate OutcomeFrom(es: seq<Record>, call: Call, limit: int, supply: seq<bool>,
                              status: Status, fs: seq<Record>, left: seq<bool>)
  {
    Outcome(es, call, limit, PairGranted(supply), status, fs) && left == SupplyLeft(supply, status)
  }

  /** Whether a call asks the pool depends only on what the list says of its range, and so does the status of one
      that does not ask. */
  lemma AskingDependsOnRange(es: seq<Record>, fs: seq<Record>, call: Call, limit: int,
                             g: bool, s: Status, es': seq<Record>, h: bool, t: Status, fs': seq<Record>)
    requires call.Proper() && (call.base + call.Length() <= limit ==> AgreeOn(es, fs, call.base, call.Length()))
    requires Outcome(es, call, limit, g, s, es') && Outcome(fs, call, limit, h, t, fs')
    ensures Asked(s) <==> Asked(t)
    ensures !Asked(s) ==> s == t
    ensures Asked(s) ==> (s == OutOfResources <==> !g)
  {
    if call.base + call.Length() > limit {
    } else if call.CallConvert? {
      CheckRangeAgrees(es, fs, call.op, call.base, call.length, call.base, call.length);
    } else {
      FitsAgrees(es, fs, call.request.wanted, call.base, call.request.length, limit);
      if ParameterStatus(call.request) == Success {
        var r, base := call.request, call.base;
        assert Choice(es, r, base, limit, base) <==> Choice(fs, r, base, limit, base);
      }
    }
  }

  /** The status of a call that does not ask the pool is the same whatever the pool would have answered. */
  lemma UnaskedOutcome(es: seq<Record>, call: Call, limit: int, g: bool, h: bool, s: Status, fs: seq<Record>)
    requires call.Proper() && Outcome(es, call, limit, g, s, fs) && (Asked(s) ==> g == h)
    ensures Outcome(es, call, limit, h, s, fs)
  {
    if call.CallAllocate? {
      var at :| Allocated(es, call.request, call.base, limit, g, s, at, fs);
      assert Allocated(es, call.request, call.base, limit, h, s, at, fs);
    }
  }

  /** Two calls on disjoint ranges that share one pool commute, statuses, list and pool alike, if and only if they do
      not both reach the pool while it meets just one of the two requests. */
  lemma DisjointCallsShareThePool(es: seq<Record>, limit: int, x: Call, y: Call, supply: seq<bool>,
                                  x1: Status, f: seq<Record>, s1: seq<bool>, y2: Status, g: seq<Record>, s2: seq<bool>,
                                  y1: Status, f': seq<Record>, t1: seq<bool>,
                                  x2: Status, g': seq<Record>, t2: seq<bool>)
    requires WellFormed(es, limit) && x.Proper() && y.Proper()
    requires x.base + x.Length() <= y.base || y.base + y.Length() <= x.base
    requires OutcomeFrom(es, x, limit, supply, x1, f, s1) && OutcomeFrom(f, y, limit, s1, y2, g, s2)
    requires OutcomeFrom(es, y, limit, supply, y1, f', t1) && OutcomeFrom(f', x, limit, t1, x2, g', t2)
    ensures x1 == x2 && y1 == y2 && g == g' && s2 == t2
            <==> !(Asked(x1) && Asked(y1) && PairGranted(supply) != PairGranted(AfterPair(supply)))
  {
    hide WellFormed, Outcome, PairGranted, AfterPair;
    if y.base + y.Length() <= limit {
      AgreeOutside(es, x, limit, PairGranted(supply), x1, f, y.base, y.Length());
    }
    if x.base + x.Length() <= limit {
      AgreeOutside(es, y, limit, PairGranted(supply), y1, f', x.base, x.Length());
    }
    AskingDependsOnRange(es, f', x, limit, PairGranted(supply), x1, f, PairGranted(t1), x2, g');
    AskingDependsOnRange(es, f, y, limit, PairGranted(supply), y1, f', PairGranted(s1), y2, g);
    AskingDependsOnRange(f', es, x, limit, PairGranted(t1), x2, g', PairGranted(supply), x1, f);
    if !(Asked(x1) && Asked(y1) && PairGranted(supply) != PairGranted(AfterPair(supply))) {
      UnaskedOutcome(es, x, limit, PairGranted(supply), PairGranted(t1), x1, f);
      UnaskedOutcome(es, y, limit, PairGranted(supply), PairGranted(s1), y1, f');
      DisjointCallsCommute(es, limit, x, PairGranted(t1), y, PairGranted(s1), x1, f, y2, g, y1, f', x2, g');
    }
  }

  lemma SameMeaning(es: seq<Record>, fs: seq<Record>, limit: int)
    requires WellFormed(es, limit) && WellFormed(fs, limit)
    requires forall a :: 0 <= a < limit ==> At(es, a) == At(fs, a)
    ensures es == fs
  {
    CoarsestIsUnique(es, fs, 0, limit);
  }

  // ----- what undoes what -----

  /** Freeing what was just allocated, wherever that was, succeeds and restores the identical list. */
  lemma FreeUndoesAllocate(es: seq<Record>, r: Request, base: int, limit: int, granted: bool, at: int, fs: seq<Record>,
                           free: Operation, status: Status, gs: seq<Record>)
    requires WellFormed(es, limit) && limit <= TWO_TO_63 && NoStrayDevices(es, limit)
    requires Allocated(es, r, base, limit, granted, Success, at, fs) && 0 <= r.length
    requires free.FreeMemory? || free.FreeIo?
    requires Converted(fs, free, at, r.length, limit, true, status, gs)
    ensures status == Success && gs == es
  {
    hide WellFormed, At;
    AllocatedRewrites(es, r, base, limit, granted, Success, at, fs);
    forall a | at <= a < at + r.length ensures CheckAt(fs, free, a, at, r.length) == Success {
      RewrittenAt(es, r.Change(), at, r.length, limit, fs, a);
    }
    CheckRangePasses(fs, free, at, r.length, at, r.length);
    FoundMeans(fs, at, r.length, limit);
    forall a | 0 <= a < limit ensures At(gs, a) == At(es, a) {
      RewrittenAt(es, r.Change(), at, r.length, limit, fs, a);
      RewrittenAt(fs, free, at, r.length, limit, gs, a);
      assert at <= a < at + r.length ==> Suits(r.wanted, At(es, a));
    }
    SameMeaning(gs, es, limit);
  }

  ghost predicate NoCapabilities(es: seq<Record>, base: int, length: int) {
    forall a :: base <= a < base + length ==> At(es, a).capabilities == {}
  }

  /** Removing what was just added succeeds; and it restores the identical list exactly when no address of
      the range had capabilities before, since Remove clears them all. */
  lemma RemoveUndoesAdd(es: seq<Record>, memoryType: int, capabilities: Mask, base: int, length: nat, limit: int,
                        granted: bool, fs: seq<Record>, status: Status, gs: seq<Record>)
    requires WellFormed(es, limit) && limit <= TWO_TO_63 && HarmlessRange(es, base, length, limit) && 0 <= base
    requires memoryType != MEMORY_NON_EXISTENT
    requires Converted(es, AddMemory(memoryType, capabilities), base, length, limit, granted, Success, fs)
    requires Converted(fs, RemoveMemory, base, length, limit, true, status, gs)
    ensures status == Success
    ensures gs == es <==> NoCapabilities(es, base, length)
  {
    hide WellFormed, At;
    var add := AddMemory(memoryType, capabilities);
    forall a | base <= a < base + length
      ensures Check(add, At(es, a), base, length) == Success && CheckAt(fs, RemoveMemory, a, base, length) == Success
    {
      ConvertedChecked(es, add, base, length, limit, granted, fs, a);
      RewrittenAt(es, add, base, length, limit, fs, a);
    }
    CheckRangePasses(fs, RemoveMemory, base, length, base, length);
    AddedInside(es, add, base, length, limit, granted, fs);
    FoundMeans(fs, base, length, limit);
    forall a | 0 <= a < limit
      ensures At(gs, a) == if base <= a < base + length then At(es, a).(capabilities := {}) else At(es, a)
    {
      RewrittenAt(es, add, base, length, limit, fs, a);
      RewrittenAt(fs, RemoveMemory, base, length, limit, gs, a);
    }
    if NoCapabilities(es, base, length) {
      forall a | 0 <= a < limit ensures At(gs, a) == At(es, a) {
        assert base <= a < base + length ==> At(es, a).(capabilities := {}) == At(es, a);
      }
      SameMeaning(gs, es, limit);
    }
    if gs == es {
      forall a | base <= a < base + length ensures At(es, a).capabilities == {} {
        assert At(gs, a) == At(es, a).(capabilities := {});
      }
    }
  }

  lemma AddedInside(es: seq<Record>, op: Operation, base: int, length: nat, limit: int, granted: bool, fs: seq<Record>)
    requires limit <= TWO_TO_63 && HarmlessRange(es, base, length, limit)
    requires Converted(es, op, base, length, limit, granted, Success, fs)
    ensures length > 0 && base + length <= limit && WellFormed(fs, limit)
  {
  }

  // ----- the reach of the searches -----

  /** The top-down search leaves out exactly the ranges whose last record does not pass its guard: any other
      range it could have taken is not above the one it takes. */
  lemma TopDownMissesOnlyUnguarded(es: seq<Record>, wanted: Wanted, size: int, length: int, max: int, limit: int,
                                   base: int, x: int)
    requires size > 0 && Tiles(es, 0, limit) && 0 < length
    requires Highest(es, wanted, size, length, max, limit, base)
    requires Candidate(es, wanted, size, length, max, limit, x) && x > base
    ensures exists k :: 0 <= k < |es| && Holds(es[k], x + length - 1) && es[k].base + length > max
  {
    assert !TopCandidate(es, wanted, size, length, max, limit, x);
    var k := Holder(es, 0, limit, x + length - 1);
    assert Holds(es[k], x + length - 1);
  }

  /** It returns the greatest range that fits if and only if that range passes the guard. */
  lemma TopDownFindsBest(es: seq<Record>, wanted: Wanted, size: int, length: int, max: int, limit: int, best: int)
    requires size > 0 && Candidate(es, wanted, size, length, max, limit, best)
    requires forall x :: Candidate(es, wanted, size, length, max, limit, x) ==> x <= best
    ensures Highest(es, wanted, size, length, max, limit, best) <==> Guarded(es, length, max, best)
  {
    if Guarded(es, length, max, best) {
      assert TopCandidate(es, wanted, size, length, max, limit, best);
    }
  }

  /** Among ranges that pass the guard there is a greatest. */
  lemma {:induction false} HighestExists(es: seq<Record>, wanted: Wanted, size: int, length: int, max: int, limit: int,
                                         x: int)
    returns (best: int)
    requires size > 0 && 0 < length && TopCandidate(es, wanted, size, length, max, limit, x)
    ensures Highest(es, wanted, size, length, max, limit, best)
    decreases limit - x
  {
    if y :| y > x && TopCandidate(es, wanted, size, length, max, limit, y) {
      best := HighestExists(es, wanted, size, length, max, limit, y);
    } else {
      best := x;
    }
  }

  /** A top-down request finds nothing if and only if no range that fits passes the guard. */
  lemma TopDownFindsNothing(es: seq<Record>, r: Request, base: int, limit: int, granted: bool, status: Status, at: int,
                            fs: seq<Record>)
    requires r.TopDown() && ParameterStatus(r) == Success && 0 < r.length
    requires Allocated(es, r, base, limit, granted, status, at, fs)
    ensures var size, max := r.Size(), r.Max(base, limit);
            status == NotFound <==>
            forall x :: Candidate(es, r.wanted, size, r.length, max, limit, x) ==> !Guarded(es, r.length, max, x)
  {
    var wanted, size, length, max := r.wanted, r.Size(), r.length, r.Max(base, limit);
    if x :| Candidate(es, wanted, size, length, max, limit, x) && Guarded(es, length, max, x) {
      var best := HighestExists(es, wanted, size, length, max, limit, x);
      assert Choice(es, r, base, limit, best);
    } else {
      forall x ensures !Choice(es, r, base, limit, x) {
        assert !TopCandidate(es, wanted, size, length, max, limit, x);
      }
    }
  }

  /** So it does not find the whole of an empty space, which the bottom-up search does find. */
  lemma TopDownMissesWholeSpace(limit: int)
    requires limit > 0
    ensures Lowest(Initial(limit), WantedMemory(MEMORY_NON_EXISTENT), 1, limit, limit - 1, limit, 0)
    ensures var es, wanted, max := Initial(limit), WantedMemory(MEMORY_NON_EXISTENT), limit - 1;
            forall x :: !TopCandidate(es, wanted, 1, limit, max, limit, x)
  {
    InitialSays(limit);
  }

  // ----- wrapping ranges -----

  /** Why a wrapping range must not be found: cutting its record to the range would leave a record that ends
      before it begins.  The cuts keep the tiling exactly when the range does not wrap. */
  lemma CutsKeepTilingUnlessWrapped(es: seq<Record>, limit: int, base: int, length: int, k: nat, fs: seq<Record>,
                                    gs: seq<Record>)
    requires Tiles(es, 0, limit) && limit <= TWO_TO_63 && 0 <= base < TWO_TO_64 && 0 < length < TWO_TO_64
    requires k < |es| && Holds(es[k], base) && Holds(es[k], LastAddress(base, length))
    requires IsCutBelow(es, k, base, fs) && IsCutAbove(fs, Inside(es, k, base), LastAddress(base, length), gs)
    ensures Tiles(gs, 0, limit) <==> base + length <= TWO_TO_64
  {
    var m, last := Inside(es, k, base), LastAddress(base, length);
    OrderedAll(es, 0, limit);
    if base > es[k].base && base <= last {
      CutTiles(es, k, base, limit, fs);
    }
    if base <= last && last < fs[m].end {
      CutTiles(fs, m, last + 1, limit, gs);
    }
    if base + length > TWO_TO_64 {
      assert gs[m].base == base && gs[m].end == last;
    }
  }

  /** Such ranges can be asked for: in an empty space, the range that starts at 2 and wraps around to 0 is found in
      the one record there is. */
  lemma WrappingRangeIsFound(limit: int)
    requires 4 <= limit <= TWO_TO_63
    ensures var es := Initial(limit);
            WellFormed(es, limit) && Found(es, 2, TWO_TO_64 - 1, limit) && !HarmlessRange(es, 2, TWO_TO_64 - 1, limit)
  {
    InitialIsWellFormed(limit);
    assert Holds(Initial(limit)[0], 2) && Holds(Initial(limit)[0], LastAddress(2, TWO_TO_64 - 1));
  }
}
