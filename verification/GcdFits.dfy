/** Which ranges CoreAllocateSpace may choose, and what one turn of its search excludes. */
module GcdFits {
  import opened GcdRecords
  import opened GcdRewrite
  import opened GcdOutcome

  /** What is to be allocated: memory or I/O space of a given type. */
  datatype Wanted = WantedMemory(memoryType: int) | WantedIo(ioType: int)

  /** CoreAllocateSpaceCheckEntry. */
  function AllocationCheck(wanted: Wanted, p: Payload): Status {
    if p.imageHandle != NULL_HANDLE then NotFound
    else match wanted
         case WantedMemory(memoryType) => if p.memoryType != memoryType then NotFound else Success
         case WantedIo(ioType) => if p.ioType != ioType then NotFound else Success
  }

  predicate Suits(wanted: Wanted, p: Payload) {
    AllocationCheck(wanted, p) == Success
  }

  // ----- alignment -----

  /** Value & ~AlignmentMask, for an alignment to multiples of size. */
  function AlignDown(value: int, size: int): int
    requires size > 0
  {
    value - value % size
  }

  /** (Value + AlignmentMask) & ~AlignmentMask. */
  function AlignUp(value: int, size: int): int
    requires size > 0
  {
    AlignDown(value + size - 1, size)
  }

  lemma ProductAtLeast(size: int, d: int)
    requires size > 0
    ensures d > 0 ==> size * d >= size
    ensures d <= 0 ==> size * d <= 0
  {
  }

  lemma MultipleLeavesNothing(size: int, q: int)
    requires size > 0
    ensures (size * q) % size == 0
  {
    var p := size * q;
    assert p == size * (p / size) + p % size;
    assert size * (q - p / size) == p - size * (p / size) by {
      Distributes(size, q, p / size);
    }
    ProductAtLeast(size, q - p / size);
  }

  lemma Distributes(size: int, x: int, y: int)
    ensures size * (x - y) == size * x - size * y
  {
  }

  lemma MultiplesApart(x: int, y: int, size: int)
    requires size > 0 && x % size == 0 && y % size == 0 && x < y
    ensures x + size <= y
  {
    var i, j := x / size, y / size;
    assert size * (j - i) == y - x;
    ProductAtLeast(size, j - i);
  }

  /** AlignDown gives the greatest multiple that is not above the value. */
  lemma AlignDownIsGreatest(value: int, size: int)
    requires size > 0
    ensures AlignDown(value, size) % size == 0 && value - size < AlignDown(value, size) <= value
    ensures forall x :: x % size == 0 && x <= value ==> x <= AlignDown(value, size)
  {
    MultipleLeavesNothing(size, value / size);
    assert AlignDown(value, size) == size * (value / size);
    forall x | x % size == 0 && x <= value ensures x <= AlignDown(value, size) {
      if AlignDown(value, size) < x {
        MultiplesApart(AlignDown(value, size), x, size);
      }
    }
  }

  /** AlignUp gives the least multiple that is not below the value. */
  lemma AlignUpIsLeast(value: int, size: int)
    requires size > 0
    ensures AlignUp(value, size) % size == 0 && value <= AlignUp(value, size) < value + size
    ensures forall x :: x % size == 0 && value <= x ==> AlignUp(value, size) <= x
  {
    AlignDownIsGreatest(value + size - 1, size);
    forall x | x % size == 0 && value <= x ensures AlignUp(value, size) <= x {
      if x < AlignUp(value, size) {
        MultiplesApart(x, AlignUp(value, size), size);
      }
    }
  }

  /** Aligning an address of the space stays below 2^63, since sizes are powers of two. */
  lemma AlignUpBound(value: int, size: int)
    requires size > 0 && TWO_TO_63 % size == 0 && value <= TWO_TO_63
    ensures value <= AlignUp(value, size) <= TWO_TO_63
  {
    AlignUpIsLeast(value, size);
  }

  lemma SizeDivides(alignment: nat)
    requires alignment < 64
    ensures 0 < Pow2(alignment) <= TWO_TO_63 && TWO_TO_63 % Pow2(alignment) == 0
  {
    Pow2Bound(alignment);
    Pow2Adds(alignment, 63 - alignment);
    MultipleLeavesNothing(Pow2(alignment), Pow2(63 - alignment));
  }

  // ----- ranges that fit -----

  /** Every address of [base, base+length) is in the space, unowned and of the wanted type. */
  ghost predicate Fits(es: seq<Record>, wanted: Wanted, base: int, length: int, limit: int) {
    0 <= base && base + length <= limit
    && forall a :: base <= a < base + length ==> Suits(wanted, At(es, a))
  }

  /** A range an allocation at multiples of size, and not beyond max, may take. */
  ghost predicate Candidate(es: seq<Record>, wanted: Wanted, size: int, length: int, max: int, limit: int, base: int)
    requires size > 0
  {
    base % size == 0 && base + length - 1 <= max && Fits(es, wanted, base, length, limit)
  }

  /** The lowest range an allocation may take. */
  ghost predicate Lowest(es: seq<Record>, wanted: Wanted, size: int, length: int, max: int, limit: int, base: int)
    requires size > 0
  {
    && Candidate(es, wanted, size, length, max, limit, base)
    && (forall x :: Candidate(es, wanted, size, length, max, limit, x) ==> base <= x)
  }

  /** The record that holds the last address of the range passes the guard of the top-down search. */
  ghost predicate Guarded(es: seq<Record>, length: int, max: int, base: int) {
    exists k :: 0 <= k < |es| && Holds(es[k], base + length - 1) && es[k].base + length <= max
  }

  ghost predicate TopCandidate(es: seq<Record>, wanted: Wanted, size: int, length: int, max: int, limit: int, base: int)
    requires size > 0
  {
    Candidate(es, wanted, size, length, max, limit, base) && Guarded(es, length, max, base)
  }

  /** The highest range the top-down search considers. */
  ghost predicate Highest(es: seq<Record>, wanted: Wanted, size: int, length: int, max: int, limit: int, base: int)
    requires size > 0
  {
    && TopCandidate(es, wanted, size, length, max, limit, base)
    && (forall x :: TopCandidate(es, wanted, size, length, max, limit, x) ==> x <= base)
  }

  /** A range fits when all records that cover it suit. */
  lemma FitsByRecords(es: seq<Record>, wanted: Wanted, base: int, length: int, limit: int, s: nat, e: nat)
    requires Tiles(es, 0, limit) && s <= e < |es| && 0 < length
    requires Holds(es[s], base) && Holds(es[e], base + length - 1)
    requires forall k :: s <= k <= e ==> Suits(wanted, es[k].payload)
    ensures Fits(es, wanted, base, length, limit)
  {
    OrderedAll(es, 0, limit);
    forall a | base <= a < base + length ensures Suits(wanted, At(es, a)) {
      var k := Holder(es, 0, limit, a);
    }
  }

  /** A range that touches a record that does not suit does not fit. */
  lemma BlockedBy(es: seq<Record>, wanted: Wanted, base: int, length: int, limit: int, b: nat)
    requires Tiles(es, 0, limit) && b < |es| && !Suits(wanted, es[b].payload)
    requires base <= es[b].end && es[b].base <= base + length - 1 && 0 < length
    ensures !Fits(es, wanted, base, length, limit)
  {
    var a := if base <= es[b].base then es[b].base else base;
    AtHolder(es, 0, limit, b, a);
    assert base <= a < base + length && !Suits(wanted, At(es, a));
  }

  // ----- the bottom-up search -----

  /** Every candidate lies in record i or above it. */
  ghost predicate NoneBelow(es: seq<Record>, wanted: Wanted, size: int, length: int, max: int, limit: int, i: nat)
    requires size > 0
  {
    forall x :: Candidate(es, wanted, size, length, max, limit, x) ==> i < |es| && es[i].base <= x
  }

  lemma BottomUpStarts(es: seq<Record>, wanted: Wanted, size: int, length: int, max: int, limit: int)
    requires size > 0 && Tiles(es, 0, limit)
    ensures NoneBelow(es, wanted, size, length, max, limit, 0)
  {
  }

  /** A record that does not suit holds no candidate. */
  lemma BottomUpSkips(es: seq<Record>, wanted: Wanted, size: int, length: int, max: int, limit: int, i: nat)
    requires size > 0 && Tiles(es, 0, limit) && i < |es| && 0 < length
    requires NoneBelow(es, wanted, size, length, max, limit, i) && !Suits(wanted, es[i].payload)
    ensures NoneBelow(es, wanted, size, length, max, limit, i + 1)
  {
    forall x | Candidate(es, wanted, size, length, max, limit, x) ensures i + 1 < |es| && es[i + 1].base <= x {
      if x <= es[i].end {
        BlockedBy(es, wanted, x, length, limit, i);
      }
    }
  }

  /** The first aligned address of record i comes before every candidate. */
  lemma BottomUpBound(es: seq<Record>, wanted: Wanted, size: int, length: int, max: int, limit: int, i: nat)
    requires size > 0 && i < |es|
    requires NoneBelow(es, wanted, size, length, max, limit, i)
    ensures forall x :: Candidate(es, wanted, size, length, max, limit, x) ==> AlignUp(es[i].base, size) <= x
  {
    AlignUpIsLeast(es[i].base, size);
  }

  /** When that address is blocked by record b, so is every candidate below the end of record b. */
  lemma BottomUpJumps(es: seq<Record>, wanted: Wanted, size: int, length: int, max: int, limit: int, base: int, b: nat)
    requires size > 0 && Tiles(es, 0, limit) && b < |es| && 0 < length
    requires forall x :: Candidate(es, wanted, size, length, max, limit, x) ==> base <= x
    requires !Suits(wanted, es[b].payload) && es[b].base <= base + length - 1
    ensures NoneBelow(es, wanted, size, length, max, limit, b)
  {
    forall x | Candidate(es, wanted, size, length, max, limit, x) ensures es[b].base <= x {
      if x < es[b].base {
        BlockedBy(es, wanted, x, length, limit, b);
      }
    }
  }

  lemma InSpace(es: seq<Record>, limit: int, i: nat)
    requires Tiles(es, 0, limit) && i < |es|
    ensures 0 <= es[i].base < limit && es[i].base <= es[i].end < limit
  {
    OrderedAll(es, 0, limit);
  }

  /** When even the lowest possible base ends beyond max, or beyond the space, there is no candidate. */
  lemma TooHigh(es: seq<Record>, wanted: Wanted, size: int, length: int, max: int, limit: int, base: int)
    requires size > 0 && (base + length - 1 > max || base + length > limit)
    requires forall x :: Candidate(es, wanted, size, length, max, limit, x) ==> base <= x
    ensures forall x :: !Candidate(es, wanted, size, length, max, limit, x)
  {
  }

  lemma LowestFound(es: seq<Record>, wanted: Wanted, size: int, length: int, max: int, limit: int, base: int, s: nat,
                    e: nat)
    requires size > 0 && Tiles(es, 0, limit) && s <= e < |es| && 0 < length
    requires Holds(es[s], base) && Holds(es[e], base + length - 1)
    requires forall k :: s <= k <= e ==> Suits(wanted, es[k].payload)
    requires base % size == 0 && base + length - 1 <= max
    requires forall x :: Candidate(es, wanted, size, length, max, limit, x) ==> base <= x
    ensures Lowest(es, wanted, size, length, max, limit, base)
  {
    FitsByRecords(es, wanted, base, length, limit, s, e);
    OrderedAll(es, 0, limit);
  }

  /** The blocking record lies beyond the record the search started from. */
  lemma BlockerAhead(es: seq<Record>, limit: int, wanted: Wanted, i: nat, s: nat, b: nat, e: nat, base: int,
                     length: int)
    requires Tiles(es, 0, limit) && i < |es| && s <= b <= e < |es|
    requires es[i].base <= base && Holds(es[s], base) && Holds(es[e], base + length - 1)
    requires Suits(wanted, es[i].payload) && !Suits(wanted, es[b].payload)
    ensures i < b && es[b].base <= base + length - 1
  {
    OrderedAll(es, 0, limit);
  }

  lemma NothingLeft(es: seq<Record>, wanted: Wanted, size: int, length: int, max: int, limit: int)
    requires size > 0 && NoneBelow(es, wanted, size, length, max, limit, |es|)
    ensures forall x :: !Candidate(es, wanted, size, length, max, limit, x)
  {
  }

  // ----- the top-down search -----

  /** Every candidate of the top-down search ends in record i or below it; i is -1 when there is none. */
  ghost predicate NoneAbove(es: seq<Record>, wanted: Wanted, size: int, length: int, max: int, limit: int, i: int)
    requires size > 0
  {
    forall x :: TopCandidate(es, wanted, size, length, max, limit, x) ==> 0 <= i < |es| && x + length - 1 <= es[i].end
  }

  lemma TopDownStarts(es: seq<Record>, wanted: Wanted, size: int, length: int, max: int, limit: int)
    requires size > 0 && Tiles(es, 0, limit)
    ensures NoneAbove(es, wanted, size, length, max, limit, |es| - 1)
  {
  }

  lemma FailsGuard(es: seq<Record>, length: int, max: int, limit: int, i: nat, base: int)
    requires Tiles(es, 0, limit) && i < |es| && Holds(es[i], base + length - 1) && es[i].base + length > max
    ensures !Guarded(es, length, max, base)
  {
    forall k | 0 <= k < |es| && Holds(es[k], base + length - 1) ensures es[k].base + length > max {
      OneHolder(es, 0, limit, i, k, base + length - 1);
    }
  }

  /** A record that does not suit, or does not pass the guard, holds the end of no candidate. */
  lemma TopDownSkips(es: seq<Record>, wanted: Wanted, size: int, length: int, max: int, limit: int, i: nat)
    requires size > 0 && Tiles(es, 0, limit) && i < |es| && 0 < length
    requires NoneAbove(es, wanted, size, length, max, limit, i)
    requires !Suits(wanted, es[i].payload) || es[i].base + length > max
    ensures NoneAbove(es, wanted, size, length, max, limit, i - 1)
  {
    OrderedAll(es, 0, limit);
    forall x | TopCandidate(es, wanted, size, length, max, limit, x) ensures 0 < i && x + length - 1 <= es[i - 1].end {
      if es[i].base <= x + length - 1 {
        if !Suits(wanted, es[i].payload) {
          BlockedBy(es, wanted, x, length, limit, i);
        } else {
          FailsGuard(es, length, max, limit, i, x);
        }
      }
    }
  }

  /** No range longer than what is left fits. */
  lemma TopDownTooLong(es: seq<Record>, wanted: Wanted, size: int, length: int, max: int, limit: int, i: nat)
    requires size > 0 && i < |es| && NoneAbove(es, wanted, size, length, max, limit, i)
    requires length > es[i].end + 1
    ensures NoneAbove(es, wanted, size, length, max, limit, -1)
  {
  }

  /** The base the top-down search tries in record i. */
  function TopBase(e: Record, size: int, length: int, max: int): int
    requires size > 0
  {
    AlignDown((if e.end > max then max else e.end) + 1 - length, size)
  }

  lemma TopDownBound(es: seq<Record>, wanted: Wanted, size: int, length: int, max: int, limit: int, i: nat)
    requires size > 0 && i < |es|
    requires NoneAbove(es, wanted, size, length, max, limit, i)
    ensures forall x :: TopCandidate(es, wanted, size, length, max, limit, x) ==> x <= TopBase(es[i], size, length, max)
  {
    AlignDownIsGreatest((if es[i].end > max then max else es[i].end) + 1 - length, size);
  }

  lemma TopDownJumps(es: seq<Record>, wanted: Wanted, size: int, length: int, max: int, limit: int, base: int, b: nat)
    requires size > 0 && Tiles(es, 0, limit) && b < |es| && 0 < length
    requires forall x :: TopCandidate(es, wanted, size, length, max, limit, x) ==> x <= base
    requires !Suits(wanted, es[b].payload) && base <= es[b].end
    ensures NoneAbove(es, wanted, size, length, max, limit, b)
  {
    forall x | TopCandidate(es, wanted, size, length, max, limit, x) ensures x + length - 1 <= es[b].end {
      if es[b].end < x + length - 1 {
        BlockedBy(es, wanted, x, length, limit, b);
      }
    }
  }

  /** A range found from record i passes the guard, as record i does. */
  lemma TopDownGuarded(es: seq<Record>, length: int, max: int, limit: int, i: nat, e: nat, base: int)
    requires Tiles(es, 0, limit) && e <= i < |es| && es[i].base + length <= max
    requires Holds(es[e], base + length - 1)
    ensures Guarded(es, length, max, base)
  {
    OrderedAll(es, 0, limit);
  }

  /** Entry->BaseAddress + Length in UINT64 arithmetic. */
  function GuardSum(base: int, length: int): int {
    if base + length < TWO_TO_64 then base + length else base + length - TWO_TO_64
  }

  /** A record is passed over rightly, even when its guard wraps around. */
  lemma TopDownPasses(es: seq<Record>, wanted: Wanted, size: int, length: int, max: int, limit: int, i: nat)
    requires size > 0 && Tiles(es, 0, limit) && limit <= TWO_TO_63 && i < |es| && 0 < length
    requires NoneAbove(es, wanted, size, length, max, limit, i)
    requires !Suits(wanted, es[i].payload) || GuardSum(es[i].base, length) > max
    ensures NoneAbove(es, wanted, size, length, max, limit, i - 1)
  {
    if Suits(wanted, es[i].payload) && es[i].base + length <= max {
      OrderedAll(es, 0, limit);
    } else {
      TopDownSkips(es, wanted, size, length, max, limit, i);
    }
  }

  lemma TopBaseBound(es: seq<Record>, size: int, length: int, max: int, limit: int, i: nat)
    requires size > 0 && Tiles(es, 0, limit) && limit <= TWO_TO_63 && i < |es| && 0 < length <= es[i].end + 1
    requires GuardSum(es[i].base, length) <= max
    ensures var base := TopBase(es[i], size, length, max);
            && base % size == 0 && 0 <= base && base + length - 1 <= es[i].end && base + length - 1 <= max
            && base + length <= limit && es[i].base + length <= max
  {
    OrderedAll(es, 0, limit);
    var value := (if es[i].end > max then max else es[i].end) + 1 - length;
    AlignDownIsGreatest(value, size);
    assert 0 % size == 0;
  }

  lemma HighestFound(es: seq<Record>, wanted: Wanted, size: int, length: int, max: int, limit: int, i: nat, base: int,
                     s: nat, e: nat)
    requires size > 0 && Tiles(es, 0, limit) && s <= e < |es| && i < |es| && 0 < length
    requires Holds(es[s], base) && Holds(es[e], base + length - 1)
    requires forall k :: s <= k <= e ==> Suits(wanted, es[k].payload)
    requires base % size == 0 && base + length - 1 <= max && base + length - 1 <= es[i].end
             && es[i].base + length <= max
    requires forall x :: TopCandidate(es, wanted, size, length, max, limit, x) ==> x <= base
    ensures Highest(es, wanted, size, length, max, limit, base)
  {
    FitsByRecords(es, wanted, base, length, limit, s, e);
    OrderedAll(es, 0, limit);
    TopDownGuarded(es, length, max, limit, i, e, base);
  }

  /** The blocking record lies strictly below the record the search started from. */
  lemma BlockerBelow(es: seq<Record>, limit: int, wanted: Wanted, i: nat, s: nat, b: nat, e: nat, base: int,
                     length: int)
    requires Tiles(es, 0, limit) && i < |es| && s <= b <= e < |es|
    requires Holds(es[s], base) && Holds(es[e], base + length - 1) && base + length - 1 <= es[i].end
    requires Suits(wanted, es[i].payload) && !Suits(wanted, es[b].payload)
    ensures b < i && base <= es[b].end
  {
    OrderedAll(es, 0, limit);
  }

  lemma NothingAbove(es: seq<Record>, wanted: Wanted, size: int, length: int, max: int, limit: int)
    requires size > 0 && NoneAbove(es, wanted, size, length, max, limit, -1)
    ensures forall x :: !TopCandidate(es, wanted, size, length, max, limit, x)
  {
  }

  // ----- CoreAllocateSpace -----

  const ANY_SEARCH_BOTTOM_UP := 0
  const MAX_ADDRESS_SEARCH_BOTTOM_UP := 1
  const AT_ADDRESS := 2
  const ANY_SEARCH_TOP_DOWN := 3
  const MAX_ADDRESS_SEARCH_TOP_DOWN := 4
  const ALLOCATE_TYPE_MAXIMUM := 5

  datatype Request = Request(
    allocateType: int,
    wanted: Wanted,
    alignment: nat,
    length: int,
    imageHandle: Handle,
    deviceHandle: Handle)
  {
    predicate TopDown() {
      allocateType == ANY_SEARCH_TOP_DOWN || allocateType == MAX_ADDRESS_SEARCH_TOP_DOWN
    }

    /** The multiple to align to. */
    function Size(): (r: int)
      ensures r > 0
    {
      Pow2(alignment)
    }

    /** The greatest last address allowed, where base is the address passed in. */
    function Max(base: int, limit: int): int {
      if allocateType == MAX_ADDRESS_SEARCH_BOTTOM_UP || allocateType == MAX_ADDRESS_SEARCH_TOP_DOWN then base
          else limit - 1
    }

    function Change(): Operation {
      SetOwner(imageHandle, deviceHandle)
    }
  }

  /** The checks of the parameters, in their order. */
  function ParameterStatus(r: Request): Status {
    if !(0 <= r.allocateType < ALLOCATE_TYPE_MAXIMUM) then InvalidParameter
    else if r.wanted.WantedMemory? && !(0 <= r.wanted.memoryType < MEMORY_TYPE_MAXIMUM) then InvalidParameter
    else if r.wanted.WantedIo? && !(0 <= r.wanted.ioType < IO_TYPE_MAXIMUM) then InvalidParameter
    else if r.imageHandle == NULL_HANDLE then InvalidParameter
    else if r.alignment >= 64 then NotFound
    else if r.length == 0 then InvalidParameter
    else Success
  }

  /** at is the base the request gets, where base is the address passed in. */
  ghost predicate Choice(es: seq<Record>, r: Request, base: int, limit: int, at: int) {
    if r.allocateType == AT_ADDRESS then at == base && base % r.Size() == 0 && Fits(es, r.wanted, base, r.length, limit)
    else if r.TopDown() then Highest(es, r.wanted, r.Size(), r.length, r.Max(base, limit), limit, at)
    else Lowest(es, r.wanted, r.Size(), r.length, r.Max(base, limit), limit, at)
  }

  /** An allocation with this status leaves es as it is; or it gives the chosen range to its owner, in fs. */
  ghost predicate Allocated(es: seq<Record>, r: Request, base: int, limit: int, granted: bool,
                            status: Status, at: int, fs: seq<Record>)
  {
    if ParameterStatus(r) != Success then status == ParameterStatus(r) && fs == es
    else if forall x :: !Choice(es, r, base, limit, x) then status == NotFound && fs == es
    else
      && Choice(es, r, base, limit, at)
      && (if granted then status == Success && Rewritten(es, r.Change(), at, r.length, limit, fs)
          else status == OutOfResources && fs == es)
  }

  /** There is at most one choice. */
  lemma ChoiceIsUnique(es: seq<Record>, r: Request, base: int, limit: int, x: int, y: int)
    requires Choice(es, r, base, limit, x) && Choice(es, r, base, limit, y)
    ensures x == y
  {
  }

  lemma NoLowest(es: seq<Record>, wanted: Wanted, size: int, length: int, max: int, limit: int)
    requires size > 0
    requires forall x :: !Candidate(es, wanted, size, length, max, limit, x)
    ensures forall x :: !Lowest(es, wanted, size, length, max, limit, x)
  {
  }

  lemma NoHighest(es: seq<Record>, wanted: Wanted, size: int, length: int, max: int, limit: int)
    requires size > 0
    requires forall x :: !TopCandidate(es, wanted, size, length, max, limit, x)
    ensures forall x :: !Highest(es, wanted, size, length, max, limit, x)
  {
  }

  /** A failed search at a given address, or an unsuitable record in it, leaves no choice. */
  lemma NoChoiceAt(es: seq<Record>, r: Request, base: int, limit: int)
    requires r.allocateType == AT_ADDRESS
    requires base % r.Size() != 0 || !Fits(es, r.wanted, base, r.length, limit)
    ensures forall x :: !Choice(es, r, base, limit, x)
  {
  }

  lemma NotFoundDoesNotFit(es: seq<Record>, wanted: Wanted, base: int, length: int, limit: int)
    requires 0 <= base && 0 < length && limit <= TWO_TO_63 && !Found(es, base, length, limit)
    ensures !Fits(es, wanted, base, length, limit)
  {
  }
}
