/** What CoreAddMemorySpace leaves behind: the range added, its whole pages given to the core, and the
    partial pages at its two ends unowned. */
module GcdSystemMemory {
  import opened GcdRecords
  import opened GcdRewrite
  import opened GcdOutcome
  import opened GcdFits

  const EFI_PAGE_SHIFT: nat := 12

  /** The whole pages of [base, base+length), by their addresses. */
  function WholePages(base: int, length: int): set<int> {
    set x | base <= x < base + length && x % PAGE_SIZE == 0 && x + PAGE_SIZE <= base + length
  }

  predicate IsSystemMemory(memoryType: int) {
    memoryType == MEMORY_SYSTEM || memoryType == MEMORY_MORE_RELIABLE
  }

  /** The status of CoreInternalAddMemorySpace. */
  ghost function AddStatus(es: seq<Record>, memoryType: int, base: int, length: nat, capabilities: Mask, limit: int,
                           granted: bool): Status {
    if memoryType <= MEMORY_NON_EXISTENT || memoryType >= MEMORY_TYPE_MAXIMUM then InvalidParameter
    else ConvertStatus(es, AddMemory(memoryType, capabilities), base, length, limit, granted)
  }

  /** What address a says once the range has been added and the pages in taken given to owner. */
  ghost function AddedAt(es: seq<Record>, op: Operation, base: int, length: int, owner: Handle, taken: set<int>,
                         a: int): Payload {
    var p := Painted(es, op, base, base + length, a);
    if AlignDown(a, PAGE_SIZE) in taken then Apply(SetOwner(owner, NULL_HANDLE), p) else p
  }

  /** fs is es with the range added and the pages in taken given to owner. */
  ghost predicate Added(es: seq<Record>, op: Operation, base: int, length: int, limit: int, owner: Handle,
                        taken: set<int>, fs: seq<Record>) {
    && WellFormed(fs, limit)
    && (forall a :: 0 <= a < limit ==> At(fs, a) == AddedAt(es, op, base, length, owner, taken, a))
  }

  /** Of an added range of type 2 or 5 the owner has all pages of 4096 bytes that lie in it whole, and of the rest of
      it, as of a range of any other type, nobody has anything. */
  ghost predicate OwnsWholePages(fs: seq<Record>, memoryType: int, base: int, length: int, owner: Handle) {
    forall a :: base <= a < base + length ==>
      At(fs, a).imageHandle ==
      if (memoryType == 2 || memoryType == 5) && base <= a - a % 4096 && a - a % 4096 + 4096 <= base + length then owner
      else 0
  }

  /** That is how things are once all whole pages of system memory have been taken. */
  lemma WholePagesOwned(es: seq<Record>, op: Operation, base: int, length: nat, limit: int, owner: Handle,
                        taken: set<int>, fs: seq<Record>)
    requires op.AddMemory? && Added(es, op, base, length, limit, owner, taken, fs)
    requires CheckRange(es, op, base, length, base, length) == Success && 0 <= base && base + length <= limit
    requires taken == if IsSystemMemory(op.memoryType) then WholePages(base, length) else {}
    ensures OwnsWholePages(fs, op.memoryType, base, length, owner)
  {
    hide At, CheckRange, Tiles, WellFormed;
    CheckRangePasses(es, op, base, length, base, length);
    forall a | base <= a < base + length
      ensures At(fs, a).imageHandle ==
              if (op.memoryType == 2 || op.memoryType == 5) && base <= a - a % 4096
                 && a - a % 4096 + 4096 <= base + length
              then owner else 0
    {
      assert CheckAt(es, op, a, base, length) == Success;
      assert At(fs, a) == AddedAt(es, op, base, length, owner, taken, a);
      AlignDownIsGreatest(a, PAGE_SIZE);
    }
  }

  // ----- which pages are taken -----

  /** How many whole pages are asked for. */
  function PageCount(base: int, length: int): nat
    requires AlignUp(base, PAGE_SIZE) <= base + length
  {
    (base + length - AlignUp(base, PAGE_SIZE)) / PAGE_SIZE
  }

  /** What asking for pages comes to: the status returned, the pages taken and the answers of the pool left. */
  datatype Taking = Taking(status: Status, taken: set<int>, supply: seq<bool>)

  /** n pages asked for one by one; `status` is what is returned when there is none. */
  function TakeEach(supply: seq<bool>, from: int, n: nat, status: Status): Taking
    decreases n
  {
    if n == 0 then Taking(status, {}, supply)
    else
      var granted := PairGranted(supply);
      var rest := TakeEach(AfterPair(supply), from + PAGE_SIZE, n - 1, if granted then Success else OutOfResources);
      rest.(taken := if granted then rest.taken + {from} else rest.taken)
  }

  /** The n given pages asked for at once and, when the pool refuses, one by one from the first of them on. */
  function TakeAll(supply: seq<bool>, owner: Handle, pages: set<int>, from: int, n: nat): Taking {
    if n == 0 || owner == NULL_HANDLE then Taking(InvalidParameter, {}, supply)
    else if PairGranted(supply) then Taking(Success, pages, AfterPair(supply))
    else TakeEach(AfterPair(supply), from, n, OutOfResources)
  }

  /** One page has been asked for, after those in `taken`. */
  lemma TakeEachNext(supply: seq<bool>, from: int, n: nat, status: Status, taken: set<int>, next: Status)
    requires n > 0 && next == if PairGranted(supply) then Success else OutOfResources
    ensures var more := if PairGranted(supply) then taken + {from} else taken;
            var each, rest := TakeEach(supply, from, n, status),
                TakeEach(AfterPair(supply), from + PAGE_SIZE, n - 1, next);
            each.status == rest.status && each.supply == rest.supply && taken + each.taken == more + rest.taken
  {
  }

  /** Where the requests for single pages stand: those from page on, n of them, are still to come, with the last
      status and the pages taken so far; all, the outcome of the whole loop, follows from there. */
  ghost predicate TakingEach(all: Taking, supply: seq<bool>, page: int, n: nat, status: Status, taken: set<int>) {
    var rest := TakeEach(supply, page, n, status);
    all == rest.(taken := taken + rest.taken)
  }

  lemma TakingEachStarts(supply: seq<bool>, page: int, n: nat, status: Status)
    ensures TakingEach(TakeEach(supply, page, n, status), supply, page, n, status, {})
  {
    var rest := TakeEach(supply, page, n, status);
    assert {} + rest.taken == rest.taken;
  }

  lemma TakingEachMoves(all: Taking, supply: seq<bool>, page: int, n: nat, status: Status, taken: set<int>,
                        next: Status)
    requires n > 0 && TakingEach(all, supply, page, n, status, taken)
    requires next == if PairGranted(supply) then Success else OutOfResources
    ensures TakingEach(all, AfterPair(supply), page + PAGE_SIZE, n - 1, next,
                       if next == Success then taken + {page} else taken)
  {
    hide PairGranted, AfterPair, TakeEach;
    TakeEachNext(supply, page, n, status, taken, next);
  }

  lemma TakingEachEnds(all: Taking, supply: seq<bool>, page: int, status: Status, taken: set<int>)
    requires TakingEach(all, supply, page, 0, status, taken)
    ensures all == Taking(status, taken, supply)
  {
    TakeNone(supply, page, status);
    assert taken + {} == taken;
  }

  lemma TakeNone(supply: seq<bool>, from: int, status: Status)
    ensures TakeEach(supply, from, 0, status) == Taking(status, {}, supply)
  {
  }

  /** With four answers left that meet their requests, the add and the pages succeed at once. */
  lemma FourAnswersTakeAll(supply: seq<bool>, owner: Handle, pages: set<int>, from: int, n: nat)
    requires |supply| >= 4 && supply[0] && supply[1] && supply[2] && supply[3]
    requires n > 0 && owner != NULL_HANDLE
    ensures TakeAll(AfterPair(supply), owner, pages, from, n) == Taking(Success, pages, supply[4..])
  {
  }

  /** The answers of the pool after k requests for two entries. */
  function After(supply: seq<bool>, k: nat): seq<bool> {
    if k == 0 then supply else After(AfterPair(supply), k - 1)
  }

  /** Asked for one by one, page k is taken exactly when the pool meets its request for two entries, and the status
      is that of the last request. */
  lemma {:induction false} EachPageTaken(supply: seq<bool>, from: int, n: nat, status: Status, k: nat)
    requires k < n
    ensures var each := TakeEach(supply, from, n, status);
            && (from + k * PAGE_SIZE in each.taken <==> PairGranted(After(supply, k)))
            && each.status == (if PairGranted(After(supply, n - 1)) then Success else OutOfResources)
            && (forall x :: x in each.taken ==> from <= x < from + n * PAGE_SIZE)
            && each.supply == After(supply, n)
    decreases n
  {
    var granted := PairGranted(supply);
    var next := if granted then Success else OutOfResources;
    if n > 1 {
      EachPageTaken(AfterPair(supply), from + PAGE_SIZE, n - 1, next, if k == 0 then 0 else k - 1);
    } else {
      assert TakeEach(AfterPair(supply), from + PAGE_SIZE, 0, next) == Taking(next, {}, AfterPair(supply));
    }
  }

  lemma AddedNothingTaken(es: seq<Record>, op: Operation, base: int, length: int, limit: int, owner: Handle,
                          fs: seq<Record>)
    requires Rewritten(es, op, base, length, limit, fs)
    ensures Added(es, op, base, length, limit, owner, {}, fs)
  {
    forall a | 0 <= a < limit ensures At(fs, a) == AddedAt(es, op, base, length, owner, {}, a) {
      assert At(fs, a) == Painted(es, op, base, base + length, a);
    }
  }

  /** After a successful add, an untaken part of the range can be allocated with the type it was added with. */
  lemma AddedFits(es: seq<Record>, op: Operation, base: int, length: nat, limit: int, owner: Handle, taken: set<int>,
                  fs: seq<Record>, from: int, count: int)
    requires Tiles(es, 0, limit) && op.AddMemory? && Added(es, op, base, length, limit, owner, taken, fs)
    requires CheckRange(es, op, base, length, base, length) == Success && base + length <= limit && 0 <= base
    requires base <= from && from + count <= base + length && 0 < count
    requires forall a :: from <= a < from + count ==> AlignDown(a, PAGE_SIZE) !in taken
    ensures Fits(fs, WantedMemory(op.memoryType), from, count, limit)
  {
    CheckRangePasses(es, op, base, length, base, length);
    forall a | from <= a < from + count ensures Suits(WantedMemory(op.memoryType), At(fs, a)) {
      assert CheckAt(es, op, a, base, length) == Success;
      assert At(fs, a) == AddedAt(es, op, base, length, owner, taken, a);
    }
  }

  /** Allocating whole pages takes exactly those pages. */
  lemma AddedTakes(es: seq<Record>, op: Operation, base: int, length: int, limit: int, owner: Handle, taken: set<int>,
                   fs: seq<Record>, from: int, count: int, gs: seq<Record>, pages: set<int>)
    requires Added(es, op, base, length, limit, owner, taken, fs)
    requires Rewritten(fs, SetOwner(owner, NULL_HANDLE), from, count, limit, gs)
    requires from % PAGE_SIZE == 0 && count % PAGE_SIZE == 0
    requires forall x :: x in pages <==> from <= x < from + count && x % PAGE_SIZE == 0
    ensures Added(es, op, base, length, limit, owner, taken + pages, gs)
  {
    forall a | 0 <= a < limit ensures At(gs, a) == AddedAt(es, op, base, length, owner, taken + pages, a) {
      AlignDownIsGreatest(a, PAGE_SIZE);
      assert At(gs, a) == Painted(fs, SetOwner(owner, NULL_HANDLE), from, from + count, a);
      assert At(fs, a) == AddedAt(es, op, base, length, owner, taken, a);
      InPages(a, from, count);
    }
  }

  lemma InPages(a: int, from: int, count: int)
    requires from % PAGE_SIZE == 0 && count % PAGE_SIZE == 0
    ensures from <= a < from + count <==> from <= AlignDown(a, PAGE_SIZE) < from + count
  {
  }

  /** The range that is allocated after the add: page-aligned, inside the range, and holding all its whole pages. */
  lemma WholePagesOf(base: int, length: int, from: int, count: int)
    requires from == AlignUp(base, PAGE_SIZE) && from <= base + length
    requires count == AlignDown(base + length - from, PAGE_SIZE)
    ensures from % PAGE_SIZE == 0 && count % PAGE_SIZE == 0 && base <= from && 0 <= count
            && from + count <= base + length
    ensures forall x :: x in WholePages(base, length) <==> from <= x < from + count && x % PAGE_SIZE == 0
  {
    hide AlignUp, AlignDown;
    AlignUpIsLeast(base, PAGE_SIZE);
    AlignDownIsGreatest(base + length - from, PAGE_SIZE);
    NotAboveAlignDown(0, base + length - from, PAGE_SIZE);
    forall x | x % PAGE_SIZE == 0 ensures x in WholePages(base, length) <==> from <= x < from + count {
      PageInside(x, from, count, base + length);
    }
  }

  lemma NotAboveAlignDown(x: int, y: int, size: int)
    requires size > 0 && x % size == 0 && x <= y
    ensures x <= AlignDown(y, size)
  {
    AlignDownIsGreatest(y, size);
  }

  /** A page address belongs to the aligned range exactly when the whole page lies below the end. */
  lemma PageInside(x: int, from: int, count: int, end: int)
    requires x % PAGE_SIZE == 0 && from % PAGE_SIZE == 0
    requires count == AlignDown(end - from, PAGE_SIZE)
    ensures x + PAGE_SIZE <= end <==> x < from + count
  {
    hide AlignDown;
    AlignDownIsGreatest(end - from, PAGE_SIZE);
    PageSums(x, from);
    PageSums(from, -count);
    if x < from + count {
      MultiplesApart(x, from + count, PAGE_SIZE);
    }
  }

  lemma PageSums(x: int, y: int)
    requires x % PAGE_SIZE == 0 && y % PAGE_SIZE == 0
    ensures (x - y) % PAGE_SIZE == 0 && (x + PAGE_SIZE - y) % PAGE_SIZE == 0
  {
    var p, q := x / PAGE_SIZE, y / PAGE_SIZE;
    assert x - y == PAGE_SIZE * (p - q) && x + PAGE_SIZE - y == PAGE_SIZE * (p - q + 1);
    MultipleLeavesNothing(PAGE_SIZE, p - q);
    MultipleLeavesNothing(PAGE_SIZE, p - q + 1);
  }

  /** A range that nobody has taken yet fits, and so its allocation at its address fails only for want of pool. */
  lemma PageOutcome(fs: seq<Record>, r: Request, base: int, limit: int, granted: bool, status: Status, at: int,
                    gs: seq<Record>)
    requires r.allocateType == AT_ADDRESS && ParameterStatus(r) == Success && base % Pow2(r.alignment) == 0
    requires Fits(fs, r.wanted, base, r.length, limit)
    requires Allocated(fs, r, base, limit, granted, status, at, gs)
    ensures if granted then status == Success && Rewritten(fs, r.Change(), base, r.length, limit, gs)
            else status == OutOfResources && gs == fs
  {
    assert Choice(fs, r, base, limit, base);
  }

  lemma PageShift()
    ensures Pow2(EFI_PAGE_SHIFT) == PAGE_SIZE
  {
    assert Pow2(6) == 64;
    Pow2Adds(6, 6);
  }

  /** The part of the range from an aligned address on is untaken when only pages below it are taken. */
  lemma UntakenFrom(taken: set<int>, from: int, count: int)
    requires from % PAGE_SIZE == 0
    requires forall x :: x in taken ==> x < from
    ensures forall a :: from <= a < from + count ==> AlignDown(a, PAGE_SIZE) !in taken
  {
  }

  lemma NothingAsked(fs: seq<Record>, r: Request, base: int, limit: int, granted: bool, status: Status, at: int,
                     gs: seq<Record>)
    requires r.length == 0 || r.imageHandle == NULL_HANDLE
    requires r.alignment < 64 && Allocated(fs, r, base, limit, granted, status, at, gs)
    ensures status == InvalidParameter && gs == fs
  {
  }

  lemma HarmlessInside(es: seq<Record>, base: int, length: int, limit: int)
    requires base + length <= limit <= TWO_TO_63
    ensures HarmlessRange(es, base, length, limit)
  {
  }

  lemma OnePage(page: int)
    requires page % PAGE_SIZE == 0
    ensures forall x :: x in {page} <==> page <= x < page + PAGE_SIZE && x % PAGE_SIZE == 0
  {
  }

  lemma OnePageLess(length: int)
    requires length > 0 && length % PAGE_SIZE == 0
    ensures length >= PAGE_SIZE && length / PAGE_SIZE - 1 == (length - PAGE_SIZE) / PAGE_SIZE >= 0
  {
  }

  /** There is a whole page exactly when one is counted. */
  lemma NoPages(base: int, length: int)
    requires AlignUp(base, PAGE_SIZE) <= base + length
    ensures AlignDown(base + length - AlignUp(base, PAGE_SIZE), PAGE_SIZE) / PAGE_SIZE == PageCount(base, length)
    ensures PageCount(base, length) == 0 <==> WholePages(base, length) == {}
  {
    var from, count := AlignUp(base, PAGE_SIZE), AlignDown(base + length - AlignUp(base, PAGE_SIZE), PAGE_SIZE);
    WholePagesOf(base, length, from, count);
    if count > 0 {
      assert from in WholePages(base, length);
    }
  }

  lemma AddSucceeded(es: seq<Record>, memoryType: int, base: int, length: nat, capabilities: Mask, limit: int,
                     granted: bool)
    requires limit <= TWO_TO_63 && HarmlessRange(es, base, length, limit)
    requires AddStatus(es, memoryType, base, length, capabilities, limit, granted) == Success
    ensures base + length <= limit
    ensures CheckRange(es, AddMemory(memoryType, capabilities), base, length, base, length) == Success
  {
  }
}
