/** The two GCD maps together: CoreInitializeGcdServices, CoreConvertSpace, CoreAllocateSpace and
    CoreAddMemorySpace of HostLib/DxeServicesTableLibHost/Gcd.c. */
module GcdServices {
  import opened LinkedList
  import opened GcdRecords
  import opened GcdRewrite
  import opened GcdOutcome
  import opened GcdFits
  import opened GcdMap
  import opened GcdSystemMemory

  predicate IsMemoryOperation(op: Operation) {
    op.AddMemory? || op.FreeMemory? || op.RemoveMemory? || op.SetAttributes? || op.SetCapabilities?
  }

  class Services {
    const pool: Pool
    const memory: Map
    const io: Map
    /** gDxeCoreImageHandle, NULL until the boot services are set up */
    const coreImageHandle: Handle

    /** The live entries are those of the two rings, and no entry is in both. */
    ghost predicate Valid()
      reads this, pool, memory, io, memory.ring, io.ring
    {
      && memory != io && memory.Valid() && io.Valid()
      && memory.Nodes() !! io.Nodes()
      && pool.live == memory.Owned() + io.Owned()
    }

    /** CoreInitializeGcdServices; the library constructor passes 48 and 36. */
    constructor (sizeOfMemorySpace: nat, sizeOfIoSpace: nat, coreImageHandle: Handle, supply: seq<bool>)
      requires sizeOfMemorySpace < 64 && sizeOfIoSpace < 64
      requires |supply| >= 2 && supply[0] && supply[1]
      ensures Valid() && pool.supply == supply[2..] && this.coreImageHandle == coreImageHandle
      ensures memory.limit == Pow2(sizeOfMemorySpace) && memory.records == Initial(memory.limit)
      ensures io.limit == Pow2(sizeOfIoSpace) && io.records == Initial(io.limit)
    {
      hide WellFormed, IsRing;
      var p := new Pool(supply);
      var m := new Map(sizeOfMemorySpace, p);
      var i := new Map(sizeOfIoSpace, p);
      assert m.Nodes() <= m.Owned() + {m.head} && i.Nodes() <= i.Owned() + {i.head};
      pool, memory, io := p, m, i;
      this.coreImageHandle := coreImageHandle;
    }

    /** CoreConvertSpace: only the map the operation is for can change. */
    method ConvertSpace(op: Operation, base: int, length: int) returns (status: Status)
      requires Valid() && !op.SetOwner?
      requires 0 <= base < TWO_TO_64 && 0 <= length < TWO_TO_64
      requires if IsMemoryOperation(op) then HarmlessRange(memory.records, base, length, memory.limit)
               else HarmlessRange(io.records, base, length, io.limit)
      modifies pool, memory, memory.Nodes(), io, io.Nodes()
      ensures Valid()
      ensures var granted := PairGranted(old(pool.supply));
              if IsMemoryOperation(op)
              then
                && Converted(old(memory.records), op, base, length, memory.limit, granted, status, memory.records)
                && io.records == old(io.records)
              else
                && Converted(old(io.records), op, base, length, io.limit, granted, status, io.records)
                && memory.records == old(memory.records)
      ensures pool.supply == SupplyLeft(old(pool.supply), status)
      ensures fresh(memory.Nodes() - old(memory.Nodes())) && fresh(io.Nodes() - old(io.Nodes()))
    {
      hide WellFormed, IsRing, Converted, HarmlessRange;
      if IsMemoryOperation(op) {
        status := memory.ConvertSpace(pool, op, base, length);
        assert memory.Nodes() <= memory.Owned() + {memory.head};
      } else {
        status := io.ConvertSpace(pool, op, base, length);
        assert io.Nodes() <= io.Owned() + {io.head};
      }
    }

    /** CoreAllocateSpace: only the map the request is for can change. */
    method AllocateSpace(r: Request, base: int) returns (status: Status, at: int)
      requires Valid()
      requires 0 <= base < TWO_TO_64 && 0 <= r.length < TWO_TO_64
      requires r.allocateType == AT_ADDRESS ==>
                 if r.wanted.WantedMemory? then HarmlessRange(memory.records, base, r.length, memory.limit)
                 else HarmlessRange(io.records, base, r.length, io.limit)
      requires r.allocateType != AT_ADDRESS && !r.TopDown() ==> r.length <= TWO_TO_63
      modifies pool, memory, memory.Nodes(), io, io.Nodes()
      ensures Valid()
      ensures var granted := PairGranted(old(pool.supply));
              if r.wanted.WantedMemory?
              then
                && Allocated(old(memory.records), r, base, memory.limit, granted, status, at, memory.records)
                && io.records == old(io.records)
              else
                && Allocated(old(io.records), r, base, io.limit, granted, status, at, io.records)
                && memory.records == old(memory.records)
      ensures pool.supply == SupplyLeft(old(pool.supply), status)
      ensures fresh(memory.Nodes() - old(memory.Nodes())) && fresh(io.Nodes() - old(io.Nodes()))
    {
      hide WellFormed, IsRing, Allocated, HarmlessRange;
      if r.wanted.WantedMemory? {
        status, at := memory.AllocateSpace(pool, r, base);
        assert memory.Nodes() <= memory.Owned() + {memory.head};
      } else {
        status, at := io.AllocateSpace(pool, r, base);
        assert io.Nodes() <= io.Owned() + {io.head};
      }
    }

    /** CoreInternalAddMemorySpace. */
    method InternalAddMemorySpace(memoryType: int, base: int, length: int, capabilities: Mask) returns (status: Status)
      requires Valid()
      requires 0 <= base < TWO_TO_64 && 0 <= length < TWO_TO_64
               && HarmlessRange(memory.records, base, length, memory.limit)
      modifies pool, memory, memory.Nodes(), io, io.Nodes()
      ensures Valid()
      ensures status == AddStatus(old(memory.records), memoryType, base, length, capabilities, memory.limit,
                PairGranted(old(pool.supply)))
      ensures if status == Success
              then Rewritten(old(memory.records), AddMemory(memoryType, capabilities), base, length, memory.limit,
                  memory.records)
              else memory.records == old(memory.records)
      ensures !(1 <= memoryType <= 5) ==> status == InvalidParameter
      ensures io.records == old(io.records)
      ensures pool.supply == SupplyLeft(old(pool.supply), status)
      ensures fresh(memory.Nodes() - old(memory.Nodes())) && fresh(io.Nodes() - old(io.Nodes()))
    {
      hide WellFormed, IsRing, ConvertStatus, Rewritten, HarmlessRange;
      if memoryType <= MEMORY_NON_EXISTENT || memoryType >= MEMORY_TYPE_MAXIMUM {
        return InvalidParameter;
      }
      status := ConvertSpace(AddMemory(memoryType, capabilities), base, length);
    }

    lemma RecordsTile()
      requires Valid()
      ensures 0 < memory.limit <= TWO_TO_63 && Tiles(memory.records, 0, memory.limit)
    {
    }

    /** The request CoreAddMemorySpace makes for count bytes at a page address. */
    function PageRequest(memoryType: int, count: int): Request {
      Request(AT_ADDRESS, WantedMemory(memoryType), EFI_PAGE_SHIFT, count, coreImageHandle, NULL_HANDLE)
    }

    /** Gives count bytes at a page address to the core, when they are still untaken. */
    method TakeRange(memoryType: int, base: int, length: int, capabilities: Mask, from: int, count: int,
                     ghost was: seq<Record>, ghost taken: set<int>, ghost pages: set<int>)
      returns (status: Status)
      requires Valid() && IsSystemMemory(memoryType) && Tiles(was, 0, memory.limit)
      requires 0 <= base && base <= from && 0 <= count && from + count <= base + length <= memory.limit
      requires CheckRange(was, AddMemory(memoryType, capabilities), base, length, base, length) == Success
      requires Added(was, AddMemory(memoryType, capabilities), base, length, memory.limit, coreImageHandle, taken,
                 memory.records)
      requires from % PAGE_SIZE == 0 && count % PAGE_SIZE == 0
      requires forall x :: x in taken ==> x < from
      requires forall x :: x in pages <==> from <= x < from + count && x % PAGE_SIZE == 0
      modifies pool, memory, memory.Nodes(), io, io.Nodes()
      ensures Valid() && io.records == old(io.records)
      ensures status == if count == 0 || coreImageHandle == NULL_HANDLE then InvalidParameter
                        else if PairGranted(old(pool.supply)) then Success else OutOfResources
      ensures pool.supply == SupplyLeft(old(pool.supply), status)
      ensures Added(was, AddMemory(memoryType, capabilities), base, length, memory.limit, coreImageHandle,
                    if status == Success then taken + pages else taken, memory.records)
      ensures fresh(memory.Nodes() - old(memory.Nodes())) && fresh(io.Nodes() - old(io.Nodes()))
    {
      hide WellFormed, IsRing, Rewritten, Added, Allocated, CheckRange, Fits, Tiles, Pow2;
      ghost var op, es := AddMemory(memoryType, capabilities), memory.records;
      var r := PageRequest(memoryType, count);
      HarmlessInside(es, from, count, memory.limit);
      PageShift();
      var at;
      status, at := AllocateSpace(r, from);
      if count == 0 || coreImageHandle == NULL_HANDLE {
        NothingAsked(es, r, from, memory.limit, PairGranted(old(pool.supply)), status, at, memory.records);
        return;
      }
      UntakenFrom(taken, from, count);
      AddedFits(was, op, base, length, memory.limit, coreImageHandle, taken, es, from, count);
      PageOutcome(es, r, from, memory.limit, PairGranted(old(pool.supply)), status, at, memory.records);
      if status == Success {
        AddedTakes(was, op, base, length, memory.limit, coreImageHandle, taken, es, from, count, memory.records, pages);
      }
    }

    /** The loop of CoreAddMemorySpace over single pages; `failed` is the status of the request for all of them. */
    method TakeSinglePages(memoryType: int, base: int, length: int, capabilities: Mask, from: int, count: int,
                           failed: Status, ghost was: seq<Record>)
      returns (status: Status, ghost taken: set<int>)
      requires Valid() && IsSystemMemory(memoryType) && Tiles(was, 0, memory.limit)
      requires 0 <= base && base <= from && 0 <= count && from + count <= base + length <= memory.limit
      requires CheckRange(was, AddMemory(memoryType, capabilities), base, length, base, length) == Success
      requires Added(was, AddMemory(memoryType, capabilities), base, length, memory.limit, coreImageHandle, {},
                     memory.records)
      requires from % PAGE_SIZE == 0 && count % PAGE_SIZE == 0
      requires coreImageHandle == NULL_HANDLE ==> failed == InvalidParameter
      modifies pool, memory, memory.Nodes(), io, io.Nodes()
      ensures Valid() && io.records == old(io.records)
      ensures Added(was, AddMemory(memoryType, capabilities), base, length, memory.limit, coreImageHandle, taken,
                    memory.records)
      ensures forall x :: x in taken ==> from <= x < from + count && x % PAGE_SIZE == 0
      ensures Taking(status, taken, pool.supply) ==
              if coreImageHandle == NULL_HANDLE then Taking(failed, {}, old(pool.supply))
              else TakeEach(old(pool.supply), from, count / PAGE_SIZE, failed)
    {
      hide WellFormed, IsRing, Added, CheckRange, Tiles, Services.Valid, Map.Valid, PairGranted, AfterPair, TakeEach,
          TakingEach;
      ghost var all := TakeEach(pool.supply, from, count / PAGE_SIZE, failed);
      TakingEachStarts(pool.supply, from, count / PAGE_SIZE, failed);
      ghost var op := AddMemory(memoryType, capabilities);
      status, taken := failed, {};
      var pageBase, pageLength := from, count;
      while pageLength != 0
        invariant Valid() && io.records == old(io.records)
        invariant 0 <= pageLength && pageLength % PAGE_SIZE == 0 && pageBase % PAGE_SIZE == 0
        invariant from <= pageBase && pageBase + pageLength == from + count
        invariant Added(was, op, base, length, memory.limit, coreImageHandle, taken, memory.records)
        invariant forall x :: x in taken ==> from <= x < pageBase && x % PAGE_SIZE == 0
        invariant coreImageHandle == NULL_HANDLE ==> status == failed && taken == {} && pool.supply == old(pool.supply)
        invariant coreImageHandle != NULL_HANDLE ==>
                    TakingEach(all, pool.supply, pageBase, pageLength / PAGE_SIZE, status, taken)
        invariant fresh(memory.Nodes() - old(memory.Nodes())) && fresh(io.Nodes() - old(io.Nodes()))
      {
        OnePage(pageBase);
        OnePageLess(pageLength);
        ghost var supply, before, sofar := pool.supply, status, taken;
        status := TakeRange(memoryType, base, length, capabilities, pageBase, PAGE_SIZE, was, taken, {pageBase});
        if status == Success {
          taken := taken + {pageBase};
        }
        if coreImageHandle != NULL_HANDLE {
          TakingEachMoves(all, supply, pageBase, pageLength / PAGE_SIZE, before, sofar, status);
        }
        pageLength := pageLength - PAGE_SIZE;
        pageBase := pageBase + PAGE_SIZE;
      }
      if coreImageHandle != NULL_HANDLE {
        TakingEachEnds(all, pool.supply, pageBase, status, taken);
      }
    }

    /** The second half of CoreAddMemorySpace: all whole pages at once or, when that fails, one by one. */
    method TakePages(memoryType: int, base: int, length: int, capabilities: Mask, from: int, count: int,
                     ghost was: seq<Record>)
      returns (status: Status, ghost taken: set<int>)
      requires Valid() && IsSystemMemory(memoryType) && Tiles(was, 0, memory.limit)
      requires 0 <= base && base <= from && 0 <= count && from + count <= base + length <= memory.limit
      requires CheckRange(was, AddMemory(memoryType, capabilities), base, length, base, length) == Success
      requires Added(was, AddMemory(memoryType, capabilities), base, length, memory.limit, coreImageHandle, {},
                     memory.records)
      requires from % PAGE_SIZE == 0 && count % PAGE_SIZE == 0
      requires forall x :: x in WholePages(base, length) <==> from <= x < from + count && x % PAGE_SIZE == 0
      modifies pool, memory, memory.Nodes(), io, io.Nodes()
      ensures Valid() && io.records == old(io.records)
      ensures Added(was, AddMemory(memoryType, capabilities), base, length, memory.limit, coreImageHandle, taken,
                    memory.records)
      ensures taken <= WholePages(base, length)
      ensures Taking(status, taken, pool.supply) ==
              TakeAll(old(pool.supply), coreImageHandle, WholePages(base, length), from, count / PAGE_SIZE)
    {
      hide WellFormed, IsRing, Added, CheckRange, Tiles, WholePages, Services.Valid, Map.Valid, PairGranted, AfterPair,
          TakeEach;
      taken := {};
      status := TakeRange(memoryType, base, length, capabilities, from, count, was, taken, WholePages(base, length));
      if count > 0 {
        OnePageLess(count);
      }
      if status == Success {
        taken := WholePages(base, length);
        assert {} + taken == taken;
      } else {
        if count == 0 {
          TakeNone(pool.supply, from, status);
        }
        status, taken := TakeSinglePages(memoryType, base, length, capabilities, from, count, status, was);
      }
    }

    /** CoreAddMemorySpace.  taken are the pages that end up owned by the core. */
    method AddMemorySpace(memoryType: int, base: int, length: int, capabilities: Mask)
      returns (status: Status, ghost taken: set<int>)
      requires Valid()
      requires 0 <= base < TWO_TO_64 && 0 <= length < TWO_TO_64
               && HarmlessRange(memory.records, base, length, memory.limit)
      requires IsSystemMemory(memoryType) ==> AlignUp(base, PAGE_SIZE) <= base + length
      modifies pool, memory, memory.Nodes(), io, io.Nodes()
      ensures Valid() && io.records == old(io.records)
      ensures var granted := PairGranted(old(pool.supply));
              var added := AddStatus(old(memory.records), memoryType, base, length, capabilities, memory.limit,
                  granted);
              if added != Success
              then
                && status == added && memory.records == old(memory.records) && taken == {}
                && pool.supply == SupplyLeft(old(pool.supply), added)
              else
                && Added(old(memory.records), AddMemory(memoryType, capabilities), base, length, memory.limit,
                         coreImageHandle, taken, memory.records)
                && taken <= WholePages(base, length)
                && Taking(status, taken, pool.supply) ==
                   if IsSystemMemory(memoryType)
                   then TakeAll(AfterPair(old(pool.supply)), coreImageHandle, WholePages(base, length),
                                AlignUp(base, PAGE_SIZE), PageCount(base, length))
                   else Taking(Success, {}, AfterPair(old(pool.supply)))
      ensures var granted := PairGranted(old(pool.supply));
              var added := AddStatus(old(memory.records), memoryType, base, length, capabilities, memory.limit,
                  granted);
              added == Success && IsSystemMemory(memoryType) && WholePages(base, length) != {}
              && coreImageHandle != NULL_HANDLE && old(pool.Grants(4))
              ==> status == Success && taken == WholePages(base, length)
      ensures var granted := PairGranted(old(pool.supply));
              var added := AddStatus(old(memory.records), memoryType, base, length, capabilities, memory.limit,
                  granted);
              added == Success && coreImageHandle != NULL_HANDLE && old(pool.Grants(4)) ==>
                OwnsWholePages(memory.records, memoryType, base, length, coreImageHandle)
    {
      hide WellFormed, IsRing, AddStatus, Rewritten, HarmlessRange, Added, Allocated, WholePages, CheckRange, Fits;
      hide TakeAll, PairGranted, AfterPair, AlignUp, AlignDown, PageCount, Services.Valid, Map.Valid;
      ghost var was, op := memory.records, AddMemory(memoryType, capabilities);
      RecordsTile();
      taken := {};
      status := InternalAddMemorySpace(memoryType, base, length, capabilities);
      if status != Success {
        return;
      }
      AddedNothingTaken(was, op, base, length, memory.limit, coreImageHandle, memory.records);
      if IsSystemMemory(memoryType) {
        var pageBase := AlignUp(base, PAGE_SIZE);
        var pageLength := AlignDown(base + length - pageBase, PAGE_SIZE);
        WholePagesOf(base, length, pageBase, pageLength);
        AddSucceeded(was, memoryType, base, length, capabilities, memory.limit, PairGranted(old(pool.supply)));
        status, taken := TakePages(memoryType, base, length, capabilities, pageBase, pageLength, was);
        NoPages(base, length);
        if old(pool.Grants(4)) && pageLength > 0 && coreImageHandle != NULL_HANDLE {
          FourAnswersTakeAll(old(pool.supply), coreImageHandle, WholePages(base, length), pageBase,
              PageCount(base, length));
        }
      }
      if old(pool.Grants(4)) && coreImageHandle != NULL_HANDLE {
        AddSucceeded(was, memoryType, base, length, capabilities, memory.limit, PairGranted(old(pool.supply)));
        WholePagesOwned(was, op, base, length, memory.limit, coreImageHandle, taken, memory.records);
      }
    }
  }
}
