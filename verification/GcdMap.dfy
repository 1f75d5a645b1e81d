/** One GCD map on the heap: a ring of map entries hanging off a list head.
    HostLib/DxeServicesTableLibHost/Gcd.c over HostLib/BaseLibHost/LinkedList.c. */
module GcdMap {
  import opened LinkedList
  import opened GcdRecords
  import opened GcdRewrite
  import opened GcdOutcome
  import opened GcdFits

  /** The allocator the map entries come from.  supply says which of the coming requests are met;
      live holds the entries handed out and not yet given back. */
  class Pool {
    var supply: seq<bool>
    ghost var live: set<Node<Record>>

    constructor (supply: seq<bool>)
      ensures this.supply == supply && live == {}
    {
      this.supply := supply;
      live := {};
    }

    /** Whether the next count requests are met. */
    ghost predicate Grants(count: nat)
      reads this
    {
      count <= |supply| && forall i :: 0 <= i < count ==> supply[i]
    }

    /** AllocatePool for anything but a map entry: whether the request is met. */
    method AllocatePool() returns (granted: bool)
      modifies this`supply
      ensures granted == old(Grants(1)) && supply == AfterOne(old(supply))
    {
      granted := |supply| > 0 && supply[0];
      if |supply| > 0 {
        supply := supply[1..];
      }
    }

    method AllocateZeroPool() returns (entry: Node?<Record>)
      modifies this
      ensures entry != null <==> old(Grants(1))
      ensures supply == AfterOne(old(supply))
      ensures entry == null ==> live == old(live)
      ensures entry != null ==> fresh(entry) && entry.data == ZERO_RECORD && live == old(live) + {entry}
    {
      entry := null;
      if |supply| > 0 {
        if supply[0] {
          entry := new Node<Record>(ZERO_RECORD);
          live := live + {entry};
        }
        supply := supply[1..];
      }
    }

    /** Only a live entry can be given back, and so none twice. */
    method FreePool(entry: Node<Record>)
      requires entry in live
      modifies this`live
      ensures live == old(live) - {entry}
    {
      live := live - {entry};
    }

    /** Both spare entries, or none. */
    method AllocateGcdMapEntry() returns (status: Status, top: Node?<Record>, bottom: Node?<Record>)
      modifies this
      ensures status == if PairGranted(old(supply)) then Success else OutOfResources
      ensures status == Success <==> old(Grants(2))
      ensures supply == AfterPair(old(supply))
      ensures status == Success ==>
                && top != null && bottom != null && fresh(top) && fresh(bottom) && top != bottom
                && top.data == ZERO_RECORD && bottom.data == ZERO_RECORD
                && live == old(live) + {top, bottom}
      ensures status != Success ==> live == old(live)
    {
      top := AllocateZeroPool();
      if top == null {
        return OutOfResources, null, null;
      }
      bottom := AllocateZeroPool();
      if bottom == null {
        FreePool(top);
        return OutOfResources, null, null;
      }
      return Success, top, bottom;
    }
  }

  ghost function Members<T>(s: seq<T>): set<T> {
    set x | x in s
  }

  lemma InRing<T>(s: seq<T>, k: nat)
    requires k < |s|
    ensures s[k] in Members(s)
  {
  }

  lemma PairMembers<T>(s: seq<T>, x: T, y: T)
    requires |s| == 2 && s[0] == x && s[1] == y && x != y
    ensures Members(s) - {x} == {y}
  {
  }

  lemma InsertedMembers<T>(s: seq<T>, k: nat, x: T, t: seq<T>)
    requires k <= |s| && IsInserted(s, k, x, t)
    ensures Members(t) == Members(s) + {x}
  {
    forall y | y in s ensures y in t {
      var i :| 0 <= i < |s| && s[i] == y;
      assert t[if i < k then i else i + 1] == y;
    }
    assert t[k] == x;
    assert forall y :: y in t ==> y in s || y == x;
  }

  lemma RemovedMembers<T>(s: seq<T>, k: nat, t: seq<T>)
    requires k < |s| && IsRemoved(s, k, t) && forall i, j :: 0 <= i < j < |s| ==> s[i] != s[j]
    ensures Members(t) == Members(s) - {s[k]}
  {
    forall y | y in s && y != s[k] ensures y in t {
      var i :| 0 <= i < |s| && s[i] == y;
      assert t[if i < k then i else i - 1] == y;
    }
    assert forall y :: y in t ==> y in s && y != s[k];
  }

  lemma AccumulatesNothing(attributes: Mask, held: Mask)
    requires held * CPU_ARCH_ATTRIBUTES == {}
    ensures attributes + (held * CPU_ARCH_ATTRIBUTES) == attributes
  {
  }

  lemma SamePosition<T>(ring: seq<Node<T>>, i: nat, j: nat)
    requires IsRing(ring) && i < |ring| && j < |ring| && ring[i] == ring[j]
    ensures i == j
  {
  }

  lemma OnlyThere<T>(ring: seq<Node<T>>, k: nat)
    requires IsRing(ring) && k < |ring|
    ensures forall i :: 0 <= i < |ring| && i != k ==> ring[i] != ring[k]
  {
  }

  class Map {
    const head: Node<Record>
    const limit: int
    ghost var ring: seq<Node<Record>>
    ghost var records: seq<Record>

    /** An address space of 2^size addresses, none of which exists yet. */
    constructor (size: nat, pool: Pool)
      requires size < 64 && pool.Grants(1)
      modifies pool
      ensures Valid() && limit == Pow2(size)
      ensures records == Initial(Pow2(size))
      ensures fresh(head) && fresh(Owned()) && pool.live == old(pool.live) + Owned()
      ensures pool.supply == old(pool.supply)[1..]
    {
      hide IsRing, WellFormed, Pow2, Joined, Map.Owned;
      head := new Node<Record>(ZERO_RECORD);
      limit := Pow2(size);
      new;
      var _ := InitializeListHead(head);
      var entry := pool.AllocateZeroPool();
      entry.data := Record(true, 0, Pow2(size) - 1, ZERO_PAYLOAD);
      var _, both := InsertHeadList(head, entry, [head], 0);
      ring, records := both, Initial(limit);
      OwnsOne(entry);
      InitialIsWellFormed(limit);
      Pow2Bound(size);
    }

    /** records mirrors the nodes of the ring behind its head. */
    ghost predicate Linked()
      reads this, ring
    {
      && |ring| > 0 && ring[0] == head && IsRing(ring)
      && |records| == |ring| - 1
      && (forall i :: 0 <= i < |records| ==> records[i] == ring[i + 1].data)
    }

    /** The map entries themselves, which the pool handed out. */
    ghost function Owned(): set<Node<Record>>
      reads this
    {
      Nodes() - {head}
    }

    lemma OwnsOne(entry: Node<Record>)
      requires |ring| == 2 && ring[0] == head && ring[1] == entry && entry != head
      ensures Owned() == {entry}
    {
      PairMembers(ring, head, entry);
    }

    /** All nodes of the ring. */
    ghost function Nodes(): set<Node<Record>>
      reads this
    {
      Members(ring)
    }

    ghost predicate Valid()
      reads this, ring
    {
      Linked() && 0 < limit <= TWO_TO_63 && WellFormed(records, limit)
    }

    /** The first step of CoreInsertGcdMapEntry: what link has below base goes to bottom. */
    method InsertBottom(link: Node<Record>, base: int, bottom: Node<Record>, ghost k: nat) returns (ghost at: nat)
      requires Linked() && 0 < k < |ring| && ring[k] == link && link.data.signed && bottom != head
      requires base > link.data.base ==> bottom !in Owned() && !bottom.data.signed
      modifies this`ring, this`records, Nodes()`forwardLink, Nodes()`backLink, link`data, bottom
      ensures Linked() && at == Inside(old(records), k - 1, base) + 1 && at < |ring| && ring[at] == link
      ensures IsCutBelow(old(records), k - 1, base, records)
      ensures Owned() == if base > old(link.data.base) then old(Owned()) + {bottom} else old(Owned())
      ensures bottom.data.signed <==> old(bottom.data.signed) || base > old(link.data.base)
      ensures at == k ==> ring == old(ring)
      ensures link.data.signed && link.data.payload == old(link.data.payload) && link.data.end == old(link.data.end)
      ensures forall j :: k < j < |old(ring)| ==> j + at - k < |ring| && ring[j + at - k] == old(ring)[j]
    {
      hide IsRing, Joined;
      at := k;
      if base > link.data.base {
        bottom.data := link.data;
        bottom.forwardLink := link.forwardLink;
        bottom.backLink := link.backLink;
        link.data := link.data.(base := base);
        bottom.data := bottom.data.(end := base - 1);
        var _, after := InsertTailList(link, bottom, ring, k);
        InsertedMembers(ring, k, bottom, after);
        ghost var fs := Cutting(records, k - 1, base);
        ring, records, at := after, fs, k + 1;
      }
    }

    /** The second step: what link has above last goes to top. */
    method InsertTop(link: Node<Record>, last: int, top: Node<Record>, ghost k: nat)
      requires Linked() && 0 < k < |ring| && ring[k] == link && link.data.signed && top != head
      requires last < link.data.end ==> top !in Owned() && !top.data.signed
      modifies this`ring, this`records, Nodes()`forwardLink, Nodes()`backLink, link`data, top
      ensures Linked() && k < |ring| && ring[k] == link
      ensures IsCutAbove(old(records), k - 1, last, records)
      ensures Owned() == if last < old(link.data.end) then old(Owned()) + {top} else old(Owned())
      ensures top.data.signed <==> old(top.data.signed) || last < old(link.data.end)
      ensures link.data.signed && link.data.payload == old(link.data.payload)
      ensures last >= old(link.data.end) ==> ring == old(ring)
      ensures forall j :: 0 <= j < k ==> ring[j] == old(ring)[j]
    {
      hide IsRing, Joined;
      if last < link.data.end {
        top.data := link.data;
        top.forwardLink := link.forwardLink;
        top.backLink := link.backLink;
        top.data := top.data.(base := last + 1);
        link.data := link.data.(end := last);
        var _, after := InsertHeadList(link, top, ring, k);
        InsertedMembers(ring, k + 1, top, after);
        ghost var fs := Cutting(records, k - 1, last + 1);
        ring, records := after, fs;
      }
    }

    /** Cuts link to [base, base+length); what it had outside goes to the spare entries.
        k and at are the positions of link before and after. */
    method InsertGcdMapEntry(link: Node<Record>, base: int, length: int, top: Node<Record>, bottom: Node<Record>,
                             ghost k: nat)
      returns (ghost fs: seq<Record>, ghost at: nat)
      requires Linked() && 0 < k < |ring| && ring[k] == link
      requires link.data.signed && link.data.base <= base + length - 1 && Spare(top, bottom)
      requires base > link.data.base ==> bottom !in Owned()
      requires base + length - 1 < link.data.end ==> top !in Owned()
      modifies this`ring, this`records, Nodes()`forwardLink, Nodes()`backLink, link`data, top, bottom
      ensures Linked() && at == Inside(old(records), k - 1, base) + 1 && at < |ring| && ring[at] == link
      ensures IsCutBelow(old(records), k - 1, base, fs)
      ensures IsCutAbove(fs, at - 1, base + length - 1, records)
      ensures Spare(top, bottom)
      ensures Owned() + {top, bottom} == old(Owned()) + {top, bottom} && old(Owned()) <= Owned()
      ensures top.data.signed <==> old(top.data.signed) || base + length - 1 < old(link.data.end)
      ensures link.data.payload == old(link.data.payload)
      ensures at == k ==> forall j :: 0 <= j < k ==> ring[j] == old(ring)[j]
      ensures base + length - 1 >= old(link.data.end) ==>
                forall j :: k < j < |old(ring)| ==> j + at - k < |ring| && ring[j + at - k] == old(ring)[j]
    {
      hide IsRing, IsCutAbove, Joined;
      at := InsertBottom(link, base, bottom, k);
      fs := records;
      assert Nodes() == Owned() + {head};
      InsertTop(link, base + length - 1, top, at);
    }

    /** The attributes of the entry are only added in when none of the wanted ones is a CPU-arch attribute;
        and since no entry holds one, nothing is ever added. */
    method AccumulateAttributes(attributes: Mask, held: Mask) returns (accumulated: Mask)
      requires held * CPU_ARCH_ATTRIBUTES == {}
      ensures accumulated == attributes
    {
      accumulated := attributes;
      if ConvertToCpuArchAttributes(attributes) == {} {
        accumulated := attributes + (held * CPU_ARCH_ATTRIBUTES);
        AccumulatesNothing(attributes, held);
      }
    }

    /** The switch of the conversion loops: what op makes of one entry.  attributes is the variable
        that the loop accumulates the attributes in. */
    method RewriteEntry(entry: Node<Record>, op: Operation, attributes: Mask) returns (newAttributes: Mask)
      requires CpuArchFreeOperation(op) && entry.data.payload.attributes * CPU_ARCH_ATTRIBUTES == {}
      requires op.SetAttributes? ==> attributes == op.attributes
      modifies entry`data
      ensures newAttributes == attributes
      ensures entry.data == old(entry.data).(payload := Apply(op, old(entry.data.payload)))
    {
      newAttributes := attributes;
      match op {
      case AddMemory(memoryType, capabilities) =>
        entry.data := entry.data.(payload := entry.data.payload.(memoryType := memoryType));
        if memoryType == MEMORY_MAPPED_IO {
          entry.data := entry.data.(payload := entry.data.payload.(capabilities := capabilities + MEMORY_RUNTIME
              + MEMORY_PORT_IO));
        } else {
          entry.data := entry.data.(payload := entry.data.payload.(capabilities := capabilities + MEMORY_RUNTIME));
        }
      case AddIo(ioType) =>
        entry.data := entry.data.(payload := entry.data.payload.(ioType := ioType));
      case FreeMemory | FreeIo =>
        entry.data := entry.data.(payload := entry.data.payload.(imageHandle := NULL_HANDLE,
            deviceHandle := NULL_HANDLE));
      case RemoveMemory =>
        entry.data := entry.data.(payload := entry.data.payload.(memoryType := MEMORY_NON_EXISTENT,
            capabilities := {}));
      case RemoveIo =>
        entry.data := entry.data.(payload := entry.data.payload.(ioType := IO_NON_EXISTENT));
      case SetAttributes(_) =>
        newAttributes := AccumulateAttributes(attributes, entry.data.payload.attributes);
        entry.data := entry.data.(payload := entry.data.payload.(attributes := newAttributes));
      case SetCapabilities(capabilities) =>
        entry.data := entry.data.(payload := entry.data.payload.(capabilities := capabilities));
      case SetOwner(imageHandle, deviceHandle) =>
        entry.data := entry.data.(payload := entry.data.payload.(imageHandle := imageHandle,
            deviceHandle := deviceHandle));
      }
    }

    /** The state of the conversion loop.  s and e are the positions of startLink and endLink among the
        records, i that of the next record to rewrite. */
    ghost predicate Converting(was: seq<Record>, op: Operation, s: nat, i: nat, e: nat, base: int, last: int,
                               startLink: Node<Record>, endLink: Node<Record>, top: Node<Record>, bottom: Node<Record>)
      reads this, ring, top, bottom
    {
      && Linked()
      && s <= i <= e + 1 < |ring| && s <= e && ring[s + 1] == startLink && ring[e + 1] == endLink
      && Rewriting(was, records, op, s, i, e, base, last, limit)
      && Apart(records, s, i, e)
      && Spare(top, bottom)
      && (i == s ==> bottom !in Owned())
      && (i <= e ==> top !in Owned())
    }

    /** The two spare entries are signed exactly when they have been put into the ring. */
    ghost predicate Spare(top: Node<Record>, bottom: Node<Record>)
      reads this, top, bottom
    {
      && top != bottom && top != head && bottom != head
      && (top.data.signed <==> top in Owned())
      && (bottom.data.signed <==> bottom in Owned())
    }

    lemma RecordOf(i: nat)
      requires Linked() && i + 1 < |ring|
      ensures i < |records| && records[i] == ring[i + 1].data
    {
    }

    /** The body of the conversion loop: from the records es, by way of fs and gs. */
    method SplitAndRewrite(op: Operation, attributes: Mask, base: int, length: int, link: Node<Record>,
                           top: Node<Record>, bottom: Node<Record>, ghost s: nat, ghost i: nat, ghost e: nat)
      returns (newAttributes: Mask, ghost fs: seq<Record>, ghost gs: seq<Record>, ghost m: nat)
      requires CpuArchFreeOperation(op) && (op.SetAttributes? ==> attributes == op.attributes)
      requires Linked() && s <= i <= e && e + 1 < |ring| && ring[i + 1] == link && CpuArchFree(records)
      requires link.data.signed && link.data.base <= base + length - 1
      requires base > link.data.base ==> i == s
      requires base + length - 1 < link.data.end ==> i == e
      requires Spare(top, bottom) && (i == s ==> bottom !in Owned()) && top !in Owned()
      modifies this`ring, this`records, Nodes()`forwardLink, Nodes()`backLink, link`data, top, bottom
      ensures newAttributes == attributes
      ensures Linked() && m == Inside(old(records), i, base) && e + m - i + 1 < |ring| && ring[m + 1] == link
      ensures ring[s + m - i + 1] == old(ring)[s + 1] && ring[e + m - i + 1] == old(ring)[e + 1]
      ensures IsCutBelow(old(records), i, base, fs)
      ensures IsCutAbove(fs, m, base + length - 1, gs)
      ensures records == Repaint(gs, m, op)
      ensures Spare(top, bottom) && (i < e ==> top !in Owned())
      ensures Owned() + {top, bottom} == old(Owned()) + {top, bottom} && old(Owned()) <= Owned()
    {
      hide IsRing, IsCutBelow, IsCutAbove, Members, Apply, CpuArchFreeOperation;
      ghost var at, first, last := 0, ring[s + 1], ring[e + 1];
      fs, at := InsertGcdMapEntry(link, base, length, top, bottom, i + 1);
      gs, m := records, at - 1;
      assert s < i ==> ring[s + 1] == first;
      assert i < e ==> e + 1 + at - (i + 1) < |ring| && ring[e + 1 + at - (i + 1)] == last;
      OnlyThere(ring, at);
      newAttributes := RewriteEntry(link, op, attributes);
      records := Repaint(gs, m, op);
    }

    /** What one turn of the conversion loop does to its entry. */
    method ConvertEntry(op: Operation, attributes: Mask, base: int, length: int, link: Node<Record>,
                        startLink: Node<Record>, endLink: Node<Record>, top: Node<Record>, bottom: Node<Record>,
                        ghost was: seq<Record>, ghost s: nat, ghost i: nat, ghost e: nat)
      returns (newAttributes: Mask, ghost s': nat, ghost i': nat, ghost e': nat)
      requires CpuArchFreeOperation(op) && (op.SetAttributes? ==> attributes == op.attributes)
      requires Converting(was, op, s, i, e, base, base + length - 1, startLink, endLink, top, bottom)
      requires i <= e && ring[i + 1] == link
      modifies this`ring, this`records, Nodes()`forwardLink, Nodes()`backLink, link`data, top, bottom
      ensures newAttributes == attributes
      ensures e' + 1 - i' == e - i && i' < |ring| && ring[i'] == link
      ensures Converting(was, op, s', i', e', base, base + length - 1, startLink, endLink, top, bottom)
      ensures Owned() + {top, bottom} == old(Owned()) + {top, bottom} && old(Owned()) <= Owned()
    {
      hide IsRing, IsCutBelow, IsCutAbove, Repaint, Rewriting, Spare, Map.Linked, CpuArchFreeOperation;
      ghost var es, last := records, base + length - 1;
      RecordOf(i);
      RewritingOverlaps(was, es, op, s, i, e, base, last, limit);
      ghost var fs, gs, m;
      newAttributes, fs, gs, m := SplitAndRewrite(op, attributes, base, length, link, top, bottom, s, i, e);
      s', i', e' := s + m - i, m + 1, e + m - i;
      Turn(was, es, op, s, i, e, base, last, limit, fs, gs);
      ApartTurn(was, es, op, s, i, e, base, last, limit, fs, gs);
    }

    /** One turn of the conversion loop and its step to the next link. */
    method ConvertTurn(op: Operation, attributes: Mask, base: int, length: int, link: Node<Record>,
                       startLink: Node<Record>, endLink: Node<Record>, top: Node<Record>, bottom: Node<Record>,
                       ghost was: seq<Record>, ghost s: nat, ghost i: nat, ghost e: nat)
      returns (next: Node<Record>, newAttributes: Mask, ghost s': nat, ghost i': nat, ghost e': nat)
      requires CpuArchFreeOperation(op) && (op.SetAttributes? ==> attributes == op.attributes)
      requires Converting(was, op, s, i, e, base, base + length - 1, startLink, endLink, top, bottom)
      requires i <= e && ring[i + 1] == link
      modifies this`ring, this`records, Nodes(), top, bottom
      ensures newAttributes == attributes && e' + 1 - i' == e - i
      ensures Converting(was, op, s', i', e', base, base + length - 1, startLink, endLink, top, bottom)
      ensures next == ring[Next(i', |ring|)] && endLink.forwardLink == ring[Next(e' + 1, |ring|)]
      ensures Owned() + {top, bottom} == old(Owned()) + {top, bottom} && old(Owned()) <= Owned()
    {
      hide IsRing, Rewriting, Apart, CpuArchFreeOperation, Members, Spare;
      InRing(ring, i + 1);
      newAttributes, s', i', e' := ConvertEntry(op, attributes, base, length, link, startLink, endLink, top, bottom,
          was, s, i, e);
      NeighboursOf(ring, i');
      NeighboursOf(ring, e' + 1);
      next := link.forwardLink;
    }

    /** The conversion loop of CoreConvertSpace and CoreAllocateSpace: cuts the records from startLink to
        endLink to the range and rewrites them.  s and e are the positions of the two among the records. */
    method ConvertEntries(op: Operation, base: int, length: int, startLink: Node<Record>, endLink: Node<Record>,
                          top: Node<Record>, bottom: Node<Record>, ghost s: nat, ghost e: nat)
      returns (ghost s': nat, ghost e': nat)
      requires Valid() && CpuArchFreeOperation(op) && 0 < length
      requires s <= e < |records| && ring[s + 1] == startLink && ring[e + 1] == endLink
      requires Holds(records[s], base) && Holds(records[e], base + length - 1)
      requires Spare(top, bottom) && top !in Owned() && bottom !in Owned()
      modifies this`ring, this`records, Nodes(), top, bottom
      ensures Linked() && s' <= e' < |records| && ring[s' + 1] == startLink && ring[e' + 1] == endLink
      ensures Cleaning(old(records), records, op, s', e', base, base + length, limit)
      ensures Spare(top, bottom)
      ensures Owned() + {top, bottom} == old(Owned()) + {top, bottom} && old(Owned()) <= Owned()
    {
      hide IsRing, Rewriting, Apart, WellFormed, Cleaning, CpuArchFreeOperation, Members, Spare, Holds;
      ghost var was, last := records, base + length - 1;
      var attributes := if op.SetAttributes? then op.attributes else {};
      ghost var i := s;
      s', e' := s, e;
      RewritingStarts(was, op, s, e, base, last, limit);
      var link := startLink;
      InRing(ring, 0);
      NeighboursOf(ring, e + 1);
      while link != endLink.forwardLink
        invariant Converting(was, op, s', i, e', base, last, startLink, endLink, top, bottom)
        invariant link == ring[Next(i, |ring|)] && endLink.forwardLink == ring[Next(e' + 1, |ring|)]
        invariant op.SetAttributes? ==> attributes == op.attributes
        invariant Owned() + {top, bottom} == old(Owned()) + {top, bottom} && old(Owned()) <= Owned()
        decreases e' + 1 - i
      {
        assert Nodes() <= old(Nodes()) + {top, bottom};
        link, attributes, s', i, e' := ConvertTurn(op, attributes, base, length, link, startLink, endLink, top, bottom,
            was, s', i, e');
      }
      assert i == e' + 1 by {
        SamePosition(ring, Next(i, |ring|), Next(e' + 1, |ring|));
      }
      RewritingEnds(was, records, op, s', e', base, last, limit);
    }

    /** Takes an entry off the ring and gives it back to the pool. */
    method Unlink(pool: Pool, adjacent: Node<Record>, ghost at: nat) returns (ghost after: seq<Node<Record>>)
      requires IsRing(ring) && |ring| >= 2 && at < |ring| && ring[at] == adjacent && adjacent in pool.live
      modifies Nodes()`forwardLink, Nodes()`backLink, pool`live
      ensures IsRing(after) && IsRemoved(ring, at, after) && Members(after) == Nodes() - {adjacent}
      ensures pool.live == old(pool.live) - {adjacent}
    {
      hide Joined;
      var next;
      next, after := RemoveEntryList(adjacent, ring, at);
      RemovedMembers(ring, at, after);
      pool.FreePool(adjacent);
    }

    /** The end of CoreMergeGcdMapEntry: link takes over the range of adjacent, which is unlinked and freed. */
    method Absorb(pool: Pool, link: Node<Record>, adjacent: Node<Record>, forward: bool, ghost k: nat, ghost at: nat)
      requires Linked() && 0 < k < |ring| && ring[k] == link && 0 < at < |ring| && ring[at] == adjacent
      requires at == (if forward then k + 1 else k - 1) && adjacent in pool.live
      requires link.data.signed && adjacent.data.signed && link.data.payload == adjacent.data.payload
      modifies this`ring, this`records, Nodes()`forwardLink, Nodes()`backLink, link`data, pool`live
      ensures Linked() && pool.live == old(pool.live) - {adjacent} && Owned() == old(Owned()) - {adjacent}
      ensures IsJoined(old(records), if forward then k - 1 else k - 2, records) && IsRemoved(old(ring), at, ring)
    {
      hide IsRing, Joined;
      OnlyThere(ring, k);
      if forward {
        link.data := link.data.(end := adjacent.data.end);
      } else {
        link.data := link.data.(base := adjacent.data.base);
      }
      ghost var after := Unlink(pool, adjacent, at);
      ghost var joined := Joining(records, if forward then k - 1 else k - 2);
      ring, records := after, joined;
    }

    /** Merges link with the entry after it (forward) or before it, unless that is the list head or differs.
        k is the position of link. */
    method MergeGcdMapEntry(pool: Pool, link: Node<Record>, forward: bool, ghost k: nat) returns (status: Status)
      requires Linked() && 0 < k < |ring| && ring[k] == link && Owned() <= pool.live
      requires forall i :: 0 <= i < |records| ==> records[i].signed
      modifies this`ring, this`records, Nodes()`forwardLink, Nodes()`backLink, link`data, pool`live
      ensures Linked() && Owned() <= pool.live && Owned() <= old(Owned())
      ensures pool.live - Owned() == old(pool.live) - old(Owned())
      ensures var j := if forward then k - 1 else k - 2;
              if 0 <= j && j + 1 < |old(records)| && !Differ(old(records), j)
              then IsJoined(old(records), j, records) && IsRemoved(old(ring), if forward then k + 1 else k - 1, ring)
              else records == old(records) && ring == old(ring)
    {
      hide IsJoined, IsRing;
      NeighboursOf(ring, k);
      var adjacent := if forward then link.forwardLink else link.backLink;
      ghost var at := if forward then Next(k, |ring|) else Previous(k, |ring|);
      if adjacent == head {
        SamePosition(ring, at, 0);
        return Success;
      }
      assert at != 0 && adjacent in Owned();
      var p, q := link.data.payload, adjacent.data.payload;
      if p.capabilities != q.capabilities {
        return Unsupported;
      }
      if p.attributes != q.attributes {
        return Unsupported;
      }
      if p.memoryType != q.memoryType {
        return Unsupported;
      }
      if p.ioType != q.ioType {
        return Unsupported;
      }
      if p.imageHandle != q.imageHandle {
        return Unsupported;
      }
      if p.deviceHandle != q.deviceHandle {
        return Unsupported;
      }
      assert records[k - 1].signed && records[at - 1].signed;
      Absorb(pool, link, adjacent, forward, k, at);
      return Success;
    }

    /** Frees the spare entries that were not put into the ring. */
    method FreeSpares(pool: Pool, top: Node<Record>, bottom: Node<Record>)
      requires Spare(top, bottom) && Owned() + {top, bottom} <= pool.live
      modifies pool`live
      ensures Owned() <= pool.live && pool.live - Owned() == old(pool.live) - Owned() - {top, bottom}
    {
      if !top.data.signed {
        pool.FreePool(top);
      }
      if !bottom.data.signed {
        pool.FreePool(bottom);
      }
    }

    /** Frees the spare entries that were not needed, and merges the records from startLink to endLink with
        their neighbours.  The two links stay in the ring throughout. */
    method CleanupGcdMapEntry(pool: Pool, top: Node<Record>, bottom: Node<Record>, startLink: Node<Record>,
                              endLink: Node<Record>, ghost was: seq<Record>, ghost op: Operation, ghost s: nat,
                              ghost e: nat, ghost low: int, ghost high: int)
      requires Linked() && s <= e < |records| && ring[s + 1] == startLink && ring[e + 1] == endLink
      requires Cleaning(was, records, op, s, e, low, high, limit)
      requires Spare(top, bottom) && Owned() + {top, bottom} <= pool.live
      modifies this`ring, this`records, Nodes()`forwardLink, Nodes()`backLink, Nodes()`data, pool`live
      ensures Linked() && WellFormed(records, limit) && Shows(records, was, op, low, high)
      ensures Owned() <= pool.live && Owned() <= old(Owned())
      ensures pool.live - Owned() == old(pool.live) - old(Owned()) - {top, bottom}
    {
      hide IsRing, Cleaning, WellFormed, Shows, IsJoined, Members, Spare;
      FreeSpares(pool, top, bottom);
      ghost var i: nat, e': nat := s, e;
      var link := startLink;
      InRing(ring, 0);
      assert old(Nodes()) == old(Owned()) + {head};
      NeighboursOf(ring, e' + 1);
      while link != endLink.forwardLink
        invariant Linked() && i <= e' + 1 <= |records| && ring[e' + 1] == endLink
        invariant link == ring[Next(i, |ring|)] && endLink.forwardLink == ring[Next(e' + 1, |ring|)]
        invariant Cleaning(was, records, op, i, e', low, high, limit)
        invariant Owned() <= pool.live && Owned() <= old(Owned())
        invariant pool.live - Owned() == old(pool.live) - old(Owned()) - {top, bottom}
        decreases e' + 1 - i
      {
        assert Nodes() <= Owned() + {head};
        link, i, e' := CleanupStep(pool, link, endLink, was, op, i, e', low, high);
      }
      assert i == e' + 1 by {
        SamePosition(ring, Next(i, |ring|), Next(e' + 1, |ring|));
      }
      InRing(ring, e' + 1);
      assert Nodes() <= Owned() + {head};
      CleanupLast(pool, endLink, was, op, e', low, high);
    }

    /** The merge after the cleanup loop, with the entry after endLink. */
    method CleanupLast(pool: Pool, endLink: Node<Record>,
                       ghost was: seq<Record>, ghost op: Operation, ghost e: nat, ghost low: int, ghost high: int)
      requires Linked() && e < |records| && ring[e + 1] == endLink
      requires Cleaning(was, records, op, e + 1, e, low, high, limit)
      requires Owned() <= pool.live
      modifies this`ring, this`records, Nodes()`forwardLink, Nodes()`backLink, endLink`data, pool`live
      ensures Linked() && WellFormed(records, limit) && Shows(records, was, op, low, high)
      ensures Owned() <= pool.live && Owned() <= old(Owned())
      ensures pool.live - Owned() == old(pool.live) - old(Owned())
    {
      hide IsRing, Cleaning, IsJoined, Members, Differ, WellFormed, Shows;
      CleaningSigned(was, records, op, e + 1, e, low, high, limit);
      ghost var es := records;
      var _ := MergeGcdMapEntry(pool, endLink, true, e + 1);
      CleaningEnds(was, es, op, e, low, high, limit, records);
    }

    /** One turn of the cleanup loop and its step to the next link. */
    method CleanupStep(pool: Pool, link: Node<Record>, endLink: Node<Record>, ghost was: seq<Record>,
                       ghost op: Operation, ghost i: nat, ghost e: nat, ghost low: int, ghost high: int)
      returns (next: Node<Record>, ghost i': nat, ghost e': nat)
      requires Linked() && i <= e < |records| && ring[i + 1] == link && ring[e + 1] == endLink
      requires Cleaning(was, records, op, i, e, low, high, limit)
      requires Owned() <= pool.live
      modifies this`ring, this`records, Nodes()`forwardLink, Nodes()`backLink, Nodes()`data, pool`live
      ensures Linked() && i' <= e' + 1 <= |records| && ring[e' + 1] == endLink
      ensures next == ring[Next(i', |ring|)] && endLink.forwardLink == ring[Next(e' + 1, |ring|)]
      ensures Cleaning(was, records, op, i', e', low, high, limit) && e' + 1 - i' == e - i
      ensures Owned() <= pool.live && Owned() <= old(Owned())
      ensures pool.live - Owned() == old(pool.live) - old(Owned())
    {
      hide IsRing, Cleaning, IsJoined, Members, Differ;
      CleaningSigned(was, records, op, i, e, low, high, limit);
      InRing(ring, i + 1);
      ghost var es := records;
      var _ := MergeGcdMapEntry(pool, link, false, i + 1);
      if 0 < i && !Differ(es, i - 1) {
        CleaningMerges(was, es, op, i, e, low, high, limit, records);
        i', e' := i, e - 1;
      } else {
        CleaningPasses(was, es, op, i, e, low, high, limit);
        i', e' := i + 1, e;
      }
      NeighboursOf(ring, i');
      NeighboursOf(ring, e' + 1);
      next := link.forwardLink;
    }

    /** The first and the last entry of a range, in one pass over the ring. */
    method SearchGcdMapEntry(base: int, length: int)
      returns (status: Status, startLink: Node?<Record>, endLink: Node?<Record>, ghost s: nat, ghost e: nat)
      requires Valid() && 0 <= base < TWO_TO_64 && 0 <= length < TWO_TO_64
      ensures status == if length == 0 then InvalidParameter
                        else if Found(records, base, length, limit) then Success else NotFound
      ensures status == Success ==>
                && s <= e < |records| && startLink == ring[s + 1] && endLink == ring[e + 1]
                && startLink != null && endLink != null
                && Holds(records[s], base) && Holds(records[e], LastAddress(base, length))
    {
      hide IsRing, Found, Tiles, Coarsest, CpuArchFree;
      startLink, endLink, s, e := null, null, 0, 0;
      if length == 0 {
        return InvalidParameter, null, null, 0, 0;
      }
      var last := LastAddress(base, length);
      NeighboursOf(ring, 0);
      var link := head.forwardLink;
      while link != head
        invariant e <= |records| && link == ring[Next(e, |ring|)]
        invariant startLink == null ==> forall j :: 0 <= j < e ==> !Holds(records[j], base)
        invariant startLink != null ==> s < e && startLink == ring[s + 1] && Holds(records[s], base)
        invariant startLink != null ==> forall j :: s <= j < e ==> !Holds(records[j], last)
        decreases |records| - e
      {
        assert records[e] == link.data;
        if link.data.base <= base <= link.data.end {
          if startLink != null {
            OneHolder(records, 0, limit, s, e, base);
          }
          startLink, s := link, e;
        }
        if startLink != null && link.data.base <= last <= link.data.end {
          FoundByHolders(records, base, length, limit, s, e);
          return Success, startLink, link, s, e;
        }
        NeighboursOf(ring, e + 1);
        link := link.forwardLink;
        e := e + 1;
      }
      SamePosition(ring, Next(e, |ring|), 0);
      NothingFound(records, base, length, limit, s, startLink != null);
      return NotFound, null, null, 0, 0;
    }

    /** The first loop of CoreConvertSpace: the status of the first entry that does not pass the check. */
    method CheckEntries(op: Operation, base: int, length: int, startLink: Node<Record>, endLink: Node<Record>,
                        ghost s: nat, ghost e: nat)
      returns (status: Status)
      requires Valid() && 0 < length
      requires s <= e < |records| && ring[s + 1] == startLink && ring[e + 1] == endLink
      requires Holds(records[s], base) && Holds(records[e], base + length - 1)
      ensures status == CheckRange(records, op, base, length, base, length)
    {
      hide IsRing, Coarsest, CpuArchFree, Passed, Tiles, Check, CheckRange;
      NeighboursOf(ring, e + 1);
      ghost var i := s;
      PassedNone(records, op, base, length, records[s].base);
      var link := startLink;
      while link != endLink.forwardLink
        invariant s <= i <= e + 1 && link == ring[Next(i, |ring|)]
        invariant Passed(records, op, base, length, if i <= e then records[i].base else base + length)
        decreases e + 1 - i
      {
        assert records[i] == link.data;
        Between(records, limit, s, i, e, base, base + length - 1);
        status := Check(op, link.data.payload, base, length);
        if status != Success {
          RecordFails(records, op, base, length, limit, i);
          return;
        }
        NextBase(records, limit, i);
        RecordPasses(records, op, base, length, limit, i, records[i].base,
            if i < e then records[i + 1].base else base + length);
        NeighboursOf(ring, i + 1);
        link := link.forwardLink;
        i := i + 1;
      }
      SamePosition(ring, Next(i, |ring|), Next(e + 1, |ring|));
      AllPassed(records, op, base, length);
      return Success;
    }

    /** What CoreConvertSpace and CoreAllocateSpace do once they know the range: convert and clean up. */
    method Rewrite(pool: Pool, op: Operation, base: int, length: int, startLink: Node<Record>, endLink: Node<Record>,
                   top: Node<Record>, bottom: Node<Record>, ghost s: nat, ghost e: nat)
      requires Valid() && CpuArchFreeOperation(op) && 0 < length
      requires s <= e < |records| && ring[s + 1] == startLink && ring[e + 1] == endLink
      requires Holds(records[s], base) && Holds(records[e], base + length - 1)
      requires Spare(top, bottom) && top !in Owned() && bottom !in Owned()
      requires Owned() + {top, bottom} <= pool.live
      modifies this`ring, this`records, Nodes(), top, bottom, pool`live
      ensures Valid() && Rewritten(old(records), op, base, length, limit, records)
      ensures Owned() <= pool.live && Owned() <= old(Owned()) + {top, bottom}
      ensures pool.live - Owned() == old(pool.live) - old(Owned()) - {top, bottom}
    {
      hide IsRing, WellFormed, Cleaning, Holds, Shows, Members;
      ghost var was := records;
      InRing(ring, 0);
      assert old(Nodes()) == old(Owned()) + {head};
      ghost var s', e' := ConvertEntries(op, base, length, startLink, endLink, top, bottom, s, e);
      assert Nodes() <= Owned() + {head};
      CleanupGcdMapEntry(pool, top, bottom, startLink, endLink, was, op, s', e', base, base + length);
      RewrittenByShows(was, records, op, base, length, limit);
    }

    /** CoreConvertSpace.  A range that wraps around 2^64 is refused as long as the search does not find it. */
    method ConvertSpace(pool: Pool, op: Operation, base: int, length: int) returns (status: Status)
      requires Valid() && Owned() <= pool.live && !op.SetOwner?
      requires 0 <= base < TWO_TO_64 && 0 <= length < TWO_TO_64
      requires HarmlessRange(records, base, length, limit)
      modifies this`ring, this`records, Nodes(), pool
      ensures Valid()
      ensures Converted(old(records), op, base, length, limit, PairGranted(old(pool.supply)), status, records)
      ensures status != Success ==> ring == old(ring)
      ensures pool.supply == SupplyLeft(old(pool.supply), status)
      ensures Owned() <= pool.live && pool.live - Owned() == old(pool.live) - old(Owned())
      ensures forall x :: x in Owned() ==> x in old(Owned()) || fresh(x)
    {
      hide IsRing, Found, WellFormed, CheckRange, Rewritten, Members, Holds, AsksForCpu, Map.Linked;
      var startLink, endLink;
      ghost var s, e;
      status, startLink, endLink, s, e := SearchGcdMapEntry(base, length);
      if status == InvalidParameter {
        return;
      }
      if status != Success {
        return Unsupported;
      }
      status := CheckEntries(op, base, length, startLink, endLink, s, e);
      if status != Success {
        return;
      }
      status := ConvertFound(pool, op, base, length, startLink, endLink, s, e);
    }

    /** The rest of CoreConvertSpace, once the entries of the range are found and have passed the check. */
    method ConvertFound(pool: Pool, op: Operation, base: int, length: int, startLink: Node<Record>,
                        endLink: Node<Record>, ghost s: nat, ghost e: nat) returns (status: Status)
      requires Valid() && Owned() <= pool.live && !op.SetOwner? && 0 < length
      requires s <= e < |records| && ring[s + 1] == startLink && ring[e + 1] == endLink
      requires Holds(records[s], base) && Holds(records[e], base + length - 1)
      modifies this`ring, this`records, Nodes(), pool
      ensures Valid()
      ensures status == if !PairGranted(old(pool.supply)) then OutOfResources
                        else if AsksForCpu(op) then NotAvailableYet else Success
      ensures if status == Success then Rewritten(old(records), op, base, length, limit, records)
              else records == old(records) && ring == old(ring)
      ensures pool.supply == AfterPair(old(pool.supply))
      ensures Owned() <= pool.live && pool.live - Owned() == old(pool.live) - old(Owned())
      ensures forall x :: x in Owned() ==> x in old(Owned()) || fresh(x)
    {
      hide IsRing, WellFormed, Rewritten, Holds, AsksForCpu, CpuArchFreeOperation;
      var top, bottom;
      status, top, bottom := pool.AllocateGcdMapEntry();
      if status != Success {
        return OutOfResources;
      }
      if AsksForCpu(op) {
        // gCpu is NULL: there is no CPU protocol on the host
        pool.FreePool(top);
        pool.FreePool(bottom);
        return NotAvailableYet;
      }
      AllowedOperation(op);
      Rewrite(pool, op, base, length, startLink, endLink, top, bottom, s, e);
    }

    /** The loops of CoreAllocateSpace that run CoreAllocateSpaceCheckEntry over the entries of a range:
        the first entry that does not suit, if there is one. */
    method FirstUnsuitable(wanted: Wanted, startLink: Node<Record>, endLink: Node<Record>, ghost s: nat, ghost e: nat)
      returns (blocker: Node?<Record>, ghost b: nat)
      requires Linked() && s <= e < |records| && ring[s + 1] == startLink && ring[e + 1] == endLink
      ensures blocker == null ==> forall k :: s <= k <= e ==> Suits(wanted, records[k].payload)
      ensures blocker != null ==> s <= b <= e && blocker == ring[b + 1] && !Suits(wanted, records[b].payload)
    {
      hide IsRing, AllocationCheck;
      NeighboursOf(ring, e + 1);
      b := s;
      var link := startLink;
      while link != endLink.forwardLink
        invariant s <= b <= e + 1 && link == ring[Next(b, |ring|)]
        invariant forall k :: s <= k < b ==> Suits(wanted, records[k].payload)
        decreases e + 1 - b
      {
        assert records[b] == link.data;
        if AllocationCheck(wanted, link.data.payload) != Success {
          return link, b;
        }
        NeighboursOf(ring, b + 1);
        link := link.forwardLink;
        b := b + 1;
      }
      SamePosition(ring, Next(b, |ring|), Next(e + 1, |ring|));
      return null, b;
    }

    /** The bottom-up search: tries one address in each record, and goes on from the record that blocks it. */
    method FindBottomUp(wanted: Wanted, size: int, length: int, max: int)
      returns (found: bool, base: int, startLink: Node?<Record>, endLink: Node?<Record>, ghost s: nat, ghost e: nat)
      requires Valid() && 0 < size && TWO_TO_63 % size == 0 && 0 < length <= TWO_TO_63
      ensures found ==> Lowest(records, wanted, size, length, max, limit, base)
      ensures found ==>
                && s <= e < |records| && startLink == ring[s + 1] && endLink == ring[e + 1]
                && Holds(records[s], base) && Holds(records[e], base + length - 1)
      ensures !found ==> forall x :: !Candidate(records, wanted, size, length, max, limit, x)
    {
      hide IsRing, Tiles, Coarsest, CpuArchFree, Found, AlignUp, Suits, NoneBelow, Candidate, Holds, LastAddress;
      found, base, startLink, endLink, s, e := false, 0, null, null, 0, 0;
      NeighboursOf(ring, 0);
      BottomUpStarts(records, wanted, size, length, max, limit);
      ghost var i: nat := 0;
      var link := head.forwardLink;
      while link != head
        invariant i <= |records| && link == ring[Next(i, |ring|)]
        invariant NoneBelow(records, wanted, size, length, max, limit, i)
        decreases |records| - i
      {
        var entry := link;
        assert records[i] == entry.data;
        NeighboursOf(ring, i + 1);
        link := link.forwardLink;
        if !Suits(wanted, entry.data.payload) {
          BottomUpSkips(records, wanted, size, length, max, limit, i);
          i := i + 1;
        } else {
          base := AlignUp(entry.data.base, size);
          BottomUpBound(records, wanted, size, length, max, limit, i);
          InSpace(records, limit, i);
          AlignUpIsLeast(entry.data.base, size);
          AlignUpBound(entry.data.base, size);
          FoundMeans(records, base, length, limit);
          if base + length - 1 > max {
            TooHigh(records, wanted, size, length, max, limit, base);
            return;
          }
          var status;
          status, startLink, endLink, s, e := SearchGcdMapEntry(base, length);
          if status != Success {
            TooHigh(records, wanted, size, length, max, limit, base);
            return;
          }
          ghost var b;
          var blocker;
          blocker, b := FirstUnsuitable(wanted, startLink, endLink, s, e);
          if blocker == null {
            LowestFound(records, wanted, size, length, max, limit, base, s, e);
            found := true;
            return;
          }
          BlockerAhead(records, limit, wanted, i, s, b, e, base, length);
          BottomUpJumps(records, wanted, size, length, max, limit, base, b);
          link, i := blocker, b;
        }
      }
      SamePosition(ring, Next(i, |ring|), 0);
      NothingLeft(records, wanted, size, length, max, limit);
    }

    /** The top-down search: tries the highest address of each record, and goes on from the record that blocks it. */
    method FindTopDown(wanted: Wanted, size: int, length: int, max: int)
      returns (found: bool, base: int, startLink: Node?<Record>, endLink: Node?<Record>, ghost s: nat, ghost e: nat)
      requires Valid() && 0 < size && 0 < length < TWO_TO_64
      ensures found ==> Highest(records, wanted, size, length, max, limit, base)
      ensures found ==>
                && s <= e < |records| && startLink == ring[s + 1] && endLink == ring[e + 1]
                && Holds(records[s], base) && Holds(records[e], base + length - 1)
      ensures !found ==> forall x :: !TopCandidate(records, wanted, size, length, max, limit, x)
    {
      hide IsRing, Tiles, Coarsest, CpuArchFree, Found, AlignDown, Suits, NoneAbove, TopCandidate, Holds, LastAddress;
      found, base, startLink, endLink, s, e := false, 0, null, null, 0, 0;
      NeighboursOf(ring, 0);
      TopDownStarts(records, wanted, size, length, max, limit);
      ghost var i := |records| - 1;
      var link := head.backLink;
      while link != head
        invariant -1 <= i < |records| && link == ring[i + 1]
        invariant NoneAbove(records, wanted, size, length, max, limit, i)
        decreases i
      {
        var entry := link;
        SamePosition(ring, 0, 0);
        assert records[i] == entry.data;
        NeighboursOf(ring, i + 1);
        link := link.backLink;
        InSpace(records, limit, i);
        if !Suits(wanted, entry.data.payload) || GuardSum(entry.data.base, length) > max {
          TopDownPasses(records, wanted, size, length, max, limit, i);
          i := i - 1;
        } else {
          if length > entry.data.end + 1 {
            TopDownTooLong(records, wanted, size, length, max, limit, i);
            NothingAbove(records, wanted, size, length, max, limit);
            return;
          }
          base := AlignDown((if entry.data.end > max then max else entry.data.end) + 1 - length, size);
          TopDownBound(records, wanted, size, length, max, limit, i);
          TopBaseBound(records, size, length, max, limit, i);
          FoundMeans(records, base, length, limit);
          var status;
          status, startLink, endLink, s, e := SearchGcdMapEntry(base, length);
          assert status == Success;
          ghost var b;
          var blocker;
          blocker, b := FirstUnsuitable(wanted, startLink, endLink, s, e);
          if blocker == null {
            HighestFound(records, wanted, size, length, max, limit, i, base, s, e);
            found := true;
            return;
          }
          BlockerBelow(records, limit, wanted, i, s, b, e, base, length);
          TopDownJumps(records, wanted, size, length, max, limit, base, b);
          link, i := blocker, b;
        }
      }
      SamePosition(ring, i + 1, 0);
      NothingAbove(records, wanted, size, length, max, limit);
    }

    /** The search of CoreAllocateSpace, in whichever of its three forms the request asks for. */
    method FindSpace(r: Request, base: int)
      returns (found: bool, at: int, startLink: Node?<Record>, endLink: Node?<Record>, ghost s: nat, ghost e: nat)
      requires Valid() && ParameterStatus(r) == Success && 0 <= base < TWO_TO_64 && 0 < r.length < TWO_TO_64
      requires r.allocateType == AT_ADDRESS ==> HarmlessRange(records, base, r.length, limit)
      requires r.allocateType != AT_ADDRESS && !r.TopDown() ==> r.length <= TWO_TO_63
      ensures found ==> Choice(records, r, base, limit, at)
      ensures found ==>
                && s <= e < |records| && startLink == ring[s + 1] && endLink == ring[e + 1]
                && Holds(records[s], at) && Holds(records[e], at + r.length - 1)
      ensures !found ==> forall x :: !Choice(records, r, base, limit, x)
    {
      hide IsRing, Tiles, Coarsest, CpuArchFree, Found, Suits, Holds, LastAddress, Lowest, Highest, Candidate,
          TopCandidate, Fits;
      found, at, startLink, endLink, s, e := false, base, null, null, 0, 0;
      var size := Pow2(r.alignment);
      SizeDivides(r.alignment);
      if r.allocateType == AT_ADDRESS {
        if base % size != 0 {
          NoChoiceAt(records, r, base, limit);
          return;
        }
        var status;
        status, startLink, endLink, s, e := SearchGcdMapEntry(base, r.length);
        if status != Success {
          NotFoundDoesNotFit(records, r.wanted, base, r.length, limit);
          NoChoiceAt(records, r, base, limit);
          return;
        }
        FoundMeans(records, base, r.length, limit);
        var blocker;
        ghost var b;
        blocker, b := FirstUnsuitable(r.wanted, startLink, endLink, s, e);
        if blocker != null {
          Between(records, limit, s, b, e, base, base + r.length - 1);
          BlockedBy(records, r.wanted, base, r.length, limit, b);
          NoChoiceAt(records, r, base, limit);
          return;
        }
        FitsByRecords(records, r.wanted, base, r.length, limit, s, e);
        found := true;
      } else {
        var bounded := r.allocateType == MAX_ADDRESS_SEARCH_BOTTOM_UP || r.allocateType == MAX_ADDRESS_SEARCH_TOP_DOWN;
        var max := if bounded then base else LastEnd();
        assert max == r.Max(base, limit);
        if r.TopDown() {
          found, at, startLink, endLink, s, e := FindTopDown(r.wanted, size, r.length, max);
          if !found {
            NoHighest(records, r.wanted, size, r.length, max, limit);
          }
        } else {
          found, at, startLink, endLink, s, e := FindBottomUp(r.wanted, size, r.length, max);
          if !found {
            NoLowest(records, r.wanted, size, r.length, max, limit);
          }
        }
      }
    }

    /** The end address of the last entry. */
    function LastEnd(): (end: int)
      requires Valid()
      reads this, ring
      ensures end == limit - 1
    {
      NeighboursOf(ring, 0);
      assert head.backLink == ring[|ring| - 1] && records[|records| - 1] == ring[|ring| - 1].data;
      head.backLink.data.end
    }

    /** CoreAllocateSpace.  A range that wraps around 2^64 is refused as long as the search does not find it;
        base is the address passed in and at the one passed out. */
    method AllocateSpace(pool: Pool, r: Request, base: int) returns (status: Status, at: int)
      requires Valid() && Owned() <= pool.live
      requires 0 <= base < TWO_TO_64 && 0 <= r.length < TWO_TO_64
      requires r.allocateType == AT_ADDRESS ==> HarmlessRange(records, base, r.length, limit)
      requires r.allocateType != AT_ADDRESS && !r.TopDown() ==> r.length <= TWO_TO_63
      modifies this`ring, this`records, Nodes(), pool
      ensures Valid()
      ensures Allocated(old(records), r, base, limit, PairGranted(old(pool.supply)), status, at, records)
      ensures status != Success ==> ring == old(ring)
      ensures pool.supply == SupplyLeft(old(pool.supply), status)
      ensures Owned() <= pool.live && pool.live - Owned() == old(pool.live) - old(Owned())
      ensures forall x :: x in Owned() ==> x in old(Owned()) || fresh(x)
    {
      hide IsRing, Joined, Tiles, Coarsest, CpuArchFree, Choice, Rewritten, Members, Found;
      status, at := ParameterStatus(r), base;
      if status != Success {
        return;
      }
      var found, startLink, endLink;
      ghost var s, e;
      found, at, startLink, endLink, s, e := FindSpace(r, base);
      if !found {
        return NotFound, at;
      }
      var top, bottom;
      status, top, bottom := pool.AllocateGcdMapEntry();
      if status != Success {
        return OutOfResources, at;
      }
      Rewrite(pool, r.Change(), at, r.length, startLink, endLink, top, bottom, s, e);
    }

    /** CoreGetMemorySpaceDescriptor. */
    method GetMemorySpaceDescriptor(base: int) returns (status: Status, descriptor: Descriptor)
      requires Valid() && 0 <= base < TWO_TO_64
      ensures status == if base < limit then Success else NotFound
      ensures status == Success ==>
                && descriptor.base <= base < descriptor.base + descriptor.length
                && Describes(descriptor, At(records, base))
                && (forall a :: descriptor.base <= a < descriptor.base + descriptor.length ==>
                    At(records, a) == At(records, base))
    {
      descriptor := Describe(ZERO_RECORD);
      var startLink, endLink;
      ghost var s, e;
      status, startLink, endLink, s, e := SearchGcdMapEntry(base, 1);
      FoundMeans(records, base, 1, limit);
      if status == Success {
        assert records[s] == startLink.data;
        descriptor := Describe(startLink.data);
        AtHolder(records, 0, limit, s, base);
        forall a | records[s].base <= a <= records[s].end ensures At(records, a) == At(records, base) {
          AtHolder(records, 0, limit, s, a);
        }
      }
    }

    method CountGcdMapEntry() returns (count: nat)
      requires Linked()
      ensures count == |records|
    {
      hide IsRing;
      NeighboursOf(ring, 0);
      count := 0;
      var link := head.forwardLink;
      while link != head
        invariant count <= |records| && link == ring[Next(count, |ring|)]
        decreases |records| - count
      {
        NeighboursOf(ring, count + 1);
        count := count + 1;
        link := link.forwardLink;
      }
      SamePosition(ring, Next(count, |ring|), 0);
    }

    /** The last loop of CoreGetMemorySpaceMap: one descriptor for each record. */
    method BuildDescriptors(descriptors: array<Descriptor>)
      requires Linked() && descriptors.Length == |records|
      modifies descriptors
      ensures Lists(descriptors[..], records)
    {
      hide IsRing;
      NeighboursOf(ring, 0);
      var i := 0;
      var link := head.forwardLink;
      while link != head
        invariant i <= |records| && link == ring[Next(i, |ring|)]
        invariant forall j :: 0 <= j < i ==> descriptors[j] == Describe(records[j])
        decreases |records| - i
      {
        assert records[i] == link.data;
        descriptors[i] := Describe(link.data);
        NeighboursOf(ring, i + 1);
        link := link.forwardLink;
        i := i + 1;
      }
      SamePosition(ring, Next(i, |ring|), 0);
    }

    /** CoreGetMemorySpaceMap: counts, allocates, and counts again until the count is the same. */
    method GetMemorySpaceMap(pool: Pool) returns (status: Status, descriptors: array?<Descriptor>)
      requires Valid()
      modifies pool`supply
      ensures status == if old(pool.Grants(1)) then Success else OutOfResources
      ensures pool.supply == AfterOne(old(pool.supply))
      ensures status == Success ==> descriptors != null && fresh(descriptors) && Lists(descriptors[..], records)
      ensures status == Success ==> TotalLength(descriptors[..]) == limit
    {
      hide IsRing;
      var number := 0;
      descriptors := null;
      while true
        modifies pool`supply
        invariant number == 0 ==> pool.supply == old(pool.supply)
        invariant number != 0 ==> number == |records| && old(pool.Grants(1))
        invariant number != 0 ==> pool.supply == AfterOne(old(pool.supply))
        invariant number != 0 ==> descriptors != null && fresh(descriptors) && descriptors.Length == number
        decreases number == 0
      {
        var count := CountGcdMapEntry();
        if count == number {
          break;
        }
        var granted := pool.AllocatePool();
        if !granted {
          return OutOfResources, null;
        }
        descriptors := new Descriptor[count](_ => Describe(ZERO_RECORD));
        number := count;
      }
      BuildDescriptors(descriptors);
      LengthsCoverSpace(descriptors[..], records, 0, limit);
      return Success, descriptors;
    }
  }
}
