/** What CoreConvertSpace and CoreAllocateSpace do to a map, stated address by address and without
    mention of splitting, merging or searching. */
module GcdOutcome {
  import opened GcdRecords
  import opened GcdRewrite

  // ----- the memory pool -----

  /** The next two requests are met. */
  predicate PairGranted(supply: seq<bool>) {
    |supply| >= 2 && supply[0] && supply[1]
  }

  function AfterOne(supply: seq<bool>): seq<bool> {
    if supply == [] then [] else supply[1..]
  }

  /** The answers left once two entries have been asked for; the second is not asked for when the first is refused. */
  function AfterPair(supply: seq<bool>): seq<bool> {
    if supply == [] then [] else if !supply[0] || |supply| == 1 then supply[1..] else supply[2..]
  }

  /** A call with this status got as far as asking for its two spare entries. */
  predicate Asked(status: Status) {
    status == Success || status == OutOfResources || status == NotAvailableYet
  }

  function SupplyLeft(supply: seq<bool>, status: Status): seq<bool> {
    if Asked(status) then AfterPair(supply) else supply
  }

  // ----- CoreConvertSpace -----

  /** The operation needs the CPU protocol, which the host does not have. */
  predicate AsksForCpu(op: Operation) {
    op.SetAttributes? && ConvertToCpuArchAttributes(op.attributes) != {}
  }

  /** The status of a conversion.  granted says whether the pool meets two more requests. */
  ghost function ConvertStatus(es: seq<Record>, op: Operation, base: int, length: nat, limit: int,
                               granted: bool): Status {
    if length == 0 then InvalidParameter
    else if !Found(es, base, length, limit) then Unsupported
    else if CheckRange(es, op, base, length, base, length) != Success
        then CheckRange(es, op, base, length, base, length)
    else if !granted then OutOfResources
    else if AsksForCpu(op) then NotAvailableYet
    else Success
  }

  /** fs is the coarsest list that says of each address what op on [base, base+length) makes of es. */
  ghost predicate Rewritten(es: seq<Record>, op: Operation, base: int, length: int, limit: int, fs: seq<Record>) {
    && WellFormed(fs, limit)
    && (forall a :: 0 <= a < limit ==> At(fs, a) == Painted(es, op, base, base + length, a))
  }

  /** A conversion with this status leaves es as it is, or rewrites it to fs. */
  ghost predicate Converted(es: seq<Record>, op: Operation, base: int, length: nat, limit: int, granted: bool,
                            status: Status, fs: seq<Record>)
  {
    && status == ConvertStatus(es, op, base, length, limit, granted)
    && (if status == Success then Rewritten(es, op, base, length, limit, fs) else fs == es)
  }

  // ----- the check of the covered records -----

  /** Every address below front has passed. */
  ghost predicate Passed(es: seq<Record>, op: Operation, base: int, length: int, front: int) {
    forall a :: base <= a < front ==> CheckAt(es, op, a, base, length) == Success
  }

  lemma RecordPasses(es: seq<Record>, op: Operation, base: int, length: int, limit: int, i: nat, front: int,
                     front': int)
    requires Tiles(es, 0, limit) && i < |es| && Passed(es, op, base, length, front)
    requires Check(op, es[i].payload, base, length) == Success
    requires es[i].base <= front && front' <= es[i].end + 1
    ensures Passed(es, op, base, length, front')
  {
    forall a | base <= a < front' ensures CheckAt(es, op, a, base, length) == Success {
      if front <= a {
        AtHolder(es, 0, limit, i, a);
      }
    }
  }

  lemma RecordFails(es: seq<Record>, op: Operation, base: int, length: nat, limit: int, i: nat)
    requires Tiles(es, 0, limit) && i < |es| && 0 < length && es[i].base < base + length && base <= es[i].end
    requires Passed(es, op, base, length, es[i].base)
    requires Check(op, es[i].payload, base, length) != Success
    ensures CheckRange(es, op, base, length, base, length) == Check(op, es[i].payload, base, length)
  {
    var a := if es[i].base < base then base else es[i].base;
    AtHolder(es, 0, limit, i, a);
    CheckRangeFails(es, op, base, length, base, length, a);
  }

  lemma PassedNone(es: seq<Record>, op: Operation, base: int, length: int, front: int)
    requires front <= base
    ensures Passed(es, op, base, length, front)
  {
  }

  lemma AllPassed(es: seq<Record>, op: Operation, base: int, length: nat)
    requires Passed(es, op, base, length, base + length)
    ensures CheckRange(es, op, base, length, base, length) == Success
  {
    CheckRangePasses(es, op, base, length, base, length);
  }

  lemma NextBase(es: seq<Record>, limit: int, i: nat)
    requires Tiles(es, 0, limit) && i < |es|
    ensures i + 1 < |es| ==> es[i + 1].base == es[i].end + 1
  {
  }

  lemma Between(es: seq<Record>, limit: int, s: nat, i: nat, e: nat, base: int, last: int)
    requires Tiles(es, 0, limit) && s <= i <= e < |es| && Holds(es[s], base) && Holds(es[e], last)
    ensures es[i].base <= last && base <= es[i].end
  {
    OrderedAll(es, 0, limit);
  }

  lemma RewrittenByShows(was: seq<Record>, es: seq<Record>, op: Operation, base: int, length: int, limit: int)
    requires WellFormed(es, limit) && Shows(es, was, op, base, base + length)
    ensures Rewritten(was, op, base, length, limit, es)
  {
    ShowsMeans(es, was, limit, op, base, base + length);
  }

  /** An operation that gets past the CPU protocol sets no CPU-arch attribute. */
  lemma AllowedOperation(op: Operation)
    requires !AsksForCpu(op)
    ensures CpuArchFreeOperation(op)
  {
    if op.SetAttributes? {
      NoCpuArchAttributes(op.attributes);
    }
  }
}
