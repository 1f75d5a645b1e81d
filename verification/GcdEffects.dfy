/** What the GCD calls do, field by field and number by number: which bits an add stores, who owns an allocated
    range, which base is chosen, and when a call is refused.  The conclusions here use the numbers of the interface and
    none of the functions by which the calls are specified. */
module GcdEffects {
  import opened GcdRecords
  import opened GcdRewrite
  import opened GcdOutcome
  import opened GcdFits
  import opened GcdSystemMemory
  import opened GcdRuns

  // ----- what a conversion stores -----

  /** A successful conversion of memory or I/O space whose range holds a. */
  ghost predicate Converts(s: State, ev: Event, t: State, limits: Limits, space: Space, a: int) {
    && limits.memory <= TWO_TO_63 && limits.io <= TWO_TO_63
    && Step(s, ev, t, limits) && ev.Convert? && ev.status == Success && ev.base <= a < ev.base + ev.length
    && if ev.op.AddIo? || ev.op.FreeIo? || ev.op.RemoveIo? then space.Io? else space.Memory?
  }

  lemma ConvertedAt(s: State, ev: Event, t: State, limits: Limits, space: Space, a: int)
    requires Converts(s, ev, t, limits, space, a)
    ensures 0 <= a < LimitOf(limits, space)
    ensures At(Records(t, space), a) == Apply(ev.op, At(Records(s, space), a))
  {
    hide WellFormed, At, CheckRange, Found, Apply;
    var es, fs, limit := Records(s, space), Records(t, space), LimitOf(limits, space);
    FoundMeans(es, ev.base, ev.length, limit);
    RewrittenAt(es, ev.op, ev.base, ev.length, limit, fs, a);
  }

  /** After an add each address of the range has the type asked for and exactly these capabilities: bit 63, the bits
      asked for, and bit 62 for memory-mapped I/O; nothing else about it has changed. */
  lemma AddStores(s: State, ev: Event, t: State, limits: Limits, a: int)
    requires Converts(s, ev, t, limits, Memory, a) && ev.op.AddMemory?
    ensures var p, q := At(s.memory, a), At(t.memory, a);
            && q == p.(memoryType := ev.op.memoryType, capabilities := q.capabilities)
            && 63 in q.capabilities
            && (62 in q.capabilities <==> 62 in ev.op.capabilities || ev.op.memoryType == 3)
            && (forall b :: b != 62 && b != 63 ==> (b in q.capabilities <==> b in ev.op.capabilities))
  {
    ConvertedAt(s, ev, t, limits, Memory, a);
  }

  /** What the other operations store in each address of the range, and that they store nothing else. */
  lemma OthersStore(s: State, ev: Event, t: State, limits: Limits, space: Space, a: int)
    requires Converts(s, ev, t, limits, space, a)
    ensures var p, q := At(Records(s, space), a), At(Records(t, space), a);
            && (ev.op.AddIo? ==> q == p.(ioType := ev.op.ioType))
            && (ev.op.FreeMemory? || ev.op.FreeIo? ==> q == p.(imageHandle := 0, deviceHandle := 0))
            && (ev.op.RemoveMemory? ==> q == p.(memoryType := 0, capabilities := {}))
            && (ev.op.RemoveIo? ==> q == p.(ioType := 0))
            && (ev.op.SetAttributes? ==> q == p.(attributes := ev.op.attributes))
            && (ev.op.SetCapabilities? ==> q == p.(capabilities := ev.op.capabilities))
  {
    ConvertedAt(s, ev, t, limits, space, a);
  }

  /** Every other address is as it was, and so is every address of the other space. */
  lemma NothingElseChanges(s: State, ev: Event, t: State, limits: Limits, space: Space, a: int)
    requires limits.memory <= TWO_TO_63 && limits.io <= TWO_TO_63
    requires Step(s, ev, t, limits) && ev.Convert? && 0 <= a < LimitOf(limits, space)
    requires !Converts(s, ev, t, limits, space, a)
    ensures At(Records(t, space), a) == At(Records(s, space), a)
  {
    hide WellFormed, At, CheckRange, Found, Apply, HarmlessRange;
    var es, fs, limit := Records(s, space), Records(t, space), LimitOf(limits, space);
    if ev.status == Success && (ev.op.AddIo? || ev.op.FreeIo? || ev.op.RemoveIo? <==> space.Io?) {
      RewrittenAt(es, ev.op, ev.base, ev.length, limit, fs, a);
    }
  }

  // ----- when a conversion is refused -----

  /** Why an address stands in the way of an operation, status by status. */
  ghost predicate Refuses(op: Operation, p: Payload, base: int, length: int, status: Status) {
    match status
    case AccessDenied =>
      // something is there already, or somebody owns what is there
      || (op.AddMemory? && (p.memoryType != 0 || p.imageHandle != 0))
      || (op.AddIo? && (p.ioType != 0 || p.imageHandle != 0))
      || (op.RemoveMemory? && p.memoryType != 0 && p.imageHandle != 0)
      || (op.RemoveIo? && p.ioType != 0 && p.imageHandle != 0)
    case NotFound =>
      // nothing is there to be removed, or nobody to free it from
      || (op.RemoveMemory? && p.memoryType == 0)
      || (op.RemoveIo? && p.ioType == 0)
      || ((op.FreeMemory? || op.FreeIo?) && p.imageHandle == 0)
    case InvalidParameter =>
      Misaligned(op, base, length)
    case Unsupported =>
      // an attribute is no capability
      && !Misaligned(op, base, length)
      && ((op.SetAttributes? && Exceeds(op.attributes, p.capabilities))
          || (op.SetCapabilities? && Exceeds(p.attributes, op.capabilities)))
    case _ => false
  }

  ghost predicate Exceeds(attributes: Mask, capabilities: Mask) {
    exists b :: b in attributes && b !in capabilities
  }

  /** Capabilities, and the runtime attribute (bit 63), are for whole pages. */
  predicate Misaligned(op: Operation, base: int, length: int) {
    (op.SetCapabilities? || (op.SetAttributes? && 63 in op.attributes)) && (base % 4096 != 0 || length % 4096 != 0)
  }

  /** The attributes only the CPU protocol can set. */
  predicate NeedsCpu(op: Operation) {
    op.SetAttributes? && exists b :: b in op.attributes && b in {0, 1, 2, 3, 4, 12, 13, 14, 17}
  }

  lemma RefusesMeans(op: Operation, p: Payload, base: int, length: int, status: Status)
    requires !op.SetOwner?
    ensures Refuses(op, p, base, length, status) <==> status != Success && Check(op, p, base, length) == status
  {
    hide Exceeds;
    if op.SetAttributes? {
      Inclusion(op.attributes, p.capabilities);
      RuntimeBit(op.attributes);
    }
    if op.SetCapabilities? {
      Inclusion(p.attributes, op.capabilities);
    }
  }

  lemma Inclusion(attributes: Mask, capabilities: Mask)
    ensures capabilities * attributes == attributes <==> !Exceeds(attributes, capabilities)
  {
    if b :| b in attributes && b !in capabilities {
      assert b !in capabilities * attributes;
    } else {
      assert capabilities * attributes == attributes;
    }
  }

  lemma RuntimeBit(attributes: Mask)
    ensures attributes * MEMORY_RUNTIME != {} <==> 63 in attributes
  {
    if 63 in attributes {
      assert 63 in attributes * MEMORY_RUNTIME;
    }
  }

  lemma CpuMeans(op: Operation)
    ensures AsksForCpu(op) <==> NeedsCpu(op)
  {
    if op.SetAttributes? {
      NoCpuArchAttributes(op.attributes);
      if b :| b in op.attributes && b in {0, 1, 2, 3, 4, 12, 13, 14, 17} {
        assert b in op.attributes * CPU_ARCH_ATTRIBUTES;
      } else {
        assert op.attributes * CPU_ARCH_ATTRIBUTES == {};
      }
    }
  }

  /** No address of the range stands in the way. */
  ghost predicate Clear(es: seq<Record>, op: Operation, from: int, to: int, base: int, length: int) {
    forall a, status :: from <= a < to ==> !Refuses(op, At(es, a), base, length, status)
  }

  lemma ClearPasses(es: seq<Record>, op: Operation, from: int, to: int, base: int, length: int)
    requires !op.SetOwner?
    ensures Clear(es, op, from, to, base, length)
            <==> forall a :: from <= a < to ==> CheckAt(es, op, a, base, length) == Success
  {
    hide Refuses, Check, At;
    forall a, status
      ensures Refuses(op, At(es, a), base, length, status)
              <==> status != Success && CheckAt(es, op, a, base, length) == status
    {
      RefusesMeans(op, At(es, a), base, length, status);
    }
    if Clear(es, op, from, to, base, length) {
      forall a | from <= a < to ensures CheckAt(es, op, a, base, length) == Success {
        assert !Refuses(op, At(es, a), base, length, CheckAt(es, op, a, base, length));
      }
    }
  }

  /** A range that does not wrap is converted exactly when it lies in the space, no address of it stands in the way,
      the pool gives both entries and the CPU protocol is not needed; and else this is the status. */
  lemma ConversionStatus(es: seq<Record>, op: Operation, base: int, length: nat, limit: int, granted: bool,
                         status: Status, fs: seq<Record>)
    requires Converted(es, op, base, length, limit, granted, status, fs) && !op.SetOwner? && base + length <= TWO_TO_64
    ensures length == 0 ==> status == InvalidParameter
    ensures length > 0 && base + length > limit ==> status == Unsupported
    ensures length > 0 && base + length <= limit && Clear(es, op, base, base + length, base, length) ==>
              status == (if !granted then OutOfResources else if NeedsCpu(op) then NotAvailableYet else Success)
    ensures status == Success ==> length > 0 && base + length <= limit && granted && !NeedsCpu(op)
                                  && Clear(es, op, base, base + length, base, length)
  {
    hide Check, At, Refuses, NeedsCpu, AsksForCpu, Rewritten;
    ClearPasses(es, op, base, base + length, base, length);
    CheckRangePasses(es, op, base, length, base, length);
    CpuMeans(op);
  }

  /** The lowest address that stands in the way decides the status. */
  lemma RefusalStatus(es: seq<Record>, op: Operation, base: int, length: nat, limit: int, granted: bool,
                      status: Status, fs: seq<Record>, a: int, why: Status)
    requires Converted(es, op, base, length, limit, granted, status, fs) && !op.SetOwner? && base + length <= limit
    requires limit <= TWO_TO_64 && base <= a < base + length
    requires Clear(es, op, base, a, base, length) && Refuses(op, At(es, a), base, length, why)
    ensures status == why && fs == es
  {
    hide Check, At, Refuses, AsksForCpu, Rewritten;
    ClearPasses(es, op, base, a, base, length);
    RefusesMeans(op, At(es, a), base, length, why);
    CheckRangeFails(es, op, base, length, base, length, a);
  }

  // ----- which range an allocation takes -----

  /** The range lies in the space, and each of its addresses is of the type wanted and has no owner. */
  ghost predicate Untaken(es: seq<Record>, wanted: Wanted, base: int, length: int, limit: int) {
    && 0 <= base && base + length <= limit
    && forall a :: base <= a < base + length ==>
         && At(es, a).imageHandle == 0
         && (if wanted.WantedMemory? then At(es, a).memoryType == wanted.memoryType
             else At(es, a).ioType == wanted.ioType)
  }

  /** The record that holds the last address of the range, plus the length, does not exceed the bound. */
  ghost predicate PassesGuard(es: seq<Record>, base: int, length: int, bound: int) {
    exists k :: 0 <= k < |es| && es[k].base <= base + length - 1 <= es[k].end && es[k].base + length <= bound
  }

  /** A base the request may get, by the number of its type: 0 and 1 search upward, 3 and 4 downward, 1 and 4 with
      the address passed in as the bound, and 2 takes just that address. */
  ghost predicate Eligible(es: seq<Record>, r: Request, base: int, limit: int, x: int) {
    && Untaken(es, r.wanted, x, r.length, limit) && x % Pow2(r.alignment) == 0
    && (r.allocateType == 1 || r.allocateType == 4 ==> x + r.length - 1 <= base)
    && (r.allocateType == 2 ==> x == base)
    && (r.allocateType == 3 ==> PassesGuard(es, x, r.length, limit - 1))
    && (r.allocateType == 4 ==> PassesGuard(es, x, r.length, base))
  }

  lemma UntakenFits(es: seq<Record>, wanted: Wanted, base: int, length: int, limit: int)
    ensures Untaken(es, wanted, base, length, limit) <==> Fits(es, wanted, base, length, limit)
  {
    hide At;
    if Fits(es, wanted, base, length, limit) {
      forall a | base <= a < base + length
        ensures At(es, a).imageHandle == 0
        ensures if wanted.WantedMemory? then At(es, a).memoryType == wanted.memoryType
                else At(es, a).ioType == wanted.ioType
      {
        assert Suits(wanted, At(es, a));
      }
    }
  }

  lemma EligibleMeans(es: seq<Record>, r: Request, base: int, limit: int, x: int)
    requires 0 <= r.allocateType <= 4
    ensures var size, length, max := r.Size(), r.length, r.Max(base, limit);
            Eligible(es, r, base, limit, x) <==>
            if r.allocateType == 2 then x == base && base % size == 0 && Fits(es, r.wanted, base, length, limit)
            else if r.allocateType > 2 then TopCandidate(es, r.wanted, size, length, max, limit, x)
            else Candidate(es, r.wanted, size, length, max, limit, x)
  {
    hide Untaken, Fits;
    UntakenFits(es, r.wanted, x, r.length, limit);
    GuardMeans(es, x, r.length, r.Max(base, limit));
    if Untaken(es, r.wanted, x, r.length, limit) {
      InsideSpace(es, r.wanted, x, r.length, limit);
    }
  }

  lemma InsideSpace(es: seq<Record>, wanted: Wanted, base: int, length: int, limit: int)
    requires Untaken(es, wanted, base, length, limit)
    ensures 0 <= base && base + length <= limit
  {
  }

  lemma GuardMeans(es: seq<Record>, base: int, length: int, bound: int)
    ensures PassesGuard(es, base, length, bound) <==> Guarded(es, length, bound, base)
  {
    if PassesGuard(es, base, length, bound) {
      var k :| 0 <= k < |es| && es[k].base <= base + length - 1 <= es[k].end && es[k].base + length <= bound;
      assert Holds(es[k], base + length - 1);
    }
  }

  /** The choice is the lowest eligible base of an upward search and the highest of a downward one. */
  lemma ChoiceIsBest(es: seq<Record>, r: Request, base: int, limit: int, at: int)
    requires 0 <= r.allocateType <= 4
    ensures Choice(es, r, base, limit, at) <==>
            && Eligible(es, r, base, limit, at)
            && (r.allocateType < 2 ==> forall x :: Eligible(es, r, base, limit, x) ==> at <= x)
            && (r.allocateType > 2 ==> forall x :: Eligible(es, r, base, limit, x) ==> x <= at)
  {
    hide Eligible, Fits, Candidate, TopCandidate;
    forall x
      ensures var size, length, max := r.Size(), r.length, r.Max(base, limit);
              Eligible(es, r, base, limit, x) <==>
              if r.allocateType == 2 then x == base && base % size == 0 && Fits(es, r.wanted, base, length, limit)
              else if r.allocateType > 2 then TopCandidate(es, r.wanted, size, length, max, limit, x)
              else Candidate(es, r.wanted, size, length, max, limit, x)
    {
      EligibleMeans(es, r, base, limit, x);
    }
  }

  /** Where some base is eligible, one is the best. */
  lemma {:induction false} BestExists(es: seq<Record>, r: Request, base: int, limit: int, x: int) returns (best: int)
    requires 0 <= r.allocateType <= 4 && Eligible(es, r, base, limit, x)
    ensures Choice(es, r, base, limit, best)
    decreases if r.allocateType < 2 then x else limit - r.length - x
  {
    hide Untaken, Choice;
    InsideSpace(es, r.wanted, x, r.length, limit);
    if y :| Eligible(es, r, base, limit, y) && (if r.allocateType < 2 then y < x else x < y) {
      InsideSpace(es, r.wanted, y, r.length, limit);
      best := BestExists(es, r, base, limit, y);
    } else {
      best := x;
      ChoiceIsBest(es, r, base, limit, x);
    }
  }

  /** An allocation succeeds exactly when its parameters are in order, the pool gives both entries and some base is
      eligible; it then gets the lowest or the highest of them. */
  lemma AllocationIsBest(es: seq<Record>, r: Request, base: int, limit: int, granted: bool, status: Status, at: int,
                         fs: seq<Record>)
    requires Allocated(es, r, base, limit, granted, status, at, fs)
    ensures status == InvalidParameter <==> !ProperRequest(r)
    ensures ProperRequest(r) ==>
              (status == NotFound <==> r.alignment >= 64 || forall x :: !Eligible(es, r, base, limit, x))
    ensures ProperRequest(r) && status != NotFound ==>
              status == if granted then Success else OutOfResources
    ensures status == Success ==>
              && Eligible(es, r, base, limit, at)
              && (r.allocateType < 2 ==> forall x :: Eligible(es, r, base, limit, x) ==> at <= x)
              && (r.allocateType > 2 ==> forall x :: Eligible(es, r, base, limit, x) ==> x <= at)
  {
    hide Choice, Eligible, Rewritten;
    if ProperRequest(r) && r.alignment < 64 {
      forall x ensures Choice(es, r, base, limit, x) ==> Eligible(es, r, base, limit, x) {
        ChoiceIsBest(es, r, base, limit, x);
      }
      if x :| Eligible(es, r, base, limit, x) {
        var best := BestExists(es, r, base, limit, x);
        ChoiceIsBest(es, r, base, limit, at);
      }
    }
  }

  /** The parameters that CoreAllocateSpace accepts.  A length of 0 is not refused for its own sake when the alignment
      is out of range, since that is looked at first. */
  predicate ProperRequest(r: Request) {
    && 0 <= r.allocateType <= 4 && r.imageHandle != 0 && (r.length != 0 || r.alignment >= 64)
    && (if r.wanted.WantedMemory? then 0 <= r.wanted.memoryType <= 5 else 0 <= r.wanted.ioType <= 2)
  }

  /** Each address of the range an allocation takes has the new owner and the new device and is otherwise as it was;
      so is every other address, and every address when it fails. */
  lemma AllocationStores(es: seq<Record>, r: Request, base: int, limit: int, granted: bool, status: Status, at: int,
                         fs: seq<Record>, a: int)
    requires Allocated(es, r, base, limit, granted, status, at, fs) && 0 <= a < limit
    ensures var p, q := At(es, a), At(fs, a);
            if status == Success && at <= a < at + r.length
            then q == p.(imageHandle := r.imageHandle, deviceHandle := r.deviceHandle) && p.imageHandle == 0
            else q == p
  {
    hide At, Choice;
    if status == Success {
      AllocationIsBest(es, r, base, limit, granted, status, at, fs);
      RewrittenAt(es, r.Change(), at, r.length, limit, fs, a);
    }
  }
}
