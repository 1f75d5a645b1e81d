/** Whole runs of the GCD services: what every reachable state keeps, which operations commute, and what
    undoes what.  A step is what the methods of GcdServices guarantee, and nothing more. */
module GcdRuns {
  import opened GcdRecords
  import opened GcdRewrite
  import opened GcdOutcome
  import opened GcdFits
  import opened GcdServices

  datatype State = State(memory: seq<Record>, io: seq<Record>)

  /** A call, with what the pool granted and what came back. */
  datatype Event =
    | Convert(op: Operation, base: int, length: nat, granted: bool, status: Status)
    | Allocate(request: Request, base: int, granted: bool, status: Status, at: int)

  datatype Limits = Limits(memory: int, io: int)

  ghost predicate Step(s: State, ev: Event, t: State, limits: Limits) {
    match ev
    case Convert(op, base, length, granted, status) =>
      !op.SetOwner? && 0 <= base < TWO_TO_64 && length < TWO_TO_64 &&
      if IsMemoryOperation(op)
      then HarmlessRange(s.memory, base, length, limits.memory)
           && Converted(s.memory, op, base, length, limits.memory, granted, status, t.memory) && t.io == s.io
      else HarmlessRange(s.io, base, length, limits.io)
           && Converted(s.io, op, base, length, limits.io, granted, status, t.io) && t.memory == s.memory
    case Allocate(r, base, granted, status, at) =>
      if r.wanted.WantedMemory?
      then Allocated(s.memory, r, base, limits.memory, granted, status, at, t.memory) && t.io == s.io
      else Allocated(s.io, r, base, limits.io, granted, status, at, t.io) && t.memory == s.memory
  }

  /** A run from the state CoreInitializeGcdServices sets up. */
  ghost predicate Run(states: seq<State>, events: seq<Event>, limits: Limits) {
    && 0 < limits.memory <= TWO_TO_63 && 0 < limits.io <= TWO_TO_63
    && |states| == |events| + 1
    && states[0] == State(Initial(limits.memory), Initial(limits.io))
    && (forall i :: 0 <= i < |events| ==> Step(states[i], events[i], states[i + 1], limits))
  }

  /** An unowned address has no device. */
  ghost predicate NoStrayDevices(es: seq<Record>, limit: int) {
    forall a :: 0 <= a < limit && At(es, a).imageHandle == NULL_HANDLE ==> At(es, a).deviceHandle == NULL_HANDLE
  }

  ghost predicate Good(s: State, limits: Limits) {
    && WellFormed(s.memory, limits.memory) && WellFormed(s.io, limits.io)
    && NoStrayDevices(s.memory, limits.memory) && NoStrayDevices(s.io, limits.io)
  }

  lemma RewrittenDevices(es: seq<Record>, op: Operation, base: int, length: int, limit: int, fs: seq<Record>)
    requires NoStrayDevices(es, limit) && Rewritten(es, op, base, length, limit, fs)
    requires op.SetOwner? ==> op.imageHandle != NULL_HANDLE
    ensures NoStrayDevices(fs, limit)
  {
    forall a | 0 <= a < limit && At(fs, a).imageHandle == NULL_HANDLE ensures At(fs, a).deviceHandle == NULL_HANDLE {
      assert At(fs, a) == Painted(es, op, base, base + length, a);
    }
  }

  /** A successful allocation is a rewriting of a range that fitted. */
  lemma AllocatedRewrites(es: seq<Record>, r: Request, base: int, limit: int, granted: bool, status: Status, at: int,
                          fs: seq<Record>)
    requires Allocated(es, r, base, limit, granted, status, at, fs)
    ensures status == Success ==>
              && ParameterStatus(r) == Success && Fits(es, r.wanted, at, r.length, limit)
              && Rewritten(es, r.Change(), at, r.length, limit, fs)
    ensures status != Success ==> fs == es
  {
  }

  lemma StepKeepsGood(s: State, ev: Event, t: State, limits: Limits)
    requires Good(s, limits) && Step(s, ev, t, limits)
    ensures Good(t, limits)
  {
    hide WellFormed, NoStrayDevices, Rewritten, ConvertStatus, Allocated, HarmlessRange;
    match ev
    case Convert(op, base, length, granted, status) =>
      if status == Success {
        if IsMemoryOperation(op) {
          RewrittenForms(s.memory, op, base, length, limits.memory, t.memory);
          RewrittenDevices(s.memory, op, base, length, limits.memory, t.memory);
        } else {
          RewrittenForms(s.io, op, base, length, limits.io, t.io);
          RewrittenDevices(s.io, op, base, length, limits.io, t.io);
        }
      }
    case Allocate(r, base, granted, status, at) =>
      if r.wanted.WantedMemory? {
        AllocatedRewrites(s.memory, r, base, limits.memory, granted, status, at, t.memory);
        if status == Success {
          RewrittenForms(s.memory, r.Change(), at, r.length, limits.memory, t.memory);
          RewrittenDevices(s.memory, r.Change(), at, r.length, limits.memory, t.memory);
        }
      } else {
        AllocatedRewrites(s.io, r, base, limits.io, granted, status, at, t.io);
        if status == Success {
          RewrittenForms(s.io, r.Change(), at, r.length, limits.io, t.io);
          RewrittenDevices(s.io, r.Change(), at, r.length, limits.io, t.io);
        }
      }
  }

  lemma RewrittenForms(es: seq<Record>, op: Operation, base: int, length: int, limit: int, fs: seq<Record>)
    requires Rewritten(es, op, base, length, limit, fs)
    ensures WellFormed(fs, limit)
  {
  }

  lemma InitialIsGood(limits: Limits)
    requires 0 < limits.memory && 0 < limits.io
    ensures Good(State(Initial(limits.memory), Initial(limits.io)), limits)
  {
    InitialIsWellFormed(limits.memory);
    InitialIsWellFormed(limits.io);
    InitialSays(limits.memory);
    InitialSays(limits.io);
  }

  /** At first no address has a type, a capability, an attribute, an owner or a device. */
  lemma InitialSays(limit: int)
    requires limit > 0
    ensures forall a :: 0 <= a < limit ==> At(Initial(limit), a) == ZERO_PAYLOAD == Payload({}, {}, 0, 0, 0, 0)
  {
    InitialIsWellFormed(limit);
    forall a | 0 <= a < limit ensures At(Initial(limit), a) == ZERO_PAYLOAD {
      AtHolder(Initial(limit), 0, limit, 0, a);
    }
  }

  /** In every reachable state both maps are the coarsest tiling of their space, no record holds a CPU-arch
      attribute, and no unowned address has a device. */
  lemma {:induction false} EveryReachableStateIsGood(states: seq<State>, events: seq<Event>, limits: Limits, i: nat)
    requires Run(states, events, limits) && i < |states|
    ensures Good(states[i], limits)
  {
    if i == 0 {
      InitialIsGood(limits);
    } else {
      EveryReachableStateIsGood(states, events, limits, i - 1);
      assert Step(states[i - 1], events[i - 1], states[i], limits);
      StepKeepsGood(states[i - 1], events[i - 1], states[i], limits);
    }
  }

  // ----- the ownership of an address -----

  datatype Space = Memory | Io

  function Records(s: State, space: Space): seq<Record> {
    if space.Memory? then s.memory else s.io
  }

  function LimitOf(limits: Limits, space: Space): int {
    if space.Memory? then limits.memory else limits.io
  }

  /** The type of an address in its space; 0 is nonexistent in both. */
  function TypeOf(p: Payload, space: Space): int {
    if space.Memory? then p.memoryType else p.ioType
  }

  predicate Adds(op: Operation, space: Space, addedType: int) {
    if space.Memory? then op.AddMemory? && op.memoryType == addedType else op.AddIo? && op.ioType == addedType
  }

  predicate Removes(op: Operation, space: Space) {
    if space.Memory? then op.RemoveMemory? else op.RemoveIo?
  }

  predicate Frees(op: Operation, space: Space) {
    if space.Memory? then op.FreeMemory? else op.FreeIo?
  }

  predicate Wants(wanted: Wanted, space: Space, wantedType: int) {
    if space.Memory? then wanted == WantedMemory(wantedType) else wanted == WantedIo(wantedType)
  }

  /** The event succeeded in that space and its range holds a. */
  ghost predicate Covers(ev: Event, space: Space, a: int) {
    ev.status == Success &&
    match ev
    case Convert(op, base, length, _, _) => (IsMemoryOperation(op) <==> space.Memory?) && base <= a < base + length
    case Allocate(r, _, _, _, at) => (r.wanted.WantedMemory? <==> space.Memory?) && at <= a < at + r.length
  }

  /** What one event may make of what an address of a space says. */
  ghost predicate Moves(ev: Event, space: Space, a: int, p: Payload, q: Payload) {
    // the type changes from nonexistent by an add, and back by a remove, and only while nobody owns the address
    && (TypeOf(q, space) != TypeOf(p, space) ==>
          Covers(ev, space, a) && ev.Convert? && p.imageHandle == NULL_HANDLE &&
          ((Adds(ev.op, space, TypeOf(q, space)) && TypeOf(p, space) == 0) ||
           (Removes(ev.op, space) && TypeOf(q, space) == 0)))
    // the owner comes by an allocation of the right type, and goes by a free
    && (q.imageHandle != p.imageHandle ==>
          Covers(ev, space, a) &&
          ((ev.Allocate? && p.imageHandle == NULL_HANDLE && Wants(ev.request.wanted, space, TypeOf(p, space))
            && q.imageHandle == ev.request.imageHandle != NULL_HANDLE && q.deviceHandle == ev.request.deviceHandle) ||
           (ev.Convert? && Frees(ev.op, space) && p.imageHandle != NULL_HANDLE
            && q.imageHandle == NULL_HANDLE && q.deviceHandle == NULL_HANDLE)))
    // the device never changes without the owner
    && (q.imageHandle == p.imageHandle ==> q.deviceHandle == p.deviceHandle)
    && TypeOf(q, if space.Memory? then Io else Memory) == TypeOf(p, if space.Memory? then Io else Memory)
    && (if space.Memory? then MemoryOnly(ev, a, p, q)
        else q.attributes == p.attributes && q.capabilities == p.capabilities)
  }

  /** Attributes are stored exactly as they were asked for, and only within the capabilities of the address. */
  ghost predicate MemoryOnly(ev: Event, a: int, p: Payload, q: Payload) {
    && (q.attributes != p.attributes ==> Covers(ev, Memory, a) && ev.Convert? && ev.op.SetAttributes?)
    && (Covers(ev, Memory, a) && ev.Convert? && ev.op.SetAttributes? ==>
          q.attributes == ev.op.attributes && q.attributes <= p.capabilities == q.capabilities)
    && (q.capabilities != p.capabilities ==>
          Covers(ev, Memory, a) && ev.Convert? && (ev.op.AddMemory? || ev.op.RemoveMemory? || ev.op.SetCapabilities?))
  }

  lemma RewrittenAt(es: seq<Record>, op: Operation, base: int, length: int, limit: int, fs: seq<Record>, a: int)
    requires Rewritten(es, op, base, length, limit, fs) && 0 <= a < limit
    ensures At(fs, a) == if base <= a < base + length then Apply(op, At(es, a)) else At(es, a)
  {
    assert At(fs, a) == Painted(es, op, base, base + length, a);
  }

  /** A successful conversion has checked every address it rewrites. */
  lemma ConvertedChecked(es: seq<Record>, op: Operation, base: int, length: nat, limit: int, granted: bool,
                         fs: seq<Record>, a: int)
    requires HarmlessRange(es, base, length, limit) && limit <= TWO_TO_63
    requires Converted(es, op, base, length, limit, granted, Success, fs) && base <= a < base + length
    ensures base + length <= limit && Check(op, At(es, a), base, length) == Success
  {
    CheckRangePasses(es, op, base, length, base, length);
    assert CheckAt(es, op, a, base, length) == Success;
  }

  /** The ownership machine of an address of either space: every step of every run obeys it. */
  lemma OwnershipMachine(s: State, ev: Event, t: State, limits: Limits, space: Space, a: int)
    requires limits.memory <= TWO_TO_63 && limits.io <= TWO_TO_63
    requires Good(s, limits) && Step(s, ev, t, limits) && 0 <= a < LimitOf(limits, space)
    ensures Moves(ev, space, a, At(Records(s, space), a), At(Records(t, space), a))
  {
    hide WellFormed, Rewritten, ConvertStatus, Allocated, HarmlessRange, At;
    var es, fs, limit := Records(s, space), Records(t, space), LimitOf(limits, space);
    if ev.Convert? {
      if (IsMemoryOperation(ev.op) <==> space.Memory?) && ev.status == Success {
        RewrittenAt(es, ev.op, ev.base, ev.length, limit, fs, a);
        if ev.base <= a < ev.base + ev.length {
          ConvertedChecked(es, ev.op, ev.base, ev.length, limit, ev.granted, fs, a);
        }
      }
    } else if ev.request.wanted.WantedMemory? <==> space.Memory? {
      var r := ev.request;
      AllocatedRewrites(es, r, ev.base, limit, ev.granted, ev.status, ev.at, fs);
      if ev.status == Success {
        RewrittenAt(es, r.Change(), ev.at, r.length, limit, fs, a);
      }
    }
  }

  /** Over a whole run an address changes hands only through a free: between two states with different
      owners, the first of them not NULL, some successful free covered the address. */
  lemma {:induction false} OwnersLeaveByFree(states: seq<State>, events: seq<Event>, limits: Limits, i: nat, j: nat,
                                             space: Space, a: int)
    requires Run(states, events, limits) && i <= j < |states| && 0 <= a < LimitOf(limits, space)
    requires At(Records(states[i], space), a).imageHandle != NULL_HANDLE
    requires At(Records(states[j], space), a).imageHandle != At(Records(states[i], space), a).imageHandle
    ensures exists k ::
              i <= k < j && events[k].Convert? && Frees(events[k].op, space) && Covers(events[k], space, a)
  {
    var k := j - 1;
    assert Step(states[k], events[k], states[k + 1], limits);
    EveryReachableStateIsGood(states, events, limits, k);
    OwnershipMachine(states[k], events[k], states[k + 1], limits, space, a);
    if At(Records(states[k], space), a).imageHandle != At(Records(states[i], space), a).imageHandle {
      OwnersLeaveByFree(states, events, limits, i, k, space, a);
    }
  }

  // ----- the services make these steps -----

  /** The records of the two maps. */
  ghost function Now(services: Services): State
    reads services.memory, services.io
  {
    State(services.memory.records, services.io.records)
  }

  ghost function LimitsOf(services: Services): Limits {
    Limits(services.memory.limit, services.io.limit)
  }

  /** Every conversion the services carry out is a step. */
  method ConvertStep(services: Services, op: Operation, base: int, length: int) returns (status: Status)
    requires services.Valid() && !op.SetOwner?
    requires 0 <= base < TWO_TO_64 && 0 <= length < TWO_TO_64
    requires if IsMemoryOperation(op) then HarmlessRange(services.memory.records, base, length, services.memory.limit)
             else HarmlessRange(services.io.records, base, length, services.io.limit)
    modifies services.pool, services.memory, services.memory.Nodes(), services.io, services.io.Nodes()
    ensures services.Valid()
    ensures Step(old(Now(services)), Convert(op, base, length, PairGranted(old(services.pool.supply)), status),
                 Now(services), LimitsOf(services))
  {
    hide Converted, HarmlessRange, Services.Valid;
    status := services.ConvertSpace(op, base, length);
  }

  /** So is every allocation. */
  method AllocateStep(services: Services, r: Request, base: int) returns (status: Status, at: int)
    requires services.Valid()
    requires 0 <= base < TWO_TO_64 && 0 <= r.length < TWO_TO_64
    requires r.allocateType == AT_ADDRESS ==>
               if r.wanted.WantedMemory?
               then HarmlessRange(services.memory.records, base, r.length, services.memory.limit)
               else HarmlessRange(services.io.records, base, r.length, services.io.limit)
    requires r.allocateType != AT_ADDRESS && !r.TopDown() ==> r.length <= TWO_TO_63
    modifies services.pool, services.memory, services.memory.Nodes(), services.io, services.io.Nodes()
    ensures services.Valid()
    ensures Step(old(Now(services)), Allocate(r, base, PairGranted(old(services.pool.supply)), status, at),
                 Now(services), LimitsOf(services))
  {
    hide Allocated, HarmlessRange, Services.Valid;
    status, at := services.AllocateSpace(r, base);
  }

  /** And the services start in the state in which runs start. */
  method StartRun(sizeOfMemorySpace: nat, sizeOfIoSpace: nat, coreImageHandle: Handle, supply: seq<bool>)
    returns (services: Services)
    requires sizeOfMemorySpace < 64 && sizeOfIoSpace < 64
    requires |supply| >= 2 && supply[0] && supply[1]
    ensures services.Valid() && Run([Now(services)], [], LimitsOf(services))
  {
    services := new Services(sizeOfMemorySpace, sizeOfIoSpace, coreImageHandle, supply);
    Pow2Bound(sizeOfMemorySpace);
    Pow2Bound(sizeOfIoSpace);
  }
}
