/** The pool of bytes that mocks draw from, its sub-pools, and the registry of pools:
    HostLib/FuzzContextLib/FuzzContextLib.c. */
module FuzzPool {

  datatype Status = Success | InvalidParameter | OutOfResources | NotFound

  // ----- one context -----

  /** The fields of a MOCK_FUZZ_CONTEXT that the bytes depend on.  `buffer` is where its bytes start in memory. */
  datatype Context = Context(hasBuffer: bool, buffer: nat, size: nat, offset: nat, limit: nat, exhausted: bool)

  /** Count bytes of memory from `at` on. */
  datatype Region = Region(at: nat, count: nat) {
    predicate Has(a: int) {
      at <= a < at + count
    }
  }

  const ZEROED: Context := Context(false, 0, 0, 0, 0, false)

  /** Where the bytes that may be drawn end: at the limit, when there is one inside the buffer. */
  function EffectiveEnd(c: Context): nat {
    if 0 < c.limit < c.size then c.limit else c.size
  }

  function Fresh(hasBuffer: bool, buffer: nat, size: nat): Context {
    Context(hasBuffer, buffer, size, 0, 0, !hasBuffer || size == 0)
  }

  /** Drawing count bytes succeeds when some are left below the effective end, and that many. */
  predicate CanDraw(c: Context, count: nat) {
    !c.exhausted && c.offset < EffectiveEnd(c) && count <= EffectiveEnd(c) - c.offset
  }

  function Drawn(c: Context, count: nat): Context {
    if CanDraw(c, count) then c.(offset := c.offset + count) else c.(exhausted := true)
  }

  /** The draw starts inside the bytes and inside the limit, if there is one, and ends inside both. */
  lemma DrawsInsideBoth(c: Context, count: nat)
    ensures CanDraw(c, count) <==>
            && !c.exhausted && c.offset < c.size && c.offset + count <= c.size
            && (0 < c.limit ==> c.offset < c.limit && c.offset + count <= c.limit)
  {
  }

  class FuzzContext {
    var now: Context

    /** MockFuzzContextInit. */
    constructor (hasBuffer: bool, buffer: nat, size: nat)
      ensures now == Fresh(hasBuffer, buffer, size)
      ensures now == Context(hasBuffer, buffer, size, 0, 0, now.exhausted)
      ensures now.exhausted <==> !hasBuffer || size == 0
    {
      now := Context(hasBuffer, buffer, size, 0, 0, !hasBuffer || size == 0);
    }

    /** MockFuzzContextRemaining: exactly the counts up to this can be drawn, unless it is 0. */
    method Remaining() returns (n: nat)
      ensures forall count :: 0 < count ==> (CanDraw(now, count) <==> count <= n)
      ensures n == 0 ==> !CanDraw(now, 0)
      ensures n > 0 <==> !now.exhausted && now.offset < now.size && (0 < now.limit ==> now.offset < now.limit)
      ensures n > 0 ==> now.offset + n <= now.size && (0 < now.limit ==> now.offset + n <= now.limit)
      ensures n > 0 ==> now.offset + n == now.size || now.offset + n == now.limit
    {
      if now.exhausted {
        return 0;
      }
      var effectiveEnd := now.size;
      if now.limit > 0 && now.limit < effectiveEnd {
        effectiveEnd := now.limit;
      }
      if now.offset >= effectiveEnd {
        return 0;
      }
      return effectiveEnd - now.offset;
    }

    /** MockFuzzContextConsume. */
    method Consume(count: nat) returns (ok: bool, at: nat)
      modifies this
      ensures ok == CanDraw(old(now), count) && now == Drawn(old(now), count)
      ensures ok <==>
              && !old(now).exhausted && old(now).offset < old(now).size && old(now).offset + count <= old(now).size
              && (0 < old(now).limit ==>
                    old(now).offset < old(now).limit && old(now).offset + count <= old(now).limit)
      ensures ok ==> at == old(now).buffer + old(now).offset && now == old(now).(offset := old(now).offset + count)
      ensures !ok ==> now == old(now).(exhausted := true)
    {
      if now.exhausted {
        return false, 0;
      }
      var effectiveEnd := now.size;
      if now.limit > 0 && now.limit < effectiveEnd {
        effectiveEnd := now.limit;
      }
      if now.offset >= effectiveEnd || count > effectiveEnd - now.offset {
        now := now.(exhausted := true);
        return false, 0;
      }
      ok, at := true, now.buffer + now.offset;
      now := now.(offset := now.offset + count);
    }

    /** MockFuzzContextSetLimit. */
    method SetLimit(limit: nat)
      modifies this
      ensures now == old(now).(limit := limit)
    {
      now := now.(limit := limit);
    }

    /** MockFuzzContextClearLimit. */
    method ClearLimit()
      modifies this
      ensures now == Unlimited(old(now))
      ensures now.limit == 0 && EffectiveEnd(now) == now.size && now.offset == old(now).offset
      ensures now.hasBuffer && now.offset < now.size ==> CanDraw(now, now.size - now.offset)
      ensures now.exhausted <==> old(now).exhausted && (!now.hasBuffer || now.offset >= now.size)
    {
      now := now.(limit := 0);
      if now.exhausted && now.hasBuffer && now.offset < now.size {
        now := now.(exhausted := false);
      }
    }

    /** MockFuzzContextAdvanceTo. */
    method AdvanceTo(target: nat)
      modifies this
      ensures now == Advanced(old(now), target)
      ensures old(now).offset <= old(now).size ==> old(now).offset <= now.offset <= now.size
      ensures old(now).offset < target <= now.size ==> now.offset == target
      ensures old(now).offset < target && now.size < target ==> now.offset == now.size
      ensures old(now).offset < target ==> (now.exhausted <==> !now.hasBuffer || now.offset >= now.size)
      ensures now == old(now).(offset := now.offset, exhausted := now.exhausted)
      ensures target <= old(now).offset ==> now == old(now)
    {
      if target <= now.offset {
        return;
      }
      var to := target;
      if to > now.size {
        to := now.size;
      }
      now := now.(offset := to);
      now := now.(exhausted := !now.hasBuffer || now.offset >= now.size);
    }

    /** MockFuzzContextCreateSubContext.  A sub-context that is its own parent is left as the sub-context. */
    method CreateSubContext(sub: FuzzContext, byteCount: nat) returns (status: Status)
      modifies this, sub
      ensures sub != this ==> now == Drawn(old(now), byteCount)
      ensures status == if CanDraw(old(now), byteCount) then Success else OutOfResources
      ensures sub.now == Carved(old(now), byteCount)
      ensures status == Success ==>
                sub.now == Context(true, old(now).buffer + old(now).offset, byteCount, 0, 0, byteCount == 0)
      ensures status == Success && sub != this ==> now == old(now).(offset := old(now).offset + byteCount)
      ensures status != Success ==> sub.now == Context(false, 0, 0, 0, 0, true)
    {
      var ok, region := Consume(byteCount);
      sub.now := ZEROED;
      if !ok {
        sub.now := sub.now.(exhausted := true);
        return OutOfResources;
      }
      sub.now := sub.now.(hasBuffer := true, buffer := region, size := byteCount, offset := 0);
      sub.now := sub.now.(exhausted := byteCount == 0);
      return Success;
    }
  }

  /** Without its limit; its bytes are available again if only the limit had made them run out. */
  function Unlimited(c: Context): Context {
    c.(limit := 0, exhausted := c.exhausted && (!c.hasBuffer || c.offset >= c.size))
  }

  /** Forward to the target, though not past the end; never backward. */
  function Advanced(c: Context, target: nat): Context {
    if target <= c.offset then c
    else
      var to := if target > c.size then c.size else target;
      c.(offset := to, exhausted := !c.hasBuffer || to >= c.size)
  }

  function Carved(c: Context, count: nat): Context {
    if CanDraw(c, count) then Fresh(true, c.buffer + c.offset, count) else ZEROED.(exhausted := true)
  }

  // ----- runs over a tree of contexts -----

  /** A region handed out to a consumer, and the context it was drawn from, as it was just before. */
  datatype Handout = Handout(region: Region, source: Context) {
    /** No byte lies in front of the offset, behind the end of the source, or behind its limit. */
    ghost predicate ObeysLimit() {
      forall a :: region.Has(a) ==>
        && source.buffer + source.offset <= a < source.buffer + source.size
        && (0 < source.limit ==> a < source.buffer + source.limit)
    }
  }

  /** All contexts there are, and what has been handed out to consumers so far. */
  datatype State = State(contexts: seq<Context>, handed: seq<Handout>)

  datatype Event =
    | Draw(i: nat, count: nat)
    | Carve(i: nat, count: nat)
    | Limit(i: nat, limit: nat)
    | NoLimit(i: nat)
    | Skip(i: nat, target: nat)

  function Step(s: State, e: Event): State {
    if e.i >= |s.contexts| then s
    else
      var c := s.contexts[e.i];
      match e
      case Draw(i, count) =>
        State(s.contexts[i := Drawn(c, count)],
              if CanDraw(c, count) then s.handed + [Handout(Region(c.buffer + c.offset, count), c)]
              else s.handed)
      case Carve(i, count) => s.(contexts := s.contexts[i := Drawn(c, count)] + [Carved(c, count)])
      case Limit(i, limit) => s.(contexts := s.contexts[i := c.(limit := limit)])
      case NoLimit(i) => s.(contexts := s.contexts[i := Unlimited(c)])
      case Skip(i, target) => s.(contexts := s.contexts[i := Advanced(c, target)])
  }

  function Run(s: State, events: seq<Event>): State {
    if events == [] then s else Step(Run(s, events[..|events| - 1]), events[|events| - 1])
  }

  /** The bytes a context still has. */
  function LeftOf(c: Context): Region {
    Region(c.buffer + c.offset, if c.offset <= c.size then c.size - c.offset else 0)
  }

  predicate Within(x: Region, y: Region) {
    x.count == 0 || (y.at <= x.at && x.at + x.count <= y.at + y.count)
  }

  predicate Disjoint(x: Region, y: Region) {
    x.count == 0 || y.count == 0 || x.at + x.count <= y.at || y.at + y.count <= x.at
  }

  /** What is left of the contexts, and what has been handed out, are regions of the pool apart from one another; and
      nothing was handed out beyond the limit of that moment. */
  ghost predicate Apart(s: State, pool: Region) {
    && (forall i :: 0 <= i < |s.contexts| ==>
          s.contexts[i].offset <= s.contexts[i].size && Within(LeftOf(s.contexts[i]), pool))
    && (forall i, j :: 0 <= i < j < |s.contexts| ==> Disjoint(LeftOf(s.contexts[i]), LeftOf(s.contexts[j])))
    && (forall k :: 0 <= k < |s.handed| ==> Bounded(s.handed[k], pool))
    && (forall k, i :: 0 <= k < |s.handed| && 0 <= i < |s.contexts| ==>
          Disjoint(s.handed[k].region, LeftOf(s.contexts[i])))
    && (forall k, l :: 0 <= k < l < |s.handed| ==> Disjoint(s.handed[k].region, s.handed[l].region))
  }

  predicate Bounded(h: Handout, pool: Region) {
    Within(h.region, pool) && FromSource(h)
  }

  predicate FromSource(h: Handout) {
    var end := h.region.at + h.region.count;
    && h.source.buffer + h.source.offset <= h.region.at && end <= h.source.buffer + h.source.size
    && (0 < h.source.limit ==> end <= h.source.buffer + h.source.limit)
  }

  lemma StepKeepsApart(s: State, e: Event, pool: Region)
    requires Apart(s, pool)
    ensures Apart(Step(s, e), pool)
  {
    hide Apart, LeftOf, Drawn, CanDraw, Carved, EffectiveEnd, Within, Disjoint, Bounded, FromSource;
    if e.i < |s.contexts| {
      var c := s.contexts[e.i];
      InsideBuffer(s, e.i, pool);
      match e {
        case Draw(i, count) => {
          DrawSplits(c, count);
          Shrunk(s, i, Drawn(c, count), pool);
          if CanDraw(c, count) {
            HandedOut(s, i, Drawn(c, count), Handout(Region(c.buffer + c.offset, count), c), pool);
          }
        }
        case Carve(i, count) => {
          DrawSplits(c, count);
          CarveSplits(c, count);
          CarvedOff(s, i, Drawn(c, count), Carved(c, count), pool);
        }
        case Limit(i, limit) => {
          SameBytes(c, c.(limit := limit));
          Shrunk(s, i, c.(limit := limit), pool);
        }
        case NoLimit(i) => {
          SameBytes(c, Unlimited(c));
          Shrunk(s, i, Unlimited(c), pool);
        }
        case Skip(i, target) => {
          SkipShrinks(c, target);
          Shrunk(s, i, Advanced(c, target), pool);
        }
      }
    }
  }

  lemma InsideBuffer(s: State, i: nat, pool: Region)
    requires Apart(s, pool) && i < |s.contexts|
    ensures s.contexts[i].offset <= s.contexts[i].size
  {
  }

  lemma SameBytes(c: Context, d: Context)
    requires c.offset <= c.size && d.buffer == c.buffer && d.offset == c.offset && d.size == c.size
    ensures d.offset <= d.size && Within(LeftOf(d), LeftOf(c))
  {
  }

  lemma SkipShrinks(c: Context, target: nat)
    requires c.offset <= c.size
    ensures var d := Advanced(c, target); d.offset <= d.size && Within(LeftOf(d), LeftOf(c))
  {
  }

  /** Drawing takes its bytes out of those that are left, below the limit. */
  lemma DrawSplits(c: Context, count: nat)
    requires c.offset <= c.size
    ensures var d, r := Drawn(c, count), Region(c.buffer + c.offset, count);
            && d.offset <= d.size && Within(LeftOf(d), LeftOf(c))
            && (CanDraw(c, count) ==> Within(r, LeftOf(c)) && Disjoint(r, LeftOf(d)))
            && (CanDraw(c, count) ==> FromSource(Handout(r, c)))
  {
    if CanDraw(c, count) {
      assert LeftOf(Drawn(c, count)) == Region(c.buffer + c.offset + count, c.size - c.offset - count);
    }
  }

  lemma CarveSplits(c: Context, count: nat)
    requires c.offset <= c.size
    ensures var d, e := Drawn(c, count), Carved(c, count);
            e.offset <= e.size && Within(LeftOf(e), LeftOf(c)) && Disjoint(LeftOf(e), LeftOf(d))
  {
    hide EffectiveEnd, Drawn, Within, Disjoint;
    DrawSplits(c, count);
    if CanDraw(c, count) {
      assert LeftOf(Carved(c, count)) == Region(c.buffer + c.offset, count);
    } else {
      NothingLeft(Carved(c, count), LeftOf(c), LeftOf(Drawn(c, count)));
    }
  }

  lemma NothingLeft(e: Context, x: Region, y: Region)
    requires e.size == 0
    ensures Within(LeftOf(e), x) && Disjoint(LeftOf(e), y)
  {
  }

  lemma Shrunk(s: State, i: nat, d: Context, pool: Region)
    requires Apart(s, pool) && i < |s.contexts|
    requires d.offset <= d.size && Within(LeftOf(d), LeftOf(s.contexts[i]))
    ensures Apart(s.(contexts := s.contexts[i := d]), pool)
  {
  }

  lemma HandedOut(s: State, i: nat, d: Context, h: Handout, pool: Region)
    requires Apart(s, pool) && i < |s.contexts|
    requires d.offset <= d.size && Within(LeftOf(d), LeftOf(s.contexts[i]))
    requires Within(h.region, LeftOf(s.contexts[i])) && Disjoint(h.region, LeftOf(d))
    requires FromSource(h)
    ensures Apart(State(s.contexts[i := d], s.handed + [h]), pool)
  {
    var before := s.(contexts := s.contexts[i := d]);
    var after := before.(handed := before.handed + [h]);
    Shrunk(s, i, d, pool);
    forall k | 0 <= k < |s.handed| ensures Disjoint(after.handed[k].region, h.region) {
      assert after.handed[k] == s.handed[k];
    }
    forall j | 0 <= j < |s.contexts| ensures Disjoint(h.region, LeftOf(after.contexts[j])) {
      assert j != i ==> after.contexts[j] == s.contexts[j];
    }
  }

  lemma CarvedOff(s: State, i: nat, d: Context, e: Context, pool: Region)
    requires Apart(s, pool) && i < |s.contexts|
    requires d.offset <= d.size && Within(LeftOf(d), LeftOf(s.contexts[i]))
    requires e.offset <= e.size && Within(LeftOf(e), LeftOf(s.contexts[i])) && Disjoint(LeftOf(e), LeftOf(d))
    ensures Apart(s.(contexts := s.contexts[i := d] + [e]), pool)
  {
    var before, n := s.(contexts := s.contexts[i := d]), |s.contexts|;
    var after := s.(contexts := before.contexts + [e]);
    Shrunk(s, i, d, pool);
    forall j | 0 <= j < n ensures Disjoint(LeftOf(after.contexts[j]), LeftOf(e)) {
      assert after.contexts[j] == before.contexts[j];
    }
  }

  ghost predicate NoneShared(x: Region, y: Region) {
    forall a :: !(x.Has(a) && y.Has(a))
  }

  /** All bytes of x are bytes of the pool. */
  ghost predicate AllIn(x: Region, pool: Region) {
    forall a :: x.Has(a) ==> pool.Has(a)
  }

  /** No byte is left in two contexts, or left in one and handed out, or handed out twice; all of them are bytes of
      the pool; and none was handed out beyond the limit its source had at that moment. */
  ghost predicate BytesApart(s: State, pool: Region) {
    && (forall i :: 0 <= i < |s.contexts| ==> AllIn(LeftOf(s.contexts[i]), pool))
    && (forall i, j :: 0 <= i < j < |s.contexts| ==> NoneShared(LeftOf(s.contexts[i]), LeftOf(s.contexts[j])))
    && (forall k :: 0 <= k < |s.handed| ==> AllIn(s.handed[k].region, pool) && s.handed[k].ObeysLimit())
    && (forall k, i :: 0 <= k < |s.handed| && 0 <= i < |s.contexts| ==>
          NoneShared(s.handed[k].region, LeftOf(s.contexts[i])))
    && (forall k, l :: 0 <= k < l < |s.handed| ==> NoneShared(s.handed[k].region, s.handed[l].region))
  }

  lemma DisjointMeans(x: Region, y: Region)
    ensures Disjoint(x, y) <==> NoneShared(x, y)
  {
    if !Disjoint(x, y) {
      var a := if x.at <= y.at then y.at else x.at;
      assert x.Has(a) && y.Has(a);
    }
  }

  lemma WithinMeans(x: Region, pool: Region)
    requires Within(x, pool)
    ensures AllIn(x, pool)
  {
  }

  lemma BoundedMeans(h: Handout, pool: Region)
    requires Bounded(h, pool)
    ensures AllIn(h.region, pool) && h.ObeysLimit()
  {
  }

  lemma ApartMeans(s: State, pool: Region)
    requires Apart(s, pool)
    ensures BytesApart(s, pool)
  {
    hide LeftOf, Disjoint, NoneShared, AllIn, FromSource, Handout.ObeysLimit;
    forall i | 0 <= i < |s.contexts| ensures AllIn(LeftOf(s.contexts[i]), pool) {
      WithinMeans(LeftOf(s.contexts[i]), pool);
    }
    forall k | 0 <= k < |s.handed| ensures AllIn(s.handed[k].region, pool) && s.handed[k].ObeysLimit() {
      BoundedMeans(s.handed[k], pool);
    }
    forall i, j | 0 <= i < j < |s.contexts| ensures NoneShared(LeftOf(s.contexts[i]), LeftOf(s.contexts[j])) {
      DisjointMeans(LeftOf(s.contexts[i]), LeftOf(s.contexts[j]));
    }
    forall k, l | 0 <= k < l < |s.handed| ensures NoneShared(s.handed[k].region, s.handed[l].region) {
      DisjointMeans(s.handed[k].region, s.handed[l].region);
    }
    forall k, i | 0 <= k < |s.handed| && 0 <= i < |s.contexts|
      ensures NoneShared(s.handed[k].region, LeftOf(s.contexts[i]))
    {
      DisjointMeans(s.handed[k].region, LeftOf(s.contexts[i]));
    }
  }

  lemma {:induction false} RunKeepsApart(s: State, events: seq<Event>, pool: Region)
    requires Apart(s, pool)
    ensures Apart(Run(s, events), pool)
  {
    if events != [] {
      RunKeepsApart(s, events[..|events| - 1], pool);
      StepKeepsApart(Run(s, events[..|events| - 1]), events[|events| - 1], pool);
    }
  }

  /** However the pool is divided and drawn from between two resets, no byte is handed out twice, none from outside
      the pool, and none from beyond the limit in force. */
  lemma NoByteTwice(buffer: nat, size: nat, events: seq<Event>)
    ensures BytesApart(Run(State([Fresh(true, buffer, size)], []), events), Region(buffer, size))
  {
    var s, pool := State([Fresh(true, buffer, size)], []), Region(buffer, size);
    RunKeepsApart(s, events, pool);
    ApartMeans(Run(s, events), pool);
  }

  /** Offsets never go back. */
  lemma {:induction false} OffsetsOnlyGrow(s: State, events: seq<Event>, i: nat, pool: Region)
    requires Apart(s, pool) && i < |s.contexts|
    ensures |Run(s, events).contexts| >= |s.contexts|
    ensures var c, d := s.contexts[i], Run(s, events).contexts[i];
            c.offset <= d.offset <= d.size == c.size
  {
    hide Apart;
    InsideBuffer(s, i, pool);
    if events != [] {
      OffsetsOnlyGrow(s, events[..|events| - 1], i, pool);
      RunKeepsApart(s, events[..|events| - 1], pool);
    }
  }

  // ----- the contexts make these steps -----

  /** What the contexts hold. */
  function Held(contexts: seq<FuzzContext>): (held: seq<Context>)
    reads contexts
    ensures |held| == |contexts| && forall i :: 0 <= i < |contexts| ==> held[i] == contexts[i].now
  {
    seq(|contexts|, i requires 0 <= i < |contexts| reads contexts => contexts[i].now)
  }

  /** Carries out one event on the contexts: what they hold afterwards, and what has been handed out, is what the
      step says. */
  method Perform(contexts: seq<FuzzContext>, e: Event, ghost handed: seq<Handout>)
    returns (after: seq<FuzzContext>, ghost handedAfter: seq<Handout>)
    requires forall i, j :: 0 <= i < j < |contexts| ==> contexts[i] != contexts[j]
    modifies contexts
    ensures contexts <= after && forall i, j :: 0 <= i < j < |after| ==> after[i] != after[j]
    ensures forall i :: |contexts| <= i < |after| ==> fresh(after[i])
    ensures State(Held(after), handedAfter) == Step(State(old(Held(contexts)), handed), e)
  {
    after, handedAfter := contexts, handed;
    if e.i >= |contexts| {
      return;
    }
    var context := contexts[e.i];
    ghost var was := context.now;
    match e {
      case Draw(_, count) => {
        var ok, at := context.Consume(count);
        if ok {
          handedAfter := handed + [Handout(Region(at, count), was)];
        }
      }
      case Carve(_, count) => {
        var sub := new FuzzContext(false, 0, 0);
        var _ := context.CreateSubContext(sub, count);
        after := contexts + [sub];
      }
      case Limit(_, limit) => {
        context.SetLimit(limit);
      }
      case NoLimit(_) => {
        context.ClearLimit();
      }
      case Skip(_, target) => {
        context.AdvanceTo(target);
      }
    }
    assert Held(contexts) == old(Held(contexts))[e.i := context.now];
    assert Held(after) == Held(contexts) + if e.Carve? then [after[|contexts|].now] else [];
  }

  // ----- the registry -----

  const MAX_PROTOCOL_CONTEXTS: nat := 1024

  type Guid = nat
  type ContextPointer = nat
  const NULL: ContextPointer := 0

  datatype Entry = Entry(guid: Guid, context: ContextPointer)

  /** The first n entries are those of the map, each GUID once; `slots` says where. */
  ghost predicate Represents(table: seq<Entry>, n: nat, entries: map<Guid, ContextPointer>, slots: map<Guid, nat>) {
    && n == |entries| && n <= |table| && slots.Keys == entries.Keys
    && (forall k :: 0 <= k < n ==>
          table[k].guid in entries && slots[table[k].guid] == k && entries[table[k].guid] == table[k].context != NULL)
    && (forall g :: g in slots ==> slots[g] < n && table[slots[g]].guid == g)
  }

  lemma CountIs(table: seq<Entry>, n: nat, entries: map<Guid, ContextPointer>, slots: map<Guid, nat>)
    requires Represents(table, n, entries, slots)
    ensures n == |entries| <= |table|
  {
  }

  lemma Updated(table: seq<Entry>, n: nat, entries: map<Guid, ContextPointer>, slots: map<Guid, nat>, i: nat,
                context: ContextPointer)
    requires Represents(table, n, entries, slots) && i < n && context != NULL
    ensures Represents(table[i := table[i].(context := context)], n, entries[table[i].guid := context], slots)
  {
    var g := table[i].guid;
    assert entries[g := context].Keys == entries.Keys;
    assert |entries[g := context].Keys| == |entries.Keys|;
  }

  lemma Added(table: seq<Entry>, n: nat, entries: map<Guid, ContextPointer>, slots: map<Guid, nat>, e: Entry)
    requires Represents(table, n, entries, slots) && n < |table| && e.guid !in entries && e.context != NULL
    ensures Represents(table[n := e], n + 1, entries[e.guid := e.context], slots[e.guid := n])
  {
    var table', entries', slots' := table[n := e], entries[e.guid := e.context], slots[e.guid := n];
    assert entries'.Keys == entries.Keys + {e.guid};
    forall k | 0 <= k < n + 1
      ensures table'[k].guid in entries' && slots'[table'[k].guid] == k
              && entries'[table'[k].guid] == table'[k].context != NULL
    {
      assert k < n ==> table'[k] == table[k];
    }
  }

  lemma KeyRemoved<V>(m: map<Guid, V>, g: Guid)
    requires g in m
    ensures (m - {g}).Keys == m.Keys - {g} && |m - {g}| == |m| - 1
  {
    assert (m - {g}).Keys == m.Keys - {g};
    assert |m| == |m.Keys| && |m - {g}| == |(m - {g}).Keys|;
  }

  lemma SlotMoved(table: seq<Entry>, n: nat, entries: map<Guid, ContextPointer>, slots: map<Guid, nat>, i: nat, k: nat)
    requires Represents(table, n, entries, slots) && i < n && k < n - 1
    ensures var e := if k == i then table[n - 1] else table[k];
            e.guid != table[i].guid && e.guid in entries && entries[e.guid] == e.context != NULL
            && slots[table[n - 1].guid := i][e.guid] == k
  {
    assert slots[table[k].guid] == k && slots[table[i].guid] == i && slots[table[n - 1].guid] == n - 1;
  }

  lemma GuidMoved(table: seq<Entry>, n: nat, entries: map<Guid, ContextPointer>, slots: map<Guid, nat>, i: nat, g: Guid)
    requires Represents(table, n, entries, slots) && i < n && g in slots && g != table[i].guid
    ensures var k := slots[table[n - 1].guid := i][g];
            k < n - 1 && (if k == i then table[n - 1] else table[k]).guid == g
  {
    assert slots[table[i].guid] == i && slots[table[n - 1].guid] == n - 1;
    assert table[slots[g]].guid == g;
  }

  /** The last entry has moved into the slot of the removed one. */
  lemma Removed(table: seq<Entry>, n: nat, entries: map<Guid, ContextPointer>, slots: map<Guid, nat>, i: nat)
    requires Represents(table, n, entries, slots) && i < n
    ensures Represents(table[i := table[n - 1]][n - 1 := Entry(0, NULL)], n - 1, entries - {table[i].guid},
                       slots[table[n - 1].guid := i] - {table[i].guid})
  {
    var g, last := table[i].guid, table[n - 1].guid;
    var table', entries', slots' := table[i := table[n - 1]][n - 1 := Entry(0, NULL)], entries - {g},
        slots[last := i] - {g};
    assert table[i].guid in entries && table[n - 1].guid in slots;
    KeyRemoved(entries, g);
    assert slots'.Keys == slots.Keys - {g};
    forall k | 0 <= k < n - 1
      ensures table'[k].guid in entries' && slots'[table'[k].guid] == k
              && entries'[table'[k].guid] == table'[k].context != NULL
    {
      SlotMoved(table, n, entries, slots, i, k);
    }
    forall x | x in slots' ensures slots'[x] < n - 1 && table'[slots'[x]].guid == x {
      GuidMoved(table, n, entries, slots, i, x);
    }
  }

  class Registry {
    const table: array<Entry>
    var count: nat
    ghost var entries: map<Guid, ContextPointer>
    ghost var slots: map<Guid, nat>

    ghost predicate Valid()
      reads this, table
    {
      table.Length == MAX_PROTOCOL_CONTEXTS && Represents(table[..], count, entries, slots)
    }

    constructor ()
      ensures Valid() && fresh(table) && entries == map[]
    {
      table := new Entry[MAX_PROTOCOL_CONTEXTS](_ => Entry(0, NULL));
      count, entries, slots := 0, map[], map[];
    }

    /** The slot of a GUID, or the count when there is none. */
    method Find(guid: Guid) returns (index: nat)
      requires Valid()
      ensures index <= count && (guid in entries <==> index < count) && (index < count ==> table[index].guid == guid)
    {
      index := 0;
      while index < count
        invariant index <= count && forall k :: 0 <= k < index ==> table[k].guid != guid
      {
        if table[index].guid == guid {
          return;
        }
        index := index + 1;
      }
    }

    /** MockFuzzContextSetProtocolContext. */
    method SetProtocolContext(guid: Guid, context: ContextPointer) returns (status: Status)
      requires Valid()
      modifies this, table
      ensures Valid()
      ensures context != NULL ==> status == if guid in old(entries) || |old(entries)| < MAX_PROTOCOL_CONTEXTS
              then Success else OutOfResources
      ensures context != NULL && guid !in old(entries) ==> (status == Success <==> |old(entries)| < 1024)
      ensures context == NULL ==> status == if guid in old(entries) then Success else NotFound
      ensures entries == if status != Success then old(entries)
              else if context != NULL then old(entries)[guid := context] else old(entries) - {guid}
    {
      hide Represents;
      CountIs(table[..], count, entries, slots);
      if context == NULL {
        status := ClearProtocolContext(guid);
        return;
      }
      var index := Find(guid);
      if index < count {
        Updated(table[..], count, entries, slots, index, context);
        table[index] := table[index].(context := context);
        entries := entries[guid := context];
        return Success;
      }
      if count >= MAX_PROTOCOL_CONTEXTS {
        return OutOfResources;
      }
      Added(table[..], count, entries, slots, Entry(guid, context));
      table[count] := Entry(guid, context);
      slots := slots[guid := count];
      count := count + 1;
      entries := entries[guid := context];
      return Success;
    }

    /** MockFuzzContextGetProtocolContext. */
    method GetProtocolContext(guid: Guid) returns (context: ContextPointer)
      requires Valid()
      ensures context == if guid in entries then entries[guid] else NULL
      ensures guid in entries <==> context != NULL
    {
      var index := Find(guid);
      context := if index < count then table[index].context else NULL;
    }

    /** MockFuzzContextClearProtocolContext: the last entry moves into the slot. */
    method ClearProtocolContext(guid: Guid) returns (status: Status)
      requires Valid()
      modifies this, table
      ensures Valid() && entries == old(entries) - {guid}
      ensures status == if guid in old(entries) then Success else NotFound
    {
      hide Represents;
      CountIs(table[..], count, entries, slots);
      var index := Find(guid);
      if index == count {
        assert entries - {guid} == entries;
        return NotFound;
      }
      ghost var was, n := table[..], count;
      Removed(was, n, entries, slots, index);
      count := count - 1;
      slots := slots[table[count].guid := index] - {guid};
      if index < count {
        table[index] := table[count];
      }
      table[count] := Entry(0, NULL);
      entries := entries - {guid};
      assert table[..] == was[index := was[n - 1]][n - 1 := Entry(0, NULL)];
      return Success;
    }

    /** MockFuzzContextClearAllProtocolContexts. */
    method ClearAllProtocolContexts()
      requires Valid()
      modifies this, table
      ensures Valid() && entries == map[]
    {
      if count == 0 {
        return;
      }
      forall k | 0 <= k < MAX_PROTOCOL_CONTEXTS {
        table[k] := Entry(0, NULL);
      }
      count, entries, slots := 0, map[], map[];
    }
  }
}
