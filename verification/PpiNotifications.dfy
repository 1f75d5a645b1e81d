/** The values the PPI database is made of, and what it means for its notifications to fire exactly once:
    HostLib/PeiServicesTablePointerLibHost/Ppi.c and PeiMain.h. */
module PpiNotifications {

  // ----- descriptors -----

  /** Compared 32 bits at a time. */
  datatype Guid = Guid(word0: int, word1: int, word2: int, word3: int)

  /** A mask, as the set of the numbers of its bits. */
  type Flags = set<nat>

  const FLAG_PPI: Flags := {4}
  const FLAG_NOTIFY_CALLBACK: Flags := {5}
  const FLAG_NOTIFY_DISPATCH: Flags := {6}
  const FLAG_NOTIFY_TYPES: Flags := FLAG_NOTIFY_CALLBACK + FLAG_NOTIFY_DISPATCH
  const FLAG_TERMINATE_LIST: Flags := {31}

  /** EFI_PEI_PPI_DESCRIPTOR or EFI_PEI_NOTIFY_DESCRIPTOR: its own address, its fields, and the address of the
      interface or of the function to call. */
  datatype Descriptor = Descriptor(address: nat, flags: Flags, guid: Guid, target: nat)

  predicate IsPpi(d: Descriptor) {
    d.flags * FLAG_PPI != {}
  }

  predicate IsNotify(d: Descriptor) {
    d.flags * FLAG_NOTIFY_TYPES != {}
  }

  predicate IsCallback(d: Descriptor) {
    d.flags * FLAG_NOTIFY_CALLBACK != {}
  }

  predicate Ends(d: Descriptor, single: bool) {
    single || d.flags * FLAG_TERMINATE_LIST == FLAG_TERMINATE_LIST
  }

  /** The flags by their bits: 4 for a PPI, 5 for a callback, 6 for a notify at dispatch level, 31 for the end. */
  lemma FlagsByBits(d: Descriptor)
    ensures IsPpi(d) <==> 4 in d.flags
    ensures IsNotify(d) <==> 5 in d.flags || 6 in d.flags
    ensures IsCallback(d) <==> 5 in d.flags
    ensures Ends(d, true) && (Ends(d, false) <==> 31 in d.flags)
  {
    assert 4 in d.flags ==> 4 in d.flags * FLAG_PPI;
    assert 5 in d.flags ==> 5 in d.flags * FLAG_NOTIFY_CALLBACK && 5 in d.flags * FLAG_NOTIFY_TYPES;
    assert 6 in d.flags ==> 6 in d.flags * FLAG_NOTIFY_TYPES;
    assert d.flags * FLAG_TERMINATE_LIST == (if 31 in d.flags then {31} else {});
  }

  predicate SameGuid(x: Descriptor, y: Descriptor)
    ensures SameGuid(x, y) <==> x.guid == y.guid
  {
    && x.guid.word0 == y.guid.word0
    && x.guid.word1 == y.guid.word1
    && x.guid.word2 == y.guid.word2
    && x.guid.word3 == y.guid.word3
  }

  /** What a call asks for: PPI descriptors or notify descriptors. */
  datatype Kind = Ppis | Notifies

  predicate Acceptable(d: Descriptor, kind: Kind) {
    if kind.Ppis? then IsPpi(d) else IsNotify(d)
  }

  /** The first n items are acceptable and do not end the list. */
  ghost predicate GoesOn(list: seq<Descriptor>, kind: Kind, single: bool, n: int)
    requires n <= |list|
  {
    forall k :: 0 <= k < n ==> Acceptable(list[k], kind) && !Ends(list[k], single)
  }

  /** The first n items of a caller's list are all of it: each of them is acceptable, and the last is the
      first that ends it. */
  ghost predicate Whole(list: seq<Descriptor>, kind: Kind, single: bool, n: nat) {
    && 0 < n <= |list|
    && GoesOn(list, kind, single, n - 1)
    && Acceptable(list[n - 1], kind) && Ends(list[n - 1], single)
  }

  /** The same by bits: PPIs have bit 4, notifies bit 5 or 6, and the last item alone has bit 31, unless the list is a
      single item. */
  lemma WholeByBits(list: seq<Descriptor>, kind: Kind, single: bool, n: nat)
    ensures Whole(list, kind, single, n) <==>
            && 0 < n <= |list| && (single ==> n == 1)
            && (forall k :: 0 <= k < n ==>
                  if kind.Ppis? then 4 in list[k].flags else 5 in list[k].flags || 6 in list[k].flags)
            && (!single ==> forall k :: 0 <= k < n ==> (31 in list[k].flags <==> k == n - 1))
  {
    hide IsPpi, IsNotify, Ends;
    forall k | 0 <= k < |list|
      ensures Acceptable(list[k], kind) <==>
              if kind.Ppis? then 4 in list[k].flags else 5 in list[k].flags || 6 in list[k].flags
      ensures Ends(list[k], single) <==> single || 31 in list[k].flags
    {
      FlagsByBits(list[k]);
      assert Ends(list[k], true);
    }
    if single && 1 < n <= |list| {
      assert Ends(list[0], single);
    }
  }

  /** Item k of a caller's list has to be refused, and nothing before it ends the list. */
  ghost predicate Refused(list: seq<Descriptor>, kind: Kind, single: bool, k: nat) {
    && k < |list|
    && !Acceptable(list[k], kind)
    && GoesOn(list, kind, single, k)
  }

  /** A caller's list has an end, or an item that is refused. The empty sequence stands for a NULL pointer. */
  ghost predicate Readable(list: seq<Descriptor>, kind: Kind, single: bool) {
    list == [] || exists k :: 0 <= k < |list| && (Ends(list[k], single) || !Acceptable(list[k], kind))
  }

  /** A readable list is refused at one place or taken whole, never both. */
  lemma ReadableIsWholeOrRefused(list: seq<Descriptor>, kind: Kind, single: bool)
    requires Readable(list, kind, single) && list != []
    ensures (exists n: nat :: Whole(list, kind, single, n)) <==> !(exists k: nat :: Refused(list, kind, single, k))
  {
    forall n: nat, k: nat ensures !(Whole(list, kind, single, n) && Refused(list, kind, single, k)) {
      assert 0 < n <= |list| && k < |list| ==> n - 1 < k || k < n;
    }
    var j := FirstStop(list, kind, single);
    if Acceptable(list[j], kind) {
      assert Whole(list, kind, single, j + 1);
    } else {
      assert Refused(list, kind, single, j);
    }
  }

  lemma NotPastTheEnd(list: seq<Descriptor>, kind: Kind, single: bool, n: nat)
    requires n < |list| && GoesOn(list, kind, single, n) && Acceptable(list[n], kind) && !Ends(list[n], single)
    requires Readable(list, kind, single)
    ensures n + 1 < |list| && GoesOn(list, kind, single, n + 1)
  {
  }

  lemma FirstStop(list: seq<Descriptor>, kind: Kind, single: bool) returns (j: nat)
    requires Readable(list, kind, single) && list != []
    ensures j < |list| && (Ends(list[j], single) || !Acceptable(list[j], kind))
    ensures GoesOn(list, kind, single, j)
  {
    j := 0;
    while !Ends(list[j], single) && Acceptable(list[j], kind)
      invariant j < |list|
      invariant GoesOn(list, kind, single, j)
      decreases |list| - j
    {
      j := j + 1;
    }
  }

  /** The notify descriptors among the items that go to the callback list, or to the dispatch list. */
  function Chosen(items: seq<Descriptor>, callback: bool): seq<Descriptor> {
    if items == [] then []
    else Chosen(items[..|items| - 1], callback) + if IsCallback(items[|items| - 1]) == callback
        then [items[|items| - 1]] else []
  }

  /** One call a callback makes. */
  datatype Call = Call(kind: Kind, list: seq<Descriptor>, single: bool)

  ghost predicate CallReadable(call: Call) {
    Readable(call.list, call.kind, call.single)
  }

  /** What one callback does, call after call. */
  type Script = seq<Call>

  ghost predicate PlanReadable(plan: seq<Script>) {
    forall i, j :: 0 <= i < |plan| && 0 <= j < |plan[i]| ==> CallReadable(plan[i][j])
  }

  // ----- what has fired -----

  /** A notify descriptor, by its index in its list, and a PPI, by its index. */
  type Pair = (int, int)

  /** The database at one moment, and how often each pair has fired, at callback and at dispatch level. */
  datatype Snapshot = Snapshot(ppis: seq<Descriptor>, callbacks: seq<Descriptor>, dispatches: seq<Descriptor>,
                               ppisDone: nat, dispatchesDone: nat,
                               called: multiset<Pair>, dispatched: multiset<Pair>)

  const EMPTY: Snapshot := Snapshot([], [], [], 0, 0, multiset{}, multiset{})

  /** Every descriptor is in the list that its bits name: a PPI has bit 4, a callback bit 5, and a notify at dispatch
      level bit 6 and not bit 5. */
  ghost predicate Sorted(ppis: seq<Descriptor>, callbacks: seq<Descriptor>, dispatches: seq<Descriptor>) {
    && (forall p :: 0 <= p < |ppis| ==> 4 in ppis[p].flags)
    && (forall n :: 0 <= n < |callbacks| ==> 5 in callbacks[n].flags)
    && (forall n :: 0 <= n < |dispatches| ==> 5 !in dispatches[n].flags && 6 in dispatches[n].flags)
  }

  /** The database with one more notify descriptor, in the list its flags name. */
  function Stored(v: Snapshot, d: Descriptor): Snapshot {
    if IsCallback(d) then v.(callbacks := v.callbacks + [d]) else v.(dispatches := v.dispatches + [d])
  }

  /** The database with the given notify descriptors behind those it has. */
  function AllStored(v: Snapshot, items: seq<Descriptor>): Snapshot {
    v.(callbacks := v.callbacks + Chosen(items, true), dispatches := v.dispatches + Chosen(items, false))
  }

  function TakenBack(v: Snapshot, callbackCount: nat, dispatchCount: nat): Snapshot
    requires callbackCount <= |v.callbacks| && dispatchCount <= |v.dispatches|
  {
    v.(callbacks := v.callbacks[..callbackCount], dispatches := v.dispatches[..dispatchCount])
  }

  lemma {:induction false} ChosenByBits(items: seq<Descriptor>, d: Descriptor)
    ensures d in Chosen(items, true) <==> d in items && 5 in d.flags
    ensures d in Chosen(items, false) <==> d in items && 5 !in d.flags
    ensures |Chosen(items, true)| + |Chosen(items, false)| == |items|
  {
    if items != [] {
      ChosenByBits(items[..|items| - 1], d);
      FlagsByBits(items[|items| - 1]);
      assert items == items[..|items| - 1] + [items[|items| - 1]];
    }
  }

  /** Each of the items is among the new items of the list that its bit 5 names, and not in the other list. */
  ghost predicate Filed(items: seq<Descriptor>, callbacks: seq<Descriptor>, dispatches: seq<Descriptor>,
                        newCallbacks: seq<Descriptor>, newDispatches: seq<Descriptor>) {
    forall k :: 0 <= k < |items| ==>
      if 5 in items[k].flags then items[k] in newCallbacks && items[k] !in dispatches
      else items[k] in newDispatches && items[k] !in callbacks
  }

  lemma FiledByBits(items: seq<Descriptor>, v: Snapshot, w: Snapshot)
    requires Sorted(w.ppis, w.callbacks, w.dispatches)
    requires v.callbacks + Chosen(items, true) <= w.callbacks && v.dispatches + Chosen(items, false) <= w.dispatches
    ensures Filed(items, w.callbacks, w.dispatches, w.callbacks[|v.callbacks|..], w.dispatches[|v.dispatches|..])
  {
    var x, y := w.callbacks[|v.callbacks|..], w.dispatches[|v.dispatches|..];
    Behind(v.callbacks, Chosen(items, true), w.callbacks);
    Behind(v.dispatches, Chosen(items, false), w.dispatches);
    forall k | 0 <= k < |items|
      ensures if 5 in items[k].flags then items[k] in x && items[k] !in w.dispatches
              else items[k] in y && items[k] !in w.callbacks
    {
      ChosenByBits(items, items[k]);
    }
  }

  lemma Behind(x: seq<Descriptor>, y: seq<Descriptor>, z: seq<Descriptor>)
    requires x + y <= z
    ensures y <= z[|x|..]
    ensures forall d :: d in y ==> d in z[|x|..]
  {
    assert z == (x + y) + z[|x + y|..];
    assert z[|x|..] == y + z[|x + y|..];
  }

  lemma StoredNext(v: Snapshot, list: seq<Descriptor>, i: nat)
    requires i < |list|
    ensures AllStored(v, list[..i + 1]) == Stored(AllStored(v, list[..i]), list[i])
    ensures AllStored(v, list[..0]) == v
  {
    assert list[..i + 1][..i] == list[..i];
    assert v.callbacks + [] == v.callbacks && v.dispatches + [] == v.dispatches;
  }

  lemma StoredTakenBack(v: Snapshot, items: seq<Descriptor>)
    ensures |v.callbacks| <= |AllStored(v, items).callbacks| && |v.dispatches| <= |AllStored(v, items).dispatches|
    ensures TakenBack(AllStored(v, items), |v.callbacks|, |v.dispatches|) == v
  {
  }

  predicate Matches(notifies: seq<Descriptor>, ppis: seq<Descriptor>, n: int, p: int) {
    0 <= n < |notifies| && 0 <= p < |ppis| && notifies[n].guid == ppis[p].guid
  }

  predicate Known(v: Snapshot, n: int, p: int) {
    n < |v.callbacks| && p < |v.ppis|
  }

  /** 1 when callback pair (n, p) came into being between v and w. */
  function Appeared(v: Snapshot, w: Snapshot, n: int, p: int): nat {
    if Matches(w.callbacks, w.ppis, n, p) && !Known(v, n, p) then 1 else 0
  }

  function Once(pairs: set<Pair>, n: int, p: int): nat {
    if (n, p) in pairs then 1 else 0
  }

  ghost predicate Longer(v: Snapshot, w: Snapshot) {
    v.ppis <= w.ppis && v.callbacks <= w.callbacks && v.dispatches <= w.dispatches
  }

  /** The lists grew, and the marks are where they were. */
  ghost predicate Grown(v: Snapshot, w: Snapshot) {
    && Longer(v, w)
    && v.ppisDone == w.ppisDone && v.dispatchesDone == w.dispatchesDone
  }

  /** From v to w the lists grew, every callback pair that appeared meanwhile fired once, the given pairs fired
      once more at the given level, and nothing else fired. */
  ghost predicate Fired(v: Snapshot, w: Snapshot, callback: bool, pairs: set<Pair>) {
    && Grown(v, w)
    && (forall n, p :: w.called[(n, p)] == v.called[(n, p)] + Appeared(v, w, n, p) + if callback then Once(pairs, n, p)
        else 0)
    && (forall n, p :: w.dispatched[(n, p)] == v.dispatched[(n, p)] + if callback then 0 else Once(pairs, n, p))
  }

  /** The effect of a call that has returned, at any depth of nesting. */
  ghost predicate Served(v: Snapshot, w: Snapshot) {
    Fired(v, w, true, {})
  }

  lemma FiredThenFired(u: Snapshot, v: Snapshot, w: Snapshot, callback: bool, xs: set<Pair>, ys: set<Pair>)
    requires Fired(u, v, callback, xs) && Fired(v, w, callback, ys) && xs !! ys
    ensures Fired(u, w, callback, xs + ys)
  {
    forall n, p ensures Appeared(u, w, n, p) == Appeared(u, v, n, p) + Appeared(v, w, n, p) {
    }
    forall n, p ensures Once(xs + ys, n, p) == Once(xs, n, p) + Once(ys, n, p) {
    }
  }

  lemma FiredNone(v: Snapshot, callback: bool)
    ensures Fired(v, v, callback, {})
  {
  }

  lemma FiredOne(v: Snapshot, w: Snapshot, callback: bool, n: int, p: int)
    requires if callback then w == v.(called := v.called + multiset{(n, p)})
             else w == v.(dispatched := v.dispatched + multiset{(n, p)})
    ensures Fired(v, w, callback, {(n, p)})
  {
  }

  lemma FiredGrows(v: Snapshot, w: Snapshot, callback: bool, pairs: set<Pair>)
    requires Fired(v, w, callback, pairs)
    ensures Grown(v, w)
  {
  }

  /** One more firing, and all it brings about. */
  lemma FiredThenOne(u: Snapshot, v: Snapshot, w: Snapshot, callback: bool, xs: set<Pair>, n: int, p: int)
    requires Fired(u, v, callback, xs) && Fired(v, w, callback, {(n, p)}) && (n, p) !in xs
    ensures Fired(u, w, callback, xs + {(n, p)})
  {
    FiredThenFired(u, v, w, callback, xs, {(n, p)});
  }

  /** A firing, and then the calls of its callback. */
  lemma FiredThenServed(u: Snapshot, v: Snapshot, w: Snapshot, callback: bool, n: int, p: int)
    requires Fired(u, v, callback, {(n, p)}) && Served(v, w)
    ensures Fired(u, w, callback, {(n, p)})
  {
    FiredThenFired(u, v, w, callback, {(n, p)}, {});
    assert {(n, p)} + {} == {(n, p)};
  }

  lemma ServedNothing(v: Snapshot)
    ensures Served(v, v)
  {
  }

  lemma ServedGrows(v: Snapshot, w: Snapshot)
    requires Served(v, w)
    ensures Grown(v, w)
  {
  }

  lemma ServedThenServed(u: Snapshot, v: Snapshot, w: Snapshot)
    requires Served(u, v) && Served(v, w)
    ensures Served(u, w)
  {
    var none: set<Pair> := {};
    FiredThenFired(u, v, w, true, none, none);
    assert none + none == none;
  }

  /** Every matching callback pair has fired exactly once, and no other pair has fired. */
  ghost predicate CallbacksComplete(v: Snapshot) {
    forall n, p :: v.called[(n, p)] == if Matches(v.callbacks, v.ppis, n, p) then 1 else 0
  }

  /** The dispatch pairs that have fired are the matching ones below the two marks, each once. */
  ghost predicate DispatchedRectangle(v: Snapshot) {
    && v.ppisDone <= |v.ppis| && v.dispatchesDone <= |v.dispatches|
    && (forall n, p :: v.dispatched[(n, p)] ==
          if Matches(v.dispatches, v.ppis, n, p) && n < v.dispatchesDone && p < v.ppisDone then 1 else 0)
  }

  /** Every matching dispatch pair has fired exactly once, and no other pair has fired. */
  ghost predicate DispatchesComplete(v: Snapshot) {
    forall n, p :: v.dispatched[(n, p)] == if Matches(v.dispatches, v.ppis, n, p) then 1 else 0
  }

  lemma ServedKeepsComplete(v: Snapshot, w: Snapshot)
    requires Served(v, w)
    ensures CallbacksComplete(v) ==> CallbacksComplete(w)
    ensures DispatchedRectangle(v) ==> DispatchedRectangle(w)
  {
  }

  /** A processing of the dispatch lists: callbacks are served as in any call, the marks reach both ends. */
  ghost predicate Dispatched(v: Snapshot, w: Snapshot) {
    && Longer(v, w)
    && (forall n, p :: w.called[(n, p)] == v.called[(n, p)] + Appeared(v, w, n, p))
    && (DispatchedRectangle(v) ==> DispatchedRectangle(w))
    && w.ppisDone == |w.ppis| && w.dispatchesDone == |w.dispatches|
  }

  /** Any sequence of outermost calls and of dispatch passes, callbacks nesting to any depth inside them: every
      matching callback pair has fired exactly once whenever control is back outside, and right after a
      dispatch pass every matching dispatch pair has too. */
  lemma {:induction false} ExactlyOnceInEveryRun(run: seq<Snapshot>, i: nat)
    requires |run| > 0 && run[0] == EMPTY && i < |run|
    requires forall k :: 0 <= k < |run| - 1 ==> Served(run[k], run[k + 1]) || Dispatched(run[k], run[k + 1])
    ensures CallbacksComplete(run[i]) && DispatchedRectangle(run[i])
    ensures i > 0 && Dispatched(run[i - 1], run[i]) ==> DispatchesComplete(run[i])
  {
    if i > 0 {
      ExactlyOnceInEveryRun(run, i - 1);
      if Served(run[i - 1], run[i]) {
        ServedKeepsComplete(run[i - 1], run[i]);
      }
    }
  }

  /** The matching pairs of a rectangle of indices. */
  ghost function Area(notifies: seq<Descriptor>, ppis: seq<Descriptor>, n0: int, n1: int, p0: int,
                      p1: int): (pairs: set<Pair>)
    ensures forall n, p :: (n, p) in pairs <==> n0 <= n < n1 && p0 <= p < p1 && Matches(notifies, ppis, n, p)
  {
    set n, p | n0 <= n < n1 && p0 <= p < p1 && Matches(notifies, ppis, n, p) :: (n, p)
  }

  lemma AreaEmpty(notifies: seq<Descriptor>, ppis: seq<Descriptor>, n0: int, n1: int, p0: int, p1: int)
    requires n0 >= n1 || p0 >= p1
    ensures Area(notifies, ppis, n0, n1, p0, p1) == {}
  {
  }

  lemma AreaRow(notifies: seq<Descriptor>, ppis: seq<Descriptor>, n0: int, i: int, p0: int, p1: int)
    requires n0 <= i
    ensures Area(notifies, ppis, n0, i + 1, p0, p1)
            == Area(notifies, ppis, n0, i, p0, p1) + Area(notifies, ppis, i, i + 1, p0, p1)
  {
  }

  lemma AreaNext(notifies: seq<Descriptor>, ppis: seq<Descriptor>, i: int, p0: int, j: int)
    requires p0 <= j
    ensures var pairs := Area(notifies, ppis, i, i + 1, p0, j);
            Area(notifies, ppis, i, i + 1, p0, j + 1) == if Matches(notifies, ppis, i, j) then pairs + {(i, j)}
                else pairs
  {
  }

  // ----- what callbacks have done -----

  /** How often anything has fired. */
  function Firings(v: Snapshot): nat {
    |v.called| + |v.dispatched|
  }

  /** The call has been carried out: if its list is whole, its items are where they belong. */
  ghost predicate Has(v: Snapshot, call: Call) {
    forall n: nat, k :: Whole(call.list, call.kind, call.single, n) && 0 <= k < n ==>
      call.list[k] in if call.kind.Ppis? then v.ppis else if IsCallback(call.list[k]) then v.callbacks else v.dispatches
  }

  /** Each firing since `firings` has taken the next script of the plan, as long as there was one, and all calls
      of these scripts have been carried out. */
  ghost predicate Performed(was: seq<Script>, firings: nat, now: seq<Script>, w: Snapshot) {
    var f := Firings(w) - firings;
    && 0 <= f && now == (if f <= |was| then was[f..] else [])
    && (forall k, j :: 0 <= k < f && k < |was| && 0 <= j < |was[k]| ==> Has(w, was[k][j]))
  }

  lemma StillHas(v: Snapshot, w: Snapshot, call: Call)
    requires Has(v, call) && Longer(v, w)
    ensures Has(w, call)
  {
  }

  lemma NothingPerformed(plan: seq<Script>, v: Snapshot)
    ensures Performed(plan, Firings(v), plan, v)
  {
  }

  lemma PerformedThenPerformed(a: seq<Script>, firings: nat, b: seq<Script>, v: Snapshot, c: seq<Script>, w: Snapshot)
    requires Performed(a, firings, b, v) && Performed(b, Firings(v), c, w) && Longer(v, w)
    ensures Performed(a, firings, c, w)
  {
    hide Has, Longer;
    var f, g := Firings(v) - firings, Firings(w) - Firings(v);
    forall k, j | 0 <= k < f + g && k < |a| && 0 <= j < |a[k]| ensures Has(w, a[k][j]) {
      if k < f {
        StillHas(v, w, a[k][j]);
      } else {
        assert a[k] == b[k - f];
      }
    }
  }

  /** Moving a mark performs nothing. */
  lemma PerformedMark(was: seq<Script>, firings: nat, now: seq<Script>, w: Snapshot, x: Snapshot)
    requires Performed(was, firings, now, w) && x == w.(ppisDone := x.ppisDone, dispatchesDone := x.dispatchesDone)
    ensures Performed(was, firings, now, x)
  {
    forall k, j | 0 <= k < Firings(w) - firings && k < |was| && 0 <= j < |was[k]| ensures Has(x, was[k][j]) {
      StillHas(w, x, was[k][j]);
    }
  }

  /** The next script has been taken, and its calls carried out with all they brought about. */
  lemma ScriptPerformed(was: seq<Script>, firings: nat, v: Snapshot, now: seq<Script>, w: Snapshot)
    requires was != [] && Firings(v) == firings + 1 && Performed(was[1..], Firings(v), now, w)
    requires forall j :: 0 <= j < |was[0]| ==> Has(w, was[0][j])
    ensures Performed(was, firings, now, w)
  {
    hide Has;
    forall k, j | 0 <= k < Firings(w) - firings && k < |was| && 0 <= j < |was[k]| ensures Has(w, was[k][j]) {
      if k > 0 {
        assert was[k] == was[1..][k - 1];
      }
    }
  }

  lemma NoScriptPerformed(v: Snapshot, firings: nat)
    requires Firings(v) == firings + 1
    ensures Performed([], firings, [], v)
  {
  }

  lemma WholeIsUnique(list: seq<Descriptor>, kind: Kind, single: bool, m: nat, n: nat)
    requires Whole(list, kind, single, m) && Whole(list, kind, single, n)
    ensures m == n
  {
  }

  lemma HasPpis(v: Snapshot, list: seq<Descriptor>, single: bool, front: seq<Descriptor>, n: nat)
    requires Whole(list, Ppis, single, n) && front + list[..n] <= v.ppis
    ensures Has(v, Call(Ppis, list, single))
  {
    forall m: nat, k | Whole(list, Ppis, single, m) && 0 <= k < m ensures list[k] in v.ppis {
      WholeIsUnique(list, Ppis, single, m, n);
      assert v.ppis[|front| + k] == (front + list[..n])[|front| + k] == list[k];
    }
  }

  lemma {:induction false} ChosenHas(items: seq<Descriptor>, k: nat)
    requires k < |items|
    ensures items[k] in Chosen(items, IsCallback(items[k]))
    decreases |items|
  {
    if k < |items| - 1 {
      ChosenHas(items[..|items| - 1], k);
    }
  }

  lemma HasNotifies(v: Snapshot, list: seq<Descriptor>, single: bool, callbacks: seq<Descriptor>,
                    dispatches: seq<Descriptor>, n: nat)
    requires Whole(list, Notifies, single, n)
    requires callbacks + Chosen(list[..n], true) <= v.callbacks && dispatches + Chosen(list[..n], false) <= v.dispatches
    ensures Has(v, Call(Notifies, list, single))
  {
    forall m: nat, k | Whole(list, Notifies, single, m) && 0 <= k < m
      ensures list[k] in if IsCallback(list[k]) then v.callbacks else v.dispatches
    {
      WholeIsUnique(list, Notifies, single, m, n);
      ChosenHas(list[..n], k);
      InLonger(list[k], callbacks, Chosen(list[..n], true), v.callbacks);
      InLonger(list[k], dispatches, Chosen(list[..n], false), v.dispatches);
    }
  }

  lemma InLonger(d: Descriptor, x: seq<Descriptor>, y: seq<Descriptor>, z: seq<Descriptor>)
    requires x + y <= z
    ensures d in y ==> d in z
  {
    if d in y {
      var k :| 0 <= k < |y| && y[k] == d;
      assert z[|x| + k] == (x + y)[|x| + k];
    }
  }

  /** A refused list has nothing to be carried out. */
  lemma HasRefused(v: Snapshot, list: seq<Descriptor>, kind: Kind, single: bool)
    requires list == [] || exists k: nat :: Refused(list, kind, single, k)
    ensures Has(v, Call(kind, list, single))
  {
    if list != [] {
      var k: nat :| Refused(list, kind, single, k);
      forall n: nat ensures !Whole(list, kind, single, n) {
        assert 0 < n <= |list| ==> n - 1 < k || k < n;
      }
    }
  }

  // ----- instances -----

  /** How many of the PPIs have the GUID. */
  function Instances(ppis: seq<Descriptor>, guid: Guid): nat {
    if ppis == [] then 0
    else Instances(ppis[..|ppis| - 1], guid) + if ppis[|ppis| - 1].guid == guid then 1 else 0
  }

  /** That is the number of places where the GUID stands. */
  lemma {:induction false} InstancesCount(ppis: seq<Descriptor>, guid: Guid)
    ensures Instances(ppis, guid) == |set k | 0 <= k < |ppis| && ppis[k].guid == guid|
  {
    if ppis != [] {
      var n := |ppis| - 1;
      InstancesCount(ppis[..n], guid);
      var before := set k | 0 <= k < |ppis[..n]| && ppis[..n][k].guid == guid;
      assert (set k | 0 <= k < |ppis| && ppis[k].guid == guid) == before + (if ppis[n].guid == guid then {n} else {});
    }
  }

  lemma {:induction false} InstancesGrow(ppis: seq<Descriptor>, guid: Guid, k: nat)
    requires k <= |ppis|
    ensures Instances(ppis[..k], guid) <= Instances(ppis, guid)
    decreases |ppis|
  {
    if k < |ppis| {
      InstancesGrow(ppis[..|ppis| - 1], guid, k);
      assert ppis[..|ppis| - 1][..k] == ppis[..k];
    } else {
      assert ppis[..k] == ppis;
    }
  }
}
