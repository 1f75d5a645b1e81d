/** The PPI database and its notification engine: HostLib/PeiServicesTablePointerLibHost/Ppi.c.

    A callback is any finite script of further calls; `plan` holds the scripts of the callbacks to come, one for
    each firing, and a firing past its end does nothing.  The scripts are arbitrary, so what is proved here
    for every plan is proved for every finite behaviour of the callbacks. */
module PpiDatabase {
  import opened PpiNotifications

  datatype Status = Success | InvalidParameter | NotFound

  const PPI_GROWTH_STEP := 64
  const CALLBACK_NOTIFY_GROWTH_STEP := 32
  const DISPATCH_NOTIFY_GROWTH_STEP := 8

  /** A slot of zeroed memory, or a pointer to a descriptor. */
  datatype Slot = Zero | Pointer(item: Descriptor)

  /** PEI_PPI_LIST, PEI_CALLBACK_NOTIFY_LIST or PEI_DISPATCH_NOTIFY_LIST. */
  class PointerList {
    const growthStep: nat
    var currentCount: nat
    var maxCount: nat
    var lastDispatchedCount: nat
    var ptrs: array<Slot>
    ghost var items: seq<Descriptor>

    ghost predicate Valid()
      reads this, ptrs
    {
      && growthStep > 0
      && currentCount == |items| && currentCount <= maxCount == ptrs.Length
      && lastDispatchedCount <= currentCount
      && (forall k :: 0 <= k < currentCount ==> ptrs[k] == Pointer(items[k]))
    }

    constructor (growthStep: nat)
      requires growthStep > 0
      ensures Valid() && items == [] && lastDispatchedCount == 0 && fresh(ptrs) && this.growthStep == growthStep
    {
      this.growthStep := growthStep;
      currentCount, maxCount, lastDispatchedCount := 0, 0, 0;
      ptrs := new Slot[0];
      items := [];
    }

    /** Stores the item behind the last one, in a larger copy of the array when there is no room. */
    method Append(item: Descriptor)
      requires Valid()
      modifies this, ptrs
      ensures Valid() && items == old(items) + [item] && lastDispatchedCount == old(lastDispatchedCount)
      ensures ptrs == old(ptrs) || fresh(ptrs)
      ensures maxCount == old(maxCount) + if old(currentCount) == old(maxCount) then growthStep else 0
    {
      if currentCount >= maxCount {
        var temp := new Slot[maxCount + growthStep](_ => Zero);
        forall k | 0 <= k < maxCount {
          temp[k] := ptrs[k];
        }
        ptrs := temp;
        maxCount := maxCount + growthStep;
      }
      ptrs[currentCount] := Pointer(item);
      currentCount := currentCount + 1;
      items := items + [item];
    }

    /** Forgets the items from `count` on; their slots keep what they hold. */
    method Restore(count: nat)
      requires Valid() && lastDispatchedCount <= count <= currentCount
      modifies this`currentCount, this`items
      ensures Valid() && items == old(items)[..count]
    {
      currentCount := count;
      items := items[..count];
    }

    method Replace(k: nat, item: Descriptor)
      requires Valid() && k < |items|
      modifies this`items, ptrs
      ensures Valid() && items == old(items)[k := item]
    {
      ptrs[k] := Pointer(item);
      items := items[k := item];
    }

    method Get(k: nat) returns (item: Descriptor)
      requires Valid() && k < |items|
      ensures item == items[k]
    {
      item := ptrs[k].item;
    }
  }

  class Database {
    const ppiList: PointerList
    const callbackList: PointerList
    const dispatchList: PointerList
    var plan: seq<Script>
    ghost var called: multiset<Pair>
    ghost var dispatched: multiset<Pair>

    ghost function Repr(): set<object>
      reads this, ppiList, callbackList, dispatchList
    {
      {this, ppiList, callbackList, dispatchList, ppiList.ptrs, callbackList.ptrs, dispatchList.ptrs}
    }

    ghost predicate Valid()
      reads Repr()
    {
      && ppiList != callbackList && ppiList != dispatchList && callbackList != dispatchList
      && ppiList.ptrs != callbackList.ptrs && ppiList.ptrs != dispatchList.ptrs
          && callbackList.ptrs != dispatchList.ptrs
      && ppiList.Valid() && callbackList.Valid() && dispatchList.Valid()
      && PlanReadable(plan) && Sorted(ppiList.items, callbackList.items, dispatchList.items)
    }

    ghost function Now(): Snapshot
      reads this, ppiList, callbackList, dispatchList
    {
      Snapshot(ppiList.items, callbackList.items, dispatchList.items,
               ppiList.lastDispatchedCount, dispatchList.lastDispatchedCount, called, dispatched)
    }

    constructor (plan: seq<Script>)
      requires PlanReadable(plan)
      ensures Valid() && fresh(Repr()) && Now() == EMPTY && this.plan == plan
      ensures ppiList.growthStep == 64 && callbackList.growthStep == 32 && dispatchList.growthStep == 8
    {
      ppiList := new PointerList(PPI_GROWTH_STEP);
      callbackList := new PointerList(CALLBACK_NOTIFY_GROWTH_STEP);
      dispatchList := new PointerList(DISPATCH_NOTIFY_GROWTH_STEP);
      this.plan := plan;
      called, dispatched := multiset{}, multiset{};
    }

    /** Calls one notify function, with its descriptor and the interface: the next script of the plan. */
    method Fire(callback: bool, ghost n: nat, ghost p: nat, notify: Descriptor, target: nat)
      requires Valid() && p < |ppiList.items| && target == ppiList.items[p].target
      requires var notifies := if callback then callbackList.items else dispatchList.items;
               n < |notifies| && notify == notifies[n]
      modifies Repr()
      ensures Valid() && fresh(Repr() - old(Repr()))
      ensures Fired(old(Now()), Now(), callback, {(n, p)}) && Grown(old(Now()), Now())
      ensures |plan| < old(|plan|) || (plan == [] == old(plan) && Grown(Now(), old(Now())))
      ensures Performed(old(plan), Firings(old(Now())), plan, Now())
      decreases |plan|, 0, 0
    {
      hide Fired, Served, Performed, Has, Sorted;
      ghost var before := Now();
      if callback {
        called := called + multiset{(n, p)};
      } else {
        dispatched := dispatched + multiset{(n, p)};
      }
      ghost var between := Now();
      FiredOne(before, between, callback, n, p);
      if plan != [] {
        var script := plan[0];
        plan := plan[1..];
        assert forall j :: 0 <= j < |script| ==> CallReadable(script[j]);
        Perform(script);
        FiredThenServed(before, between, Now(), callback, n, p);
        ScriptPerformed(old(plan), Firings(before), between, plan, Now());
      } else {
        NoScriptPerformed(between, Firings(before));
      }
      FiredGrows(before, Now(), callback, {(n, p)});
    }

    /** Carries out one call of a callback. */
    method PerformCall(call: Call)
      requires Valid() && CallReadable(call)
      modifies Repr()
      ensures Valid() && fresh(Repr() - old(Repr()))
      ensures Served(old(Now()), Now()) && |plan| <= old(|plan|)
      ensures Performed(old(plan), Firings(old(Now())), plan, Now()) && Has(Now(), call)
      decreases |plan|, 2, 1
    {
      hide Served, Performed, Has, Readable, Firings, Database.Valid;
      if call.kind.Ppis? {
        var _ := InstallPpi(call.list, call.single);
      } else {
        var _ := NotifyPpi(call.list, call.single);
      }
      assert call == Call(call.kind, call.list, call.single);
    }

    /** Runs a script, call after call. */
    method Perform(script: Script)
      requires Valid() && forall j :: 0 <= j < |script| ==> CallReadable(script[j])
      modifies Repr()
      ensures Valid() && fresh(Repr() - old(Repr()))
      ensures Served(old(Now()), Now()) && |plan| <= old(|plan|)
      ensures Performed(old(plan), Firings(old(Now())), plan, Now())
      ensures forall j :: 0 <= j < |script| ==> Has(Now(), script[j])
      decreases |plan|, 3, 0
    {
      hide Served, Performed, Has, Firings, CallReadable, Grown, Longer, Database.Valid;
      ServedNothing(Now());
      NothingPerformed(plan, Now());
      var i := 0;
      while i < |script|
        invariant i <= |script| && Valid() && fresh(Repr() - old(Repr()))
        invariant Served(old(Now()), Now()) && |plan| <= old(|plan|)
        invariant Performed(old(plan), Firings(old(Now())), plan, Now())
        invariant forall j :: 0 <= j < i ==> Has(Now(), script[j])
      {
        ghost var before, planBefore := Now(), plan;
        assert CallReadable(script[i]);
        PerformCall(script[i]);
        ServedThenServed(old(Now()), before, Now());
        ServedGrows(before, Now());
        PerformedThenPerformed(old(plan), Firings(old(Now())), planBefore, before, plan, Now());
        forall j | 0 <= j < i ensures Has(Now(), script[j]) {
          StillHas(before, Now(), script[j]);
        }
        i := i + 1;
      }
    }

    method GetNotify(callback: bool, n: nat) returns (notify: Descriptor)
      requires Valid() && n < if callback then |callbackList.items| else |dispatchList.items|
      ensures notify == (if callback then callbackList.items else dispatchList.items)[n]
    {
      hide PlanReadable, Sorted;
      if callback {
        notify := callbackList.Get(n);
      } else {
        notify := dispatchList.Get(n);
      }
    }

    /** Fires notify n of a list for those of the PPIs p0..p1 whose GUIDs agree: the inner loop of ProcessNotify. */
    method ProcessNotifyRow(callback: bool, p0: nat, p1: nat, n: nat)
      requires Valid() && p0 <= p1 <= |ppiList.items|
      requires n < if callback then |callbackList.items| else |dispatchList.items|
      modifies Repr()
      ensures Valid() && fresh(Repr() - old(Repr()))
      ensures Fired(old(Now()), Now(), callback,
                    Area(old(if callback then callbackList.items else dispatchList.items), old(ppiList.items), n,
                        n + 1, p0, p1))
      ensures Grown(old(Now()), Now())
      ensures |plan| < old(|plan|) || (plan == old(plan) && Grown(Now(), old(Now())))
      ensures Performed(old(plan), Firings(old(Now())), plan, Now())
      decreases |plan|, 1, 0
    {
      hide Fired, PlanReadable, Sorted, Area, PointerList.Valid, Performed, Firings;
      ghost var before := Now();
      NothingPerformed(plan, before);
      ghost var notifies := if callback then callbackList.items else dispatchList.items;
      FiredNone(before, callback);
      AreaEmpty(notifies, before.ppis, n, n + 1, p0, p0);
      var notifyDescriptor := GetNotify(callback, n);
      for j := p0 to p1
        invariant Valid() && fresh(Repr() - old(Repr()))
        invariant Fired(before, Now(), callback, Area(notifies, before.ppis, n, n + 1, p0, j))
        invariant Grown(before, Now()) && Performed(old(plan), Firings(before), plan, Now())
        invariant |plan| < old(|plan|) || (plan == old(plan) && Grown(Now(), before))
      {
        var ppi := ppiList.Get(j);
        AreaNext(notifies, before.ppis, n, p0, j);
        assert Matches(notifies, before.ppis, n, j) <==> SameGuid(ppi, notifyDescriptor);
        if SameGuid(ppi, notifyDescriptor) {
          ghost var between, planBetween := Now(), plan;
          Fire(callback, n, j, notifyDescriptor, ppi.target);
          FiredThenOne(before, between, Now(), callback, Area(notifies, before.ppis, n, n + 1, p0, j), n, j);
          PerformedThenPerformed(old(plan), Firings(before), planBetween, between, plan, Now());
        }
      }
    }

    /** Fires, for the notifies n0..n1 of a list and the PPIs p0..p1, all pairs whose GUIDs agree.  The bounds
        are those of the call, whatever the callbacks add meanwhile. */
    method ProcessNotify(callback: bool, p0: nat, p1: nat, n0: nat, n1: nat)
      requires Valid() && p0 <= p1 <= |ppiList.items|
      requires n0 <= n1 <= if callback then |callbackList.items| else |dispatchList.items|
      modifies Repr()
      ensures Valid() && fresh(Repr() - old(Repr()))
      ensures Fired(old(Now()), Now(), callback,
                    Area(old(if callback then callbackList.items else dispatchList.items), old(ppiList.items), n0, n1,
                        p0, p1))
      ensures Grown(old(Now()), Now())
      ensures |plan| < old(|plan|) || (plan == old(plan) && Grown(Now(), old(Now())))
      ensures Performed(old(plan), Firings(old(Now())), plan, Now())
      decreases |plan|, 1, 1
    {
      hide Fired, Area, Database.Valid, Performed, Firings;
      ghost var before := Now();
      NothingPerformed(plan, before);
      ghost var notifies := if callback then callbackList.items else dispatchList.items;
      FiredNone(before, callback);
      AreaEmpty(notifies, before.ppis, n0, n0, p0, p1);
      for i := n0 to n1
        invariant Valid() && fresh(Repr() - old(Repr()))
        invariant Fired(before, Now(), callback, Area(notifies, before.ppis, n0, i, p0, p1))
        invariant Grown(before, Now()) && Performed(old(plan), Firings(before), plan, Now())
        invariant |plan| < old(|plan|) || (plan == old(plan) && Grown(Now(), before))
      {
        ghost var between, planBetween := Now(), plan;
        ProcessNotifyRow(callback, p0, p1, i);
        RowFollows(before, between, Now(), callback, n0, i, p0, p1);
        PerformedThenPerformed(old(plan), Firings(before), planBetween, between, plan, Now());
      }
    }

    /** Stores the items of a caller's list of PPIs up to its end; or none of them, when one is refused. */
    method StorePpis(list: seq<Descriptor>, single: bool) returns (accepted: bool, ghost n: nat)
      requires Valid() && Readable(list, Ppis, single) && list != []
      modifies ppiList, ppiList.ptrs
      ensures Valid() && fresh(Repr() - old(Repr())) && plan == old(plan)
      ensures if accepted then Whole(list, Ppis, single, n) else Refused(list, Ppis, single, n)
      ensures Now() == if accepted then old(Now()).(ppis := old(ppiList.items) + list[..n]) else old(Now())
    {
      assert GoesOn(list, Ppis, single, 0);
      hide PlanReadable, Ends, Readable, GoesOn;
      var lastCount := ppiList.currentCount;
      n := 0;
      var i := 0;
      while true
        invariant Valid() && fresh(Repr() - old(Repr()))
        invariant i < |list| && GoesOn(list, Ppis, single, i)
        invariant Now() == old(Now()).(ppis := old(ppiList.items) + list[..i])
        decreases |list| - i
      {
        if !IsPpi(list[i]) {
          ppiList.Restore(lastCount);
          return false, i;
        }
        ppiList.Append(list[i]);
        i := i + 1;
        assert list[..i] == list[..i - 1] + [list[i - 1]];
        if Ends(list[i - 1], single) {
          return true, i;
        }
        NotPastTheEnd(list, Ppis, single, i - 1);
      }
    }

    /** InternalPeiInstallPpi. */
    method InstallPpi(list: seq<Descriptor>, single: bool) returns (status: Status)
      requires Valid() && Readable(list, Ppis, single)
      modifies Repr()
      ensures Valid() && fresh(Repr() - old(Repr()))
      ensures Served(old(Now()), Now()) && |plan| <= old(|plan|)
      ensures status == Success || status == InvalidParameter
      ensures status == Success ==> exists n: nat ::
              Whole(list, Ppis, single, n) && old(ppiList.items) + list[..n] <= ppiList.items
      ensures status == InvalidParameter ==>
              Now() == old(Now()) && plan == old(plan)
                  && (list == [] || exists k: nat :: Refused(list, Ppis, single, k))
      ensures Performed(old(plan), Firings(old(Now())), plan, Now()) && Has(Now(), Call(Ppis, list, single))
      decreases |plan|, 2, 0
    {
      hide Fired, Served, Area, Whole, Refused, Readable, PlanReadable, Sorted, Performed, Has;
      ghost var before := Now();
      ServedNothing(before);
      NothingPerformed(plan, before);
      if list == [] {
        HasRefused(Now(), list, Ppis, single);
        return InvalidParameter;
      }
      var lastCount := ppiList.currentCount;
      var accepted, n := StorePpis(list, single);
      if !accepted {
        HasRefused(Now(), list, Ppis, single);
        return InvalidParameter;
      }
      ghost var between := Now();
      ProcessNotify(true, lastCount, ppiList.currentCount, 0, callbackList.currentCount);
      InstalledServed(before, between, Now());
      HasPpis(Now(), list, single, before.ppis, n);
      status := Success;
    }

    /** Stores one notify descriptor in the list its flags name. */
    method StoreNotify(d: Descriptor)
      requires Valid() && IsNotify(d)
      modifies Repr()
      ensures Valid() && fresh(Repr() - old(Repr())) && plan == old(plan)
      ensures Now() == Stored(old(Now()), d)
      ensures callbackList.lastDispatchedCount == old(callbackList.lastDispatchedCount)
      ensures dispatchList.lastDispatchedCount == old(dispatchList.lastDispatchedCount)
    {
      hide PlanReadable;
      if IsCallback(d) {
        callbackList.Append(d);
      } else {
        dispatchList.Append(d);
      }
    }

    /** Takes both lists back to the given counts. */
    method ForgetNotifies(callbackCount: nat, dispatchCount: nat)
      requires Valid() && callbackList.lastDispatchedCount <= callbackCount <= |callbackList.items|
      requires dispatchList.lastDispatchedCount <= dispatchCount <= |dispatchList.items|
      modifies callbackList, dispatchList
      ensures Valid() && Repr() == old(Repr()) && plan == old(plan)
      ensures Now() == TakenBack(old(Now()), callbackCount, dispatchCount)
    {
      hide PlanReadable;
      callbackList.Restore(callbackCount);
      dispatchList.Restore(dispatchCount);
    }

    /** Stores the items of a caller's list of notifies up to its end, each in the list its flags name; or none
        of them, when one is refused. */
    method StoreNotifies(list: seq<Descriptor>, single: bool, lastCallbackCount: nat, lastDispatchCount: nat)
      returns (accepted: bool, ghost n: nat)
      requires Valid() && Readable(list, Notifies, single) && list != []
      requires callbackList.lastDispatchedCount <= lastCallbackCount == |callbackList.items|
      requires dispatchList.lastDispatchedCount <= lastDispatchCount == |dispatchList.items|
      modifies Repr()
      ensures Valid() && fresh(Repr() - old(Repr())) && plan == old(plan)
      ensures if accepted then Whole(list, Notifies, single, n) && n <= |list| else Refused(list, Notifies, single, n)
      ensures Now() == if accepted then AllStored(old(Now()), list[..n]) else old(Now())
    {
      assert GoesOn(list, Notifies, single, 0);
      hide PlanReadable, Ends, Readable, GoesOn, PointerList.Valid, Database.Valid, Stored, AllStored;
      n := 0;
      var i := 0;
      StoredNext(Now(), list, 0);
      while true
        invariant Valid() && fresh(Repr() - old(Repr())) && plan == old(plan)
        invariant i < |list| && GoesOn(list, Notifies, single, i)
        invariant Now() == AllStored(old(Now()), list[..i])
        invariant callbackList.lastDispatchedCount == old(callbackList.lastDispatchedCount)
        invariant dispatchList.lastDispatchedCount == old(dispatchList.lastDispatchedCount)
        decreases |list| - i
      {
        if !IsNotify(list[i]) {
          StoredTakenBack(old(Now()), list[..i]);
          ForgetNotifies(lastCallbackCount, lastDispatchCount);
          return false, i;
        }
        StoredNext(old(Now()), list, i);
        StoreNotify(list[i]);
        i := i + 1;
        if Ends(list[i - 1], single) {
          return true, i;
        }
        NotPastTheEnd(list, Notifies, single, i - 1);
      }
    }

    /** InternalPeiNotifyPpi. */
    method NotifyPpi(list: seq<Descriptor>, single: bool) returns (status: Status)
      requires Valid() && Readable(list, Notifies, single)
      modifies Repr()
      ensures Valid() && fresh(Repr() - old(Repr()))
      ensures Served(old(Now()), Now()) && |plan| <= old(|plan|)
      ensures status == Success || status == InvalidParameter
      ensures status == Success ==> exists n: nat :: (
                && Whole(list, Notifies, single, n)
                && old(callbackList.items) + Chosen(list[..n], true) <= callbackList.items
                && old(dispatchList.items) + Chosen(list[..n], false) <= dispatchList.items
                && Filed(list[..n], callbackList.items, dispatchList.items,
                         callbackList.items[old(callbackList.currentCount)..],
                         dispatchList.items[old(dispatchList.currentCount)..]))
      ensures status == InvalidParameter ==>
              Now() == old(Now()) && plan == old(plan)
                  && (list == [] || exists k: nat :: Refused(list, Notifies, single, k))
      ensures Performed(old(plan), Firings(old(Now())), plan, Now()) && Has(Now(), Call(Notifies, list, single))
      decreases |plan|, 2, 0
    {
      hide Fired, Served, Area, Whole, Refused, Readable, Chosen, PlanReadable, Performed, Has, Filed, Sorted;
      ghost var before := Now();
      ServedNothing(before);
      NothingPerformed(plan, before);
      if list == [] {
        HasRefused(Now(), list, Notifies, single);
        return InvalidParameter;
      }
      var lastCallbackCount, lastDispatchCount := callbackList.currentCount, dispatchList.currentCount;
      var accepted, n := StoreNotifies(list, single, lastCallbackCount, lastDispatchCount);
      if !accepted {
        HasRefused(Now(), list, Notifies, single);
        return InvalidParameter;
      }
      ghost var between := Now();
      ProcessNotify(true, 0, ppiList.currentCount, lastCallbackCount, callbackList.currentCount);
      NotifiedServed(before, between, Now());
      HasNotifies(Now(), list, single, before.callbacks, before.dispatches, n);
      FiledByBits(list[..n], before, Now());
      status := Success;
    }

    /** PeiReInstallPpi: the first slot that points to the old PPI points to the new one, and all callbacks that
        match it fire for it. */
    method PeiReInstallPpi(oldPpi: Slot, newPpi: Slot) returns (status: Status, ghost k: nat)
      requires Valid()
      modifies Repr()
      ensures Valid() && fresh(Repr() - old(Repr()))
      ensures status == InvalidParameter <==> oldPpi.Zero? || newPpi.Zero? || 4 !in newPpi.item.flags
      ensures status == NotFound ==> forall j :: 0 <= j < |old(ppiList.items)| ==>
              old(ppiList.items)[j].address != oldPpi.item.address
      ensures status != Success ==> Now() == old(Now()) && plan == old(plan)
      ensures Performed(old(plan), Firings(old(Now())), plan, Now())
      ensures status == Success ==>
                && k < |old(ppiList.items)| && old(ppiList.items)[k].address == oldPpi.item.address
                && (forall j :: 0 <= j < k ==> old(ppiList.items)[j].address != oldPpi.item.address)
                && var v := old(Now()).(ppis := old(ppiList.items)[k := newPpi.item]);
                   Fired(v, Now(), true, Area(v.callbacks, v.ppis, 0, |v.callbacks|, k, k + 1))
    {
      hide Fired, Area, PlanReadable, Performed;
      NothingPerformed(plan, Now());
      if newPpi.Pointer? {
        FlagsByBits(newPpi.item);
      }
      k := 0;
      if oldPpi.Zero? || newPpi.Zero? {
        return InvalidParameter, 0;
      }
      if !IsPpi(newPpi.item) {
        return InvalidParameter, 0;
      }
      var index: nat := 0;
      while index < ppiList.currentCount
        modifies {}
        invariant index <= ppiList.currentCount
        invariant forall j :: 0 <= j < index ==> ppiList.items[j].address != oldPpi.item.address
      {
        var ppi := ppiList.Get(index);
        if oldPpi.item.address == ppi.address {
          break;
        }
        index := index + 1;
      }
      if index == ppiList.currentCount {
        return NotFound, 0;
      }
      ppiList.Replace(index, newPpi.item);
      ProcessNotify(true, index, index + 1, 0, callbackList.currentCount);
      return Success, index;
    }

    /** PeiInstallPpi. */
    method PeiInstallPpi(list: seq<Descriptor>) returns (status: Status)
      requires Valid() && Readable(list, Ppis, false)
      modifies Repr()
      ensures Valid() && fresh(Repr() - old(Repr()))
      ensures Served(old(Now()), Now())
      ensures status == Success <==> exists n: nat :: Whole(list, Ppis, false, n)
      ensures status == Success ==> exists n: nat ::
              Whole(list, Ppis, false, n) && old(ppiList.items) + list[..n] <= ppiList.items
    {
      if list != [] {
        ReadableIsWholeOrRefused(list, Ppis, false);
      }
      status := InstallPpi(list, false);
    }

    /** PeiNotifyPpi. */
    method PeiNotifyPpi(list: seq<Descriptor>) returns (status: Status)
      requires Valid() && Readable(list, Notifies, false)
      modifies Repr()
      ensures Valid() && fresh(Repr() - old(Repr()))
      ensures Served(old(Now()), Now())
      ensures status == Success <==> exists n: nat :: Whole(list, Notifies, false, n)
      ensures status == Success ==> exists n: nat :: (
                && Whole(list, Notifies, false, n)
                && old(callbackList.items) + Chosen(list[..n], true) <= callbackList.items
                && old(dispatchList.items) + Chosen(list[..n], false) <= dispatchList.items
                && Filed(list[..n], callbackList.items, dispatchList.items,
                         callbackList.items[old(callbackList.currentCount)..],
                         dispatchList.items[old(dispatchList.currentCount)..]))
    {
      if list != [] {
        ReadableIsWholeOrRefused(list, Notifies, false);
      }
      status := NotifyPpi(list, false);
    }

    /** Fires the new dispatch-level notifies against the PPIs already seen. */
    method DispatchNewNotifies(ghost before: Snapshot)
      requires Valid() && Between(before, Now())
      modifies Repr()
      ensures Valid() && fresh(Repr() - old(Repr())) && Between(before, Now())
      ensures dispatchList.lastDispatchedCount == old(dispatchList.currentCount)
      ensures |plan| < old(|plan|) || (plan == old(plan) && dispatchList.currentCount == old(dispatchList.currentCount))
      ensures Performed(old(plan), Firings(old(Now())), plan, Now()) && Longer(old(Now()), Now())
    {
      hide Fired, PlanReadable, Sorted, Area, Between, Performed, Firings;
      ghost var v := Now();
      var tempValue := dispatchList.currentCount;
      ProcessNotify(false, 0, ppiList.lastDispatchedCount, dispatchList.lastDispatchedCount, dispatchList.currentCount);
      ghost var w := Now();
      dispatchList.lastDispatchedCount := tempValue;
      PerformedMark(old(plan), Firings(v), plan, w, Now());
      MarkMoves(before, v, w, Now());
    }

    /** Fires the dispatch-level notifies already seen against the new PPIs. */
    method DispatchNewPpis(ghost before: Snapshot)
      requires Valid() && Between(before, Now())
      modifies Repr()
      ensures Valid() && fresh(Repr() - old(Repr())) && Between(before, Now())
      ensures ppiList.lastDispatchedCount == old(ppiList.currentCount)
      ensures dispatchList.lastDispatchedCount == old(dispatchList.lastDispatchedCount)
      ensures |plan| < old(|plan|) || (&& plan == old(plan) && ppiList.currentCount == old(ppiList.currentCount)
                                       && dispatchList.currentCount == old(dispatchList.currentCount))
      ensures Performed(old(plan), Firings(old(Now())), plan, Now()) && Longer(old(Now()), Now())
    {
      hide Fired, PlanReadable, Sorted, Area, Between, Performed, Firings;
      ghost var v := Now();
      var tempValue := ppiList.currentCount;
      ProcessNotify(false, ppiList.lastDispatchedCount, ppiList.currentCount, 0, dispatchList.lastDispatchedCount);
      ghost var w := Now();
      ppiList.lastDispatchedCount := tempValue;
      PerformedMark(old(plan), Firings(v), plan, w, Now());
      MarkMoves(before, v, w, Now());
    }

    /** Fires the dispatch-level notifies until both lists have been seen whole, though callbacks may add to
        either list meanwhile. */
    method ProcessDispatchNotifyList()
      requires Valid() && DispatchedRectangle(Now())
      modifies Repr()
      ensures Valid() && fresh(Repr() - old(Repr()))
      ensures Dispatched(old(Now()), Now()) && DispatchesComplete(Now())
      ensures Performed(old(plan), Firings(old(Now())), plan, Now())
    {
      hide PlanReadable, Sorted, Between, DispatchedRectangle, DispatchesComplete, Dispatched, Performed, Firings;
      ghost var before := Now();
      NothingPerformed(plan, before);
      BetweenStarts(before);
      while true
        invariant Valid() && fresh(Repr() - old(Repr()))
        invariant Between(before, Now()) && Performed(old(plan), Firings(before), plan, Now())
        decreases |plan|
      {
        ghost var planAtHead := |plan|;
        while dispatchList.lastDispatchedCount != dispatchList.currentCount
          invariant Valid() && fresh(Repr() - old(Repr()))
          invariant Between(before, Now()) && Performed(old(plan), Firings(before), plan, Now()) && |plan| <= planAtHead
          decreases |plan|, dispatchList.currentCount - dispatchList.lastDispatchedCount
        {
          ghost var v, planBefore := Now(), plan;
          DispatchNewNotifies(before);
          PerformedThenPerformed(old(plan), Firings(before), planBefore, v, plan, Now());
        }
        ghost var planBetween := |plan|;
        while ppiList.lastDispatchedCount != ppiList.currentCount
          invariant Valid() && fresh(Repr() - old(Repr()))
          invariant Between(before, Now()) && Performed(old(plan), Firings(before), plan, Now())
          invariant |plan| < planBetween
                    || (|plan| == planBetween && dispatchList.lastDispatchedCount == dispatchList.currentCount)
          decreases |plan|, ppiList.currentCount - ppiList.lastDispatchedCount
        {
          ghost var v, planBefore := Now(), plan;
          DispatchNewPpis(before);
          PerformedThenPerformed(old(plan), Firings(before), planBefore, v, plan, Now());
        }
        if dispatchList.lastDispatchedCount == dispatchList.currentCount {
          break;
        }
      }
      BetweenEnds(before, Now());
    }

    /** PeiLocatePpi: the instance-th PPI with the GUID, counted from 0. */
    method PeiLocatePpi(guid: Guid, instance: nat) returns (status: Status, found: Slot)
      requires Valid()
      ensures status == Success <==> instance < Instances(ppiList.items, guid)
      ensures status == Success ==> exists k :: (
                && 0 <= k < |ppiList.items| && found == Pointer(ppiList.items[k])
                && ppiList.items[k].guid == guid && Instances(ppiList.items[..k], guid) == instance)
      ensures status != Success ==> status == NotFound && found == Zero
    {
      var left := instance;
      for i := 0 to ppiList.currentCount
        invariant left >= 0 && left + Instances(ppiList.items[..i], guid) == instance
      {
        var temp := ppiList.Get(i);
        assert ppiList.items[..i + 1][..i] == ppiList.items[..i];
        if SameGuid(Descriptor(0, {}, guid, 0), temp) {
          if left == 0 {
            InstancesGrow(ppiList.items, guid, i + 1);
            return Success, Pointer(temp);
          }
          left := left - 1;
        }
      }
      assert ppiList.items[..ppiList.currentCount] == ppiList.items;
      return NotFound, Zero;
    }
  }

  /** One row of a rectangle after the rows before it. */
  lemma RowFollows(u: Snapshot, v: Snapshot, w: Snapshot, callback: bool, n0: int, i: int, p0: int, p1: int)
    requires Grown(u, v) && n0 <= i < (if callback then |u.callbacks| else |u.dispatches|) && p1 <= |u.ppis|
    requires Fired(u, v, callback, Area(if callback then u.callbacks else u.dispatches, u.ppis, n0, i, p0, p1))
    requires Fired(v, w, callback, Area(if callback then v.callbacks else v.dispatches, v.ppis, i, i + 1, p0, p1))
    ensures Fired(u, w, callback, Area(if callback then u.callbacks else u.dispatches, u.ppis, n0, i + 1, p0, p1))
  {
    hide Fired;
    var ns, ms := if callback then u.callbacks else u.dispatches, if callback then v.callbacks else v.dispatches;
    assert Area(ms, v.ppis, i, i + 1, p0, p1) == Area(ns, u.ppis, i, i + 1, p0, p1);
    AreaRow(ns, u.ppis, n0, i, p0, p1);
    FiredThenFired(u, v, w, callback, Area(ns, u.ppis, n0, i, p0, p1), Area(ns, u.ppis, i, i + 1, p0, p1));
  }

  /** PPIs were appended, then fired against all callbacks there were. */
  lemma InstalledServed(u: Snapshot, v: Snapshot, w: Snapshot)
    requires u.ppis <= v.ppis && v == u.(ppis := v.ppis)
    requires Fired(v, w, true, Area(v.callbacks, v.ppis, 0, |v.callbacks|, |u.ppis|, |v.ppis|))
    ensures Served(u, w)
  {
    var pairs := Area(v.callbacks, v.ppis, 0, |v.callbacks|, |u.ppis|, |v.ppis|);
    forall n, p ensures Appeared(u, w, n, p) == Appeared(v, w, n, p) + Once(pairs, n, p) {
    }
  }

  /** Notifies were appended, then fired against all PPIs there were. */
  lemma NotifiedServed(u: Snapshot, v: Snapshot, w: Snapshot)
    requires u.callbacks <= v.callbacks && u.dispatches <= v.dispatches
    requires v == u.(callbacks := v.callbacks, dispatches := v.dispatches)
    requires Fired(v, w, true, Area(v.callbacks, v.ppis, |u.callbacks|, |v.callbacks|, 0, |v.ppis|))
    ensures Served(u, w)
  {
    var pairs := Area(v.callbacks, v.ppis, |u.callbacks|, |v.callbacks|, 0, |v.ppis|);
    forall n, p ensures Appeared(u, w, n, p) == Appeared(v, w, n, p) + Once(pairs, n, p) {
    }
  }

  /** What a dispatch pass keeps at the head of each of its loops. */
  ghost predicate Between(v: Snapshot, w: Snapshot) {
    && Longer(v, w)
    && (forall n, p :: w.called[(n, p)] == v.called[(n, p)] + Appeared(v, w, n, p))
    && DispatchedRectangle(w)
  }

  lemma BetweenStarts(v: Snapshot)
    requires DispatchedRectangle(v)
    ensures Between(v, v)
  {
  }

  lemma BetweenEnds(v: Snapshot, w: Snapshot)
    requires Between(v, w) && w.ppisDone == |w.ppis| && w.dispatchesDone == |w.dispatches|
    ensures Dispatched(v, w) && DispatchesComplete(w)
  {
  }

  /** Firing the strip between a mark and the end of its list, then moving the mark there, keeps the fired
      pairs a rectangle. */
  lemma MarkMoves(u: Snapshot, v: Snapshot, w: Snapshot, x: Snapshot)
    requires Between(u, v)
    requires
      || (&& Fired(v, w, false, Area(v.dispatches, v.ppis, v.dispatchesDone, |v.dispatches|, 0, v.ppisDone))
          && x == w.(dispatchesDone := |v.dispatches|))
      || (&& Fired(v, w, false, Area(v.dispatches, v.ppis, 0, v.dispatchesDone, v.ppisDone, |v.ppis|))
          && x == w.(ppisDone := |v.ppis|))
    ensures Between(u, x)
  {
    hide Area, Matches;
    forall n, p ensures x.called[(n, p)] == u.called[(n, p)] + Appeared(u, x, n, p) {
      AppearedThenAppeared(u, v, w, n, p);
    }
    RectangleGrows(v, w, x);
  }

  lemma AppearedThenAppeared(u: Snapshot, v: Snapshot, w: Snapshot, n: int, p: int)
    requires u.ppis <= v.ppis <= w.ppis && u.callbacks <= v.callbacks <= w.callbacks
    ensures Appeared(u, w, n, p) == Appeared(u, v, n, p) + Appeared(v, w, n, p)
  {
  }

  lemma RectangleGrows(v: Snapshot, w: Snapshot, x: Snapshot)
    requires DispatchedRectangle(v)
    requires
      || (&& Fired(v, w, false, Area(v.dispatches, v.ppis, v.dispatchesDone, |v.dispatches|, 0, v.ppisDone))
          && x == w.(dispatchesDone := |v.dispatches|))
      || (&& Fired(v, w, false, Area(v.dispatches, v.ppis, 0, v.dispatchesDone, v.ppisDone, |v.ppis|))
          && x == w.(ppisDone := |v.ppis|))
    ensures DispatchedRectangle(x)
  {
    hide Appeared;
  }

  // ----- from a call to its notification -----

  lemma SingleItem(list: seq<Descriptor>, d: Descriptor, kind: Kind, n: nat)
    requires list == [d] && Whole(list, kind, false, n)
    ensures n == 1 && list[..n] == [d]
    ensures Chosen([d], true) == (if 5 in d.flags then [d] else [])
    ensures Chosen([d], false) == (if 5 in d.flags then [] else [d])
  {
    FlagsByBits(d);
    assert [d][..0] == [];
  }

  lemma SingleIsWhole(d: Descriptor, kind: Kind)
    requires 31 in d.flags && if kind.Ppis? then 4 in d.flags else 5 in d.flags || 6 in d.flags
    ensures Whole([d], kind, false, 1) && Readable([d], kind, false)
  {
    WholeByBits([d], kind, false, 1);
    assert Ends([d][0], false);
  }

  lemma LastOf(x: seq<Descriptor>, d: Descriptor, y: seq<Descriptor>)
    requires x + [d] <= y
    ensures |x| < |y| && y[|x|] == d
  {
    assert (x + [d])[|x|] == d;
  }

  /** Registers one notify descriptor; n is its place in the list that its bit 5 names. */
  method RegisterNotify(db: Database, notify: Descriptor) returns (ghost n: nat)
    requires db.Valid() && 31 in notify.flags && (5 in notify.flags || 6 in notify.flags)
    modifies db.Repr()
    ensures db.Valid() && fresh(db.Repr() - old(db.Repr())) && Served(old(db.Now()), db.Now())
    ensures if 5 in notify.flags
            then n == old(|db.callbackList.items|) < |db.callbackList.items| && db.callbackList.items[n] == notify
            else n == old(|db.dispatchList.items|) < |db.dispatchList.items| && db.dispatchList.items[n] == notify
  {
    hide Served, Readable, Chosen, Filed, Sorted, PlanReadable;
    SingleIsWhole(notify, Notifies);
    ghost var v := db.Now();
    var status := db.PeiNotifyPpi([notify]);
    ghost var k: nat :| Whole([notify], Notifies, false, k)
      && v.callbacks + Chosen([notify][..k], true) <= db.callbackList.items
      && v.dispatches + Chosen([notify][..k], false) <= db.dispatchList.items;
    SingleItem([notify], notify, Notifies, k);
    if 5 in notify.flags {
      LastOf(v.callbacks, notify, db.callbackList.items);
      n := |v.callbacks|;
    } else {
      LastOf(v.dispatches, notify, db.dispatchList.items);
      n := |v.dispatches|;
    }
  }

  /** Installs one PPI; p is its place. */
  method RegisterPpi(db: Database, ppi: Descriptor) returns (ghost p: nat)
    requires db.Valid() && 31 in ppi.flags && 4 in ppi.flags
    modifies db.Repr()
    ensures db.Valid() && fresh(db.Repr() - old(db.Repr())) && Served(old(db.Now()), db.Now())
    ensures p == old(|db.ppiList.items|) < |db.ppiList.items| && db.ppiList.items[p] == ppi
  {
    hide Served, Readable, Sorted, PlanReadable;
    SingleIsWhole(ppi, Ppis);
    ghost var v := db.Now();
    var status := db.PeiInstallPpi([ppi]);
    ghost var k: nat :| Whole([ppi], Ppis, false, k) && v.ppis + [ppi][..k] <= db.ppiList.items;
    SingleItem([ppi], ppi, Ppis, k);
    LastOf(v.ppis, ppi, db.ppiList.items);
    p := |v.ppis|;
  }

  /** A callback notify and a PPI with its GUID, registered in either order: their pair has fired exactly once, at
      callback level, when both calls have returned. */
  method CallbackFiresOnce(db: Database, notify: Descriptor, ppi: Descriptor, notifyFirst: bool)
    returns (ghost n: nat, ghost p: nat)
    requires db.Valid() && CallbacksComplete(db.Now())
    requires 5 in notify.flags && 31 in notify.flags && 4 in ppi.flags && 31 in ppi.flags && ppi.guid == notify.guid
    modifies db.Repr()
    ensures db.Valid() && CallbacksComplete(db.Now())
    ensures old(|db.callbackList.items|) <= n < |db.callbackList.items| && db.callbackList.items[n] == notify
    ensures old(|db.ppiList.items|) <= p < |db.ppiList.items| && db.ppiList.items[p] == ppi
    ensures old(db.called)[(n, p)] == 0 && db.called[(n, p)] == 1
  {
    hide Served, Sorted, PlanReadable;
    ghost var u := db.Now();
    if notifyFirst {
      n := RegisterNotify(db, notify);
      ghost var v := db.Now();
      ServedKeepsComplete(u, v);
      ServedGrows(u, v);
      p := RegisterPpi(db, ppi);
      ServedKeepsComplete(v, db.Now());
      ServedGrows(v, db.Now());
    } else {
      p := RegisterPpi(db, ppi);
      ghost var v := db.Now();
      ServedKeepsComplete(u, v);
      ServedGrows(u, v);
      n := RegisterNotify(db, notify);
      ServedKeepsComplete(v, db.Now());
      ServedGrows(v, db.Now());
    }
    assert Matches(db.Now().callbacks, db.Now().ppis, n, p) && !Matches(u.callbacks, u.ppis, n, p);
  }

  /** A notify at dispatch level and a PPI with its GUID, registered in either order: their pair has fired exactly
      once, at dispatch level, when the next dispatch pass has ended. */
  method DispatchFiresOnce(db: Database, notify: Descriptor, ppi: Descriptor, notifyFirst: bool)
    returns (ghost n: nat, ghost p: nat)
    requires db.Valid() && DispatchedRectangle(db.Now())
    requires 6 in notify.flags && 5 !in notify.flags && 31 in notify.flags
    requires 4 in ppi.flags && 31 in ppi.flags && ppi.guid == notify.guid
    modifies db.Repr()
    ensures db.Valid() && DispatchedRectangle(db.Now())
    ensures old(|db.dispatchList.items|) <= n < |db.dispatchList.items| && db.dispatchList.items[n] == notify
    ensures old(|db.ppiList.items|) <= p < |db.ppiList.items| && db.ppiList.items[p] == ppi
    ensures old(db.dispatched)[(n, p)] == 0 && db.dispatched[(n, p)] == 1
  {
    hide Served, Sorted, PlanReadable;
    ghost var u := db.Now();
    if notifyFirst {
      n := RegisterNotify(db, notify);
      ghost var v := db.Now();
      ServedKeepsComplete(u, v);
      ServedGrows(u, v);
      p := RegisterPpi(db, ppi);
      ServedKeepsComplete(v, db.Now());
      ServedGrows(v, db.Now());
    } else {
      p := RegisterPpi(db, ppi);
      ghost var v := db.Now();
      ServedKeepsComplete(u, v);
      ServedGrows(u, v);
      n := RegisterNotify(db, notify);
      ServedKeepsComplete(v, db.Now());
      ServedGrows(v, db.Now());
    }
    db.ProcessDispatchNotifyList();
    assert Matches(db.Now().dispatches, db.Now().ppis, n, p) && !Matches(u.dispatches, u.ppis, n, p);
  }
}
