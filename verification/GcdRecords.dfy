/** The values a GCD map is made of: HostLib/DxeServicesTableLibHost/Gcd.c and Gcd.h.

    A map is a list of records that covers an address space without gaps.  This module
    says what such a list means, address by address, and what each operation asks of a
    record and does to it. */
module GcdRecords {

  datatype Status =
    | Success
    | InvalidParameter
    | Unsupported
    | AccessDenied
    | NotFound
    | OutOfResources
    | NotAvailableYet

  const TWO_TO_64: int := 0x1_0000_0000_0000_0000
  const TWO_TO_63: int := 0x8000_0000_0000_0000

  /** LShiftU64 (1, n). */
  function Pow2(n: nat): (r: int)
    ensures r > 0
  {
    if n == 0 then 1 else 2 * Pow2(n - 1)
  }

  lemma {:induction false} Pow2Adds(m: nat, n: nat)
    ensures Pow2(m + n) == Pow2(m) * Pow2(n)
  {
    if n > 0 {
      Pow2Adds(m, n - 1);
      assert Pow2(m + n) == 2 * Pow2(m + n - 1);
    }
  }

  lemma Pow2Bound(n: nat)
    requires n < 64
    ensures Pow2(n) <= TWO_TO_63 == Pow2(63)
  {
    assert Pow2(7) == 128;
    Pow2Adds(7, 7);
    Pow2Adds(14, 7);
    Pow2Adds(21, 21);
    Pow2Adds(42, 21);
    Pow2Adds(n, 63 - n);
    assert Pow2(63 - n) >= 1;
    Multiplied(Pow2(n), Pow2(63 - n));
  }

  lemma Multiplied(x: int, y: int)
    requires x > 0 && y >= 1
    ensures x * y >= x
  {
  }

  /** EFI_HANDLE; 0 is NULL. */
  type Handle = nat
  const NULL_HANDLE: Handle := 0

  const MEMORY_NON_EXISTENT := 0
  const MEMORY_SYSTEM := 2
  const MEMORY_MAPPED_IO := 3
  const MEMORY_MORE_RELIABLE := 5
  const MEMORY_TYPE_MAXIMUM := 6
  const IO_NON_EXISTENT := 0
  const IO_TYPE_MAXIMUM := 3

  const PAGE_SIZE := 4096

  /** A 64-bit mask of capabilities or attributes, as the set of the bits that are set in it:
      & is intersection and | is union. */
  type Mask = set<nat>

  const MEMORY_UC: Mask := {0}
  const MEMORY_WC: Mask := {1}
  const MEMORY_WT: Mask := {2}
  const MEMORY_WB: Mask := {3}
  const MEMORY_UCE: Mask := {4}
  const MEMORY_WP: Mask := {12}
  const MEMORY_RP: Mask := {13}
  const MEMORY_XP: Mask := {14}
  const MEMORY_RO: Mask := {17}
  const MEMORY_PORT_IO: Mask := {62}
  const MEMORY_RUNTIME: Mask := {63}

  const EXCLUSIVE_MEMORY_ATTRIBUTES: Mask := MEMORY_UC + MEMORY_WC + MEMORY_WT + MEMORY_WB + MEMORY_WP + MEMORY_UCE
  const NONEXCLUSIVE_MEMORY_ATTRIBUTES: Mask := MEMORY_XP + MEMORY_RP + MEMORY_RO
  const CPU_ARCH_ATTRIBUTES: Mask := EXCLUSIVE_MEMORY_ATTRIBUTES + NONEXCLUSIVE_MEMORY_ATTRIBUTES

  /** The six fields on which two neighbouring records are compared before they are merged. */
  datatype Payload = Payload(
    capabilities: Mask,
    attributes: Mask,
    memoryType: int,
    ioType: int,
    imageHandle: Handle,
    deviceHandle: Handle)

  /** EFI_GCD_MAP_ENTRY without its links; signed says that the signature is set. */
  datatype Record = Record(signed: bool, base: int, end: int, payload: Payload)

  const ZERO_PAYLOAD := Payload({}, {}, 0, 0, NULL_HANDLE, NULL_HANDLE)
  const ZERO_RECORD := Record(false, 0, 0, ZERO_PAYLOAD)

  // ----- operations -----

  /** What CoreConvertSpace and CoreAllocateSpace can be asked to do to a range. */
  datatype Operation =
    | AddMemory(memoryType: int, capabilities: Mask)
    | AddIo(ioType: int)
    | FreeMemory
    | FreeIo
    | RemoveMemory
    | RemoveIo
    | SetAttributes(attributes: Mask)
    | SetCapabilities(capabilities: Mask)
    | SetOwner(imageHandle: Handle, deviceHandle: Handle)

  /** The page attributes asked for, and the first cache attribute among them. */
  function ConvertToCpuArchAttributes(attributes: Mask): Mask {
    (attributes * NONEXCLUSIVE_MEMORY_ATTRIBUTES) +
    (if attributes * MEMORY_UC == MEMORY_UC then MEMORY_UC
     else if attributes * MEMORY_WC == MEMORY_WC then MEMORY_WC
     else if attributes * MEMORY_WT == MEMORY_WT then MEMORY_WT
     else if attributes * MEMORY_WB == MEMORY_WB then MEMORY_WB
     else if attributes * MEMORY_UCE == MEMORY_UCE then MEMORY_UCE
     else if attributes * MEMORY_WP == MEMORY_WP then MEMORY_WP
     else {})
  }

  /** No CPU-arch attribute comes out exactly when none was asked for. */
  lemma NoCpuArchAttributes(attributes: Mask)
    ensures ConvertToCpuArchAttributes(attributes) == {} <==> attributes * CPU_ARCH_ATTRIBUTES == {}
  {
  }

  /** The check one record has to pass before the operation touches anything. */
  function Check(op: Operation, p: Payload, base: int, length: int): (status: Status)
    ensures status != OutOfResources && status != NotAvailableYet
  {
    match op
    case AddMemory(_, _) =>
      if p.memoryType != MEMORY_NON_EXISTENT || p.imageHandle != NULL_HANDLE then AccessDenied else Success
    case AddIo(_) =>
      if p.ioType != IO_NON_EXISTENT || p.imageHandle != NULL_HANDLE then AccessDenied else Success
    case FreeMemory | FreeIo =>
      if p.imageHandle == NULL_HANDLE then NotFound else Success
    case RemoveMemory =>
      if p.memoryType == MEMORY_NON_EXISTENT then NotFound
      else if p.imageHandle != NULL_HANDLE then AccessDenied else Success
    case RemoveIo =>
      if p.ioType == IO_NON_EXISTENT then NotFound
      else if p.imageHandle != NULL_HANDLE then AccessDenied else Success
    case SetAttributes(attributes) =>
      if attributes * MEMORY_RUNTIME != {} && (base % PAGE_SIZE != 0 || length % PAGE_SIZE != 0) then InvalidParameter
      else if p.capabilities * attributes != attributes then Unsupported else Success
    case SetCapabilities(capabilities) =>
      if base % PAGE_SIZE != 0 || length % PAGE_SIZE != 0 then InvalidParameter
      else if capabilities * p.attributes != p.attributes then Unsupported else Success
    case SetOwner(_, _) => Success
  }

  /** What the operation makes of the fields of one record. */
  function Apply(op: Operation, p: Payload): Payload {
    match op
    case AddMemory(memoryType, capabilities) =>
      p.(memoryType := memoryType,
         capabilities := if memoryType == MEMORY_MAPPED_IO then capabilities + MEMORY_RUNTIME + MEMORY_PORT_IO
                         else capabilities + MEMORY_RUNTIME)
    case AddIo(ioType) => p.(ioType := ioType)
    case FreeMemory | FreeIo => p.(imageHandle := NULL_HANDLE, deviceHandle := NULL_HANDLE)
    case RemoveMemory => p.(memoryType := MEMORY_NON_EXISTENT, capabilities := {})
    case RemoveIo => p.(ioType := IO_NON_EXISTENT)
    case SetAttributes(attributes) => p.(attributes := attributes)
    case SetCapabilities(capabilities) => p.(capabilities := capabilities)
    case SetOwner(imageHandle, deviceHandle) => p.(imageHandle := imageHandle, deviceHandle := deviceHandle)
  }

  // ----- lists of records -----

  /** The records cover [low, high) in order, without gap or overlap. */
  ghost predicate Tiles(es: seq<Record>, low: int, high: int) {
    && |es| > 0
    && es[0].base == low
    && es[|es| - 1].end == high - 1
    && (forall i :: 0 <= i < |es| ==> es[i].signed && es[i].base <= es[i].end)
    && (forall i :: 0 <= i < |es| - 1 ==> es[i + 1].base == es[i].end + 1)
  }

  ghost predicate Differ(es: seq<Record>, i: nat)
    requires i + 1 < |es|
  {
    es[i].payload != es[i + 1].payload
  }

  /** No two neighbours agree on all six compared fields. */
  ghost predicate Coarsest(es: seq<Record>) {
    forall i :: 0 <= i < |es| - 1 ==> Differ(es, i)
  }

  /** No record holds an attribute bit that only the CPU protocol can set. */
  ghost predicate CpuArchFree(es: seq<Record>) {
    forall i :: 0 <= i < |es| ==> es[i].payload.attributes * CPU_ARCH_ATTRIBUTES == {}
  }

  /** The state of a map between two calls. */
  ghost predicate WellFormed(es: seq<Record>, limit: int) {
    Tiles(es, 0, limit) && Coarsest(es) && CpuArchFree(es)
  }

  /** A space in which nothing exists yet. */
  function Initial(limit: int): seq<Record> {
    [Record(true, 0, limit - 1, ZERO_PAYLOAD)]
  }

  lemma InitialIsWellFormed(limit: int)
    requires limit > 0
    ensures WellFormed(Initial(limit), limit)
  {
  }

  predicate Holds(e: Record, a: int) {
    e.base <= a <= e.end
  }

  /** What the list says of address a: the payload of the record that holds it. */
  function At(es: seq<Record>, a: int): Payload {
    if |es| == 0 then ZERO_PAYLOAD
    else if a <= es[0].end then es[0].payload
    else At(es[1..], a)
  }

  lemma TilesTail(es: seq<Record>, low: int, high: int)
    requires Tiles(es, low, high) && |es| > 1
    ensures Tiles(es[1..], es[0].end + 1, high)
  {
  }

  lemma {:induction false} Ordered(es: seq<Record>, low: int, high: int, i: nat, j: nat)
    requires Tiles(es, low, high) && i < j < |es|
    ensures es[i].end < es[j].base
  {
    if i + 1 < j {
      Ordered(es, low, high, i, j - 1);
    }
  }

  lemma OrderedAll(es: seq<Record>, low: int, high: int)
    requires Tiles(es, low, high)
    ensures forall i, j :: 0 <= i < j < |es| ==> es[i].end < es[j].base
    ensures forall i :: 0 <= i < |es| ==> low <= es[i].base && es[i].end < high
  {
    forall i, j | 0 <= i < j < |es| ensures es[i].end < es[j].base {
      Ordered(es, low, high, i, j);
    }
  }

  /** The record that holds an address decides what the list says of it. */
  lemma {:induction false} AtHolder(es: seq<Record>, low: int, high: int, k: nat, a: int)
    requires Tiles(es, low, high) && k < |es| && Holds(es[k], a)
    ensures At(es, a) == es[k].payload
  {
    if k > 0 {
      Ordered(es, low, high, 0, k);
      TilesTail(es, low, high);
      AtHolder(es[1..], es[0].end + 1, high, k - 1, a);
    }
  }

  /** Every address has a holder, and only one. */
  lemma {:induction false} Holder(es: seq<Record>, low: int, high: int, a: int) returns (k: nat)
    requires Tiles(es, low, high) && low <= a < high
    ensures k < |es| && Holds(es[k], a) && At(es, a) == es[k].payload
    ensures forall j :: 0 <= j < |es| && Holds(es[j], a) ==> j == k
  {
    if a <= es[0].end {
      k := 0;
    } else {
      TilesTail(es, low, high);
      k := Holder(es[1..], es[0].end + 1, high, a);
      k := k + 1;
    }
    OrderedAll(es, low, high);
  }

  lemma CoarsestTail(es: seq<Record>)
    requires Coarsest(es) && |es| > 1
    ensures Coarsest(es[1..])
  {
    forall i | 0 <= i < |es[1..]| - 1 ensures Differ(es[1..], i) { assert Differ(es, i + 1); }
  }

  /** The coarsest list with a given meaning is unique. */
  lemma {:induction false} CoarsestIsUnique(es: seq<Record>, fs: seq<Record>, low: int, high: int)
    requires Tiles(es, low, high) && Tiles(fs, low, high) && Coarsest(es) && Coarsest(fs)
    requires forall a :: low <= a < high ==> At(es, a) == At(fs, a)
    ensures es == fs
  {
    FirstEndsAgree(es, fs, low, high);
    FirstEndsAgree(fs, es, low, high);
    OrderedAll(es, low, high);
    OrderedAll(fs, low, high);
    assert At(es, low) == At(fs, low);
    if |es| > 1 && |fs| > 1 {
      TilesTail(es, low, high);
      TilesTail(fs, low, high);
      CoarsestTail(es);
      CoarsestTail(fs);
      forall a | es[0].end + 1 <= a < high ensures At(es[1..], a) == At(fs[1..], a) {
        assert At(es, a) == At(fs, a);
      }
      CoarsestIsUnique(es[1..], fs[1..], es[0].end + 1, high);
      assert es == [es[0]] + es[1..] && fs == [fs[0]] + fs[1..];
    }
  }

  lemma FirstEndsAgree(es: seq<Record>, fs: seq<Record>, low: int, high: int)
    requires Tiles(es, low, high) && Tiles(fs, low, high) && Coarsest(es) && Coarsest(fs)
    requires forall a :: low <= a < high ==> At(es, a) == At(fs, a)
    ensures es[0].end >= fs[0].end
  {
    if es[0].end < fs[0].end {
      OrderedAll(fs, low, high);
      assert |es| > 1;
      assert Differ(es, 0);
      OrderedAll(es, low, high);
      AtHolder(fs, low, high, 0, low);
      AtHolder(fs, low, high, 0, es[1].base);
      AtHolder(es, low, high, 0, low);
      AtHolder(es, low, high, 1, es[1].base);
    }
  }

  // ----- descriptors -----

  /** EFI_GCD_MEMORY_SPACE_DESCRIPTOR. */
  datatype Descriptor = Descriptor(
    base: int,
    length: int,
    capabilities: Mask,
    attributes: Mask,
    memoryType: int,
    imageHandle: Handle,
    deviceHandle: Handle)

  /** BuildMemoryDescriptor. */
  function Describe(e: Record): Descriptor {
    Descriptor(e.base, e.end - e.base + 1, e.payload.capabilities, e.payload.attributes, e.payload.memoryType,
               e.payload.imageHandle, e.payload.deviceHandle)
  }

  ghost predicate Describes(d: Descriptor, p: Payload) {
    && d.capabilities == p.capabilities && d.attributes == p.attributes && d.memoryType == p.memoryType
    && d.imageHandle == p.imageHandle && d.deviceHandle == p.deviceHandle
  }

  ghost function TotalLength(ds: seq<Descriptor>): int {
    if |ds| == 0 then 0 else ds[0].length + TotalLength(ds[1..])
  }

  /** ds lists the records of es. */
  ghost predicate Lists(ds: seq<Descriptor>, es: seq<Record>) {
    |ds| == |es| && forall i :: 0 <= i < |es| ==> ds[i] == Describe(es[i])
  }

  /** The reported lengths add up to the size of the space, and every descriptor begins where the one before it ends. */
  lemma {:induction false} LengthsCoverSpace(ds: seq<Descriptor>, es: seq<Record>, low: int, high: int)
    requires Tiles(es, low, high) && Lists(ds, es)
    ensures TotalLength(ds) == high - low
    ensures forall i :: 0 <= i < |ds| - 1 ==> ds[i].length > 0 && ds[i + 1].base == ds[i].base + ds[i].length
  {
    if |es| > 1 {
      TilesTail(es, low, high);
      LengthsCoverSpace(ds[1..], es[1..], es[0].end + 1, high);
    } else {
      assert ds[1..] == [];
    }
    forall i | 0 <= i < |ds| - 1 ensures ds[i].length > 0 && ds[i + 1].base == ds[i].base + ds[i].length {
      assert es[i + 1].base == es[i].end + 1;
    }
  }

  /** The descriptor whose range holds an address tells what the list says of that address. */
  lemma MapReports(ds: seq<Descriptor>, es: seq<Record>, low: int, high: int, i: nat, a: int)
    requires Tiles(es, low, high) && Lists(ds, es) && i < |ds| && ds[i].base <= a < ds[i].base + ds[i].length
    ensures low <= a < high
    ensures var p := At(es, a);
            && ds[i].capabilities == p.capabilities && ds[i].attributes == p.attributes
            && ds[i].memoryType == p.memoryType
            && ds[i].imageHandle == p.imageHandle && ds[i].deviceHandle == p.deviceHandle
  {
    OrderedAll(es, low, high);
    AtHolder(es, low, high, i, a);
  }

  // ----- searching -----

  /** BaseAddress + Length - 1 in UINT64 arithmetic. */
  function LastAddress(base: int, length: int): int {
    if base + length <= TWO_TO_64 then base + length - 1 else base + length - 1 - TWO_TO_64
  }

  /** What the search for a range accepts: a range inside the space; or, when its last address wraps
      around 2^64, one whose wrapped last address lies in the record of its base. */
  ghost predicate Found(es: seq<Record>, base: int, length: int, limit: int) {
    if base + length <= TWO_TO_64 then base + length <= limit
    else exists k :: 0 <= k < |es| && Holds(es[k], base) && Holds(es[k], LastAddress(base, length))
  }

  /** The range does not wrap around 2^64, or it does and the search refuses it. */
  ghost predicate HarmlessRange(es: seq<Record>, base: int, length: int, limit: int) {
    base + length <= TWO_TO_64 || !Found(es, base, length, limit)
  }

  lemma FoundMeans(es: seq<Record>, base: int, length: int, limit: int)
    requires base + length <= TWO_TO_64
    ensures Found(es, base, length, limit) <==> base + length <= limit
    ensures LastAddress(base, length) == base + length - 1
  {
  }

  lemma FoundByHolders(es: seq<Record>, base: int, length: int, limit: int, s: nat, e: nat)
    requires Tiles(es, 0, limit) && limit <= TWO_TO_63 && 0 <= base < TWO_TO_64 && 0 < length < TWO_TO_64
    requires s <= e < |es| && Holds(es[s], base) && Holds(es[e], LastAddress(base, length))
    ensures Found(es, base, length, limit)
  {
    OrderedAll(es, 0, limit);
    if base + length > TWO_TO_64 {
      assert s == e;
    }
  }

  lemma HoldersOfFound(es: seq<Record>, base: int, length: int, limit: int) returns (s: nat, e: nat)
    requires Tiles(es, 0, limit) && 0 <= base < TWO_TO_64 && 0 < length < TWO_TO_64
    requires Found(es, base, length, limit)
    ensures s <= e < |es| && Holds(es[s], base) && Holds(es[e], LastAddress(base, length))
  {
    OrderedAll(es, 0, limit);
    if base + length <= TWO_TO_64 {
      s := Holder(es, 0, limit, base);
      e := Holder(es, 0, limit, base + length - 1);
    } else {
      s :| 0 <= s < |es| && Holds(es[s], base) && Holds(es[s], LastAddress(base, length));
      e := s;
    }
  }

  /** An address has at most one holder. */
  lemma OneHolder(es: seq<Record>, low: int, high: int, i: nat, j: nat, a: int)
    requires Tiles(es, low, high) && i < |es| && j < |es| && Holds(es[i], a) && Holds(es[j], a)
    ensures i == j
  {
    OrderedAll(es, low, high);
  }

  /** A pass that met no holder of base, or none of the last address from there on, shows that there is none. */
  lemma NothingFound(es: seq<Record>, base: int, length: int, limit: int, s: nat, started: bool)
    requires Tiles(es, 0, limit) && 0 <= base < TWO_TO_64 && 0 < length < TWO_TO_64
    requires !started ==> forall j :: 0 <= j < |es| ==> !Holds(es[j], base)
    requires started ==> s < |es| && Holds(es[s], base)
    requires started ==> forall j :: s <= j < |es| ==> !Holds(es[j], LastAddress(base, length))
    ensures !Found(es, base, length, limit)
  {
    if Found(es, base, length, limit) {
      var s', e' := HoldersOfFound(es, base, length, limit);
      if started {
        OneHolder(es, 0, limit, s, s', base);
      }
    }
  }

  // ----- the status of an operation on a range -----

  ghost function CheckAt(es: seq<Record>, op: Operation, a: int, base: int, length: int): (status: Status)
    ensures status != OutOfResources && status != NotAvailableYet
  {
    Check(op, At(es, a), base, length)
  }

  /** The status of the lowest of count addresses whose record fails the check. */
  ghost function CheckRange(es: seq<Record>, op: Operation, from: int, count: nat, base: int,
                            length: int): (status: Status)
    ensures status != OutOfResources && status != NotAvailableYet
    decreases count
  {
    if count == 0 then Success
    else if CheckAt(es, op, from, base, length) != Success then CheckAt(es, op, from, base, length)
    else CheckRange(es, op, from + 1, count - 1, base, length)
  }

  lemma {:induction false} CheckRangePasses(es: seq<Record>, op: Operation, from: int, count: nat, base: int,
                                            length: int)
    ensures CheckRange(es, op, from, count, base, length) == Success
            <==> forall a :: from <= a < from + count ==> CheckAt(es, op, a, base, length) == Success
    decreases count
  {
    if count > 0 {
      CheckRangePasses(es, op, from + 1, count - 1, base, length);
      if CheckRange(es, op, from, count, base, length) == Success {
        forall a | from <= a < from + count ensures CheckAt(es, op, a, base, length) == Success {
          assert a == from || from + 1 <= a;
        }
      }
    }
  }

  lemma {:induction false} CheckRangeFails(es: seq<Record>, op: Operation, from: int, count: nat, base: int,
                                           length: int, a: int)
    requires from <= a < from + count && CheckAt(es, op, a, base, length) != Success
    requires forall b :: from <= b < a ==> CheckAt(es, op, b, base, length) == Success
    ensures CheckRange(es, op, from, count, base, length) == CheckAt(es, op, a, base, length)
    decreases count
  {
    if from < a {
      CheckRangeFails(es, op, from + 1, count - 1, base, length, a);
    }
  }
}
