# A Dafny model of the host-based firmware libraries

The repository rehosts UEFI firmware libraries so that drivers can be fuzzed on a workstation.  This project models
the parts of it in which state, arithmetic and call order matter most, and proves what callers rely on.

* **GCD services** (`LinkedList.dfy`, `Gcd*.dfy`): the map of an address space, section 7.2 of the UEFI Platform
  Initialization Specification, volume 2.  A map is a circular doubly linked list of range records on the heap
  (`GcdMap.Map`), mirrored by a sequence of records.  What a list *means* is a function from addresses to their type,
  capabilities, attributes and owner (`GcdRecords.At`), and every operation is specified by that function alone
  (`GcdOutcome`, `GcdFits`): splitting, searching and merging do not occur in the specification.  Since the list is
  always the coarsest one with its meaning, and that list is unique, laws about meanings are laws about the
  identical list (`GcdLaws`).  `GcdRuns` states what every reachable state keeps, and `GcdEffects` says in the numbers
  of the interface what each call stores, chooses and refuses.
* **PPI database** (`PpiNotifications.dfy`, `PpiDatabase.dfy`): installing PPIs, registering notifies and firing
  them, with callbacks that install and register in turn.  A callback is any finite script of calls; the scripts to
  come are a field of the database, so that each statement holds for all of them.
* **Text** (`NumberText.dfy`, `NumberPrinting.dfy`, `Ipv6Text.dfy`, `Ipv6Grammar.dfy`, `GuidText.dfy`): printing and
  reading numbers and GUIDs, and the IPv6 parser against a grammar of its texts (section 2.2 of RFC 4291).
* **HOB arena** (`HobArena.dfy`) and **fuzz pool** (`FuzzPool.dfy`): the byte arena with its end marker, and the
  pool of bytes with limits, sub-pools and the registry of overrides.

Integers are unbounded in the model; where the code computes in 64 bits and it matters (the last address of a range,
the overflow checks of the number readers, byte swaps, 16-bit lengths) the wrap or the bound is written out.
Masks are sets of bit numbers.  Texts are sequences of characters with the NUL behind their end.  The memory
allocator of the GCD maps is a sequence of answers (`GcdMap.Pool.supply`), so each statement covers every pattern of
failures.

Where the comments of the sources and their code differ, the model follows the code:

* the top-down search skips a record when its base plus the length exceeds the maximum address, so it can miss
  ranges that are free; `FindTopDown` says exactly what it returns, and `TopDownFindsBest` and `TopDownFindsNothing` say when that is
  what fits;
* drawing 0 bytes at the very end of a fuzz pool fails (HostLib/FuzzContextLib/FuzzContextLib.c:165), although the
  comment above it says that it succeeds; and the registry has 1024 slots (Include/Library/FuzzContextLib.h:34), not
  the 16 its comment speaks of;
* a number reader that finds no digit behind blanks leaves the end pointer behind the blanks, not at the start of
  the string;
* a group of an IPv6 text may be spelled with a leading "0x", since the hexadecimal reader takes one;
* a width of 0 stands for one character less than MAXIMUM_VALUE_CHARACTERS when a number is printed.

## Model

| member | source | states |
|---|---|---|
| `LinkedList.LinksAreInverse` | HostLib/BaseLibHost/LinkedList.c:153-211 | In a well-formed ring, following the forward link of any node and then the back link, or the other way round, comes back to the node |
| `LinkedList.InitializeListHead` | HostLib/BaseLibHost/LinkedList.c:117-129 | A node alone becomes the ring of itself |
| `LinkedList.InsertHeadList` | HostLib/BaseLibHost/LinkedList.c:153-170 | The entry stands directly behind the list head in the ring; all other nodes keep their order, and only link fields change |
| `LinkedList.InsertTailList` | HostLib/BaseLibHost/LinkedList.c:194-211 | The entry stands directly in front of the list head; all other nodes keep their order |
| `LinkedList.RemoveEntryList` | HostLib/BaseLibHost/LinkedList.c:525-536 | The ring loses exactly that node, the rest is still a ring, and the node behind it is returned |
| `LinkedList.IsNodeInList` | HostLib/BaseLibHost/LinkedList.c:69-99 | True exactly for the nodes of the ring, found by one walk around it |
| `LinkedList.SwapListEntries` | HostLib/BaseLibHost/LinkedList.c:457-502 | Exactly the two nodes change places in the ring, be they equal, neighbours on either side, the only two nodes, or apart |
| `GcdRecords.CoarsestIsUnique` | HostLib/DxeServicesTableLibHost/Gcd.c:505-604 | Two lists without gaps and without equal neighbours that say the same of every address are the same list |
| `GcdRecords.LengthsCoverSpace` | HostLib/DxeServicesTableLibHost/Gcd.c:1719-1810 | The lengths in a reported map add up to the size of the address space |
| `GcdRecords.MapReports` | HostLib/DxeServicesTableLibHost/Gcd.c:1719-1810 | The descriptor whose range holds an address has the capabilities, attributes, type and owner that the list says of that address |
| `GcdRecords.FoundByHolders` | HostLib/DxeServicesTableLibHost/Gcd.c:621-660 | Whenever the walk meets a record that holds the first address and then one that holds the last, the range lies in the space or is a wrapping one inside one record |
| `GcdRecords.NoCpuArchAttributes` | HostLib/DxeServicesTableLibHost/Gcd.c:698-723 | No CPU-arch attribute comes out of the conversion exactly when none was asked for |
| `GcdRecords.CheckRangePasses` | HostLib/DxeServicesTableLibHost/Gcd.c:801-889 | The check of a whole range succeeds exactly when the check succeeds at each of its addresses |
| `GcdRecords.CheckRangeFails` | HostLib/DxeServicesTableLibHost/Gcd.c:801-889 | Otherwise its status is that of the first address that fails |
| `GcdFits.AlignDownIsGreatest` | HostLib/DxeServicesTableLibHost/Gcd.c:350-399 | Rounding down gives the greatest multiple that is not above the value |
| `GcdFits.AlignUpIsLeast` | HostLib/DxeServicesTableLibHost/Gcd.c:350-399 | Rounding up gives the least multiple that is not below the value |
| `GcdFits.BottomUpJumps` | HostLib/DxeServicesTableLibHost/Gcd.c:1269-1288 | Jumping to the record that blocks the one base tried loses no aligned range that would fit |
| `GcdFits.TopDownJumps` | HostLib/DxeServicesTableLibHost/Gcd.c:1236-1288 | Jumping down to the blocking record loses no range the search would consider |
| `GcdFits.ChoiceIsUnique` | HostLib/DxeServicesTableLibHost/Gcd.c:1166-1293 | A request has at most one base that its allocation may return |
| `GcdMap.Pool.AllocateGcdMapEntry` | HostLib/DxeServicesTableLibHost/Gcd.c:415-442 | Both spare entries are live and distinct, or neither is; the first is given back when the second cannot be had |
| `GcdMap.Map.constructor` | HostLib/DxeServicesTableLibHost/Gcd.c:2135-2168 | The list of one record that covers 2^size addresses, none of them existing |
| `GcdMap.Map.InsertGcdMapEntry` | HostLib/DxeServicesTableLibHost/Gcd.c:459-490 | The record is cut to the range: what lies below and above it stands in the two spare entries, each used only when needed, directly around the entry |
| `GcdMap.Map.AccumulateAttributes` | HostLib/DxeServicesTableLibHost/Gcd.c:986-998 | Gathering the attributes a record holds into those asked for changes nothing, because no record holds a CPU-arch attribute |
| `GcdMap.Map.ConvertEntries` | HostLib/DxeServicesTableLibHost/Gcd.c:946-1004 | The loop over the covered records rewrites exactly the addresses of the range and keeps the list without gaps, splitting at most the first and the last record |
| `GcdMap.Map.MergeGcdMapEntry` | HostLib/DxeServicesTableLibHost/Gcd.c:505-563 | The neighbour is absorbed and freed exactly when it is not the list head and agrees on all six fields; else nothing changes |
| `GcdMap.Map.CleanupGcdMapEntry` | HostLib/DxeServicesTableLibHost/Gcd.c:574-604 | Unused spare entries are freed once, and the list is the coarsest again with the same meaning; the end link stays in the ring while the loop runs, and the freed entries are those no longer in it |
| `GcdMap.Map.SearchGcdMapEntry` | HostLib/DxeServicesTableLibHost/Gcd.c:621-660 | The entries that hold the first and the last address of the range, or NOT_FOUND exactly when the range is not in the space |
| `GcdMap.Map.CheckEntries` | HostLib/DxeServicesTableLibHost/Gcd.c:801-889 | Checking the covered records gives the status of checking every address of the range in order |
| `GcdMap.Map.ConvertSpace` | HostLib/DxeServicesTableLibHost/Gcd.c:750-1024 | The status is decided by what the list says of the range and by the pool; on success each address of the range and no other is changed as the operation says, in the coarsest list; on every error the list is as it was; no live entry is lost or leaked |
| `GcdMap.Map.FindBottomUp` | HostLib/DxeServicesTableLibHost/Gcd.c:1200-1293 | The least aligned base whose whole range is free, of the type asked for and not beyond the maximum; none is returned exactly when there is none |
| `GcdMap.Map.FindTopDown` | HostLib/DxeServicesTableLibHost/Gcd.c:1200-1293 | The search ends; it returns the greatest such base whose last record passes the guard of the loop, and none exactly when no such base does |
| `GcdMap.Map.AllocateSpace` | HostLib/DxeServicesTableLibHost/Gcd.c:1089-1339 | The chosen range, and no other address, goes to the new owner, or the list is as it was; with the status the parameters, the search and the pool give |
| `GcdMap.Map.GetMemorySpaceDescriptor` | HostLib/DxeServicesTableLibHost/Gcd.c:1589-1628 | NOT_FOUND exactly outside the space; otherwise the record that holds the address, and with it what the list says of the address |
| `GcdMap.Map.CountGcdMapEntry` | HostLib/DxeServicesTableLibHost/Gcd.c:670-687 | The number of records |
| `GcdMap.Map.GetMemorySpaceMap` | HostLib/DxeServicesTableLibHost/Gcd.c:1719-1810 | One descriptor for each record, in order, whose lengths add up to the space; or OUT_OF_RESOURCES exactly when the pool refuses the array; one answer of the pool is used up |
| `GcdSystemMemory.AddedFits` | HostLib/DxeServicesTableLibHost/Gcd.c:1446-1507 | After a successful add, an untaken part of the range always fits an allocation of the type it was added with, so that only the pool can make it fail |
| `GcdSystemMemory.EachPageTaken` | HostLib/DxeServicesTableLibHost/Gcd.c:1485-1503 | Asked for one by one, a page is taken exactly when both of its two requests to the pool are met; the status is that of the last page, and every other answer of the pool is left |
| `GcdSystemMemory.WholePagesOwned` | HostLib/DxeServicesTableLibHost/Gcd.c:1446-1507 | Of an added range of type 2 or 5 the owner has exactly the pages of 4096 bytes that lie in it whole, and of any other type nothing |
| `GcdServices.Services.constructor` | HostLib/DxeServicesTableLibHost/Gcd.c:2135-2168 | Two empty maps of the two sizes, whose entries are all the live ones |
| `GcdServices.Services.ConvertSpace` | HostLib/DxeServicesTableLibHost/Gcd.c:750-1024 | The operation changes the map it is for as stated and leaves the other alone; the live entries are exactly those of the two lists |
| `GcdServices.Services.AllocateSpace` | HostLib/DxeServicesTableLibHost/Gcd.c:1089-1339 | The same for allocations |
| `GcdServices.Services.InternalAddMemorySpace` | HostLib/DxeServicesTableLibHost/Gcd.c:1354-1374 | Types other than 1 to 5 are refused; otherwise the range is added or the map is as it was |
| `GcdServices.Services.TakeSinglePages` | HostLib/DxeServicesTableLibHost/Gcd.c:1485-1503 | The loop over single pages takes exactly the pages whose two requests the pool meets, and its status is that of the last request |
| `GcdServices.Services.TakePages` | HostLib/DxeServicesTableLibHost/Gcd.c:1446-1507 | Whole pages go to the core at once when the pool allows it, else page by page; the status, the pages taken and the answers of the pool that are left follow exactly from the answers given |
| `GcdServices.Services.AddMemorySpace` | HostLib/DxeServicesTableLibHost/Gcd.c:1446-1507 | The exact outcome for every pattern of pool failures: a refused add changes nothing; after an accepted one each address of the range has the new type, and exactly the whole pages whose requests are met are owned by the core, its partial head and tail never; with four answers that meet their requests the core owns an address of the range exactly when the type is 2 or 5 and its page of 4096 bytes lies whole in the range |
| `GcdRuns.InitialSays` | HostLib/DxeServicesTableLibHost/Gcd.c:2135-2168 | At first no address has a type, a capability, an attribute, an owner or a device |
| `GcdRuns.EveryReachableStateIsGood` | HostLib/DxeServicesTableLibHost/Gcd.c:750-1024 | In every state of every run both lists tile their spaces with no two equal neighbours, no record holds a CPU-arch attribute, and no unowned address has a device |
| `GcdRuns.OwnershipMachine` | HostLib/DxeServicesTableLibHost/Gcd.c:801-1004 | One step changes an address of either space only so: its type by an add from nonexistent or by a remove, while unowned; its owner by an allocation of the right type while unowned or by a free while owned; its attributes to exactly those asked for, within its capabilities; the type in the other space never |
| `GcdRuns.ConvertStep` | HostLib/DxeServicesTableLibHost/Gcd.c:750-1024 | Every conversion the services carry out is a step of such a run, with the status and the pool answer it had |
| `GcdRuns.AllocateStep` | HostLib/DxeServicesTableLibHost/Gcd.c:1089-1339 | So is every allocation |
| `GcdRuns.StartRun` | HostLib/DxeServicesTableLibHost/Gcd.c:2135-2168 | The constructor leaves the services in the state in which runs start |
| `GcdRuns.OwnersLeaveByFree` | HostLib/DxeServicesTableLibHost/Gcd.c:825-834 | Over any stretch of any run, an owner of an address of either space is replaced only if a successful free in that space covered the address meanwhile |
| `GcdEffects.AddStores` | HostLib/DxeServicesTableLibHost/Gcd.c:950-961 | After a successful add each address of the range has the type asked for, bit 63, bit 62 exactly when asked for or for memory-mapped I/O, every other capability exactly when asked for, and is otherwise as it was |
| `GcdEffects.OthersStore` | HostLib/DxeServicesTableLibHost/Gcd.c:962-1002 | What each other operation stores in an address of its range, and that it stores nothing else: handles 0 by a free, type 0 and no capabilities by a remove, attributes and capabilities as given |
| `GcdEffects.NothingElseChanges` | HostLib/DxeServicesTableLibHost/Gcd.c:946-1004 | A conversion changes no address outside its range, none of the other space, and none at all when it fails |
| `GcdEffects.ConversionStatus` | HostLib/DxeServicesTableLibHost/Gcd.c:750-943 | A range that does not wrap is converted exactly when it is not empty, lies in the space, no address of it stands in the way, the pool gives both entries, and no attribute with bit 0 to 4, 12, 13, 14 or 17 is asked for; each other status has its cause |
| `GcdEffects.RefusalStatus` | HostLib/DxeServicesTableLibHost/Gcd.c:801-889 | The lowest address that stands in the way decides the status: access denied for what is there or owned already, not found for what is not there or not owned, invalid parameter off page bounds, unsupported for an attribute that is no capability |
| `GcdEffects.AllocationIsBest` | HostLib/DxeServicesTableLibHost/Gcd.c:1112-1293 | By the numbers of the types: 0 and 1 get the lowest, 3 and 4 the highest aligned range that is in the space, unowned and of the type wanted, 1 and 4 not beyond the address passed in, 3 and 4 only with a last record that passes the guard, 2 just that address; NOT_FOUND exactly when there is none, and the other statuses exactly in their cases |
| `GcdEffects.AllocationStores` | HostLib/DxeServicesTableLibHost/Gcd.c:1294-1339 | Each address of the range taken gets the two handles of the request and is otherwise as it was; so is every other address |
| `GcdLaws.DisjointCallsCommute` | HostLib/DxeServicesTableLibHost/Gcd.c:750-1024 | Two conversions or allocations at an address on disjoint ranges, in either order, have the same statuses and leave the identical list, when each meets the same pool |
| `GcdLaws.DisjointCallsShareThePool` | HostLib/DxeServicesTableLibHost/Gcd.c:750-1024 | When the two calls share one pool, both orders agree on statuses, list and the answers left if and only if the calls do not both reach the pool while it meets just one of the two requests |
| `GcdLaws.FreeUndoesAllocate` | HostLib/DxeServicesTableLibHost/Gcd.c:1089-1339 | Freeing what was just allocated, wherever the search put it, succeeds and restores the identical list |
| `GcdLaws.RemoveUndoesAdd` | HostLib/DxeServicesTableLibHost/Gcd.c:954-985 | Removing what was just added succeeds, and restores the identical list if and only if no address of the range had capabilities before |
| `GcdLaws.TopDownMissesOnlyUnguarded` | HostLib/DxeServicesTableLibHost/Gcd.c:1236-1240 | Every range above the one the top-down search returns has a last record whose base plus the length exceeds the maximum |
| `GcdLaws.TopDownFindsBest` | HostLib/DxeServicesTableLibHost/Gcd.c:1236-1293 | The greatest range that fits is what the top-down search returns if and only if its last record passes the guard of the loop |
| `GcdLaws.TopDownFindsNothing` | HostLib/DxeServicesTableLibHost/Gcd.c:1236-1293 | A proper top-down request gets NOT_FOUND if and only if no range that fits passes that guard |
| `GcdLaws.TopDownMissesWholeSpace` | HostLib/DxeServicesTableLibHost/Gcd.c:1236-1240 | The top-down search never finds the whole of an empty space, which the bottom-up search does |
| `GcdLaws.CutsKeepTilingUnlessWrapped` | HostLib/DxeServicesTableLibHost/Gcd.c:459-490 | Cutting a record to a range found in it leaves a list without gaps if and only if the range does not wrap around 2^64 |
| `GcdLaws.WrappingRangeIsFound` | HostLib/DxeServicesTableLibHost/Gcd.c:636-651 | Such a range exists: in an empty space of at least 4 addresses the search finds base 2 with length 2^64 - 1 in one record |
| `PpiNotifications.ReadableIsWholeOrRefused` | HostLib/PeiServicesTablePointerLibHost/Ppi.c:58-108 | A list that has an end or a bad item is taken whole exactly when it is not refused at some item |
| `PpiNotifications.FlagsByBits` | HostLib/PeiServicesTablePointerLibHost/Ppi.c:63-376 | Which bit of the flags means what: 4 a PPI, 5 a callback, 6 a notify at dispatch level, 31 the end of a list |
| `PpiNotifications.WholeByBits` | HostLib/PeiServicesTablePointerLibHost/Ppi.c:58-108 | A list is whole exactly when its items have bit 4, or bit 5 or 6 for notifies, and the last of them alone has bit 31, or it is given as a single item |
| `PpiNotifications.FiledByBits` | HostLib/PeiServicesTablePointerLibHost/Ppi.c:332-417 | Each item with bit 5 is among the new callbacks and not in the dispatch list, and each without it the other way round |
| `PpiNotifications.InstancesCount` | HostLib/PeiServicesTablePointerLibHost/Ppi.c:239-291 | The count of instances is the number of places where the GUID stands |
| `PpiNotifications.ServedKeepsComplete` | HostLib/PeiServicesTablePointerLibHost/Ppi.c:29-123 | A call that has returned, whatever its callbacks did, keeps both statements: every matching callback pair fired once, and the dispatch pairs fired are those below the two marks |
| `PpiNotifications.ExactlyOnceInEveryRun` | HostLib/PeiServicesTablePointerLibHost/Ppi.c:464-582 | In every run of installs, notifies and dispatch passes, with callbacks nesting to any depth, every matching callback pair has fired exactly once whenever control is outside, and right after a dispatch pass every matching dispatch pair has too |
| `PpiDatabase.PointerList.Append` | HostLib/PeiServicesTablePointerLibHost/Ppi.c:70-90 | The item stands behind the others, in a larger copy of the array when the room is used up, with the others unchanged |
| `PpiDatabase.Database.Fire` | HostLib/PeiServicesTablePointerLibHost/Ppi.c:570-579 | One notify function is called for that pair: the next script is taken, its calls are carried out, and all that they install or register has been served when it returns |
| `PpiDatabase.Database.Perform` | HostLib/PeiServicesTablePointerLibHost/Ppi.c:574-578 | Every call of the script has been carried out, and served, when the callback returns |
| `PpiDatabase.Database.ProcessNotifyRow` | HostLib/PeiServicesTablePointerLibHost/Ppi.c:559-580 | One notify is fired for exactly the PPIs of the captured range with its GUID, besides what the callbacks bring about |
| `PpiDatabase.Database.ProcessNotify` | HostLib/PeiServicesTablePointerLibHost/Ppi.c:533-582 | Exactly the matching pairs of the captured rectangle fire once, besides the callback pairs that came into being meanwhile, though callbacks append to the lists being walked; each firing carries out one script |
| `PpiDatabase.Database.StorePpis` | HostLib/PeiServicesTablePointerLibHost/Ppi.c:48-108 | All items of the list are appended, or none when one is refused, the count rolled back |
| `PpiDatabase.Database.InstallPpi` | HostLib/PeiServicesTablePointerLibHost/Ppi.c:28-123 | Every callback pair that is new when the call returns fired once and nothing else did; a refused list changes nothing and fires nothing |
| `PpiDatabase.Database.StoreNotifies` | HostLib/PeiServicesTablePointerLibHost/Ppi.c:332-417 | Items go to the callback list or the dispatch list by their flags, in order; or both counts are rolled back |
| `PpiDatabase.Database.NotifyPpi` | HostLib/PeiServicesTablePointerLibHost/Ppi.c:309-432 | Every callback pair that is new when the call returns fired once and nothing else did; the new notifies stand behind the old ones, those with bit 5 in the callback list and not in the dispatch list, those without it the other way round |
| `PpiDatabase.Database.PeiInstallPpi` | HostLib/PeiServicesTablePointerLibHost/Ppi.c:140-148 | Success exactly when the list is whole |
| `PpiDatabase.Database.PeiNotifyPpi` | HostLib/PeiServicesTablePointerLibHost/Ppi.c:448-456 | Success exactly when the list is whole |
| `PpiDatabase.Database.PeiReInstallPpi` | HostLib/PeiServicesTablePointerLibHost/Ppi.c:167-221 | The first slot with the old pointer holds the new one, all callbacks that match it fire for it once; a new PPI without bit 4 is refused; errors change nothing |
| `PpiDatabase.Database.PeiLocatePpi` | HostLib/PeiServicesTablePointerLibHost/Ppi.c:239-291 | The PPI with that GUID which as many others with it precede as asked for, or NOT_FOUND exactly when there are too few |
| `PpiDatabase.MarkMoves` | HostLib/PeiServicesTablePointerLibHost/Ppi.c:481-513 | Firing the strip between a mark and the captured end and then moving the mark there keeps the fired dispatch pairs the rectangle below the marks |
| `PpiDatabase.Database.ProcessDispatchNotifyList` | HostLib/PeiServicesTablePointerLibHost/Ppi.c:464-520 | The pass ends whenever callbacks add finitely much, and then every matching dispatch pair has fired exactly once and both marks are at the ends |
| `PpiDatabase.CallbackFiresOnce` | HostLib/PeiServicesTablePointerLibHost/Ppi.c:309-432 | A notify with bit 5 and a PPI with bit 4 and its GUID, registered in either order in any state a run reaches, have fired exactly once as a callback when both calls have returned |
| `PpiDatabase.DispatchFiresOnce` | HostLib/PeiServicesTablePointerLibHost/Ppi.c:464-520 | A notify with bit 6 and not bit 5 and such a PPI have fired exactly once at dispatch level when the next pass has ended |
| `NumberText.ReadDigits` | HostLib/BaseLibHost/SafeString.c:2390-2412 | The number of the run of digits if it fits in 64 bits, else the largest number and the position of the first digit that is too much |
| `NumberText.ReadNumber` | HostLib/BaseLibHost/SafeString.c:2351-2413 | The number readers, decimal and hexadecimal, with their blanks, zeros, optional x, overflow and length limit |
| `NumberText.WholeRunDecides` | HostLib/BaseLibHost/SafeString.c:2594-2667 | Unless an x leads the hexadecimal digits, a reader succeeds exactly when the number of the whole run of digits is at most MAX_UINT64, and otherwise saturates inside the run |
| `NumberText.RunBehindXDecides` | HostLib/BaseLibHost/SafeString.c:2624-2665 | Behind zeros and an x the same holds of the run behind the x; with no zero in front of the x nothing is read |
| `NumberText.DigitsByTable` | HostLib/BaseLibHost/String.c:322-333 | The sixteen digits of either case by their places in a table, which are their values |
| `NumberText.PlacesCount` | HostLib/BaseLibHost/SafeString.c:2390-2412 | The number of a text is that of its front times the power of the radix for its back, plus that of its back |
| `NumberText.ReadsIgnoresCase` | HostLib/BaseLibHost/SafeString.c:2624-2665 | What is read does not depend on the case of the letters, that of the x included |
| `NumberText.SpelledNumberReads` | HostLib/BaseLibHost/SafeString.c:2351-2413 | Blanks, zeros, an x behind a zero for hexadecimal, then the digits in upper, lower or mixed case: read to their end as the number, and as overflow exactly from 2^64 on |
| `NumberText.DigitsRead` | HostLib/PrintLibHost/PrintLibInternal.c:162-184 | The digits printed for a number are digits of the radix and stand for that number |
| `NumberText.PrintedNumberReads` | HostLib/BaseLibHost/SafeString.c:2351-2413 | Reading printed digits gives the number back, whatever non-digit follows |
| `NumberText.ZerosThenDigitsRead` | HostLib/BaseLibHost/SafeString.c:2351-2413 | Any number of zeros in front does not change what is read |
| `NumberPrinting.FillBuffer` | HostLib/PrintLibHost/PrintLibInternal.c:127-148 | The text shown is continued by so many characters as fit below the end, in one or two bytes each, and no byte behind them changes |
| `NumberPrinting.ValueToString` | HostLib/PrintLibHost/PrintLibInternal.c:162-184 | The digits lie in the buffer in reverse behind a 0 |
| `NumberPrinting.CommasPlace` | HostLib/PrintLibHost/PrintLibInternal.c:511-528 | Counted from the right every fourth character is a comma and the others are the digits in order |
| `NumberPrinting.GroupedIsCommas` | HostLib/PrintLibHost/PrintLibInternal.c:511-528 | What the printing loop emits from the left, comma by comma, is the grouping counted from the right |
| `NumberPrinting.PrintDigits` | HostLib/PrintLibHost/PrintLibInternal.c:511-528 | The loop prints the digits, grouped if asked for, clipped at the end of the buffer |
| `NumberPrinting.CountIsEnough` | HostLib/PrintLibHost/PrintLibInternal.c:450-478 | The count made before printing is the length of what is printed |
| `NumberPrinting.CountCharacters` | HostLib/PrintLibHost/PrintLibInternal.c:450-478 | That count, and at least one character |
| `NumberPrinting.ConvertValueToStringS` | HostLib/PrintLibHost/PrintLibInternal.c:381-535 | The first Width characters of sign, zeros and digits, and a NUL, in (Width + 1) * Increment bytes and no others; each refused call leaves the buffer as it was |
| `NumberPrinting.PrintedValueReads` | HostLib/PrintLibHost/PrintLibInternal.c:381-535 | Reading what is printed without flags gives back every value that is not negative in decimal and every 64-bit pattern in hexadecimal |
| `NumberPrinting.PaddedValueReads` | HostLib/PrintLibHost/PrintLibInternal.c:498-507 | So does reading a text padded with zeros to a width the digits fit in |
| `NumberPrinting.ShownValueReads` | HostLib/PrintLibHost/PrintLibInternal.c:381-535 | Every value printed with any flags and width that its text fits in: a minus sign exactly for negative decimals, and what follows, without its commas, reads as the distance from 0, or as the 64-bit pattern in hexadecimal |
| `NumberPrinting.ShapeOfText` | HostLib/PrintLibHost/PrintLibInternal.c:450-528 | A padded text is exactly as wide as asked for; commas stand only where asked for, and then in every fourth place from the right |
| `NumberPrinting.BytesOfString` | HostLib/PrintLibHost/PrintLibInternal.c:127-148 | The characters can be read back from the bytes, the low byte of two first, up to the NUL; the bytes behind are as they were |
| `Ipv6Text.ReadGroups` | HostLib/BaseLibHost/SafeString.c:1202-1321 | The parser loop: groups are stored in order and always inside the address, and the loop ends |
| `Ipv6Text.StrToIpv6Address` | HostLib/BaseLibHost/SafeString.c:1178-1349 | All sixteen bytes are set, as groups, zeros, groups; a refused text leaves the address as it was |
| `Ipv6Text.ParseIgnoresCase` | HostLib/BaseLibHost/SafeString.c:1178-1349 | Which address, prefix length and end a text gives does not depend on the case of its letters |
| `Ipv6Grammar.AcceptedIsText` | HostLib/BaseLibHost/SafeString.c:1178-1349 | Whatever is accepted starts with a text of the grammar (eight groups, or fewer with one "::", and an optional "/P"), the address and prefix returned are the ones that text stands for, and the prefix is at most 128, or 255 when none is given |
| `Ipv6Grammar.TextIsAccepted` | HostLib/BaseLibHost/SafeString.c:1178-1349 | Every text of the grammar is accepted with that meaning and read exactly to its end, whatever follows that is not part of it |
| `Ipv6Grammar.PrintedAddressReads` | HostLib/BaseLibHost/SafeString.c:1178-1349 | Printing any address with any run of zero groups compressed or none, with or without a prefix length up to 128, and parsing gives the address, high bytes first, and the prefix back |
| `Ipv6Grammar.AddressReadsInAnyCase` | HostLib/BaseLibHost/SafeString.c:1178-1349 | So does parsing the text in lower or mixed case |
| `Ipv6Grammar.GroupShape` | HostLib/BaseLibHost/SafeString.c:1240-1290 | A group is one to four characters, all hexadecimal digits, or zeros, an x and digits |
| `GuidText.SwappedBytes` | HostLib/BaseLibHost/SwapBytes32.c:25-37 | Swapping turns the little-endian reading of big-endian bytes into their number |
| `GuidText.HexToBytes` | HostLib/BaseLibHost/SafeString.c:3631-3692 | Each byte is its two digits; a bad run, an odd or too great length leave the buffer as it was, with the status of each case |
| `GuidText.AsciiStrToGuid` | HostLib/BaseLibHost/SafeString.c:3513-3586 | Success exactly for texts that start with the 36 characters of a GUID, and then each field is the number of its digits |
| `GuidText.PrintHexField` | HostLib/PrintLibHost/PrintLibInternal.c:832-960 | A value printed with leading zeros to a width |
| `GuidText.PrintGuid` | HostLib/PrintLibHost/PrintLibInternal.c:1000-1033 | The 36 characters of the GUID and a NUL lie in the buffer |
| `GuidText.PrintedGuidReads` | HostLib/BaseLibHost/SafeString.c:3513-3586 | Parsing the printed text of any GUID gives that GUID |
| `GuidText.GuidReadsInAnyCase` | HostLib/BaseLibHost/SafeString.c:3513-3586 | So does parsing it in lower or mixed case |
| `GuidText.DigitsByPlace` | HostLib/BaseLibHost/SafeString.c:3513-3586 | Which digit of a text counts for how much in which field, digit by digit |
| `GuidText.ReadGuidPrints` | HostLib/PrintLibHost/PrintLibInternal.c:1000-1033 | Printing a parsed GUID gives its text back in upper case |
| `HobArena.HobList.constructor` | HostLib/HobLibHost/HobLibHost.c:118-142 | A list of the one handoff HOB, of type 1, length 56 and version 9, and the end marker behind it, byte by byte; everything else is zero |
| `HobArena.HobList.CreateHob` | HostLib/HobLibHost/HobLibHost.c:362-402 | A zeroed HOB stands behind the others, its type and length with their low bytes first, the end marker behind it, and the walk over the arena finds it last, exactly when it and an end marker fit in 64 KB; else no byte changes |
| `HobArena.WalkFromStart` | HostLib/HobLibHost/HobLibHost.c:196-216 | Walking by the lengths in the headers, from the start to the end marker, gives exactly the HOBs that were created, in order |
| `HobArena.HobList.BuildGuidHob` | HostLib/HobLibHost/HobLibHost.c:552-572 | A HOB of type 4 with that name and zeroed room, byte by byte, whose data position is returned |
| `HobArena.HobList.BuildGuidDataHob` | HostLib/HobLibHost/HobLibHost.c:599-615 | A HOB of type 4 with that name and exactly those bytes |
| `HobArena.HobList.GetNextHob` | HostLib/HobLibHost/HobLibHost.c:196-216 | The first HOB of the type from the given one on, or none exactly when there is none; the walk ends |
| `HobArena.HobList.GetNextGuidHob` | HostLib/HobLibHost/HobLibHost.c:265-282 | The first GUID HOB of that name from the given one on, or none exactly when there is none |
| `HobArena.MatchesByBytes` | HostLib/HobLibHost/HobLibHost.c:196-282 | A search matches a HOB exactly when the two bytes of its type, low byte first, and for a name all sixteen bytes behind the header are those looked for |
| `HobArena.DataIsFound` | HostLib/HobLibHost/HobLibHost.c:265-282 | A search from the start for a new name succeeds and stops at the payload stored under it, its bytes unchanged, whatever HOBs follow |
| `FuzzPool.FuzzContext.constructor` | HostLib/FuzzContextLib/FuzzContextLib.c:47-68 | A pool with all of its bytes left |
| `FuzzPool.FuzzContext.Remaining` | HostLib/FuzzContextLib/FuzzContextLib.c:98-125 | Exactly the counts up to the result can be drawn; it is the distance from the offset to the size or to the limit, and 0 when either is reached or the pool is exhausted |
| `FuzzPool.FuzzContext.Consume` | HostLib/FuzzContextLib/FuzzContextLib.c:127-181 | Bytes are handed out from the offset on, which moves behind them, exactly when the pool is not exhausted and the draw starts and ends inside the size and inside the limit, if there is one; else the pool is marked exhausted |
| `FuzzPool.FuzzContext.SetLimit` | HostLib/FuzzContextLib/FuzzContextLib.c:343-358 | Only the limit changes |
| `FuzzPool.FuzzContext.ClearLimit` | HostLib/FuzzContextLib/FuzzContextLib.c:365-387 | The limit goes and the offset stays, and all bytes that are left can be drawn again |
| `FuzzPool.FuzzContext.AdvanceTo` | HostLib/FuzzContextLib/FuzzContextLib.c:398-437 | To the target when it lies ahead inside the pool; otherwise forward only, and never past the end |
| `FuzzPool.FuzzContext.CreateSubContext` | HostLib/FuzzContextLib/FuzzContextLib.c:455-502 | The sub-pool has exactly the bytes drawn from its parent, or none |
| `FuzzPool.DrawSplits` | HostLib/FuzzContextLib/FuzzContextLib.c:127-181 | The bytes handed out were left, are left no more, and end inside the size and the limit of their pool |
| `FuzzPool.Perform` | HostLib/FuzzContextLib/FuzzContextLib.c:127-502 | Each event carried out on the contexts themselves leaves them, and what has been handed out, as the step of such a run says |
| `FuzzPool.NoByteTwice` | HostLib/FuzzContextLib/FuzzContextLib.c:455-502 | However a pool is divided into a tree of sub-pools, limited and drawn from between two resets, no byte is handed out twice, left in two pools, outside the pool, or at or behind the limit, if any, that its source had when it was drawn |
| `FuzzPool.OffsetsOnlyGrow` | HostLib/FuzzContextLib/FuzzContextLib.c:398-437 | In every such run each offset only grows and stays within the size |
| `FuzzPool.Registry.SetProtocolContext` | HostLib/FuzzContextLib/FuzzContextLib.c:558-606 | The table is a finite map with distinct keys: the entry is set, or removed for NULL, or refused exactly when the table is full and the key is new |
| `FuzzPool.Registry.GetProtocolContext` | HostLib/FuzzContextLib/FuzzContextLib.c:615-634 | The value of the key, or NULL exactly when it is absent |
| `FuzzPool.Registry.ClearProtocolContext` | HostLib/FuzzContextLib/FuzzContextLib.c:644-680 | Exactly that key goes, though the last entry moves into its slot |
| `FuzzPool.Registry.ClearAllProtocolContexts` | HostLib/FuzzContextLib/FuzzContextLib.c:688-703 | The empty map |

## Left out

Weaker than the sources, or with a precondition of the callers:

- GcdMap.Map.ConvertSpace: requires that a range whose last address wraps around 2^64 is not found in one record; `CutsKeepTilingUnlessWrapped` shows that the list would be broken exactly for those.
- GcdServices.Services.ConvertSpace: the same.
- GcdServices.Services.InternalAddMemorySpace: the same.
- GcdMap.Map.FindBottomUp: requires a length of at most 2^63, beyond which the sums of the search wrap.
- GcdMap.Map.AllocateSpace: both of these, the first for allocations at an address.
- GcdServices.Services.AllocateSpace: the same.
- GcdServices.Services.AddMemorySpace: for system memory, ranges that end below the first page boundary at or above their base are outside the precondition, since the code then computes a negative length in 64 bits.
- GcdLaws.DisjointCallsCommute: both orders are given the same answers of the memory pool; `DisjointCallsShareThePool` says when a shared pool gives the same results.
- PpiDatabase.Database.InstallPpi: scripts of callbacks do not contain PeiReInstallPpi, since the walk reads slots live and a replaced slot has another identity; the call itself is modelled from outside.
- PpiDatabase.Database.Fire: the same.
- PpiDatabase.Database.NotifyPpi: the same.
- NumberPrinting.ConvertValueToStringS: the least INT64 in decimal is outside the precondition, since the C negation overflows.
- NumberText.ReadNumber: texts that begin with an x are outside the hexadecimal precondition, since the code reads the character in front of the string.
- Ipv6Grammar.TextIsAccepted: the text and what follows are at most RSIZE_MAX characters, the limit of the number reader that the parser calls.
- HobArena.HobList.CreateHob: requires a length of at least the header, and no end-of-list type, as all callers in the library pass.
- HobArena.HobList.constructor: the end pointer in the first HOB is a field of its own; its eight bytes in the arena stay zero.
- GuidText.PrintGuid: the buffer is the 38 characters that the format path declares; a NULL GUID, printed as a fixed text, is not modelled.

Not modelled:

- Two branches of one loop as two methods: the search loop of CoreAllocateSpace tests the direction in each turn; the model has one method for each direction.
- The rewriting loops of CoreConvertSpace and CoreAllocateSpace are one method, with setting the owner as an operation.
- The list of dispatch notifies of HostLib/PeiServicesTablePointerLibHost/PeiMain.h and the callback list, which has no dispatch mark, share one class.
- A NULL pointer is an empty sequence or an empty slot where the code tests for it in the core; elsewhere such tests are left out.
- gCpu is NULL on the host (HostLib/DxeServicesTableLibHost/DxeServicesTableLibHost.c:95), so the call of the CPU protocol is left out and only the refusal is modelled.
- The assertion that a growing PPI list gets its memory: memory for these lists is always there.
- Locks, task priorities, debug and dump output, HOB-driven initialisation of the GCD maps: no effect on the properties stated.
- The format engine as a whole (BasePrintLibSPrintMarker): varargs and mixed encodings; only its `%0Nx` and `%g` paths are modelled.
- StrToIpv4Address, StrToGuid and the other wide or narrow twins of the modelled functions: the same code, or a grammar that accepts a repeated "/P".
- Reset, Peek, AdvanceTime and the typed reads of the fuzz pool, and the registry of reset functions: thin layers over what is modelled.
- The other HOB builders: they fill fixed fields of a HOB that CreateHob made.
- PrintLib.h, which sets MAXIMUM_VALUE_CHARACTERS to 38, is not part of this model; the constant is.
