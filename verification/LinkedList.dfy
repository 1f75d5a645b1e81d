/** Circular doubly linked lists: HostLib/BaseLibHost/LinkedList.c.

    A list is a ring of nodes; the list head is a node like any other.  A ring is
    described by the sequence of its nodes, read along the forward links from any
    node, so that two sequences that differ by a rotation describe the same ring.
    Every operation takes that sequence as a ghost argument. */
module LinkedList {

  /** One LIST_ENTRY together with the record it is embedded in. */
  class Node<T> {
    var forwardLink: Node?<T>
    var backLink: Node?<T>
    var data: T

    constructor (data: T)
      ensures forwardLink == null && backLink == null && this.data == data
    {
      this.data := data;
      forwardLink, backLink := null, null;
    }
  }

  function Next(i: nat, n: nat): nat {
    if i + 1 < n then i + 1 else 0
  }

  function Previous(i: nat, n: nat): int {
    if i == 0 then n - 1 else i - 1
  }

  /** Node i of ring and the node after it point at each other. */
  ghost predicate Joined<T>(ring: seq<Node<T>>, i: nat)
    requires i < |ring|
    reads ring`forwardLink, ring`backLink
  {
    ring[i].forwardLink == ring[Next(i, |ring|)] && ring[Next(i, |ring|)].backLink == ring[i]
  }

  /** The nodes of ring are distinct, and their forward and backward links are those of ring. */
  ghost predicate IsRing<T>(ring: seq<Node<T>>)
    reads ring`forwardLink, ring`backLink
  {
    && |ring| > 0
    && (forall i, j :: 0 <= i < j < |ring| ==> ring[i] != ring[j])
    && (forall i {:trigger Joined(ring, i)} :: 0 <= i < |ring| ==> Joined(ring, i))
  }

  /** t is s with x put in at position k. */
  ghost predicate IsInserted<T>(s: seq<T>, k: nat, x: T, t: seq<T>)
    requires k <= |s|
  {
    && |t| == |s| + 1
    && (forall i :: 0 <= i < k ==> t[i] == s[i])
    && t[k] == x
    && (forall i :: k < i < |t| ==> t[i] == s[i - 1])
  }

  /** t is s without the element at position k. */
  ghost predicate IsRemoved<T>(s: seq<T>, k: nat, t: seq<T>)
    requires k < |s|
  {
    && |t| == |s| - 1
    && (forall i :: 0 <= i < k ==> t[i] == s[i])
    && (forall i :: k <= i < |t| ==> t[i] == s[i + 1])
  }

  /** t is s read from position k on, and then from the start. */
  ghost predicate IsRotated<T>(s: seq<T>, k: nat, t: seq<T>)
    requires k <= |s|
  {
    && |t| == |s|
    && (forall i :: 0 <= i < |s| - k ==> t[i] == s[i + k])
    && (forall i :: |s| - k <= i < |s| ==> t[i] == s[i + k - |s|])
  }

  lemma Inserting<T>(s: seq<T>, k: nat, x: T) returns (t: seq<T>)
    requires k <= |s|
    ensures IsInserted(s, k, x, t)
  {
    t := s[..k] + [x] + s[k..];
  }

  lemma Removing<T>(s: seq<T>, k: nat) returns (t: seq<T>)
    requires k < |s|
    ensures IsRemoved(s, k, t)
  {
    t := s[..k] + s[k + 1..];
  }

  lemma NeighboursOf<T>(ring: seq<Node<T>>, k: nat)
    requires IsRing(ring) && k < |ring|
    ensures ring[k].forwardLink == ring[Next(k, |ring|)]
    ensures ring[k].backLink == ring[Previous(k, |ring|)]
  {
    assert Joined(ring, k) && Joined(ring, Previous(k, |ring|));
  }

  /** The forward and the backward links of a ring are inverse to each other. */
  lemma LinksAreInverse<T>(ring: seq<Node<T>>, x: Node<T>)
    requires IsRing(ring) && x in ring
    ensures x.forwardLink != null && x.forwardLink in ring && x.forwardLink.backLink == x
    ensures x.backLink != null && x.backLink in ring && x.backLink.forwardLink == x
  {
    var i :| 0 <= i < |ring| && ring[i] == x;
    NeighboursOf(ring, i);
    NeighboursOf(ring, Next(i, |ring|));
    NeighboursOf(ring, Previous(i, |ring|));
  }

  /** A ring may be read from any of its nodes. */
  lemma RotationIsRing<T>(ring: seq<Node<T>>, k: nat, rotated: seq<Node<T>>)
    requires IsRing(ring) && k <= |ring| && IsRotated(ring, k, rotated)
    ensures IsRing(rotated)
  {
    var n := |ring|;
    forall i | 0 <= i < n
      ensures Joined(rotated, i)
    {
      assert Joined(ring, if i < n - k then i + k else i + k - n);
    }
  }

  ghost function Following<T>(ring: seq<Node<T>>, k: nat): Node<T>
    requires k < |ring|
  {
    ring[Next(k, |ring|)]
  }

  ghost function Preceding<T>(ring: seq<Node<T>>, k: nat): Node<T>
    requires k < |ring|
  {
    ring[Previous(k, |ring|)]
  }

  method InitializeListHead<T>(listHead: Node<T>) returns (r: Node<T>)
    modifies listHead`forwardLink, listHead`backLink
    ensures r == listHead && IsRing([listHead])
  {
    listHead.forwardLink := listHead;
    listHead.backLink := listHead;
    return listHead;
  }

  /** Puts entry right after listHead, which may be any node of the ring. */
  method InsertHeadList<T>(listHead: Node<T>, entry: Node<T>, ghost ring: seq<Node<T>>, ghost k: nat)
    returns (r: Node<T>, ghost after: seq<Node<T>>)
    requires IsRing(ring) && k < |ring| && ring[k] == listHead && entry !in ring
    modifies listHead`forwardLink, Following(ring, k)`backLink, entry`forwardLink, entry`backLink
    ensures r == listHead && IsInserted(ring, k + 1, entry, after) && IsRing(after)
  {
    NeighboursOf(ring, k);
    entry.forwardLink := listHead.forwardLink;
    entry.backLink := listHead;
    entry.forwardLink.backLink := entry;
    listHead.forwardLink := entry;
    after := Inserting(ring, k + 1, entry);
    forall i | 0 <= i < |after|
      ensures Joined(after, i)
    {
      if i < k {
        assert old(Joined(ring, i));
      } else if i > k + 1 {
        assert old(Joined(ring, i - 1));
      }
    }
    r := listHead;
  }

  /** Puts entry right before listHead, which may be any node of the ring. */
  method InsertTailList<T>(listHead: Node<T>, entry: Node<T>, ghost ring: seq<Node<T>>, ghost k: nat)
    returns (r: Node<T>, ghost after: seq<Node<T>>)
    requires IsRing(ring) && k < |ring| && ring[k] == listHead && entry !in ring
    modifies listHead`backLink, Preceding(ring, k)`forwardLink, entry`forwardLink, entry`backLink
    ensures r == listHead && IsInserted(ring, if k == 0 then |ring| else k, entry, after) && IsRing(after)
  {
    NeighboursOf(ring, k);
    entry.forwardLink := listHead;
    entry.backLink := listHead.backLink;
    entry.backLink.forwardLink := entry;
    listHead.backLink := entry;
    ghost var p := Previous(k, |ring|);
    after := Inserting(ring, p + 1, entry);
    forall i | 0 <= i < |after|
      ensures Joined(after, i)
    {
      if i < p {
        assert old(Joined(ring, i));
      } else if i > p + 1 {
        assert old(Joined(ring, i - 1));
      }
    }
    r := listHead;
  }

  /** Unlinks entry and returns the node that followed it. */
  method RemoveEntryList<T>(entry: Node<T>, ghost ring: seq<Node<T>>, ghost k: nat)
    returns (r: Node<T>, ghost after: seq<Node<T>>)
    requires IsRing(ring) && |ring| >= 2 && k < |ring| && ring[k] == entry
    modifies Following(ring, k)`backLink, Preceding(ring, k)`forwardLink
    ensures r == ring[Next(k, |ring|)] && IsRemoved(ring, k, after) && IsRing(after)
  {
    NeighboursOf(ring, k);
    entry.forwardLink.backLink := entry.backLink;
    entry.backLink.forwardLink := entry.forwardLink;
    after := Removing(ring, k);
    forall i | 0 <= i < |after|
      ensures Joined(after, i)
    {
      assert old(Joined(ring, i)) && old(Joined(ring, i + 1)) && old(Joined(ring, |ring| - 1));
    }
    r := entry.forwardLink;
  }

  /** Whether secondEntry is on the ring of firstEntry. */
  method IsNodeInList<T>(firstEntry: Node<T>, secondEntry: Node<T>, ghost ring: seq<Node<T>>)
    returns (found: bool)
    requires IsRing(ring) && ring[0] == firstEntry
    ensures found <==> secondEntry in ring
  {
    NeighboursOf(ring, 0);
    var ptr := firstEntry.forwardLink;
    ghost var k := Next(0, |ring|);
    if ptr == secondEntry {
      return true;
    }
    while ptr != firstEntry
      invariant 0 <= k < |ring| && ptr == ring[k]
      invariant forall i :: 1 <= i <= k ==> ring[i] != secondEntry
      invariant k == 0 ==> secondEntry !in ring
      decreases if k == 0 then 0 else |ring| - k
    {
      NeighboursOf(ring, k);
      ptr := ptr.forwardLink;
      k := Next(k, |ring|);
      if ptr == secondEntry {
        return true;
      }
    }
    return false;
  }

  // ----- swapping -----

  /** t is s with the elements at positions i and j transposed. */
  ghost predicate IsSwapped<T>(s: seq<T>, i: nat, j: nat, t: seq<T>)
    requires i < |s| && j < |s|
  {
    && |t| == |s|
    && t[i] == s[j] && t[j] == s[i]
    && (forall k :: 0 <= k < |s| && k != i && k != j ==> t[k] == s[k])
  }

  lemma Swapping<T>(s: seq<T>, i: nat, j: nat) returns (t: seq<T>)
    requires i < |s| && j < |s|
    ensures IsSwapped(s, i, j, t)
  {
    t := s[i := s[j]][j := s[i]];
  }

  /** Where position k goes when position i is taken out. */
  ghost function Shifted(i: nat, k: nat): nat
    requires i != k
  {
    if k < i then k else k - 1
  }

  /** Taking s[i] out and putting it right before s[j], when i follows j. */
  lemma SwapWhenFollowing<T>(s: seq<T>, i: nat, j: nat, without: seq<T>, moved: seq<T>, swapped: seq<T>)
    requires i < |s| && j < |s| && i != j && j == Previous(i, |s|) && IsSwapped(s, i, j, swapped)
    requires IsRemoved(s, i, without)
    requires IsInserted(without, if Shifted(i, j) == 0 then |s| - 1 else Shifted(i, j), s[i], moved)
    ensures IsRotated(moved, if j == 0 || (i == 0 && |s| > 2) then |s| - 1 else 0, swapped)
  {
  }

  /** Taking s[i] out and putting it right after s[j], when i precedes j. */
  lemma SwapWhenPreceding<T>(s: seq<T>, i: nat, j: nat, without: seq<T>, moved: seq<T>, swapped: seq<T>)
    requires i < |s| && j < |s| && i != j && j == Next(i, |s|) && IsSwapped(s, i, j, swapped)
    requires IsRemoved(s, i, without) && IsInserted(without, Shifted(i, j) + 1, s[i], moved)
    ensures IsRotated(moved, if j == 0 then 1 else 0, swapped)
  {
  }

  /** Putting s[i] right after s[j] and then s[j] where s[i] was, when they are not adjacent. */
  lemma SwapWhenApart<T>(s: seq<T>, i: nat, j: nat, without: seq<T>, both: seq<T>, replaced: seq<T>, moved: seq<T>,
                         swapped: seq<T>)
    requires i < |s| && j < |s| && i != j && j != Next(i, |s|) && IsSwapped(s, i, j, swapped)
    requires IsRemoved(s, i, without) && IsInserted(without, Shifted(i, j) + 1, s[i], both)
    requires IsRemoved(both, Shifted(i, j), replaced)
    requires IsInserted(replaced, if i == |s| - 1 || i == 0 then |s| - 1 else i, s[j], moved)
    ensures IsRotated(moved, if i == 0 then |s| - 1 else 0, swapped)
  {
  }

  /** Where the node after s[i] is on the way. */
  lemma SuccessorAfterwards<T>(s: seq<T>, i: nat, j: nat, without: seq<T>, both: seq<T>, replaced: seq<T>)
    requires i < |s| && j < |s| && i != j && j != Next(i, |s|)
    requires IsRemoved(s, i, without) && IsInserted(without, Shifted(i, j) + 1, s[i], both)
    requires IsRemoved(both, Shifted(i, j), replaced)
    ensures replaced[if i == |s| - 1 then 0 else i] == s[Next(i, |s|)]
  {
  }

  /** The rest of the swap once firstEntry is out of the ring and did not follow secondEntry. */
  method SwapWithLater<T>(firstEntry: Node<T>, secondEntry: Node<T>, ptr: Node<T>,
                          ghost ring: seq<Node<T>>, ghost without: seq<Node<T>>, ghost i: nat, ghost j: nat,
                              ghost swapped: seq<Node<T>>)
    returns (r: Node<T>)
    requires i < |ring| && j < |ring| && i != j && ring[i] == firstEntry && ring[j] == secondEntry
    requires ptr == ring[Next(i, |ring|)] && IsRemoved(ring, i, without) && IsRing(without) && firstEntry !in without
    requires IsSwapped(ring, i, j, swapped)
    modifies ring`forwardLink, ring`backLink
    ensures r == secondEntry && IsRing(swapped)
  {
    ghost var n, k := |ring|, Shifted(i, j);
    ghost var both, replaced, moved;
    assert without[k] == secondEntry && without[Shifted(i, Next(i, n))] == ptr;
    r, both := InsertHeadList(secondEntry, firstEntry, without, k);
    if ptr == r {
      // secondEntry came right after firstEntry
      SwapWhenPreceding(ring, i, j, without, both, swapped);
      RotationIsRing(both, if j == 0 then 1 else 0, swapped);
      return ptr;
    }
    // secondEntry goes in front of the node that came after firstEntry
    var next;
    next, replaced := RemoveEntryList(secondEntry, both, k);
    ghost var p := if i == n - 1 then 0 else i;
    SuccessorAfterwards(ring, i, j, without, both, replaced);
    next, moved := InsertTailList(ptr, secondEntry, replaced, p);
    SwapWhenApart(ring, i, j, without, both, replaced, moved, swapped);
    RotationIsRing(moved, if i == 0 then n - 1 else 0, swapped);
    return secondEntry;
  }

  /** Transposes two nodes of one ring, in whichever of the four ways they lie to each other. */
  method SwapListEntries<T>(firstEntry: Node<T>, secondEntry: Node<T>, ghost ring: seq<Node<T>>, ghost i: nat,
                            ghost j: nat)
    returns (r: Node<T>, ghost swapped: seq<Node<T>>)
    requires IsRing(ring) && i < |ring| && j < |ring| && ring[i] == firstEntry && ring[j] == secondEntry
    modifies ring`forwardLink, ring`backLink
    ensures r == secondEntry && IsSwapped(ring, i, j, swapped) && IsRing(swapped)
  {
    swapped := Swapping(ring, i, j);
    if firstEntry == secondEntry {
      assert swapped == ring;
      return secondEntry, swapped;
    }
    ghost var n, k := |ring|, Shifted(i, j);
    ghost var without, moved;
    NeighboursOf(ring, i);
    var ptr;
    ptr, without := RemoveEntryList(firstEntry, ring, i);
    NeighboursOf(without, if i == n - 1 then 0 else i);
    if ptr.backLink == secondEntry {
      // secondEntry came right before firstEntry
      r, moved := InsertTailList(secondEntry, firstEntry, without, k);
      SwapWhenFollowing(ring, i, j, without, moved, swapped);
      RotationIsRing(moved, if j == 0 || (i == 0 && n > 2) then n - 1 else 0, swapped);
    } else {
      r := SwapWithLater(firstEntry, secondEntry, ptr, ring, without, i, j, swapped);
    }
  }
}
