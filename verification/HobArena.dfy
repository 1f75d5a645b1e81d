/** The HOB list in its 64 KB arena: HostLib/HobLibHost/HobLibHost.c.

    Positions are offsets from the start of the arena.  The end pointer that the first HOB holds is the field
    `endOfHobList`; its eight bytes in the arena stay zero. */
module HobArena {

  type Byte = b: int | 0 <= b < 0x100

  /** The bytes of one HOB, header included. */
  type Hob = seq<Byte>

  const SIZE_64KB: nat := 0x10000
  const HEADER_SIZE: nat := 8
  const HANDOFF_SIZE: nat := 56
  const GUID_HOB_SIZE: nat := 24

  const EFI_HOB_TYPE_HANDOFF: nat := 0x0001
  const EFI_HOB_TYPE_GUID_EXTENSION: nat := 0x0004
  const EFI_HOB_TYPE_END_OF_HOB_LIST: nat := 0xFFFF
  const EFI_HOB_HANDOFF_TABLE_VERSION: Byte := 9

  // ----- HOBs as bytes -----

  function Word(low: Byte, high: Byte): nat {
    low as int + high as int * 0x100
  }

  function TypeOf(h: Hob): nat
    requires |h| >= HEADER_SIZE
  {
    Word(h[0], h[1])
  }

  function LengthOf(h: Hob): nat
    requires |h| >= HEADER_SIZE
  {
    Word(h[2], h[3])
  }

  function Header(hobType: nat, length: nat): (h: Hob)
    requires hobType < 0x10000 && length < 0x10000
    ensures |h| == HEADER_SIZE && TypeOf(h) == hobType && LengthOf(h) == length
  {
    [hobType % 0x100, hobType / 0x100, length % 0x100, length / 0x100, 0, 0, 0, 0]
  }

  function Zeros(n: nat): (bytes: seq<Byte>)
    ensures |bytes| == n && forall k :: 0 <= k < n ==> bytes[k] == 0
  {
    seq(n, _ => 0)
  }

  /** A HOB says its own length, and does not look like the end of the list. */
  predicate IsHob(h: Hob) {
    && |h| >= HEADER_SIZE && LengthOf(h) == |h| && TypeOf(h) != EFI_HOB_TYPE_END_OF_HOB_LIST
    && (TypeOf(h) == EFI_HOB_TYPE_GUID_EXTENSION ==> |h| >= GUID_HOB_SIZE)
  }

  predicate AreHobs(hobs: seq<Hob>) {
    forall k :: 0 <= k < |hobs| ==> IsHob(hobs[k])
  }

  function Flat(hobs: seq<Hob>): seq<Byte> {
    if hobs == [] then [] else Flat(hobs[..|hobs| - 1]) + hobs[|hobs| - 1]
  }

  /** Where HOB k starts. */
  function Start(hobs: seq<Hob>, k: nat): nat
    requires k <= |hobs|
  {
    |Flat(hobs[..k])|
  }

  lemma FlatNext(hobs: seq<Hob>, h: Hob)
    ensures Flat(hobs + [h]) == Flat(hobs) + h
  {
    assert (hobs + [h])[..|hobs|] == hobs;
  }

  /** The bytes of HOB k in the arena. */
  lemma {:induction false} FlatAt(hobs: seq<Hob>, k: nat)
    requires k < |hobs|
    ensures Start(hobs, k + 1) == Start(hobs, k) + |hobs[k]| <= |Flat(hobs)|
    ensures Flat(hobs)[Start(hobs, k)..Start(hobs, k + 1)] == hobs[k]
    decreases |hobs|
  {
    var n := |hobs| - 1;
    var front := hobs[..n];
    if k < n {
      FlatAt(front, k);
      assert front[..k] == hobs[..k] && front[..k + 1] == hobs[..k + 1];
      assert Flat(hobs)[Start(hobs, k)..Start(hobs, k + 1)] == Flat(front)[Start(hobs, k)..Start(hobs, k + 1)];
    } else {
      assert hobs[..k] == front && hobs[..k + 1] == hobs;
    }
  }

  /** Walking the arena from one header to the next, by the lengths the headers say, up to the end marker. */
  function Walk(bytes: seq<Byte>, at: nat): seq<Hob>
    decreases |bytes| - at
  {
    if at + HEADER_SIZE > |bytes| || TypeOf(bytes[at..]) == EFI_HOB_TYPE_END_OF_HOB_LIST then []
    else
      var length := LengthOf(bytes[at..]);
      if length < HEADER_SIZE || at + length > |bytes| then []
      else [bytes[at..at + length]] + Walk(bytes, at + length)
  }

  /** The arena holds these HOBs one behind the other, then an end marker, then nothing but zeros. */
  ghost predicate Holds(bytes: seq<Byte>, hobs: seq<Hob>) {
    var end := |Flat(hobs)|;
    && AreHobs(hobs) && |bytes| == SIZE_64KB && end + HEADER_SIZE <= SIZE_64KB
    && bytes == Flat(hobs) + Header(EFI_HOB_TYPE_END_OF_HOB_LIST, HEADER_SIZE) + Zeros(SIZE_64KB - end - HEADER_SIZE)
  }

  lemma HeaderAt(bytes: seq<Byte>, hobs: seq<Hob>, k: nat)
    requires Holds(bytes, hobs) && k <= |hobs|
    ensures var at := Start(hobs, k);
            && at + HEADER_SIZE <= |bytes|
            && if k == |hobs| then TypeOf(bytes[at..]) == EFI_HOB_TYPE_END_OF_HOB_LIST && at == |Flat(hobs)|
               else
                 && at + |hobs[k]| == Start(hobs, k + 1) <= |bytes| && bytes[at..at + |hobs[k]|] == hobs[k]
                 && TypeOf(bytes[at..]) == TypeOf(hobs[k]) && LengthOf(bytes[at..]) == |hobs[k]|
  {
    hide Zeros, Flat;
    var at := Start(hobs, k);
    var mark := Header(EFI_HOB_TYPE_END_OF_HOB_LIST, HEADER_SIZE);
    var zeros := Zeros(SIZE_64KB - |Flat(hobs)| - HEADER_SIZE);
    if k == |hobs| {
      assert hobs[..k] == hobs;
      MiddlePart(Flat(hobs), mark, zeros);
      SameHeader(bytes[at..], mark);
    } else {
      FlatAt(hobs, k);
      FrontPart(Flat(hobs), mark, zeros, at, at + |hobs[k]|);
      SameHeader(bytes[at..], hobs[k]);
    }
  }

  lemma MiddlePart(front: seq<Byte>, middle: seq<Byte>, back: seq<Byte>)
    ensures (front + middle + back)[|front|..][..|middle|] == middle
  {
  }

  lemma FrontPart(front: seq<Byte>, middle: seq<Byte>, back: seq<Byte>, i: nat, j: nat)
    requires i <= j <= |front|
    ensures (front + middle + back)[i..j] == front[i..j] == (front + middle + back)[i..][..j - i]
  {
  }

  lemma SameHeader(x: seq<Byte>, h: Hob)
    requires HEADER_SIZE <= |h| <= |x| && x[..|h|] == h
    ensures TypeOf(x) == TypeOf(h) && LengthOf(x) == LengthOf(h)
  {
    assert x[0] == h[0] && x[1] == h[1] && x[2] == h[2] && x[3] == h[3];
  }

  /** The walk gives exactly the HOBs that were created, in order, and ends at the end marker. */
  lemma {:induction false} WalkFindsHobs(bytes: seq<Byte>, hobs: seq<Hob>, k: nat)
    requires Holds(bytes, hobs) && k <= |hobs|
    ensures Walk(bytes, Start(hobs, k)) == hobs[k..]
    decreases |hobs| - k
  {
    hide Holds, TypeOf, LengthOf, Start;
    HeaderAt(bytes, hobs, k);
    if k < |hobs| {
      HobAt(bytes, hobs, k);
      WalkFindsHobs(bytes, hobs, k + 1);
      assert hobs[k..] == [hobs[k]] + hobs[k + 1..];
    }
  }

  lemma HobAt(bytes: seq<Byte>, hobs: seq<Hob>, k: nat)
    requires Holds(bytes, hobs) && k < |hobs|
    ensures IsHob(hobs[k])
  {
  }

  lemma WalkFromStart(bytes: seq<Byte>, hobs: seq<Hob>)
    requires Holds(bytes, hobs)
    ensures Walk(bytes, 0) == hobs
  {
    assert hobs[..0] == [];
    WalkFindsHobs(bytes, hobs, 0);
    assert hobs[0..] == hobs;
  }

  // ----- the list -----

  ghost predicate LiesAt(bytes: seq<Byte>, at: nat, h: Hob) {
    at + |h| <= |bytes| && bytes[at..at + |h|] == h
  }

  /** The first of the HOBs from k on with a property the search looks for. */
  ghost predicate IsNext(hobs: seq<Hob>, k: nat, hobType: nat, guid: seq<Byte>, j: nat) {
    && k <= j < |hobs| && Matches(hobs[j], hobType, guid)
    && forall i :: k <= i < j ==> !Matches(hobs[i], hobType, guid)
  }

  ghost predicate NoneFrom(hobs: seq<Hob>, k: nat, hobType: nat, guid: seq<Byte>) {
    forall i :: k <= i < |hobs| ==> !Matches(hobs[i], hobType, guid)
  }

  /** The type is the one looked for, and so is the GUID name, unless any name will do. */
  predicate Matches(h: Hob, hobType: nat, guid: seq<Byte>) {
    |h| >= HEADER_SIZE && TypeOf(h) == hobType
        && (guid == [] || (|h| >= GUID_HOB_SIZE && h[HEADER_SIZE..GUID_HOB_SIZE] == guid))
  }

  /** What a search matches, by bytes: the type in the first two, low byte first, and the name in the 16 behind the
      header. */
  lemma MatchesByBytes(h: Hob, hobType: nat, guid: seq<Byte>)
    requires guid == [] || |guid| == 16
    ensures Matches(h, hobType, guid) <==>
            && |h| >= 8 && h[0] as int + 0x100 * h[1] as int == hobType
            && (|guid| == 16 ==> |h| >= 24 && forall k :: 0 <= k < 16 ==> h[8 + k] == guid[k])
  {
    if |guid| == 16 && |h| >= 24 {
      assert h[HEADER_SIZE..GUID_HOB_SIZE] == guid <==> forall k :: 0 <= k < 16 ==> h[8 + k] == guid[k] by {
        forall k | 0 <= k < 16 ensures h[8 + k] == h[HEADER_SIZE..GUID_HOB_SIZE][k] {
        }
      }
    }
  }

  /** The PHIT HOB: its header, its version, and a boot mode that is 0. */
  function HandoffHob(): Hob {
    Header(EFI_HOB_TYPE_HANDOFF, HANDOFF_SIZE) + [EFI_HOB_HANDOFF_TABLE_VERSION] + Zeros(HANDOFF_SIZE - HEADER_SIZE - 1)
  }

  lemma ZerosSplit(m: nat, n: nat)
    ensures Zeros(m + n) == Zeros(m) + Zeros(n)
  {
  }

  /** A header has been written over zeros. */
  lemma OverZeros(front: seq<Byte>, head: seq<Byte>, rest: nat, bytes: seq<Byte>)
    requires var was := front + Zeros(|head| + rest); bytes == was[..|front|] + head + was[|front| + |head|..]
    ensures bytes == front + head + Zeros(rest)
  {
    hide Zeros;
    ZerosSplit(|head|, rest);
    assert front + Zeros(|head| + rest) == front + Zeros(|head|) + Zeros(rest);
  }

  /** The handoff HOB and the end marker have been written over a blank arena. */
  lemma HandoffWritten(blank: seq<Byte>, headed: seq<Byte>, bytes: seq<Byte>)
    requires blank == Zeros(SIZE_64KB)
    requires headed == blank[..0] + Header(EFI_HOB_TYPE_HANDOFF, HANDOFF_SIZE) + blank[HEADER_SIZE..]
    requires var versioned := headed[HEADER_SIZE := EFI_HOB_HANDOFF_TABLE_VERSION];
             bytes == versioned[..HANDOFF_SIZE] + Header(EFI_HOB_TYPE_END_OF_HOB_LIST, HEADER_SIZE)
                      + versioned[HANDOFF_SIZE + HEADER_SIZE..]
    ensures Holds(bytes, [HandoffHob()]) && |Flat([HandoffHob()])| == HANDOFF_SIZE
  {
    hide Header, Zeros, TypeOf, LengthOf;
    var head, rest := Header(EFI_HOB_TYPE_HANDOFF, HANDOFF_SIZE), HANDOFF_SIZE - HEADER_SIZE - 1;
    var beyond := SIZE_64KB - HANDOFF_SIZE;
    assert blank == [] + Zeros(HEADER_SIZE + (1 + rest + beyond));
    OverZeros([], head, 1 + rest + beyond, headed);
    assert headed == head + Zeros(1 + rest + beyond);
    VersionOverZeros(head, rest + beyond);
    var versioned := headed[HEADER_SIZE := EFI_HOB_HANDOFF_TABLE_VERSION];
    ZerosSplit(rest, beyond);
    assert versioned == HandoffHob() + Zeros(beyond);
    OverZeros(HandoffHob(), Header(EFI_HOB_TYPE_END_OF_HOB_LIST, HEADER_SIZE), beyond - HEADER_SIZE, bytes);
    FlatNext([], HandoffHob());
    assert [] + [HandoffHob()] == [HandoffHob()] && [] + HandoffHob() == HandoffHob();
    SameHeader(HandoffHob(), head);
  }

  lemma VersionOverZeros(head: seq<Byte>, rest: nat)
    ensures (head + Zeros(1 + rest))[|head| := EFI_HOB_HANDOFF_TABLE_VERSION]
            == head + [EFI_HOB_HANDOFF_TABLE_VERSION] + Zeros(rest)
  {
  }

  // ----- the bytes of a list, one by one -----

  /** The end marker: type 0xFFFF, length 8. */
  ghost predicate MarkAt(bytes: seq<Byte>, at: nat) {
    at + 8 <= |bytes| && bytes[at..at + 8] == [0xFF, 0xFF, 8, 0, 0, 0, 0, 0]
  }

  /** A HOB without content and the end marker behind it: type and length with their low bytes first, then zeros. */
  ghost predicate BlankHobAt(bytes: seq<Byte>, at: nat, hobType: nat, length: nat) {
    && 8 <= length && MarkAt(bytes, at + length)
    && bytes[at] as int + bytes[at + 1] as int * 0x100 == hobType
    && bytes[at + 2] as int + bytes[at + 3] as int * 0x100 == length
    && (forall k :: at + 4 <= k < at + length ==> bytes[k] == 0)
  }

  /** A HOB of type 4 with this name and content, and the end marker behind it. */
  ghost predicate NamedHobAt(bytes: seq<Byte>, at: nat, guid: seq<Byte>, data: seq<Byte>) {
    var length := 24 + |data|;
    && MarkAt(bytes, at + length) && length < 0x10000
    && bytes[at..at + length] == [4, 0, length % 0x100, length / 0x100, 0, 0, 0, 0] + guid + data
  }

  lemma LastHobLies(bytes: seq<Byte>, hobs: seq<Hob>, h: Hob)
    requires Holds(bytes, hobs + [h])
    ensures LiesAt(bytes, |Flat(hobs)|, h) && MarkAt(bytes, |Flat(hobs)| + |h|)
  {
    hide IsHob, Flat, Zeros;
    FlatNext(hobs, h);
    var mark := Header(EFI_HOB_TYPE_END_OF_HOB_LIST, HEADER_SIZE);
    Lies(Flat(hobs), h, mark, Zeros(SIZE_64KB - |Flat(hobs)| - |h| - HEADER_SIZE));
  }

  lemma Lies(front: seq<Byte>, h: seq<Byte>, mark: seq<Byte>, rest: seq<Byte>)
    ensures var bytes, at := front + h + mark + rest, |front|;
            bytes[at..at + |h|] == h && bytes[at + |h|..at + |h| + |mark|] == mark
  {
  }

  lemma BlankHobLies(bytes: seq<Byte>, hobs: seq<Hob>, hobType: nat, length: nat)
    requires 8 <= length < 0x10000 && hobType < 0x10000
    requires Holds(bytes, hobs + [Header(hobType, length) + Zeros(length - 8)])
    ensures BlankHobAt(bytes, |Flat(hobs)|, hobType, length)
  {
    hide Holds, Flat;
    var h, at := Header(hobType, length) + Zeros(length - 8), |Flat(hobs)|;
    LastHobLies(bytes, hobs, h);
    forall k | 0 <= k < length ensures bytes[at + k] == h[k] {
      assert bytes[at..at + length][k] == h[k];
    }
    assert h[0] == hobType % 0x100 && h[1] == hobType / 0x100 && h[2] == length % 0x100 && h[3] == length / 0x100;
    forall k | at + 4 <= k < at + length ensures bytes[k] == 0 {
      assert h[k - at] == 0;
    }
  }

  lemma NamedHobLies(bytes: seq<Byte>, hobs: seq<Hob>, guid: seq<Byte>, data: seq<Byte>)
    requires |guid| == 16 && |data| <= 0xFFF8 - 24 && Holds(bytes, hobs + [GuidHob(guid, data)])
    ensures NamedHobAt(bytes, |Flat(hobs)|, guid, data)
  {
    hide Holds, Flat;
    LastHobLies(bytes, hobs, GuidHob(guid, data));
  }

  /** The bytes of the list that has only the handoff HOB: type 1, length 56, version 9. */
  lemma HandoffLies(bytes: seq<Byte>)
    requires Holds(bytes, [HandoffHob()])
    ensures |bytes| == 0x10000 && bytes[..9] == [1, 0, 56, 0, 0, 0, 0, 0, 9] && MarkAt(bytes, 56)
    ensures forall k :: 9 <= k < 56 || 64 <= k < 0x10000 ==> bytes[k] == 0
  {
    hide IsHob;
    var h := HandoffHob();
    assert [] + [h] == [h] && Flat([]) == [];
    FlatNext([], h);
    LastHobLies(bytes, [], h);
    assert |h| == 56 && bytes[..56] == h;
    assert bytes[..9] == h[..9];
    forall k | 9 <= k < 56 || 64 <= k < 0x10000 ensures bytes[k] == 0 {
      if k < 56 {
        assert bytes[k] == bytes[..56][k] == h[k];
      } else {
        assert bytes[k] == Zeros(SIZE_64KB - 56 - HEADER_SIZE)[k - 64];
      }
    }
  }

  class HobList {
    const arena: array<Byte>
    var endOfHobList: nat
    ghost var hobs: seq<Hob>

    ghost predicate Valid()
      reads this, arena
    {
      Holds(arena[..], hobs) && hobs != [] && endOfHobList == |Flat(hobs)|
    }

    /** InitHobPointer. */
    constructor ()
      ensures Valid() && fresh(arena)
      ensures hobs == [HandoffHob()] && endOfHobList == 56
      ensures arena.Length == 0x10000 && arena[..9] == [1, 0, 56, 0, 0, 0, 0, 0, 9] && MarkAt(arena[..], 56)
      ensures forall k :: 9 <= k < 56 || 64 <= k < 0x10000 ==> arena[k] == 0
    {
      arena := new Byte[SIZE_64KB](_ => 0);
      endOfHobList := HANDOFF_SIZE;
      new;
      hide Holds, Flat, Header, Zeros;
      ghost var blank := arena[..];
      PutHeader(0, EFI_HOB_TYPE_HANDOFF, HANDOFF_SIZE);
      ghost var headed := arena[..];
      arena[HEADER_SIZE] := EFI_HOB_HANDOFF_TABLE_VERSION;
      PutHeader(HANDOFF_SIZE, EFI_HOB_TYPE_END_OF_HOB_LIST, HEADER_SIZE);
      hobs := [HandoffHob()];
      HandoffWritten(blank, headed, arena[..]);
      HandoffLies(arena[..]);
      assert arena[..][..9] == arena[..9];
    }

    method PutHeader(at: nat, hobType: nat, length: nat)
      requires at + HEADER_SIZE <= arena.Length && hobType < 0x10000 && length < 0x10000
      modifies arena
      ensures arena[..] == old(arena[..])[..at] + Header(hobType, length) + old(arena[..])[at + HEADER_SIZE..]
    {
      arena[at], arena[at + 1] := hobType % 0x100, hobType / 0x100;
      arena[at + 2], arena[at + 3] := length % 0x100, length / 0x100;
      forall k | 4 <= k < HEADER_SIZE {
        arena[at + k] := 0;
      }
    }

    /** InternalPeiCreateHob: a zeroed HOB behind the others, and the end marker behind it; or nothing, when
        both do not fit. */
    method CreateHob(hobType: nat, length: nat) returns (created: bool, hob: nat)
      requires Valid() && HEADER_SIZE <= length < 0x10000 && hobType < EFI_HOB_TYPE_END_OF_HOB_LIST
      requires hobType == EFI_HOB_TYPE_GUID_EXTENSION ==> length >= GUID_HOB_SIZE
      modifies this, arena
      ensures Valid()
      ensures created <==> old(endOfHobList) + 8 + length <= 0x10000
      ensures created ==> endOfHobList == hob + length && BlankHobAt(arena[..], hob, hobType, length)
      ensures created ==>
                && hob == old(endOfHobList)
                && hobs == old(hobs) + [Header(hobType, length) + Zeros(length - HEADER_SIZE)]
      ensures created ==>
                Walk(arena[..], 0) == old(Walk(arena[..], 0)) + [Header(hobType, length) + Zeros(length - HEADER_SIZE)]
      ensures !created ==> hobs == old(hobs) && arena[..] == old(arena[..]) && endOfHobList == old(endOfHobList)
    {
      hide Walk, Flat, Header;
      if endOfHobList + HEADER_SIZE + length > SIZE_64KB {
        return false, 0;
      }
      hob := endOfHobList;
      ghost var was := arena[..];
      PutHeader(hob, hobType, length);
      endOfHobList := hob + length;
      PutHeader(endOfHobList, EFI_HOB_TYPE_END_OF_HOB_LIST, HEADER_SIZE);
      ghost var h := Header(hobType, length) + Zeros(length - HEADER_SIZE);
      Appended(was, hobs, hobType, length, arena[..]);
      WalkFromStart(was, hobs);
      CreatedEnd(hobs, hobType, length);
      hobs := hobs + [h];
      WalkFromStart(arena[..], hobs);
      BlankHobLies(arena[..], old(hobs), hobType, length);
      created := true;
    }

    /** CopyMem into the payload of the last HOB. */
    method FillLast(at: nat, data: seq<Byte>)
      requires Valid() && var last := hobs[|hobs| - 1];
               endOfHobList - |last| + HEADER_SIZE <= at && at + |data| <= endOfHobList
      modifies this`hobs, arena
      ensures Valid()
      ensures var n, last := |old(hobs)| - 1, old(hobs)[|old(hobs)| - 1];
              var o := at - (endOfHobList - |last|);
              hobs == old(hobs)[..n] + [last[..o] + data + last[o + |data|..]]
    {
      ghost var was := arena[..];
      forall k | 0 <= k < |data| {
        arena[at + k] := data[k];
      }
      ghost var n, last := |hobs| - 1, hobs[|hobs| - 1];
      ghost var o := at - (endOfHobList - |last|);
      assert arena[..] == was[..at] + data + was[at + |data|..];
      Filled(was, hobs, o, data, arena[..]);
      hobs := hobs[..n] + [last[..o] + data + last[o + |data|..]];
    }

    /** BuildGuidHob: a HOB with the GUID as its name and room for the data. */
    method BuildGuidHob(guid: seq<Byte>, dataLength: nat) returns (created: bool, data: nat)
      requires Valid() && |guid| == 16 && dataLength <= 0xFFF8 - GUID_HOB_SIZE
      modifies this, arena
      ensures Valid()
      ensures created <==> old(endOfHobList) + 8 + 24 + dataLength <= 0x10000
      ensures created ==> NamedHobAt(arena[..], old(endOfHobList), guid, Zeros(dataLength))
      ensures created ==> data == old(endOfHobList) + GUID_HOB_SIZE && data + dataLength == endOfHobList
      ensures created ==> hobs == old(hobs) + [GuidHob(guid, Zeros(dataLength))]
      ensures !created ==> hobs == old(hobs) && arena[..] == old(arena[..]) && endOfHobList == old(endOfHobList)
    {
      hide Holds;
      var hob;
      created, hob := CreateHob(EFI_HOB_TYPE_GUID_EXTENSION, GUID_HOB_SIZE + dataLength);
      if !created {
        return false, 0;
      }
      CreatedEnd(old(hobs), EFI_HOB_TYPE_GUID_EXTENSION, GUID_HOB_SIZE + dataLength);
      GuidHobNamed(guid, dataLength);
      FillLast(hob + HEADER_SIZE, guid);
      assert hobs == old(hobs) + [GuidHob(guid, Zeros(dataLength))];
      NamedHobLies(arena[..], old(hobs), guid, Zeros(dataLength));
      data := hob + GUID_HOB_SIZE;
    }

    /** BuildGuidDataHob: such a HOB with a copy of the data in it. */
    method BuildGuidDataHob(guid: seq<Byte>, bytes: seq<Byte>) returns (created: bool, data: nat)
      requires Valid() && |guid| == 16 && |bytes| <= 0xFFF8 - GUID_HOB_SIZE
      modifies this, arena
      ensures Valid()
      ensures created <==> old(endOfHobList) + 8 + 24 + |bytes| <= 0x10000
      ensures created ==> hobs == old(hobs) + [GuidHob(guid, bytes)] && data == old(endOfHobList) + 24
      ensures created ==> NamedHobAt(arena[..], old(endOfHobList), guid, bytes)
      ensures !created ==> hobs == old(hobs) && arena[..] == old(arena[..]) && endOfHobList == old(endOfHobList)
    {
      hide Holds;
      created, data := BuildGuidHob(guid, |bytes|);
      if !created {
        return false, 0;
      }
      GuidHobFilled(guid, bytes);
      FillLast(data, bytes);
      assert hobs == old(hobs) + [GuidHob(guid, bytes)];
      NamedHobLies(arena[..], old(hobs), guid, bytes);
    }

    /** GetNextHob: the first HOB of the type from HOB k on. */
    method GetNextHob(hobType: nat, hobStart: nat, ghost k: nat) returns (found: bool, hob: nat, ghost j: nat)
      requires Valid() && k <= |hobs| && hobStart == Start(hobs, k)
      ensures found ==> IsNext(hobs, k, hobType, [], j) && hob == Start(hobs, j) && LiesAt(arena[..], hob, hobs[j])
      ensures !found ==> NoneFrom(hobs, k, hobType, [])
    {
      hide Holds, TypeOf, LengthOf, Start;
      hob, j := hobStart, k;
      while true
        invariant k <= j <= |hobs| && hob == Start(hobs, j)
        invariant forall i :: k <= i < j ==> !Matches(hobs[i], hobType, [])
        decreases |hobs| - j
      {
        HeaderAt(arena[..], hobs, j);
        if TypeOf(arena[hob..]) == EFI_HOB_TYPE_END_OF_HOB_LIST {
          AtEnd(arena[..], hobs, j);
          return false, 0, j;
        }
        AtEnd(arena[..], hobs, j);
        if TypeOf(arena[hob..]) == hobType {
          return true, hob, j;
        }
        hob, j := hob + LengthOf(arena[hob..]), j + 1;
      }
    }

    /** GetNextGuidHob: the first GUID HOB of that name from HOB k on. */
    method GetNextGuidHob(guid: seq<Byte>, hobStart: nat, ghost k: nat) returns (found: bool, hob: nat, ghost j: nat)
      requires Valid() && k <= |hobs| && hobStart == Start(hobs, k) && |guid| == 16
      ensures found ==> IsNext(hobs, k, EFI_HOB_TYPE_GUID_EXTENSION, guid, j)
      ensures found ==> hob == Start(hobs, j) && LiesAt(arena[..], hob, hobs[j])
      ensures !found ==> NoneFrom(hobs, k, EFI_HOB_TYPE_GUID_EXTENSION, guid)
    {
      hide Holds, TypeOf, LengthOf, Start;
      hob, j := hobStart, k;
      while true
        invariant k <= j <= |hobs| && hob == Start(hobs, j)
        invariant forall i :: k <= i < j ==> !Matches(hobs[i], EFI_HOB_TYPE_GUID_EXTENSION, guid)
        decreases |hobs| - j
      {
        ghost var from := j;
        found, hob, j := GetNextHob(EFI_HOB_TYPE_GUID_EXTENSION, hob, j);
        if !found {
          return false, 0, j;
        }
        GuidHobAt(arena[..], hobs, j);
        if arena[hob + HEADER_SIZE..hob + GUID_HOB_SIZE] == guid {
          return true, hob, j;
        }
        HeaderAt(arena[..], hobs, j);
        hob, j := hob + LengthOf(arena[hob..]), j + 1;
      }
    }
  }

  function GuidHob(guid: seq<Byte>, data: seq<Byte>): Hob
    requires |guid| == 16 && |data| <= 0xFFF8 - GUID_HOB_SIZE
  {
    Header(EFI_HOB_TYPE_GUID_EXTENSION, GUID_HOB_SIZE + |data|) + guid + data
  }

  lemma GuidHobNamed(guid: seq<Byte>, n: nat)
    requires |guid| == 16 && n <= 0xFFF8 - GUID_HOB_SIZE
    ensures var h := Header(EFI_HOB_TYPE_GUID_EXTENSION, GUID_HOB_SIZE + n) + Zeros(GUID_HOB_SIZE + n - HEADER_SIZE);
            h[..HEADER_SIZE] + guid + h[GUID_HOB_SIZE..] == GuidHob(guid, Zeros(n))
  {
  }

  lemma GuidHobFilled(guid: seq<Byte>, data: seq<Byte>)
    requires |guid| == 16 && |data| <= 0xFFF8 - GUID_HOB_SIZE
    ensures var h := GuidHob(guid, Zeros(|data|));
            h[..GUID_HOB_SIZE] + data + h[GUID_HOB_SIZE + |data|..] == GuidHob(guid, data)
  {
  }

  lemma Replaced(f: seq<Byte>, last: seq<Byte>, tail: seq<Byte>, o: nat, data: seq<Byte>)
    requires o + |data| <= |last|
    ensures var was, at := f + last + tail, |f| + o;
            was[..at] + data + was[at + |data|..] == f + (last[..o] + data + last[o + |data|..]) + tail
  {
  }

  lemma FilledHob(last: Hob, o: nat, data: seq<Byte>)
    requires IsHob(last) && HEADER_SIZE <= o && o + |data| <= |last|
    ensures IsHob(last[..o] + data + last[o + |data|..])
  {
    SameHeader(last[..o] + data + last[o + |data|..], last[..HEADER_SIZE]);
    SameHeader(last, last[..HEADER_SIZE]);
  }

  /** Payload bytes of the last HOB have been replaced. */
  lemma Filled(was: seq<Byte>, hobs: seq<Hob>, o: nat, data: seq<Byte>, bytes: seq<Byte>)
    requires Holds(was, hobs) && hobs != []
    requires HEADER_SIZE <= o && o + |data| <= |hobs[|hobs| - 1]|
    requires var at := |Flat(hobs)| - |hobs[|hobs| - 1]| + o; bytes == was[..at] + data + was[at + |data|..]
    ensures var n, last := |hobs| - 1, hobs[|hobs| - 1];
            Holds(bytes, hobs[..n] + [last[..o] + data + last[o + |data|..]])
  {
    hide Header, IsHob, Zeros, Flat;
    var n, last, end := |hobs| - 1, hobs[|hobs| - 1], |Flat(hobs)|;
    var h := last[..o] + data + last[o + |data|..];
    FlatNext(hobs[..n], h);
    FlatNext(hobs[..n], last);
    assert hobs[..n] + [last] == hobs;
    FilledHob(last, o, data);
    var mark, rest := Header(EFI_HOB_TYPE_END_OF_HOB_LIST, HEADER_SIZE), Zeros(SIZE_64KB - end - HEADER_SIZE);
    assert was == Flat(hobs[..n]) + last + (mark + rest);
    Replaced(Flat(hobs[..n]), last, mark + rest, o, data);
    assert bytes == Flat(hobs[..n]) + h + (mark + rest) == Flat(hobs[..n]) + h + mark + rest;
  }

  lemma CreatedEnd(hobs: seq<Hob>, hobType: nat, length: nat)
    requires HEADER_SIZE <= length < 0x10000 && hobType < 0x10000
    ensures var h := Header(hobType, length) + Zeros(length - HEADER_SIZE);
            |Flat(hobs + [h])| == |Flat(hobs)| + length == |Flat(hobs)| + |h|
  {
    FlatNext(hobs, Header(hobType, length) + Zeros(length - HEADER_SIZE));
  }

  /** Only the end marker looks like one. */
  lemma AtEnd(bytes: seq<Byte>, hobs: seq<Hob>, j: nat)
    requires Holds(bytes, hobs) && j <= |hobs|
    ensures AreHobs(hobs) && Start(hobs, j) + HEADER_SIZE <= |bytes|
    ensures TypeOf(bytes[Start(hobs, j)..]) == EFI_HOB_TYPE_END_OF_HOB_LIST <==> j == |hobs|
  {
    HeaderAt(bytes, hobs, j);
  }

  lemma GuidHobAt(bytes: seq<Byte>, hobs: seq<Hob>, j: nat)
    requires Holds(bytes, hobs) && j < |hobs| && TypeOf(hobs[j]) == EFI_HOB_TYPE_GUID_EXTENSION
    ensures var at := Start(hobs, j);
            at + GUID_HOB_SIZE <= |bytes| && |hobs[j]| >= GUID_HOB_SIZE
                && bytes[at + HEADER_SIZE..at + GUID_HOB_SIZE] == hobs[j][HEADER_SIZE..GUID_HOB_SIZE]
  {
    HeaderAt(bytes, hobs, j);
    var at := Start(hobs, j);
    assert bytes[at + HEADER_SIZE..at + GUID_HOB_SIZE] == bytes[at..at + |hobs[j]|][HEADER_SIZE..GUID_HOB_SIZE];
  }

  /** A GUID HOB whose name is new is what a search from the start finds, with its data, however many HOBs follow. */
  lemma DataIsFound(before: seq<Hob>, guid: seq<Byte>, data: seq<Byte>, after: seq<Hob>)
    requires |guid| == 16 && |data| <= 0xFFF8 - GUID_HOB_SIZE
    requires NoneFrom(before, 0, EFI_HOB_TYPE_GUID_EXTENSION, guid)
    ensures var hobs := before + [GuidHob(guid, data)] + after;
            && IsNext(hobs, 0, EFI_HOB_TYPE_GUID_EXTENSION, guid, |before|)
            && hobs[|before|][GUID_HOB_SIZE..] == data
  {
    var hobs := before + [GuidHob(guid, data)] + after;
    var h := GuidHob(guid, data);
    assert hobs[|before|] == h && IsHob(h);
    SameHeader(h, Header(EFI_HOB_TYPE_GUID_EXTENSION, GUID_HOB_SIZE + |data|));
    assert h[HEADER_SIZE..GUID_HOB_SIZE] == guid && h[GUID_HOB_SIZE..] == data;
    assert Matches(hobs[|before|], EFI_HOB_TYPE_GUID_EXTENSION, guid);
    assert forall i :: 0 <= i < |before| ==> hobs[i] == before[i];
  }

  /** The two headers have been written. */
  lemma Appended(was: seq<Byte>, hobs: seq<Hob>, hobType: nat, length: nat, bytes: seq<Byte>)
    requires Holds(was, hobs) && HEADER_SIZE <= length < 0x10000 && hobType < EFI_HOB_TYPE_END_OF_HOB_LIST
    requires hobType == EFI_HOB_TYPE_GUID_EXTENSION ==> length >= GUID_HOB_SIZE
    requires |Flat(hobs)| + length + HEADER_SIZE <= SIZE_64KB
    requires var end := |Flat(hobs)|;
             var once := was[..end] + Header(hobType, length) + was[end + HEADER_SIZE..];
             bytes == once[..end + length] + Header(EFI_HOB_TYPE_END_OF_HOB_LIST, HEADER_SIZE)
                 + once[end + length + HEADER_SIZE..]
    ensures Holds(bytes, hobs + [Header(hobType, length) + Zeros(length - HEADER_SIZE)])
  {
    hide Header, IsHob, Flat, TypeOf, LengthOf;
    var end := |Flat(hobs)|;
    var head, mark := Header(hobType, length), Header(EFI_HOB_TYPE_END_OF_HOB_LIST, HEADER_SIZE);
    var h := head + Zeros(length - HEADER_SIZE);
    FlatNext(hobs, h);
    NewHob(hobType, length);
    var zeros := Zeros(SIZE_64KB - end - HEADER_SIZE);
    var once := was[..end] + head + was[end + HEADER_SIZE..];
    assert once == Flat(hobs) + head + zeros;
    assert once[..end + length] == Flat(hobs) + head + zeros[..length - HEADER_SIZE];
    assert once[end + length + HEADER_SIZE..] == zeros[length..];
    assert zeros[..length - HEADER_SIZE] == Zeros(length - HEADER_SIZE)
           && zeros[length..] == Zeros(SIZE_64KB - end - length - HEADER_SIZE);
    assert Flat(hobs) + head + Zeros(length - HEADER_SIZE) == Flat(hobs) + h;
  }

  lemma NewHob(hobType: nat, length: nat)
    requires HEADER_SIZE <= length < 0x10000 && hobType < EFI_HOB_TYPE_END_OF_HOB_LIST
    requires hobType == EFI_HOB_TYPE_GUID_EXTENSION ==> length >= GUID_HOB_SIZE
    ensures IsHob(Header(hobType, length) + Zeros(length - HEADER_SIZE))
  {
    SameHeader(Header(hobType, length) + Zeros(length - HEADER_SIZE), Header(hobType, length));
  }
}
