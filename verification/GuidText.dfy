/** GUIDs as text: the %g format of HostLib/PrintLibHost/PrintLibInternal.c, and AsciiStrToGuid and
    AsciiStrHexToBytes of HostLib/BaseLibHost/SafeString.c. */
module GuidText {
  import opened NumberText
  import opened NumberPrinting

  type Byte = b: int | 0 <= b < 0x100

  datatype Guid = Guid(data1: nat, data2: nat, data3: nat, data4: seq<Byte>) {
    predicate Valid() {
      data1 < 0x1_0000_0000 && data2 < 0x10000 && data3 < 0x10000 && |data4| == 8
    }
  }

  const GUID_LENGTH: nat := 36

  // ----- bytes -----

  function SwapBytes16(v: nat): nat {
    v % 0x100 * 0x100 + v / 0x100
  }

  function SwapBytes32(v: nat): nat {
    SwapBytes16(v % 0x10000) * 0x10000 + SwapBytes16(v / 0x10000)
  }

  /** A number in memory, its low byte first. */
  function Little16(b: seq<Byte>): nat
    requires |b| == 2
  {
    b[0] as int + b[1] as int * 0x100
  }

  function Little32(b: seq<Byte>): nat
    requires |b| == 4
  {
    Little16(b[..2]) + Little16(b[2..]) * 0x10000
  }

  lemma Swapped16(low: int, high: int)
    requires 0 <= low < 0x100 && 0 <= high < 0x100
    ensures SwapBytes16(low + high * 0x100) == low * 0x100 + high
  {
  }

  lemma Swapped32(low: int, high: int)
    requires 0 <= low < 0x10000 && 0 <= high < 0x10000
    ensures SwapBytes32(low + high * 0x10000) == SwapBytes16(low) * 0x10000 + SwapBytes16(high)
  {
    hide SwapBytes16;
    assert (low + high * 0x10000) % 0x10000 == low && (low + high * 0x10000) / 0x10000 == high;
  }

  /** Swapping what bytes in big-endian order give as a little-endian number gives their number. */
  lemma SwappedBytes(b: seq<Byte>)
    requires |b| == 4
    ensures SwapBytes16(Little16(b[..2])) == b[0] as int * 0x100 + b[1] as int
    ensures SwapBytes32(Little32(b)) == b[0] as int * 0x1000000 + b[1] as int * 0x10000 + b[2] as int * 0x100
            + b[3] as int
  {
    hide SwapBytes16, SwapBytes32;
    assert Little16(b[..2]) == b[0] as int + b[1] as int * 0x100;
    assert Little16(b[2..]) == b[2] as int + b[3] as int * 0x100;
    Swapped16(b[0], b[1]);
    Swapped16(b[2], b[3]);
    Swapped32(Little16(b[..2]), Little16(b[2..]));
  }

  // ----- parsing -----

  predicate HexRun(s: seq<char>, at: nat, length: nat) {
    at + length <= |s| && forall k :: at <= k < at + length ==> IsHexDigit(s[k])
  }

  /** Two hexadecimal digits as one byte. */
  function ByteIn(s: seq<char>, at: nat): Byte
    requires at + 2 <= |s|
  {
    DigitValue(s[at]) * 16 + DigitValue(s[at + 1])
  }

  /** AsciiStrHexToBytes, for the text from `at` on and the buffer from `start` on. */
  method HexToBytes(s: seq<char>, at: nat, length: nat, buffer: array<Byte>, start: nat,
                    maxBufferSize: nat) returns (status: Status)
    requires at <= |s| && start + maxBufferSize <= buffer.Length
    modifies buffer
    ensures status == if length > RSIZE_MAX || length % 2 != 0 then InvalidParameter
                      else if maxBufferSize < length / 2 then BufferTooSmall
                      else if !HexRun(s, at, length) then Unsupported
                      else Success
    ensures status != Success ==> buffer[..] == old(buffer[..])
    ensures status == Success ==> forall k :: 0 <= k < length / 2 ==> buffer[start + k] == ByteIn(s, at + 2 * k)
    ensures forall k :: 0 <= k < start || start + length / 2 <= k < buffer.Length ==> buffer[k] == old(buffer[k])
  {
    if length > RSIZE_MAX || length % 2 != 0 {
      return InvalidParameter;
    }
    if maxBufferSize < length / 2 {
      return BufferTooSmall;
    }
    var index := 0;
    while index < length && at + index < |s| && IsHexDigit(s[at + index])
      invariant 0 <= index <= length && HexRun(s, at, index)
      decreases length - index
    {
      index := index + 1;
    }
    if index != length {
      return Unsupported;
    }
    index := 0;
    while index < length
      invariant 0 <= index <= length
      invariant forall k :: 0 <= k < index / 2 ==> buffer[start + k] == ByteIn(s, at + 2 * k)
      invariant index % 2 == 1 ==> buffer[start + index / 2] == DigitValue(s[at + index - 1]) * 16
      invariant forall k :: 0 <= k < start || start + length / 2 <= k < buffer.Length ==> buffer[k] == old(buffer[k])
    {
      if index % 2 == 0 {
        buffer[start + index / 2] := DigitValue(s[at + index]) * 16;
      } else {
        // The low four bits are 0, so adding to them is what "or" does.
        buffer[start + index / 2] := buffer[start + index / 2] + DigitValue(s[at + index]);
      }
      index := index + 1;
    }
    return Success;
  }

  predicate IsDash(i: nat) {
    i == 8 || i == 13 || i == 18 || i == 23
  }

  /** The text starts with the 36 characters of a GUID. */
  predicate StartsGuid(s: seq<char>) {
    |s| >= GUID_LENGTH && forall i :: 0 <= i < GUID_LENGTH ==> if IsDash(i) then s[i] == '-' else IsHexDigit(s[i])
  }

  /** Where byte k of the last field is. */
  function Data4At(k: nat): nat {
    if k < 2 then 19 + 2 * k else 20 + 2 * k
  }

  /** The GUID that the text stands for: each field is the number of its digits. */
  function GuidIn(s: seq<char>): Guid
    requires |s| >= GUID_LENGTH
  {
    Guid(Value(s[0..8], 16), Value(s[9..13], 16), Value(s[14..18], 16),
         seq(8, k requires 0 <= k < 8 => ByteIn(s, Data4At(k))))
  }

  lemma ValueOfBytes(s: seq<char>, at: nat)
    ensures at + 4 <= |s| ==> Value(s[at..at + 4], 16) == ByteIn(s, at) as int * 0x100 + ByteIn(s, at + 2) as int
    ensures at + 8 <= |s| ==>
              Value(s[at..at + 8], 16) == ByteIn(s, at) as int * 0x1000000 + ByteIn(s, at + 2) as int * 0x10000
                                          + ByteIn(s, at + 4) as int * 0x100 + ByteIn(s, at + 6) as int
  {
    if at + 4 <= |s| {
      FourMore(s, at, at);
      if at + 8 <= |s| {
        FourMore(s, at, at + 4);
      }
    }
  }

  lemma FourMore(s: seq<char>, at: nat, e: nat)
    requires at <= e && e + 4 <= |s|
    ensures Value(s[at..at], 16) == 0
    ensures Value(s[at..e + 4], 16) == Value(s[at..e], 16) * 0x10000 + ByteIn(s, e) as int * 0x100
            + ByteIn(s, e + 2) as int
  {
    hide Value, DigitValue;
    ValueStarts(s, at, 16);
    ValueNext(s, at, e, 16);
    ValueNext(s, at, e + 1, 16);
    ValueNext(s, at, e + 2, 16);
    ValueNext(s, at, e + 3, 16);
  }

  /** One field of a GUID: its bytes, and the dash behind them unless it is the last. */
  method ReadField(s: seq<char>, at: nat, size: nat, last: bool, field: array<Byte>, start: nat) returns (ok: bool)
    requires start + size <= field.Length && size <= 8
    modifies field
    ensures ok <==> HexRun(s, at, 2 * size) && (!last ==> at + 2 * size < |s| && s[at + 2 * size] == '-')
    ensures ok ==> forall k :: 0 <= k < size ==> field[start + k] == ByteIn(s, at + 2 * k)
    ensures forall k :: 0 <= k < start ==> field[k] == old(field[k])
  {
    if at > |s| {
      return false;
    }
    var status := HexToBytes(s, at, 2 * size, field, start, size);
    if status != Success || (!last && (|s| <= at + 2 * size || s[at + 2 * size] != '-')) {
      return false;
    }
    return true;
  }

  lemma FormatByFields(s: seq<char>)
    ensures StartsGuid(s) <==>
            && HexRun(s, 0, 8) && 8 < |s| && s[8] == '-' && HexRun(s, 9, 4) && 13 < |s| && s[13] == '-'
            && HexRun(s, 14, 4) && 18 < |s| && s[18] == '-' && HexRun(s, 19, 4) && 23 < |s| && s[23] == '-'
                && HexRun(s, 24, 12)
  {
    if StartsGuid(s) {
      assert s[8] == '-' && s[13] == '-' && s[18] == '-' && s[23] == '-';
    }
  }

  lemma FieldValues(s: seq<char>)
    requires |s| >= GUID_LENGTH
    ensures Value(s[0..8], 16) == ByteIn(s, 0) as int * 0x1000000 + ByteIn(s, 2) as int * 0x10000
            + ByteIn(s, 4) as int * 0x100 + ByteIn(s, 6) as int
    ensures Value(s[9..13], 16) == ByteIn(s, 9) as int * 0x100 + ByteIn(s, 11) as int
    ensures Value(s[14..18], 16) == ByteIn(s, 14) as int * 0x100 + ByteIn(s, 16) as int
  {
    hide Value, ByteIn;
    ValueOfBytes(s, 0);
    ValueOfBytes(s, 9);
    ValueOfBytes(s, 14);
  }

  lemma GuidOfBytes(s: seq<char>, b1: seq<Byte>, b2: seq<Byte>, b3: seq<Byte>, b4: seq<Byte>)
    requires |s| >= GUID_LENGTH && |b1| == 4 && |b2| == |b3| == 2 && |b4| == 8
    requires (forall k :: 0 <= k < 4 ==> b1[k] == ByteIn(s, 2 * k))
    requires (forall k :: 0 <= k < 2 ==> b2[k] == ByteIn(s, 9 + 2 * k))
             && (forall k :: 0 <= k < 2 ==> b3[k] == ByteIn(s, 14 + 2 * k))
    requires (forall k :: 0 <= k < 2 ==> b4[k] == ByteIn(s, 19 + 2 * k))
             && (forall k :: 0 <= k < 6 ==> b4[2 + k] == ByteIn(s, 24 + 2 * k))
    ensures var g := Guid(SwapBytes32(Little32(b1)), SwapBytes16(Little16(b2)), SwapBytes16(Little16(b3)), b4);
            g == GuidIn(s) && g.Valid()
  {
    hide Value, ByteIn, SwapBytes16, SwapBytes32, Little16, Little32;
    FieldValues(s);
    SwappedBytes(b1);
    SwappedBytes(b2 + b3);
    SwappedBytes(b3 + b2);
    assert (b2 + b3)[..2] == b2 && (b3 + b2)[..2] == b3;
    assert b1[0] == ByteIn(s, 0) && b1[1] == ByteIn(s, 2) && b1[2] == ByteIn(s, 4) && b1[3] == ByteIn(s, 6);
    assert b2[0] == ByteIn(s, 9) && b2[1] == ByteIn(s, 11) && b3[0] == ByteIn(s, 14) && b3[1] == ByteIn(s, 16);
    forall k | 0 <= k < 8 ensures b4[k] == ByteIn(s, Data4At(k)) {
      assert k >= 2 ==> b4[2 + (k - 2)] == ByteIn(s, 24 + 2 * (k - 2));
    }
    assert b4 == GuidIn(s).data4;
  }

  /** AsciiStrToGuid. */
  method AsciiStrToGuid(s: seq<char>) returns (status: Status, guid: Guid)
    ensures status == if StartsGuid(s) then Success else Unsupported
    ensures status == Success ==> guid == GuidIn(s) && guid.Valid()
  {
    hide Value, ByteIn, StartsGuid, HexRun, GuidIn, SwapBytes16, SwapBytes32, Little16, Little32, Guid.Valid;
    FormatByFields(s);
    guid := Guid(0, 0, 0, []);
    var field1, field2, field3, field4 := new Byte[4](_ => 0), new Byte[2](_ => 0), new Byte[2](_ => 0),
        new Byte[8](_ => 0);
    var ok := ReadField(s, 0, 4, false, field1, 0);
    if !ok {
      return Unsupported, guid;
    }
    var data1 := SwapBytes32(Little32(field1[..]));
    ok := ReadField(s, 9, 2, false, field2, 0);
    if !ok {
      return Unsupported, guid;
    }
    var data2 := SwapBytes16(Little16(field2[..]));
    ok := ReadField(s, 14, 2, false, field3, 0);
    if !ok {
      return Unsupported, guid;
    }
    var data3 := SwapBytes16(Little16(field3[..]));
    ok := ReadField(s, 19, 2, false, field4, 0);
    if !ok {
      return Unsupported, guid;
    }
    ok := ReadField(s, 24, 6, true, field4, 2);
    if !ok {
      return Unsupported, guid;
    }
    LongEnough(s);
    GuidOfBytes(s, field1[..], field2[..], field3[..], field4[..]);
    return Success, Guid(data1, data2, data3, field4[..]);
  }

  lemma LongEnough(s: seq<char>)
    requires StartsGuid(s)
    ensures |s| >= GUID_LENGTH
  {
  }

  // ----- printing -----

  /** A value as `%0Nx` prints it: its hexadecimal digits behind zeros up to the width. */
  function HexField(v: nat, width: nat): (text: seq<char>) {
    Repeated('0', width - |Digits(v, 16)|) + Digits(v, 16)
  }

  /** The fields of a GUID in the order they are printed, with their widths and the dashes behind them. */
  function Data4Text(bytes: seq<Byte>): seq<char> {
    if bytes == [] then [] else Data4Text(bytes[..|bytes| - 1]) + HexField(bytes[|bytes| - 1], 2)
  }

  /** The text of the `%g` format. */
  function GuidString(g: Guid): seq<char>
    requires g.Valid()
  {
    HexField(g.data1, 8) + ['-'] + HexField(g.data2, 4) + ['-'] + HexField(g.data3, 4) + ['-']
    + Data4Text(g.data4[..2]) + ['-'] + Data4Text(g.data4[2..])
  }

  lemma HexFieldReads(v: nat, width: nat)
    requires width > 0 && v < Power(16, width)
    ensures |HexField(v, width)| == width && HexRun(HexField(v, width), 0, width) && Value(HexField(v, width), 16) == v
  {
    hide Digits, Value;
    DigitsLength(v, 16, width);
    DigitsRead(v, 16);
    var s, z := HexField(v, width), width - |Digits(v, 16)|;
    forall k | 0 <= k < width ensures IsHexDigit(s[k]) {
      assert k >= z ==> IsDigit(Digits(v, 16)[k - z], 16);
    }
    LeadingZeros(s, 0, z, width, 16);
    assert s[0..width] == s && s[z..width] == Digits(v, 16);
  }

  lemma PowersOf16()
    ensures Power(16, 1) == 0x10 && Power(16, 2) == 0x100 && Power(16, 4) == 0x10000 && Power(16, 8) == 0x1_0000_0000
  {
    assert Power(16, 1) == 0x10;
    assert Power(16, 2) == 0x100;
    assert Power(16, 4) == 0x10000;
    assert Power(16, 6) == 0x1000000;
  }

  /** Byte k is printed as its two digits. */
  lemma {:induction false} Data4Reads(bytes: seq<Byte>, k: nat)
    requires k < |bytes|
    ensures |Data4Text(bytes)| == 2 * |bytes| && Data4Text(bytes)[2 * k..2 * k + 2] == HexField(bytes[k], 2)
  {
    hide HexField;
    PowersOf16();
    var n := |bytes| - 1;
    HexFieldReads(bytes[n], 2);
    if n > 0 {
      Data4Reads(bytes[..n], if k < n then k else 0);
      var front := Data4Text(bytes[..n]);
      assert k < n ==> Data4Text(bytes)[2 * k..2 * k + 2] == front[2 * k..2 * k + 2];
    } else {
      assert bytes[..n] == [];
    }
  }

  /** Where the fields are in the printed text. */
  lemma GuidStringParts(g: Guid)
    requires g.Valid()
    ensures var s := GuidString(g);
            && |s| == GUID_LENGTH && s[8] == s[13] == s[18] == s[23] == '-'
            && s[0..8] == HexField(g.data1, 8) && s[9..13] == HexField(g.data2, 4) && s[14..18] == HexField(g.data3, 4)
            && s[19..23] == Data4Text(g.data4[..2]) && s[24..36] == Data4Text(g.data4[2..])
  {
    hide HexField, Data4Text, Power, Value, HexRun;
    PowersOf16();
    HexFieldReads(g.data1, 8);
    HexFieldReads(g.data2, 4);
    HexFieldReads(g.data3, 4);
    Data4Reads(g.data4[..2], 0);
    Data4Reads(g.data4[2..], 0);
  }

  lemma PartOfPart(s: seq<char>, a: nat, b: nat, i: nat, j: nat)
    requires a <= b <= |s| && i <= j <= b - a
    ensures s[a..b][i..j] == s[a + i..a + j]
  {
    forall k | 0 <= k < j - i ensures s[a..b][i..j][k] == s[a + i..a + j][k] {
    }
  }

  lemma Data4Part(g: Guid, k: nat)
    requires g.Valid() && k < 8
    ensures |GuidString(g)| == GUID_LENGTH
    ensures GuidString(g)[Data4At(k)..Data4At(k) + 2] == HexField(g.data4[k], 2)
  {
    hide HexField, Data4Text, GuidString;
    GuidStringParts(g);
    var s := GuidString(g);
    if k < 2 {
      Data4Reads(g.data4[..2], k);
      PartOfPart(s, 19, 23, 2 * k, 2 * k + 2);
    } else {
      Data4Reads(g.data4[2..], k - 2);
      PartOfPart(s, 24, 36, 2 * (k - 2), 2 * (k - 2) + 2);
    }
  }

  /** A place in an output buffer: what has been printed so far and where the next character goes. */
  ghost predicate Printing(bytes: seq<int>, was: seq<int>, text: seq<char>, limit: nat, at: nat)
    requires |bytes| == |was| && limit <= |bytes|
  {
    Shows(bytes, was, text, limit, 1) && at == |Clipped(text, limit)|
  }

  /** The `%0Nx` path of BasePrintLibSPrintMarker. */
  method PrintHexField(buffer: array<int>, at: nat, limit: nat, v: nat, width: nat, valueBuffer: array<char>,
                       ghost was: seq<int>, ghost text: seq<char>) returns (next: nat)
    requires |was| == buffer.Length && limit <= buffer.Length && v <= MAX_UINT64
             && valueBuffer.Length == MAXIMUM_VALUE_CHARACTERS
    requires Printing(buffer[..], was, text, limit, at)
    modifies buffer, valueBuffer
    ensures Printing(buffer[..], was, text + HexField(v, width), limit, next)
  {
    hide Shows, Clipped, Digits, Repeated;
    LongestDigits(v, 16);
    var count := ValueToString(valueBuffer, v, 16);
    next := FillBuffer(buffer, at, limit, width - count, '0', 1, was, text);
    next := PrintDigits(buffer, next, limit, false, valueBuffer, count, 1, was, text + Repeated('0', width - count),
        Digits(v, 16));
    assert text + Repeated('0', width - count) + Digits(v, 16) == text + HexField(v, width);
  }

  method PrintDash(buffer: array<int>, at: nat, limit: nat, ghost was: seq<int>,
                   ghost text: seq<char>) returns (next: nat)
    requires |was| == buffer.Length && limit <= buffer.Length && Printing(buffer[..], was, text, limit, at)
    modifies buffer
    ensures Printing(buffer[..], was, text + ['-'], limit, next)
  {
    hide Shows, Clipped;
    next := FillBuffer(buffer, at, limit, 1, '-', 1, was, text);
    assert Repeated('-', 1) == ['-'];
  }

  method PrintData4(buffer: array<int>, at: nat, limit: nat, bytes: seq<Byte>, valueBuffer: array<char>,
                    ghost was: seq<int>, ghost text: seq<char>) returns (next: nat)
    requires |was| == buffer.Length && limit <= buffer.Length && valueBuffer.Length == MAXIMUM_VALUE_CHARACTERS
    requires Printing(buffer[..], was, text, limit, at)
    modifies buffer, valueBuffer
    ensures Printing(buffer[..], was, text + Data4Text(bytes), limit, next)
  {
    hide Printing, HexField;
    next := at;
    assert bytes[..0] == [] && text + [] == text;
    for i := 0 to |bytes|
      invariant Printing(buffer[..], was, text + Data4Text(bytes[..i]), limit, next)
    {
      next := PrintHexField(buffer, next, limit, bytes[i], 2, valueBuffer, was, text + Data4Text(bytes[..i]));
      assert bytes[..i + 1][..i] == bytes[..i];
      assert text + Data4Text(bytes[..i]) + HexField(bytes[i], 2) == text + Data4Text(bytes[..i + 1]);
    }
    assert bytes[..|bytes|] == bytes;
  }

  /** The `%g` path of BasePrintLibSPrintMarker: the text goes into a buffer of 38 characters. */
  method PrintGuid(g: Guid, buffer: array<int>)
    requires g.Valid() && buffer.Length == MAXIMUM_VALUE_CHARACTERS
    modifies buffer
    ensures |GuidString(g)| == GUID_LENGTH && ShowsString(buffer[..], old(buffer[..]), GuidString(g), 1)
  {
    hide Shows, ShowsString, HexField, Data4Text, Clipped;
    var limit := MAXIMUM_VALUE_CHARACTERS - 1;
    var valueBuffer := new char[MAXIMUM_VALUE_CHARACTERS];
    ghost var was, text := buffer[..], [];
    NothingShown(was, limit, 1);
    var at := PrintHexField(buffer, 0, limit, g.data1, 8, valueBuffer, was, text);
    text := text + HexField(g.data1, 8);
    at := PrintDash(buffer, at, limit, was, text);
    text := text + ['-'];
    at := PrintHexField(buffer, at, limit, g.data2, 4, valueBuffer, was, text);
    text := text + HexField(g.data2, 4);
    at := PrintDash(buffer, at, limit, was, text);
    text := text + ['-'];
    at := PrintHexField(buffer, at, limit, g.data3, 4, valueBuffer, was, text);
    text := text + HexField(g.data3, 4);
    at := PrintDash(buffer, at, limit, was, text);
    text := text + ['-'];
    at := PrintData4(buffer, at, limit, g.data4[..2], valueBuffer, was, text);
    text := text + Data4Text(g.data4[..2]);
    at := PrintDash(buffer, at, limit, was, text);
    text := text + ['-'];
    at := PrintData4(buffer, at, limit, g.data4[2..], valueBuffer, was, text);
    text := text + Data4Text(g.data4[2..]);
    assert text == [] + GuidString(g) == GuidString(g);
    GuidStringParts(g);
    EndText(buffer, at, limit, was, text);
  }

  method EndText(buffer: array<int>, at: nat, limit: nat, ghost was: seq<int>, ghost text: seq<char>)
    requires |was| == buffer.Length && limit + 1 == buffer.Length && |text| <= limit
             && Printing(buffer[..], was, text, limit, at)
    modifies buffer
    ensures ShowsString(buffer[..], was, text, 1)
  {
    var _ := FillBuffer(buffer, at, limit + 1, 1, '\0', 1, was, text);
    var shown := text + Repeated('\0', 1);
    assert CharAt(buffer[..], |text|, 1, shown[|text|] as int);
    forall k | 0 <= k < |text| ensures CharAt(buffer[..], k, 1, text[k] as int) {
      assert shown[k] == text[k];
    }
  }

  // ----- round trips -----

  lemma TwoDigits(s: seq<char>, at: nat)
    requires at + 2 <= |s|
    ensures Value(s[at..at + 2], 16) == ByteIn(s, at)
  {
    hide Value, DigitValue;
    ValueStarts(s, at, 16);
    ValueNext(s, at, at, 16);
    ValueNext(s, at, at + 1, 16);
  }

  lemma HexPart(s: seq<char>, at: nat, v: nat, width: nat)
    requires at + width <= |s| && s[at..at + width] == HexField(v, width) && width > 0 && v < Power(16, width)
    ensures HexRun(s, at, width) && Value(s[at..at + width], 16) == v
  {
    HexFieldReads(v, width);
    forall k | at <= k < at + width ensures IsHexDigit(s[k]) {
      assert s[k] == s[at..at + width][k - at];
    }
  }

  /** A printed GUID is in the format that is parsed, and parsing it gives the GUID back. */
  lemma PrintedGuidReads(g: Guid)
    requires g.Valid()
    ensures StartsGuid(GuidString(g)) && GuidIn(GuidString(g)) == g
  {
    hide HexField, Data4Text, GuidString, Power, Value, HexRun, StartsGuid;
    var s := GuidString(g);
    GuidStringParts(g);
    assert |s| >= GUID_LENGTH;
    PowersOf16();
    HexPart(s, 0, g.data1, 8);
    HexPart(s, 9, g.data2, 4);
    HexPart(s, 14, g.data3, 4);
    forall k | 0 <= k < 8 ensures ByteIn(s, Data4At(k)) == g.data4[k] && HexRun(s, Data4At(k), 2) {
      Data4Part(g, k);
      HexPart(s, Data4At(k), g.data4[k], 2);
      TwoDigits(s, Data4At(k));
    }
    assert GuidIn(s).data4 == g.data4;
    PartsAreHex(s);
  }

  lemma PartsAreHex(s: seq<char>)
    requires |s| == GUID_LENGTH && s[8] == s[13] == s[18] == s[23] == '-'
    requires HexRun(s, 0, 8) && HexRun(s, 9, 4) && HexRun(s, 14, 4) && forall k :: 0 <= k < 8 ==>
             HexRun(s, Data4At(k), 2)
    ensures StartsGuid(s)
  {
    forall i | 0 <= i < GUID_LENGTH ensures if IsDash(i) then s[i] == '-' else IsHexDigit(s[i]) {
      if 19 <= i < 23 {
        assert HexRun(s, Data4At((i - 19) / 2), 2);
      } else if 24 <= i {
        assert HexRun(s, Data4At((i - 20) / 2), 2);
      }
    }
  }

  /** Which GUID a text stands for does not depend on the case of its letters. */
  lemma GuidIgnoresCase(s: seq<char>, t: seq<char>)
    requires SameButCase(s, t)
    ensures |s| == |t| && (StartsGuid(s) <==> StartsGuid(t))
    ensures |s| >= GUID_LENGTH ==> GuidIn(s) == GuidIn(t)
  {
    hide Value, Lower, SameButCase;
    SameCharacters(s, t);
    DashesIgnoreCase(s, t);
    forall k | 0 <= k < |s| ensures IsHexDigit(s[k]) <==> IsHexDigit(t[k]) {
      assert In(s[k], Digit(16)) <==> In(t[k], Digit(16));
    }
    if |s| >= GUID_LENGTH {
      SliceIgnoresCase(s, t, 0, 8, 16);
      SliceIgnoresCase(s, t, 9, 13, 16);
      SliceIgnoresCase(s, t, 14, 18, 16);
      assert GuidIn(s).data4 == GuidIn(t).data4;
    }
  }

  lemma DashesIgnoreCase(s: seq<char>, t: seq<char>)
    requires SameButCase(s, t)
    ensures |s| == |t| && forall k :: 0 <= k < |s| ==> (s[k] == '-' <==> t[k] == '-')
  {
    assert |s| == |Lower(s)| == |Lower(t)| == |t|;
    forall k | 0 <= k < |s| ensures s[k] == '-' <==> t[k] == '-' {
      assert Lower(s)[k] == Lower(t)[k];
    }
  }

  /** Parsing the printed text of a GUID, in upper, lower or mixed case, gives the GUID back. */
  lemma GuidReadsInAnyCase(g: Guid, s: seq<char>)
    requires g.Valid() && SameButCase(s, GuidString(g))
    ensures StartsGuid(s) && GuidIn(s) == g
  {
    hide GuidString, GuidIn, StartsGuid, Lower, SameButCase;
    PrintedGuidReads(g);
    LongEnough(GuidString(g));
    GuidIgnoresCase(s, GuidString(g));
  }

  /** Which digit counts for what: the fields from left to right, each with its high digits first. */
  lemma DigitsByPlace(s: seq<char>)
    requires StartsGuid(s)
    ensures |s| >= 36 && s[8] == s[13] == s[18] == s[23] == '-'
    ensures GuidIn(s).data1 ==
            DigitValue(s[0]) * 0x10000000 + DigitValue(s[1]) * 0x1000000 + DigitValue(s[2]) * 0x100000
            + DigitValue(s[3]) * 0x10000 + DigitValue(s[4]) * 0x1000 + DigitValue(s[5]) * 0x100
            + DigitValue(s[6]) * 0x10 + DigitValue(s[7])
    ensures GuidIn(s).data2 ==
            DigitValue(s[9]) * 0x1000 + DigitValue(s[10]) * 0x100 + DigitValue(s[11]) * 0x10 + DigitValue(s[12])
    ensures GuidIn(s).data3 ==
            DigitValue(s[14]) * 0x1000 + DigitValue(s[15]) * 0x100 + DigitValue(s[16]) * 0x10 + DigitValue(s[17])
    ensures GuidIn(s).data4[0] == DigitValue(s[19]) * 0x10 + DigitValue(s[20])
    ensures GuidIn(s).data4[1] == DigitValue(s[21]) * 0x10 + DigitValue(s[22])
    ensures forall k :: 2 <= k < 8 ==>
              GuidIn(s).data4[k] == DigitValue(s[20 + 2 * k]) * 0x10 + DigitValue(s[21 + 2 * k])
  {
    hide Value, DigitValue;
    FormatByFields(s);
    FieldValues(s);
  }

  /** The letters in upper case. */
  function Upper(s: seq<char>): (u: seq<char>)
    ensures |u| == |s|
  {
    seq(|s|, k requires 0 <= k < |s| =>
      if 'a' <= s[k] <= 'z' then (s[k] as int - 'a' as int + 'A' as int) as char
      else s[k])
  }

  lemma HexFieldNext(v: nat, d: nat, width: nat)
    requires width > 0 && v < Power(16, width) && d < 16
    ensures HexField(v * 16 + d, width + 1) == HexField(v, width) + [DigitChar(d)]
  {
    hide Power, Repeated;
    DigitsLength(v, 16, width);
    var x := v * 16 + d;
    assert Over(x, 16) == v && Rest(x, 16) == d;
    if v == 0 {
      assert Digits(x, 16) == [DigitChar(d)] && Digits(v, 16) == ['0'];
    } else {
      assert Digits(x, 16) == Digits(v, 16) + [DigitChar(d)];
    }
  }

  /** Printing the number of a run of digits, in the width of the run, gives the run in upper case. */
  lemma {:induction false} ReadFieldPrints(s: seq<char>, at: nat, width: nat)
    requires width > 0 && HexRun(s, at, width)
    ensures Value(s[at..at + width], 16) < Power(16, width)
    ensures HexField(Value(s[at..at + width], 16), width) == Upper(s[at..at + width])
    decreases width
  {
    hide HexField, Value;
    var d := DigitValue(s[at + width - 1]);
    ValueNext(s, at, at + width - 1, 16);
    assert DigitChar(d) == Upper(s[at..at + width])[width - 1];
    if width > 1 {
      ReadFieldPrints(s, at, width - 1);
      HexFieldNext(Value(s[at..at + width - 1], 16), d, width - 1);
      assert Upper(s[at..at + width]) == Upper(s[at..at + width - 1]) + [DigitChar(d)];
    } else {
      ValueStarts(s, at, 16);
      OneDigit(d);
      assert Upper(s[at..at + width]) == [DigitChar(d)];
    }
  }

  lemma OneDigit(d: nat)
    requires d < 16
    ensures HexField(d, 1) == [DigitChar(d)] && d < Power(16, 1)
  {
  }

  /** Printing a parsed GUID gives its text back, in upper case. */
  lemma ReadGuidPrints(s: seq<char>)
    requires StartsGuid(s)
    ensures GuidIn(s).Valid() && GuidString(GuidIn(s)) == Upper(s[..GUID_LENGTH])
  {
    hide HexField, Data4Text, GuidString, Power, Value, Upper, StartsGuid, HexRun;
    FormatByFields(s);
    LongEnough(s);
    PowersOf16();
    ReadFieldPrints(s, 0, 8);
    ReadFieldPrints(s, 9, 4);
    ReadFieldPrints(s, 14, 4);
    var g, u := GuidIn(s), Upper(s[..GUID_LENGTH]);
    var t := GuidString(g);
    GuidStringParts(g);
    UpperParts(s);
    forall k | 0 <= k < 8 ensures t[Data4At(k)..Data4At(k) + 2] == u[Data4At(k)..Data4At(k) + 2] {
      Data4Part(g, k);
      TwoDigits(s, Data4At(k));
      PairIsHex(s, k);
      ReadFieldPrints(s, Data4At(k), 2);
      UpperPart(s, Data4At(k), 2);
    }
    UpperPart(s, 0, 8);
    UpperPart(s, 9, 4);
    UpperPart(s, 14, 4);
    SameParts(t, u);
  }

  lemma UpperPart(s: seq<char>, at: nat, width: nat)
    requires |s| >= GUID_LENGTH && at + width <= GUID_LENGTH
    ensures Upper(s[..GUID_LENGTH])[at..at + width] == Upper(s[at..at + width])
  {
  }

  lemma UpperParts(s: seq<char>)
    requires StartsGuid(s)
    ensures var u := Upper(s[..GUID_LENGTH]); u[8] == u[13] == u[18] == u[23] == '-'
  {
  }

  lemma PairIsHex(s: seq<char>, k: nat)
    requires StartsGuid(s) && k < 8
    ensures HexRun(s, Data4At(k), 2)
  {
  }

  lemma SameParts(t: seq<char>, u: seq<char>)
    requires |t| == |u| == GUID_LENGTH && t[8] == t[13] == t[18] == t[23] == u[8] == u[13] == u[18] == u[23]
    requires t[0..8] == u[0..8] && t[9..13] == u[9..13] && t[14..18] == u[14..18]
    requires forall k :: 0 <= k < 8 ==> t[Data4At(k)..Data4At(k) + 2] == u[Data4At(k)..Data4At(k) + 2]
    ensures t == u
  {
    forall i | 0 <= i < GUID_LENGTH ensures t[i] == u[i] {
      if i < 8 {
        assert t[0..8][i] == u[0..8][i];
      } else if 9 <= i < 13 {
        assert t[9..13][i - 9] == u[9..13][i - 9];
      } else if 14 <= i < 18 {
        assert t[14..18][i - 14] == u[14..18][i - 14];
      } else if 19 <= i && i != 23 {
        var k := if i < 23 then (i - 19) / 2 else (i - 20) / 2;
        assert t[Data4At(k)..Data4At(k) + 2][i - Data4At(k)] == u[Data4At(k)..Data4At(k) + 2][i - Data4At(k)];
      }
    }
  }
}
