/** Printing a number into a buffer: HostLib/PrintLibHost/PrintLibInternal.c. */
module NumberPrinting {
  import opened NumberText

  const MAXIMUM_VALUE_CHARACTERS: nat := 38
  const TWO_TO_63: int := 0x8000_0000_0000_0000
  const TWO_TO_64: int := 0x1_0000_0000_0000_0000

  datatype Flag = LeftJustify | CommaType | PrefixZero | RadixHex | OtherFlag

  // ----- the text of a number -----

  /** Digits with a comma before every third one, counted from the right. */
  function Commas(digits: seq<char>): seq<char> {
    if |digits| <= 3 then digits else Commas(digits[..|digits| - 3]) + [','] + digits[|digits| - 3..]
  }

  function Sign(flags: set<Flag>, value: int): seq<char> {
    if value < 0 && RadixHex !in flags then ['-'] else []
  }

  function RadixOf(flags: set<Flag>): Radix {
    if RadixHex in flags then 16 else 10
  }

  /** What is printed after the sign: the value's distance from 0, or its 64-bit pattern. */
  function Magnitude(flags: set<Flag>, value: int): nat
    requires -TWO_TO_63 <= value < TWO_TO_63
  {
    if value >= 0 then value else if RadixHex in flags then value + TWO_TO_64 else -value
  }

  function Limit(width: nat): nat {
    if width == 0 then MAXIMUM_VALUE_CHARACTERS - 1 else width
  }

  predicate ZeroPadded(flags: set<Flag>, width: nat) {
    PrefixZero in flags && width != 0 && CommaType !in flags
  }

  function Repeated(c: char, n: int): (text: seq<char>)
    ensures |text| == if n < 0 then 0 else n
    ensures forall k :: 0 <= k < |text| ==> text[k] == c
  {
    seq(if n < 0 then 0 else n, _ => c)
  }

  /** Sign, zeros up to the width, digits. */
  function FullText(flags: set<Flag>, value: int, width: nat): seq<char>
    requires -TWO_TO_63 <= value < TWO_TO_63
  {
    var digits := Digits(Magnitude(flags, value), RadixOf(flags));
    var zeros := if ZeroPadded(flags, width) then width - |Sign(flags, value)| - |digits| else 0;
    Sign(flags, value) + Repeated('0', zeros) + if CommaType in flags then Commas(digits) else digits
  }

  function Clipped(text: seq<char>, limit: nat): seq<char> {
    if |text| <= limit then text else text[..limit]
  }

  // ----- the bytes of a text -----

  function Offset(k: nat, increment: nat): nat {
    if increment == 1 then k else k * 2
  }

  /** Character k of a buffer: one byte, or two, the low one first. */
  predicate CharAt(bytes: seq<int>, k: nat, increment: nat, c: int)
    requires Offset(k + 1, increment) <= |bytes|
  {
    bytes[Offset(k, increment)] == c % 0x100
        && (increment != 1 ==> bytes[Offset(k, increment) + 1] == c / 0x100 % 0x100)
  }

  /** The bytes show the first `limit` characters of the text, and are as they were from there on. */
  ghost predicate Shows(bytes: seq<int>, was: seq<int>, text: seq<char>, limit: nat, increment: nat)
    requires |bytes| == |was| && Offset(limit, increment) <= |bytes|
  {
    var n := |Clipped(text, limit)|;
    && (forall k :: 0 <= k < n ==> CharAt(bytes, k, increment, text[k] as int))
    && (forall j :: Offset(n, increment) <= j < |bytes| ==> bytes[j] == was[j])
  }

  /** The bytes show the whole text and a NUL, and are as they were from there on. */
  ghost predicate ShowsString(bytes: seq<int>, was: seq<int>, text: seq<char>, increment: nat)
    requires |bytes| == |was| && Offset(|text| + 1, increment) <= |bytes|
  {
    && (forall k :: 0 <= k < |text| ==> CharAt(bytes, k, increment, text[k] as int))
    && CharAt(bytes, |text|, increment, 0)
    && (forall j :: Offset(|text| + 1, increment) <= j < |bytes| ==> bytes[j] == was[j])
  }

  /** The character that the text is continued with has been written. */
  lemma ShowsNext(bytes: seq<int>, then_: seq<int>, was: seq<int>, text: seq<char>, c: char, limit: nat, increment: nat)
    requires |bytes| == |then_| == |was| && Offset(limit, increment) <= |bytes| && |text| < limit
    requires Shows(bytes, was, text, limit, increment)
    requires CharAt(then_, |text|, increment, c as int)
    requires forall j :: 0 <= j < Offset(|text|, increment) || Offset(|text| + 1, increment) <= j < |bytes| ==>
             then_[j] == bytes[j]
    ensures Shows(then_, was, text + [c], limit, increment)
  {
    var longer := text + [c];
    forall k | 0 <= k < |longer| ensures CharAt(then_, k, increment, longer[k] as int) {
      assert k < |text| ==> CharAt(bytes, k, increment, text[k] as int);
    }
  }

  lemma ShowsNoMore(bytes: seq<int>, was: seq<int>, text: seq<char>, more: seq<char>, limit: nat, increment: nat)
    requires |bytes| == |was| && Offset(limit, increment) <= |bytes| && |text| >= limit
    requires Shows(bytes, was, text, limit, increment)
    ensures Shows(bytes, was, text + more, limit, increment) && Clipped(text + more, limit) == Clipped(text, limit)
  {
    assert Clipped(text + more, limit) == Clipped(text, limit);
  }

  /** BasePrintLibFillBuffer: up to `length` times the character, never past the limit. */
  method FillBuffer(buffer: array<int>, at: nat, limit: nat, length: int, c: char, increment: nat,
                    ghost was: seq<int>, ghost text: seq<char>) returns (next: nat)
    requires increment == 1 || increment == 2
    requires |was| == buffer.Length && Offset(limit, increment) <= buffer.Length
    requires Shows(buffer[..], was, text, limit, increment) && at == Offset(|Clipped(text, limit)|, increment)
    modifies buffer
    ensures Shows(buffer[..], was, text + Repeated(c, length), limit, increment)
    ensures next == Offset(|Clipped(text + Repeated(c, length), limit)|, increment)
  {
    hide Shows, CharAt;
    next := at;
    var index := 0;
    assert text + Repeated(c, 0) == text;
    while index < length && next < Offset(limit, increment)
      invariant 0 <= index && (index <= length || index == 0)
      invariant Shows(buffer[..], was, text + Repeated(c, index), limit, increment)
      invariant next == Offset(|Clipped(text + Repeated(c, index), limit)|, increment)
    {
      ghost var before, sofar := buffer[..], text + Repeated(c, index);
      buffer[next] := c as int % 0x100;
      if increment != 1 {
        buffer[next + 1] := c as int / 0x100 % 0x100;
      }
      ShowsNext(before, buffer[..], was, sofar, c, limit, increment);
      assert sofar + [c] == text + Repeated(c, index + 1);
      next := next + increment;
      index := index + 1;
    }
    ghost var sofar := text + Repeated(c, index);
    if index < length {
      ShowsNoMore(buffer[..], was, sofar, Repeated(c, length - index), limit, increment);
      assert sofar + Repeated(c, length - index) == text + Repeated(c, length);
    } else {
      assert sofar == text + Repeated(c, length);
    }
  }

  lemma DigitsSplit(v: nat, radix: Radix)
    ensures Over(v, radix) == 0 ==> Digits(v, radix) == [DigitChar(Rest(v, radix))]
    ensures Over(v, radix) > 0 ==> Over(v, radix) < v
    ensures Over(v, radix) > 0 ==> Digits(v, radix) == Digits(Over(v, radix), radix) + [DigitChar(Rest(v, radix))]
  {
  }

  /** BasePrintLibValueToString: the digits behind a 0, the least significant first. */
  method ValueToString(buffer: array<char>, value: nat, radix: Radix) returns (end: nat)
    requires |Digits(value, radix)| < buffer.Length
    modifies buffer
    ensures end == |Digits(value, radix)|
    ensures forall i :: 1 <= i <= end ==> buffer[i] == Digits(value, radix)[end - i]
  {
    hide Digits, Over, Rest, DigitChar;
    ghost var digits := Digits(value, radix);
    var v := value;
    buffer[0] := '\0';
    end := 0;
    while true
      invariant |digits| == |Digits(v, radix)| + end
      invariant forall i :: 1 <= i <= end ==> buffer[i] == digits[|digits| - i]
      invariant forall k :: 0 <= k < |Digits(v, radix)| ==> digits[k] == Digits(v, radix)[k]
      decreases v
    {
      var remainder := Rest(v, radix);
      DigitsSplit(v, radix);
      v := Over(v, radix);
      end := end + 1;
      buffer[end] := DigitChar(remainder);
      if v == 0 {
        break;
      }
    }
  }

  // ----- commas -----

  /** A comma stands in front of the digits left, if they are groups of three. */
  predicate CommaDue(left: int) {
    left > 0 && left % 3 == 0
  }

  /** The printing loop's count of the digits of a group, when so many digits are left. */
  predicate InPlace(place: nat, left: int) {
    place < 3 && (place + left) % 3 == 0
  }

  /** The first i digits, each comma right behind its digit: what the printing loop has printed by then. */
  function Grouped(digits: seq<char>, i: nat): seq<char>
    requires i <= |digits|
  {
    if i == 0 then []
    else Grouped(digits, i - 1) + [digits[i - 1]] + if CommaDue(|digits| - i) then [','] else []
  }

  lemma {:induction false} GroupedBefore(digits: seq<char>, i: nat)
    requires |digits| > 3 && i <= |digits| - 3
    ensures Grouped(digits, i) == Grouped(digits[..|digits| - 3], i) + if i == |digits| - 3 then [','] else []
  {
    if i > 0 {
      GroupedBefore(digits, i - 1);
    }
  }

  /** No comma stands among the last three digits. */
  lemma {:induction false} GroupedLast(digits: seq<char>, m: nat, i: nat)
    requires m <= i <= |digits| <= m + 3
    ensures Grouped(digits, i) == Grouped(digits, m) + digits[m..i]
    decreases i
  {
    if m < i {
      GroupedLast(digits, m, i - 1);
      assert i < |digits| ==> 0 < |digits| - i < 3;
    }
  }

  lemma {:induction false} GroupedIsCommas(digits: seq<char>)
    ensures Grouped(digits, |digits|) == Commas(digits)
  {
    var n := |digits|;
    if n > 3 {
      GroupedIsCommas(digits[..n - 3]);
      GroupedBefore(digits, n - 3);
      GroupedLast(digits, n - 3, n);
    } else {
      GroupedLast(digits, 0, n);
    }
  }

  lemma {:induction false} CommasLength(digits: seq<char>)
    ensures |Commas(digits)| == |digits| + if digits == [] then 0 else (|digits| - 1) / 3
  {
    if |digits| > 3 {
      CommasLength(digits[..|digits| - 3]);
    }
  }

  /** Counted from the right, every fourth character is a comma and the others are the digits in order. */
  lemma {:induction false} CommasPlace(digits: seq<char>, q: nat, r: nat)
    requires r < 4 && 4 * q + r < |Commas(digits)|
    ensures var c := Commas(digits)[|Commas(digits)| - 1 - (4 * q + r)];
            if r == 3 then c == ',' else 3 * q + r < |digits| && c == digits[|digits| - 1 - (3 * q + r)]
    decreases q
  {
    if |digits| > 3 && q > 0 {
      var front := Commas(digits[..|digits| - 3]);
      CommasPlace(digits[..|digits| - 3], q - 1, r);
      assert Commas(digits)[|front| - 1 - (4 * (q - 1) + r)] == front[|front| - 1 - (4 * (q - 1) + r)];
    }
  }

  lemma GroupedNext(digits: seq<char>, i: nat, text: seq<char>, sofar: seq<char>, comma: bool)
    requires i < |digits| && sofar == text + if comma then Grouped(digits, i) else digits[..i]
    ensures var next := sofar + Repeated(digits[i], 1);
            (if comma && CommaDue(|digits| - (i + 1)) then next + Repeated(',', 1) else next)
            == text + if comma then Grouped(digits, i + 1) else digits[..i + 1]
  {
    assert Repeated(digits[i], 1) == [digits[i]] && Repeated(',', 1) == [','];
  }

  lemma GroupedStarts(digits: seq<char>)
    ensures Grouped(digits, 0) == []
  {
  }

  lemma PlaceStarts(count: nat)
    ensures InPlace(if count % 3 != 0 then 3 - count % 3 else count % 3, count)
  {
  }

  lemma PlaceNext(place: nat, left: int)
    requires InPlace(place, left)
    ensures place < 3 && (place + 1 == 3 && left > 1 <==> CommaDue(left - 1))
    ensures InPlace(if place + 1 == 3 then 0 else place + 1, left - 1)
  {
  }

  /** The loop that prints the digits, reading the value buffer from its end. */
  method PrintDigits(buffer: array<int>, at: nat, limit: nat, comma: bool, valueBuffer: array<char>, count: nat,
                     increment: nat,
                     ghost was: seq<int>, ghost text: seq<char>, ghost digits: seq<char>) returns (next: nat)
    requires increment == 1 || increment == 2
    requires |was| == buffer.Length && Offset(limit, increment) <= buffer.Length
    requires Shows(buffer[..], was, text, limit, increment) && at == Offset(|Clipped(text, limit)|, increment)
    requires count == |digits| < valueBuffer.Length && forall i :: 1 <= i <= count ==>
             valueBuffer[i] == digits[count - i]
    modifies buffer
    ensures var all := text + if comma then Commas(digits) else digits;
            Shows(buffer[..], was, all, limit, increment) && next == Offset(|Clipped(all, limit)|, increment)
  {
    hide *;
    next := at;
    var pointer, place := count, count % 3;
    if place != 0 {
      place := 3 - place;
    }
    PlaceStarts(count);
    GroupedStarts(digits);
    var index := 0;
    ghost var all := text;
    assert text + [] == text;
    while index < count
      invariant 0 <= index <= count && pointer == count - index
      invariant place >= 0 && (comma ==> InPlace(place, count - index))
      invariant all == text + if comma then Grouped(digits, index) else digits[..index]
      invariant Shows(buffer[..], was, all, limit, increment) && next == Offset(|Clipped(all, limit)|, increment)
    {
      GroupedNext(digits, index, text, all, comma);
      if comma {
        PlaceNext(place, count - index);
      }
      next := FillBuffer(buffer, next, limit, 1, valueBuffer[pointer], increment, was, all);
      all := all + Repeated(digits[index], 1);
      pointer := pointer - 1;
      if comma {
        place := place + 1;
        if place == 3 {
          place := 0;
          if index + 1 < count {
            next := FillBuffer(buffer, next, limit, 1, ',', increment, was, all);
            all := all + Repeated(',', 1);
          }
        }
      }
      index := index + 1;
    }
    GroupedIsCommas(digits);
    assert digits[..count] == digits;
  }

  // ----- the whole conversion -----

  /** What a successful conversion puts into the buffer in front of the NUL. */
  function Output(flags: set<Flag>, value: int, width: nat): seq<char>
    requires -TWO_TO_63 <= value < TWO_TO_63
  {
    Clipped(FullText(flags, value, width), Limit(width))
  }

  /** How many characters the conversion counts before it prints: those of the text, or the width. */
  lemma {:induction false} CountIsEnough(flags: set<Flag>, value: int, width: nat)
    requires -TWO_TO_63 <= value < TWO_TO_63
    ensures var digits := Digits(Magnitude(flags, value), RadixOf(flags));
            var count := if ZeroPadded(flags, width) then width
                         else |Sign(flags, value)| + |digits| + if CommaType in flags then (|digits| - 1) / 3 else 0;
            |Output(flags, value, width)| == (if count <= Limit(width) then count else Limit(width)) > 0
  {
    var digits := Digits(Magnitude(flags, value), RadixOf(flags));
    CommasLength(digits);
  }

  /** The checks made before anything is printed. */
  function ParameterStatus(bufferSize: nat, flags: set<Flag>, value: int, width: nat, increment: nat,
                           maximumLength: nat): Status
    requires -TWO_TO_63 <= value < TWO_TO_63
  {
    if maximumLength != 0 && bufferSize > (if increment == 1 then maximumLength else maximumLength * 2 + 1)
        then InvalidParameter
    else if OtherFlag in flags || (CommaType in flags && RadixHex in flags) then InvalidParameter
    else if width >= MAXIMUM_VALUE_CHARACTERS then InvalidParameter
    else if bufferSize < Offset(|Output(flags, value, width)| + 1, increment) then BufferTooSmall
    else Success
  }

  /** The radix and the magnitude, as the code finds them. */
  method Prepare(flags: set<Flag>, value: int) returns (radix: Radix, negative: bool, magnitude: nat)
    requires -TWO_TO_63 <= value < TWO_TO_63
    ensures radix == RadixOf(flags) && magnitude == Magnitude(flags, value) && |Digits(magnitude, radix)| <= 20
    ensures Sign(flags, value) == if negative then ['-'] else []
  {
    radix := if RadixHex in flags then 16 else 10;
    negative := value < 0 && RadixHex !in flags;
    magnitude := if negative then -value else if value < 0 then value + TWO_TO_64 else value;
    LongestDigits(magnitude, radix);
  }

  /** How many characters will be printed. */
  method CountCharacters(flags: set<Flag>, value: int, width: nat, valueBuffer: array<char>) returns (count: nat)
    requires -TWO_TO_63 <= value < TWO_TO_63 && valueBuffer.Length == MAXIMUM_VALUE_CHARACTERS
    modifies valueBuffer
    ensures count == |Output(flags, value, width)| && 0 < count
  {
    hide Output, Digits, FullText, Magnitude;
    var padded := PrefixZero in flags && !(width == 0 || CommaType in flags);
    var limit := if width == 0 then MAXIMUM_VALUE_CHARACTERS - 1 else width;
    var radix, negative, magnitude := Prepare(flags, value);
    CountIsEnough(flags, value, width);
    if padded {
      count := limit;
    } else {
      count := if negative then 1 else 0;
      var end := ValueToString(valueBuffer, magnitude, radix);
      count := count + end;
      if CommaType in flags {
        count := count + (end - 1) / 3;
      }
    }
    count := if count <= limit then count else limit;
  }

  /** Prints the text in front of the limit, and a NUL. */
  method PrintCharacters(buffer: array<int>, limit: nat, flags: set<Flag>, value: int, width: nat, increment: nat,
                         valueBuffer: array<char>)
    requires (increment == 1 || increment == 2) && valueBuffer.Length == MAXIMUM_VALUE_CHARACTERS
    requires -TWO_TO_63 <= value < TWO_TO_63
    requires limit == |Output(flags, value, width)| && Offset(limit + 1, increment) <= buffer.Length
    modifies buffer, valueBuffer
    ensures ShowsString(buffer[..], old(buffer[..]), Output(flags, value, width), increment)
  {
    hide Shows, Commas, Digits, Repeated, Output, ShowsString, FullText, Magnitude, Clipped;
    var radix, negative, magnitude := Prepare(flags, value);
    ghost var was, text := buffer[..], [];
    OutputClips(flags, value, width);
    NothingShown(was, limit, increment);
    var at := 0;
    var left: int := limit;
    if negative {
      at := FillBuffer(buffer, at, limit, 1, '-', increment, was, text);
      text := text + Repeated('-', 1);
      left := left - 1;
    }
    var end := ValueToString(valueBuffer, magnitude, radix);
    if PrefixZero in flags && !(width == 0 || CommaType in flags) {
      at := FillBuffer(buffer, at, limit, left - end, '0', increment, was, text);
      text := text + Repeated('0', left - end);
    }
    at := PrintDigits(buffer, at, limit, CommaType in flags, valueBuffer, end, increment, was, text,
        Digits(magnitude, radix));
    text := text + if CommaType in flags then Commas(Digits(magnitude, radix)) else Digits(magnitude, radix);
    TextIsFull(flags, value, width, negative, text);
    Terminate(buffer, at, limit, increment, was, text);
  }

  /** BasePrintLibConvertValueToStringS.  `maximumLength` is the platform's limit for a string, 0 for none. */
  method ConvertValueToStringS(buffer: array<int>, bufferSize: nat, flags: set<Flag>, value: int, width: nat,
                               increment: nat, maximumLength: nat) returns (status: Status)
    requires (increment == 1 || increment == 2) && bufferSize <= buffer.Length
    requires -TWO_TO_63 <= value < TWO_TO_63 && (RadixHex !in flags ==> value > -TWO_TO_63)
    modifies buffer
    ensures status == ParameterStatus(bufferSize, flags, value, width, increment, maximumLength)
    ensures status == InvalidParameter <==>
              || (maximumLength != 0 && increment == 1 && bufferSize > maximumLength)
              || (maximumLength != 0 && increment == 2 && bufferSize > 2 * maximumLength + 1)
              || OtherFlag in flags || (CommaType in flags && RadixHex in flags) || width > 37
    ensures status != InvalidParameter ==>
              (status == Success <==> bufferSize >= increment * (|Output(flags, value, width)| + 1))
    ensures if status == Success then ShowsString(buffer[..], old(buffer[..]), Output(flags, value, width), increment)
            else buffer[..] == old(buffer[..])
  {
    hide Output, ShowsString;
    if maximumLength != 0 && bufferSize > (if increment == 1 then maximumLength else maximumLength * 2 + 1) {
      return InvalidParameter;
    }
    if OtherFlag in flags || (CommaType in flags && RadixHex in flags) {
      return InvalidParameter;
    }
    if width >= MAXIMUM_VALUE_CHARACTERS {
      return InvalidParameter;
    }
    var valueBuffer := new char[MAXIMUM_VALUE_CHARACTERS];
    var count := CountCharacters(flags, value, width, valueBuffer);
    if bufferSize < (count + 1) * increment {
      return BufferTooSmall;
    }
    PrintCharacters(buffer, count, flags, value, width, increment, valueBuffer);
    return Success;
  }

  /** Clipping the whole text where the counted characters end gives the output. */
  lemma OutputClips(flags: set<Flag>, value: int, width: nat)
    requires -TWO_TO_63 <= value < TWO_TO_63
    ensures Clipped(FullText(flags, value, width), |Output(flags, value, width)|) == Output(flags, value, width)
    ensures |FullText(flags, value, width)| >= |Output(flags, value, width)|
    ensures ZeroPadded(flags, width) ==> |Output(flags, value, width)| == width
  {
    CountIsEnough(flags, value, width);
  }

  lemma NothingShown(was: seq<int>, limit: nat, increment: nat)
    requires Offset(limit, increment) <= |was|
    ensures Shows(was, was, [], limit, increment) && Offset(|Clipped([], limit)|, increment) == 0
  {
  }

  lemma TextIsFull(flags: set<Flag>, value: int, width: nat, negative: bool, text: seq<char>)
    requires -TWO_TO_63 <= value < TWO_TO_63 && Sign(flags, value) == if negative then ['-'] else []
    requires var digits := Digits(Magnitude(flags, value), RadixOf(flags));
             var sign := if negative then [] + Repeated('-', 1) else [];
             var zeros := Repeated('0', (if negative then width - 1 else width) - |digits|);
             text == (if ZeroPadded(flags, width) then sign + zeros else sign) + if CommaType in flags
                 then Commas(digits) else digits
    ensures text == FullText(flags, value, width)
  {
    assert [] + Repeated('-', 1) == ['-'];
  }

  /** Writes the NUL behind the text. */
  method Terminate(buffer: array<int>, at: nat, limit: nat, increment: nat, ghost was: seq<int>, ghost text: seq<char>)
    requires increment == 1 || increment == 2
    requires |was| == buffer.Length && Offset(limit + 1, increment) <= buffer.Length && |text| >= limit
    requires Shows(buffer[..], was, text, limit, increment) && at == Offset(|Clipped(text, limit)|, increment)
    modifies buffer
    ensures ShowsString(buffer[..], was, Clipped(text, limit), increment)
  {
    var _ := FillBuffer(buffer, at, limit + 1, 1, '\0', increment, was, Clipped(text, limit));
    var shown := Clipped(text, limit) + Repeated('\0', 1);
    assert CharAt(buffer[..], limit, increment, shown[limit] as int);
    forall k | 0 <= k < limit ensures CharAt(buffer[..], k, increment, text[k] as int) {
      assert shown[k] == text[k];
    }
  }

  /** A value printed without flags is read back: each value that is not negative from its decimal digits, and
      each 64-bit pattern from its hexadecimal ones. */
  lemma PrintedValueReads(flags: set<Flag>, value: int, r: Reading)
    requires -TWO_TO_63 <= value < TWO_TO_63
    requires flags == {RadixHex} || (flags == {} && value >= 0)
    requires Reads(Output(flags, value, 0), RadixOf(flags), r)
    ensures r == Reading(Success, if value >= 0 then value else value + TWO_TO_64, |Output(flags, value, 0)|)
  {
    var radix := RadixOf(flags);
    var digits := Digits(Magnitude(flags, value), radix);
    LongestDigits(Magnitude(flags, value), radix);
    assert Output(flags, value, 0) == digits == digits + [];
    PrintedNumberReads(Magnitude(flags, value), radix, [], r);
  }

  /** Padding with zeros to a width that the digits fit in does not change what is read. */
  lemma PaddedValueReads(flags: set<Flag>, value: int, width: nat, r: Reading)
    requires -TWO_TO_63 <= value < TWO_TO_63 && 0 < width < MAXIMUM_VALUE_CHARACTERS
    requires flags == {PrefixZero, RadixHex} || (flags == {PrefixZero} && value >= 0)
    requires |Digits(Magnitude(flags, value), RadixOf(flags))| <= width
    requires Reads(Output(flags, value, width), RadixOf(flags), r)
    ensures r == Reading(Success, if value >= 0 then value else value + TWO_TO_64, width)
  {
    hide Reads, Digits;
    var radix, v := RadixOf(flags), Magnitude(flags, value);
    var z := width - |Digits(v, radix)|;
    assert Output(flags, value, width) == Repeated('0', z) + Digits(v, radix);
    ZerosThenDigitsRead(v, radix, Repeated('0', z), r);
  }

  // ----- what any printed value shows -----

  /** A text with its commas left out. */
  function WithoutCommas(text: seq<char>): seq<char> {
    if text == [] then []
    else WithoutCommas(text[..|text| - 1]) + if text[|text| - 1] == ',' then [] else [text[|text| - 1]]
  }

  lemma {:induction false} CommasLeftOut(x: seq<char>, y: seq<char>)
    ensures WithoutCommas(x + y) == WithoutCommas(x) + WithoutCommas(y)
    decreases |y|
  {
    if y == [] {
      assert x + y == x;
    } else {
      var n := |y| - 1;
      assert (x + y)[..|x + y| - 1] == x + y[..n];
      CommasLeftOut(x, y[..n]);
    }
  }

  lemma {:induction false} NoCommas(text: seq<char>)
    requires forall k :: 0 <= k < |text| ==> text[k] != ','
    ensures WithoutCommas(text) == text
  {
    if text != [] {
      NoCommas(text[..|text| - 1]);
    }
  }

  lemma {:induction false} CommasOfDigits(digits: seq<char>)
    requires forall k :: 0 <= k < |digits| ==> digits[k] != ','
    ensures WithoutCommas(Commas(digits)) == digits
  {
    if |digits| <= 3 {
      NoCommas(digits);
    } else {
      var n := |digits| - 3;
      CommasOfDigits(digits[..n]);
      NoCommas(digits[n..]);
      CommaLeftOut(Commas(digits[..n]), digits[n..]);
    }
  }

  lemma CommaLeftOut(x: seq<char>, y: seq<char>)
    ensures WithoutCommas(x + [','] + y) == WithoutCommas(x) + WithoutCommas(y)
  {
    CommasLeftOut(x + [','], y);
    assert (x + [','])[..|x|] == x;
  }

  lemma DigitsAreDigits(v: nat, radix: Radix)
    ensures |Digits(v, radix)| > 0
    ensures forall k :: 0 <= k < |Digits(v, radix)| ==> IsDigit(Digits(v, radix)[k], radix)
    ensures forall k :: 0 <= k < |Digits(v, radix)| ==> Digits(v, radix)[k] != ',' && Digits(v, radix)[k] != '-'
  {
    hide Digits;
    DigitsRead(v, radix);
    forall k | 0 <= k < |Digits(v, radix)| ensures IsDigit(Digits(v, radix)[k], radix) {
    }
  }

  /** The sign, the zeros and the digits of a text that is not clipped, and what reading it without its commas gives:
      a minus sign for negative decimals only, the distance from 0 behind it, and for hexadecimal the 64-bit
      pattern. */
  lemma ShownValueReads(flags: set<Flag>, value: int, width: nat, r: Reading)
    requires -TWO_TO_63 <= value < TWO_TO_63 && !(CommaType in flags && RadixHex in flags)
    requires width > 0 ==> |FullText(flags, value, width)| <= width
    requires var text := Output(flags, value, width);
             text != [] ==> Reads(WithoutCommas(if text[0] == '-' then text[1..] else text),
                                  if RadixHex in flags then 16 else 10, r)
    requires width <= 37
    ensures var text := Output(flags, value, width);
            && text != [] && (text[0] == '-' <==> value < 0 && RadixHex !in flags)
            && r.status == Success
            && r.value == (if value >= 0 then value
                           else if RadixHex in flags then value + 0x1_0000_0000_0000_0000 else -value)
  {
    hide Digits, Reads, Value, Commas, WithoutCommas;
    var radix, v := RadixOf(flags), Magnitude(flags, value);
    var digits, text := Digits(v, radix), Output(flags, value, width);
    AnyValueFits(flags, value);
    assert text == FullText(flags, value, width);
    DigitsAreDigits(v, radix);
    var zeros := Repeated('0', if ZeroPadded(flags, width) then width - |Sign(flags, value)| - |digits| else 0);
    var body := if CommaType in flags then Commas(digits) else digits;
    assert text == Sign(flags, value) + (zeros + body);
    BodyStarts(digits, zeros, body, CommaType in flags);
    assert (if text[0] == '-' then text[1..] else text) == zeros + body;
    CommasLeftOut(zeros, body);
    NoCommas(zeros);
    if CommaType in flags {
      CommasOfDigits(digits);
    } else {
      NoCommas(digits);
    }
    assert v <= MAX_UINT64;
    LongestDigits(v, radix);
    ZerosThenDigitsRead(v, radix, zeros, r);
  }

  /** Nothing is clipped when no width is given. */
  lemma AnyValueFits(flags: set<Flag>, value: int)
    requires -TWO_TO_63 <= value < TWO_TO_63
    ensures |FullText(flags, value, 0)| <= 27
  {
    hide Digits;
    LongestDigits(Magnitude(flags, value), RadixOf(flags));
    CommasLength(Digits(Magnitude(flags, value), RadixOf(flags)));
  }

  lemma BodyStarts(digits: seq<char>, zeros: seq<char>, body: seq<char>, comma: bool)
    requires digits != [] && (forall k :: 0 <= k < |digits| ==> digits[k] != '-')
    requires body == (if comma then Commas(digits) else digits) && forall k :: 0 <= k < |zeros| ==> zeros[k] == '0'
    ensures zeros + body != [] && (zeros + body)[0] != '-'
  {
    if comma {
      CommasStart(digits);
    }
  }

  lemma {:induction false} CommasStart(digits: seq<char>)
    requires digits != []
    ensures Commas(digits) != [] && Commas(digits)[0] == digits[0]
  {
    if |digits| > 3 {
      CommasStart(digits[..|digits| - 3]);
    }
  }

  /** How long the text is and where its commas are: as wide as asked for when it is padded, and then without
      commas; otherwise with a comma in every fourth place from the right, if so asked. */
  lemma ShapeOfText(flags: set<Flag>, value: int, width: nat)
    requires -TWO_TO_63 <= value < TWO_TO_63
    ensures var text := Output(flags, value, width);
            && 0 < |text| <= (if width == 0 then 37 else width)
            && (PrefixZero in flags && CommaType !in flags && width > 0 ==> |text| == width)
            && (CommaType !in flags ==> forall k :: 0 <= k < |text| ==> text[k] != ',')
            && (CommaType in flags && |FullText(flags, value, width)| == |text| ==>
                  forall k :: 0 <= k < |text| && text[|text| - 1 - k] != '-' ==>
                    (text[|text| - 1 - k] == ',' <==> k % 4 == 3))
  {
    hide Digits, Commas;
    var radix, v := RadixOf(flags), Magnitude(flags, value);
    var digits, text, full := Digits(v, radix), Output(flags, value, width), FullText(flags, value, width);
    DigitsAreDigits(v, radix);
    CountIsEnough(flags, value, width);
    if CommaType in flags {
      var body := Commas(digits);
      assert full == Sign(flags, value) + body;
      if |full| == |text| {
        assert text == full;
        forall k | 0 <= k < |text| && text[|text| - 1 - k] != '-' ensures text[|text| - 1 - k] == ',' <==> k % 4 == 3 {
          assert k < |body| && text[|text| - 1 - k] == body[|body| - 1 - k];
          CommasPlace(digits, k / 4, k % 4);
        }
      }
    } else {
      forall k | 0 <= k < |full| ensures full[k] != ',' {
      }
    }
  }

  /** The characters can be read back from the bytes: one byte each, or two with the low one first. */
  lemma BytesOfString(bytes: seq<int>, was: seq<int>, text: seq<char>, increment: nat)
    requires (increment == 1 || increment == 2) && |bytes| == |was| && increment * (|text| + 1) <= |bytes|
    requires ShowsString(bytes, was, text, increment)
    requires forall k :: 0 <= k < |text| ==> text[k] as int < if increment == 1 then 0x100 else 0x10000
    ensures forall k :: 0 <= k < |text| ==>
              (if increment == 1 then bytes[k] else bytes[2 * k] + bytes[2 * k + 1] * 0x100) == text[k] as int
    ensures if increment == 1 then bytes[|text|] == 0 else bytes[2 * |text|] == 0 && bytes[2 * |text| + 1] == 0
    ensures forall j :: increment * (|text| + 1) <= j < |bytes| ==> bytes[j] == was[j]
  {
    forall k | 0 <= k < |text|
      ensures (if increment == 1 then bytes[k] else bytes[2 * k] + bytes[2 * k + 1] * 0x100) == text[k] as int
    {
      assert CharAt(bytes, k, increment, text[k] as int);
    }
  }
}
