/** IPv6 addresses as text (section 2.2 of RFC 4291): StrToIpv6Address of HostLib/BaseLibHost/SafeString.c. */
module Ipv6Text {
  import opened NumberText

  const MAX_UINT8: nat := 255

  type Word = w: int | 0 <= w < 0x10000
  type Byte = b: int | 0 <= b < 0x100

  /** 16-bit groups as bytes, the high byte first. */
  function Bytes(words: seq<Word>): (bytes: seq<Byte>)
    ensures |bytes| == 2 * |words|
  {
    seq(2 * |words|, k requires 0 <= k < 2 * |words| => ByteAt(words, k))
  }

  function ByteAt(words: seq<Word>, k: nat): Byte
    requires k < 2 * |words|
  {
    if k % 2 == 0 then words[k / 2] / 0x100 else words[k / 2] % 0x100
  }

  function Zeros(n: nat): (bytes: seq<Byte>)
    ensures |bytes| == n
  {
    seq(n, _ => 0)
  }

  /** The address of groups with zeros where they are compressed. */
  function Address(words: seq<Word>, compress: nat): (bytes: seq<Byte>)
    requires compress <= |words| <= 8
    ensures |bytes| == 16
  {
    Bytes(words[..compress]) + Zeros(16 - 2 * |words|) + Bytes(words[compress..])
  }

  // ----- one pass through the parser's loop -----

  const NO_COMPRESSION: int := -1

  /** How far the parser is: the position, the groups so far, the place of the compressed zeros, and whether a
      "/" has been read. */
  datatype Progress = Progress(at: nat, words: seq<Word>, compress: int, expectPrefix: bool) {
    predicate Valid(s: seq<char>) {
      && at <= |s| && |words| <= 8 && NO_COMPRESSION <= compress <= |words| && compress < 8
      && (|words| == 8 ==> expectPrefix)
    }
  }

  const START: Progress := Progress(0, [], NO_COMPRESSION, false)

  datatype Step =
    | Next(progress: Progress)
    | Done(words: seq<Word>, compress: int, prefix: nat, end: nat)
    | Refuse

  /** The character there, or the NUL behind the text. */
  function CharAt(s: seq<char>, i: nat): char {
    if i < |s| then s[i] else '\0'
  }

  /** How many characters the hexadecimal reader takes for a number. */
  function NumberEnd(s: seq<char>, radix: Radix): nat {
    RunEnd(s, DigitsStart(s, radix), Digit(radix))
  }

  function NumberIn(s: seq<char>, radix: Radix): nat {
    Value(s[DigitsStart(s, radix)..NumberEnd(s, radix)], radix)
  }

  /** The text starts with a group of at most four characters; the reader refuses texts over its limit. */
  predicate StartsGroup(s: seq<char>) {
    |s| <= RSIZE_MAX && s != [] && IsHexDigit(s[0]) && NumberEnd(s, 16) <= 4
  }

  predicate StartsPrefix(s: seq<char>) {
    |s| <= RSIZE_MAX && s != [] && IsHexDigit(s[0]) && NumberEnd(s, 10) > 0 && NumberIn(s, 10) <= 128
  }

  lemma {:induction false} ValueBound(text: seq<char>, n: nat)
    requires |text| <= n
    ensures Value(text, 16) < Power(16, n)
    decreases n
  {
    if text != [] {
      ValueBound(text[..|text| - 1], n - 1);
    } else if n > 0 {
      ValueBound(text, n - 1);
    }
  }

  lemma FourDigits(text: seq<char>)
    requires |text| <= 4
    ensures Value(text, 16) < 0x10000
  {
    ValueBound(text, 4);
    assert Power(16, 2) == 0x100;
    assert Power(16, 4) == 0x10000;
  }

  function GroupIn(s: seq<char>): Word
    requires StartsGroup(s)
  {
    FourDigits(s[DigitsStart(s, 16)..NumberEnd(s, 16)]);
    NumberIn(s, 16)
  }

  function Skip(s: seq<char>, p: Progress): Step
    requires p.at <= |s|
  {
    if CharAt(s, p.at) == '/' then Next(p.(expectPrefix := true, at := p.at + 1))
    else if CharAt(s, p.at) == ':' && |p.words| < 8 then Next(p.(at := p.at + 1))
    else Done(p.words, p.compress, MAX_UINT8, p.at)
  }

  /** What follows the optional second colon. */
  function Body(s: seq<char>, p: Progress): Step
    requires p.at <= |s|
  {
    if !IsHexDigit(CharAt(s, p.at)) then
      if CharAt(s, p.at) == '/' then if p.compress != |p.words| then Refuse else Skip(s, p)
      else Done(p.words, p.compress, MAX_UINT8, p.at)
    else if !p.expectPrefix then
      if StartsGroup(s[p.at..]) then Skip(s,
          p.(words := p.words + [GroupIn(s[p.at..])], at := p.at + NumberEnd(s[p.at..], 16)))
      else Refuse
    else if StartsPrefix(s[p.at..]) then Done(p.words, p.compress, NumberIn(s[p.at..], 10),
        p.at + NumberEnd(s[p.at..], 10))
    else Refuse
  }

  function Advance(s: seq<char>, p: Progress): Step
    requires p.Valid(s)
  {
    if IsHexDigit(CharAt(s, p.at)) then Body(s, p)
    else if CharAt(s, p.at) != ':' || p.expectPrefix || p.compress != NO_COMPRESSION || |p.words| == 8 then Refuse
    else if |p.words| > 0 then Body(s, p.(compress := |p.words|, at := p.at + 1))
    else if CharAt(s, p.at + 1) != ':' then Refuse
    else Body(s, p.(compress := 0, at := p.at + 2))
  }

  ghost predicate Moves(s: seq<char>, at: nat, step: Step) {
    match step
    case Next(q) => q.Valid(s) && q.at > at
    case Done(words, compress, _, end) => |words| <= 8 && NO_COMPRESSION <= compress <= |words| && compress < 8
        && at <= end <= |s|
    case Refuse => true
  }

  lemma SkipMoves(s: seq<char>, p: Progress)
    requires p.at <= |s| && |p.words| <= 8 && NO_COMPRESSION <= p.compress <= |p.words| && p.compress < 8
    ensures Moves(s, p.at, Skip(s, p))
  {
  }

  lemma BodyMoves(s: seq<char>, p: Progress)
    requires p.Valid(s)
    ensures Moves(s, p.at, Body(s, p))
  {
    hide Skip, DigitsStart, RunEnd, NumberIn, GroupIn;
    SkipMoves(s, p);
    if IsHexDigit(CharAt(s, p.at)) && !p.expectPrefix && StartsGroup(s[p.at..]) {
      SkipMoves(s, p.(words := p.words + [GroupIn(s[p.at..])], at := p.at + NumberEnd(s[p.at..], 16)));
    }
  }

  /** Each pass that goes on moves forward. */
  lemma AdvanceMoves(s: seq<char>, p: Progress)
    requires p.Valid(s)
    ensures Moves(s, p.at, Advance(s, p))
  {
    hide Body;
    BodyMoves(s, p);
    if p.at < |s| && p.compress == NO_COMPRESSION && |p.words| < 8 {
      BodyMoves(s, p.(compress := |p.words|, at := p.at + 1));
      if p.at + 1 < |s| && |p.words| == 0 {
        BodyMoves(s, p.(compress := 0, at := p.at + 2));
      }
    }
  }

  /** What a whole parse returns: the bytes, the prefix length and the position behind the text. */
  datatype Parsed = Refused | Accepted(address: seq<Byte>, prefix: nat, end: nat)

  /** Groups must be eight, or fewer with a compression. */
  predicate Complete(words: seq<Word>, compress: int) {
    |words| == 8 <==> compress == NO_COMPRESSION
  }

  function Finish(words: seq<Word>, compress: int, prefix: nat, end: nat): Parsed
    requires |words| <= 8 && NO_COMPRESSION <= compress <= |words| && compress < 8
  {
    if Complete(words, compress) then Accepted(Address(words, if compress == NO_COMPRESSION then 8 else compress),
        prefix, end)
    else Refused
  }

  function Parse(s: seq<char>, p: Progress): Parsed
    requires p.Valid(s)
    decreases |s| - p.at
  {
    AdvanceMoves(s, p);
    match Advance(s, p)
    case Next(q) => Parse(s, q)
    case Done(words, compress, prefix, end) => Finish(words, compress, prefix, end)
    case Refuse => Refused
  }

  // ----- upper and lower case -----

  lemma CharIgnoresCase(s: seq<char>, t: seq<char>, i: nat)
    requires SameButCase(s, t)
    ensures |s| == |t|
    ensures (CharAt(s, i) == ':' <==> CharAt(t, i) == ':') && (CharAt(s, i) == '/' <==> CharAt(t, i) == '/')
    ensures IsHexDigit(CharAt(s, i)) <==> IsHexDigit(CharAt(t, i))
  {
    assert |s| == |Lower(s)| == |Lower(t)| == |t|;
    assert i < |s| ==> Lower(s)[i] == Lower(t)[i];
  }

  lemma NumberIgnoresCase(s: seq<char>, t: seq<char>, radix: Radix)
    requires SameButCase(s, t)
    ensures NumberEnd(s, radix) == NumberEnd(t, radix) && NumberIn(s, radix) == NumberIn(t, radix)
    ensures (StartsGroup(s) <==> StartsGroup(t)) && (StartsPrefix(s) <==> StartsPrefix(t))
    ensures StartsGroup(s) ==> GroupIn(s) == GroupIn(t)
  {
    hide Value, Lower, SameButCase, RunEnd;
    EndIgnoresCase(s, t, 10);
    EndIgnoresCase(s, t, 16);
    EndIgnoresCase(s, t, radix);
    CharIgnoresCase(s, t, 0);
    assert s != [] ==> s[0] == CharAt(s, 0) && t[0] == CharAt(t, 0);
  }

  lemma EndIgnoresCase(s: seq<char>, t: seq<char>, radix: Radix)
    requires SameButCase(s, t)
    ensures |s| == |t| && NumberEnd(s, radix) == NumberEnd(t, radix) && NumberIn(s, radix) == NumberIn(t, radix)
  {
    hide Value, Lower, SameButCase, RunEnd;
    StartIgnoresCase(s, t, radix);
    RunIgnoresCase(s, t, DigitsStart(s, radix), Digit(radix));
    SliceIgnoresCase(s, t, DigitsStart(s, radix), NumberEnd(s, radix), radix);
  }

  lemma BodyIgnoresCase(s: seq<char>, t: seq<char>, p: Progress)
    requires SameButCase(s, t) && p.at <= |s|
    ensures |s| == |t| && Body(s, p) == Body(t, p)
  {
    hide Value, Lower, SameButCase, NumberEnd, NumberIn, StartsGroup, StartsPrefix, GroupIn, CharAt, IsHexDigit;
    CharIgnoresCase(s, t, p.at);
    PartsButCase(s, t, p.at, |s|);
    assert s[p.at..|s|] == s[p.at..] && t[p.at..|s|] == t[p.at..];
    NumberIgnoresCase(s[p.at..], t[p.at..], 10);
    NumberIgnoresCase(s[p.at..], t[p.at..], 16);
    if StartsGroup(s[p.at..]) {
      CharIgnoresCase(s, t, p.at + NumberEnd(s[p.at..], 16));
    }
  }

  lemma AdvanceIgnoresCase(s: seq<char>, t: seq<char>, p: Progress)
    requires SameButCase(s, t) && p.Valid(s)
    ensures |s| == |t| && Advance(s, p) == Advance(t, p)
  {
    hide Body, Lower, SameButCase;
    CharIgnoresCase(s, t, p.at);
    CharIgnoresCase(s, t, p.at + 1);
    BodyIgnoresCase(s, t, p);
    if p.at < |s| {
      BodyIgnoresCase(s, t, p.(compress := |p.words|, at := p.at + 1));
      if p.at + 1 < |s| {
        BodyIgnoresCase(s, t, p.(compress := 0, at := p.at + 2));
      }
    }
  }

  /** Which address a text stands for does not depend on the case of its letters. */
  lemma {:induction false} ParseIgnoresCase(s: seq<char>, t: seq<char>, p: Progress)
    requires SameButCase(s, t) && p.Valid(s)
    ensures |s| == |t| && Parse(s, p) == Parse(t, p)
    decreases |s| - p.at
  {
    hide Advance, Lower, SameButCase, Finish;
    AdvanceMoves(s, p);
    AdvanceIgnoresCase(s, t, p);
    if Advance(s, p).Next? {
      ParseIgnoresCase(s, t, Advance(s, p).progress);
    }
  }

  // ----- the parser -----

  /** CompressStart, which is the size of an address when nothing is compressed. */
  function CompressStart(compress: int): int {
    if compress == NO_COMPRESSION then 16 else 2 * compress
  }

  /** The reader's answer says whether the text starts with a group, and which. */
  lemma GroupReading(t: seq<char>, r: Reading)
    requires t != [] && IsHexDigit(t[0]) && Reads(t, 16, r)
    ensures StartsGroup(t) <==> r.status == Success && r.end <= 4
    ensures StartsGroup(t) ==> r.value == GroupIn(t) && r.end == NumberEnd(t, 16)
  {
    NoStrayX(t);
    if |t| <= RSIZE_MAX && NumberEnd(t, 16) <= 4 {
      FourDigits(t[DigitsStart(t, 16)..NumberEnd(t, 16)]);
    }
  }

  lemma PrefixReading(t: seq<char>, r: Reading)
    requires t != [] && IsHexDigit(t[0]) && Reads(t, 10, r)
    ensures StartsPrefix(t) <==> r.status == Success && r.end != 0 && r.value <= 128
    ensures StartsPrefix(t) ==> r.value == NumberIn(t, 10) && r.end == NumberEnd(t, 10)
  {
  }

  lemma NoStrayX(t: seq<char>)
    requires t != [] && IsHexDigit(t[0])
    ensures !StrayX(t, 16)
  {
    RunEndIs(t, 0, Blank, 0);
  }

  lemma BytesNext(words: seq<Word>, w: Word)
    ensures Bytes(words + [w]) == Bytes(words) + [w / 0x100, w % 0x100]
  {
    var all := words + [w];
    forall k | 0 <= k < 2 * |all| ensures Bytes(all)[k] == (Bytes(words) + [w / 0x100, w % 0x100])[k] {
      assert k < 2 * |words| ==> ByteAt(all, k) == ByteAt(words, k);
    }
  }

  lemma NoBytes(local: array<Byte>)
    ensures local[..0] == Bytes([])
  {
  }

  /** What comes of a pass: it goes on, stops or refuses. */
  function Outcome(s: seq<char>, at: nat, step: Step): Parsed
    requires Moves(s, at, step)
  {
    match step
    case Next(q) => Parse(s, q)
    case Done(words, compress, prefix, end) => Finish(words, compress, prefix, end)
    case Refuse => Refused
  }

  lemma ParseStep(s: seq<char>, p: Progress)
    requires p.Valid(s)
    ensures Moves(s, p.at, Advance(s, p))
    ensures Parse(s, p) == Outcome(s, p.at, Advance(s, p))
  {
    AdvanceMoves(s, p);
  }

  /** Gets X: the group at the pointer is stored behind the others. */
  method ReadGroup(s: seq<char>, pointer: nat, local: array<Byte>, addressIndex: nat, ghost words: seq<Word>)
    returns (ok: bool, next: nat)
    requires pointer < |s| && IsHexDigit(s[pointer]) && addressIndex + 2 <= local.Length == 16
    requires local[..addressIndex] == Bytes(words)
    modifies local
    ensures ok <==> StartsGroup(s[pointer..])
    ensures ok ==> next == pointer + NumberEnd(s[pointer..], 16)
    ensures ok ==> local[..addressIndex + 2] == Bytes(words + [GroupIn(s[pointer..])])
  {
    hide StartsGroup, GroupIn, NumberEnd, Bytes, Reads;
    var r := ReadNumber(s[pointer..], 16);
    GroupReading(s[pointer..], r);
    if r.status != Success || r.end > 4 {
      return false, pointer;
    }
    local[addressIndex], local[addressIndex + 1] := r.value / 0x100, r.value % 0x100;
    BytesNext(words, r.value);
    return true, pointer + r.end;
  }

  /** Gets P. */
  method ReadPrefix(s: seq<char>, pointer: nat) returns (ok: bool, prefix: nat, next: nat)
    requires pointer < |s| && IsHexDigit(s[pointer])
    ensures ok <==> StartsPrefix(s[pointer..])
    ensures ok ==> prefix == NumberIn(s[pointer..], 10) && next == pointer + NumberEnd(s[pointer..], 10)
  {
    hide StartsPrefix, NumberIn, NumberEnd, Reads;
    var r := ReadNumber(s[pointer..], 10);
    PrefixReading(s[pointer..], r);
    if r.status != Success || r.end == 0 || r.value > 128 {
      return false, 0, pointer;
    }
    return true, r.value, pointer + r.end;
  }

  /** Meets a second colon, or the first at the beginning: notes the place of the compressed zeros. */
  method ReadColon(s: seq<char>, pointer: nat, addressIndex: nat, compressStart: int, expectPrefix: bool,
                   ghost p: Progress)
    returns (ok: bool, next: nat, compress: int, ghost q: Progress)
    requires p.Valid(s) && p.at == pointer && p.expectPrefix == expectPrefix && !IsHexDigit(CharAt(s, pointer))
    requires addressIndex == 2 * |p.words| && compressStart == CompressStart(p.compress)
    ensures !ok ==> Advance(s, p) == Refuse
    ensures ok ==> next <= |s| && q == p.(compress := |p.words|, at := next) && compress == addressIndex < 16
    ensures ok ==> !expectPrefix && p.compress == NO_COMPRESSION && Advance(s, p) == Body(s, q)
  {
    hide Body;
    next, compress, q := pointer, compressStart, p;
    if CharAt(s, pointer) != ':' || expectPrefix || compressStart != 16 || addressIndex == 16 {
      return false, next, compress, q;
    }
    compress := addressIndex;
    next := next + 1;
    if compress == 0 {
      if CharAt(s, next) != ':' {
        return false, next, compress, q;
      }
      next := next + 1;
    }
    q := p.(compress := |p.words|, at := next);
    ok := true;
  }

  /** The loop of StrToIpv6Address: reads the text up to its end, storing each group. */
  method ReadGroups(s: seq<char>, local: array<Byte>)
    returns (accepted: bool, addressIndex: nat, compressStart: int, prefix: nat, end: nat,
             ghost words: seq<Word>, ghost compress: int)
    requires local.Length == 16
    modifies local
    ensures if accepted then
              && |words| <= 8 && NO_COMPRESSION <= compress <= |words| && compress < 8
              && addressIndex == 2 * |words| && compressStart == CompressStart(compress)
              && local[..addressIndex] == Bytes(words)
              && Parse(s, START) == Finish(words, compress, prefix, end)
            else Parse(s, START) == Refused
  {
    hide Finish, StartsGroup, StartsPrefix, GroupIn, NumberIn, NumberEnd, Bytes, Parse, Advance, IsHexDigit;
    var pointer: nat := 0;
    addressIndex, compressStart, prefix, end, words, compress := 0, 16, MAX_UINT8, 0, [], NO_COMPRESSION;
    accepted := false;
    var expectPrefix := false;
    ghost var p := START;
    NoBytes(local);
    while addressIndex < 17
      invariant p.Valid(s) && Parse(s, START) == Parse(s, p) && p.at == pointer && p.expectPrefix == expectPrefix
      invariant addressIndex == 2 * |p.words| && compressStart == CompressStart(p.compress)
      invariant local[..addressIndex] == Bytes(p.words) && prefix == MAX_UINT8 && !accepted
      decreases |s| - pointer
    {
      ghost var q := p;
      ParseStep(s, p);
      if !IsHexDigit(CharAt(s, pointer)) {
        var ok;
        ok, pointer, compressStart, q := ReadColon(s, pointer, addressIndex, compressStart, expectPrefix, p);
        if !ok {
          return;
        }
      } else {
        HexAdvances(s, p);
      }
      if !IsHexDigit(CharAt(s, pointer)) {
        if CharAt(s, pointer) == '/' {
          if compressStart != addressIndex {
            return;
          }
        } else {
          accepted, end, words, compress := true, pointer, q.words, q.compress;
          return;
        }
      } else if !expectPrefix {
        HexInside(s, pointer);
        ghost var from := pointer;
        var ok;
        ok, pointer := ReadGroup(s, pointer, local, addressIndex, q.words);
        if !ok {
          return;
        }
        q := q.(words := q.words + [GroupIn(s[from..])], at := pointer);
        addressIndex := addressIndex + 2;
      } else {
        HexInside(s, pointer);
        accepted, prefix, end := ReadPrefix(s, pointer);
        words, compress := q.words, q.compress;
        return;
      }
      assert Advance(s, p) == Skip(s, q);
      if CharAt(s, pointer) == '/' {
        expectPrefix := true;
      } else if CharAt(s, pointer) != ':' || addressIndex == 16 {
        accepted, end, words, compress := true, pointer, q.words, q.compress;
        return;
      }
      pointer := pointer + 1;
      p := Advance(s, p).progress;
    }
  }

  lemma HexAdvances(s: seq<char>, p: Progress)
    requires p.Valid(s) && IsHexDigit(CharAt(s, p.at))
    ensures Advance(s, p) == Body(s, p)
  {
    hide Body;
  }

  lemma HexInside(s: seq<char>, i: nat)
    requires IsHexDigit(CharAt(s, i))
    ensures i < |s| && CharAt(s, i) == s[i]
  {
  }

  /** StrToIpv6Address. */
  method StrToIpv6Address(s: seq<char>, address: array<Byte>) returns (status: Status, prefix: nat, end: nat)
    requires address.Length == 16
    modifies address
    ensures if Parse(s, START).Accepted? then status == Success && Parse(s, START) == Accepted(address[..], prefix, end)
            else status == Unsupported && address[..] == old(address[..])
  {
    hide Parse, Bytes;
    var local := new Byte[16](_ => 0);
    var accepted, addressIndex, compressStart, localPrefix, pointer, words, compress := ReadGroups(s, local);
    if !accepted {
      return Unsupported, 0, 0;
    }
    if (addressIndex == 16 && compressStart != 16) || (addressIndex != 16 && compressStart == 16) {
      return Unsupported, 0, 0;
    }
    forall k | 0 <= k < compressStart {
      address[k] := local[k];
    }
    forall k | 0 <= k < 16 - addressIndex {
      address[compressStart + k] := 0;
    }
    if addressIndex > compressStart {
      forall k | 0 <= k < addressIndex - compressStart {
        address[compressStart + 16 - addressIndex + k] := local[compressStart + k];
      }
    }
    CopiedAddress(local[..], words, if compress == NO_COMPRESSION then 8 else compress, address[..]);
    return Success, localPrefix, pointer;
  }

  lemma BytesOfPart(words: seq<Word>, from: nat, to: nat, k: nat)
    requires from <= to <= |words| && k < 2 * (to - from)
    ensures Bytes(words[from..to])[k] == Bytes(words)[2 * from + k]
  {
    assert ByteAt(words[from..to], k) == ByteAt(words, 2 * from + k);
  }

  /** The three copies into the caller's buffer. */
  lemma CopiedAddress(local: seq<Byte>, words: seq<Word>, c: nat, address: seq<Byte>)
    requires c <= |words| <= 8 && |local| == |address| == 16 && local[..2 * |words|] == Bytes(words)
    requires forall k :: 0 <= k < 2 * c ==> address[k] == local[k]
    requires forall k :: 2 * c <= k < 2 * c + 16 - 2 * |words| ==> address[k] == 0
    requires forall k :: 2 * c + 16 - 2 * |words| <= k < 16 ==> address[k] == local[k - 16 + 2 * |words|]
    ensures address == Address(words, c)
  {
    hide Bytes, ByteAt;
    var gap := 16 - 2 * |words|;
    assert words[..c] == words[0..c] && words[c..] == words[c..|words|];
    forall k | 0 <= k < 16 ensures address[k] == Address(words, c)[k] {
      if k < 2 * c {
        assert local[k] == Bytes(words)[k];
        BytesOfPart(words, 0, c, k);
      } else if 2 * c + gap <= k {
        assert local[k - gap] == Bytes(words)[k - gap];
        BytesOfPart(words, c, |words|, k - gap - 2 * c);
      }
    }
  }
}
