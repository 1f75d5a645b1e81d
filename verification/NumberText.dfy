/** Numbers as text: the digits that are printed for a value, and what a number reader makes of a text.
    HostLib/BaseLibHost/SafeString.c, HostLib/BaseLibHost/String.c and HostLib/PrintLibHost/PrintLibInternal.c. */
module NumberText {

  const MAX_UINT64: nat := 0xFFFF_FFFF_FFFF_FFFF

  /** RSIZE_MAX and ASCII_RSIZE_MAX. */
  const RSIZE_MAX: nat := 0x1000000

  datatype Status = Success | InvalidParameter | Unsupported | BufferTooSmall

  type Radix = r: int | r == 10 || r == 16 witness 10

  function Times(v: nat, radix: Radix): nat {
    if radix == 16 then v * 16 else v * 10
  }

  function Over(v: nat, radix: Radix): nat {
    if radix == 16 then v / 16 else v / 10
  }

  function Rest(v: nat, radix: Radix): (r: nat)
    ensures r < radix && v == Times(Over(v, radix), radix) + r
  {
    if radix == 16 then v % 16 else v % 10
  }

  // ----- digits -----

  predicate IsDecimalDigit(c: char) {
    '0' <= c <= '9'
  }

  predicate IsHexDigit(c: char) {
    IsDecimalDigit(c) || 'A' <= c <= 'F' || 'a' <= c <= 'f'
  }

  predicate IsDigit(c: char, radix: Radix) {
    if radix == 16 then IsHexDigit(c) else IsDecimalDigit(c)
  }

  function DigitValue(c: char): (v: nat)
    ensures v < 16 && (IsDecimalDigit(c) ==> v < 10)
  {
    if IsDecimalDigit(c) then c as int - '0' as int
    else if 'A' <= c <= 'F' then c as int - 'A' as int + 10
    else if 'a' <= c <= 'f' then c as int - 'a' as int + 10
    else 0
  }

  /** mHexStr. */
  function DigitChar(v: nat): (c: char)
    requires v < 16
    ensures IsHexDigit(c) && DigitValue(c) == v && (v < 10 ==> IsDecimalDigit(c)) && (c == '0' <==> v == 0)
  {
    if v < 10 then '0' + v as char else 'A' + (v - 10) as char
  }

  predicate AllDigits(text: seq<char>, radix: Radix) {
    forall k :: 0 <= k < |text| ==> IsDigit(text[k], radix)
  }

  /** The number a text of digits stands for. */
  function Value(text: seq<char>, radix: Radix): nat {
    if text == [] then 0
    else Times(Value(text[..|text| - 1], radix), radix) + DigitValue(text[|text| - 1])
  }

  /** The digits of either case, by their places in a table. */
  lemma DigitsByTable(c: char, v: nat)
    requires v < 16
    ensures DigitChar(v) == "0123456789ABCDEF"[v]
    ensures c == "0123456789ABCDEF"[v] || c == "0123456789abcdef"[v] <==> IsHexDigit(c) && DigitValue(c) == v
    ensures c == "0123456789"[v % 10] <==> IsDecimalDigit(c) && DigitValue(c) == v % 10
  {
    assert "0123456789ABCDEF"[v] == if v < 10 then '0' + v as char else 'A' + (v - 10) as char;
    assert "0123456789abcdef"[v] == if v < 10 then '0' + v as char else 'a' + (v - 10) as char;
    assert "0123456789"[v % 10] == '0' + (v % 10) as char;
  }

  /** Each digit counts as many times as its place says. */
  lemma {:induction false} PlacesCount(text: seq<char>, k: nat, radix: Radix)
    requires k <= |text|
    ensures Value(text, radix) == Value(text[..k], radix) * Power(radix, |text| - k) + Value(text[k..], radix)
    ensures Power(radix, |text| - k) == if k == |text| then 1 else Power(radix, |text| - k - 1) * radix
    decreases |text|
  {
    if k < |text| {
      var n := |text| - 1;
      PlacesCount(text[..n], k, radix);
      assert text[..n][..k] == text[..k] && text[k..][..n - k] == text[k..n] == text[..n][k..];
      Multiplies(Value(text[..k], radix), Power(radix, n - k), radix);
    } else {
      assert text[..k] == text && text[k..] == [];
    }
  }

  lemma Multiplies(x: nat, y: nat, radix: Radix)
    ensures x * Times(y, radix) == Times(x * y, radix) && Times(y, radix) == y * radix
  {
  }

  lemma ValueStarts(s: seq<char>, d: nat, radix: Radix)
    requires d <= |s|
    ensures Value(s[d..d], radix) == 0
  {
  }

  lemma ValueNext(s: seq<char>, d: nat, e: nat, radix: Radix)
    requires d <= e < |s|
    ensures Value(s[d..e + 1], radix) == Times(Value(s[d..e], radix), radix) + DigitValue(s[e])
  {
    assert s[d..e + 1][..e - d] == s[d..e];
  }

  lemma {:induction false} ValueGrows(s: seq<char>, d: nat, e: nat, f: nat, radix: Radix)
    requires d <= e <= f <= |s|
    ensures Value(s[d..e], radix) <= Value(s[d..f], radix)
    decreases f
  {
    if e < f {
      ValueGrows(s, d, e, f - 1, radix);
      ValueNext(s, d, f - 1, radix);
    }
  }

  /** Zeros in front of the digits count for nothing. */
  lemma {:induction false} LeadingZeros(s: seq<char>, b: nat, d: nat, e: nat, radix: Radix)
    requires b <= d <= e <= |s|
    requires forall k :: b <= k < d ==> s[k] == '0'
    ensures Value(s[b..e], radix) == Value(s[d..e], radix)
    decreases e
  {
    if b < e {
      ValueNext(s, b, e - 1, radix);
      if d < e {
        LeadingZeros(s, b, d, e - 1, radix);
        ValueNext(s, d, e - 1, radix);
      } else {
        LeadingZeros(s, b, d - 1, e - 1, radix);
      }
    }
  }

  /** The digits of a value, the most significant first. */
  function Digits(v: nat, radix: Radix): (text: seq<char>)
    ensures |text| > 0
  {
    if v < radix then [DigitChar(v)] else Digits(Over(v, radix), radix) + [DigitChar(Rest(v, radix))]
  }

  /** Printing a number and reading its digits gives the number back; no zero leads but that of zero itself. */
  lemma {:induction false} DigitsRead(v: nat, radix: Radix)
    ensures AllDigits(Digits(v, radix), radix) && Value(Digits(v, radix), radix) == v
    ensures v > 0 ==> Digits(v, radix)[0] != '0'
    ensures v == 0 ==> Digits(v, radix) == ['0']
  {
    var text := Digits(v, radix);
    if v < radix {
      assert text[..|text| - 1] == [];
    } else {
      DigitsRead(Over(v, radix), radix);
      assert text[..|text| - 1] == Digits(Over(v, radix), radix);
    }
  }

  function Power(radix: Radix, n: nat): nat {
    if n == 0 then 1 else Times(Power(radix, n - 1), radix)
  }

  lemma {:induction false} DigitsLength(v: nat, radix: Radix, n: nat)
    requires n > 0 && v < Power(radix, n)
    ensures |Digits(v, radix)| <= n
    decreases n
  {
    if v >= radix {
      assert n > 1;
      DigitsLength(Over(v, radix), radix, n - 1);
    }
  }

  lemma LongestDigits(v: nat, radix: Radix)
    requires v <= MAX_UINT64
    ensures |Digits(v, radix)| <= 20
  {
    assert Power(10, 4) == 10000 && Power(16, 4) == 0x10000;
    assert Power(10, 8) == 10000 * 10000 && Power(16, 8) == 0x1_0000_0000;
    assert Power(10, 12) == 10000 * 10000 * 10000 && Power(16, 12) == 0x1_0000_0000_0000;
    assert Power(10, 16) == 10000 * 10000 * 10000 * 10000 && Power(16, 16) == 0x1_0000_0000_0000_0000;
    assert Power(10, 20) == 10000 * 10000 * 10000 * 10000 * 10000 && Power(16, 20) >= 0x1_0000_0000_0000_0000;
    DigitsLength(v, radix, 20);
  }

  // ----- reading -----

  datatype Class = Blank | Zero | Digit(radix: Radix)

  predicate In(c: char, class_: Class) {
    match class_
    case Blank => c == ' ' || c == '\t'
    case Zero => c == '0'
    case Digit(radix) => IsDigit(c, radix)
  }

  /** Where the run of characters of a class that starts at i ends. */
  function RunEnd(s: seq<char>, i: nat, class_: Class): (e: nat)
    requires i <= |s|
    ensures i <= e <= |s|
    ensures forall k :: i <= k < e ==> In(s[k], class_)
    ensures e < |s| ==> !In(s[e], class_)
    decreases |s| - i
  {
    if i < |s| && In(s[i], class_) then RunEnd(s, i + 1, class_) else i
  }

  lemma {:induction false} RunEndIs(s: seq<char>, i: nat, class_: Class, e: nat)
    requires i <= e <= |s| && (forall k :: i <= k < e ==> In(s[k], class_)) && (e < |s| ==> !In(s[e], class_))
    ensures RunEnd(s, i, class_) == e
    decreases e - i
  {
    if i < e {
      RunEndIs(s, i + 1, class_, e);
    }
  }

  predicate IsX(c: char) {
    c == 'x' || c == 'X'
  }

  /** What a reader returns: the value and the number of characters it read. */
  datatype Reading = Reading(status: Status, value: nat, end: nat)

  /** Where blanks end, where the zeros after them end, and where the digits start. */
  function AfterBlanks(s: seq<char>): (b: nat)
    ensures b <= |s|
  {
    RunEnd(s, 0, Blank)
  }

  function AfterZeros(s: seq<char>): (z: nat)
    ensures z <= |s|
  {
    RunEnd(s, AfterBlanks(s), Zero)
  }

  /** The digits would start with an x that no zero leads: nothing is read. */
  predicate StrayX(s: seq<char>, radix: Radix) {
    radix == 16 && AfterZeros(s) < |s| && IsX(s[AfterZeros(s)]) && AfterZeros(s) == AfterBlanks(s)
  }

  function DigitsStart(s: seq<char>, radix: Radix): (d: nat)
    ensures d <= |s|
  {
    if radix == 16 && AfterZeros(s) < |s| && IsX(s[AfterZeros(s)]) then AfterZeros(s) + 1 else AfterZeros(s)
  }

  /** What comes of the digits that start at d: their number if it fits in 64 bits; otherwise the largest that
      does, the reading having stopped at the first digit that is too much. */
  ghost predicate ReadsDigits(s: seq<char>, d: nat, radix: Radix, r: Reading)
    requires d <= |s|
  {
    var e := RunEnd(s, d, Digit(radix));
    if Value(s[d..e], radix) <= MAX_UINT64 then r == Reading(Success, Value(s[d..e], radix), e)
    else
      && r.status == Unsupported && r.value == MAX_UINT64 && d <= r.end < e
      && Value(s[d..r.end], radix) <= MAX_UINT64 < Value(s[d..r.end + 1], radix)
  }

  /** What a reader promises. */
  ghost predicate Reads(s: seq<char>, radix: Radix, r: Reading) {
    if |s| > RSIZE_MAX then r == Reading(InvalidParameter, 0, 0)
    else if StrayX(s, radix) then r == Reading(Success, 0, 0)
    else ReadsDigits(s, DigitsStart(s, radix), radix, r)
  }

  lemma Overflows(data: nat, digit: nat, radix: Radix)
    requires digit < 16
    ensures data > Over(MAX_UINT64 - digit, radix) <==> Times(data, radix) + digit > MAX_UINT64
  {
  }

  /** The loop of a reader over the digits. */
  method ReadDigits(s: seq<char>, d: nat, radix: Radix) returns (r: Reading)
    requires d <= |s|
    ensures ReadsDigits(s, d, radix, r)
  {
    hide Value, Over, Times, DigitValue, IsDigit, RunEnd;
    ValueStarts(s, d, radix);
    ghost var e := RunEnd(s, d, Digit(radix));
    var i := d;
    var data: nat := 0;
    while i < |s| && IsDigit(s[i], radix)
      invariant d <= i <= e
      invariant data == Value(s[d..i], radix) <= MAX_UINT64
    {
      assert In(s[i], Digit(radix));
      ValueNext(s, d, i, radix);
      Overflows(data, DigitValue(s[i]), radix);
      ValueGrows(s, d, i + 1, e, radix);
      if data > Over(MAX_UINT64 - DigitValue(s[i]), radix) {
        return Reading(Unsupported, MAX_UINT64, i);
      }
      data := Times(data, radix) + DigitValue(s[i]);
      i := i + 1;
    }
    return Reading(Success, data, i);
  }

  /** AsciiStrDecimalToUint64S, AsciiStrHexToUint64S and their Unicode and UINTN forms. */
  method ReadNumber(s: seq<char>, radix: Radix) returns (r: Reading)
    requires radix == 16 && s != [] ==> !IsX(s[0])
    ensures Reads(s, radix, r)
  {
    hide ReadsDigits;
    if |s| > RSIZE_MAX {
      return Reading(InvalidParameter, 0, 0);
    }
    var i := 0;
    while i < |s| && (s[i] == ' ' || s[i] == '\t')
      invariant i <= |s| && forall k :: 0 <= k < i ==> In(s[k], Blank)
    {
      i := i + 1;
    }
    RunEndIs(s, 0, Blank, i);
    ghost var b := i;
    while i < |s| && s[i] == '0'
      invariant b <= i <= |s| && forall k :: b <= k < i ==> In(s[k], Zero)
    {
      i := i + 1;
    }
    RunEndIs(s, b, Zero, i);
    if radix == 16 && i < |s| && IsX(s[i]) {
      assert i > b ==> In(s[i - 1], Zero);
      assert i == b > 0 ==> In(s[i - 1], Blank);
      if s[i - 1] != '0' {
        return Reading(Success, 0, 0);
      }
      i := i + 1;
    }
    r := ReadDigits(s, i, radix);
  }

  lemma RunSplits(s: seq<char>, b: nat, radix: Radix)
    requires b <= |s|
    ensures RunEnd(s, RunEnd(s, b, Zero), Digit(radix)) == RunEnd(s, b, Digit(radix))
  {
    RunEndIs(s, b, Digit(radix), RunEnd(s, RunEnd(s, b, Zero), Digit(radix)));
  }

  /** The digits begin with an x, which only zeros may lead. */
  predicate XLeads(s: seq<char>, radix: Radix) {
    radix == 16 && AfterZeros(s) < |s| && IsX(s[AfterZeros(s)])
  }

  /** A text in which no x leads the digits is read as the number of its whole run of digits, zeros in front included,
      exactly when that fits in 64 bits; any other gives the largest number and is not read to the end of the run. */
  lemma WholeRunDecides(s: seq<char>, radix: Radix, r: Reading)
    requires Reads(s, radix, r) && |s| <= RSIZE_MAX && !XLeads(s, radix)
    ensures var b, e := AfterBlanks(s), RunEnd(s, AfterBlanks(s), Digit(radix));
            if Value(s[b..e], radix) < 0x1_0000_0000_0000_0000 then r == Reading(Success, Value(s[b..e], radix), e)
            else r.status == Unsupported && r.value == 0xFFFF_FFFF_FFFF_FFFF && b <= r.end < e
  {
    hide Value, Reads;
    var b, z := AfterBlanks(s), AfterZeros(s);
    RunSplits(s, b, radix);
    LeadingZeros(s, b, z, RunEnd(s, b, Digit(radix)), radix);
    ReadsFrom(s, radix, r);
  }

  /** With an x in front, the same holds of the run behind the x; but nothing is read when no zero leads the x. */
  lemma RunBehindXDecides(s: seq<char>, r: Reading)
    requires Reads(s, 16, r) && |s| <= RSIZE_MAX && XLeads(s, 16)
    ensures var d, e := AfterZeros(s) + 1, RunEnd(s, AfterZeros(s) + 1, Digit(16));
            if AfterZeros(s) == AfterBlanks(s) then r == Reading(Success, 0, 0)
            else if Value(s[d..e], 16) < 0x1_0000_0000_0000_0000 then r == Reading(Success, Value(s[d..e], 16), e)
            else r.status == Unsupported && r.value == 0xFFFF_FFFF_FFFF_FFFF && d <= r.end < e
  {
  }

  lemma ReadsFrom(s: seq<char>, radix: Radix, r: Reading)
    requires Reads(s, radix, r) && |s| <= RSIZE_MAX && !XLeads(s, radix)
    ensures ReadsDigits(s, AfterZeros(s), radix, r)
  {
    hide ReadsDigits;
  }

  // ----- upper and lower case -----

  /** The letters in lower case. */
  function Lower(s: seq<char>): (t: seq<char>)
    ensures |t| == |s|
  {
    seq(|s|, k requires 0 <= k < |s| =>
      if 'A' <= s[k] <= 'Z' then (s[k] as int - 'A' as int + 'a' as int) as char else s[k])
  }

  predicate SameButCase(s: seq<char>, t: seq<char>) {
    Lower(s) == Lower(t)
  }

  lemma LowerIsSame(s: seq<char>)
    ensures SameButCase(Lower(s), s)
  {
    assert Lower(Lower(s)) == Lower(s);
  }

  lemma SameCharacters(s: seq<char>, t: seq<char>)
    requires SameButCase(s, t)
    ensures |s| == |t|
    ensures forall k, class_ :: 0 <= k < |s| ==> (In(s[k], class_) <==> In(t[k], class_))
    ensures forall k :: 0 <= k < |s| ==> (IsX(s[k]) <==> IsX(t[k])) && DigitValue(s[k]) == DigitValue(t[k])
  {
    assert |s| == |Lower(s)| == |Lower(t)| == |t|;
    forall k | 0 <= k < |s|
      ensures forall class_ :: In(s[k], class_) <==> In(t[k], class_)
      ensures (IsX(s[k]) <==> IsX(t[k])) && DigitValue(s[k]) == DigitValue(t[k])
    {
      assert Lower(s)[k] == Lower(t)[k];
    }
  }

  lemma PartsButCase(s: seq<char>, t: seq<char>, i: nat, j: nat)
    requires SameButCase(s, t) && i <= j <= |s|
    ensures |s| == |t| && SameButCase(s[i..j], t[i..j])
  {
    assert |s| == |Lower(s)| == |Lower(t)| == |t|;
    assert Lower(s[i..j]) == Lower(s)[i..j] && Lower(t[i..j]) == Lower(t)[i..j];
  }

  /** The number of a text of digits does not depend on the case of its letters. */
  lemma {:induction false} ValueIgnoresCase(s: seq<char>, t: seq<char>, radix: Radix)
    requires SameButCase(s, t)
    ensures Value(s, radix) == Value(t, radix)
    decreases |s|
  {
    SameCharacters(s, t);
    if s != [] {
      var n := |s| - 1;
      PartsButCase(s, t, 0, n);
      assert s[0..n] == s[..n] && t[0..n] == t[..n];
      ValueIgnoresCase(s[..n], t[..n], radix);
    }
  }

  lemma RunIgnoresCase(s: seq<char>, t: seq<char>, i: nat, class_: Class)
    requires SameButCase(s, t) && i <= |s|
    ensures |s| == |t| && RunEnd(s, i, class_) == RunEnd(t, i, class_)
  {
    SameCharacters(s, t);
    RunEndIs(s, i, class_, RunEnd(t, i, class_));
  }

  lemma StartIgnoresCase(s: seq<char>, t: seq<char>, radix: Radix)
    requires SameButCase(s, t)
    ensures |s| == |t| && AfterBlanks(s) == AfterBlanks(t) && AfterZeros(s) == AfterZeros(t)
    ensures DigitsStart(s, radix) == DigitsStart(t, radix) && (StrayX(s, radix) <==> StrayX(t, radix))
  {
    SameCharacters(s, t);
    RunIgnoresCase(s, t, 0, Blank);
    RunIgnoresCase(s, t, AfterBlanks(s), Zero);
  }

  lemma SliceIgnoresCase(s: seq<char>, t: seq<char>, i: nat, j: nat, radix: Radix)
    requires SameButCase(s, t) && i <= j <= |s|
    ensures |s| == |t| && Value(s[i..j], radix) == Value(t[i..j], radix)
  {
    PartsButCase(s, t, i, j);
    ValueIgnoresCase(s[i..j], t[i..j], radix);
  }

  /** What a reader promises does not depend on the case of the letters, an x included. */
  lemma ReadsIgnoresCase(s: seq<char>, t: seq<char>, radix: Radix, r: Reading)
    requires SameButCase(s, t) && Reads(s, radix, r)
    ensures Reads(t, radix, r)
  {
    hide Value, RunEnd, Lower;
    StartIgnoresCase(s, t, radix);
    if |s| <= RSIZE_MAX && !StrayX(s, radix) {
      var d := DigitsStart(s, radix);
      RunIgnoresCase(s, t, d, Digit(radix));
      var e := RunEnd(s, d, Digit(radix));
      SliceIgnoresCase(s, t, d, e, radix);
      if Value(s[d..e], radix) > MAX_UINT64 {
        SliceIgnoresCase(s, t, d, r.end, radix);
        SliceIgnoresCase(s, t, d, r.end + 1, radix);
      }
    }
  }

  /** Blanks, zeros, and behind a zero an x: what may stand in front of the digits. */
  ghost predicate Leads(blanks: seq<char>, zeros: seq<char>, x: seq<char>, radix: Radix) {
    && (forall k :: 0 <= k < |blanks| ==> blanks[k] == ' ' || blanks[k] == '\t')
    && (forall k :: 0 <= k < |zeros| ==> zeros[k] == '0')
    && (x == [] || (radix == 16 && zeros != [] && (x == ['x'] || x == ['X'])))
  }

  /** A character that goes on with neither the digits nor an x. */
  predicate Stops(c: char, radix: Radix) {
    c !in "0123456789xX" && (radix == 16 ==> c !in "ABCDEFabcdef")
  }

  /** The runs that a reader meets in such a text. */
  lemma SpelledRuns(blanks: seq<char>, zeros: seq<char>, x: seq<char>, radix: Radix, digits: seq<char>,
                    rest: seq<char>)
    requires Leads(blanks, zeros, x, radix) && (rest == [] || Stops(rest[0], radix))
    requires digits != [] && forall k :: 0 <= k < |digits| ==> In(digits[k], Digit(radix))
    ensures var s, e := blanks + zeros + x + digits + rest, |blanks + zeros + x + digits|;
            && AfterBlanks(s) == |blanks| && (XLeads(s, radix) <==> x != [])
            && (if x != [] then AfterZeros(s) == |blanks + zeros| && RunEnd(s, |blanks + zeros + x|, Digit(radix)) == e
                else RunEnd(s, |blanks|, Digit(radix)) == e)
  {
    hide RunEnd;
    var text := blanks + zeros + x + digits;
    var s, b, z, d, e := text + rest, |blanks|, |blanks + zeros|, |blanks + zeros + x|, |text|;
    forall k | d <= k < e ensures In(s[k], Digit(radix)) && !IsX(s[k]) && !In(s[k], Blank) {
      assert s[k] == digits[k - d];
    }
    forall k | b <= k < z ensures s[k] == '0' && In(s[k], Digit(radix)) {
      assert s[k] == zeros[k - b];
    }
    forall k | 0 <= k < b ensures In(s[k], Blank) {
      assert s[k] == blanks[k];
    }
    assert e < |s| ==> s[e] == rest[0];
    RunEndIs(s, 0, Blank, b);
    if x != [] {
      assert s[z] == x[0];
      RunEndIs(s, b, Zero, z);
      RunEndIs(s, d, Digit(radix), e);
    } else {
      RunEndIs(s, b, Digit(radix), e);
      RunSplits(s, b, radix);
    }
  }

  /** Every usual spelling of a number is read: blanks, leading zeros, "0x" for hexadecimal, digits of either case or
      mixed; to its end and no further, and exactly when the number fits in 64 bits. */
  lemma SpelledNumberReads(blanks: seq<char>, zeros: seq<char>, x: seq<char>, v: nat, radix: Radix, digits: seq<char>,
                           rest: seq<char>, r: Reading)
    requires Leads(blanks, zeros, x, radix) && SameButCase(digits, Digits(v, radix))
    requires rest == [] || Stops(rest[0], radix)
    requires |blanks + zeros + x + digits + rest| <= 0x1000000
    requires Reads(blanks + zeros + x + digits + rest, radix, r)
    ensures if v < 0x1_0000_0000_0000_0000 then r == Reading(Success, v, |blanks + zeros + x + digits|)
            else r.status == Unsupported && r.value == 0xFFFF_FFFF_FFFF_FFFF
  {
    hide Digits, Value, Lower, Reads, RunEnd, In, Stops, XLeads, AfterBlanks, AfterZeros;
    var text := blanks + zeros + x + digits;
    var s, b, e := text + rest, |blanks|, |text|;
    var z, d := |blanks + zeros|, |blanks + zeros + x|;
    SpelledDigits(digits, v, radix);
    SpelledRuns(blanks, zeros, x, radix, digits, rest);
    assert s[d..e] == digits;
    ValueIgnoresCase(digits, Digits(v, radix), radix);
    DigitsRead(v, radix);
    if x != [] {
      RunBehindXDecides(s, r);
    } else {
      WholeRunDecides(s, radix, r);
      ZerosLie(blanks, zeros, digits + rest);
      assert s == blanks + zeros + (digits + rest);
      LeadingZeros(s, b, z, e, radix);
    }
  }

  lemma ZerosLie(blanks: seq<char>, zeros: seq<char>, tail: seq<char>)
    requires forall k :: 0 <= k < |zeros| ==> zeros[k] == '0'
    ensures forall k :: |blanks| <= k < |blanks + zeros| ==> (blanks + zeros + tail)[k] == '0'
  {
  }

  lemma SpelledDigits(digits: seq<char>, v: nat, radix: Radix)
    requires SameButCase(digits, Digits(v, radix))
    ensures digits != [] && forall k :: 0 <= k < |digits| ==> In(digits[k], Digit(radix))
  {
    hide Digits, Lower;
    DigitsRead(v, radix);
    SameCharacters(digits, Digits(v, radix));
    forall k | 0 <= k < |digits| ensures In(digits[k], Digit(radix)) {
      assert IsDigit(Digits(v, radix)[k], radix);
    }
  }

  /** Reading the digits that were printed gives the value back, whatever non-digit follows them. */
  lemma PrintedNumberReads(v: nat, radix: Radix, rest: seq<char>, r: Reading)
    requires v <= MAX_UINT64
    requires rest == [] || (!IsDigit(rest[0], radix) && !IsX(rest[0]))
    requires |Digits(v, radix) + rest| <= RSIZE_MAX
    requires Reads(Digits(v, radix) + rest, radix, r)
    ensures r == Reading(Success, v, |Digits(v, radix)|)
  {
    hide Digits, Value;
    var text := Digits(v, radix);
    var s, z := text + rest, if v == 0 then 1 else 0;
    DigitsRead(v, radix);
    forall k | 0 <= k < |text| ensures In(s[k], Digit(radix)) && !IsX(s[k]) && !In(s[k], Blank) {
      assert IsDigit(text[k], radix);
    }
    RunEndIs(s, 0, Blank, 0);
    RunEndIs(s, 0, Zero, z);
    RunEndIs(s, z, Digit(radix), |text|);
    LeadingZeros(s, 0, z, |text|, radix);
    assert s[0..|text|] == text;
  }

  /** So does reading them behind any number of zeros. */
  lemma ZerosThenDigitsRead(v: nat, radix: Radix, zeros: seq<char>, r: Reading)
    requires v <= MAX_UINT64 && (forall k :: 0 <= k < |zeros| ==> zeros[k] == '0')
    requires |zeros + Digits(v, radix)| <= RSIZE_MAX && Reads(zeros + Digits(v, radix), radix, r)
    ensures r == Reading(Success, v, |zeros + Digits(v, radix)|)
  {
    hide Digits, Value, Lower, Reads;
    var digits := Digits(v, radix);
    assert [] + zeros + [] + digits + [] == zeros + digits == [] + zeros + [] + digits;
    SpelledNumberReads([], zeros, [], v, radix, digits, [], r);
  }
}
