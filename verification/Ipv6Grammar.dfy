/** The texts that StrToIpv6Address accepts, as a grammar, and the addresses they stand for. */
module Ipv6Grammar {
  import opened NumberText
  import opened Ipv6Text

  type Text = seq<char>

  /** Groups before the "::" or all eight of them, whether there is a "::", groups after it, and the digits of
      the prefix length, none when there is no "/". */
  datatype AddressText = AddressText(before: seq<Text>, compressed: bool, after: seq<Text>, prefix: Text)

  /** A spelling of a group: up to four characters that the hexadecimal reader takes whole, "0x" among them. */
  predicate IsGroup(g: Text) {
    StartsGroup(g) && NumberEnd(g, 16) == |g|
  }

  predicate IsPrefix(p: Text) {
    StartsPrefix(p) && NumberEnd(p, 10) == |p|
  }

  predicate AreGroups(gs: seq<Text>) {
    forall k :: 0 <= k < |gs| ==> IsGroup(gs[k])
  }

  predicate WellFormed(t: AddressText) {
    && AreGroups(t.before) && AreGroups(t.after)
    && (if t.compressed then |t.before| + |t.after| < 8 else |t.before| == 8 && t.after == [])
    && (t.prefix != [] ==> IsPrefix(t.prefix))
  }

  function Joined(gs: seq<Text>): Text {
    if gs == [] then []
    else if |gs| == 1 then gs[0]
    else Joined(gs[..|gs| - 1]) + [':'] + gs[|gs| - 1]
  }

  function Colons(t: AddressText): Text {
    if t.compressed then [':', ':'] + Joined(t.after) else []
  }

  function Slash(t: AddressText): Text {
    if t.prefix == [] then [] else ['/'] + t.prefix
  }

  function Rendered(t: AddressText): Text {
    Joined(t.before) + Colons(t) + Slash(t)
  }

  function WordOf(g: Text): Word {
    if StartsGroup(g) then GroupIn(g) else 0
  }

  function Words(gs: seq<Text>): (words: seq<Word>)
    ensures |words| == |gs|
  {
    seq(|gs|, k requires 0 <= k < |gs| => WordOf(gs[k]))
  }

  /** The bytes the text stands for. */
  function Meaning(t: AddressText): seq<Byte>
    requires WellFormed(t)
  {
    Bytes(Words(t.before)) + Zeros(16 - 2 * (|t.before| + |t.after|)) + Bytes(Words(t.after))
  }

  function PrefixLength(t: AddressText): nat {
    if t.prefix == [] then MAX_UINT8 else NumberIn(t.prefix, 10)
  }

  // ----- parts of texts and places of the parser -----

  lemma SliceOfPart(t: Text, d: nat, e: nat)
    requires d <= e <= |t|
    ensures t[..e][d..e] == t[d..e]
  {
  }

  /** A number is the same in a text that goes on behind it or stops there. */
  lemma NumberOfPart(t: Text, e: nat, radix: Radix)
    requires t != [] && IsHexDigit(t[0]) && e == NumberEnd(t, radix) && e > 0
    ensures e <= |t| && NumberEnd(t[..e], radix) == e && NumberIn(t[..e], radix) == NumberIn(t, radix)
  {
    var g, z, d := t[..e], AfterZeros(t), DigitsStart(t, radix);
    RunEndIs(t, 0, Blank, 0);
    RunEndIs(g, 0, Blank, 0);
    RunEndIs(g, 0, Zero, z);
    RunEndIs(g, d, Digit(radix), e);
    SliceOfPart(t, d, e);
  }

  /** The text without its prefix length. */
  function Closed(u: AddressText): Text {
    Joined(u.before) + Colons(u)
  }

  /** The colon that lets another group follow. */
  function Tail(u: AddressText): Text {
    if (if u.compressed then u.after else u.before) == [] then [] else [':']
  }

  function Open(u: AddressText): Text {
    Closed(u) + Tail(u)
  }

  function AllWords(u: AddressText): seq<Word> {
    Words(u.before + u.after)
  }

  function Compress(u: AddressText): int {
    if u.compressed then |u.before| else NO_COMPRESSION
  }

  /** The parser when it has read so much and n characters in all. */
  function Place(u: AddressText, n: nat, expectPrefix: bool): Progress {
    Progress(n, AllWords(u), Compress(u), expectPrefix)
  }

  /** The part of a text the parser has read at some time: its prefix length is still to come. */
  predicate Partial(u: AddressText) {
    && AreGroups(u.before) && AreGroups(u.after) && u.prefix == [] && (!u.compressed ==> u.after == [])
    && |u.before| + |u.after| <= 8 && (u.compressed ==> |u.before| < 8)
  }

  function Extended(u: AddressText, g: Text): AddressText {
    if u.compressed then u.(after := u.after + [g]) else u.(before := u.before + [g])
  }

  lemma JoinedNext(gs: seq<Text>, g: Text)
    ensures Joined(gs + [g]) == Joined(gs) + (if gs == [] then [] else [':']) + g
  {
    assert (gs + [g])[..|gs|] == gs;
  }

  lemma ExtendedText(u: AddressText, g: Text)
    requires !u.compressed ==> u.after == []
    ensures Closed(Extended(u, g)) == Open(u) + g
  {
    hide Joined;
    JoinedNext(u.before, g);
    JoinedNext(u.after, g);
    if u.compressed {
      assert Joined(u.before) + ([':', ':'] + Joined(u.after + [g]))
             == Joined(u.before) + ([':', ':'] + Joined(u.after)) + Tail(u) + g;
    }
  }

  lemma ExtendedIs(u: AddressText, g: Text)
    requires Partial(u) && IsGroup(g) && |u.before| + |u.after| < 8
    ensures Partial(Extended(u, g)) && Closed(Extended(u, g)) == Open(u) + g
    ensures AllWords(Extended(u, g)) == AllWords(u) + [GroupIn(g)] && Compress(Extended(u, g)) == Compress(u)
  {
    hide Closed, Open, NumberEnd, GroupIn;
    ExtendedText(u, g);
    assert Extended(u, g).before + Extended(u, g).after == u.before + u.after + [g];
    assert WordOf(g) == GroupIn(g);
  }

  /** Reading a group takes the parser from behind the colon to behind the group. */
  lemma BodyReadsGroup(s: Text, u: AddressText, g: Text)
    requires Partial(u) && |u.before| + |u.after| < 8 && Open(u) + g <= s
    requires var t := s[|Open(u)|..]; StartsGroup(t) && NumberEnd(t, 16) == |g|
    ensures IsGroup(g) && Partial(Extended(u, g)) && Closed(Extended(u, g)) == Open(u) + g
    ensures Body(s, Place(u, |Open(u)|, false)) == Skip(s, Place(Extended(u, g), |Closed(Extended(u, g))|, false))
  {
    hide NumberEnd, NumberIn, Skip, Closed, Open, AllWords, Extended, Partial, IsHexDigit;
    var t := s[|Open(u)|..];
    assert t[..|g|] == g && t[0] == CharAt(s, |Open(u)|);
    NumberEndPositive(t);
    NumberOfPart(t, |g|, 16);
    ExtendedIs(u, g);
  }

  lemma NumberEndPositive(t: Text)
    requires t != [] && IsHexDigit(t[0])
    ensures NumberEnd(t, 16) > 0
  {
    RunEndIs(t, 0, Blank, 0);
  }

  /** What the parser makes of the character behind a group. */
  lemma SkipReads(s: Text, u: AddressText)
    requires Partial(u) && Closed(u) <= s && (if u.compressed then u.after else u.before) != []
    ensures var c, step := CharAt(s, |Closed(u)|), Skip(s, Place(u, |Closed(u)|, false));
            if c == '/' then step == Next(Place(u, |Closed(u)| + 1, true)) && Closed(u) + ['/'] <= s
            else if c == ':' && |u.before| + |u.after| < 8 then step == Next(Place(u, |Open(u)|, false)) && Open(u) <= s
            else step == Done(AllWords(u), Compress(u), MAX_UINT8, |Closed(u)|)
  {
  }

  // ----- what the parser accepts is a text of the grammar -----

  /** The parser stands behind this part of a text, at a group or at the digits of the prefix length. */
  ghost predicate Stands(s: Text, p: Progress, u: AddressText) {
    && Partial(u)
    && if p.expectPrefix then Closed(u) + ['/'] <= s && p == Place(u, |Closed(u)| + 1, true)
       else Open(u) <= s && p == Place(u, |Open(u)|, false) && |u.before| + |u.after| < 8
  }

  /** The parser has come to the end of this text. */
  ghost predicate Ends(s: Text, step: Step, t: AddressText)
    requires step.Done?
  {
    && Partial(t.(prefix := [])) && (t.prefix != [] ==> IsPrefix(t.prefix))
    && Rendered(t) <= s && step == Done(AllWords(t), Compress(t), PrefixLength(t), |Rendered(t)|)
  }

  ghost predicate Follows(s: Text, step: Step, t: AddressText) {
    match step
    case Next(p) => Stands(s, p, t)
    case Done(_, _, _, _) => Ends(s, step, t)
    case Refuse => true
  }

  lemma SkipFollows(s: Text, u: AddressText)
    requires Partial(u) && Closed(u) <= s && (if u.compressed then u.after else u.before) != []
    ensures Follows(s, Skip(s, Place(u, |Closed(u)|, false)), u)
  {
    SkipReads(s, u);
    assert Closed(u) + [] == Closed(u);
    assert Rendered(u) == Closed(u) + Slash(u);
  }

  lemma BodyFollows(s: Text, u: AddressText) returns (v: AddressText)
    requires Partial(u) && |u.before| + |u.after| < 8 && Open(u) <= s
    requires IsHexDigit(CharAt(s, |Open(u)|)) || (u.compressed && u.after == [])
    ensures Follows(s, Body(s, Place(u, |Open(u)|, false)), v)
  {
    hide NumberEnd, StartsGroup;
    var at := |Open(u)|;
    v := u;
    if IsHexDigit(CharAt(s, at)) {
      if StartsGroup(s[at..]) {
        hide *;
        v := GroupFollows(s, u);
      }
    } else {
      assert Open(u) == Closed(u) == Closed(u) + [];
      assert Rendered(u) == Closed(u) + Slash(u);
    }
  }

  lemma GroupFollows(s: Text, u: AddressText) returns (v: AddressText)
    requires Partial(u) && |u.before| + |u.after| < 8 && Open(u) <= s && StartsGroup(s[|Open(u)|..])
    ensures Follows(s, Body(s, Place(u, |Open(u)|, false)), v)
  {
    hide NumberEnd, StartsGroup, Follows, Skip, Body, Closed, Open, Partial;
    var t := s[|Open(u)|..];
    EndInside(t);
    var g := t[..NumberEnd(t, 16)];
    PrefixThen(Open(u), g, s);
    BodyReadsGroup(s, u, g);
    v := Extended(u, g);
    SkipFollows(s, v);
  }

  lemma EndInside(t: Text)
    requires StartsGroup(t)
    ensures NumberEnd(t, 16) <= |t|
  {
  }

  lemma PrefixThen(x: Text, y: Text, s: Text)
    requires x <= s && y <= s[|x|..]
    ensures x + y <= s
  {
  }

  lemma PrefixFollows(s: Text, u: AddressText) returns (v: AddressText)
    requires Partial(u) && Closed(u) + ['/'] <= s && StartsPrefix(s[|Closed(u)| + 1..])
    ensures Follows(s, Body(s, Place(u, |Closed(u)| + 1, true)), v)
  {
    hide NumberEnd, NumberIn, Closed, Rendered, Partial;
    var t := s[|Closed(u)| + 1..];
    var e := NumberEnd(t, 10);
    assert t[0] == CharAt(s, |Closed(u)| + 1);
    NumberOfPart(t, e, 10);
    v := u.(prefix := t[..e]);
    PartialPrefix(u);
    SlashRendered(u, t[..e]);
    assert v.(prefix := []) == u;
  }

  lemma PartialPrefix(u: AddressText)
    requires Partial(u)
    ensures u.prefix == []
  {
  }

  lemma SlashRendered(u: AddressText, digits: Text)
    requires digits != [] && u.prefix == []
    ensures Rendered(u.(prefix := digits)) == Closed(u) + ['/'] + digits
  {
    assert Closed(u) + (['/'] + digits) == Closed(u) + ['/'] + digits;
  }

  lemma StepFollows(s: Text, p: Progress, u: AddressText) returns (v: AddressText)
    requires p.Valid(s) && Stands(s, p, u)
    ensures Follows(s, Advance(s, p), v)
  {
    hide StartsGroup, StartsPrefix, Follows, NumberEnd, NumberIn, Skip;
    v := u;
    if IsHexDigit(CharAt(s, p.at)) {
      if p.expectPrefix {
        if StartsPrefix(s[p.at..]) {
          v := PrefixFollows(s, u);
        } else {
          RefuseFollows(s, u);
        }
      } else {
        v := BodyFollows(s, u);
      }
    } else if Advance(s, p) == Refuse {
      RefuseFollows(s, u);
    } else {
      var w := u.(compressed := true);
      CompressedPlace(s, u);
      v := BodyFollows(s, w);
    }
  }

  lemma RefuseFollows(s: Text, v: AddressText)
    ensures Follows(s, Refuse, v)
  {
  }

  /** Reading the second colon of "::", or both when the text starts with them. */
  lemma CompressedPlace(s: Text, u: AddressText)
    requires Partial(u) && !u.compressed && |u.before| < 8 && Open(u) <= s && CharAt(s, |Open(u)|) == ':'
    requires u.before == [] ==> CharAt(s, 1) == ':'
    ensures var w := u.(compressed := true);
            && Partial(w) && Open(w) <= s && AllWords(w) == AllWords(u) && Compress(w) == |u.before|
            && |Open(w)| == |Open(u)| + if u.before == [] then 2 else 1
  {
    var w := u.(compressed := true);
    assert Open(w) == Joined(u.before) + [':', ':'];
  }

  lemma {:induction false} RunFollows(s: Text, p: Progress, u: AddressText) returns (t: AddressText, step: Step)
    requires p.Valid(s) && Stands(s, p, u) && Parse(s, p).Accepted?
    ensures step.Done? && Ends(s, step, t) && Moves(s, 0, step) && Parse(s, p) == Outcome(s, 0, step)
    decreases |s| - p.at
  {
    hide Stands, Advance, Ends;
    AdvanceMoves(s, p);
    ParseStep(s, p);
    t := StepFollows(s, p, u);
    step := Advance(s, p);
    if step.Next? {
      t, step := RunFollows(s, step.progress, t);
    }
  }

  lemma EndsMeans(s: Text, step: Step, t: AddressText)
    requires step.Done? && Ends(s, step, t) && Complete(step.words, step.compress)
    ensures WellFormed(t) && (var c := if step.compress == NO_COMPRESSION then 8 else step.compress;
              c <= |step.words| <= 8 && Address(step.words, c) == Meaning(t))
  {
    hide Rendered, IsPrefix, IsGroup, StartsGroup;
    var c := if step.compress == NO_COMPRESSION then 8 else step.compress;
    assert AllWords(t)[..c] == Words(t.before);
    assert AllWords(t)[c..] == Words(t.after);
  }

  /** Whatever StrToIpv6Address accepts starts with a text of the grammar, and the address and the prefix length
      it returns are the ones that text stands for. */
  lemma AcceptedIsText(s: Text) returns (t: AddressText)
    ensures Parse(s, START).Accepted? ==>
              && WellFormed(t) && Rendered(t) <= s
              && Parse(s, START) == Accepted(Meaning(t), PrefixLength(t), |Rendered(t)|)
              && (if t.prefix == [] then PrefixLength(t) == 255 else PrefixLength(t) <= 128)
  {
    if Parse(s, START).Accepted? {
      t := ReadText(s);
    } else {
      t := AddressText([], false, [], []);
    }
  }

  lemma ReadText(s: Text) returns (t: AddressText)
    requires Parse(s, START).Accepted?
    ensures WellFormed(t) && Rendered(t) <= s
    ensures Parse(s, START) == Accepted(Meaning(t), PrefixLength(t), |Rendered(t)|)
  {
    var nothing := AddressText([], false, [], []);
    assert Stands(s, START, nothing);
    var step;
    t, step := RunFollows(s, START, nothing);
    EndsMeans(s, step, t);
  }

  // ----- every text of the grammar is accepted -----

  /** The group ends there: what follows it is neither a digit nor an x that would belong to it. */
  predicate GroupEnds(g: Text, rest: Text) {
    NumberEnd(g + rest, 16) == |g|
  }

  /** What follows the text is not taken for a part of it. */
  predicate StopsBehind(t: AddressText, rest: Text) {
    var c, groups := CharAt(rest, 0), if t.compressed then t.after else t.before;
    && |Rendered(t) + rest| <= RSIZE_MAX
    && if t.prefix != [] then !IsDecimalDigit(c)
       else
         && c != '/'
         && (groups == [] ==> !IsHexDigit(c))
         && (groups != [] ==> GroupEnds(groups[|groups| - 1], rest) && (t.compressed ==> c != ':'))
  }

  /** Parsing comes down to the rest of a pass behind this part of the text. */
  ghost predicate Reached(s: Text, u: AddressText) {
    && Partial(u) && |u.before| + |u.after| < 8 && Open(u) <= s
    && var step := Body(s, Place(u, |Open(u)|, false));
       Moves(s, 0, step) && Parse(s, START) == Outcome(s, 0, step)
  }

  /** Parsing comes down to the passes behind this part of the text. */
  ghost predicate Between(s: Text, u: AddressText) {
    && Partial(u) && |u.before| + |u.after| < 8 && Open(u) <= s
    && Parse(s, START) == Parse(s, Place(u, |Open(u)|, false))
  }

  lemma GroupEndsBefore(g: Text, rest: Text)
    requires IsGroup(g) && (rest == [] || (!IsHexDigit(rest[0]) && !IsX(rest[0])))
    ensures GroupEnds(g, rest)
  {
    var s, z, d := g + rest, AfterZeros(g), DigitsStart(g, 16);
    RunEndIs(g, 0, Blank, 0);
    RunEndIs(s, 0, Blank, 0);
    RunEndIs(s, 0, Zero, z);
    RunEndIs(s, d, Digit(16), |g|);
  }

  lemma ReachGroup(s: Text, u: AddressText)
    requires Between(s, u) && IsHexDigit(CharAt(s, |Open(u)|))
    ensures Reached(s, u)
  {
    hide Body;
    var p := Place(u, |Open(u)|, false);
    ParseStep(s, p);
    assert Advance(s, p) == Body(s, p);
  }

  lemma SecondColon(s: Text, u: AddressText)
    requires !u.compressed && Partial(u) && Open(u.(compressed := true)) <= s
    ensures CharAt(s, |Open(u)|) == ':' && (u.before == [] ==> Open(u) == [] && CharAt(s, 1) == ':')
    ensures |Open(u.(compressed := true))| == |Open(u)| + if u.before == [] then 2 else 1
    ensures AllWords(u.(compressed := true)) == AllWords(u)
  {
    hide Joined;
    NoneJoined();
    assert Open(u.(compressed := true)) == Joined(u.before) + [':', ':'];
  }

  lemma ReachCompressed(s: Text, u: AddressText)
    requires Between(s, u) && !u.compressed && Open(u.(compressed := true)) <= s
    ensures Reached(s, u.(compressed := true))
  {
    hide Body, Parse, Open;
    var p, w := Place(u, |Open(u)|, false), u.(compressed := true);
    ParseStep(s, p);
    SecondColon(s, u);
    assert Advance(s, p) == Body(s, Place(w, |Open(w)|, false));
  }

  /** The last group of a part, whatever follows. */
  lemma ReadGroup(s: Text, u: AddressText, g: Text)
    requires Reached(s, u) && IsGroup(g) && Closed(Extended(u, g)) <= s && |s| <= RSIZE_MAX
    requires GroupEnds(g, s[|Closed(Extended(u, g))|..])
    ensures Partial(Extended(u, g))
    ensures var step := Skip(s, Place(Extended(u, g), |Closed(Extended(u, g))|, false));
            Moves(s, 0, step) && Parse(s, START) == Outcome(s, 0, step)
  {
    hide NumberEnd, Body, Skip, Parse, Moves, Outcome, Closed, Open;
    ExtendedIs(u, g);
    var v, t := Extended(u, g), s[|Open(u)|..];
    assert Open(u) + g <= s && t == g + s[|Closed(v)|..];
    assert t[0] == g[0];
    BodyReadsGroup(s, u, g);
  }

  /** A group with a colon behind it. */
  lemma ReadGroupAndColon(s: Text, u: AddressText, g: Text)
    requires Reached(s, u) && IsGroup(g) && Open(Extended(u, g)) <= s && |s| <= RSIZE_MAX && |u.before| + |u.after| < 7
    ensures Between(s, Extended(u, g))
  {
    hide Body, Parse, Reached;
    var v := Extended(u, g);
    var rest := s[|Closed(v)|..];
    assert Open(v) == Closed(v) + [':'];
    assert rest[0] == ':';
    GroupEndsBefore(g, rest);
    ReadGroup(s, u, g);
    SkipReads(s, v);
  }

  /** The first i groups and the colon behind them start the joined groups. */
  lemma {:induction false} JoinedStarts(gs: seq<Text>, i: nat)
    requires i < |gs|
    ensures Joined(gs[..i]) + (if i == 0 then [] else [':']) + gs[i] <= Joined(gs)
    decreases |gs|
  {
    var n := |gs| - 1;
    if i < n {
      JoinedStarts(gs[..n], i);
      assert gs[..n][..i] == gs[..i];
    } else if i == 0 {
      assert gs[..0] == [];
    }
  }

  /** The text with only the first i groups in front, or only the first j of those behind the "::". */
  function Front(t: AddressText, i: nat): AddressText
    requires i <= |t.before|
  {
    AddressText(t.before[..i], false, [], [])
  }

  function Back(t: AddressText, j: nat): AddressText
    requires j <= |t.after|
  {
    AddressText(t.before, true, t.after[..j], [])
  }

  lemma FrontStarts(t: AddressText, i: nat)
    requires WellFormed(t) && i < |t.before|
    ensures Open(Front(t, i)) + t.before[i] <= Rendered(t) && Extended(Front(t, i), t.before[i]) == Front(t, i + 1)
  {
    hide WellFormed;
    JoinedStarts(t.before, i);
    assert Open(Front(t, i)) == Joined(t.before[..i]) + if i == 0 then [] else [':'];
    assert t.before[..i] + [t.before[i]] == t.before[..i + 1];
  }

  lemma BackStarts(t: AddressText, j: nat)
    requires WellFormed(t) && j < |t.after|
    ensures Open(Back(t, j)) + t.after[j] <= Rendered(t) && Extended(Back(t, j), t.after[j]) == Back(t, j + 1)
  {
    hide WellFormed, Joined, IsGroup;
    CompressedIfAfter(t);
    JoinedStarts(t.after, j);
    var tail: Text := if j == 0 then [] else [':'];
    var head, front := Joined(t.before) + [':', ':'], Joined(t.after[..j]);
    assert |t.after[..j]| == j;
    Regrouped(Joined(t.before), [':', ':'], front, tail, t.after[j]);
    Regrouped(Joined(t.before), [':', ':'], Joined(t.after), [], []);
    PrefixInside(head, front + tail + t.after[j], Joined(t.after), Slash(t));
    assert t.after[..j] + [t.after[j]] == t.after[..j + 1];
  }

  lemma Regrouped(a: Text, b: Text, c: Text, d: Text, e: Text)
    ensures a + (b + c) == a + b + c && a + (b + c) + d + e == a + b + (c + d + e)
  {
  }

  lemma PrefixInside(head: Text, x: Text, y: Text, tail: Text)
    requires x <= y
    ensures head + x <= head + y + tail
  {
  }

  lemma CompressedIfAfter(t: AddressText)
    requires WellFormed(t) && t.after != []
    ensures t.compressed
  {
  }

  lemma NothingIsRead(s: Text, t: AddressText)
    ensures Between(s, Front(t, 0))
  {
    assert t.before[..0] == [];
  }

  /** The character there, when this much of the text is known. */
  lemma NextChar(s: Text, x: Text, y: Text)
    requires x + y <= s && y != []
    ensures x <= s && CharAt(s, |x|) == y[0]
  {
  }

  lemma GroupsOf(t: AddressText)
    requires WellFormed(t)
    ensures forall k :: 0 <= k < |t.before| ==> IsGroup(t.before[k]) && t.before[k] != [] && IsHexDigit(t.before[k][0])
    ensures forall k :: 0 <= k < |t.after| ==> IsGroup(t.after[k]) && t.after[k] != [] && IsHexDigit(t.after[k][0])
    ensures t.compressed ==> |t.before| + |t.after| < 8
  {
  }

  /** The parser gets behind the colon of each group in front. */
  lemma {:induction false} FrontIsRead(s: Text, t: AddressText, i: nat)
    requires WellFormed(t) && Rendered(t) <= s && |s| <= RSIZE_MAX && i <= |t.before| && i < 8 && Open(Front(t, i)) <= s
    ensures Between(s, Front(t, i))
  {
    hide WellFormed, Between, Reached, Open, Rendered, IsGroup, IsHexDigit, CharAt, Extended;
    if i > 0 {
      var u, g := Front(t, i - 1), t.before[i - 1];
      GroupsOf(t);
      FrontStarts(t, i - 1);
      NextChar(s, Open(u), g);
      FrontIsRead(s, t, i - 1);
      ReachGroup(s, u);
      ReadGroupAndColon(s, u, g);
    } else {
      NothingIsRead(s, t);
    }
  }

  lemma CompressionIsRead(s: Text, t: AddressText)
    requires WellFormed(t) && t.compressed && Rendered(t) <= s && |s| <= RSIZE_MAX
    ensures Reached(s, Back(t, 0))
  {
    hide WellFormed, Between, Reached, Rendered, Open, IsGroup, IsHexDigit, CharAt;
    GroupsOf(t);
    var n := |t.before|;
    CompressionStarts(t);
    FrontIsRead(s, t, n);
    ReachCompressed(s, Front(t, n));
  }

  lemma CompressionStarts(t: AddressText)
    requires t.compressed
    ensures Back(t, 0) == Front(t, |t.before|).(compressed := true)
    ensures Open(Front(t, |t.before|)) <= Open(Back(t, 0)) <= Rendered(t)
  {
    hide Joined;
    var head := Joined(t.before);
    assert t.before[..|t.before|] == t.before && t.after[..0] == [];
    NoneJoined();
    assert Open(Back(t, 0)) == head + [':', ':'];
    assert Rendered(t) == head + [':', ':'] + Joined(t.after) + Slash(t) by {
      assert head + ([':', ':'] + Joined(t.after)) == head + [':', ':'] + Joined(t.after);
    }
  }

  lemma NoneJoined()
    ensures Joined([]) == []
  {
  }

  /** The parser gets to each group behind the "::". */
  lemma {:induction false} BackIsRead(s: Text, t: AddressText, j: nat)
    requires WellFormed(t) && t.compressed && Rendered(t) <= s && |s| <= RSIZE_MAX && j <= |t.after|
    requires j < |t.after| || j == 0
    ensures Reached(s, Back(t, j))
  {
    hide WellFormed, Between, Reached, Open, Rendered, IsGroup, IsHexDigit, CharAt, Extended;
    if j == 0 {
      CompressionIsRead(s, t);
    } else {
      var u, g := Back(t, j - 1), t.after[j - 1];
      GroupsOf(t);
      BackStarts(t, j - 1);
      BackIsRead(s, t, j - 1);
      BackStarts(t, j);
      NextChar(s, Open(Back(t, j)), t.after[j]);
      ReadGroupAndColon(s, u, g);
      ReachGroup(s, Back(t, j));
    }
  }

  /** Parsing comes down to the character behind the last group of this part of the text. */
  ghost predicate BehindGroup(s: Text, u: AddressText) {
    && Partial(u) && Closed(u) <= s
    && var step := Skip(s, Place(u, |Closed(u)|, false));
       Moves(s, 0, step) && Parse(s, START) == Outcome(s, 0, step)
  }

  lemma RenderedIs(t: AddressText, rest: Text)
    ensures var s, u := Rendered(t) + rest, t.(prefix := []);
            Closed(u) <= s && s[|Closed(u)|..] == Slash(t) + rest && Rendered(t) <= s
  {
  }

  lemma LastGroupIsRead(s: Text, t: AddressText, rest: Text, u: AddressText, g: Text)
    requires s == Rendered(t) + rest && |s| <= RSIZE_MAX
    requires Reached(s, u) && IsGroup(g) && Extended(u, g) == t.(prefix := []) && GroupEnds(g, Slash(t) + rest)
    ensures BehindGroup(s, t.(prefix := []))
  {
    hide Reached, Closed, Rendered, IsGroup, GroupEnds, Partial, Extended, Parse;
    RenderedIs(t, rest);
    ReadGroup(s, u, g);
  }

  lemma LastOfEight(t: AddressText, rest: Text)
    requires WellFormed(t) && StopsBehind(t, rest) && !t.compressed
    ensures BehindGroup(Rendered(t) + rest, t.(prefix := []))
  {
    hide Reached, Between, Open, Rendered, IsGroup, BehindGroup, Partial, IsHexDigit, CharAt, GroupEnds;
    var s := Rendered(t) + rest;
    RenderedIs(t, rest);
    GroupsOf(t);
    FrontStarts(t, 7);
    NextChar(s, Open(Front(t, 7)), t.before[7]);
    FrontIsRead(s, t, 7);
    ReachGroup(s, Front(t, 7));
    LastEnds(t, rest, t.before[7]);
    assert Front(t, 8) == t.(prefix := []);
    LastGroupIsRead(s, t, rest, Front(t, 7), t.before[7]);
  }

  lemma LastBehindColons(t: AddressText, rest: Text)
    requires WellFormed(t) && StopsBehind(t, rest) && t.compressed && t.after != []
    ensures BehindGroup(Rendered(t) + rest, t.(prefix := []))
  {
    hide Reached, Open, Rendered, IsGroup, BehindGroup, Partial, IsHexDigit, CharAt, GroupEnds;
    var s, m := Rendered(t) + rest, |t.after|;
    RenderedIs(t, rest);
    GroupsOf(t);
    BackStarts(t, m - 1);
    BackIsRead(s, t, m - 1);
    LastEnds(t, rest, t.after[m - 1]);
    assert Back(t, m) == t.(prefix := []);
    LastGroupIsRead(s, t, rest, Back(t, m - 1), t.after[m - 1]);
  }

  lemma LastEnds(t: AddressText, rest: Text, g: Text)
    requires StopsBehind(t, rest) && IsGroup(g)
    requires var groups := if t.compressed then t.after else t.before; groups != [] && g == groups[|groups| - 1]
    ensures GroupEnds(g, Slash(t) + rest)
  {
    if t.prefix != [] {
      GroupEndsBefore(g, Slash(t) + rest);
    } else {
      assert Slash(t) + rest == rest;
    }
  }

  /** The whole text has been read, and no more. */
  ghost predicate EndReached(t: AddressText, rest: Text) {
    && Partial(t.(prefix := []))
    && Parse(Rendered(t) + rest, START) == Finish(AllWords(t), Compress(t), PrefixLength(t), |Rendered(t)|)
  }

  lemma PrefixEnds(digits: Text, rest: Text)
    requires IsPrefix(digits) && !IsDecimalDigit(CharAt(rest, 0)) && |digits + rest| <= RSIZE_MAX
    ensures var s := digits + rest;
            StartsPrefix(s) && NumberEnd(s, 10) == |digits| && NumberIn(s, 10) == NumberIn(digits, 10)
  {
    var s, z := digits + rest, AfterZeros(digits);
    RunEndIs(digits, 0, Blank, 0);
    RunEndIs(s, 0, Blank, 0);
    RunEndIs(s, 0, Zero, z);
    RunEndIs(s, z, Digit(10), |digits|);
    assert s[z..|digits|] == digits[z..|digits|];
  }

  lemma PrefixIsRead(t: AddressText, rest: Text)
    requires WellFormed(t) && t.prefix != [] && StopsBehind(t, rest)
    ensures var s, u := Rendered(t) + rest, t.(prefix := []);
            && Partial(u) && |Closed(u)| + 1 <= |s|
            && Parse(s, Place(u, |Closed(u)| + 1, true))
                == Finish(AllWords(t), Compress(t), PrefixLength(t), |Rendered(t)|)
  {
    hide NumberEnd, NumberIn, Finish, Closed;
    var s, u := Rendered(t) + rest, t.(prefix := []);
    RenderedIs(t, rest);
    assert s[|Closed(u)| + 1..] == t.prefix + rest;
    PrefixEnds(t.prefix, rest);
    var p := Place(u, |Closed(u)| + 1, true);
    assert CharAt(s, p.at) == (t.prefix + rest)[0];
    RenderedLength(t);
    ParseStep(s, p);
  }

  lemma RenderedLength(t: AddressText)
    ensures |Rendered(t)| == |Closed(t.(prefix := []))| + if t.prefix == [] then 0 else 1 + |t.prefix|
  {
  }

  lemma CharBehind(s: Text, x: Text, y: Text)
    requires x <= s && s[|x|..] == y
    ensures CharAt(s, |x|) == CharAt(y, 0)
  {
  }

  /** Behind the last group: the prefix length is read, if there is one, and the parser stops. */
  lemma EndIsRead(t: AddressText, rest: Text)
    requires WellFormed(t) && StopsBehind(t, rest) && BehindGroup(Rendered(t) + rest, t.(prefix := []))
    requires t.compressed ==> t.after != []
    ensures EndReached(t, rest)
  {
    hide Parse, Skip, Finish, GroupEnds, Closed, Rendered;
    var s, u := Rendered(t) + rest, t.(prefix := []);
    RenderedIs(t, rest);
    RenderedLength(t);
    CharBehind(s, Closed(u), Slash(t) + rest);
    SkipReads(s, u);
    if t.prefix != [] {
      PrefixIsRead(t, rest);
    }
  }

  /** The same behind a "::" that ends the groups. */
  lemma ColonsEndIsRead(t: AddressText, rest: Text)
    requires WellFormed(t) && StopsBehind(t, rest) && t.compressed && t.after == []
    ensures EndReached(t, rest)
  {
    hide Parse, Finish, Closed, Rendered;
    var s, u := Rendered(t) + rest, t.(prefix := []);
    RenderedIs(t, rest);
    RenderedLength(t);
    CharBehind(s, Closed(u), Slash(t) + rest);
    BackIsRead(s, t, 0);
    assert Back(t, 0) == u && Open(u) == Closed(u);
    if t.prefix != [] {
      PrefixIsRead(t, rest);
    }
  }

  /** Every text of the grammar is accepted, and means what it stands for. */
  lemma TextIsAccepted(t: AddressText, rest: Text)
    requires WellFormed(t) && StopsBehind(t, rest)
    ensures Parse(Rendered(t) + rest, START) == Accepted(Meaning(t), PrefixLength(t), |Rendered(t)|)
  {
    hide StopsBehind, Rendered, Parse, BehindGroup;
    if !t.compressed {
      LastOfEight(t, rest);
      EndIsRead(t, rest);
    } else if t.after != [] {
      LastBehindColons(t, rest);
      EndIsRead(t, rest);
    } else {
      ColonsEndIsRead(t, rest);
    }
    var c := if t.compressed then |t.before| else 8;
    assert AllWords(t)[..c] == Words(t.before) && AllWords(t)[c..] == Words(t.after);
  }

  // ----- printing -----

  /** The usual spelling of a group: its hexadecimal digits. */
  function Spelled(words: seq<Word>): seq<Text> {
    seq(|words|, k requires 0 <= k < |words| => Digits(words[k], 16))
  }

  lemma SpelledIsGroup(w: Word)
    ensures IsGroup(Digits(w, 16)) && GroupIn(Digits(w, 16)) == w
  {
    assert Power(16, 2) == 0x100;
    assert Power(16, 4) == 0x10000;
    DigitsLength(w, 16, 4);
    WholeDigits(w, 16);
  }

  /** All digits that are printed for a number are read back as that number. */
  lemma WholeDigits(v: nat, radix: Radix)
    requires |Digits(v, radix)| <= RSIZE_MAX
    ensures NumberEnd(Digits(v, radix), radix) == |Digits(v, radix)| && NumberIn(Digits(v, radix), radix) == v
    ensures IsDigit(Digits(v, radix)[0], radix)
  {
    hide Digits, Value;
    var s, z := Digits(v, radix), if v == 0 then 1 else 0;
    DigitsRead(v, radix);
    forall k | 0 <= k < |s| ensures In(s[k], Digit(radix)) && !IsX(s[k]) && !In(s[k], Blank) {
      assert IsDigit(s[k], radix);
    }
    RunEndIs(s, 0, Blank, 0);
    RunEndIs(s, 0, Zero, z);
    RunEndIs(s, z, Digit(radix), |s|);
    LeadingZeros(s, 0, z, |s|, radix);
    assert s[0..|s|] == s;
  }

  /** An address as text: its groups, with those from `from` to `to`, which are zero, compressed, or all of them
      when there are none to compress; and a prefix length up to 128, or 255 for none. */
  function Printed(words: seq<Word>, from: nat, to: nat, prefix: nat): AddressText
    requires |words| == 8 && from <= to <= 8
  {
    var digits := if prefix <= 128 then Digits(prefix, 10) else [];
    if from == to then AddressText(Spelled(words), false, [], digits)
    else AddressText(Spelled(words[..from]), true, Spelled(words[to..]), digits)
  }

  lemma SpelledAre(words: seq<Word>)
    ensures AreGroups(Spelled(words)) && Words(Spelled(words)) == words
  {
    var gs := Spelled(words);
    forall k | 0 <= k < |words| ensures IsGroup(gs[k]) && Words(gs)[k] == words[k] {
      SpelledIsGroup(words[k]);
    }
  }

  lemma PrintedIsWellFormed(words: seq<Word>, from: nat, to: nat, prefix: nat)
    requires |words| == 8 && from <= to <= 8 && (prefix <= 128 || prefix == MAX_UINT8)
    ensures WellFormed(Printed(words, from, to, prefix)) && PrefixLength(Printed(words, from, to, prefix)) == prefix
    ensures |Printed(words, from, to, prefix).prefix| <= 3
  {
    SpelledAre(words);
    SpelledAre(words[..from]);
    SpelledAre(words[to..]);
    if prefix <= 128 {
      assert Power(10, 3) == 1000 by {
        assert Power(10, 2) == 100;
      }
      DigitsLength(prefix, 10, 3);
      WholeDigits(prefix, 10);
    }
  }

  lemma {:induction false} JoinedLength(gs: seq<Text>)
    requires AreGroups(gs)
    ensures |Joined(gs)| <= 5 * |gs|
  {
    if |gs| > 1 {
      JoinedLength(gs[..|gs| - 1]);
    }
    assert gs != [] ==> IsGroup(gs[|gs| - 1]);
  }

  /** Nothing follows a text of moderate length. */
  lemma NothingBehind(t: AddressText)
    requires WellFormed(t) && |t.prefix| <= 3
    ensures StopsBehind(t, [])
  {
    hide NumberEnd;
    JoinedLength(t.before);
    JoinedLength(t.after);
    var groups := if t.compressed then t.after else t.before;
    if groups != [] {
      GroupEndsBefore(groups[|groups| - 1], []);
    }
  }

  lemma PrintedMeans(words: seq<Word>, from: nat, to: nat, prefix: nat)
    requires |words| == 8 && from <= to <= 8 && (forall k :: from <= k < to ==> words[k] == 0)
    requires WellFormed(Printed(words, from, to, prefix))
    ensures Meaning(Printed(words, from, to, prefix)) == Bytes(words)
  {
    hide WellFormed, AreGroups, Spelled, ByteAt, Digits;
    SpelledAre(words);
    SpelledAre(words[..from]);
    SpelledAre(words[to..]);
    if from < to {
      BytesAround(words, from, to);
    }
  }

  lemma BytesAround(words: seq<Word>, from: nat, to: nat)
    requires |words| == 8 && from <= to <= 8 && (forall k :: from <= k < to ==> words[k] == 0)
    ensures Bytes(words[..from]) + Zeros(2 * (to - from)) + Bytes(words[to..]) == Bytes(words)
  {
    assert words[..from] == words[0..from] && words[to..] == words[to..8];
    forall k | 0 <= k < 16
      ensures (Bytes(words[..from]) + Zeros(2 * (to - from)) + Bytes(words[to..]))[k] == Bytes(words)[k]
    {
      if k < 2 * from {
        BytesOfPart(words, 0, from, k);
      } else if 2 * to <= k {
        BytesOfPart(words, to, 8, k - 2 * to);
      } else {
        assert Bytes(words)[k] == ByteAt(words, k) && words[k / 2] == 0;
      }
    }
  }

  lemma HighByteFirst(words: seq<Word>)
    ensures forall k :: 0 <= k < |words| ==>
              Bytes(words)[2 * k] as int * 0x100 + Bytes(words)[2 * k + 1] as int == words[k]
  {
    forall k | 0 <= k < |words|
      ensures Bytes(words)[2 * k] as int * 0x100 + Bytes(words)[2 * k + 1] as int == words[k]
    {
      assert Bytes(words)[2 * k] == ByteAt(words, 2 * k) && Bytes(words)[2 * k + 1] == ByteAt(words, 2 * k + 1);
    }
  }

  /** Printing an address with any choice of zeros to compress, and with or without a prefix length, and parsing
      the text gives the address and the prefix length back. */
  lemma PrintedAddressReads(words: seq<Word>, from: nat, to: nat, prefix: nat)
    requires |words| == 8 && from <= to <= 8 && (forall k :: from <= k < to ==> words[k] == 0)
    requires prefix <= 128 || prefix == 255
    ensures var text := Rendered(Printed(words, from, to, prefix));
            Parse(text, START) == Accepted(Bytes(words), prefix, |text|)
    ensures forall k :: 0 <= k < 8 ==> Bytes(words)[2 * k] as int * 0x100 + Bytes(words)[2 * k + 1] as int == words[k]
  {
    hide WellFormed, Printed, StopsBehind, Parse, Meaning, ByteAt, Bytes, Rendered;
    var t := Printed(words, from, to, prefix);
    PrintedIsWellFormed(words, from, to, prefix);
    NothingBehind(t);
    TextIsAccepted(t, []);
    assert Rendered(t) + [] == Rendered(t);
    PrintedMeans(words, from, to, prefix);
    HighByteFirst(words);
  }

  /** So does parsing it in lower or mixed case. */
  lemma AddressReadsInAnyCase(words: seq<Word>, from: nat, to: nat, prefix: nat, s: Text)
    requires |words| == 8 && from <= to <= 8 && (forall k :: from <= k < to ==> words[k] == 0)
    requires prefix <= 128 || prefix == 255
    requires SameButCase(s, Rendered(Printed(words, from, to, prefix)))
    ensures Parse(s, START) == Accepted(Bytes(words), prefix, |s|)
  {
    hide Parse, Lower, SameButCase, Rendered, Bytes, Printed;
    PrintedAddressReads(words, from, to, prefix);
    ParseIgnoresCase(s, Rendered(Printed(words, from, to, prefix)), START);
  }

  // ----- what a group may look like -----

  /** Digits only, or zeros, an x and digits. */
  ghost predicate LooksLikeGroup(g: Text) {
    exists z, d :: 0 <= z <= d <= |g| && SpellsGroup(g, z, d)
  }

  ghost predicate SpellsGroup(g: Text, z: int, d: int)
    requires 0 <= z <= d <= |g|
  {
    && (forall k :: 0 <= k < z ==> g[k] == '0')
    && (d == z || (d == z + 1 && z > 0 && (g[z] == 'x' || g[z] == 'X')))
    && (forall k :: d <= k < |g| ==> g[k] in "0123456789ABCDEFabcdef")
  }

  /** A group is a text of one to four such characters. */
  lemma GroupShape(g: Text)
    ensures IsGroup(g) <==> 1 <= |g| <= 4 && LooksLikeGroup(g)
  {
    if IsGroup(g) {
      GroupLooks(g);
    }
    if 1 <= |g| <= 4 && LooksLikeGroup(g) {
      var z, d :| 0 <= z <= d <= |g| && SpellsGroup(g, z, d);
      SpelledGroupIsGroup(g, z, d);
    }
  }

  lemma HexTable(c: char)
    ensures c in "0123456789ABCDEFabcdef" <==> IsHexDigit(c)
  {
    if IsHexDigit(c) {
      DigitsByTable(c, DigitValue(c));
    }
  }

  lemma GroupLooks(g: Text)
    requires IsGroup(g)
    ensures 1 <= |g| <= 4 && LooksLikeGroup(g)
  {
    hide DigitValue;
    RunEndIs(g, 0, Blank, 0);
    var z, d := AfterZeros(g), DigitsStart(g, 16);
    forall k | d <= k < |g| ensures g[k] in "0123456789ABCDEFabcdef" {
      assert In(g[k], Digit(16));
      HexTable(g[k]);
    }
    forall k | 0 <= k < z ensures g[k] == '0' {
      assert In(g[k], Zero);
    }
    assert SpellsGroup(g, z, d);
  }

  lemma SpelledGroupIsGroup(g: Text, z: nat, d: nat)
    requires 1 <= |g| <= 4 && z <= d <= |g| && SpellsGroup(g, z, d)
    ensures IsGroup(g)
  {
    hide DigitValue;
    forall k | d <= k < |g| ensures In(g[k], Digit(16)) && !IsX(g[k]) {
      HexTable(g[k]);
    }
    RunEndIs(g, 0, Blank, 0);
    if d > z {
      RunEndIs(g, 0, Zero, z);
      RunEndIs(g, d, Digit(16), |g|);
    } else {
      var y := RunEnd(g, 0, Zero);
      RunEndIs(g, y, Digit(16), |g|);
    }
  }
}
