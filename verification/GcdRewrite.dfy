/** How a range of a map is rewritten: CoreInsertGcdMapEntry, the conversion loop of
    CoreConvertSpace, CoreMergeGcdMapEntry and CoreCleanupGcdMapEntry, on lists of records.

    The methods of GcdMap do these steps on the linked nodes; the lemmas here say what
    the steps keep. */
module GcdRewrite {
  import opened GcdRecords

  /** What address a must say once op has been applied to [low, high). */
  ghost function Painted(es: seq<Record>, op: Operation, low: int, high: int, a: int): Payload {
    if low <= a < high then Apply(op, At(es, a)) else At(es, a)
  }

  ghost predicate ShowsAt(es: seq<Record>, was: seq<Record>, op: Operation, low: int, high: int, k: nat, a: int)
    requires k < |es|
  {
    Holds(es[k], a) ==> es[k].payload == Painted(was, op, low, high, a)
  }

  /** Every record of es says of the addresses it holds what op on [low, high) makes of was. */
  ghost predicate Shows(es: seq<Record>, was: seq<Record>, op: Operation, low: int, high: int) {
    forall k, a :: 0 <= k < |es| ==> ShowsAt(es, was, op, low, high, k, a)
  }

  lemma ShowsMeans(es: seq<Record>, was: seq<Record>, limit: int, op: Operation, low: int, high: int)
    requires Tiles(es, 0, limit) && Shows(es, was, op, low, high)
    ensures forall a :: 0 <= a < limit ==> At(es, a) == Painted(was, op, low, high, a)
  {
    forall a | 0 <= a < limit ensures At(es, a) == Painted(was, op, low, high, a) {
      var k := Holder(es, 0, limit, a);
      assert ShowsAt(es, was, op, low, high, k, a);
    }
  }

  // ----- splitting -----

  /** fs is es with record i cut in two at address at. */
  ghost predicate IsCut(es: seq<Record>, i: nat, at: int, fs: seq<Record>)
    requires i < |es|
  {
    && |fs| == |es| + 1
    && (forall k :: 0 <= k < i ==> fs[k] == es[k])
    && fs[i] == es[i].(end := at - 1)
    && fs[i + 1] == es[i].(base := at)
    && (forall k :: i + 1 < k < |fs| ==> fs[k] == es[k - 1])
  }

  lemma Cutting(es: seq<Record>, i: nat, at: int) returns (fs: seq<Record>)
    requires i < |es|
    ensures IsCut(es, i, at, fs)
  {
    fs := es[..i] + [es[i].(end := at - 1), es[i].(base := at)] + es[i + 1..];
  }

  /** The list once everything of record i below base has been cut off. */
  ghost predicate IsCutBelow(es: seq<Record>, i: nat, base: int, fs: seq<Record>)
    requires i < |es|
  {
    if base > es[i].base then IsCut(es, i, base, fs) else fs == es
  }

  /** Where record i is then. */
  function Inside(es: seq<Record>, i: nat, base: int): nat
    requires i < |es|
  {
    if base > es[i].base then i + 1 else i
  }

  /** The list once everything of record i above last has been cut off. */
  ghost predicate IsCutAbove(es: seq<Record>, i: nat, last: int, fs: seq<Record>)
    requires i < |es|
  {
    if last < es[i].end then IsCut(es, i, last + 1, fs) else fs == es
  }

  function Repaint(es: seq<Record>, i: nat, op: Operation): seq<Record>
    requires i < |es|
  {
    es[i := es[i].(payload := Apply(op, es[i].payload))]
  }

  ghost predicate CpuArchFreeOperation(op: Operation) {
    op.SetAttributes? ==> op.attributes * CPU_ARCH_ATTRIBUTES == {}
  }

  lemma ApplyKeepsCpuArchFree(op: Operation, p: Payload)
    requires CpuArchFreeOperation(op) && p.attributes * CPU_ARCH_ATTRIBUTES == {}
    ensures Apply(op, p).attributes * CPU_ARCH_ATTRIBUTES == {}
  {
    match op
    case SetAttributes(_) =>
    case _ => assert Apply(op, p).attributes == p.attributes;
  }

  /** Cutting a record keeps the tiling. */
  lemma CutTiles(es: seq<Record>, i: nat, at: int, limit: int, fs: seq<Record>)
    requires Tiles(es, 0, limit)
    requires i < |es| && es[i].base < at <= es[i].end && IsCut(es, i, at, fs)
    ensures Tiles(fs, 0, limit)
  {
    forall k | 0 <= k < |fs| - 1 ensures fs[k + 1].base == fs[k].end + 1 {
      assert k > i + 1 ==> fs[k] == es[k - 1] && fs[k + 1] == es[k];
    }
  }

  /** Cutting a record keeps the attributes, and the other pairs apart. */
  lemma CutPayloads(es: seq<Record>, i: nat, at: int, fs: seq<Record>)
    requires i < |es| && IsCut(es, i, at, fs)
    ensures CpuArchFree(es) ==> CpuArchFree(fs)
    ensures forall k :: 0 <= k < i && Differ(es, k) ==> Differ(fs, k)
    ensures forall k :: i < k < |fs| - 1 && Differ(es, k - 1) ==> Differ(fs, k)
  {
  }

  /** Cutting a record changes what no address says. */
  lemma CutShows(was: seq<Record>, es: seq<Record>, op: Operation, i: nat, at: int, low: int, high: int,
                 fs: seq<Record>)
    requires Shows(es, was, op, low, high)
    requires i < |es| && es[i].base < at <= es[i].end && IsCut(es, i, at, fs)
    ensures Shows(fs, was, op, low, high)
  {
    forall k, a | 0 <= k < |fs| ensures ShowsAt(fs, was, op, low, high, k, a) {
      assert ShowsAt(es, was, op, low, high, if k <= i then k else k - 1, a);
    }
  }

  /** Rewriting the record at the front moves the front to the end of that record. */
  lemma RepaintShows(was: seq<Record>, es: seq<Record>, op: Operation, i: nat, low: int, limit: int)
    requires Tiles(es, 0, limit)
    requires i < |es| && low <= es[i].base && Shows(es, was, op, low, es[i].base)
    ensures Tiles(Repaint(es, i, op), 0, limit) && Shows(Repaint(es, i, op), was, op, low, es[i].end + 1)
  {
    var fs, front := Repaint(es, i, op), es[i].end + 1;
    OrderedAll(es, 0, limit);
    forall k, a | 0 <= k < |fs| ensures ShowsAt(fs, was, op, low, front, k, a) {
      assert ShowsAt(es, was, op, low, es[i].base, k, a);
    }
  }

  lemma RepaintPayloads(es: seq<Record>, op: Operation, i: nat)
    requires i < |es| && CpuArchFree(es) && CpuArchFreeOperation(op)
    ensures CpuArchFree(Repaint(es, i, op))
    ensures forall k :: 0 <= k < |es| - 1 && k != i && k + 1 != i && Differ(es, k) ==> Differ(Repaint(es, i, op), k)
  {
    ApplyKeepsCpuArchFree(op, es[i].payload);
  }

  /** The state of the conversion loop: records s to i-1 are rewritten, i to e still to be. */
  ghost predicate Rewriting(was: seq<Record>, es: seq<Record>, op: Operation, s: nat, i: nat, e: nat,
                            base: int, last: int, limit: int)
  {
    && Tiles(es, 0, limit)
    && s <= i <= e + 1 <= |es| && s <= e
    && base <= last && Holds(es[e], last)
    && (i == s ==> Holds(es[s], base))
    && (i > s ==> es[s].base == base)
    && (i > e ==> es[e].end == last)
    && Shows(es, was, op, base, if i <= e then es[i].base else last + 1)
  }

  /** Beside it: the pairs outside the range differ, and those at its edges as long as they are untouched. */
  ghost predicate Apart(es: seq<Record>, s: nat, i: nat, e: nat) {
    && CpuArchFree(es)
    && (forall j :: 0 <= j < |es| - 1 && (j < s - 1 || j > e) ==> Differ(es, j))
    && (i == s && 0 < s < |es| ==> Differ(es, s - 1))
    && (i <= e && e + 1 < |es| ==> Differ(es, e))
  }

  lemma RewritingStarts(es: seq<Record>, op: Operation, s: nat, e: nat, base: int, last: int, limit: int)
    requires WellFormed(es, limit) && s <= e < |es|
    requires base <= last && Holds(es[s], base) && Holds(es[e], last)
    ensures Rewriting(es, es, op, s, s, e, base, last, limit) && Apart(es, s, s, e)
  {
    forall k, a | 0 <= k < |es| ensures ShowsAt(es, es, op, base, es[s].base, k, a) {
      if Holds(es[k], a) {
        AtHolder(es, 0, limit, k, a);
      }
    }
  }

  /** Cutting off what record i has below base. */
  lemma RewritingCutBelow(was: seq<Record>, es: seq<Record>, op: Operation, s: nat, i: nat, e: nat, base: int,
                          last: int, limit: int, fs: seq<Record>)
    requires Rewriting(was, es, op, s, i, e, base, last, limit) && i <= e && IsCutBelow(es, i, base, fs)
    ensures base > es[i].base ==> i == s
    ensures var d := Inside(es, i, base) - i;
            Rewriting(was, fs, op, s + d, i + d, e + d, base, last, limit) && fs[i + d].base >= base
  {
    OrderedAll(es, 0, limit);
    if base > es[i].base {
      CutTiles(es, i, base, limit, fs);
      CutShows(was, es, op, i, base, base, es[i].base, fs);
      forall k, a | 0 <= k < |fs| ensures ShowsAt(fs, was, op, base, base, k, a) {
        assert ShowsAt(fs, was, op, base, es[i].base, k, a);
      }
    }
  }

  lemma ApartCutBelow(es: seq<Record>, s: nat, e: nat, base: int, fs: seq<Record>)
    requires s <= e < |es| && Apart(es, s, s, e) && IsCut(es, s, base, fs)
    ensures CpuArchFree(fs)
    ensures forall j :: 0 <= j < |fs| - 1 && (j < s || j > e) ==> Differ(fs, j)
  {
    CutPayloads(es, s, base, fs);
    forall j | 0 <= j < |fs| - 1 && (j < s || j > e) ensures Differ(fs, j) {
      assert Differ(es, if j < s then j else j - 1);
    }
  }

  /** Cutting off what record i has above last. */
  lemma RewritingCutAbove(was: seq<Record>, es: seq<Record>, op: Operation, s: nat, i: nat, e: nat, base: int,
                          last: int, limit: int, fs: seq<Record>)
    requires Rewriting(was, es, op, s, i, e, base, last, limit) && i <= e && es[i].base >= base
    requires IsCutAbove(es, i, last, fs)
    ensures last < es[i].end ==> i == e
    ensures Rewriting(was, fs, op, s, i, e, base, last, limit) && base <= fs[i].base && fs[i].end <= last
  {
    OrderedAll(es, 0, limit);
    if last < es[i].end {
      CutTiles(es, i, last + 1, limit, fs);
      CutShows(was, es, op, i, last + 1, base, es[i].base, fs);
    }
  }

  lemma ApartCutAbove(es: seq<Record>, s: nat, e: nat, last: int, fs: seq<Record>)
    requires s <= e < |es| && CpuArchFree(es) && IsCut(es, e, last + 1, fs)
    requires forall j :: 0 <= j < |es| - 1 && (j < s - 1 || j >= e) ==> Differ(es, j)
    ensures CpuArchFree(fs)
    ensures forall j :: 0 <= j < |fs| - 1 && (j < s - 1 || j > e) ==> Differ(fs, j)
  {
    CutPayloads(es, e, last + 1, fs);
    forall j | 0 <= j < |fs| - 1 && (j < s - 1 || j > e) ensures Differ(fs, j) {
      assert Differ(es, if j < s - 1 then j else j - 1);
    }
  }

  /** Rewriting what is left of record i ends a turn of the conversion loop. */
  lemma RewritingRepaint(was: seq<Record>, es: seq<Record>, op: Operation, s: nat, i: nat, e: nat, base: int,
                         last: int, limit: int)
    requires Rewriting(was, es, op, s, i, e, base, last, limit) && i <= e
    requires base <= es[i].base && es[i].end <= last
    ensures Rewriting(was, Repaint(es, i, op), op, s, i + 1, e, base, last, limit)
  {
    RepaintShows(was, es, op, i, base, limit);
    OrderedAll(es, 0, limit);
  }

  /** A record that is still to be rewritten overlaps the range, and only the outer two stick out of it. */
  lemma RewritingOverlaps(was: seq<Record>, es: seq<Record>, op: Operation, s: nat, i: nat, e: nat, base: int,
                          last: int, limit: int)
    requires Rewriting(was, es, op, s, i, e, base, last, limit) && i <= e
    ensures es[i].signed && es[i].base <= last && base <= es[i].end
    ensures base > es[i].base ==> i == s
    ensures last < es[i].end ==> i == e
  {
    OrderedAll(es, 0, limit);
  }

  /** One turn of the conversion loop: es is cut to fs, fs to gs, and record m of gs is ready to be rewritten. */
  lemma RewritingStep(was: seq<Record>, es: seq<Record>, op: Operation, s: nat, i: nat, e: nat, base: int, last: int,
                      limit: int, fs: seq<Record>, gs: seq<Record>)
    requires Rewriting(was, es, op, s, i, e, base, last, limit) && i <= e
    requires IsCutBelow(es, i, base, fs) && IsCutAbove(fs, Inside(es, i, base), last, gs)
    ensures var m := Inside(es, i, base);
            var d := m - i;
            && base <= gs[m].base && gs[m].end <= last
            && Rewriting(was, gs, op, s + d, m, e + d, base, last, limit)
  {
    hide IsCut, Tiles, Shows;
    var m := Inside(es, i, base);
    var d := m - i;
    RewritingCutBelow(was, es, op, s, i, e, base, last, limit, fs);
    RewritingCutAbove(was, fs, op, s + d, m, e + d, base, last, limit, gs);
  }

  lemma ApartStep(es: seq<Record>, op: Operation, s: nat, i: nat, e: nat, base: int, last: int, fs: seq<Record>,
                  gs: seq<Record>)
    requires s <= i <= e < |es| && Apart(es, s, i, e) && CpuArchFreeOperation(op)
    requires IsCutBelow(es, i, base, fs) && IsCutAbove(fs, Inside(es, i, base), last, gs)
    requires i < Inside(es, i, base) ==> i == s
    requires last < es[i].end ==> i == e
    ensures var m := Inside(es, i, base);
            var d := m - i;
            Apart(Repaint(gs, m, op), s + d, m + 1, e + d)
  {
    hide Differ, CpuArchFree, CpuArchFreeOperation, Apply;
    var m := Inside(es, i, base);
    var d := m - i;
    if i < m {
      ApartCutBelow(es, s, e, base, fs);
      assert e + d + 1 < |fs| ==> Differ(fs, e + d);
    }
    assert forall j :: 0 <= j < |fs| - 1 && (j < s + d - 1 || j >= e + d) ==> Differ(fs, j);
    if last < fs[m].end {
      ApartCutAbove(fs, s + d, e + d, last, gs);
    }
    assert forall j :: 0 <= j < |gs| - 1 && (j < s + d - 1 || j > e + d) ==> Differ(gs, j);
    RepaintPayloads(gs, op, m);
  }

  /** The whole turn. */
  lemma Turn(was: seq<Record>, es: seq<Record>, op: Operation, s: nat, i: nat, e: nat, base: int, last: int, limit: int,
             fs: seq<Record>, gs: seq<Record>)
    requires Rewriting(was, es, op, s, i, e, base, last, limit) && i <= e
    requires IsCutBelow(es, i, base, fs) && IsCutAbove(fs, Inside(es, i, base), last, gs)
    ensures var m := Inside(es, i, base);
            Rewriting(was, Repaint(gs, m, op), op, s + m - i, m + 1, e + m - i, base, last, limit)
  {
    hide IsCut, Tiles, Shows;
    var m := Inside(es, i, base);
    RewritingStep(was, es, op, s, i, e, base, last, limit, fs, gs);
    RewritingRepaint(was, gs, op, s + m - i, m, e + m - i, base, last, limit);
  }

  lemma ApartTurn(was: seq<Record>, es: seq<Record>, op: Operation, s: nat, i: nat, e: nat, base: int, last: int,
                  limit: int, fs: seq<Record>, gs: seq<Record>)
    requires Rewriting(was, es, op, s, i, e, base, last, limit) && Apart(es, s, i, e)
    requires i <= e && CpuArchFreeOperation(op)
    requires IsCutBelow(es, i, base, fs) && IsCutAbove(fs, Inside(es, i, base), last, gs)
    ensures var m := Inside(es, i, base);
            Apart(Repaint(gs, m, op), s + m - i, m + 1, e + m - i)
  {
    RewritingOverlaps(was, es, op, s, i, e, base, last, limit);
    ApartStep(es, op, s, i, e, base, last, fs, gs);
  }

  /** When the loop is over every address of the range has been rewritten. */
  lemma RewritingEnds(was: seq<Record>, es: seq<Record>, op: Operation, s: nat, e: nat, base: int, last: int,
                      limit: int)
    requires Rewriting(was, es, op, s, e + 1, e, base, last, limit) && Apart(es, s, e + 1, e)
    ensures Cleaning(was, es, op, s, e, base, last + 1, limit)
  {
  }

  // ----- merging -----

  /** fs is es with records j and j+1 made into one. */
  ghost predicate IsJoined(es: seq<Record>, j: nat, fs: seq<Record>)
    requires j + 1 < |es|
  {
    && |fs| == |es| - 1
    && (forall k :: 0 <= k < j ==> fs[k] == es[k])
    && fs[j] == es[j].(end := es[j + 1].end)
    && (forall k :: j < k < |fs| ==> fs[k] == es[k + 1])
  }

  lemma Joining(es: seq<Record>, j: nat) returns (fs: seq<Record>)
    requires j + 1 < |es|
    ensures IsJoined(es, j, fs)
  {
    fs := es[..j] + [es[j].(end := es[j + 1].end)] + es[j + 2..];
  }

  lemma JoinedTiles(es: seq<Record>, j: nat, limit: int, fs: seq<Record>)
    requires Tiles(es, 0, limit) && j + 1 < |es| && IsJoined(es, j, fs)
    ensures Tiles(fs, 0, limit)
  {
    forall k | 0 <= k < |fs| - 1 ensures fs[k + 1].base == fs[k].end + 1 {
      assert es[k + 1].base == es[k].end + 1;
      assert k >= j ==> es[k + 2].base == es[k + 1].end + 1;
    }
  }

  lemma JoinedPayloads(es: seq<Record>, j: nat, fs: seq<Record>)
    requires j + 1 < |es| && IsJoined(es, j, fs) && !Differ(es, j)
    ensures CpuArchFree(es) ==> CpuArchFree(fs)
    ensures forall k :: 0 <= k < j && Differ(es, k) ==> Differ(fs, k)
    ensures forall k :: j <= k < |fs| - 1 && Differ(es, k + 1) ==> Differ(fs, k)
  {
  }

  /** Merging two records that agree changes what no address says. */
  lemma JoinedShows(was: seq<Record>, es: seq<Record>, op: Operation, j: nat, low: int, high: int, limit: int,
                    fs: seq<Record>)
    requires Tiles(es, 0, limit) && Shows(es, was, op, low, high)
    requires j + 1 < |es| && IsJoined(es, j, fs) && !Differ(es, j)
    ensures Shows(fs, was, op, low, high)
  {
    forall k, a | 0 <= k < |fs| ensures ShowsAt(fs, was, op, low, high, k, a) {
      assert ShowsAt(es, was, op, low, high, if k <= j then k else k + 1, a);
      assert k == j ==> ShowsAt(es, was, op, low, high, j + 1, a);
    }
  }

  /** The state of the cleanup loop: only the pairs that end at records i to e+1 may still agree. */
  ghost predicate Cleaning(was: seq<Record>, es: seq<Record>, op: Operation, i: nat, e: nat, low: int, high: int,
                           limit: int) {
    && Tiles(es, 0, limit) && CpuArchFree(es) && Shows(es, was, op, low, high)
    && i <= e + 1 <= |es|
    && (forall j :: 0 <= j < |es| - 1 && (j < i - 1 || j > e) ==> Differ(es, j))
  }

  /** One turn of the cleanup loop, when records i-1 and i agree. */
  lemma CleaningMerges(was: seq<Record>, es: seq<Record>, op: Operation, i: nat, e: nat, low: int, high: int,
                       limit: int, fs: seq<Record>)
    requires Cleaning(was, es, op, i, e, low, high, limit) && 0 < i <= e && !Differ(es, i - 1)
    requires IsJoined(es, i - 1, fs)
    ensures Cleaning(was, fs, op, i, e - 1, low, high, limit)
  {
    JoinedTiles(es, i - 1, limit, fs);
    JoinedPayloads(es, i - 1, fs);
    JoinedShows(was, es, op, i - 1, low, high, limit, fs);
    forall j | 0 <= j < |fs| - 1 && (j < i - 1 || j > e - 1) ensures Differ(fs, j) {
      assert Differ(es, if j < i - 1 then j else j + 1);
    }
  }

  lemma CleaningSigned(was: seq<Record>, es: seq<Record>, op: Operation, i: nat, e: nat, low: int, high: int,
                       limit: int)
    requires Cleaning(was, es, op, i, e, low, high, limit)
    ensures forall k :: 0 <= k < |es| ==> es[k].signed
  {
  }

  /** One turn of the cleanup loop, when there is nothing to merge. */
  lemma CleaningPasses(was: seq<Record>, es: seq<Record>, op: Operation, i: nat, e: nat, low: int, high: int,
                       limit: int)
    requires Cleaning(was, es, op, i, e, low, high, limit) && i <= e
    requires i > 0 ==> Differ(es, i - 1)
    ensures Cleaning(was, es, op, i + 1, e, low, high, limit)
  {
  }

  /** The last merge, with the record after e, leaves the coarsest list. */
  lemma CleaningEnds(was: seq<Record>, es: seq<Record>, op: Operation, e: nat, low: int, high: int, limit: int,
                     fs: seq<Record>)
    requires Cleaning(was, es, op, e + 1, e, low, high, limit)
    requires if e + 1 < |es| && !Differ(es, e) then IsJoined(es, e, fs) else fs == es
    ensures WellFormed(fs, limit) && Shows(fs, was, op, low, high)
  {
    if e + 1 < |es| && !Differ(es, e) {
      JoinedTiles(es, e, limit, fs);
      JoinedPayloads(es, e, fs);
      JoinedShows(was, es, op, e, low, high, limit, fs);
      forall j | 0 <= j < |fs| - 1 ensures Differ(fs, j) {
        assert Differ(es, if j < e then j else j + 1);
      }
    } else {
      forall j | 0 <= j < |fs| - 1 ensures Differ(fs, j) {
        assert j < e || j == e || j > e;
      }
    }
  }
}
