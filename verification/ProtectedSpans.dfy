/** Protected spans and the tolerance rules that make a span set sorted and disjoint. */
module ProtectedSpans {
  import opened Wrappers
  import opened Sequences
  import opened Decimals
  import opened Documents

  datatype SpanKind = QuotedSpan | CitedSpan | NumberSpan | UnitSpan | DateSpan | EntitySpan | KeyTermSpan

  datatype SpanStatus = Extracted | Approved | Excluded

  datatype ProtectedSpan = ProtectedSpan(
    spanId: string, kind: SpanKind, location: SourceLocation, text: string, spanLabel: string, status: SpanStatus)

  function SpanId(n: nat): string { "s" + Decimal(n) }

  type SpanKey = (SpanKind, int, int)

  function Key(span: ProtectedSpan): SpanKey { (span.kind, span.location.start, span.location.end) }

  predicate ValidOffsets(span: ProtectedSpan) { 0 <= span.location.start <= span.location.end }

  /** The spans kept from `spans` after `kept` spans, of which the last ended at `previousEnd`. */
  function KeptFrom(spans: seq<ProtectedSpan>, seen: set<SpanKey>, kept: nat,
      previousEnd: int): Result<seq<ProtectedSpan>>
    decreases |spans|
  {
    if |spans| == 0 then Ok([])
    else if !ValidOffsets(spans[0]) then Err(InvalidSpanOffsets)
    else if Key(spans[0]) in seen || spans[0].location.start < previousEnd
      then KeptFrom(spans[1..], seen, kept, previousEnd)
    else
      match KeptFrom(spans[1..], seen + {Key(spans[0])}, kept + 1, spans[0].location.end)
      case Err(e) => Err(e)
      case Ok(rest) => Ok([spans[0].(spanId := SpanId(kept + 1))] + rest)
  }

  function Prepend(done: seq<ProtectedSpan>, rest: Result<seq<ProtectedSpan>>): Result<seq<ProtectedSpan>> {
    match rest
    case Err(e) => Err(e)
    case Ok(more) => Ok(done + more)
  }

  method BuildProtectedSpanSet(spans: seq<ProtectedSpan>) returns (r: Result<seq<ProtectedSpan>>)
    ensures r == KeptFrom(spans, {}, 0, -1)
  {
    var seen: set<SpanKey> := {};
    var ordered: seq<ProtectedSpan> := [];
    var previousEnd := -1;
    ghost var goal := KeptFrom(spans, {}, 0, -1);
    assert spans[0..] == spans && (goal.Ok? ==> [] + goal.value == goal.value);
    for i := 0 to |spans|
      invariant Prepend(ordered, KeptFrom(spans[i..], seen, |ordered|, previousEnd)) == goal
    {
      var span := spans[i];
      assert spans[i..][0] == span && spans[i..][1..] == spans[i + 1..];
      var location := span.location;
      if location.start < 0 || location.end < location.start {
        return Err(InvalidSpanOffsets);
      }
      var key := (span.kind, location.start, location.end);
      if key in seen {
        continue;
      }
      if location.start < previousEnd {
        continue;
      }
      ghost var rest := KeptFrom(spans[i + 1..], seen + {key}, |ordered| + 1, location.end);
      ghost var kept := span.(spanId := SpanId(|ordered| + 1));
      assert rest.Ok? ==> ordered + ([kept] + rest.value) == ordered + [kept] + rest.value;
      seen := seen + {key};
      ordered := ordered + [ProtectedSpan("s" + Decimal(|ordered| + 1), span.kind, location, span.text, span.spanLabel,
                                          span.status)];
      previousEnd := location.end;
    }
    assert ordered + [] == ordered;
    return Ok(ordered);
  }

  // ----- What a span set is -----

  /** Valid offsets, ascending and pairwise disjoint. */
  ghost predicate SortedDisjoint(spans: seq<ProtectedSpan>) {
    && (forall i :: 0 <= i < |spans| ==> ValidOffsets(spans[i]))
    && (forall i, j :: 0 <= i < j < |spans| ==> spans[i].location.end <= spans[j].location.start)
  }

  ghost predicate NumberedFrom(spans: seq<ProtectedSpan>, kept: nat) {
    forall i :: 0 <= i < |spans| ==> spans[i].spanId == SpanId(kept + 1 + i)
  }

  /** Kept spans come from the input: only the id is new. */
  ghost predicate ComesFrom(span: ProtectedSpan, spans: seq<ProtectedSpan>) {
    exists s :: s in spans && span == s.(spanId := span.spanId)
  }

  ghost predicate DistinctKeys(spans: seq<ProtectedSpan>, seen: set<SpanKey>) {
    && (forall i :: 0 <= i < |spans| ==> Key(spans[i]) !in seen)
    && (forall i, j :: 0 <= i < j < |spans| ==> Key(spans[i]) != Key(spans[j]))
  }

  lemma {:induction false} KeptIsSpanSet(spans: seq<ProtectedSpan>, seen: set<SpanKey>, kept: nat, previousEnd: int)
    ensures var r := KeptFrom(spans, seen, kept, previousEnd);
            && (r.Ok? <==> forall s :: s in spans ==> ValidOffsets(s))
            && (r.Ok? ==> SortedDisjoint(r.value) && NumberedFrom(r.value, kept) && DistinctKeys(r.value, seen)
                          && (|r.value| > 0 ==> previousEnd <= r.value[0].location.start)
                          && forall s :: s in r.value ==> ComesFrom(s, spans))
    decreases |spans|
  {
    if |spans| > 0 {
      var head, tail := spans[0], spans[1..];
      assert forall s :: s in spans <==> s == head || s in tail;
      if ValidOffsets(head) {
        if Key(head) in seen || head.location.start < previousEnd {
          KeptIsSpanSet(tail, seen, kept, previousEnd);
        } else {
          KeptIsSpanSet(tail, seen + {Key(head)}, kept + 1, head.location.end);
          var r := KeptFrom(spans, seen, kept, previousEnd);
          if r.Ok? {
            var rest := KeptFrom(tail, seen + {Key(head)}, kept + 1, head.location.end).value;
            KeptHead(head.(spanId := SpanId(kept + 1)), rest, seen, kept);
            assert ComesFrom(r.value[0], spans);
          }
        }
      }
    }
  }

  lemma KeptHead(head: ProtectedSpan, rest: seq<ProtectedSpan>, seen: set<SpanKey>, kept: nat)
    requires ValidOffsets(head) && head.spanId == SpanId(kept + 1) && Key(head) !in seen
    requires SortedDisjoint(rest) && NumberedFrom(rest, kept + 1) && DistinctKeys(rest, seen + {Key(head)})
    requires |rest| > 0 ==> head.location.end <= rest[0].location.start
    ensures var all := [head] + rest;
            SortedDisjoint(all) && NumberedFrom(all, kept) && DistinctKeys(all, seen)
  {
    KeptHeadSorted(head, rest);
    KeptHeadKeys(head, rest, seen);
    assert forall i :: 0 <= i < |rest| ==> rest[i].spanId == SpanId(kept + 2 + i);
  }

  lemma KeptHeadSorted(head: ProtectedSpan, rest: seq<ProtectedSpan>)
    requires ValidOffsets(head) && SortedDisjoint(rest) && (|rest| > 0 ==> head.location.end <= rest[0].location.start)
    ensures SortedDisjoint([head] + rest)
  {
    assert forall i :: 0 <= i < |rest| ==> ValidOffsets(rest[i]);
    assert forall i :: 0 < i < |rest| ==> rest[0].location.end <= rest[i].location.start;
  }

  lemma KeptHeadKeys(head: ProtectedSpan, rest: seq<ProtectedSpan>, seen: set<SpanKey>)
    requires Key(head) !in seen && DistinctKeys(rest, seen + {Key(head)})
    ensures DistinctKeys([head] + rest, seen)
  {
    assert forall i :: 0 <= i < |rest| ==> Key(rest[i]) !in seen + {Key(head)};
  }

  lemma SpanSetTail(spans: seq<ProtectedSpan>, seen: set<SpanKey>, kept: nat)
    requires |spans| > 0 && SortedDisjoint(spans) && NumberedFrom(spans, kept) && DistinctKeys(spans, seen)
    ensures ValidOffsets(spans[0]) && Key(spans[0]) !in seen && spans[0].spanId == SpanId(kept + 1)
    ensures SortedDisjoint(spans[1..]) && NumberedFrom(spans[1..], kept + 1)
    ensures DistinctKeys(spans[1..], seen + {Key(spans[0])})
    ensures |spans| > 1 ==> spans[0].location.end <= spans[1].location.start
  {
    var tail := spans[1..];
    forall i | 0 <= i < |tail|
      ensures tail[i].spanId == SpanId(kept + 2 + i) && Key(tail[i]) !in seen + {Key(spans[0])}
    {
      assert tail[i] == spans[i + 1];
    }
  }

  lemma {:induction false} SpanSetIsKept(spans: seq<ProtectedSpan>, seen: set<SpanKey>, kept: nat, previousEnd: int)
    requires SortedDisjoint(spans) && NumberedFrom(spans, kept) && DistinctKeys(spans, seen)
    requires |spans| > 0 ==> previousEnd <= spans[0].location.start
    ensures KeptFrom(spans, seen, kept, previousEnd) == Ok(spans)
    decreases |spans|
  {
    if |spans| > 0 {
      SpanSetTail(spans, seen, kept);
      SpanSetIsKept(spans[1..], seen + {Key(spans[0])}, kept + 1, spans[0].location.end);
      assert spans == [spans[0]] + spans[1..] && spans[0].(spanId := SpanId(kept + 1)) == spans[0];
    }
  }

  lemma IdsAreDistinct(spans: seq<ProtectedSpan>)
    requires NumberedFrom(spans, 0)
    ensures forall i, j :: 0 <= i < j < |spans| ==> spans[i].spanId != spans[j].spanId
  {
    forall i, j | 0 <= i < j < |spans| ensures spans[i].spanId != spans[j].spanId {
      if SpanId(i + 1) == SpanId(j + 1) {
        assert Decimal(i + 1) == SpanId(i + 1)[1..] && Decimal(j + 1) == SpanId(j + 1)[1..];
        DecimalInjective(i + 1, j + 1);
      }
    }
  }

  /**
   Building a span set: it fails only on invalid offsets; otherwise the spans are sorted and disjoint, have distinct
   ids, come from the input, and building again changes nothing.
   */
  lemma SpanSetMeaning(spans: seq<ProtectedSpan>)
    ensures var r := KeptFrom(spans, {}, 0, -1);
            && (r.Ok? <==> forall s :: s in spans ==> ValidOffsets(s))
            && (r.Ok? ==> SortedDisjoint(r.value)
                          && (forall i :: 0 <= i < |r.value| ==> r.value[i].spanId == "s" + Decimal(i + 1))
                          && (forall i, j :: 0 <= i < j < |r.value| ==> r.value[i].spanId != r.value[j].spanId)
                          && (forall s :: s in r.value ==> ComesFrom(s, spans))
                          && KeptFrom(r.value, {}, 0, -1) == r)
  {
    KeptIsSpanSet(spans, {}, 0, -1);
    var r := KeptFrom(spans, {}, 0, -1);
    if r.Ok? {
      IdsAreDistinct(r.value);
      SpanSetIsKept(r.value, {}, 0, -1);
    }
  }

  /** The span is kept, under a new id. */
  ghost predicate KeptIn(span: ProtectedSpan, kept: seq<ProtectedSpan>) {
    exists k :: k in kept && k == span.(spanId := k.spanId)
  }

  /** An earlier kept span that is a duplicate of the later one or that the later one starts inside or before. */
  ghost predicate Shadows(earlier: ProtectedSpan, later: ProtectedSpan, kept: seq<ProtectedSpan>) {
    KeptIn(earlier, kept) && (Key(earlier) == Key(later) || later.location.start < earlier.location.end)
  }

  ghost predicate KeptOrShadowed(spans: seq<ProtectedSpan>, i: nat, seen: set<SpanKey>, previousEnd: int,
      kept: seq<ProtectedSpan>)
    requires i < |spans|
  {
    || KeptIn(spans[i], kept) || Key(spans[i]) in seen || spans[i].location.start < previousEnd
    || exists j: nat :: j < i && Shadows(spans[j], spans[i], kept)
  }

  lemma {:induction false} DroppedFrom(spans: seq<ProtectedSpan>, seen: set<SpanKey>, kept: nat, previousEnd: int,
      i: nat)
    requires i < |spans| && KeptFrom(spans, seen, kept, previousEnd).Ok?
    ensures KeptOrShadowed(spans, i, seen, previousEnd, KeptFrom(spans, seen, kept, previousEnd).value)
    decreases |spans|
  {
    var head, tail, r := spans[0], spans[1..], KeptFrom(spans, seen, kept, previousEnd).value;
    if Key(head) in seen || head.location.start < previousEnd {
      if i > 0 {
        DroppedFrom(tail, seen, kept, previousEnd, i - 1);
        DroppedLater(spans, i, seen, previousEnd, r, r);
      }
    } else {
      var named := head.(spanId := SpanId(kept + 1));
      assert r[0] == named && KeptIn(head, r);
      if i > 0 {
        DroppedFrom(tail, seen + {Key(head)}, kept + 1, head.location.end, i - 1);
        if Key(spans[i]) == Key(head) || spans[i].location.start < head.location.end {
          assert Shadows(spans[0], spans[i], r);
        } else {
          DroppedLater(spans, i, seen + {Key(head)}, head.location.end, r[1..], r);
        }
      }
    }
  }

  lemma DroppedLater(spans: seq<ProtectedSpan>, i: nat, seen: set<SpanKey>, previousEnd: int, rest: seq<ProtectedSpan>,
      all: seq<ProtectedSpan>)
    requires 0 < i < |spans| && KeptOrShadowed(spans[1..], i - 1, seen, previousEnd, rest)
             && forall k :: k in rest ==> k in all
    ensures KeptOrShadowed(spans, i, seen, previousEnd, all)
  {
    var tail := spans[1..];
    if exists j: nat :: j < i - 1 && Shadows(tail[j], tail[i - 1], rest) {
      var j: nat :| j < i - 1 && Shadows(tail[j], tail[i - 1], rest);
      assert tail[j] == spans[j + 1] && Shadows(spans[j + 1], spans[i], all);
    }
  }

  /** Only duplicates and spans that start inside (or before) an earlier kept one are dropped. */
  lemma DroppedIsShadowed(spans: seq<ProtectedSpan>, i: nat)
    requires i < |spans| && KeptFrom(spans, {}, 0, -1).Ok?
    ensures var kept := KeptFrom(spans, {}, 0, -1).value;
            KeptIn(spans[i], kept) || exists j: nat :: j < i && Shadows(spans[j], spans[i], kept)
  {
    DroppedFrom(spans, {}, 0, -1, i);
    SpanSetMeaning(spans);
    assert ValidOffsets(spans[i]);
  }

  // ----- Which regions are kept -----

  predicate Contains(outer: ProtectedSpan, inner: ProtectedSpan) {
    outer.location.start <= inner.location.start && inner.location.end <= outer.location.end
  }

  ghost predicate SortedByStart(spans: seq<ProtectedSpan>) {
    forall i, j :: 0 <= i < j < |spans| ==> spans[i].location.start <= spans[j].location.start
  }

  /** The span lies within a kept one: its region is protected. */
  ghost predicate Covered(span: ProtectedSpan, kept: seq<ProtectedSpan>) {
    exists k :: k in kept && Contains(k, span)
  }

  ghost predicate AllCovered(spans: seq<ProtectedSpan>, kept: seq<ProtectedSpan>) {
    forall s :: s in spans ==> Covered(s, kept)
  }

  predicate SticksOut(span: ProtectedSpan, reach: int) { span.location.start < reach < span.location.end }

  /** No span starts before the greatest end ahead of it, at first `reach`, and ends after it. */
  predicate NoneSticksOut(spans: seq<ProtectedSpan>, reach: int)
    decreases |spans|
  {
    || |spans| == 0
    || (!SticksOut(spans[0], reach)
        && NoneSticksOut(spans[1..], if spans[0].location.end > reach then spans[0].location.end else reach))
  }

  /** Every key seen so far is kept, nothing kept ends after `reach`, and the last kept span ends there. */
  ghost predicate ReachOf(done: seq<ProtectedSpan>, seen: set<SpanKey>, reach: int, from: int) {
    && (done == [] ==> reach <= from)
    && (|done| > 0 ==> done[|done| - 1].location.end == reach && done[|done| - 1].location.start <= from)
    && (forall key :: key in seen ==> exists k :: k in done && Key(k) == key)
    && (forall k :: k in done ==> k.location.end <= reach)
  }

  lemma DroppedIsCovered(head: ProtectedSpan, seen: set<SpanKey>, reach: int, done: seq<ProtectedSpan>,
      rest: seq<ProtectedSpan>)
    requires ReachOf(done, seen, reach, head.location.start) && !SticksOut(head, reach)
    requires Key(head) in seen || head.location.start < reach
    ensures Covered(head, done + rest) && head.location.end <= reach
  {
    if Key(head) in seen {
      var k :| k in done && Key(k) == Key(head);
      assert k in done + rest && Contains(k, head);
    } else {
      var last := done[|done| - 1];
      assert last in done + rest && Contains(last, head);
    }
  }

  lemma StickingOutIsNotCovered(head: ProtectedSpan, seen: set<SpanKey>, reach: int, done: seq<ProtectedSpan>,
      rest: seq<ProtectedSpan>)
    requires ReachOf(done, seen, reach, head.location.start) && SticksOut(head, reach)
    requires SortedDisjoint(rest) && (|rest| > 0 ==> reach <= rest[0].location.start)
    ensures !Covered(head, done + rest)
  {
    forall k | k in done + rest ensures !Contains(k, head) {
      if k !in done {
        var i :| 0 <= i < |rest| && rest[i] == k;
        assert rest[0].location.start <= rest[0].location.end;
      }
    }
  }

  lemma ReachAfterKept(head: ProtectedSpan, id: string, seen: set<SpanKey>, reach: int, done: seq<ProtectedSpan>,
      from: int)
    requires ReachOf(done, seen, reach, head.location.start) && ValidOffsets(head)
    requires reach <= head.location.start <= from
    ensures ReachOf(done + [head.(spanId := id)], seen + {Key(head)}, head.location.end, from)
  {
    var named := head.(spanId := id);
    forall key | key in seen + {Key(head)} ensures exists k :: k in done + [named] && Key(k) == key {
      if key in seen {
        var k :| k in done && Key(k) == key;
        assert k in done + [named];
      } else {
        assert named in done + [named] && Key(named) == key;
      }
    }
  }

  /** Keeping the head of `spans` covers it, and leaves the question to the tail. */
  lemma KeptIsCovered(spans: seq<ProtectedSpan>, reach: int, done: seq<ProtectedSpan>, named: ProtectedSpan,
      rest: seq<ProtectedSpan>)
    requires |spans| > 0 && named == spans[0].(spanId := named.spanId)
    requires ValidOffsets(named) && reach <= named.location.start
    ensures AllCovered(spans, done + ([named] + rest)) <==> AllCovered(spans[1..], done + [named] + rest)
    ensures NoneSticksOut(spans, reach) <==> NoneSticksOut(spans[1..], named.location.end)
  {
    Associate(done, [named], rest);
    HeadAndTailCovered(spans, done + ([named] + rest));
    assert named in [named] && Contains(named, spans[0]);
    assert named in done + ([named] + rest);
  }

  lemma SortedTail(spans: seq<ProtectedSpan>)
    requires |spans| > 0 && SortedByStart(spans)
    ensures SortedByStart(spans[1..])
    ensures |spans| > 1 ==> spans[1..][0] == spans[1] && spans[0].location.start <= spans[1].location.start
  {
  }

  lemma ReachAfterDropped(done: seq<ProtectedSpan>, seen: set<SpanKey>, reach: int, from: int, to: int)
    requires ReachOf(done, seen, reach, from) && from <= to
    ensures ReachOf(done, seen, reach, to)
  {
  }

  /** Once everything ahead is covered by `done`, all of `spans` gets covered exactly if none of them sticks out. */
  lemma {:induction false} CoveredFromIff(spans: seq<ProtectedSpan>, seen: set<SpanKey>, kept: nat, reach: int,
      done: seq<ProtectedSpan>)
    requires KeptFrom(spans, seen, kept, reach).Ok? && SortedByStart(spans)
    requires |spans| > 0 ==> ReachOf(done, seen, reach, spans[0].location.start)
    ensures AllCovered(spans, done + KeptFrom(spans, seen, kept, reach).value) <==> NoneSticksOut(spans, reach)
    decreases |spans|
  {
    if |spans| > 0 {
      var head, tail, r := spans[0], spans[1..], KeptFrom(spans, seen, kept, reach).value;
      SortedTail(spans);
      if SticksOut(head, reach) {
        KeptIsSpanSet(spans, seen, kept, reach);
        StickingOutIsNotCovered(head, seen, reach, done, r);
        assert head in spans;
      } else if Key(head) in seen || head.location.start < reach {
        DroppedIsCovered(head, seen, reach, done, r);
        HeadAndTailCovered(spans, done + r);
        if |tail| > 0 {
          ReachAfterDropped(done, seen, reach, head.location.start, tail[0].location.start);
        }
        CoveredFromIff(tail, seen, kept, reach, done);
      } else {
        var named := head.(spanId := SpanId(kept + 1));
        KeptIsCovered(spans, reach, done, named, KeptFrom(tail, seen + {Key(head)}, kept + 1, head.location.end).value);
        if |tail| > 0 {
          ReachAfterKept(head, named.spanId, seen, reach, done, tail[0].location.start);
        }
        CoveredFromIff(tail, seen + {Key(head)}, kept + 1, head.location.end, done + [named]);
      }
    }
  }

  lemma HeadAndTailCovered(spans: seq<ProtectedSpan>, kept: seq<ProtectedSpan>)
    requires |spans| > 0
    ensures AllCovered(spans, kept) <==> Covered(spans[0], kept) && AllCovered(spans[1..], kept)
  {
    HeadAndTail(spans);
    assert forall s :: s in spans <==> s == spans[0] || s in spans[1..];
  }

  /**
   Of spans sorted by start, as the extractors list them, every region stays protected exactly when no span starts
   before the greatest end ahead of it and ends after it.
   */
  lemma SortedRegionsAreKeptIff(spans: seq<ProtectedSpan>)
    requires KeptFrom(spans, {}, 0, -1).Ok? && SortedByStart(spans)
    ensures AllCovered(spans, KeptFrom(spans, {}, 0, -1).value) <==> NoneSticksOut(spans, -1)
  {
    KeptIsSpanSet(spans, {}, 0, -1);
    assert |spans| > 0 ==> spans[0] in spans;
    CoveredFromIff(spans, {}, 0, -1, []);
    PrependEmpty(KeptFrom(spans, {}, 0, -1).value);
  }

  // ----- In any order -----

  /**
   The end of the last of the first `i` spans that start at or after the end of the one before that did, from `reach`.
   */
  function ReachAt(spans: seq<ProtectedSpan>, i: nat, reach: int): int
    requires i <= |spans|
    decreases i
  {
    if i == 0 then reach
    else ReachAt(spans[1..], i - 1, if reach <= spans[0].location.start then spans[0].location.end else reach)
  }

  predicate Free(spans: seq<ProtectedSpan>, i: nat, reach: int)
    requires i < |spans|
  {
    ReachAt(spans, i, reach) <= spans[i].location.start
  }

  /** The span starts at or after where the ones ahead of it reach, or lies within one of them that did. */
  ghost predicate StaysProtected(spans: seq<ProtectedSpan>, i: nat, reach: int)
    requires i < |spans|
  {
    Free(spans, i, reach) || exists j: nat :: j < i && Free(spans, j, reach) && Contains(spans[j], spans[i])
  }

  lemma StaysProtectedLater(spans: seq<ProtectedSpan>, i: nat, reach: int, next: int)
    requires 0 < i < |spans|
    requires next == if reach <= spans[0].location.start then spans[0].location.end else reach
    ensures StaysProtected(spans, i, reach) <==>
            || (reach <= spans[0].location.start && Contains(spans[0], spans[i]))
            || StaysProtected(spans[1..], i - 1, next)
  {
    var tail := spans[1..];
    forall j: nat | 0 < j < |spans| ensures Free(spans, j, reach) <==> Free(tail, j - 1, next) {
      assert tail[j - 1] == spans[j];
    }
    if exists j: nat :: j < i - 1 && Free(tail, j, next) && Contains(tail[j], tail[i - 1]) {
      var j: nat :| j < i - 1 && Free(tail, j, next) && Contains(tail[j], tail[i - 1]);
      assert Free(spans, j + 1, reach) && Contains(spans[j + 1], spans[i]);
    }
    if exists j: nat :: 0 < j < i && Free(spans, j, reach) && Contains(spans[j], spans[i]) {
      var j: nat :| 0 < j < i && Free(spans, j, reach) && Contains(spans[j], spans[i]);
      assert Free(tail, j - 1, next) && Contains(tail[j - 1], tail[i - 1]);
    }
    assert Free(spans, 0, reach) <==> reach <= spans[0].location.start;
  }

  /** Every key seen so far is kept, and nothing kept ends after `reach`. */
  ghost predicate KeptSoFar(done: seq<ProtectedSpan>, seen: set<SpanKey>, reach: int) {
    && (forall key :: key in seen ==> exists k :: k in done && Key(k) == key)
    && (forall k :: k in done ==> k.location.end <= reach)
  }

  lemma KeptOneMore(done: seq<ProtectedSpan>, seen: set<SpanKey>, reach: int, head: ProtectedSpan, id: string)
    requires KeptSoFar(done, seen, reach) && ValidOffsets(head) && reach <= head.location.start
    ensures KeptSoFar(done + [head.(spanId := id)], seen + {Key(head)}, head.location.end)
  {
    var named := head.(spanId := id);
    assert named in done + [named] && Key(named) == Key(head);
    forall key | key in seen ensures exists k :: k in done + [named] && Key(k) == key {
      var k :| k in done && Key(k) == key;
      assert k in done + [named];
    }
  }

  lemma CoveredByBoth(span: ProtectedSpan, a: seq<ProtectedSpan>, b: seq<ProtectedSpan>)
    ensures Covered(span, a + b) <==> Covered(span, a) || Covered(span, b)
  {
    assert forall k :: k in a + b <==> k in a || k in b;
  }

  lemma CoveredByOne(span: ProtectedSpan, head: ProtectedSpan, id: string)
    ensures Covered(span, [head.(spanId := id)]) <==> Contains(head, span)
  {
    assert head.(spanId := id) in [head.(spanId := id)];
  }

  /** Nothing that starts at or after `reach` covers a span that starts before it. */
  lemma NotCoveredLater(span: ProtectedSpan, rest: seq<ProtectedSpan>, reach: int)
    requires SortedDisjoint(rest) && (|rest| > 0 ==> reach <= rest[0].location.start) && span.location.start < reach
    ensures !Covered(span, rest)
  {
    forall k | k in rest ensures !Contains(k, span) {
      var i :| 0 <= i < |rest| && rest[i] == k;
      assert rest[0].location.start <= rest[0].location.end;
    }
  }

  /** Whether the head gets covered. */
  lemma HeadCoveredIff(spans: seq<ProtectedSpan>, seen: set<SpanKey>, kept: nat, reach: int, done: seq<ProtectedSpan>)
    requires |spans| > 0 && KeptFrom(spans, seen, kept, reach).Ok? && KeptSoFar(done, seen, reach)
    ensures Covered(spans[0], done + KeptFrom(spans, seen, kept, reach).value) <==>
            Covered(spans[0], done) || reach <= spans[0].location.start
  {
    var head, r := spans[0], KeptFrom(spans, seen, kept, reach).value;
    CoveredByBoth(head, done, r);
    KeptIsSpanSet(spans, seen, kept, reach);
    if Key(head) in seen {
      var k :| k in done && Key(k) == Key(head);
      assert Contains(k, head);
    } else if head.location.start < reach {
      NotCoveredLater(head, r, reach);
    } else {
      assert r[0] in r && Contains(r[0], head);
    }
  }

  /** After the head of the list: what is kept of the tail, and from which state. */
  lemma {:induction false} CoveredIffFrom(spans: seq<ProtectedSpan>, seen: set<SpanKey>, kept: nat, reach: int,
      done: seq<ProtectedSpan>, i: nat)
    requires KeptFrom(spans, seen, kept, reach).Ok? && KeptSoFar(done, seen, reach) && i < |spans|
    ensures Covered(spans[i], done + KeptFrom(spans, seen, kept, reach).value) <==>
            Covered(spans[i], done) || StaysProtected(spans, i, reach)
    decreases |spans|
  {
    var head, tail := spans[0], spans[1..];
    if i == 0 {
      HeadCoveredIff(spans, seen, kept, reach, done);
    } else if Key(head) in seen || head.location.start < reach {
      DroppedHead(spans, seen, reach, done, i);
      CoveredIffFrom(tail, seen, kept, reach, done, i - 1);
    } else {
      var named, rest := head.(spanId := SpanId(kept + 1)),
                         KeptFrom(tail, seen + {Key(head)}, kept + 1, head.location.end).value;
      StaysProtectedLater(spans, i, reach, head.location.end);
      KeptOneMore(done, seen, reach, head, SpanId(kept + 1));
      CoveredIffFrom(tail, seen + {Key(head)}, kept + 1, head.location.end, done + [named], i - 1);
      CoveredByBoth(spans[i], done, [named]);
      CoveredByOne(spans[i], head, SpanId(kept + 1));
      Associate(done, [named], rest);
    }
  }

  /** A dropped head leaves the state as it is, and covers nothing that is not covered anyway. */
  lemma DroppedHead(spans: seq<ProtectedSpan>, seen: set<SpanKey>, reach: int, done: seq<ProtectedSpan>, i: nat)
    requires 0 < i < |spans| && KeptSoFar(done, seen, reach) && ValidOffsets(spans[0])
    requires Key(spans[0]) in seen || spans[0].location.start < reach
    ensures Covered(spans[i], done) || StaysProtected(spans, i, reach) <==>
            Covered(spans[i], done) || StaysProtected(spans[1..], i - 1, reach)
  {
    var head := spans[0];
    if Key(head) in seen {
      var k :| k in done && Key(k) == Key(head);
      assert Contains(head, spans[i]) ==> Contains(k, spans[i]);
    }
    StaysProtectedLater(spans, i, reach, reach);
  }

  /**
   In whatever order the spans are listed, a region stays protected exactly when its span starts at or after where those
   ahead of it reach, or lies within one of them that did.
   */
  lemma RegionIsKeptIff(spans: seq<ProtectedSpan>, i: nat)
    requires KeptFrom(spans, {}, 0, -1).Ok? && i < |spans|
    ensures Covered(spans[i], KeptFrom(spans, {}, 0, -1).value) <==> StaysProtected(spans, i, -1)
  {
    CoveredIffFrom(spans, {}, 0, -1, [], i);
    PrependEmpty(KeptFrom(spans, {}, 0, -1).value);
  }

  /**
   Of two overlapping spans the first one listed is kept, so the region of the second is lost exactly when it does not
   lie within the first.  Sorting by start and end lists the shorter of two spans with a common start first: the outer
   of two nested spans is lost.
   */
  lemma FirstOfTwoIsKept(a: ProtectedSpan, b: ProtectedSpan)
    requires ValidOffsets(a) && ValidOffsets(b) && b.location.start < a.location.end
    ensures KeptFrom([a, b], {}, 0, -1) == Ok([a.(spanId := SpanId(1))])
    ensures Covered(b, [a.(spanId := SpanId(1))]) <==> Contains(a, b)
  {
    var none: seq<ProtectedSpan>, seen, kept := [], {} + {Key(a)}, a.(spanId := SpanId(1));
    assert [a, b][0] == a && [a, b][1..] == [b] && [b][0] == b && [b][1..] == none;
    assert KeptFrom(none, seen, 1, a.location.end) == Ok(none);
    assert KeptFrom([b], seen, 1, a.location.end) == Ok(none);
    AppendEmpty([kept]);
    CoveredByOne(b, a, SpanId(1));
  }

  /** Listed out of order, a span is lost although it overlaps nothing. */
  lemma OutOfOrderIsLost(a: ProtectedSpan, b: ProtectedSpan)
    requires ValidOffsets(b) && b.location.end <= a.location.start < a.location.end
    requires b.location.start < b.location.end
    ensures KeptFrom([a, b], {}, 0, -1) == Ok([a.(spanId := SpanId(1))]) && !Covered(b, [a.(spanId := SpanId(1))])
  {
    FirstOfTwoIsKept(a, b);
  }
}
