/** Moving stored protected spans across accepted edits (`_rebase_protected_spans`). */
module SpanRebase {
  import opened Wrappers
  import opened Sequences
  import opened LexicalChanges
  import opened LexicalReview
  import opened ProtectedSpans
  import opened RevisionTransform
  import opened RevisionAgreement

  /** Growth of the changes that end before the span; a change that reaches into the span is an error. */
  function RebaseShift(span: ProtectedSpan, cs: seq<Change>): Result<int> {
    if |cs| == 0 then Ok(0)
    else
      match RebaseShift(span, cs[1..])
      case Err(e) => Err(e)
      case Ok(shift) =>
        if cs[0].End() <= span.location.start then Ok(cs[0].Growth() + shift)
        else if cs[0].offset < span.location.end then Err(SpanOverlap(span.spanId))
        else Ok(shift)
  }

  function RebasedSpan(span: ProtectedSpan, cs: seq<Change>, text: string): Result<ProtectedSpan> {
    match RebaseShift(span, cs)
    case Err(e) => Err(e)
    case Ok(shift) =>
      var l := span.location;
      if Slice(text, l.start + shift, l.end + shift) != span.text then Err(SpanRebaseFailed(span.spanId))
      else Ok(span.(location := l.(start := l.start + shift, end := l.end + shift)))
  }

  function RebasedSpans(spans: seq<ProtectedSpan>, cs: seq<Change>, text: string): Result<seq<ProtectedSpan>> {
    if |spans| == 0 then Ok([])
    else
      match RebasedSpan(spans[0], cs, text)
      case Err(e) => Err(e)
      case Ok(head) =>
        match RebasedSpans(spans[1..], cs, text)
        case Err(e) => Err(e)
        case Ok(rest) => Ok([head] + rest)
  }

  method RebaseProtectedSpans(spans: seq<ProtectedSpan>, proposal: Proposal, acceptedIds: set<string>,
      transformedText: string)
    returns (r: Result<seq<ProtectedSpan>>)
    ensures r == RebasedSpans(spans, KeepIds(proposal.changes, acceptedIds), transformedText)
  {
    var accepted := KeepIds(proposal.changes, acceptedIds);
    var rebased: seq<ProtectedSpan> := [];
    ghost var goal := RebasedSpans(spans, accepted, transformedText);
    if goal.Ok? {
      PrependEmpty(goal.value);
    }
    for i := 0 to |spans|
      invariant Prepend(rebased, RebasedSpans(spans[i..], accepted, transformedText)) == goal
    {
      var span := spans[i];
      ghost var tail := RebasedSpans(spans[i + 1..], accepted, transformedText);
      DropStep(spans, i);
      var location := span.location;
      var shift := ShiftForSpan(span, accepted);
      if shift.Err? {
        return Err(shift.error);
      }
      var rebasedLocation := location.(start := location.start + shift.value, end := location.end + shift.value);
      if Slice(transformedText, rebasedLocation.start, rebasedLocation.end) != span.text {
        return Err(SpanRebaseFailed(span.spanId));
      }
      var moved := span.(location := rebasedLocation);
      if tail.Ok? {
        Associate(rebased, [moved], tail.value);
      }
      rebased := rebased + [moved];
    }
    AppendEmpty(rebased);
    return Ok(rebased);
  }

  /** The inner loop over the accepted changes. */
  method ShiftForSpan(span: ProtectedSpan, accepted: seq<Change>) returns (r: Result<int>)
    ensures r == RebaseShift(span, accepted)
  {
    var shift := 0;
    for i := 0 to |accepted|
      invariant match RebaseShift(span, accepted[i..])
                case Err(e) => RebaseShift(span, accepted) == Err(e)
                case Ok(rest) => RebaseShift(span, accepted) == Ok(shift + rest)
    {
      var change := accepted[i];
      assert accepted[i..][0] == change && accepted[i..][1..] == accepted[i + 1..];
      if change.offset + change.length <= span.location.start {
        shift := shift + (|change.target| - change.length);
      } else if change.offset < span.location.end {
        OverlapAlwaysRaises(span, accepted, i);
        return Err(SpanOverlap(span.spanId));
      }
    }
    return Ok(shift);
  }

  predicate Hits(span: ProtectedSpan, c: Change) { Overlaps(span.location.start, span.location.end, c) }

  lemma OverlapAlwaysRaises(span: ProtectedSpan, cs: seq<Change>, i: nat)
    requires i < |cs| && !(cs[i].End() <= span.location.start) && cs[i].offset < span.location.end
    ensures RebaseShift(span, cs) == Err(SpanOverlap(span.spanId))
  {
    ShiftErrors(span, cs);
    if i > 0 {
      OverlapAlwaysRaises(span, cs[1..], i - 1);
    } else {
      ShiftErrors(span, cs[1..]);
    }
  }

  lemma {:induction false} ShiftErrors(span: ProtectedSpan, cs: seq<Change>)
    ensures RebaseShift(span, cs).Err? ==> RebaseShift(span, cs).error == SpanOverlap(span.spanId)
  {
    if |cs| > 0 {
      ShiftErrors(span, cs[1..]);
    }
  }

  lemma {:induction false} RebaseShiftMeaning(span: ProtectedSpan, cs: seq<Change>)
    ensures RebaseShift(span, cs).Ok? <==> forall c :: c in cs ==> !Hits(span, c)
    ensures RebaseShift(span, cs).Ok? ==> RebaseShift(span, cs).value == ShiftAt(span.location.start, cs)
    decreases |cs|
  {
    if |cs| > 0 {
      RebaseShiftMeaning(span, cs[1..]);
      assert cs[0] in cs && forall c :: c in cs <==> c == cs[0] || c in cs[1..];
    }
  }

  lemma {:induction false} ShiftOfSorted(p: int, cs: seq<Change>)
    ensures ShiftAt(p, Sort(cs)) == ShiftAt(p, cs)
  {
    if |cs| > 0 {
      ShiftOfSorted(p, cs[1..]);
      ShiftOfInsert(p, cs[0], Sort(cs[1..]));
    }
  }

  lemma ShiftOfInsert(p: int, c: Change, s: seq<Change>)
    ensures ShiftAt(p, Insert(c, s)) == (if c.End() <= p then c.Growth() else 0) + ShiftAt(p, s)
  {
    if |s| != 0 && !KeyLe(c, s[0]) {
      ShiftOfInsert(p, c, s[1..]);
    } else {
      assert ([c] + s)[1..] == s;
    }
  }

  lemma NoHitsNoCrossing(start: int, end: int, cs: seq<Change>)
    requires forall c :: c in cs ==> !Overlaps(start, end, c)
    ensures FirstCrossing(start, end, cs).None? && Inside(start, end, cs) == []
  {
    if |cs| > 0 {
      assert cs[0] in cs && forall c :: c in cs[1..] ==> c in cs;
      NoHitsNoCrossing(start, end, cs[1..]);
    }
  }

  lemma SameShiftAtBothEnds(start: int, end: int, cs: seq<Change>)
    requires start <= end && forall c :: c in cs ==> !Overlaps(start, end, c) && c.length > 0
    ensures ShiftAt(end, cs) == ShiftAt(start, cs)
  {
    if |cs| > 0 {
      assert cs[0] in cs;
      SameShiftAtBothEnds(start, end, cs[1..]);
    }
  }

  /** Both ends of a span that no change overlaps move by the same shift, and the moved span reads what it read. */
  lemma MovedSpanReads(start: nat, end: nat, text: string, cs: seq<Change>, text': string, start': int, end': int)
    requires Applicable(text, cs) && start <= end && forall c :: c in cs ==> !Overlaps(start, end, c)
    requires text' == NewText(text, cs) && start' == start + ShiftAt(start, cs) && end' == end + ShiftAt(end, cs)
    ensures ShiftAt(end, cs) == ShiftAt(start, cs)
    ensures Slice(text', start', end') == Slice(text, start, end)
  {
    NoHitsNoCrossing(start, end, cs);
    SameShiftAtBothEnds(start, end, cs);
    UneditedSpan(text, cs, start, end);
  }

  ghost predicate Clear(span: ProtectedSpan, cs: seq<Change>) { forall c :: c in cs ==> !Hits(span, c) }

  ghost predicate Reads(span: ProtectedSpan, text: string) {
    Slice(text, span.location.start, span.location.end) == span.text
  }

  lemma ClearShift(span: ProtectedSpan, accepted: seq<Change>)
    ensures Clear(span, accepted) <==> Clear(span, Sort(accepted))
    ensures RebaseShift(span, accepted)
            == if Clear(span, accepted) then Ok(ShiftAt(span.location.start, Sort(accepted)))
              else Err(SpanOverlap(span.spanId))
  {
    RebaseShiftMeaning(span, accepted);
    ShiftErrors(span, accepted);
    SameElements(accepted);
    ShiftOfSorted(span.location.start, accepted);
  }

  ghost function Moved(span: ProtectedSpan, cs: seq<Change>): ProtectedSpan {
    span.(location := ShiftedLocation(span.location, cs))
  }

  lemma MovedReads(span: ProtectedSpan, text: string, cs: seq<Change>)
    requires Applicable(text, cs) && ValidOffsets(span) && Clear(span, cs)
    ensures ShiftAt(span.location.end, cs) == ShiftAt(span.location.start, cs)
    ensures Reads(Moved(span, cs), NewText(text, cs)) <==> Reads(span, text)
  {
    var l := ShiftedLocation(span.location, cs);
    MovedSpanReads(span.location.start, span.location.end, text, cs, NewText(text, cs), l.start, l.end);
  }

  lemma RebaseByShift(span: ProtectedSpan, accepted: seq<Change>, text: string, cs: seq<Change>)
    requires RebaseShift(span, accepted) == Ok(ShiftAt(span.location.start, cs))
    requires ShiftAt(span.location.end, cs) == ShiftAt(span.location.start, cs)
    ensures RebasedSpan(span, accepted, text)
            == if Reads(Moved(span, cs), text) then Ok(Moved(span, cs)) else Err(SpanRebaseFailed(span.spanId))
  {
  }

  lemma BlockedSpan(span: ProtectedSpan, accepted: seq<Change>, text: string)
    requires RebaseShift(span, accepted).Err?
    ensures RebasedSpan(span, accepted, text).Err?
  {
  }

  /**
   Rebasing one span over the changes that made the new text: it succeeds exactly when the span read its text in the old
   text and no change overlaps it, and then both ends move by the shift of `_shifted_offset` (so the length is kept).
   */
  lemma RebaseSpanIff(span: ProtectedSpan, text: string, accepted: seq<Change>)
    requires Applicable(text, Sort(accepted)) && ValidOffsets(span)
    ensures var r := RebasedSpan(span, accepted, NewText(text, Sort(accepted)));
            if Clear(span, accepted) && Reads(span, text)
            then r == Ok(Moved(span, Sort(accepted)))
                 && ShiftAt(span.location.end, Sort(accepted)) == ShiftAt(span.location.start, Sort(accepted))
            else r.Err?
  {
    var cs := Sort(accepted);
    var text' := NewText(text, cs);
    ClearShift(span, accepted);
    if Clear(span, accepted) {
      MovedReads(span, text, cs);
      RebaseByShift(span, accepted, text', cs);
    } else {
      BlockedSpan(span, accepted, text');
    }
  }

  lemma {:induction false} RebasedPointwise(spans: seq<ProtectedSpan>, cs: seq<Change>, text: string)
    ensures var r := RebasedSpans(spans, cs, text);
            && (r.Ok? <==> forall i :: 0 <= i < |spans| ==> RebasedSpan(spans[i], cs, text).Ok?)
            && (r.Ok? ==> |r.value| == |spans|
                          && forall i :: 0 <= i < |spans| ==> r.value[i] == RebasedSpan(spans[i], cs, text).value)
    decreases |spans|
  {
    if |spans| > 0 {
      RebasedPointwise(spans[1..], cs, text);
      assert forall i :: 1 <= i < |spans| ==> spans[i] == spans[1..][i - 1];
    }
  }

  /** Every span reads its text. */
  ghost predicate SpansRead(spans: seq<ProtectedSpan>, text: string) {
    forall s :: s in spans ==> Reads(s, text)
  }

  /** Rebasing a span set succeeds exactly when every span was exact and no accepted change overlaps one. */
  lemma RebaseSucceedsIff(spans: seq<ProtectedSpan>, text: string, accepted: seq<Change>)
    requires Applicable(text, Sort(accepted)) && forall s :: s in spans ==> ValidOffsets(s)
    ensures var r := RebasedSpans(spans, accepted, NewText(text, Sort(accepted)));
            && (r.Ok? <==> SpansRead(spans, text) && forall s :: s in spans ==> Clear(s, accepted))
            && (r.Ok? ==> |r.value| == |spans| && SpansRead(r.value, NewText(text, Sort(accepted)))
                          && forall i :: 0 <= i < |spans| ==>
                               r.value[i] == Moved(spans[i], Sort(accepted)))
  {
    var text' := NewText(text, Sort(accepted));
    RebasedPointwise(spans, accepted, text');
    forall i | 0 <= i < |spans|
      ensures RebasedSpan(spans[i], accepted, text').Ok? <==> Reads(spans[i], text) && Clear(spans[i], accepted)
      ensures RebasedSpan(spans[i], accepted, text').Ok? ==>
              RebasedSpan(spans[i], accepted, text').value == Moved(spans[i], Sort(accepted))
              && Reads(Moved(spans[i], Sort(accepted)), text')
    {
      RebaseSpanIff(spans[i], text, accepted);
      ClearShift(spans[i], accepted);
      if Clear(spans[i], accepted) {
        MovedReads(spans[i], text, Sort(accepted));
      }
    }
  }

  /** The ends of a span that no change overlaps are positions no change straddles. */
  lemma ClearSpanEnds(span: ProtectedSpan, cs: seq<Change>)
    requires Ordered(cs) && ValidOffsets(span) && Clear(span, cs)
    ensures Uncut(span.location.start, cs) && Uncut(span.location.end, cs)
  {
    assert forall k :: 0 <= k < |cs| ==> cs[k] in cs;
  }

  /**
   Rebasing keeps the order of any two disjoint spans, in whatever order the spans are listed: the store lists them by
   the text of their ids, so "s10" comes before "s2".
   */
  lemma RebaseKeepsOrder(spans: seq<ProtectedSpan>, text: string, accepted: seq<Change>, i: nat, j: nat)
    requires Applicable(text, Sort(accepted)) && forall s :: s in spans ==> ValidOffsets(s)
    requires RebasedSpans(spans, accepted, NewText(text, Sort(accepted))).Ok?
    requires i < |spans| && j < |spans| && spans[i].location.end <= spans[j].location.start
    ensures var moved := RebasedSpans(spans, accepted, NewText(text, Sort(accepted))).value;
            |moved| == |spans| && moved[i].location.end <= moved[j].location.start
  {
    var cs := Sort(accepted);
    RebaseSucceedsIff(spans, text, accepted);
    assert spans[i] in spans && spans[j] in spans;
    ClearShift(spans[i], accepted);
    ClearShift(spans[j], accepted);
    ClearSpanEnds(spans[i], cs);
    ClearSpanEnds(spans[j], cs);
    ShiftMonotone(text, cs, spans[i].location.end, spans[j].location.start);
  }

  /** In particular a sorted, disjoint list of spans stays sorted and disjoint. */
  lemma RebaseKeepsDisjoint(spans: seq<ProtectedSpan>, text: string, accepted: seq<Change>)
    requires Applicable(text, Sort(accepted)) && SortedDisjoint(spans)
    requires RebasedSpans(spans, accepted, NewText(text, Sort(accepted))).Ok?
    ensures SortedDisjoint(RebasedSpans(spans, accepted, NewText(text, Sort(accepted))).value)
  {
    var cs := Sort(accepted);
    assert forall s :: s in spans ==> ValidOffsets(s);
    RebaseSucceedsIff(spans, text, accepted);
    var moved := RebasedSpans(spans, accepted, NewText(text, cs)).value;
    forall i | 0 <= i < |spans| ensures ValidOffsets(moved[i]) {
      assert spans[i] in spans;
      ClearShift(spans[i], accepted);
      ClearSpanEnds(spans[i], cs);
      ShiftMonotone(text, cs, spans[i].location.start, spans[i].location.end);
    }
    forall i, j | 0 <= i < j < |spans| ensures moved[i].location.end <= moved[j].location.start {
      RebaseKeepsOrder(spans, text, accepted, i, j);
    }
  }
}
