/**
 Applying a reviewed proposal to a canonical document: the surface is spliced, every node's text is spliced
 locally, and every node's span is shifted.  The theorems say that the three agree.
 */
module RevisionTransform {
  import opened Wrappers
  import opened Sequences
  import opened LexicalChanges
  import opened LexicalApplication
  import opened Documents

  // ----- _ordered_changes -----

  predicate HasLineBreak(s: string) { '\n' in s || '\r' in s }

  /** The first reason to reject the sorted changes, given where the previous one ended. */
  function OrderError(cs: seq<Change>, previousEnd: int): Option<Error> {
    if |cs| == 0 then None
    else if HasLineBreak(cs[0].sourceSurface) then Some(SourceLineBoundary(cs[0].changeId))
    else if HasLineBreak(cs[0].target) then Some(TargetLineBoundary(cs[0].changeId))
    else if cs[0].offset < previousEnd then Some(OverlappingChanges)
    else OrderError(cs[1..], cs[0].End())
  }

  method OrderedChanges(proposal: Proposal) returns (r: Result<seq<Change>>)
    ensures r == match OrderError(Sort(proposal.changes), -1)
                 case Some(e) => Err(e)
                 case None => Ok(Sort(proposal.changes))
  {
    var changes := Sort(proposal.changes);
    var previousEnd := -1;
    for i := 0 to |changes|
      invariant OrderError(changes[i..], previousEnd) == OrderError(changes, -1)
    {
      var change := changes[i];
      assert changes[i..][1..] == changes[i + 1..];
      if '\n' in change.sourceSurface || '\r' in change.sourceSurface {
        return Err(SourceLineBoundary(change.changeId));
      }
      if '\n' in change.target || '\r' in change.target {
        return Err(TargetLineBoundary(change.changeId));
      }
      if change.offset < previousEnd {
        return Err(OverlappingChanges);
      }
      previousEnd := change.offset + change.length;
    }
    return Ok(changes);
  }

  ghost predicate NoLineBreaks(cs: seq<Change>) {
    forall i :: 0 <= i < |cs| ==> !HasLineBreak(cs[i].sourceSurface) && !HasLineBreak(cs[i].target)
  }

  /** For changes of positive length the check passes exactly when no change has a line break and no two overlap. */
  lemma {:induction false} OrderCheckMeaning(cs: seq<Change>, previousEnd: int)
    requires forall i :: 0 <= i < |cs| ==> cs[i].length > 0
    ensures OrderError(cs, previousEnd).None? <==>
            NoLineBreaks(cs) && Ordered(cs) && (|cs| > 0 ==> previousEnd <= cs[0].offset)
    decreases |cs|
  {
    if |cs| > 0 {
      OrderCheckMeaning(cs[1..], cs[0].End());
      if NoLineBreaks(cs[1..]) && Ordered(cs[1..]) && (|cs| > 1 ==> cs[0].End() <= cs[1].offset) {
        assert forall j :: 1 <= j < |cs| ==> cs[j] == cs[1..][j - 1];
        assert forall j :: 1 <= j < |cs| ==> cs[1].offset <= cs[j].offset;
        assert Ordered(cs);
      }
    }
  }

  // ----- _shifted_offset -----

  method ShiftedOffset(offset: int, changes: seq<Change>) returns (r: int)
    ensures r == offset + ShiftAt(offset, changes)
  {
    var shift := 0;
    for i := 0 to |changes|
      invariant shift + ShiftAt(offset, changes[i..]) == ShiftAt(offset, changes)
    {
      assert changes[i..][1..] == changes[i + 1..];
      if changes[i].offset + changes[i].length <= offset {
        shift := shift + (|changes[i].target| - changes[i].length);
      }
    }
    return offset + shift;
  }

  // ----- _changes_inside -----

  predicate Overlaps(start: int, end: int, c: Change) { c.offset < end && start < c.End() }

  /** The first change that overlaps the span without lying inside it. */
  function FirstCrossing(start: int, end: int, cs: seq<Change>): Option<string> {
    if |cs| == 0 then None
    else if Overlaps(start, end, cs[0]) && (cs[0].offset < start || cs[0].End() > end) then Some(cs[0].changeId)
    else FirstCrossing(start, end, cs[1..])
  }

  method ChangesInside(start: int, end: int, changes: seq<Change>) returns (r: Result<seq<Change>>)
    ensures r == match FirstCrossing(start, end, changes)
                 case Some(id) => Err(CrossesNodeBoundary(id))
                 case None => Ok(Inside(start, end, changes))
  {
    var inside: seq<Change> := [];
    for i := 0 to |changes|
      invariant inside + Inside(start, end, changes[i..]) == Inside(start, end, changes)
      invariant FirstCrossing(start, end, changes[i..]) == FirstCrossing(start, end, changes)
    {
      var change := changes[i];
      ghost var later := Inside(start, end, changes[i + 1..]);
      DropStep(changes, i);
      Associate(inside, [change], later);
      PrependEmpty(later);
      var changeEnd := change.offset + change.length;
      if change.offset < end && start < changeEnd {
        if change.offset < start || changeEnd > end {
          return Err(CrossesNodeBoundary(change.changeId));
        }
        inside := inside + [change];
      }
    }
    AppendEmpty(inside);
    return Ok(inside);
  }

  lemma {:induction false} FirstCrossingMeaning(start: int, end: int, cs: seq<Change>)
    ensures FirstCrossing(start, end, cs).None? <==>
            forall i :: 0 <= i < |cs| && Overlaps(start, end, cs[i]) ==> start <= cs[i].offset && cs[i].End() <= end
    decreases |cs|
  {
    if |cs| > 0 {
      FirstCrossingMeaning(start, end, cs[1..]);
      assert forall i :: 1 <= i < |cs| ==> cs[i] == cs[1..][i - 1];
    }
  }

  /** `_changes_inside` accepts a span exactly when no change straddles either end of it. */
  lemma AcceptedIffUncut(start: int, end: int, cs: seq<Change>)
    requires start <= end && forall i :: 0 <= i < |cs| ==> cs[i].length > 0
    ensures FirstCrossing(start, end, cs).None? <==> Uncut(start, cs) && Uncut(end, cs)
  {
    FirstCrossingMeaning(start, end, cs);
  }

  /**
   For a reversed span the check passes exactly when no change covers both ends: it does not see a change that
   straddles one.
   */
  lemma ReversedAcceptedIff(start: int, end: int, cs: seq<Change>)
    requires end < start
    ensures FirstCrossing(start, end, cs).None?
            <==> forall i :: 0 <= i < |cs| ==> end <= cs[i].offset || cs[i].End() <= start
  {
    FirstCrossingMeaning(start, end, cs);
  }

  /** The check on this span accepts exactly the changes that straddle neither of its ends. */
  ghost predicate CheckIsExact(start: int, end: int) {
    forall cs: seq<Change> :: (forall i :: 0 <= i < |cs| ==> cs[i].length > 0) ==>
      (FirstCrossing(start, end, cs).None? <==> Uncut(start, cs) && Uncut(end, cs))
  }

  lemma ReversedSpanIsAccepted(start: int, end: int, c: Change)
    requires end < start && c.offset == start - 1 && c.length == 2
    ensures FirstCrossing(start, end, [c]).None? && !Uncut(start, [c])
  {
    FirstCrossingMeaning(start, end, [c]);
    assert [c][0] == c;
  }

  /** The boundary check is exact for a span precisely when the span is not reversed. */
  lemma CheckIsExactIff(start: int, end: int)
    ensures CheckIsExact(start, end) <==> start <= end
  {
    if start <= end {
      forall cs: seq<Change> | forall i :: 0 <= i < |cs| ==> cs[i].length > 0
        ensures FirstCrossing(start, end, cs).None? <==> Uncut(start, cs) && Uncut(end, cs)
      {
        AcceptedIffUncut(start, end, cs);
      }
    } else {
      var c := Change("", start - 1, 2, "", "", "", "", 0.0, Safe, "", "", "");
      ReversedSpanIsAccepted(start, end, c);
      assert forall i :: 0 <= i < |[c]| ==> [c][i].length > 0;
    }
  }

  lemma {:induction false} InsideIsOrdered(start: int, end: int, cs: seq<Change>)
    requires Ordered(cs) && FirstCrossing(start, end, cs).None?
    ensures Ordered(Inside(start, end, cs)) && Within(start, end, Inside(start, end, cs))
    ensures forall c :: c in Inside(start, end, cs) ==> c in cs
    decreases |cs|
  {
    if |cs| > 0 {
      OrderedTail(cs);
      InsideIsOrdered(start, end, cs[1..]);
      HeadBeforeSome(cs, Inside(start, end, cs[1..]));
    }
  }

  // ----- _apply_node_changes -----

  function Ids(cs: seq<Change>): seq<string> {
    seq(|cs|, i requires 0 <= i < |cs| => cs[i].changeId)
  }

  /** The changes in the coordinates of a node that starts at `start`. */
  function Local(cs: seq<Change>, start: int): (r: seq<Change>)
    ensures |r| == |cs| && forall i :: 0 <= i < |cs| ==> r[i] == cs[i].(offset := cs[i].offset - start)
  {
    seq(|cs|, i requires 0 <= i < |cs| => cs[i].(offset := cs[i].offset - start))
  }

  ghost predicate Touched(node: Node, inside: seq<Change>) { |inside| > 0 && node.text != "" }

  ghost function ShiftedLocation(l: SourceLocation, cs: seq<Change>): SourceLocation {
    SourceLocation(l.start + ShiftAt(l.start, cs), l.end + ShiftAt(l.end, cs), l.lineStart, l.lineEnd)
  }

  /** The transformed node and the ids of the changes that edited its text. */
  ghost function TransformedNode(node: Node, surface: string, cs: seq<Change>): Result<(Node, seq<string>)>
    requires Applicable(surface, cs)
  {
    var l := node.location;
    if FirstCrossing(l.start, l.end, cs).Some? then Err(CrossesNodeBoundary(FirstCrossing(l.start, l.end, cs).value))
    else
      InsideIsOrdered(l.start, l.end, cs);
      var inside := Inside(l.start, l.end, cs);
      var moved := node.(location := ShiftedLocation(l, cs));
      if !Touched(node, inside) then Ok((moved, []))
      else if node.nodeType in PROTECTED_TEXT_NODE_TYPES then Err(ProtectedNode(node.nodeId))
      else if node.nodeType !in EDITABLE_NODE_TYPES then Err(UnsupportedNode(node.nodeId))
      else if l.start < 0 || l.end > |surface| || l.end < l.start then Err(InvalidNodeOffsets(node.nodeId))
      else if surface[l.start..l.end] != node.text then Err(InexactNode(node.nodeId))
      else Ok((moved.(text := EditedSegment(surface, l.start, l.end, inside)), Ids(inside)))
  }

  lemma LocalOrdered(p: int, from: int, q: int, cs: seq<Change>)
    requires Ordered(cs) && Within(p + from, q, cs)
    ensures Ordered(Local(cs, p)) && Within(from, q - p, Local(cs, p))
  {
  }

  lemma LocalTail(cs: seq<Change>, p: int)
    requires |cs| > 0
    ensures Local(cs, p)[1..] == Local(cs[1..], p)
    ensures var d := Local(cs, p)[0];
            d.offset == cs[0].offset - p && d.End() == cs[0].End() - p && d.target == cs[0].target
  {
  }

  lemma {:induction false} RebuildLocal(text: string, p: nat, q: nat, from: nat, cs: seq<Change>)
    requires p <= q <= |text| && from <= q - p && Chained(p + from, q, cs)
    ensures Rebuild(text[p..q], from, Local(cs, p)) == Rebuild(text[..q], p + from, cs)
    decreases |cs|
  {
    if |cs| > 0 {
      RebuildLocal(text, p, q, cs[0].End() - p, cs[1..]);
      RebuildLocalStep(text, p, q, from, cs, Local(cs, p), Local(cs[1..], p));
    } else {
      RebuildLocalEnd(text, p, q, from, Local(cs, p));
    }
  }

  lemma RebuildLocalEnd(text: string, p: nat, q: nat, from: nat, none: seq<Change>)
    requires p <= q <= |text| && from <= q - p && none == []
    ensures Rebuild(text[p..q], from, none) == Rebuild(text[..q], p + from, [])
  {
    SliceOfNode(text, p, q, from, q - p);
  }

  lemma RebuildLocalStep(text: string, p: nat, q: nat, from: nat, cs: seq<Change>, local: seq<Change>,
      rest: seq<Change>)
    requires p <= q <= |text| && from <= q - p && Chained(p + from, q, cs) && |cs| > 0
    requires local == Local(cs, p) && rest == Local(cs[1..], p)
    requires Rebuild(text[p..q], cs[0].End() - p, rest) == Rebuild(text[..q], cs[0].End(), cs[1..])
    ensures Rebuild(text[p..q], from, local) == Rebuild(text[..q], p + from, cs)
  {
    LocalTail(cs, p);
    SliceOfNode(text, p, q, from, cs[0].offset - p);
    RebuildHead(text[p..q], from, local);
    RebuildHead(text[..q], p + from, cs);
  }

  lemma RebuildHead(text: string, from: nat, cs: seq<Change>)
    requires |cs| > 0 && from <= cs[0].offset <= |text|
    ensures Rebuild(text, from, cs)
            == text[from..cs[0].offset] + cs[0].target + Rebuild(text, cs[0].End(), cs[1..])
  {
  }

  lemma SliceOfNode(text: string, p: nat, q: nat, i: nat, j: nat)
    requires i <= j && p + j <= q <= |text|
    ensures text[p..q][i..j] == text[..q][p + i..p + j]
  {
  }

  lemma LocalFits(text: string, p: nat, q: nat, cs: seq<Change>)
    requires p <= q <= |text| && Applicable(text, cs) && Within(p, q, cs)
    ensures Applicable(text[p..q], Local(cs, p))
  {
    forall i | 0 <= i < |cs| ensures Fits(text[p..q], Local(cs, p)[i]) {
      assert Fits(text, cs[i]) && p <= cs[i].offset && cs[i].End() <= q;
      SliceOfSlice(text, p, q, cs[i].offset - p, cs[i].End() - p);
    }
  }

  /** The node-local back-to-front splice gives the edited segment of the surface. */
  lemma LocalSplice(text: string, p: nat, q: nat, cs: seq<Change>)
    requires p <= q <= |text| && Applicable(text, cs) && Within(p, q, cs)
    ensures SpliceInOrder(text[p..q], Local(Reverse(cs), p)) == Ok(EditedSegment(text, p, q, cs))
  {
    LocalFits(text, p, q, cs);
    LocalOrdered(p, 0, q, cs);
    LocalText(text, p, q, cs);
    BackToFrontIsLeftToRight(text[p..q], Local(cs, p));
    LocalReverse(cs, p);
  }

  lemma LocalText(text: string, p: nat, q: nat, cs: seq<Change>)
    requires p <= q <= |text| && Ordered(cs) && Within(p, q, cs)
    ensures Rebuild(text[p..q], 0, Local(cs, p)) == EditedSegment(text, p, q, cs)
  {
    OrderedIsChained(p, q, cs);
    RebuildLocal(text, p, q, 0, cs);
  }

  lemma LocalReverse(cs: seq<Change>, p: int)
    ensures Local(Reverse(cs), p) == Reverse(Local(cs, p))
  {
  }

  lemma InsideApplicable(text: string, start: int, end: int, cs: seq<Change>)
    requires Applicable(text, cs) && FirstCrossing(start, end, cs).None?
    ensures Applicable(text, Inside(start, end, cs)) && Within(start, end, Inside(start, end, cs))
    ensures SortDescending(Inside(start, end, cs)) == Reverse(Inside(start, end, cs))
  {
    InsideIsOrdered(start, end, cs);
    var inside := Inside(start, end, cs);
    forall i | 0 <= i < |inside| ensures Fits(text, inside[i]) {
      assert inside[i] in cs;
    }
    ReversePermutes(inside);
    SortsAlike(inside, Reverse(inside));
  }

  /**
   Edit and move one node.  Two of the source's checks are dead once the surface splice has succeeded:
   the bounds of a local slice and its comparison with the change's source surface.
   */
  method ApplyNodeChanges(node: Node, surface: string, changes: seq<Change>) returns (r: Result<(Node, seq<string>)>)
    requires Applicable(surface, changes)
    ensures r == TransformedNode(node, surface, changes)
  {
    var start, end := node.location.start, node.location.end;
    var crossing := ChangesInside(start, end, changes);
    if crossing.Err? {
      return Err(crossing.error);
    }
    var nodeChanges := crossing.value;
    if nodeChanges != [] && node.text != "" && node.nodeType in PROTECTED_TEXT_NODE_TYPES {
      return Err(ProtectedNode(node.nodeId));
    }
    if nodeChanges != [] && node.text != "" && node.nodeType !in EDITABLE_NODE_TYPES {
      return Err(UnsupportedNode(node.nodeId));
    }
    var newText, covered := node.text, [];
    if nodeChanges != [] && node.text != "" {
      if start < 0 || end > |surface| || end < start {
        return Err(InvalidNodeOffsets(node.nodeId));
      }
      if Slice(surface, start, end) != node.text {
        return Err(InexactNode(node.nodeId));
      }
      newText := SpliceNode(node.text, surface, start, end, changes, nodeChanges);
      covered := Ids(nodeChanges);
    }
    var newStart := ShiftedOffset(start, changes);
    var newEnd := ShiftedOffset(end, changes);
    r := Ok((node.(text := newText,
                   location := node.location.(start := newStart, end := newEnd)), covered));
  }

  lemma SpliceSetup(surface: string, start: nat, end: nat, changes: seq<Change>)
    requires start <= end <= |surface| && Applicable(surface, changes) && FirstCrossing(start, end, changes).None?
    ensures var inside := Inside(start, end, changes);
            && Ordered(inside) && Within(start, end, inside)
            && SpliceInOrder(surface[start..end], Local(SortDescending(inside), start))
               == Ok(EditedSegment(surface, start, end, inside))
  {
    InsideApplicable(surface, start, end, changes);
    LocalSplice(surface, start, end, Inside(start, end, changes));
  }

  /** The loop of `_apply_node_changes` over the changes inside an exact node. */
  method SpliceNode(text: string, surface: string, start: nat, end: nat, ghost changes: seq<Change>,
      nodeChanges: seq<Change>)
    returns (working: string)
    requires start <= end <= |surface| && surface[start..end] == text
    requires Applicable(surface, changes) && FirstCrossing(start, end, changes).None?
    requires nodeChanges == Inside(start, end, changes)
    ensures Ordered(nodeChanges) && Within(start, end, nodeChanges)
    ensures working == EditedSegment(surface, start, end, nodeChanges)
  {
    SpliceSetup(surface, start, end, changes);
    // Disjoint changes have distinct offsets, so (offset, length) sorts them as offset alone does.
    var ordered := SortDescending(nodeChanges);
    ghost var local := Local(ordered, start);
    ghost var goal := EditedSegment(surface, start, end, nodeChanges);
    working := text;
    for i := 0 to |ordered|
      invariant SplicesTo(working, local, i, goal)
    {
      var change := ordered[i];
      var localOffset := change.offset - start;
      var next := Slice(working, 0, localOffset) + change.target
                  + Slice(working, localOffset + change.length, |working|);
      SpliceStep(working, local, i, change.(offset := localOffset), next, goal);
      if Slice(working, localOffset, localOffset + change.length) != change.sourceSurface {
        assert false;
      }
      working := next;
    }
  }

  /** The change at hand fits the working text, and splicing it leaves the later ones to do. */
  lemma SpliceHead(working: string, cs: seq<Change>)
    requires |cs| > 0 && SpliceInOrder(working, cs).Ok?
    ensures Fits(working, cs[0]) && SpliceInOrder(working, cs) == SpliceInOrder(Splice(working, cs[0]), cs[1..])
  {
  }

  /** Splicing the changes from the `i`th on into the working text gives `goal`. */
  ghost predicate SplicesTo(working: string, local: seq<Change>, i: nat, goal: string) {
    i <= |local| && SpliceInOrder(working, local[i..]) == Ok(goal)
  }

  /** One turn of the loop, as the source slices the text. */
  lemma SpliceStep(working: string, local: seq<Change>, i: nat, c: Change, next: string, goal: string)
    requires i < |local| && local[i] == c && SplicesTo(working, local, i, goal)
    requires next == Slice(working, 0, c.offset) + c.target + Slice(working, c.offset + c.length, |working|)
    ensures Slice(working, c.offset, c.offset + c.length) == c.sourceSurface && SplicesTo(next, local, i + 1, goal)
  {
    DropStep(local, i);
    SpliceHead(working, local[i..]);
    SlicesAround(working, c);
  }

  /** The slices the source takes around a change that fits are the plain ones. */
  lemma SlicesAround(working: string, c: Change)
    requires Fits(working, c)
    ensures Slice(working, c.offset, c.End()) == c.sourceSurface
    ensures Slice(working, 0, c.offset) + c.target + Slice(working, c.End(), |working|) == Splice(working, c)
  {
  }

  // ----- apply_reviewed_proposal -----

  lemma {:induction false} SplicedChangesArePositive(w: string, cs: seq<Change>)
    requires SpliceInOrder(w, cs).Ok?
    ensures forall c :: c in cs ==> c.length > 0
    decreases |cs|
  {
    if |cs| > 0 {
      SplicedChangesArePositive(Splice(w, cs[0]), cs[1..]);
      assert forall c :: c in cs ==> c == cs[0] || c in cs[1..];
    }
  }

  lemma SameElements(cs: seq<Change>)
    ensures forall c :: c in Sort(cs) <==> c in cs
    ensures forall c :: c in SortDescending(cs) <==> c in cs
  {
    SortPermutes(cs);
    assert forall c :: c in Sort(cs) <==> c in multiset(Sort(cs));
    assert forall c :: c in cs <==> c in multiset(cs);
    ReversePermutes(cs);
    SortPermutes(Reverse(cs));
    ReversePermutes(Sort(Reverse(cs)));
    assert forall c :: c in SortDescending(cs) <==> c in multiset(SortDescending(cs));
  }

  /** Once the order check and the surface splice have passed, the sorted changes are disjoint and fit the surface. */
  lemma AppliedIsApplicable(sha256: string -> string, surface: string, proposal: Proposal)
    requires OrderError(Sort(proposal.changes), -1).None?
    requires AppliedText(sha256, surface, proposal, None).Ok?
    ensures Applicable(surface, Sort(proposal.changes))
    ensures AppliedText(sha256, surface, proposal, None) == Ok(NewText(surface, Sort(proposal.changes)))
  {
    var cs := Sort(proposal.changes);
    SelectAll(proposal.changes);
    SplicedChangesArePositive(surface, SortDescending(proposal.changes));
    SameElements(proposal.changes);
    assert forall i :: 0 <= i < |cs| ==> cs[i] in proposal.changes;
    OrderCheckMeaning(cs, -1);
    ApplyChangesMeaning(sha256, surface, proposal, None);
  }

  ghost function TransformedNodes(nodes: seq<Node>, surface: string, cs: seq<Change>): Result<(seq<Node>, set<string>)>
    requires Applicable(surface, cs)
  {
    if |nodes| == 0 then Ok(([], {}))
    else
      match TransformedNode(nodes[0], surface, cs)
      case Err(e) => Err(e)
      case Ok(head) =>
        match TransformedNodes(nodes[1..], surface, cs)
        case Err(e) => Err(e)
        case Ok(tail) => Ok(([head.0] + tail.0, (set id | id in head.1) + tail.1))
  }

  /** The first editable text node that does not read its own span of the surface. */
  function FirstInvalid(nodes: seq<Node>, surface: string): Option<string> {
    if |nodes| == 0 then None
    else if nodes[0].nodeType in EDITABLE_NODE_TYPES && nodes[0].text != ""
            && Slice(surface, nodes[0].location.start, nodes[0].location.end) != nodes[0].text
    then Some(nodes[0].nodeId)
    else FirstInvalid(nodes[1..], surface)
  }

  /** What `apply_reviewed_proposal` returns; `nfc` is Unicode normalization. */
  ghost function Transformed(sha256: string -> string, nfc: string -> string, document: Document,
      proposal: Proposal): Result<Document>
  {
    var cs := Sort(proposal.changes);
    if OrderError(cs, -1).Some? then Err(OrderError(cs, -1).value)
    else
      match AppliedText(sha256, document.surfaceText, proposal, None)
      case Err(e) => Err(e)
      case Ok(newSurface) =>
        AppliedIsApplicable(sha256, document.surfaceText, proposal);
        match TransformedNodes(document.nodes, document.surfaceText, cs)
        case Err(e) => Err(e)
        case Ok(transformed) =>
          if transformed.1 != (set c | c in cs :: c.changeId) then Err(UncoveredChanges)
          else if FirstInvalid(transformed.0, newSurface).Some?
          then Err(SurfaceValidation(FirstInvalid(transformed.0, newSurface).value))
          else Ok(document.(surfaceText := newSurface, canonicalText := nfc(newSurface), nodes := transformed.0))
  }

  method ApplyReviewedProposal(sha256: string -> string, nfc: string -> string, document: Document, proposal: Proposal)
    returns (r: Result<Document>)
    ensures r == Transformed(sha256, nfc, document, proposal)
  {
    var ordered := OrderedChanges(proposal);
    if ordered.Err? {
      return Err(ordered.error);
    }
    var changes := ordered.value;
    var spliced := ApplyChanges(sha256, document.surfaceText, proposal, None);
    if spliced.Err? {
      return Err(spliced.error);
    }
    AppliedIsApplicable(sha256, document.surfaceText, proposal);
    var nodes := TransformNodes(document.nodes, document.surfaceText, changes);
    if nodes.Err? {
      return Err(nodes.error);
    }
    var (newNodes, covered) := nodes.value;
    if covered != set c | c in changes :: c.changeId {
      return Err(UncoveredChanges);
    }
    var invalid := ValidateNodes(newNodes, spliced.value);
    if invalid.Some? {
      return Err(SurfaceValidation(invalid.value));
    }
    return Ok(document.(surfaceText := spliced.value, canonicalText := nfc(spliced.value), nodes := newNodes));
  }

  /** The nodes transformed so far joined with what the others give. */
  ghost function Joined(done: seq<Node>, covered: set<string>,
      rest: Result<(seq<Node>, set<string>)>): Result<(seq<Node>, set<string>)>
  {
    match rest
    case Err(e) => Err(e)
    case Ok(tail) => Ok((done + tail.0, covered + tail.1))
  }

  lemma JoinStep(done: seq<Node>, covered: set<string>, nodes: seq<Node>, i: nat, surface: string, cs: seq<Change>)
    requires Applicable(surface, cs) && i < |nodes|
    ensures var head := TransformedNode(nodes[i], surface, cs);
            Joined(done, covered, TransformedNodes(nodes[i..], surface, cs))
            == if head.Err? then Err(head.error)
               else Joined(done + [head.value.0], covered + (set id | id in head.value.1),
                           TransformedNodes(nodes[i + 1..], surface, cs))
  {
    assert nodes[i..][1..] == nodes[i + 1..];
    var head, rest := TransformedNode(nodes[i], surface, cs), TransformedNodes(nodes[i + 1..], surface, cs);
    if head.Ok? && rest.Ok? {
      assert done + ([head.value.0] + rest.value.0) == done + [head.value.0] + rest.value.0;
      assert covered + ((set id | id in head.value.1) + rest.value.1)
             == covered + (set id | id in head.value.1) + rest.value.1;
    }
  }

  lemma JoinNone(r: Result<(seq<Node>, set<string>)>, done: seq<Node>, covered: set<string>)
    ensures Joined([], {}, r) == r
    ensures Joined(done, covered, Ok(([], {}))) == Ok((done, covered))
  {
    if r.Ok? {
      assert [] + r.value.0 == r.value.0 && {} + r.value.1 == r.value.1;
    }
    assert done + [] == done && covered + {} == covered;
  }

  /** The loop that transforms every node and collects the ids of the covered changes. */
  method TransformNodes(nodes: seq<Node>, surface: string, changes: seq<Change>)
    returns (r: Result<(seq<Node>, set<string>)>)
    requires Applicable(surface, changes)
    ensures r == TransformedNodes(nodes, surface, changes)
  {
    var newNodes: seq<Node>, covered: set<string> := [], {};
    ghost var all := TransformedNodes(nodes, surface, changes);
    assert nodes[0..] == nodes;
    JoinNone(all, newNodes, covered);
    for i := 0 to |nodes|
      invariant Joined(newNodes, covered, TransformedNodes(nodes[i..], surface, changes)) == all
    {
      JoinStep(newNodes, covered, nodes, i, surface, changes);
      var node := ApplyNodeChanges(nodes[i], surface, changes);
      if node.Err? {
        return Err(node.error);
      }
      newNodes := newNodes + [node.value.0];
      covered := covered + set id | id in node.value.1;
    }
    JoinNone(all, newNodes, covered);
    return Ok((newNodes, covered));
  }

  /** The final loop over the transformed nodes. */
  method ValidateNodes(nodes: seq<Node>, surface: string) returns (r: Option<string>)
    ensures r == FirstInvalid(nodes, surface)
  {
    for i := 0 to |nodes|
      invariant FirstInvalid(nodes[i..], surface) == FirstInvalid(nodes, surface)
    {
      var node := nodes[i];
      assert nodes[i..][0] == node && nodes[i..][1..] == nodes[i + 1..];
      if node.nodeType in EDITABLE_NODE_TYPES && node.text != ""
         && Slice(surface, node.location.start, node.location.end) != node.text {
        return Some(node.nodeId);
      }
    }
    return None;
  }
}
