/**
 What `apply_reviewed_proposal` keeps: every node that read its span of the old surface reads its shifted span
 of the new one, the structure is untouched, and the last validation loop cannot raise on such documents.
 */
module RevisionAgreement {
  import opened Wrappers
  import opened Sequences
  import opened LexicalChanges
  import opened LexicalApplication
  import opened Documents
  import opened RevisionTransform

  /** The node's text is exactly its span of the surface. */
  ghost predicate Exact(surface: string, node: Node) {
    && 0 <= node.location.start <= node.location.end <= |surface|
    && surface[node.location.start..node.location.end] == node.text
  }

  ghost predicate MustBeExact(node: Node) { node.nodeType in EDITABLE_NODE_TYPES && node.text != "" }

  lemma InsideOfEmptySpan(p: int, cs: seq<Change>)
    requires Uncut(p, cs)
    ensures Inside(p, p, cs) == []
  {
    if |cs| > 0 {
      assert Uncut(p, cs[1..]) by { assert forall i :: 1 <= i < |cs| ==> cs[i] == cs[1..][i - 1]; }
      InsideOfEmptySpan(p, cs[1..]);
    }
  }

  lemma EmptySegment(surface: string, p: nat, q: nat)
    requires p <= q <= |surface|
    ensures EditedSegment(surface, p, q, []) == surface[p..q]
  {
    assert surface[..q][p..] == surface[p..q];
  }

  /** An accepted exact node is exact again: edited paragraphs and untouched headings alike. */
  lemma ExactNodeStaysExact(node: Node, surface: string, cs: seq<Change>)
    requires Applicable(surface, cs) && Exact(surface, node) && TransformedNode(node, surface, cs).Ok?
    ensures Exact(NewText(surface, cs), TransformedNode(node, surface, cs).value.0)
  {
    var l := node.location;
    AcceptedIffUncut(l.start, l.end, cs);
    if Touched(node, Inside(l.start, l.end, cs)) {
      InsideIsOrdered(l.start, l.end, cs);
      var edited := EditedSegment(surface, l.start, l.end, Inside(l.start, l.end, cs));
      EditedNodeIsExact(node, surface, cs, NewText(surface, cs), ShiftedLocation(l, cs), edited);
    } else {
      UntouchedNodeIsExact(node, surface, cs, NewText(surface, cs), ShiftedLocation(l, cs));
    }
  }

  lemma EditedNodeIsExact(node: Node, surface: string, cs: seq<Change>, text: string, l: SourceLocation, edited: string)
    requires Applicable(surface, cs) && Exact(surface, node) && text == NewText(surface, cs)
    requires Uncut(node.location.start, cs) && Uncut(node.location.end, cs) && l == ShiftedLocation(node.location, cs)
    requires var inside := Inside(node.location.start, node.location.end, cs);
             && Ordered(inside) && Within(node.location.start, node.location.end, inside)
             && edited == EditedSegment(surface, node.location.start, node.location.end, inside)
    ensures Exact(text, node.(location := l, text := edited))
  {
    SegmentImage(surface, cs, node.location.start, node.location.end);
  }

  lemma UntouchedNodeIsExact(node: Node, surface: string, cs: seq<Change>, text: string, l: SourceLocation)
    requires Applicable(surface, cs) && Exact(surface, node) && text == NewText(surface, cs)
    requires Uncut(node.location.start, cs) && Uncut(node.location.end, cs) && l == ShiftedLocation(node.location, cs)
    requires !Touched(node, Inside(node.location.start, node.location.end, cs))
    ensures Exact(text, node.(location := l))
  {
    if node.text == "" {
      InsideOfEmptySpan(node.location.start, cs);
    }
    UneditedSegment(surface, cs, node.location.start, node.location.end);
  }

  lemma {:induction false} TransformedNodesPointwise(nodes: seq<Node>, surface: string, cs: seq<Change>)
    requires Applicable(surface, cs)
    ensures var r := TransformedNodes(nodes, surface, cs);
            && (r.Ok? <==> forall i :: 0 <= i < |nodes| ==> TransformedNode(nodes[i], surface, cs).Ok?)
            && (r.Ok? ==> |r.value.0| == |nodes|
                          && forall i :: 0 <= i < |nodes|
                                         ==> r.value.0[i] == TransformedNode(nodes[i], surface, cs).value.0)
    decreases |nodes|
  {
    if |nodes| > 0 {
      TransformedNodesPointwise(nodes[1..], surface, cs);
      assert forall i :: 1 <= i < |nodes| ==> nodes[i] == nodes[1..][i - 1];
    }
  }

  // ----- Which nodes take the changes, and where the changes land -----

  /** No change straddles an end of the span; if the span is reversed, none covers both of its ends. */
  ghost predicate EndsUncut(l: SourceLocation, cs: seq<Change>) {
    if l.start <= l.end then Uncut(l.start, cs) && Uncut(l.end, cs)
    else forall i :: 0 <= i < |cs| ==> l.end <= cs[i].offset || cs[i].End() <= l.start
  }

  ghost predicate EditableAndExact(node: Node, surface: string) {
    node.nodeType in EDITABLE_NODE_TYPES && Exact(surface, node)
  }

  /** The changes spare the node's ends, and overlap its text only if it is editable and reads its span. */
  ghost predicate NodeTakes(node: Node, surface: string, cs: seq<Change>) {
    && EndsUncut(node.location, cs)
    && (node.text != "" && (exists c :: c in cs && Overlaps(node.location.start, node.location.end, c))
        ==> EditableAndExact(node, surface))
  }

  /** The change lies within the node, an editable one whose text is exactly its span. */
  ghost predicate EditsNode(c: Change, node: Node, surface: string) {
    && node.text != "" && EditableAndExact(node, surface)
    && node.location.start <= c.offset && c.End() <= node.location.end
  }

  ghost predicate EditsSome(c: Change, nodes: seq<Node>, surface: string) {
    exists node :: node in nodes && EditsNode(c, node, surface)
  }

  /** Some change of this id edits a node. */
  ghost predicate Lands(id: string, nodes: seq<Node>, surface: string, cs: seq<Change>) {
    exists c :: c in cs && c.changeId == id && EditsSome(c, nodes, surface)
  }

  ghost predicate AllLand(nodes: seq<Node>, surface: string, cs: seq<Change>) {
    forall c :: c in cs ==> Lands(c.changeId, nodes, surface, cs)
  }

  lemma {:induction false} InsideHas(start: int, end: int, cs: seq<Change>, c: Change)
    ensures c in Inside(start, end, cs) <==> c in cs && Overlaps(start, end, c)
    decreases |cs|
  {
    if |cs| > 0 {
      InsideHas(start, end, cs[1..], c);
      HeadAndTail(cs);
      assert c in cs <==> c == cs[0] || c in cs[1..];
    }
  }

  lemma InsideIsEmpty(start: int, end: int, cs: seq<Change>)
    ensures Inside(start, end, cs) != [] <==> exists c :: c in cs && Overlaps(start, end, c)
  {
    if Inside(start, end, cs) != [] {
      InsideHas(start, end, cs, Inside(start, end, cs)[0]);
    }
    forall c | c in cs && Overlaps(start, end, c) ensures c in Inside(start, end, cs) {
      InsideHas(start, end, cs, c);
    }
  }

  lemma AcceptedIffEndsUncut(l: SourceLocation, cs: seq<Change>)
    requires forall i :: 0 <= i < |cs| ==> cs[i].length > 0
    ensures FirstCrossing(l.start, l.end, cs).None? <==> EndsUncut(l, cs)
    ensures EndsUncut(l, cs) && Inside(l.start, l.end, cs) != [] ==> l.start <= l.end
  {
    if l.start <= l.end {
      AcceptedIffUncut(l.start, l.end, cs);
    } else {
      ReversedAcceptedIff(l.start, l.end, cs);
      InsideIsEmpty(l.start, l.end, cs);
    }
  }

  /** A node is accepted exactly when no change straddles its ends and only exact editable nodes are edited. */
  lemma NodeAccepted(node: Node, surface: string, cs: seq<Change>)
    requires Applicable(surface, cs)
    ensures TransformedNode(node, surface, cs).Ok? <==> NodeTakes(node, surface, cs)
  {
    AcceptedIffEndsUncut(node.location, cs);
    InsideIsEmpty(node.location.start, node.location.end, cs);
  }

  lemma EditsIfInside(node: Node, surface: string, cs: seq<Change>, c: Change)
    requires Applicable(surface, cs) && TransformedNode(node, surface, cs).Ok? && c in cs
    ensures c in Inside(node.location.start, node.location.end, cs) && node.text != "" <==> EditsNode(c, node, surface)
  {
    var start, end := node.location.start, node.location.end;
    InsideHas(start, end, cs, c);
    var i :| 0 <= i < |cs| && cs[i] == c;
    assert c.length > 0;
    if c in Inside(start, end, cs) && node.text != "" {
      assert Touched(node, Inside(start, end, cs));
      FirstCrossingMeaning(start, end, cs);
    }
  }

  lemma NodeCovers(node: Node, surface: string, cs: seq<Change>, id: string)
    requires Applicable(surface, cs) && TransformedNode(node, surface, cs).Ok?
    ensures id in TransformedNode(node, surface, cs).value.1 <==>
            exists c :: c in cs && c.changeId == id && EditsNode(c, node, surface)
  {
    var inside := Inside(node.location.start, node.location.end, cs);
    if id in TransformedNode(node, surface, cs).value.1 {
      var k :| 0 <= k < |Ids(inside)| && Ids(inside)[k] == id;
      InsideHas(node.location.start, node.location.end, cs, inside[k]);
      EditsIfInside(node, surface, cs, inside[k]);
    }
    forall c | c in cs && c.changeId == id && EditsNode(c, node, surface)
      ensures id in TransformedNode(node, surface, cs).value.1
    {
      EditsIfInside(node, surface, cs, c);
      var k :| 0 <= k < |inside| && inside[k] == c;
      assert Ids(inside)[k] == id;
    }
  }

  lemma LandsFirstOrLater(id: string, nodes: seq<Node>, surface: string, cs: seq<Change>)
    requires |nodes| > 0
    ensures Lands(id, nodes, surface, cs) <==>
            || (exists c :: c in cs && c.changeId == id && EditsNode(c, nodes[0], surface))
            || Lands(id, nodes[1..], surface, cs)
  {
    forall c | c in cs
      ensures EditsSome(c, nodes, surface) <==> EditsNode(c, nodes[0], surface) || EditsSome(c, nodes[1..], surface)
    {
      assert forall node :: node in nodes <==> node == nodes[0] || node in nodes[1..];
    }
  }

  /** The covered ids are exactly those of the changes that edit some exact editable node. */
  lemma {:induction false} CoveredIffLands(nodes: seq<Node>, surface: string, cs: seq<Change>, id: string)
    requires Applicable(surface, cs) && TransformedNodes(nodes, surface, cs).Ok?
    ensures id in TransformedNodes(nodes, surface, cs).value.1 <==> Lands(id, nodes, surface, cs)
    decreases |nodes|
  {
    if |nodes| > 0 {
      NodeCovers(nodes[0], surface, cs, id);
      CoveredIffLands(nodes[1..], surface, cs, id);
      LandsFirstOrLater(id, nodes, surface, cs);
    }
  }

  lemma CoverageIff(nodes: seq<Node>, surface: string, cs: seq<Change>)
    requires Applicable(surface, cs) && TransformedNodes(nodes, surface, cs).Ok?
    ensures TransformedNodes(nodes, surface, cs).value.1 == (set c | c in cs :: c.changeId)
            <==> AllLand(nodes, surface, cs)
  {
    var covered, ids := TransformedNodes(nodes, surface, cs).value.1, set c | c in cs :: c.changeId;
    forall id ensures id in covered <==> Lands(id, nodes, surface, cs) {
      CoveredIffLands(nodes, surface, cs, id);
    }
    assert forall id :: Lands(id, nodes, surface, cs) ==> id in ids;
    if AllLand(nodes, surface, cs) {
      assert covered == ids;
    }
  }

  ghost predicate DistinctChangeIds(cs: seq<Change>) {
    forall c, d :: c in cs && d in cs && c.changeId == d.changeId ==> c == d
  }

  lemma DistinctIdsLand(nodes: seq<Node>, surface: string, cs: seq<Change>)
    requires DistinctChangeIds(cs)
    ensures AllLand(nodes, surface, cs) <==> forall c :: c in cs ==> EditsSome(c, nodes, surface)
  {
    forall c | c in cs ensures Lands(c.changeId, nodes, surface, cs) <==> EditsSome(c, nodes, surface) {
    }
  }

  /** With distinct change ids no change is applied to the surface alone: each edits an exact editable node. */
  lemma EveryChangeEditsANode(sha256: string -> string, nfc: string -> string, document: Document, proposal: Proposal,
      c: Change)
    requires Transformed(sha256, nfc, document, proposal).Ok? && DistinctChangeIds(proposal.changes)
             && c in proposal.changes
    ensures EditsSome(c, document.nodes, document.surfaceText)
  {
    var cs := Sort(proposal.changes);
    AppliedIsApplicable(sha256, document.surfaceText, proposal);
    SameElements(proposal.changes);
    CoverageIff(document.nodes, document.surfaceText, cs);
    DistinctIdsLand(document.nodes, document.surfaceText, cs);
  }

  lemma {:induction false} FirstInvalidMeaning(nodes: seq<Node>, surface: string)
    ensures FirstInvalid(nodes, surface).None? <==>
            forall i :: 0 <= i < |nodes| && MustBeExact(nodes[i])
                        ==> Slice(surface, nodes[i].location.start, nodes[i].location.end) == nodes[i].text
    decreases |nodes|
  {
    if |nodes| > 0 {
      FirstInvalidMeaning(nodes[1..], surface);
      assert forall i :: 1 <= i < |nodes| ==> nodes[i] == nodes[1..][i - 1];
    }
  }

  /** Everything but the two texts and the nodes is the same. */
  predicate OnlyTextsDiffer(a: Document, b: Document) {
    b == a.(surfaceText := b.surfaceText, canonicalText := b.canonicalText, nodes := b.nodes)
  }

  /**
   A successful transform: the surface is the left-to-right pass and the canonical text its normal form, the structure
   and everything else are the same, and exact nodes are exact at their shifted spans.
   */
  lemma TransformKeepsAgreement(sha256: string -> string, nfc: string -> string, document: Document, proposal: Proposal)
    requires Transformed(sha256, nfc, document, proposal).Ok?
    ensures var document' := Transformed(sha256, nfc, document, proposal).value;
            var cs := Sort(proposal.changes);
            && Applicable(document.surfaceText, cs)
            && document'.surfaceText == NewText(document.surfaceText, cs)
            && document'.canonicalText == nfc(NewText(document.surfaceText, cs))
            && OnlyTextsDiffer(document, document') && |document'.nodes| == |document.nodes|
            && (forall i :: 0 <= i < |document.nodes| ==>
                  && SameStructure(document.nodes[i], document'.nodes[i])
                  && document'.nodes[i].location == ShiftedLocation(document.nodes[i].location, cs)
                  && (Exact(document.surfaceText, document.nodes[i])
                      ==> Exact(document'.surfaceText, document'.nodes[i]))
                  && (MustBeExact(document'.nodes[i]) ==> ReadsItsSpan(document'.surfaceText, document'.nodes[i])))
  {
    var surface, cs := document.surfaceText, Sort(proposal.changes);
    AppliedIsApplicable(sha256, surface, proposal);
    TransformedNodesPointwise(document.nodes, surface, cs);
    var document' := Transformed(sha256, nfc, document, proposal).value;
    FirstInvalidMeaning(document'.nodes, document'.surfaceText);
    forall i | 0 <= i < |document.nodes|
      ensures SameStructure(document.nodes[i], document'.nodes[i])
      ensures document'.nodes[i].location == ShiftedLocation(document.nodes[i].location, cs)
      ensures Exact(surface, document.nodes[i]) ==> Exact(document'.surfaceText, document'.nodes[i])
    {
      NodeKept(document.nodes[i], surface, cs);
    }
  }

  lemma NodeKept(node: Node, surface: string, cs: seq<Change>)
    requires Applicable(surface, cs) && TransformedNode(node, surface, cs).Ok?
    ensures var node' := TransformedNode(node, surface, cs).value.0;
            && SameStructure(node, node') && node'.location == ShiftedLocation(node.location, cs)
            && (Exact(surface, node) ==> Exact(NewText(surface, cs), node'))
  {
    if Exact(surface, node) {
      ExactNodeStaysExact(node, surface, cs);
    }
  }

  ghost predicate ReadsItsSpan(surface: string, node: Node) {
    Slice(surface, node.location.start, node.location.end) == node.text
  }

  /** Same place in the tree, same type, same annotations; a heading also keeps its text. */
  ghost predicate SameStructure(a: Node, b: Node) {
    && a.(text := b.text, location := b.location) == b
    && (a.nodeType !in EDITABLE_NODE_TYPES ==> a.text == b.text)
  }

  lemma SliceInBounds(s: string, a: int, b: int)
    requires 0 <= a <= b <= |s|
    ensures Slice(s, a, b) == s[a..b]
  {
  }

  /** An unedited span of the new surface reads at its shifted place what it read at its old one. */
  lemma UneditedSpan(surface: string, cs: seq<Change>, start: nat, end: nat)
    requires Applicable(surface, cs) && start <= end && FirstCrossing(start, end, cs).None?
             && Inside(start, end, cs) == []
    ensures Slice(NewText(surface, cs), start + ShiftAt(start, cs), end + ShiftAt(end, cs))
            == Slice(surface, start, end)
  {
    AcceptedIffUncut(start, end, cs);
    UneditedSlice(surface, cs, start, end, NewText(surface, cs), start + ShiftAt(start, cs), end + ShiftAt(end, cs));
  }

  lemma UneditedSlice(surface: string, cs: seq<Change>, start: nat, end: nat, text: string, i: int, j: int)
    requires Applicable(surface, cs) && start <= end && Uncut(start, cs) && Uncut(end, cs)
             && Inside(start, end, cs) == []
    requires text == NewText(surface, cs) && i == start + ShiftAt(start, cs) && j == end + ShiftAt(end, cs)
    ensures Slice(text, i, j) == Slice(surface, start, end)
  {
    if end <= |surface| {
      UneditedSegment(surface, cs, start, end);
      SliceInBounds(text, i, j);
      SliceInBounds(surface, start, end);
    } else {
      EndsPastNewText(surface, cs, end);
      UneditedFrom(surface, cs, start, end);
      TailsAgree(text, surface, i, j, start, end);
    }
  }

  lemma UneditedSegment(surface: string, cs: seq<Change>, start: nat, end: nat)
    requires Applicable(surface, cs) && start <= end <= |surface| && Uncut(start, cs) && Uncut(end, cs)
    requires Inside(start, end, cs) == []
    ensures 0 <= start + ShiftAt(start, cs) <= end + ShiftAt(end, cs) <= |NewText(surface, cs)|
    ensures NewText(surface, cs)[start + ShiftAt(start, cs)..end + ShiftAt(end, cs)] == surface[start..end]
  {
    SegmentImage(surface, cs, start, end);
    EmptySegment(surface, start, end);
  }

  lemma EndsPastNewText(surface: string, cs: seq<Change>, p: nat)
    requires Applicable(surface, cs) && |surface| <= p
    ensures p + ShiftAt(p, cs) == |NewText(surface, cs)| + (p - |surface|)
  {
    ShiftPastEnd(cs, |surface|, p);
    ShiftIsTotal(cs, |surface|);
    NewTextLength(surface, cs);
  }

  lemma UneditedFrom(surface: string, cs: seq<Change>, start: nat, end: nat)
    requires Applicable(surface, cs) && start <= end && |surface| < end && Uncut(start, cs)
    requires Inside(start, end, cs) == []
    ensures var text, p := NewText(surface, cs), start + ShiftAt(start, cs);
            if start <= |surface| then 0 <= p <= |text| && text[p..|text|] == surface[start..|surface|] else |text| < p
  {
    var n := |surface|;
    if start <= n {
      InsideUpTo(cs, start, n, end);
      UneditedSegment(surface, cs, start, n);
      EndsPastNewText(surface, cs, n);
    } else {
      EndsPastNewText(surface, cs, start);
    }
  }

  /** Slices that reach past the end of two texts agree when the texts agree from their starts on. */
  lemma TailsAgree(a: string, b: string, i: int, j: int, k: int, l: int)
    requires 0 <= i && |a| <= j && 0 <= k <= l && |b| <= l
    requires if k <= |b| then i <= |a| && a[i..|a|] == b[k..|b|] else |a| < i
    ensures Slice(a, i, j) == Slice(b, k, l)
  {
    assert Slice(a, i, j) == if i <= |a| then a[i..|a|] else "";
    assert Slice(b, k, l) == if k <= |b| then b[k..|b|] else "";
  }

  lemma ShiftPastEnd(cs: seq<Change>, n: int, p: int)
    requires n <= p && forall i :: 0 <= i < |cs| ==> cs[i].End() <= n
    ensures ShiftAt(p, cs) == ShiftAt(n, cs)
  {
    if |cs| > 0 {
      ShiftPastEnd(cs[1..], n, p);
    }
  }

  lemma ShiftIsTotal(cs: seq<Change>, n: int)
    requires forall i :: 0 <= i < |cs| ==> cs[i].End() <= n
    ensures ShiftAt(n, cs) == TotalGrowth(cs)
  {
    if |cs| > 0 {
      ShiftIsTotal(cs[1..], n);
    }
  }

  lemma InsideUpTo(cs: seq<Change>, start: int, n: int, end: int)
    requires start <= n <= end && Inside(start, end, cs) == []
    ensures Inside(start, n, cs) == []
  {
    if |cs| > 0 {
      InsideUpTo(cs[1..], start, n, end);
    }
  }

  /** The final loop passes the node: its text, if no change overlaps it, reads the shifted span of the new surface. */
  ghost predicate StillReads(node: Node, surface: string, cs: seq<Change>)
    requires Applicable(surface, cs)
  {
    MustBeExact(node) && !(exists c :: c in cs && Overlaps(node.location.start, node.location.end, c))
    ==> ReadsItsSpan(NewText(surface, cs), node.(location := ShiftedLocation(node.location, cs)))
  }

  lemma NodeValidatedIff(node: Node, surface: string, cs: seq<Change>)
    requires Applicable(surface, cs) && TransformedNode(node, surface, cs).Ok?
    ensures var node' := TransformedNode(node, surface, cs).value.0;
            (MustBeExact(node') ==> ReadsItsSpan(NewText(surface, cs), node')) <==> StillReads(node, surface, cs)
  {
    InsideIsEmpty(node.location.start, node.location.end, cs);
    if Touched(node, Inside(node.location.start, node.location.end, cs)) {
      ExactNodeStaysExact(node, surface, cs);
    }
  }

  lemma ValidationIff(nodes: seq<Node>, surface: string, cs: seq<Change>)
    requires Applicable(surface, cs) && TransformedNodes(nodes, surface, cs).Ok?
    ensures FirstInvalid(TransformedNodes(nodes, surface, cs).value.0, NewText(surface, cs)).None? <==>
            forall node :: node in nodes ==> StillReads(node, surface, cs)
  {
    TransformedNodesPointwise(nodes, surface, cs);
    var nodes' := TransformedNodes(nodes, surface, cs).value.0;
    FirstInvalidMeaning(nodes', NewText(surface, cs));
    forall i | 0 <= i < |nodes|
      ensures nodes[i] in nodes
      ensures (MustBeExact(nodes'[i]) ==> ReadsItsSpan(NewText(surface, cs), nodes'[i])) <==>
              StillReads(nodes[i], surface, cs)
    {
      NodeValidatedIff(nodes[i], surface, cs);
    }
  }

  /** What the transform asks of document and changes once these are disjoint and fit the surface. */
  ghost predicate NodesTakeAll(nodes: seq<Node>, surface: string, cs: seq<Change>) {
    (forall node :: node in nodes ==> NodeTakes(node, surface, cs)) && AllLand(nodes, surface, cs)
  }

  lemma NodesAcceptedIff(nodes: seq<Node>, surface: string, cs: seq<Change>)
    requires Applicable(surface, cs)
    ensures TransformedNodes(nodes, surface, cs).Ok? <==> forall node :: node in nodes ==> NodeTakes(node, surface, cs)
  {
    TransformedNodesPointwise(nodes, surface, cs);
    forall i | 0 <= i < |nodes|
      ensures nodes[i] in nodes && (TransformedNode(nodes[i], surface, cs).Ok? <==> NodeTakes(nodes[i], surface, cs))
    {
      NodeAccepted(nodes[i], surface, cs);
    }
  }

  lemma ChecksOnChanges(sha256: string -> string, surface: string, proposal: Proposal)
    ensures var cs := Sort(proposal.changes);
            OrderError(cs, -1).None? && AppliedText(sha256, surface, proposal, None).Ok? <==>
            && proposal.schemaVersion == PROPOSAL_SCHEMA_VERSION && sha256(surface) == proposal.documentHash
            && NoLineBreaks(cs) && Applicable(surface, cs)
  {
    var cs := Sort(proposal.changes);
    SelectAll(proposal.changes);
    if OrderError(cs, -1).None? && AppliedText(sha256, surface, proposal, None).Ok? {
      AppliedIsApplicable(sha256, surface, proposal);
      OrderCheckMeaning(cs, -1);
    } else if Applicable(surface, cs) {
      ApplyChangesMeaning(sha256, surface, proposal, None);
      OrderCheckMeaning(cs, -1);
      assert |cs| > 0 ==> Fits(surface, cs[0]);
    }
  }

  /**
   When the transform succeeds, in terms of the document and the changes alone: current schema and hash; changes without
   line breaks that are disjoint and fit the surface; nodes that take them, with a landing place for every change; and
   untouched editable texts that read their shifted spans.
   */
  lemma TransformSucceedsIff(sha256: string -> string, nfc: string -> string, document: Document, proposal: Proposal)
    ensures var surface, cs := document.surfaceText, Sort(proposal.changes);
            Transformed(sha256, nfc, document, proposal).Ok? <==>
            && proposal.schemaVersion == PROPOSAL_SCHEMA_VERSION && sha256(surface) == proposal.documentHash
            && NoLineBreaks(cs) && Applicable(surface, cs) && NodesTakeAll(document.nodes, surface, cs)
            && forall node :: node in document.nodes ==> StillReads(node, surface, cs)
  {
    var surface, cs := document.surfaceText, Sort(proposal.changes);
    ChecksOnChanges(sha256, surface, proposal);
    if OrderError(cs, -1).None? && AppliedText(sha256, surface, proposal, None).Ok? {
      AppliedIsApplicable(sha256, surface, proposal);
      NodesAcceptedIff(document.nodes, surface, cs);
      if TransformedNodes(document.nodes, surface, cs).Ok? {
        CoverageIff(document.nodes, surface, cs);
        ValidationIff(document.nodes, surface, cs);
      }
    }
  }

  predicate SpanOrdered(node: Node) { 0 <= node.location.start <= node.location.end }

  lemma StillReadsIff(node: Node, surface: string, cs: seq<Change>)
    requires Applicable(surface, cs) && NodeTakes(node, surface, cs) && SpanOrdered(node)
    ensures StillReads(node, surface, cs) <==> (MustBeExact(node) ==> ReadsItsSpan(surface, node))
  {
    var start, end := node.location.start, node.location.end;
    InsideIsEmpty(start, end, cs);
    if Inside(start, end, cs) == [] {
      UntouchedReadsIff(node, surface, cs, NewText(surface, cs), node.(location := ShiftedLocation(node.location, cs)));
    } else if MustBeExact(node) {
      SliceInBounds(surface, start, end);
    }
  }

  lemma UntouchedReadsIff(node: Node, surface: string, cs: seq<Change>, text: string, moved: Node)
    requires Applicable(surface, cs) && EndsUncut(node.location, cs) && 0 <= node.location.start <= node.location.end
    requires Inside(node.location.start, node.location.end, cs) == [] && text == NewText(surface, cs)
    requires moved == node.(location := ShiftedLocation(node.location, cs))
    ensures ReadsItsSpan(text, moved) <==> ReadsItsSpan(surface, node)
  {
    AcceptedIffUncut(node.location.start, node.location.end, cs);
    UneditedSpan(surface, cs, node.location.start, node.location.end);
  }

  /** The editable texts at ordered offsets read their spans. */
  ghost predicate OrderedRead(nodes: seq<Node>, surface: string) {
    forall node :: node in nodes && MustBeExact(node) && SpanOrdered(node) ==> ReadsItsSpan(surface, node)
  }

  /**
   The last condition speaks of the old surface wherever offsets are ordered: such a text reads its new span if it read
   its old one.  Only for negative or reversed offsets does the shifted span alone decide.
   */
  lemma ValidationReadsOldSpans(nodes: seq<Node>, surface: string, cs: seq<Change>)
    requires Applicable(surface, cs) && forall node :: node in nodes ==> NodeTakes(node, surface, cs)
    ensures (forall node :: node in nodes ==> StillReads(node, surface, cs)) <==>
            && OrderedRead(nodes, surface)
            && forall node :: node in nodes && !SpanOrdered(node) ==> StillReads(node, surface, cs)
  {
    forall node | node in nodes && SpanOrdered(node)
      ensures StillReads(node, surface, cs) <==> (MustBeExact(node) ==> ReadsItsSpan(surface, node))
    {
      StillReadsIff(node, surface, cs);
    }
  }

  /** Past the end of the text too, the coordinate map keeps the order of positions no change straddles. */
  lemma ShiftMonotone(text: string, cs: seq<Change>, p: nat, q: nat)
    requires Applicable(text, cs) && p <= q && Uncut(p, cs) && Uncut(q, cs)
    ensures 0 <= p + ShiftAt(p, cs) <= q + ShiftAt(q, cs)
  {
    if q <= |text| {
      SegmentImage(text, cs, p, q);
    } else {
      EndsPastNewText(text, cs, q);
      if p <= |text| {
        CoordinateMap(text, cs, p);
      } else {
        EndsPastNewText(text, cs, p);
      }
    }
  }
}
