/** Which error each step of a finalization raises, told from its inputs: the first thing at fault and its kind. */
module Refusals {
  import opened Wrappers
  import opened LexicalChanges
  import opened LexicalApplication
  import opened LexicalReview
  import opened Documents
  import opened ProtectedSpans
  import opened StructureSignature
  import opened RevisionTransform
  import opened RevisionAgreement
  import opened SpanRebase
  import opened IntegratedWorkflow

  // ----- apply_changes -----

  predicate InBounds(text: string, c: Change) { 0 <= c.offset && c.length > 0 && c.End() <= |text| }

  lemma SpliceKeepsMisfit(text: string, d: Change, c: Change)
    requires Fits(text, c) && d.End() <= c.offset
    ensures InBounds(Splice(text, c), d) <==> InBounds(text, d)
    ensures Fits(Splice(text, c), d) <==> Fits(text, d)
  {
    var text' := Splice(text, c);
    assert text'[..c.offset] == text[..c.offset];
    if InBounds(text, d) {
      assert text'[d.offset..d.End()] == text'[..c.offset][d.offset..d.End()];
      assert text[d.offset..d.End()] == text[..c.offset][d.offset..d.End()];
    }
  }

  /** The change at `k` does not fit the text, and those after it are disjoint from it and from each other and do. */
  ghost predicate LastMisfit(text: string, cs: seq<Change>, k: nat) {
    && k < |cs| && !Fits(text, cs[k])
    && forall j :: k < j < |cs| ==> Fits(text, cs[j]) && forall i :: k <= i < j ==> cs[i].End() <= cs[j].offset
  }

  lemma {:induction false} SpliceRefusal(text: string, cs: seq<Change>, k: nat)
    requires LastMisfit(text, cs, k)
    ensures SpliceInOrder(text, Reverse(cs))
            == Err(if InBounds(text, cs[k]) then ChangeTextMismatch(cs[k].changeId)
                   else ChangeOutsideDocument(cs[k].changeId))
    decreases |cs|
  {
    var init, c := cs[..|cs| - 1], cs[|cs| - 1];
    assert Reverse(cs)[0] == c && Reverse(cs)[1..] == Reverse(init);
    if k < |cs| - 1 {
      forall j | k <= j < |init| ensures Fits(Splice(text, c), init[j]) <==> Fits(text, cs[j]) {
        SpliceKeepsMisfit(text, cs[j], c);
      }
      SpliceKeepsMisfit(text, cs[k], c);
      SpliceRefusal(Splice(text, c), init, k);
    }
  }

  /**
   The error of `apply_changes`: the schema first, then the hash, then the change at the back of the text that does not
   fit it: out of bounds, or reading something else.
   */
  lemma ApplyRefusal(sha256: string -> string, text: string, proposal: Proposal, only: Option<ChangeStatus>, k: nat)
    ensures var cs := Sort(Reverse(Selected(proposal.changes, only)));
            var r := AppliedText(sha256, text, proposal, only);
            if proposal.schemaVersion != 1 then r == Err(UnsupportedSchema)
            else if sha256(text) != proposal.documentHash then r == Err(DocumentHashMismatch)
            else LastMisfit(text, cs, k)
                 ==> r == Err(if 0 <= cs[k].offset && cs[k].length > 0 && cs[k].End() <= |text|
                              then ChangeTextMismatch(cs[k].changeId) else ChangeOutsideDocument(cs[k].changeId))
  {
    var cs := Sort(Reverse(Selected(proposal.changes, only)));
    if LastMisfit(text, cs, k) {
      SpliceRefusal(text, cs, k);
    }
  }

  // ----- _ordered_changes -----

  predicate OneLine(s: string) { '\n' !in s && '\r' !in s }

  /** The changes before `k` have no line break and none starts before the end of the one it follows. */
  ghost predicate OrderlyUpTo(cs: seq<Change>, previousEnd: int, k: nat) {
    && k <= |cs|
    && forall i :: 0 <= i < k ==>
         OneLine(cs[i].sourceSurface) && OneLine(cs[i].target) && EndBefore(cs, previousEnd, i) <= cs[i].offset
  }

  function EndBefore(cs: seq<Change>, previousEnd: int, i: nat): int
    requires i <= |cs|
  {
    if i == 0 then previousEnd else cs[i - 1].End()
  }

  lemma {:induction false} OrderRefusalFrom(cs: seq<Change>, previousEnd: int, k: nat)
    requires OrderlyUpTo(cs, previousEnd, k)
    ensures OrderError(cs, previousEnd) == OrderError(cs[k..], EndBefore(cs, previousEnd, k))
    decreases k
  {
    if k > 0 {
      forall i | 0 <= i < k - 1
        ensures cs[1..][i] == cs[i + 1] && EndBefore(cs[1..], cs[0].End(), i) <= cs[i + 1].offset
      {
        assert EndBefore(cs, previousEnd, i + 1) <= cs[i + 1].offset;
      }
      OrderRefusalFrom(cs[1..], cs[0].End(), k - 1);
      assert cs[1..][k - 1..] == cs[k..];
    }
  }

  /** The first change at fault decides: a break in what it replaces, then one in its target, then an overlap. */
  lemma OrderRefusal(cs: seq<Change>, k: nat)
    requires OrderlyUpTo(cs, -1, k)
    ensures k == |cs| ==> OrderError(cs, -1) == None
    ensures k < |cs| && !OneLine(cs[k].sourceSurface) ==> OrderError(cs, -1) == Some(SourceLineBoundary(cs[k].changeId))
    ensures k < |cs| && OneLine(cs[k].sourceSurface) && !OneLine(cs[k].target)
            ==> OrderError(cs, -1) == Some(TargetLineBoundary(cs[k].changeId))
    ensures k < |cs| && OneLine(cs[k].sourceSurface) && OneLine(cs[k].target)
            && cs[k].offset < (if k == 0 then -1 else cs[k - 1].offset + cs[k - 1].length)
            ==> OrderError(cs, -1) == Some(OverlappingChanges)
  {
    OrderRefusalFrom(cs, -1, k);
    if k < |cs| {
      assert cs[k..][0] == cs[k];
    }
  }

  // ----- Nodes -----

  /** The change overlaps the span without lying within it. */
  predicate Crosses(start: int, end: int, c: Change) {
    c.offset < end && start < c.End() && !(start <= c.offset && c.End() <= end)
  }

  lemma {:induction false} CrossingRefusal(start: int, end: int, cs: seq<Change>, k: nat)
    requires k <= |cs| && forall i :: 0 <= i < k ==> !Crosses(start, end, cs[i])
    ensures k == |cs| ==> FirstCrossing(start, end, cs) == None
    ensures k < |cs| && Crosses(start, end, cs[k]) ==> FirstCrossing(start, end, cs) == Some(cs[k].changeId)
    decreases k
  {
    if k > 0 {
      assert forall i :: 0 <= i < k - 1 ==> cs[1..][i] == cs[i + 1];
      CrossingRefusal(start, end, cs[1..], k - 1);
    }
  }

  predicate Overlapped(node: Node, cs: seq<Change>) {
    exists i :: 0 <= i < |cs| && cs[i].offset < node.location.end && node.location.start < cs[i].End()
  }

  lemma {:induction false} OverlappedHasInside(node: Node, cs: seq<Change>)
    ensures Overlapped(node, cs) <==> Inside(node.location.start, node.location.end, cs) != []
    decreases |cs|
  {
    if |cs| > 0 {
      var start, end := node.location.start, node.location.end;
      OverlappedHasInside(node, cs[1..]);
      assert forall i :: 1 <= i < |cs| ==> cs[i] == cs[1..][i - 1];
      if Overlapped(node, cs[1..]) {
        var i :| 0 <= i < |cs[1..]| && cs[1..][i].offset < end && start < cs[1..][i].End();
        assert cs[i + 1] == cs[1..][i];
      }
      if !Overlapped(node, cs[1..]) && Overlapped(node, cs) {
        var i :| 0 <= i < |cs| && cs[i].offset < end && start < cs[i].End();
        assert i == 0;
      }
    }
  }

  /** The first change that straddles an end of the node is reported. */
  lemma CrossedNode(node: Node, surface: string, cs: seq<Change>, k: nat)
    requires Applicable(surface, cs) && k < |cs|
    requires Crosses(node.location.start, node.location.end, cs[k])
    requires forall i :: 0 <= i < k ==> !Crosses(node.location.start, node.location.end, cs[i])
    ensures TransformedNode(node, surface, cs) == Err(CrossesNodeBoundary(cs[k].changeId))
  {
    CrossingRefusal(node.location.start, node.location.end, cs, k);
  }

  /** Otherwise an overlapped text is refused for its node's type, for its offsets, or for what it reads there. */
  lemma RefusedNode(node: Node, surface: string, cs: seq<Change>)
    requires Applicable(surface, cs) && Overlapped(node, cs) && node.text != ""
    requires forall i :: 0 <= i < |cs| ==> !Crosses(node.location.start, node.location.end, cs[i])
    ensures var l, r := node.location, TransformedNode(node, surface, cs);
            if node.nodeType in {Heading, Quotation, Citation, Footnote, Endnote, CodeBlock, Hyperlink}
            then r == Err(ProtectedNode(node.nodeId))
            else if node.nodeType !in {Paragraph, Sentence, TextRun, ListItem, TableCell}
            then r == Err(UnsupportedNode(node.nodeId))
            else if !(0 <= l.start <= l.end <= |surface|) then r == Err(InvalidNodeOffsets(node.nodeId))
            else surface[l.start..l.end] != node.text ==> r == Err(InexactNode(node.nodeId))
  {
    CrossingRefusal(node.location.start, node.location.end, cs, |cs|);
    OverlappedHasInside(node, cs);
  }

  /** The first node that is refused decides for them all. */
  lemma {:induction false} NodesRefusal(nodes: seq<Node>, surface: string, cs: seq<Change>, k: nat)
    requires Applicable(surface, cs) && k < |nodes| && TransformedNode(nodes[k], surface, cs).Err?
    requires forall i :: 0 <= i < k ==> TransformedNode(nodes[i], surface, cs).Ok?
    ensures TransformedNodes(nodes, surface, cs) == Err(TransformedNode(nodes[k], surface, cs).error)
    decreases k
  {
    if k > 0 {
      assert forall i :: 0 <= i < k ==> nodes[1..][i] == nodes[i + 1];
      NodesRefusal(nodes[1..], surface, cs, k - 1);
    }
  }

  /** The first text that does not read its span is reported. */
  lemma {:induction false} ValidationRefusal(nodes: seq<Node>, surface: string, k: nat)
    requires k < |nodes| && Unread(nodes[k], surface) && forall i :: 0 <= i < k ==> !Unread(nodes[i], surface)
    ensures FirstInvalid(nodes, surface) == Some(nodes[k].nodeId)
    decreases k
  {
    if k > 0 {
      assert forall i :: 0 <= i < k ==> nodes[1..][i] == nodes[i + 1];
      ValidationRefusal(nodes[1..], surface, k - 1);
    }
  }

  predicate Unread(node: Node, surface: string) {
    && node.nodeType in {Paragraph, Sentence, TextRun, ListItem, TableCell} && node.text != ""
    && Slice(surface, node.location.start, node.location.end) != node.text
  }

  // ----- apply_reviewed_proposal -----

  /**
   Everything about the changes themselves is right: schema, hash, one line each, disjoint and read in the surface.
   */
  ghost predicate ChangesPass(sha256: string -> string, surface: string, proposal: Proposal) {
    var cs := Sort(proposal.changes);
    && proposal.schemaVersion == 1 && sha256(surface) == proposal.documentHash
    && NoLineBreaks(cs) && Applicable(surface, cs)
  }

  lemma PassingChanges(sha256: string -> string, surface: string, proposal: Proposal)
    ensures ChangesPass(sha256, surface, proposal) <==>
            OrderError(Sort(proposal.changes), -1).None? && AppliedText(sha256, surface, proposal, None).Ok?
  {
    ChecksOnChanges(sha256, surface, proposal);
  }

  /** The order check comes before the splice. */
  lemma TransformRefusesChanges(sha256: string -> string, nfc: string -> string, document: Document,
      proposal: Proposal)
    requires !ChangesPass(sha256, document.surfaceText, proposal)
    ensures var e := OrderError(Sort(proposal.changes), -1);
            if e.Some? then Transformed(sha256, nfc, document, proposal) == Err(e.value)
            else AppliedText(sha256, document.surfaceText, proposal, None).Err?
                 && Transformed(sha256, nfc, document, proposal)
                    == Err(AppliedText(sha256, document.surfaceText, proposal, None).error)
  {
    PassingChanges(sha256, document.surfaceText, proposal);
  }

  /** Then the first node refused. */
  lemma TransformRefusesNode(sha256: string -> string, nfc: string -> string, document: Document, proposal: Proposal,
      k: nat)
    requires ChangesPass(sha256, document.surfaceText, proposal) && k < |document.nodes|
    requires var surface, cs := document.surfaceText, Sort(proposal.changes);
             && TransformedNode(document.nodes[k], surface, cs).Err?
             && forall i :: 0 <= i < k ==> NodeTakes(document.nodes[i], surface, cs)
    ensures Transformed(sha256, nfc, document, proposal)
            == Err(TransformedNode(document.nodes[k], document.surfaceText, Sort(proposal.changes)).error)
  {
    var surface, cs := document.surfaceText, Sort(proposal.changes);
    PassingChanges(sha256, surface, proposal);
    forall i | 0 <= i < k ensures TransformedNode(document.nodes[i], surface, cs).Ok? {
      NodeAccepted(document.nodes[i], surface, cs);
    }
    NodesRefusal(document.nodes, surface, cs, k);
  }

  /** Then a change that lands in no node. */
  lemma TransformRefusesCoverage(sha256: string -> string, nfc: string -> string, document: Document,
      proposal: Proposal)
    requires ChangesPass(sha256, document.surfaceText, proposal)
    requires var surface, cs := document.surfaceText, Sort(proposal.changes);
             && (forall node :: node in document.nodes ==> NodeTakes(node, surface, cs))
             && !AllLand(document.nodes, surface, cs)
    ensures Transformed(sha256, nfc, document, proposal) == Err(UncoveredChanges)
  {
    var surface, cs := document.surfaceText, Sort(proposal.changes);
    PassingChanges(sha256, surface, proposal);
    NodesAcceptedIff(document.nodes, surface, cs);
    CoverageIff(document.nodes, surface, cs);
  }

  /** Then the first untouched editable text that does not read its shifted span. */
  lemma TransformRefusesText(sha256: string -> string, nfc: string -> string, document: Document, proposal: Proposal,
      k: nat)
    requires ChangesPass(sha256, document.surfaceText, proposal) && k < |document.nodes|
    requires var surface, cs := document.surfaceText, Sort(proposal.changes);
             && NodesTakeAll(document.nodes, surface, cs)
             && !StillReads(document.nodes[k], surface, cs)
             && forall i :: 0 <= i < k ==> StillReads(document.nodes[i], surface, cs)
    ensures Transformed(sha256, nfc, document, proposal) == Err(SurfaceValidation(document.nodes[k].nodeId))
  {
    var surface, cs := document.surfaceText, Sort(proposal.changes);
    PassingChanges(sha256, surface, proposal);
    NodesAcceptedIff(document.nodes, surface, cs);
    CoverageIff(document.nodes, surface, cs);
    TextRefusal(document.nodes, surface, cs, k);
    TransformedText(sha256, surface, proposal);
  }

  lemma TextRefusal(nodes: seq<Node>, surface: string, cs: seq<Change>, k: nat)
    requires Applicable(surface, cs) && TransformedNodes(nodes, surface, cs).Ok? && k < |nodes|
    requires !StillReads(nodes[k], surface, cs) && forall i :: 0 <= i < k ==> StillReads(nodes[i], surface, cs)
    ensures FirstInvalid(TransformedNodes(nodes, surface, cs).value.0, NewText(surface, cs)) == Some(nodes[k].nodeId)
  {
    TransformedNodesPointwise(nodes, surface, cs);
    var nodes' := TransformedNodes(nodes, surface, cs).value.0;
    forall i | 0 <= i <= k
      ensures nodes'[i].nodeId == nodes[i].nodeId
      ensures Unread(nodes'[i], NewText(surface, cs)) <==> !StillReads(nodes[i], surface, cs)
    {
      UnreadIff(nodes[i], surface, cs);
    }
    ValidationRefusal(nodes', NewText(surface, cs), k);
  }

  lemma UnreadIff(node: Node, surface: string, cs: seq<Change>)
    requires Applicable(surface, cs) && TransformedNode(node, surface, cs).Ok?
    ensures var node' := TransformedNode(node, surface, cs).value.0;
            node'.nodeId == node.nodeId && (Unread(node', NewText(surface, cs)) <==> !StillReads(node, surface, cs))
  {
    NodeValidatedIff(node, surface, cs);
  }

  lemma TransformedText(sha256: string -> string, surface: string, proposal: Proposal)
    requires ChangesPass(sha256, surface, proposal)
    ensures AppliedText(sha256, surface, proposal, None) == Ok(NewText(surface, Sort(proposal.changes)))
  {
    SelectAll(proposal.changes);
    ApplyChangesMeaning(sha256, surface, proposal, None);
  }

  // ----- apply_review -----

  /** The decisions before `k` are named, say accept or reject, and decide different changes. */
  ghost predicate SoundUpTo(ds: seq<ReviewDecision>, k: nat) {
    && k <= |ds|
    && forall i :: 0 <= i < k ==>
         && ds[i].changeId != "" && ds[i].decision in {"accept", "reject"}
         && forall j :: 0 <= j < i ==> ds[j].changeId != ds[i].changeId
  }

  ghost function IdsBefore(ds: seq<ReviewDecision>, k: nat): set<string>
    requires k <= |ds|
  {
    set i | 0 <= i < k :: ds[i].changeId
  }

  lemma {:induction false} DecisionRefusalFrom(ds: seq<ReviewDecision>, k: nat, seen: set<string>)
    requires SoundUpTo(ds, k) && forall i :: 0 <= i < k ==> ds[i].changeId !in seen
    ensures DecisionError(ds, seen) == DecisionError(ds[k..], seen + IdsBefore(ds, k))
    decreases k
  {
    if k > 0 {
      var tail, seen' := ds[1..], seen + {ds[0].changeId};
      assert forall i :: 0 <= i < k - 1 ==> tail[i] == ds[i + 1];
      assert SoundUpTo(tail, k - 1) by {
        forall i, j | 0 <= j < i < k - 1 ensures tail[j].changeId != tail[i].changeId {
          assert ds[j + 1].changeId != ds[i + 1].changeId;
        }
      }
      forall i | 0 <= i < k - 1 ensures tail[i].changeId !in seen' {
        assert ds[0].changeId != ds[i + 1].changeId;
      }
      DecisionRefusalFrom(tail, k - 1, seen');
      assert tail[k - 1..] == ds[k..];
      SeenShifts(ds, k, seen);
    } else {
      assert ds[0..] == ds && seen + IdsBefore(ds, 0) == seen;
    }
  }

  lemma SeenShifts(ds: seq<ReviewDecision>, k: nat, seen: set<string>)
    requires 0 < k <= |ds|
    ensures seen + {ds[0].changeId} + IdsBefore(ds[1..], k - 1) == seen + IdsBefore(ds, k)
  {
    var shifted := IdsBefore(ds[1..], k - 1);
    forall i | 0 <= i < k ensures ds[i].changeId in {ds[0].changeId} + shifted {
      if i > 0 {
        assert ds[1..][i - 1].changeId == ds[i].changeId;
      }
    }
    forall i | 0 <= i < k - 1 ensures ds[1..][i].changeId in IdsBefore(ds, k) {
      assert ds[1..][i] == ds[i + 1];
    }
  }

  /**
   The error of a review: the schema, then the first unsound decision, and the first unknown change after all that.
   */
  lemma ReviewRefusal(runIds: RunIds, proposal: Proposal, journal: Journal, k: nat)
    requires SoundUpTo(journal.decisions, k)
    ensures var ds, r := journal.decisions, Reviewed(runIds, proposal, journal);
            if journal.schemaVersion != 1 then r == Err(UnsupportedSchema)
            else k < |ds| ==>
              var d := ds[k];
              if d.changeId == "" then r == Err(EmptyDecisionId)
              else if d.decision != "accept" && d.decision != "reject" then r == Err(InvalidDecision(d.changeId))
              else (exists j :: 0 <= j < k && ds[j].changeId == d.changeId) ==> r == Err(DuplicateDecision(d.changeId))
  {
    var ds := journal.decisions;
    DecisionRefusalFrom(ds, k, {});
    if k < |ds| {
      assert ds[k..][0] == ds[k];
    }
  }

  lemma UnknownRefusal(runIds: RunIds, proposal: Proposal, journal: Journal, k: nat)
    requires journal.schemaVersion == 1 && SoundUpTo(journal.decisions, |journal.decisions|)
    requires k < |journal.decisions|
             && forall c :: c in proposal.changes ==> c.changeId != journal.decisions[k].changeId
    requires forall i :: 0 <= i < k ==> exists c :: c in proposal.changes && c.changeId == journal.decisions[i].changeId
    ensures Reviewed(runIds, proposal, journal) == Err(UnknownChange(journal.decisions[k].changeId))
  {
    var ds := journal.decisions;
    DecisionRefusalFrom(ds, |ds|, {});
    var known := set c | c in proposal.changes :: c.changeId;
    FirstUnknown(ds, known, k);
  }

  lemma {:induction false} FirstUnknown(ds: seq<ReviewDecision>, known: set<string>, k: nat)
    requires k < |ds| && ds[k].changeId !in known && forall i :: 0 <= i < k ==> ds[i].changeId in known
    ensures UnknownDecision(ds, known) == Some(UnknownChange(ds[k].changeId))
    decreases k
  {
    if k > 0 {
      assert forall i :: 0 <= i < k ==> ds[1..][i] == ds[i + 1];
      FirstUnknown(ds[1..], known, k - 1);
    }
  }

  // ----- rebase_protected_spans -----

  /** The first span that a change overlaps, or that did not read its text, is reported. */
  lemma {:induction false} RebaseRefusal(spans: seq<ProtectedSpan>, text: string, accepted: seq<Change>, k: nat)
    requires Applicable(text, Sort(accepted)) && k < |spans| && forall i :: 0 <= i <= k ==> ValidOffsets(spans[i])
    requires forall i :: 0 <= i < k ==> Clear(spans[i], accepted) && Reads(spans[i], text)
    ensures var r := RebasedSpans(spans, accepted, NewText(text, Sort(accepted)));
            if !Clear(spans[k], accepted) then r == Err(SpanOverlap(spans[k].spanId))
            else !Reads(spans[k], text) ==> r == Err(SpanRebaseFailed(spans[k].spanId))
    decreases k
  {
    RebaseSpanIff(spans[0], text, accepted);
    if k > 0 {
      assert forall i :: 0 <= i < k ==> spans[1..][i] == spans[i + 1];
      RebaseRefusal(spans[1..], text, accepted, k - 1);
    } else {
      SpanRefusal(spans[0], text, accepted);
    }
  }

  lemma SpanRefusal(span: ProtectedSpan, text: string, accepted: seq<Change>)
    requires Applicable(text, Sort(accepted)) && ValidOffsets(span)
    ensures var r := RebasedSpan(span, accepted, NewText(text, Sort(accepted)));
            if !Clear(span, accepted) then r == Err(SpanOverlap(span.spanId))
            else !Reads(span, text) ==> r == Err(SpanRebaseFailed(span.spanId))
  {
    ClearShift(span, accepted);
    if Clear(span, accepted) {
      MovedReads(span, text, Sort(accepted));
      RebaseByShift(span, accepted, NewText(text, Sort(accepted)), Sort(accepted));
    }
  }

  // ----- finalize_reviewed_revision -----

  /** Review, transform and rebase come first; of the later checks facts precede structure, and structure style. */
  lemma FinalizationRefusal(env: Env, loaded: Loaded, proposal: Proposal, journal: Journal)
    ensures var r, reviewed := Finalized(env, loaded, proposal, journal), Reviewed(env.runIds, proposal, journal);
            if reviewed.Err? then r == Err(reviewed.error)
            else
              var transformed := Transformed(env.sha256, env.nfc, loaded.content.document, reviewed.value);
              if transformed.Err? then r == Err(transformed.error)
              else
                var text, nodes := transformed.value.surfaceText, transformed.value.nodes;
                var rebased := RebasedSpans(loaded.spans, reviewed.value.changes, text);
                if rebased.Err? then r == Err(rebased.error)
                else if !env.factsPreserved(loaded.content.acceptedText, text) then r == Err(FactDrift)
                else if Headings(nodes) != loaded.revision.structureSignature.sectionOrder
                        || env.sha256(Frame(nodes)) != loaded.revision.structureSignature.digest
                then r == Err(StructureDrift)
                else if !env.styleAccepts(transformed.value) then r == Err(StyleProfileRejected)
                else r.Ok?
  {
    var reviewed := Reviewed(env.runIds, proposal, journal);
    if reviewed.Ok? {
      KeepKeptIds(proposal.changes, AcceptedIds(journal));
    }
  }
}
