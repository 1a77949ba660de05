/** From proposal to finalization: which of the pipeline's checks can still fail, and when. */
module ReviewedPipeline {
  import opened Wrappers
  import opened Decimals
  import opened LexicalChanges
  import opened LexicalApplication
  import opened LexicalReview
  import opened LexicalContexts
  import opened LexicalProposals
  import opened Documents
  import opened ProtectedSpans
  import opened RevisionTransform
  import opened RevisionAgreement
  import opened SpanRebase
  import opened StructureSignature
  import opened IntegratedWorkflow

  /** The proposal that `propose_integrated_lexical_changes` makes over a loaded document. */
  ghost predicate ProposedOver(env: Env, loaded: Loaded, inputs: Inputs, proposal: Proposal) {
    var text := loaded.content.acceptedText;
    var outcome := ProposedOutcome(inputs, text, TokenContexts(inputs.rules, text, inputs.spans));
    inputs.spans == loaded.spans && outcome.Ok?
    && proposal == ProposalOf(env.sha256, env.runIds, inputs, text, outcome.value)
  }

  /** The proposal is of the current schema and its ids are derived from the rest of it. */
  ghost predicate SelfNamed(runIds: RunIds, p: Proposal) {
    && p.schemaVersion == 1 && p.proposalId == p.runId
    && p.runId == runIds(p.rulesetHash, p.documentHash, p.changes, p.findings)
  }

  /** A proposal names its ruleset, its text and itself; review renames it after what is accepted. */
  lemma ProposalsAreSelfNamed(sha256: string -> string, runIds: RunIds, inputs: Inputs, text: string, outcome: Outcome,
      journal: Journal)
    ensures var p := ProposalOf(sha256, runIds, inputs, text, outcome);
            && SelfNamed(runIds, p) && p.rulesetHash == inputs.rulesetHash && p.documentHash == sha256(text)
            && p.changes == outcome.changes && p.findings == outcome.findings
            && (Reviewed(runIds, p, journal).Ok? ==> SelfNamed(runIds, Reviewed(runIds, p, journal).value))
  {
  }

  /** A loaded document as ingest and earlier finalizations leave it. */
  ghost predicate Consistent(env: Env, loaded: Loaded) {
    var document := loaded.content.document;
    && document.surfaceText == loaded.content.acceptedText
    && loaded.revision.structureSignature == SignatureOf(env.sha256, document.nodes)
    && forall s :: s in loaded.spans ==> ValidOffsets(s)
  }

  /** Every node takes the changes and every change edits some exact editable node. */
  ghost predicate TakenByNodes(document: Document, cs: seq<Change>) {
    && (forall node :: node in document.nodes ==> NodeTakes(node, document.surfaceText, cs))
    && (forall c :: c in cs ==> EditsSome(c, document.nodes, document.surfaceText))
  }

  /** The untouched editable texts read their shifted spans; with ordered spans, `ValidationReadsOldSpans` says when. */
  ghost predicate TextsRead(document: Document, cs: seq<Change>)
    requires Applicable(document.surfaceText, cs)
  {
    forall node :: node in document.nodes ==> StillReads(node, document.surfaceText, cs)
  }

  /** That condition where offsets are negative or reversed, which importers do not produce. */
  ghost predicate UnorderedStillRead(document: Document, cs: seq<Change>)
    requires Applicable(document.surfaceText, cs)
  {
    forall node :: node in document.nodes && !SpanOrdered(node) ==> StillReads(node, document.surfaceText, cs)
  }

  lemma ReviewedIdsAreDistinct(proposal: Proposal, reviewed: Proposal)
    requires NumberedChanges(proposal.changes) && forall c :: c in reviewed.changes ==> c in proposal.changes
    ensures DistinctChangeIds(reviewed.changes)
  {
    forall c, d | c in reviewed.changes && d in reviewed.changes && c.changeId == d.changeId ensures c == d {
      var i :| 0 <= i < |proposal.changes| && proposal.changes[i] == c;
      var j :| 0 <= j < |proposal.changes| && proposal.changes[j] == d;
      assert Decimal(i + 1) == ChangeId(i + 1)[2..] && Decimal(j + 1) == ChangeId(j + 1)[2..];
      DecimalInjective(i + 1, j + 1);
    }
  }

  /** What survives review is disjoint, fits the text, is already sorted and stays clear of the protected spans. */
  lemma ReviewedChanges(env: Env, loaded: Loaded, inputs: Inputs, proposal: Proposal, journal: Journal)
    requires ProposedOver(env, loaded, inputs, proposal) && Reviewed(env.runIds, proposal, journal).Ok?
    ensures var reviewed := Reviewed(env.runIds, proposal, journal).value;
            var text := loaded.content.acceptedText;
            && Applicable(text, reviewed.changes) && Sort(reviewed.changes) == reviewed.changes
            && AppliedText(env.sha256, text, reviewed, None) == Ok(NewText(text, reviewed.changes))
            && DistinctChangeIds(reviewed.changes)
            && forall s :: s in loaded.spans ==> Clear(s, reviewed.changes)
  {
    var text := loaded.content.acceptedText;
    var reviewed := Reviewed(env.runIds, proposal, journal).value;
    ProposalMeaning(inputs, text);
    ReviewedSubsetApplies(env.runIds, env.sha256, text, proposal, journal);
    SortsAlike(reviewed.changes, reviewed.changes);
    ReviewMeaning(env.runIds, proposal, journal);
    ReviewedIdsAreDistinct(proposal, reviewed);
    forall s, c | s in loaded.spans && c in reviewed.changes ensures !Hits(s, c) {
      assert c in proposal.changes && ClearOfSpans(inputs.spans, c);
    }
  }

  lemma TransformOfReviewed(env: Env, document: Document, reviewed: Proposal)
    requires Applicable(document.surfaceText, reviewed.changes) && Sort(reviewed.changes) == reviewed.changes
    requires AppliedText(env.sha256, document.surfaceText, reviewed, None).Ok? && DistinctChangeIds(reviewed.changes)
    ensures Transformed(env.sha256, env.nfc, document, reviewed).Ok? <==>
            NoLineBreaks(reviewed.changes) && TakenByNodes(document, reviewed.changes)
            && TextsRead(document, reviewed.changes)
  {
    TransformSucceedsIff(env.sha256, env.nfc, document, reviewed);
    DistinctIdsLand(document.nodes, document.surfaceText, reviewed.changes);
  }

  /**
   Finalizing a review of the document's own proposal: the only checks that can fail are line breaks in a change, a
   node that refuses a change, a change that no exact editable node covers, a text or a protected span that does not
   read its place, the fact check and the style check.  Overlap, bounds, text, schema and hash mismatches, structure
   drift and revision conflicts cannot occur.
   */
  lemma FinalizationSucceedsIff(env: Env, loaded: Loaded, inputs: Inputs, proposal: Proposal, journal: Journal)
    requires ProposedOver(env, loaded, inputs, proposal) && Consistent(env, loaded)
    requires Reviewed(env.runIds, proposal, journal).Ok?
    ensures var reviewed := Reviewed(env.runIds, proposal, journal).value;
            var document := loaded.content.document;
            var transformed := Transformed(env.sha256, env.nfc, document, reviewed);
            && Applicable(document.surfaceText, reviewed.changes)
            && (transformed.Ok? <==>
                NoLineBreaks(reviewed.changes) && TakenByNodes(document, reviewed.changes)
                && TextsRead(document, reviewed.changes))
            && (Finalized(env, loaded, proposal, journal).Ok? <==>
                && NoLineBreaks(reviewed.changes) && TakenByNodes(document, reviewed.changes)
                && TextsRead(document, reviewed.changes)
                && SpansRead(loaded.spans, document.surfaceText)
                && env.factsPreserved(document.surfaceText, NewText(document.surfaceText, reviewed.changes))
                && (transformed.Ok? ==> env.styleAccepts(transformed.value)))
  {
    var reviewed := Reviewed(env.runIds, proposal, journal).value;
    var document := loaded.content.document;
    ReviewedChanges(env, loaded, inputs, proposal, journal);
    TransformOfReviewed(env, document, reviewed);
    if Transformed(env.sha256, env.nfc, document, reviewed).Ok? {
      AfterTransform(env, loaded, proposal, journal, reviewed);
    }
  }

  lemma AfterTransform(env: Env, loaded: Loaded, proposal: Proposal, journal: Journal, reviewed: Proposal)
    requires Consistent(env, loaded) && Reviewed(env.runIds, proposal, journal) == Ok(reviewed)
    requires Transformed(env.sha256, env.nfc, loaded.content.document, reviewed).Ok?
    requires forall s :: s in loaded.spans ==> Clear(s, reviewed.changes)
    ensures var document' := Transformed(env.sha256, env.nfc, loaded.content.document, reviewed).value;
            Finalized(env, loaded, proposal, journal).Ok? <==>
            && SpansRead(loaded.spans, loaded.content.acceptedText)
            && env.factsPreserved(loaded.content.acceptedText, document'.surfaceText) && env.styleAccepts(document')
    ensures Transformed(env.sha256, env.nfc, loaded.content.document, reviewed).value.surfaceText
            == (TransformKeepsAgreement(env.sha256, env.nfc, loaded.content.document, reviewed);
                NewText(loaded.content.document.surfaceText, Sort(reviewed.changes)))
  {
    var document := loaded.content.document;
    TransformKeepsAgreement(env.sha256, env.nfc, document, reviewed);
    TransformKeepsSignature(env.sha256, env.nfc, document, reviewed);
    KeepKeptIds(proposal.changes, AcceptedIds(journal));
    RebaseSucceedsIff(loaded.spans, document.surfaceText, reviewed.changes);
    RebaseFactsAndStyle(env, loaded, proposal, journal, reviewed,
                        Transformed(env.sha256, env.nfc, document, reviewed).value);
  }

  lemma RebaseFactsAndStyle(env: Env, loaded: Loaded, proposal: Proposal, journal: Journal, reviewed: Proposal,
      document': Document)
    requires Reviewed(env.runIds, proposal, journal) == Ok(reviewed)
    requires Transformed(env.sha256, env.nfc, loaded.content.document, reviewed) == Ok(document')
    requires RevalidateStructure(SignatureOf(env.sha256, document'.nodes), loaded.revision.structureSignature).None?
    ensures Finalized(env, loaded, proposal, journal).Ok? <==>
            && RebasedSpans(loaded.spans, KeepIds(proposal.changes, set c | c in reviewed.changes :: c.changeId),
                            document'.surfaceText).Ok?
            && env.factsPreserved(loaded.content.acceptedText, document'.surfaceText) && env.styleAccepts(document')
  {
  }
}
