/** What runs of the workflow allow: which commits go through, and which reviews become the next revision. */
module WorkflowOutcomes {
  import opened Wrappers
  import opened LexicalChanges
  import opened LexicalReview
  import opened LexicalProposals
  import opened Documents
  import opened ProtectedSpans
  import opened SpanRebase
  import opened Revisions
  import opened ProjectStore
  import opened IntegratedWorkflow
  import opened RevisionTransform
  import opened RevisionAgreement
  import opened ReviewedPipeline
  import opened WorkflowSafety
  import opened IngestedTexts

  // ----- When a commit goes through -----

  /** Contents are stored for stored revisions of named documents only, and their documents parse. */
  ghost predicate ContentsOwned(st: StoreState) {
    forall key :: key in st.contents ==>
      && key.0 != "" && Parseable(st.contents[key].document)
      && exists r :: r in RevisionsOf(st, key.0) && r.revisionId == key.1
  }

  lemma ExtensionKeepsOwned(st: StoreState, st': StoreState, r: Revision, content: Content, spans: seq<ProtectedSpan>)
    requires Extends(st, st', r, content, spans) && ContentsOwned(st)
    requires Parseable(content.document) && r.documentId != ""
    ensures ContentsOwned(st')
  {
    forall key | key in st'.contents
      ensures key.0 != "" && Parseable(st'.contents[key].document)
      ensures exists x :: x in RevisionsOf(st', key.0) && x.revisionId == key.1
    {
      if key == (r.documentId, r.revisionId) {
        assert r in RevisionsOf(st', key.0);
      } else {
        var x :| x in RevisionsOf(st, key.0) && x.revisionId == key.1;
        assert x in RevisionsOf(st', key.0);
      }
    }
  }

  lemma StepKeepsOwned(env: Env, s: System, step: Step, s': System)
    requires Next(env, s, step, s') && ContentsOwned(s.store)
    ensures ContentsOwned(s'.store)
  {
    match step
    case Ingest(id, document, extracted, profileId) =>
      IngestKeepsOwned(env, s, id, document, extracted, profileId, s');
    case Commit(c, proposal, journal) => CommitKeepsOwned(env, s, c, proposal, journal, s');
    case _ => ReadsOnly(env, s, step, s');
  }

  lemma IngestKeepsOwned(env: Env, s: System, id: string, document: Document, extracted: seq<ProtectedSpan>,
      profileId: string, s': System)
    requires IngestNext(env, s, id, document, extracted, profileId, s') && ContentsOwned(s.store)
    ensures ContentsOwned(s'.store)
  {
    var spans := KeptFrom(extracted, {}, 0, -1).value;
    var r, content := InitialRevision(env, id, document), InitialContent(document, profileId);
    IngestEffect(env.sha256, s.store, r, content, spans);
    ExtensionKeepsOwned(s.store, s'.store, r, content, spans);
  }

  lemma CommitKeepsOwned(env: Env, s: System, c: nat, proposal: Proposal, journal: Journal, s': System)
    requires CommitNext(env, s, c, proposal, journal, s') && ContentsOwned(s.store)
    ensures ContentsOwned(s'.store)
  {
    CommitStepEffect(env, s, c, proposal, journal, s');
    var f := Finalized(env, s.clients[c].loaded, proposal, journal).value;
    ExtensionKeepsOwned(s.store, s'.store, f.revision, f.content, f.spans);
  }

  lemma {:induction false} RunKeepsOwned(env: Env, states: seq<System>, steps: seq<Step>, n: nat)
    requires Run(env, states, steps) && n < |states|
    ensures ContentsOwned(states[n].store)
  {
    if n > 0 {
      RunKeepsOwned(env, states, steps, n - 1);
      StepKeepsOwned(env, states[n - 1], steps[n - 1], states[n]);
    }
  }

  /** The guard passes exactly for the head of the chain. */
  lemma GuardIff(st: StoreState, base: Revision)
    requires IsStored(st, base) && Chain(base.documentId, st.revisions[base.documentId])
    ensures var latest := LatestAccepted(RevisionsOf(st, base.documentId));
            latest.Some? && (latest.value.revisionId == base.revisionId <==> base == HeadOf(st, base.documentId))
  {
    var rs := st.revisions[base.documentId];
    LatestOfChain(base.documentId, rs);
    if rs[|rs| - 1].revisionId == base.revisionId {
      RevisionIdInjective(|rs|, base.token);
    }
  }

  /** The next revision of a chain passes every check on revision rows. */
  lemma NextRowIsSaved(st: StoreState, base: Revision, r: Revision)
    requires base.documentId in st.revisions && Chain(base.documentId, st.revisions[base.documentId])
    requires base == HeadOf(st, base.documentId) && r.documentId == base.documentId && r.baseToken == base.token
    requires r.parentRevisionId == Some(base.revisionId) && r.token == base.token + 1
             && r.revisionId == RevisionId(r.token)
    ensures SaveRevision(st, r) == Ok(st.(revisions := st.revisions[r.documentId := st.revisions[r.documentId] + [r]]))
  {
    var rs := st.revisions[base.documentId];
    LatestOfChain(base.documentId, rs);
    forall i | 0 <= i < |rs| ensures rs[i].revisionId != r.revisionId && rs[i].token != r.token {
      if rs[i].revisionId == r.revisionId {
        RevisionIdInjective(i + 1, |rs| + 1);
      }
    }
  }

  /** No content is stored yet for the next revision of a chain. */
  lemma NextIsUnowned(st: StoreState, id: string)
    requires ContentsOwned(st) && id in st.revisions && Chain(id, st.revisions[id])
    ensures (id, RevisionId(|st.revisions[id]| + 1)) !in st.contents
  {
    var key := (id, RevisionId(|st.revisions[id]| + 1));
    if key in st.contents {
      var r :| r in RevisionsOf(st, id) && r.revisionId == key.1;
      ChainMember(st, id, r);
      RevisionIdInjective(r.token, |st.revisions[id]| + 1);
    }
  }

  lemma CarriedIdsDistinct(st: StoreState, id: string, spans: seq<ProtectedSpan>)
    requires DistinctIds(SpanRowsOf(st, id)) && Carried(LoadSpans(st, id), spans)
    ensures DistinctIds(RowsOf(spans))
  {
    var sorted := OrderById(SpanRowsOf(st, id));
    OrderByIdDistinct(SpanRowsOf(st, id));
    SpansFromRowsPointwise(sorted);
    RowsOfPointwise(spans);
    forall i | 0 <= i < |spans| ensures RowsOf(spans)[i].spanId == sorted[i].spanId {
      assert SameSpan(LoadSpans(st, id)[i], spans[i]);
    }
  }

  /** The next revision of a chain, with the hash of its text. */
  ghost predicate NextOf(sha256: string -> string, base: Revision, r: Revision, content: Content) {
    && r.documentId == base.documentId && r.baseToken == base.token && r.token == base.token + 1
    && r.parentRevisionId == Some(base.revisionId) && r.revisionId == RevisionId(r.token)
    && r.acceptedTextSha256 == sha256(content.acceptedText) && content.document.surfaceText == content.acceptedText
    && Parseable(content.document) && base.documentId != ""
  }

  lemma NextContentIsSaved(sha256: string -> string, st: StoreState, base: Revision, r: Revision, content: Content)
    requires NextOf(sha256, base, r, content) && (r.documentId, r.revisionId) !in st.contents
             && r in RevisionsOf(st, r.documentId)
    ensures SaveContent(sha256, st, r, content)
            == if content.acceptedText == "" then Err(EmptyContent)
               else Ok(st.(contents := st.contents[(r.documentId, r.revisionId) := content]))
  {
    var i :| 0 <= i < |RevisionsOf(st, r.documentId)| && RevisionsOf(st, r.documentId)[i] == r;
  }

  /** The writes of a commit onto the head go through exactly when the text is not empty. */
  lemma HeadCommitsIff(sha256: string -> string, st: StoreState, base: Revision, r: Revision, content: Content,
      spans: seq<ProtectedSpan>)
    requires base.documentId in st.revisions && Chain(base.documentId, st.revisions[base.documentId])
             && ContentsOwned(st)
    requires base == HeadOf(st, base.documentId) && NextOf(sha256, base, r, content) && DistinctIds(RowsOf(spans))
    ensures CommitWrites(sha256, st, base, r, content, spans).Ok? <==> content.acceptedText != ""
    ensures content.acceptedText == "" ==> CommitWrites(sha256, st, base, r, content, spans) == Err(EmptyContent)
  {
    LatestOfChain(base.documentId, st.revisions[base.documentId]);
    NextRowIsSaved(st, base, r);
    NextIsUnowned(st, base.documentId);
    var st1 := SaveRevision(st, r).value;
    assert RevisionsOf(st1, r.documentId) == st.revisions[r.documentId] + [r];
    NextContentIsSaved(sha256, st1, base, r, content);
  }

  lemma FinalizationIsNext(env: Env, loaded: Loaded, f: Finalization)
    requires KeepsBase(env, loaded, f) && Parseable(f.content.document) && loaded.revision.documentId != ""
    ensures NextOf(env.sha256, loaded.revision, f.revision, f.content)
    ensures Carried(loaded.spans, f.spans)
  {
  }

  ghost predicate Carried(loaded: seq<ProtectedSpan>, spans: seq<ProtectedSpan>) {
    |spans| == |loaded| && forall i :: 0 <= i < |spans| ==> SameSpan(loaded[i], spans[i])
  }

  /** A document that parses still does after the transform. */
  lemma TransformKeepsParseable(sha256: string -> string, nfc: string -> string, document: Document, proposal: Proposal)
    requires Transformed(sha256, nfc, document, proposal).Ok? && Parseable(document)
    ensures Parseable(Transformed(sha256, nfc, document, proposal).value)
  {
    TransformKeepsAgreement(sha256, nfc, document, proposal);
    SameShapeParses(document, Transformed(sha256, nfc, document, proposal).value);
  }

  lemma SameShapeParses(a: Document, b: Document)
    requires Parseable(a) && |b.nodes| == |a.nodes| && b.schemaVersion == a.schemaVersion
    requires forall i :: 0 <= i < |a.nodes| ==> SameStructure(a.nodes[i], b.nodes[i])
    ensures Parseable(b)
  {
    forall i | 0 <= i < |a.nodes|
      ensures b.nodes[i].nodeId == a.nodes[i].nodeId && b.nodes[i].parentId == a.nodes[i].parentId
      ensures b.nodes[i].nodeType == a.nodes[i].nodeType
    {
      assert SameStructure(a.nodes[i], b.nodes[i]);
    }
    forall k | 0 < k < |b.nodes| ensures b.nodes[k].parentId.Some? && HasNode(b.nodes, b.nodes[k].parentId.value) {
      var j :| 0 <= j < |a.nodes| && a.nodes[j].nodeId == a.nodes[k].parentId.value;
      assert b.nodes[j].nodeId == b.nodes[k].parentId.value;
    }
  }

  /** The new document of a finalization parses if the loaded one did. */
  lemma FinalizedParses(env: Env, loaded: Loaded, proposal: Proposal, journal: Journal)
    requires Finalized(env, loaded, proposal, journal).Ok? && Parseable(loaded.content.document)
    ensures Parseable(Finalized(env, loaded, proposal, journal).value.content.document)
  {
    var reviewed := Reviewed(env.runIds, proposal, journal).value;
    FinalizedDocument(env, loaded, proposal, journal, reviewed);
    TransformKeepsParseable(env.sha256, env.nfc, loaded.content.document, reviewed);
  }

  /** A finalization computed from the head is the next revision, with the head's spans. */
  lemma HeadFinalization(env: Env, s: System, c: nat, proposal: Proposal, journal: Journal)
    requires Inv(env, s) && ContentsOwned(s.store) && ClientAt(s, c).HasAll?
    requires IsNewest(s.store, ClientAt(s, c).loaded.revision)
    requires Finalized(env, ClientAt(s, c).loaded, proposal, journal).Ok?
    ensures var loaded, f := ClientAt(s, c).loaded, Finalized(env, ClientAt(s, c).loaded, proposal, journal).value;
            && NextOf(env.sha256, loaded.revision, f.revision, f.content)
            && Carried(LoadSpans(s.store, loaded.revision.documentId), f.spans)
            && DistinctIds(SpanRowsOf(s.store, loaded.revision.documentId))
  {
    var loaded := ClientAt(s, c).loaded;
    LoadedIsConsistent(env, s, c);
    NewestIsCurrent(s.store, loaded);
    assert DocumentInv(env, s, loaded.revision.documentId);
    FinalizationKeeps(env, loaded, proposal, journal);
    LoadedParses(s.store, loaded);
    FinalizedParses(env, loaded, proposal, journal);
    FinalizationIsNext(env, loaded, Finalized(env, loaded, proposal, journal).value);
  }

  lemma LoadedParses(st: StoreState, loaded: Loaded)
    requires ContentsOwned(st) && HoldsContent(st, loaded.revision, loaded.content)
    ensures Parseable(loaded.content.document) && loaded.revision.documentId != ""
  {
  }

  lemma HeadIsNewest(st: StoreState, r: Revision)
    requires IsStored(st, r) && Chain(r.documentId, st.revisions[r.documentId])
    ensures r == HeadOf(st, r.documentId) <==> IsNewest(st, r)
  {
  }

  lemma CommitsIff(env: Env, s: System, c: nat, proposal: Proposal, journal: Journal)
    requires Inv(env, s) && ContentsOwned(s.store) && ClientAt(s, c).HasAll?
    requires Finalized(env, ClientAt(s, c).loaded, proposal, journal).Ok?
    ensures CommitOutcome(env, s.store, ClientAt(s, c).loaded,
                          Finalized(env, ClientAt(s, c).loaded, proposal, journal).value)
  {
    var base := ClientAt(s, c).loaded.revision;
    var f := Finalized(env, ClientAt(s, c).loaded, proposal, journal).value;
    LoadedIsStored(env, s, c);
    HeadIsNewest(s.store, base);
    if IsNewest(s.store, base) {
      HeadFinalization(env, s, c, proposal, journal);
      CarriedIdsDistinct(s.store, base.documentId, f.spans);
      HeadCommitsIff(env.sha256, s.store, base, f.revision, f.content, f.spans);
    } else {
      StaleIsRefused(env.sha256, s.store, base, f.revision, f.content, f.spans);
    }
  }

  lemma StaleIsRefused(sha256: string -> string, st: StoreState, base: Revision, r: Revision, content: Content,
      spans: seq<ProtectedSpan>)
    requires IsStored(st, base) && Chain(base.documentId, st.revisions[base.documentId])
    requires base != HeadOf(st, base.documentId)
    ensures CommitWrites(sha256, st, base, r, content, spans) == Err(StaleRevision)
  {
    GuardIff(st, base);
  }

  /**
   The commit succeeds exactly on the head with a text that is not empty; otherwise it is stale, or its text empty.
   */
  ghost predicate CommitOutcome(env: Env, st: StoreState, loaded: Loaded, f: Finalization) {
    var id := loaded.revision.documentId;
    var r := CommitWrites(env.sha256, st, loaded.revision, f.revision, f.content, f.spans);
    && id in st.revisions && |st.revisions[id]| > 0
    && (r.Ok? <==> loaded.revision == HeadOf(st, id) && f.content.acceptedText != "")
    && (r.Err? ==> r.error == if loaded.revision == HeadOf(st, id) then EmptyContent else StaleRevision)
  }

  /**
   In every run, what a client computed commits exactly when its base is still the newest revision and the new text is
   not empty.  The conflict, duplicate, hash, parse, surface, document-id, existing-content and missing-revision
   errors of the transaction are dead.
   */
  lemma CommitSucceedsIff(env: Env, states: seq<System>, steps: seq<Step>, n: nat, c: nat, proposal: Proposal,
      journal: Journal)
    requires Run(env, states, steps) && n < |states| && ClientAt(states[n], c).HasAll?
    requires Finalized(env, ClientAt(states[n], c).loaded, proposal, journal).Ok?
    ensures var loaded := ClientAt(states[n], c).loaded;
            CommitOutcome(env, states[n].store, loaded, Finalized(env, loaded, proposal, journal).value)
  {
    RunKeepsInv(env, states, steps, n);
    RunKeepsOwned(env, states, steps, n);
    CommitsIff(env, states[n], c, proposal, journal);
  }

  // ----- From proposal to commit -----

  lemma LoadedIsConsistent(env: Env, s: System, c: nat)
    requires Inv(env, s) && ClientAt(s, c).HasAll?
    requires IsNewest(s.store, ClientAt(s, c).loaded.revision)
    ensures Consistent(env, ClientAt(s, c).loaded)
  {
    var loaded := ClientAt(s, c).loaded;
    LoadedIsStored(env, s, c);
    NewestIsCurrent(s.store, loaded);
    assert DocumentInv(env, s, loaded.revision.documentId) && ContentFits(env, s.store, loaded.revision);
    LoadedSpansValid(s.store, loaded.revision.documentId);
  }

  /** What a client computes from its proposal and journal gets committed. */
  ghost predicate GoesThrough(env: Env, st: StoreState, loaded: Loaded, proposal: Proposal, journal: Journal) {
    var f := Finalized(env, loaded, proposal, journal);
    f.Ok? && CommitWrites(env.sha256, st, loaded.revision, f.value.revision, f.value.content, f.value.spans).Ok?
  }

  /** The condition on texts, traced back to the ingested document. */
  lemma TextsReadIff(document: Document, cs: seq<Change>, origin: Document)
    requires Applicable(document.surfaceText, cs) && TakenByNodes(document, cs)
    requires OrderedTextsRead(document) <==> OrderedTextsRead(origin)
    ensures TextsRead(document, cs) <==> OrderedTextsRead(origin) && UnorderedStillRead(document, cs)
  {
    ValidationReadsOldSpans(document.nodes, document.surfaceText, cs);
  }

  lemma OrderedSpansLeaveNothing(document: Document, cs: seq<Change>)
    requires Applicable(document.surfaceText, cs) && SpansOrdered(document)
    ensures UnorderedStillRead(document, cs)
  {
  }

  /**
   In every run, for a client that holds the newest revision of a document and a reviewed proposal made over it: the
   new revision is computed and committed exactly when the changes have no line breaks, nodes take every change, the
   texts and the protected spans were exact when ingested, the facts are kept, the style profile accepts, and some text
   is left.  Texts at negative or reversed offsets count separately; with ordered offsets there are none.
   */
  lemma ReviewGoesThroughIff(env: Env, states: seq<System>, steps: seq<Step>, n: nat, c: nat, inputs: Inputs,
      proposal: Proposal, journal: Journal)
    requires Run(env, states, steps) && n < |states| && ClientAt(states[n], c).HasAll?
    requires IsNewest(states[n].store, ClientAt(states[n], c).loaded.revision)
    requires ProposedOver(env, ClientAt(states[n], c).loaded, inputs, proposal)
    requires Reviewed(env.runIds, proposal, journal).Ok?
    ensures var loaded := ClientAt(states[n], c).loaded;
            var document, cs := loaded.content.document, Reviewed(env.runIds, proposal, journal).value.changes;
            var transformed := Transformed(env.sha256, env.nfc, document,
                                           Reviewed(env.runIds, proposal, journal).value);
            && loaded.revision.documentId in states[n].origins && Applicable(document.surfaceText, cs)
            && var origin := states[n].origins[loaded.revision.documentId];
               && (SpansOrdered(origin.document) ==> UnorderedStillRead(document, cs))
               && (GoesThrough(env, states[n].store, loaded, proposal, journal) <==>
                   && NoLineBreaks(cs) && TakenByNodes(document, cs)
                   && OrderedTextsRead(origin.document) && UnorderedStillRead(document, cs)
                   && RowsRead(origin.rows, origin.document.surfaceText)
                   && env.factsPreserved(document.surfaceText, NewText(document.surfaceText, cs))
                   && (transformed.Ok? ==> env.styleAccepts(transformed.value))
                   && NewText(document.surfaceText, cs) != "")
  {
    var loaded := ClientAt(states[n], c).loaded;
    var reviewed := Reviewed(env.runIds, proposal, journal).value;
    ReviewedChanges(env, loaded, inputs, proposal, journal);
    GoesThroughIff(env, states, steps, n, c, inputs, proposal, journal, reviewed);
    LoadedSpansReadIff(env, states, steps, n, c);
    LoadedTextsReadIff(env, states, steps, n, c);
    var document := loaded.content.document;
    var origin := states[n].origins[loaded.revision.documentId].document;
    if TakenByNodes(document, reviewed.changes) {
      TextsReadIff(document, reviewed.changes, origin);
    }
    if SpansOrdered(origin) {
      OrderedSpansLeaveNothing(document, reviewed.changes);
    }
  }

  /** The same in terms of what the client holds. */
  lemma GoesThroughIff(env: Env, states: seq<System>, steps: seq<Step>, n: nat, c: nat, inputs: Inputs,
      proposal: Proposal, journal: Journal, reviewed: Proposal)
    requires Run(env, states, steps) && n < |states| && ClientAt(states[n], c).HasAll?
    requires IsNewest(states[n].store, ClientAt(states[n], c).loaded.revision)
    requires ProposedOver(env, ClientAt(states[n], c).loaded, inputs, proposal)
    requires Reviewed(env.runIds, proposal, journal) == Ok(reviewed)
    ensures var loaded := ClientAt(states[n], c).loaded;
            var document, cs := loaded.content.document, reviewed.changes;
            var transformed := Transformed(env.sha256, env.nfc, document, reviewed);
            && document.surfaceText == loaded.content.acceptedText && Applicable(document.surfaceText, cs)
            && (GoesThrough(env, states[n].store, loaded, proposal, journal) <==>
                && NoLineBreaks(cs) && TakenByNodes(document, cs) && TextsRead(document, cs)
                && SpansRead(loaded.spans, document.surfaceText)
                && env.factsPreserved(document.surfaceText, NewText(document.surfaceText, cs))
                && (transformed.Ok? ==> env.styleAccepts(transformed.value))
                && NewText(document.surfaceText, cs) != "")
  {
    var loaded := ClientAt(states[n], c).loaded;
    RunKeepsInv(env, states, steps, n);
    LoadedIsConsistent(env, states[n], c);
    LoadedIsStored(env, states[n], c);
    NewestIsCurrent(states[n].store, loaded);
    ReviewedChanges(env, loaded, inputs, proposal, journal);
    FinalizationSucceedsIff(env, loaded, inputs, proposal, journal);
    if Finalized(env, loaded, proposal, journal).Ok? {
      FinalizedDocument(env, loaded, proposal, journal, reviewed);
      TransformKeepsAgreement(env.sha256, env.nfc, loaded.content.document, reviewed);
      CommitSucceedsIff(env, states, steps, n, c, proposal, journal);
    }
  }
}
