/**
 What was ingested decides what can be finalized: protected spans and node texts that do not read their places, in every
 run, and the documents for which that happens.
 */
module IngestedTexts {
  import opened Wrappers
  import opened LexicalChanges
  import opened LexicalReview
  import opened Documents
  import opened ProtectedSpans
  import opened Quotations
  import opened RevisionTransform
  import opened RevisionAgreement
  import opened SpanRebase
  import opened Revisions
  import opened ProjectStore
  import opened IntegratedWorkflow
  import opened WorkflowSafety

  /** No later revision of the document is stored. */
  predicate IsNewest(st: StoreState, r: Revision) {
    r.documentId in st.revisions && r.token == |st.revisions[r.documentId]|
  }

  // ----- A run that ingests one document -----

  lemma FirstWritesSucceed(sha256: string -> string, id: string, r: Revision, content: Content,
      spans: seq<ProtectedSpan>)
    requires r.documentId == id && r.baseToken == 0 && r.parentRevisionId == None && DistinctIds(RowsOf(spans))
    requires r.acceptedTextSha256 == sha256(content.acceptedText)
             && content.document.surfaceText == content.acceptedText
    requires content.acceptedText != "" && id != "" && Parseable(content.document)
    ensures var st := IngestWrites(sha256, StoreState(map[], map[], map[], []), r, content, spans);
            st.Ok? && st.value.revisions == map[id := [r]]
  {
    var empty := StoreState(map[], map[], map[], []);
    var st1 := SaveSpans(empty, id, spans).value;
    assert RevisionsOf(st1, id) == [] && [] + [r] == [r];
    assert map[][id := [r]] == map[id := [r]] && SaveRevision(st1, r) == Ok(st1.(revisions := map[id := [r]]));
    var st2 := SaveRevision(st1, r).value;
    assert RevisionsOf(st2, id)[0] == r && SaveContent(sha256, st2, r, content).Ok?;
  }

  /** What ingest takes as the first document of an empty store. */
  ghost predicate Ingestible(id: string, document: Document, extracted: seq<ProtectedSpan>) {
    && id != "" && document.lane == "source" && Parseable(document) && document.surfaceText != ""
    && KeptFrom(extracted, {}, 0, -1).Ok?
  }

  /** The run of one step. */
  lemma FirstIngest(env: Env, id: string, document: Document, extracted: seq<ProtectedSpan>, profileId: string)
    returns (states: seq<System>)
    requires Ingestible(id, document, extracted)
    ensures Run(env, states, [Ingest(id, document, extracted, profileId)]) && id in states[1].store.revisions
    ensures id in states[1].origins
    ensures states[1].origins[id] == Origin(document, RowsOf(KeptFrom(extracted, {}, 0, -1).value))
  {
    var empty := System(StoreState(map[], map[], map[], []), map[], map[]);
    var spans := KeptFrom(extracted, {}, 0, -1).value;
    var r, content := InitialRevision(env, id, document), InitialContent(document, profileId);
    SpanSetMeaning(extracted);
    RowsOfPointwise(spans);
    FirstWritesSucceed(env.sha256, id, r, content, spans);
    var st := IngestWrites(env.sha256, empty.store, r, content, spans).value;
    states := [empty, System(st, map[], map[id := Origin(document, RowsOf(spans))])];
    assert empty.origins[id := Origin(document, RowsOf(spans))] == map[id := Origin(document, RowsOf(spans))];
  }

  // ----- Spans that do not read their text -----

  lemma LoadedReadIff(st: StoreState, id: string, text: string)
    ensures SpansRead(LoadSpans(st, id), text) <==> RowsRead(SpanRowsOf(st, id), text)
  {
    LoadedSpans(st, id);
    var rows, spans := SpanRowsOf(st, id), LoadSpans(st, id);
    if SpansRead(spans, text) {
      forall row | row in rows ensures Slice(text, row.start, row.end) == row.text {
        assert Reads(SpanFromRow(row), text);
      }
    }
  }

  /**
   In every run the spans a client holds with the current revision read their texts exactly when the ingested spans
   did, so with exact ingested spans no finalization fails for a span's text, and with an inexact one each
   finalization does.
   */
  lemma LoadedSpansReadIff(env: Env, states: seq<System>, steps: seq<Step>, n: nat, c: nat)
    requires Run(env, states, steps) && n < |states| && ClientAt(states[n], c).HasAll?
    requires IsNewest(states[n].store, ClientAt(states[n], c).loaded.revision)
    ensures var loaded := ClientAt(states[n], c).loaded;
            && loaded.revision.documentId in states[n].origins
            && var origin := states[n].origins[loaded.revision.documentId];
               SpansRead(loaded.spans, loaded.content.acceptedText)
               <==> RowsRead(origin.rows, origin.document.surfaceText)
  {
    RunKeepsInv(env, states, steps, n);
    LoadedIsStored(env, states[n], c);
    var loaded := ClientAt(states[n], c).loaded;
    NewestIsCurrent(states[n].store, loaded);
    assert DocumentInv(env, states[n], loaded.revision.documentId);
    LoadedReadIff(states[n].store, loaded.revision.documentId, loaded.content.acceptedText);
  }

  lemma KeptRow(span: ProtectedSpan, kept: seq<ProtectedSpan>)
    requires KeptIn(span, kept)
    ensures exists row :: row in RowsOf(kept) && row == RowOf(span).(spanId := row.spanId)
  {
    var k :| k in kept && k == span.(spanId := k.spanId);
    var i :| 0 <= i < |kept| && kept[i] == k;
    RowsOfPointwise(kept);
    assert RowsOf(kept)[i] == RowOf(k);
  }

  /**
   A quoted run in an exact paragraph or heading is such a span: ingesting the document, whatever else was extracted
   from it, is a run after which its rows do not read their texts.
   */
  lemma QuotedRunIsIngestedInexact(env: Env, id: string, document: Document, extracted: seq<ProtectedSpan>,
      isSpace: char -> bool, node: Node, q: Quotation, profileId: string)
    returns (states: seq<System>)
    requires Ingestible(id, document, extracted) && node in document.nodes && Exact(document.surfaceText, node)
    requires !node.nodeType.Quotation? && q in Candidates(isSpace, node)
    requires KeptIn(SpanOf(q), KeptFrom(extracted, {}, 0, -1).value)
    ensures Run(env, states, [Ingest(id, document, extracted, profileId)]) && id in states[1].store.revisions
    ensures id in states[1].origins && states[1].origins[id].document == document
    ensures !RowsRead(states[1].origins[id].rows, document.surfaceText)
  {
    states := FirstIngest(env, id, document, extracted, profileId);
    CandidatesRead(isSpace, node, q, document.surfaceText);
    SliceInBounds(document.surfaceText, q.location.start, q.location.end);
    KeptRow(SpanOf(q), KeptFrom(extracted, {}, 0, -1).value);
  }

  /**
   A document ingested with a span that does not read its own text, such as an inline quotation, is never finalized.
   */
  lemma InexactSpanFreezesDocument(env: Env, states: seq<System>, steps: seq<Step>, n: nat, id: string)
    requires Run(env, states, steps) && n < |states| && id in states[n].store.revisions
    requires id in states[n].origins
             && !RowsRead(states[n].origins[id].rows, states[n].origins[id].document.surfaceText)
    ensures |states[n].store.revisions[id]| == 1
  {
    RunKeepsInv(env, states, steps, n);
    assert DocumentInv(env, states[n], id);
  }

  // ----- Node texts that do not read their place -----

  /** The new document of a finalization is the transformed one. */
  lemma FinalizedDocument(env: Env, loaded: Loaded, proposal: Proposal, journal: Journal, reviewed: Proposal)
    requires Reviewed(env.runIds, proposal, journal) == Ok(reviewed) && Finalized(env, loaded, proposal, journal).Ok?
    ensures var transformed := Transformed(env.sha256, env.nfc, loaded.content.document, reviewed);
            var content := Finalized(env, loaded, proposal, journal).value.content;
            transformed == Ok(content.document) && content.acceptedText == content.document.surfaceText
  {
  }

  /** Every editable text at ordered offsets reads its span. */
  ghost predicate OrderedTextsRead(document: Document) {
    OrderedRead(document.nodes, document.surfaceText)
  }

  ghost predicate SpansOrdered(document: Document) {
    forall node :: node in document.nodes && MustBeExact(node) ==> SpanOrdered(node)
  }

  lemma OldTextsRead(sha256: string -> string, nfc: string -> string, document: Document, proposal: Proposal)
    requires Transformed(sha256, nfc, document, proposal).Ok?
    ensures OrderedTextsRead(document)
  {
    TransformSucceedsIff(sha256, nfc, document, proposal);
    ValidationReadsOldSpans(document.nodes, document.surfaceText, Sort(proposal.changes));
  }

  /** The transform goes node by node. */
  lemma NodeOfTransformed(sha256: string -> string, nfc: string -> string, document: Document, proposal: Proposal,
      i: nat)
    requires Transformed(sha256, nfc, document, proposal).Ok? && i < |document.nodes|
    ensures var document', cs := Transformed(sha256, nfc, document, proposal).value, Sort(proposal.changes);
            && Applicable(document.surfaceText, cs) && |document'.nodes| == |document.nodes|
            && TransformedNode(document.nodes[i], document.surfaceText, cs).Ok?
            && document'.nodes[i] == TransformedNode(document.nodes[i], document.surfaceText, cs).value.0
            && (MustBeExact(document'.nodes[i]) ==> ReadsItsSpan(document'.surfaceText, document'.nodes[i]))
  {
    TransformKeepsAgreement(sha256, nfc, document, proposal);
    TransformedNodesPointwise(document.nodes, document.surfaceText, Sort(proposal.changes));
  }

  /** A document that the transform accepts has exact texts, and so has the new one; ordered spans stay so. */
  lemma TransformedTexts(sha256: string -> string, nfc: string -> string, document: Document, proposal: Proposal)
    requires Transformed(sha256, nfc, document, proposal).Ok?
    ensures OrderedTextsRead(document) && OrderedTextsRead(Transformed(sha256, nfc, document, proposal).value)
    ensures SpansOrdered(document) ==> SpansOrdered(Transformed(sha256, nfc, document, proposal).value)
  {
    OldTextsRead(sha256, nfc, document, proposal);
    var document' := Transformed(sha256, nfc, document, proposal).value;
    forall node | node in document'.nodes && MustBeExact(node)
      ensures ReadsItsSpan(document'.surfaceText, node) && (SpansOrdered(document) ==> SpanOrdered(node))
    {
      NewNodeReads(sha256, nfc, document, proposal, node);
    }
  }

  lemma NewNodeReads(sha256: string -> string, nfc: string -> string, document: Document, proposal: Proposal,
      node: Node)
    requires Transformed(sha256, nfc, document, proposal).Ok? && MustBeExact(node)
    requires node in Transformed(sha256, nfc, document, proposal).value.nodes
    ensures ReadsItsSpan(Transformed(sha256, nfc, document, proposal).value.surfaceText, node)
    ensures SpansOrdered(document) ==> SpanOrdered(node)
  {
    var document' := Transformed(sha256, nfc, document, proposal).value;
    TransformKeepsAgreement(sha256, nfc, document, proposal);
    var i :| 0 <= i < |document'.nodes| && document'.nodes[i] == node;
    NodeOfTransformed(sha256, nfc, document, proposal, i);
    TextStaysOrdered(document.nodes[i], node, document.surfaceText, Sort(proposal.changes));
  }

  lemma TextStaysOrdered(node: Node, node': Node, surface: string, cs: seq<Change>)
    requires Applicable(surface, cs) && MustBeExact(node')
    requires TransformedNode(node, surface, cs).Ok? && node' == TransformedNode(node, surface, cs).value.0
    ensures MustBeExact(node) && (SpanOrdered(node) ==> SpanOrdered(node'))
  {
    if SpanOrdered(node) {
      NodeAccepted(node, surface, cs);
      ShiftMonotone(surface, cs, node.location.start, node.location.end);
    }
  }

  ghost predicate HeadHasContent(st: StoreState, id: string) {
    id in st.revisions && |st.revisions[id]| > 0 && (id, HeadOf(st, id).revisionId) in st.contents
  }

  ghost function HeadDocument(st: StoreState, id: string): Document
    requires HeadHasContent(st, id)
  {
    st.contents[(id, HeadOf(st, id).revisionId)].document
  }

  /** Until the first commit the document is the ingested one; from then on both have exact texts. */
  ghost predicate TextsInv(st: StoreState, id: string, origin: Document) {
    && HeadHasContent(st, id)
    && (|st.revisions[id]| == 1 ==> HeadDocument(st, id) == origin)
    && (|st.revisions[id]| > 1 ==> OrderedTextsRead(origin) && OrderedTextsRead(HeadDocument(st, id)))
    && (SpansOrdered(origin) ==> SpansOrdered(HeadDocument(st, id)))
  }

  ghost predicate AllTextsInv(s: System) {
    forall id :: id in s.store.revisions ==> id in s.origins && TextsInv(s.store, id, s.origins[id].document)
  }

  /** One more revision of `id`, whose document the transform made from the newest one. */
  lemma NextTexts(st: StoreState, st': StoreState, id: string, origin: Document, r: Revision, content: Content,
      spans: seq<ProtectedSpan>, sha256: string -> string, nfc: string -> string, proposal: Proposal)
    requires TextsInv(st, id, origin) && Extends(st, st', r, content, spans) && r.documentId == id
    requires Transformed(sha256, nfc, HeadDocument(st, id), proposal) == Ok(content.document)
    ensures TextsInv(st', id, origin)
  {
    TransformedTexts(sha256, nfc, HeadDocument(st, id), proposal);
    assert st'.revisions[id] == st.revisions[id] + [r];
  }

  lemma OtherTexts(st: StoreState, st': StoreState, id: string, origin: Document, r: Revision, content: Content,
      spans: seq<ProtectedSpan>)
    requires TextsInv(st, id, origin) && Extends(st, st', r, content, spans) && r.documentId != id
    ensures TextsInv(st', id, origin)
  {
    assert st'.revisions[id] == st.revisions[id];
  }

  lemma FirstTexts(st: StoreState, r: Revision, content: Content, spans: seq<ProtectedSpan>, st': StoreState)
    requires Extends(st, st', r, content, spans) && r.documentId !in st.revisions
    ensures TextsInv(st', r.documentId, content.document)
  {
    assert st'.revisions[r.documentId] == [r];
  }

  lemma IngestIsFirst(env: Env, s: System, id: string, document: Document, extracted: seq<ProtectedSpan>,
      profileId: string, s': System)
    requires Inv(env, s) && IngestNext(env, s, id, document, extracted, profileId, s')
    ensures id !in s.store.revisions
    ensures Extends(s.store, s'.store, InitialRevision(env, id, document), InitialContent(document, profileId),
                    KeptFrom(extracted, {}, 0, -1).value)
  {
    IngestEffect(env.sha256, s.store, InitialRevision(env, id, document), InitialContent(document, profileId),
                 KeptFrom(extracted, {}, 0, -1).value);
    if id in s.store.revisions {
      HeadToken(env, s, id);
      assert DocumentInv(env, s, id);
      LatestOfChain(id, s.store.revisions[id]);
      assert false;
    }
  }

  lemma IngestKeepsTexts(env: Env, s: System, id: string, document: Document, extracted: seq<ProtectedSpan>,
      profileId: string, s': System)
    requires Inv(env, s) && AllTextsInv(s) && IngestNext(env, s, id, document, extracted, profileId, s')
    ensures AllTextsInv(s')
  {
    var r, content := InitialRevision(env, id, document), InitialContent(document, profileId);
    var spans := KeptFrom(extracted, {}, 0, -1).value;
    IngestIsFirst(env, s, id, document, extracted, profileId, s');
    FirstTexts(s.store, r, content, spans, s'.store);
    forall d | d in s'.store.revisions ensures d in s'.origins && TextsInv(s'.store, d, s'.origins[d].document) {
      if d != id {
        OtherTexts(s.store, s'.store, d, s.origins[d].document, r, content, spans);
      }
    }
  }

  lemma CommitKeepsTexts(env: Env, s: System, c: nat, proposal: Proposal, journal: Journal, s': System)
    requires Inv(env, s) && AllTextsInv(s) && CommitNext(env, s, c, proposal, journal, s')
    ensures AllTextsInv(s')
  {
    CommitSeesCurrentState(env, s, c, proposal, journal, s');
    CommitStepEffect(env, s, c, proposal, journal, s');
    var loaded := s.clients[c].loaded;
    var f := Finalized(env, loaded, proposal, journal).value;
    FinalizedDocument(env, loaded, proposal, journal, Reviewed(env.runIds, proposal, journal).value);
    forall d | d in s'.store.revisions ensures d in s'.origins && TextsInv(s'.store, d, s'.origins[d].document) {
      if d == loaded.revision.documentId {
        NextTexts(s.store, s'.store, d, s.origins[d].document, f.revision, f.content, f.spans, env.sha256, env.nfc,
                  Reviewed(env.runIds, proposal, journal).value);
      } else {
        OtherTexts(s.store, s'.store, d, s.origins[d].document, f.revision, f.content, f.spans);
      }
    }
  }

  lemma StepKeepsTexts(env: Env, s: System, step: Step, s': System)
    requires Inv(env, s) && AllTextsInv(s) && Next(env, s, step, s')
    ensures AllTextsInv(s')
  {
    match step
    case Ingest(id, document, extracted, profileId) =>
      IngestKeepsTexts(env, s, id, document, extracted, profileId, s');
    case Commit(c, proposal, journal) => CommitKeepsTexts(env, s, c, proposal, journal, s');
    case _ => ReadsOnly(env, s, step, s');
  }

  lemma {:induction false} RunKeepsTexts(env: Env, states: seq<System>, steps: seq<Step>, n: nat)
    requires Run(env, states, steps) && n < |states|
    ensures AllTextsInv(states[n])
  {
    if n > 0 {
      RunKeepsTexts(env, states, steps, n - 1);
      RunKeepsInv(env, states, steps, n - 1);
      StepKeepsTexts(env, states[n - 1], steps[n - 1], states[n]);
    }
  }

  /** A document ingested with an editable text that does not read its span is never finalized. */
  lemma InexactTextFreezesDocument(env: Env, states: seq<System>, steps: seq<Step>, n: nat, id: string)
    requires Run(env, states, steps) && n < |states| && id in states[n].store.revisions
    requires id in states[n].origins && !OrderedTextsRead(states[n].origins[id].document)
    ensures |states[n].store.revisions[id]| == 1
  {
    RunKeepsTexts(env, states, steps, n);
  }

  /**
   In every run the texts a client holds with the newest revision are exact precisely when the ingested ones were, and
   their spans are ordered if those were.
   */
  lemma LoadedTextsReadIff(env: Env, states: seq<System>, steps: seq<Step>, n: nat, c: nat)
    requires Run(env, states, steps) && n < |states| && ClientAt(states[n], c).HasAll?
    requires IsNewest(states[n].store, ClientAt(states[n], c).loaded.revision)
    ensures var loaded := ClientAt(states[n], c).loaded;
            && loaded.revision.documentId in states[n].origins
            && var origin := states[n].origins[loaded.revision.documentId].document;
               && (OrderedTextsRead(loaded.content.document) <==> OrderedTextsRead(origin))
               && (SpansOrdered(origin) ==> SpansOrdered(loaded.content.document))
  {
    var loaded := ClientAt(states[n], c).loaded;
    RunKeepsInv(env, states, steps, n);
    RunKeepsTexts(env, states, steps, n);
    LoadedIsStored(env, states[n], c);
    NewestIsCurrent(states[n].store, loaded);
  }

  /** The node's span is a whole line, or more, of which its text leaves out a marker: "# ", "- ", "> ", ... */
  ghost predicate MarkedLine(surface: string, node: Node) {
    exists before: string, marker: string, rest: string, after: string ::
      && surface == before + (marker + node.text + rest) + after && marker + rest != "" && MustBeExact(node)
      && node.location.start == |before| && node.location.end == |before| + |marker + node.text + rest|
  }

  lemma MarkedLineIsInexact(surface: string, node: Node)
    requires MarkedLine(surface, node)
    ensures surface != "" && MustBeExact(node) && SpanOrdered(node) && !ReadsItsSpan(surface, node)
  {
    var before: string, marker: string, rest: string, after: string :|
      && surface == before + (marker + node.text + rest) + after && marker + rest != "" && MustBeExact(node)
      && node.location.start == |before| && node.location.end == |before| + |marker + node.text + rest|;
    assert |Slice(surface, node.location.start, node.location.end)| == |marker + node.text + rest|;
  }

  /** A list item, quote or heading in Markdown is such a text: a document with one is received, and then frozen. */
  lemma MarkedLineIsIngestedInexact(env: Env, id: string, document: Document, extracted: seq<ProtectedSpan>, node: Node,
      profileId: string)
    returns (states: seq<System>)
    requires Ingestible(id, document, extracted) && node in document.nodes && MarkedLine(document.surfaceText, node)
    ensures Run(env, states, [Ingest(id, document, extracted, profileId)]) && id in states[1].store.revisions
    ensures id in states[1].origins && !OrderedTextsRead(states[1].origins[id].document)
  {
    states := FirstIngest(env, id, document, extracted, profileId);
    MarkedLineIsInexact(document.surfaceText, node);
  }
}
