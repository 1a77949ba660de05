/** What every run leaves on record: one approval for each revision, and documents that differ only in their texts. */
module WorkflowRecords {
  import opened Wrappers
  import opened Sequences
  import opened Decimals
  import opened LexicalReview
  import opened LexicalChanges
  import opened Documents
  import opened ProtectedSpans
  import opened RevisionTransform
  import opened RevisionAgreement
  import opened Revisions
  import opened ProjectStore
  import opened StoreReads
  import opened IntegratedWorkflow
  import opened WorkflowSafety
  import opened IngestedTexts

  // ----- What a finalization records -----

  /** The revision and content of a finalization name the run of the proposal and the bound style profile. */
  lemma FinalizationRecords(env: Env, loaded: Loaded, proposal: Proposal, journal: Journal)
    requires Finalized(env, loaded, proposal, journal).Ok?
    ensures var f := Finalized(env, loaded, proposal, journal).value;
            && f.content.styleProfileId == env.profileId && f.content.finalizationRunId == proposal.runId
            && f.revision.createdNote == "lexical finalization " + proposal.runId && f.revision.status == Accepted
            && f.revision.acceptedTextSha256 == env.sha256(f.content.acceptedText)
            && f.revision.documentId == loaded.revision.documentId && f.revision.token == loaded.revision.token + 1
            && f.revision.revisionId == RevisionId(loaded.revision.token + 1)
  {
  }

  /** Ingest stores the document's own text, under the given profile and no run. */
  lemma IngestRecords(env: Env, id: string, document: Document, profileId: string)
    ensures InitialContent(document, profileId)
            == Content(document.surfaceText, document, profileId, "")
    ensures var r := InitialRevision(env, id, document);
            && r.documentId == id && r.revisionId == RevisionId(1) && r.token == 1 && r.baseToken == 0
            && r.parentRevisionId.None? && r.status == Accepted && r.createdNote == ""
            && r.acceptedTextSha256 == env.sha256(document.surfaceText)
  {
    assert Decimal(1) == "1";
  }

  // ----- Approvals -----

  function Target(id: string, n: nat): string { id + ":" + RevisionId(n) }

  lemma NoColon(n: nat)
    ensures ':' !in RevisionId(n)
  {
    assert ':' !in DIGITS;
    assert RevisionId(n) == "rev-" + Decimal(n);
  }

  /** The target of an approval names document and revision, whatever colons the document id contains. */
  lemma TargetInjective(a: string, m: nat, b: string, n: nat)
    requires Target(a, m) == Target(b, n)
    ensures a == b && m == n
  {
    NoColon(m);
    NoColon(n);
    LastColon(a, RevisionId(m), b, RevisionId(n));
    RevisionIdInjective(m, n);
  }

  lemma LastColon(a: string, x: string, b: string, y: string)
    requires a + ":" + x == b + ":" + y && ':' !in x && ':' !in y
    ensures a == b && x == y
  {
    var s := a + ":" + x;
    assert s[|a|] == ':' && s[|b|] == ':';
    assert forall k :: |a| < k < |s| ==> s[k] == x[k - |a| - 1];
    assert forall k :: |b| < k < |s| ==> s[k] == y[k - |b| - 1];
    assert |a| == |b|;
    assert a == s[..|a|] && b == s[..|b|] && x == s[|a| + 1..] && y == s[|b| + 1..];
  }

  ghost predicate Concerns(approval: (string, string), id: string) { exists n: nat :: approval.1 == Target(id, n) }

  /** The approvals of one document, in order. */
  ghost function ApprovalsOf(approvals: seq<(string, string)>, id: string): seq<(string, string)> {
    if |approvals| == 0 then []
    else
      var last := approvals[|approvals| - 1];
      ApprovalsOf(approvals[..|approvals| - 1], id) + if Concerns(last, id) then [last] else []
  }

  /** The ingest of rev-1, then one finalization for each of rev-2 to rev-n. */
  function Log(id: string, n: nat): seq<(string, string)> {
    if n == 0 then []
    else Log(id, n - 1) + [(if n == 1 then "ingest" else "revision", Target(id, n))]
  }

  lemma OneMore(approvals: seq<(string, string)>, kind: string, d: string, n: nat, id: string)
    ensures ApprovalsOf(approvals + [(kind, Target(d, n))], id)
            == ApprovalsOf(approvals, id) + if d == id then [(kind, Target(d, n))] else []
  {
    var all := approvals + [(kind, Target(d, n))];
    assert all[..|all| - 1] == approvals;
    if Concerns(all[|all| - 1], id) {
      var m: nat :| Target(d, n) == Target(id, m);
      TargetInjective(d, n, id, m);
    }
  }

  /** Every document has exactly the approvals of its revisions. */
  ghost predicate ApprovalsFit(st: StoreState) {
    forall id :: ApprovalsOf(st.approvals, id) == Log(id, |RevisionsOf(st, id)|)
  }

  lemma ExtensionKeepsApprovals(st: StoreState, st': StoreState, kind: string, r: Revision, n: nat)
    requires ApprovalsFit(st) && Approves(st, st', kind, r) && r.revisionId == RevisionId(n)
    requires st'.revisions == st.revisions[r.documentId := RevisionsOf(st, r.documentId) + [r]]
    requires n == |RevisionsOf(st, r.documentId)| + 1 && kind == if n == 1 then "ingest" else "revision"
    ensures ApprovalsFit(st')
  {
    forall id ensures ApprovalsOf(st'.approvals, id) == Log(id, |RevisionsOf(st', id)|) {
      OneMore(st.approvals, kind, r.documentId, n, id);
    }
  }

  lemma IngestApproves(env: Env, s: System, id: string, document: Document, extracted: seq<ProtectedSpan>,
      profileId: string, s': System)
    requires Inv(env, s) && IngestNext(env, s, id, document, extracted, profileId, s') && ApprovalsFit(s.store)
    ensures ApprovalsFit(s'.store)
  {
    var r := InitialRevision(env, id, document);
    IngestIsFirst(env, s, id, document, extracted, profileId, s');
    IngestRecords(env, id, document, profileId);
    IngestReadsBack(env.sha256, s.store, r, InitialContent(document, profileId),
                    KeptFrom(extracted, {}, 0, -1).value);
    ExtensionKeepsApprovals(s.store, s'.store, "ingest", r, 1);
  }

  lemma CommitApproves(env: Env, s: System, c: nat, proposal: Proposal, journal: Journal, s': System)
    requires Inv(env, s) && CommitNext(env, s, c, proposal, journal, s') && ApprovalsFit(s.store)
    ensures ApprovalsFit(s'.store)
  {
    CommitSeesCurrentState(env, s, c, proposal, journal, s');
    CommitStepEffect(env, s, c, proposal, journal, s');
    var loaded := s.clients[c].loaded;
    HeadToken(env, s, loaded.revision.documentId);
    FinalizationRecords(env, loaded, proposal, journal);
    CommitApproval(env, s.store, loaded, proposal, journal, s'.store);
    ExtensionKeepsApprovals(s.store, s'.store, "revision", Finalized(env, loaded, proposal, journal).value.revision,
                            loaded.revision.token + 1);
  }

  lemma CommitApproval(env: Env, st: StoreState, loaded: Loaded, proposal: Proposal, journal: Journal, st': StoreState)
    requires Finalized(env, loaded, proposal, journal).Ok?
    requires var f := Finalized(env, loaded, proposal, journal).value;
             CommitWrites(env.sha256, st, loaded.revision, f.revision, f.content, f.spans) == Ok(st')
    ensures Approves(st, st', "revision", Finalized(env, loaded, proposal, journal).value.revision)
  {
    var f := Finalized(env, loaded, proposal, journal).value;
    FinalizationRecords(env, loaded, proposal, journal);
    FinalizedBase(env, loaded, proposal, journal);
    CommitReadsBack(env.sha256, st, loaded.revision, f.revision, f.content, f.spans);
  }

  lemma FinalizedBase(env: Env, loaded: Loaded, proposal: Proposal, journal: Journal)
    requires Finalized(env, loaded, proposal, journal).Ok?
    ensures Finalized(env, loaded, proposal, journal).value.revision.baseToken == loaded.revision.token
  {
  }

  lemma {:induction false} RunKeepsApprovals(env: Env, states: seq<System>, steps: seq<Step>, n: nat)
    requires Run(env, states, steps) && n < |states|
    ensures ApprovalsFit(states[n].store)
  {
    if n == 0 {
      NoApprovalsFit(states[0].store);
    } else {
      RunKeepsApprovals(env, states, steps, n - 1);
      RunKeepsInv(env, states, steps, n - 1);
      StepKeepsApprovals(env, states[n - 1], steps[n - 1], states[n]);
    }
  }

  lemma NoApprovalsFit(st: StoreState)
    requires st.revisions == map[] && st.approvals == []
    ensures ApprovalsFit(st)
  {
  }

  lemma StepKeepsApprovals(env: Env, s: System, step: Step, s': System)
    requires Inv(env, s) && ApprovalsFit(s.store) && Next(env, s, step, s')
    ensures ApprovalsFit(s'.store)
  {
    match step
    case Ingest(id, document, extracted, profileId) =>
      IngestApproves(env, s, id, document, extracted, profileId, s');
    case Commit(c, proposal, journal) => CommitApproves(env, s, c, proposal, journal, s');
    case _ => ReadsOnly(env, s, step, s');
  }

  /** In every run a document's approvals are one ingest, of rev-1, and one for each later revision, in order. */
  lemma EachRevisionIsApproved(env: Env, states: seq<System>, steps: seq<Step>, n: nat, id: string)
    requires Run(env, states, steps) && n < |states|
    ensures ApprovalsOf(states[n].store.approvals, id) == Log(id, |RevisionsOf(states[n].store, id)|)
  {
    RunKeepsApprovals(env, states, steps, n);
  }

  lemma {:induction false} LogAt(id: string, n: nat, k: nat)
    requires k < n
    ensures |Log(id, n)| == n
    ensures Log(id, n)[k] == (if k == 0 then "ingest" else "revision", id + ":" + RevisionId(k + 1))
  {
    if k + 1 < n {
      LogAt(id, n - 1, k);
    } else if n > 1 {
      LogAt(id, n - 1, n - 2);
    }
  }

  // ----- Stored documents -----

  ghost predicate SameShape(a: seq<Node>, b: seq<Node>) {
    |a| == |b| && forall i :: 0 <= i < |a| ==> SameStructure(a[i], b[i])
  }

  /** The ingested document in all but its texts and spans; its canonical text is normalized if it was at first. */
  ghost predicate Descends(nfc: string -> string, origin: Document, document: Document) {
    && OnlyTextsDiffer(origin, document) && SameShape(origin.nodes, document.nodes)
    && (origin.canonicalText == nfc(origin.surfaceText) ==> document.canonicalText == nfc(document.surfaceText))
  }

  /** Every stored document descends from that of its origin, and only ingested documents have contents. */
  ghost predicate ContentsDescend(nfc: string -> string, st: StoreState, origins: map<string, Origin>) {
    && (forall key :: key in st.contents ==>
          key.0 in origins && Descends(nfc, origins[key.0].document, st.contents[key].document))
    && (forall id :: id in origins ==> id in st.revisions)
  }

  ghost predicate AllDescend(env: Env, s: System) { ContentsDescend(env.nfc, s.store, s.origins) }

  lemma OneMoreDescends(nfc: string -> string, st: StoreState, origins: map<string, Origin>, r: Revision,
      content: Content, spans: seq<ProtectedSpan>, st': StoreState, origins': map<string, Origin>)
    requires ContentsDescend(nfc, st, origins) && Extends(st, st', r, content, spans)
    requires forall id :: id in origins' <==> id in origins || id == r.documentId
    requires forall id :: id in origins ==> origins'[id] == origins[id]
    requires Descends(nfc, origins'[r.documentId].document, content.document)
    ensures ContentsDescend(nfc, st', origins')
  {
    forall key | key in st'.contents
      ensures key.0 in origins' && Descends(nfc, origins'[key.0].document, st'.contents[key].document)
    {
      if key != (r.documentId, r.revisionId) {
        assert key in st.contents;
      }
    }
  }

  lemma TransformDescends(sha256: string -> string, nfc: string -> string, origin: Document, document: Document,
      proposal: Proposal)
    requires Descends(nfc, origin, document) && Transformed(sha256, nfc, document, proposal).Ok?
    ensures Descends(nfc, origin, Transformed(sha256, nfc, document, proposal).value)
  {
    var document' := Transformed(sha256, nfc, document, proposal).value;
    TransformKeepsAgreement(sha256, nfc, document, proposal);
    forall i | 0 <= i < |origin.nodes| ensures SameStructure(origin.nodes[i], document'.nodes[i]) {
      assert SameStructure(origin.nodes[i], document.nodes[i]) && SameStructure(document.nodes[i], document'.nodes[i]);
    }
  }

  lemma IngestDescends(env: Env, s: System, id: string, document: Document, extracted: seq<ProtectedSpan>,
      profileId: string, s': System)
    requires Inv(env, s) && AllDescend(env, s) && IngestNext(env, s, id, document, extracted, profileId, s')
    ensures AllDescend(env, s')
  {
    IngestIsFirst(env, s, id, document, extracted, profileId, s');
    var spans := KeptFrom(extracted, {}, 0, -1).value;
    OneMoreDescends(env.nfc, s.store, s.origins, InitialRevision(env, id, document),
                    InitialContent(document, profileId), spans, s'.store, s'.origins);
  }

  lemma CommitDescends(env: Env, s: System, c: nat, proposal: Proposal, journal: Journal, s': System)
    requires Inv(env, s) && AllDescend(env, s) && CommitNext(env, s, c, proposal, journal, s')
    ensures AllDescend(env, s')
  {
    CommitSeesCurrentState(env, s, c, proposal, journal, s');
    CommitStepEffect(env, s, c, proposal, journal, s');
    var loaded := s.clients[c].loaded;
    var f, id := Finalized(env, loaded, proposal, journal).value, loaded.revision.documentId;
    var reviewed := Reviewed(env.runIds, proposal, journal).value;
    FinalizedDocument(env, loaded, proposal, journal, reviewed);
    LoadedDescends(env, s, loaded);
    TransformDescends(env.sha256, env.nfc, s.origins[id].document, loaded.content.document, reviewed);
    OneMoreDescends(env.nfc, s.store, s.origins, f.revision, f.content, f.spans, s'.store, s'.origins);
  }

  lemma LoadedDescends(env: Env, s: System, loaded: Loaded)
    requires AllDescend(env, s) && HoldsContent(s.store, loaded.revision, loaded.content)
    ensures loaded.revision.documentId in s.origins
    ensures Descends(env.nfc, s.origins[loaded.revision.documentId].document, loaded.content.document)
  {
  }

  lemma StepDescends(env: Env, s: System, step: Step, s': System)
    requires Inv(env, s) && AllDescend(env, s) && Next(env, s, step, s')
    ensures AllDescend(env, s')
  {
    match step
    case Ingest(id, document, extracted, profileId) =>
      IngestDescends(env, s, id, document, extracted, profileId, s');
    case Commit(c, proposal, journal) => CommitDescends(env, s, c, proposal, journal, s');
    case _ => ReadsOnly(env, s, step, s');
  }

  /**
   In every run each stored document is the ingested one in all but its texts and spans: the same tree of nodes with
   the same types, annotations and headings, the same lane, parser and findings; and its canonical text is the normal
   form of its surface if that was so at ingest.
   */
  lemma {:induction false} StoredDocumentsDescend(env: Env, states: seq<System>, steps: seq<Step>, n: nat)
    requires Run(env, states, steps) && n < |states|
    ensures AllDescend(env, states[n])
  {
    if n > 0 {
      StoredDocumentsDescend(env, states, steps, n - 1);
      RunKeepsInv(env, states, steps, n - 1);
      StepDescends(env, states[n - 1], steps[n - 1], states[n]);
    }
  }
}
