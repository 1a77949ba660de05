/** Every run can go on: what may be ingested is, every document can be loaded, and what goes through is committed. */
module WorkflowProgress {
  import opened Wrappers
  import opened LexicalChanges
  import opened LexicalReview
  import opened LexicalProposals
  import opened Documents
  import opened ProtectedSpans
  import opened Revisions
  import opened ProjectStore
  import opened IntegratedWorkflow
  import opened ReviewedPipeline
  import opened WorkflowSafety
  import opened IngestedTexts
  import opened WorkflowOutcomes

  ghost function Latest(states: seq<System>): System
    requires |states| > 0
  {
    states[|states| - 1]
  }

  lemma Continue(env: Env, states: seq<System>, steps: seq<Step>, step: Step, s': System)
    returns (states': seq<System>, steps': seq<Step>)
    requires Run(env, states, steps) && Next(env, Latest(states), step, s')
    ensures Run(env, states', steps') && steps' == steps + [step]
    ensures states < states' && Latest(states') == s'
  {
    states', steps' := states + [s'], steps + [step];
    forall i | 0 <= i < |steps'| ensures Next(env, states'[i], steps'[i], states'[i + 1]) {
      if i < |steps| {
        assert states'[i] == states[i] && states'[i + 1] == states[i + 1] && steps'[i] == steps[i];
      }
    }
  }

  // ----- Ingesting -----

  lemma NewDocumentIsWritten(sha256: string -> string, st: StoreState, id: string, r: Revision, content: Content,
      spans: seq<ProtectedSpan>)
    requires id !in st.revisions && (id, "rev-1") !in st.contents && r.documentId == id && r.revisionId == "rev-1"
    requires r.baseToken == 0 && r.parentRevisionId == None && DistinctIds(RowsOf(spans))
    requires r.acceptedTextSha256 == sha256(content.acceptedText)
             && content.document.surfaceText == content.acceptedText
    ensures IngestWrites(sha256, st, r, content, spans).Ok? <==>
            id != "" && Parseable(content.document) && content.acceptedText != ""
  {
    var st1 := SaveSpans(st, id, spans).value;
    var st2 := SaveRevision(st1, r).value;
    assert SaveRevision(st1, r) == Ok(st2) && RevisionsOf(st2, id) == [r];
    assert RevisionsOf(st2, id)[0] == r;
  }

  lemma UnknownHasNoContent(env: Env, s: System, id: string)
    requires ContentsOwned(s.store) && id !in s.store.revisions
    ensures (id, "rev-1") !in s.store.contents
  {
    assert RevisionsOf(s.store, id) == [];
  }

  /** Exactly an ingestible document that is not known yet is ingested, in every state of every run. */
  lemma IngestStepIff(env: Env, states: seq<System>, steps: seq<Step>, id: string, document: Document,
      extracted: seq<ProtectedSpan>, profileId: string)
    requires Run(env, states, steps)
    ensures (exists s' :: Next(env, Latest(states), Ingest(id, document, extracted, profileId), s')) <==>
            Ingestible(id, document, extracted) && id !in Latest(states).store.revisions
  {
    var s, step := Latest(states), Ingest(id, document, extracted, profileId);
    RunKeepsInv(env, states, steps, |steps|);
    RunKeepsOwned(env, states, steps, |steps|);
    var kept := KeptFrom(extracted, {}, 0, -1);
    if id in s.store.revisions {
      KnownIsRefused(env, s, id, document, extracted, profileId);
    } else if kept.Ok? {
      var r, content := InitialRevision(env, id, document), InitialContent(document, profileId);
      SpanSetMeaning(extracted);
      RowsOfPointwise(kept.value);
      UnknownHasNoContent(env, s, id);
      NewDocumentIsWritten(env.sha256, s.store, id, r, content, kept.value);
      if Ingestible(id, document, extracted) {
        var st := IngestWrites(env.sha256, s.store, r, content, kept.value).value;
        assert Next(env, s, step, s.(store := st, origins := s.origins[id := Origin(document, RowsOf(kept.value))]));
      }
    }
  }

  lemma KnownIsRefused(env: Env, s: System, id: string, document: Document, extracted: seq<ProtectedSpan>,
      profileId: string)
    requires Inv(env, s) && id in s.store.revisions
    ensures forall s' :: !IngestNext(env, s, id, document, extracted, profileId, s')
  {
    assert DocumentInv(env, s, id);
    LatestOfChain(id, s.store.revisions[id]);
    forall s' ensures !IngestNext(env, s, id, document, extracted, profileId, s') {
      if IngestNext(env, s, id, document, extracted, profileId, s') {
        IngestEffect(env.sha256, s.store, InitialRevision(env, id, document), InitialContent(document, profileId),
                     KeptFrom(extracted, {}, 0, -1).value);
      }
    }
  }

  // ----- Loading -----

  /** The newest revision of a document with its content and spans. */
  ghost function NewestOf(st: StoreState, id: string): Loaded
    requires id in st.revisions && |st.revisions[id]| > 0 && (id, HeadOf(st, id).revisionId) in st.contents
  {
    Loaded(HeadOf(st, id), st.contents[(id, HeadOf(st, id).revisionId)], LoadSpans(st, id))
  }

  lemma HeadIsReadable(env: Env, s: System, id: string)
    requires Inv(env, s) && ContentsOwned(s.store) && id in s.store.revisions
    ensures |s.store.revisions[id]| > 0 && HeadOf(s.store, id).documentId == id
    ensures (id, HeadOf(s.store, id).revisionId) in s.store.contents && IsNewest(s.store, HeadOf(s.store, id))
    ensures LatestAccepted(RevisionsOf(s.store, id)) == Some(HeadOf(s.store, id))
    ensures LoadContent(env.sha256, s.store, HeadOf(s.store, id))
            == Ok(s.store.contents[(id, HeadOf(s.store, id).revisionId)])
  {
    assert DocumentInv(env, s, id);
    var rs := s.store.revisions[id];
    LatestOfChain(id, rs);
    assert ContentFits(env, s.store, rs[|rs| - 1]);
  }

  lemma RevisionIsRead(env: Env, states: seq<System>, steps: seq<Step>, s: System, id: string, c: nat, r: Revision)
    returns (states': seq<System>, steps': seq<Step>, s': System)
    requires Run(env, states, steps) && s == Latest(states) && LatestAccepted(RevisionsOf(s.store, id)) == Some(r)
    ensures Run(env, states', steps') && steps' == steps + [ReadRevision(c, id)] && states < states'
    ensures s' == Latest(states') && s'.store == s.store && ClientAt(s', c) == HasRevision(r)
  {
    s' := s.(clients := s.clients[c := HasRevision(r)]);
    states', steps' := Continue(env, states, steps, ReadRevision(c, id), s');
  }

  lemma ContentIsRead(env: Env, states: seq<System>, steps: seq<Step>, s: System, c: nat, r: Revision,
      content: Content)
    returns (states': seq<System>, steps': seq<Step>, s': System)
    requires Run(env, states, steps) && s == Latest(states)
    requires ClientAt(s, c) == HasRevision(r) && LoadContent(env.sha256, s.store, r) == Ok(content)
    ensures Run(env, states', steps') && steps' == steps + [ReadContent(c)] && states < states'
    ensures s' == Latest(states') && s'.store == s.store && ClientAt(s', c) == HasContent(r, content)
  {
    s' := s.(clients := s.clients[c := HasContent(r, content)]);
    states', steps' := Continue(env, states, steps, ReadContent(c), s');
  }

  lemma SpansAreRead(env: Env, states: seq<System>, steps: seq<Step>, s: System, c: nat, r: Revision,
      content: Content)
    returns (states': seq<System>, steps': seq<Step>, s': System)
    requires Run(env, states, steps) && s == Latest(states) && ClientAt(s, c) == HasContent(r, content)
    ensures Run(env, states', steps') && steps' == steps + [ReadSpans(c)] && states < states'
    ensures s' == Latest(states') && s'.store == s.store
    ensures ClientAt(s', c) == HasAll(Loaded(r, content, LoadSpans(s.store, r.documentId)))
  {
    s' := s.(clients := s.clients[c := HasAll(Loaded(r, content, LoadSpans(s.store, r.documentId)))]);
    states', steps' := Continue(env, states, steps, ReadSpans(c), s');
  }

  /** The client holds the newest revision of the document, and the store is as before. */
  ghost predicate HoldsNewest(st: StoreState, s: System, id: string, c: nat) {
    && id in st.revisions && |st.revisions[id]| > 0 && (id, HeadOf(st, id).revisionId) in st.contents
    && s.store == st && ClientAt(s, c) == HasAll(NewestOf(st, id)) && IsNewest(st, HeadOf(st, id))
  }

  lemma ThreeReads(env: Env, states: seq<System>, steps: seq<Step>, s: System, id: string, c: nat, r: Revision,
      content: Content)
    returns (states': seq<System>, steps': seq<Step>, s': System)
    requires Run(env, states, steps) && s == Latest(states) && r.documentId == id
    requires LatestAccepted(RevisionsOf(s.store, id)) == Some(r) && LoadContent(env.sha256, s.store, r) == Ok(content)
    ensures Run(env, states', steps') && states < states'
    ensures steps' == steps + [ReadRevision(c, id), ReadContent(c), ReadSpans(c)]
    ensures s' == Latest(states') && s'.store == s.store
    ensures ClientAt(s', c) == HasAll(Loaded(r, content, LoadSpans(s.store, id)))
  {
    states', steps', s' := RevisionIsRead(env, states, steps, s, id, c, r);
    states', steps', s' := ContentIsRead(env, states', steps', s', c, r, content);
    states', steps', s' := SpansAreRead(env, states', steps', s', c, r, content);
    ThreeMore(steps, ReadRevision(c, id), ReadContent(c), ReadSpans(c));
  }

  /**
   From every state of every run any client, whatever it held before, can load the newest revision of any document: no
   read is refused.
   */
  lemma LoadsNewest(env: Env, states: seq<System>, steps: seq<Step>, id: string, c: nat)
    returns (states': seq<System>, steps': seq<Step>)
    requires Run(env, states, steps) && id in Latest(states).store.revisions
    ensures Run(env, states', steps') && states < states'
    ensures steps' == steps + [ReadRevision(c, id), ReadContent(c), ReadSpans(c)]
    ensures HoldsNewest(Latest(states).store, Latest(states'), id, c)
  {
    var s := Latest(states);
    RunKeepsInv(env, states, steps, |steps|);
    RunKeepsOwned(env, states, steps, |steps|);
    HeadIsReadable(env, s, id);
    var head := HeadOf(s.store, id);
    var s';
    states', steps', s' := ThreeReads(env, states, steps, s, id, c, head, s.store.contents[(id, head.revisionId)]);
  }

  lemma ThreeMore(steps: seq<Step>, a: Step, b: Step, c: Step)
    ensures steps + [a] + [b] + [c] == steps + [a, b, c]
  {
  }

  // ----- Committing -----

  /** A client that holds a document takes the commit step exactly when what it computes goes through. */
  lemma CommitStepIff(env: Env, s: System, c: nat, proposal: Proposal, journal: Journal)
    requires ClientAt(s, c).HasAll?
    ensures (exists s' :: Next(env, s, Commit(c, proposal, journal), s')) <==>
            GoesThrough(env, s.store, ClientAt(s, c).loaded, proposal, journal)
  {
    if GoesThrough(env, s.store, ClientAt(s, c).loaded, proposal, journal) {
      var s' := CommittedState(env, s, c, ClientAt(s, c).loaded, proposal, journal);
      assert Next(env, s, Commit(c, proposal, journal), s');
    }
  }

  lemma CommittedState(env: Env, s: System, c: nat, loaded: Loaded, proposal: Proposal, journal: Journal)
    returns (s': System)
    requires ClientAt(s, c) == HasAll(loaded) && GoesThrough(env, s.store, loaded, proposal, journal)
    ensures CommitNext(env, s, c, proposal, journal, s')
  {
    var f := Finalized(env, loaded, proposal, journal).value;
    s' := s.(store := CommitWrites(env.sha256, s.store, loaded.revision, f.revision, f.content, f.spans).value);
  }

  lemma CommitIsTaken(env: Env, states: seq<System>, steps: seq<Step>, s: System, c: nat, loaded: Loaded,
      proposal: Proposal, journal: Journal)
    returns (states': seq<System>, steps': seq<Step>)
    requires Run(env, states, steps) && s == Latest(states) && ClientAt(s, c) == HasAll(loaded)
    requires GoesThrough(env, s.store, loaded, proposal, journal)
    ensures Run(env, states', steps') && states < states' && steps' == steps + [Commit(c, proposal, journal)]
    ensures CommitNext(env, s, c, proposal, journal, Latest(states'))
  {
    var s' := CommittedState(env, s, c, loaded, proposal, journal);
    states', steps' := Continue(env, states, steps, Commit(c, proposal, journal), s');
  }

  /**
   Whatever goes through on the newest revision becomes the next revision: every run continues by three reads and the
   commit, after which the document has one revision more, with the computed content and spans.
   */
  lemma ReviewBecomesRevision(env: Env, states: seq<System>, steps: seq<Step>, id: string, c: nat, loaded: Loaded,
      proposal: Proposal, journal: Journal)
    returns (states': seq<System>, steps': seq<Step>)
    requires Run(env, states, steps) && id in Latest(states).store.revisions
    requires |Latest(states).store.revisions[id]| > 0
    requires (id, HeadOf(Latest(states).store, id).revisionId) in Latest(states).store.contents
    requires loaded == NewestOf(Latest(states).store, id)
    requires GoesThrough(env, Latest(states).store, loaded, proposal, journal)
    ensures Run(env, states', steps') && states < states'
    ensures steps' == steps + [ReadRevision(c, id), ReadContent(c), ReadSpans(c)] + [Commit(c, proposal, journal)]
    ensures var f := Finalized(env, loaded, proposal, journal).value;
            Extends(Latest(states).store, Latest(states').store, f.revision, f.content, f.spans)
  {
    var st := Latest(states).store;
    states', steps' := LoadsNewest(env, states, steps, id, c);
    var s := Latest(states');
    assert s.store == st && ClientAt(s, c) == HasAll(loaded);
    states', steps' := CommitIsTaken(env, states', steps', s, c, loaded, proposal, journal);
    CommitStepEffect(env, s, c, proposal, journal, Latest(states'));
  }
}
