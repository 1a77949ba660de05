/** Ingest and finalization over the project store. */
module IntegratedWorkflow {
  import opened Wrappers
  import opened LexicalChanges
  import opened LexicalReview
  import opened Documents
  import opened ProtectedSpans
  import opened RevisionTransform
  import opened RevisionAgreement
  import opened SpanRebase
  import opened StructureSignature
  import opened Revisions
  import opened ProjectStore

  /** What the workflow calls and this model leaves open: digests, normalization, the fact check and the style check. */
  datatype Env = Env(
    sha256: string -> string, nfc: string -> string, runIds: RunIds,
    factsPreserved: (string, string) -> bool, styleAccepts: Document -> bool, profileId: string)

  /** What `load_document_state` reads, in three separate queries. */
  datatype Loaded = Loaded(revision: Revision, content: Content, spans: seq<ProtectedSpan>)

  datatype Finalization = Finalization(revision: Revision, content: Content, spans: seq<ProtectedSpan>)

  /** Everything finalization computes before its transaction. */
  ghost function Finalized(env: Env, loaded: Loaded, proposal: Proposal, journal: Journal): Result<Finalization> {
    match Reviewed(env.runIds, proposal, journal)
    case Err(e) => Err(e)
    case Ok(reviewed) =>
      match Transformed(env.sha256, env.nfc, loaded.content.document, reviewed)
      case Err(e) => Err(e)
      case Ok(document) =>
        match RebasedSpans(loaded.spans, KeepIds(proposal.changes, set c | c in reviewed.changes :: c.changeId),
                           document.surfaceText)
        case Err(e) => Err(e)
        case Ok(spans) =>
          var signature := SignatureOf(env.sha256, document.nodes);
          if !env.factsPreserved(loaded.content.acceptedText, document.surfaceText) then Err(FactDrift)
          else if RevalidateStructure(signature, loaded.revision.structureSignature).Some? then Err(StructureDrift)
          else if !env.styleAccepts(document) then Err(StyleProfileRejected)
          else
            var proposed := ProposeNextRevision(loaded.revision, signature, env.sha256(document.surfaceText),
                                                "lexical finalization " + proposal.runId);
            match AcceptRevision(proposed, loaded.revision)
            case Err(e) => Err(e)
            case Ok(accepted) =>
              Ok(Finalization(accepted, Content(document.surfaceText, document, env.profileId, proposal.runId), spans))
  }

  method FinalizeReviewedRevision(env: Env, store: Store, loaded: Loaded, proposal: Proposal, journal: Journal)
    returns (r: Result<Revision>)
    modifies store
    ensures match Finalized(env, loaded, proposal, journal)
            case Err(e) => r == Err(e) && store.State() == old(store.State())
            case Ok(f) =>
              match CommitWrites(env.sha256, old(store.State()), loaded.revision, f.revision, f.content, f.spans)
              case Err(e) => r == Err(e) && store.State() == old(store.State())
              case Ok(st) => r == Ok(f.revision) && store.State() == st
  {
    var computed := ComputeFinalization(env, loaded, proposal, journal);
    if computed.Err? {
      return Err(computed.error);
    }
    var f := computed.value;
    var error := store.AtomicCommit(env.sha256, loaded.revision, f.revision, f.content, f.spans);
    if error.Some? {
      return Err(error.value);
    }
    return Ok(f.revision);
  }

  method ComputeFinalization(env: Env, loaded: Loaded, proposal: Proposal, journal: Journal)
    returns (r: Result<Finalization>)
    ensures r == Finalized(env, loaded, proposal, journal)
  {
    var review := ApplyReview(env.runIds, proposal, journal);
    if review.Err? {
      return Err(review.error);
    }
    var reviewed := review.value;
    var transformed := ApplyReviewedProposal(env.sha256, env.nfc, loaded.content.document, reviewed);
    if transformed.Err? {
      return Err(transformed.error);
    }
    var document := transformed.value;
    var rebased := RebaseProtectedSpans(loaded.spans, proposal, set c | c in reviewed.changes :: c.changeId,
                                        document.surfaceText);
    if rebased.Err? {
      return Err(rebased.error);
    }
    if !env.factsPreserved(loaded.content.acceptedText, document.surfaceText) {
      return Err(FactDrift);
    }
    var signature := ComputeStructureSignature(env.sha256, document);
    if RevalidateStructure(signature, loaded.revision.structureSignature).Some? {
      return Err(StructureDrift);
    }
    if !env.styleAccepts(document) {
      return Err(StyleProfileRejected);
    }
    var proposed := ProposeNextRevision(loaded.revision, signature, env.sha256(document.surfaceText),
                                        "lexical finalization " + proposal.runId);
    var accepted := AcceptRevision(proposed, loaded.revision);
    if accepted.Err? {
      return Err(accepted.error);
    }
    return Ok(Finalization(accepted.value, Content(document.surfaceText, document, env.profileId, proposal.runId),
                           rebased.value));
  }

  /** The initial revision of a package and the content stored with it. */
  ghost function InitialRevision(env: Env, packageId: string, document: Document): Revision {
    CreateInitialRevision(packageId, SignatureOf(env.sha256, document.nodes), env.sha256(document.surfaceText))
  }

  function InitialContent(document: Document, profileId: string): Content {
    Content(document.surfaceText, document, profileId, "")
  }

  method IngestSourcePackage(env: Env, store: Store, packageId: string, document: Document, spans: seq<ProtectedSpan>,
      profileId: string)
    returns (error: Option<Error>)
    modifies store
    ensures if document.lane != "source" then error == Some(NotSourceLane) && store.State() == old(store.State())
            else if Head(RevisionsOf(old(store.State()), packageId)).Some?
            then error == Some(AlreadyIngested) && store.State() == old(store.State())
            else match IngestWrites(env.sha256, old(store.State()), InitialRevision(env, packageId, document),
                                    InitialContent(document, profileId), spans)
                 case Err(e) => error == Some(e) && store.State() == old(store.State())
                 case Ok(st) => error == None && store.State() == st
  {
    if document.lane != "source" {
      return Some(NotSourceLane);
    }
    var current := store.CurrentRevision(packageId);
    if current.Some? {
      return Some(AlreadyIngested);
    }
    var signature := ComputeStructureSignature(env.sha256, document);
    var revision := CreateInitialRevision(packageId, signature, env.sha256(document.surfaceText));
    error := store.AtomicIngest(env.sha256, revision, InitialContent(document, profileId), spans);
  }

  // ----- What a finalization keeps -----

  lemma ClearSpanStaysValid(text: string, cs: seq<Change>, span: ProtectedSpan)
    requires Applicable(text, cs) && ValidOffsets(span) && Clear(span, cs)
    ensures ValidOffsets(Moved(span, cs))
  {
    ClearSpanEnds(span, cs);
    ShiftMonotone(text, cs, span.location.start, span.location.end);
  }

  /** The same span at a new place. */
  ghost predicate SameSpan(a: ProtectedSpan, b: ProtectedSpan) { a.(location := b.location) == b }

  /** What ended at or before the start of another span still does. */
  ghost predicate KeepOrder(spans: seq<ProtectedSpan>, moved: seq<ProtectedSpan>)
    requires |moved| == |spans|
  {
    forall i, j :: 0 <= i < |spans| && 0 <= j < |spans| && spans[i].location.end <= spans[j].location.start
                   ==> moved[i].location.end <= moved[j].location.start
  }

  /** The next revision of the same structure, with every span carried over exactly. */
  ghost predicate KeepsBase(env: Env, loaded: Loaded, f: Finalization) {
    && f.content.document.surfaceText == f.content.acceptedText
    && f.revision
       == ProposeNextRevision(loaded.revision, loaded.revision.structureSignature, env.sha256(f.content.acceptedText),
                                         f.revision.createdNote).(status := Accepted)
    && SignatureOf(env.sha256, f.content.document.nodes) == loaded.revision.structureSignature
    && SpansRead(loaded.spans, loaded.content.acceptedText)
    && |f.spans| == |loaded.spans| && SpansRead(f.spans, f.content.acceptedText)
    && (forall i :: 0 <= i < |f.spans| ==> SameSpan(loaded.spans[i], f.spans[i]) && ValidOffsets(f.spans[i]))
    && KeepOrder(loaded.spans, f.spans)
  }

  /**
   A finalization of consistent loaded state extends the base revision, has the base's structure signature, and carries
   every span over: exact before, exact after, and otherwise the same.  With an inexact span there is no finalization.
   */
  lemma FinalizationKeeps(env: Env, loaded: Loaded, proposal: Proposal, journal: Journal)
    requires Finalized(env, loaded, proposal, journal).Ok?
    requires loaded.content.document.surfaceText == loaded.content.acceptedText
    requires loaded.revision.structureSignature == SignatureOf(env.sha256, loaded.content.document.nodes)
    requires forall s :: s in loaded.spans ==> ValidOffsets(s)
    ensures KeepsBase(env, loaded, Finalized(env, loaded, proposal, journal).value)
  {
    var reviewed := Reviewed(env.runIds, proposal, journal).value;
    var document := loaded.content.document;
    TransformKeepsAgreement(env.sha256, env.nfc, document, reviewed);
    TransformKeepsSignature(env.sha256, env.nfc, document, reviewed);
    KeepKeptIds(proposal.changes, AcceptedIds(journal));
    RebaseCarries(loaded.spans, document.surfaceText, reviewed.changes);
  }

  lemma RebaseCarries(spans: seq<ProtectedSpan>, text: string, accepted: seq<Change>)
    requires Applicable(text, Sort(accepted)) && forall s :: s in spans ==> ValidOffsets(s)
    requires RebasedSpans(spans, accepted, NewText(text, Sort(accepted))).Ok?
    ensures var moved := RebasedSpans(spans, accepted, NewText(text, Sort(accepted))).value;
            && SpansRead(spans, text) && |moved| == |spans| && SpansRead(moved, NewText(text, Sort(accepted)))
            && (forall i :: 0 <= i < |spans| ==> SameSpan(spans[i], moved[i]) && ValidOffsets(moved[i]))
            && KeepOrder(spans, moved)
  {
    RebaseSucceedsIff(spans, text, accepted);
    forall i | 0 <= i < |spans| ensures ValidOffsets(Moved(spans[i], Sort(accepted))) {
      assert spans[i] in spans;
      ClearShift(spans[i], accepted);
      ClearSpanStaysValid(text, Sort(accepted), spans[i]);
    }
    forall i, j | 0 <= i < |spans| && 0 <= j < |spans| && spans[i].location.end <= spans[j].location.start
      ensures Moved(spans[i], Sort(accepted)).location.end <= Moved(spans[j], Sort(accepted)).location.start {
      RebaseKeepsOrder(spans, text, accepted, i, j);
    }
  }
}
