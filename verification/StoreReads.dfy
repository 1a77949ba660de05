/** What was written to the project store is what the next reader finds. */
module StoreReads {
  import opened Wrappers
  import opened ProtectedSpans
  import opened Revisions
  import opened ProjectStore

  lemma {:induction false} AcceptedBelowHead(rs: seq<Revision>)
    ensures LatestAccepted(rs).Some? ==> Head(rs).Some? && LatestAccepted(rs).value.token <= Head(rs).value.token
  {
    if |rs| > 0 {
      AcceptedBelowHead(rs[..|rs| - 1]);
    }
  }

  lemma NewestIsLatest(rs: seq<Revision>, r: Revision)
    requires r.status == Accepted && (Head(rs).Some? ==> Head(rs).value.token < r.token)
    ensures LatestAccepted(rs + [r]) == Some(r) && Head(rs + [r]) == Some(r)
  {
    AcceptedBelowHead(rs);
    assert (rs + [r])[..|rs|] == rs;
  }

  /** The store as a reader of the document sees it: this revision, content and set of rows. */
  ghost predicate Shows(sha256: string -> string, st: StoreState, r: Revision, content: Content,
      spans: seq<ProtectedSpan>)
  {
    && LatestAccepted(RevisionsOf(st, r.documentId)) == Some(r)
    && LoadContent(sha256, st, r) == Ok(content)
    && SpanRowsOf(st, r.documentId) == RowsOf(spans)
  }

  /** One approval more, of this kind, for this revision of the document. */
  ghost predicate Approves(st: StoreState, st': StoreState, kind: string, r: Revision) {
    st'.approvals == st.approvals + [(kind, r.documentId + ":" + r.revisionId)]
  }

  /** Revisions, contents and rows of other documents, and contents of other revisions, are as before. */
  ghost predicate OthersKept(st: StoreState, st': StoreState, r: Revision) {
    && (forall id :: id != r.documentId
                     ==> RevisionsOf(st', id) == RevisionsOf(st, id) && SpanRowsOf(st', id) == SpanRowsOf(st, id))
    && RevisionsOf(st', r.documentId) == RevisionsOf(st, r.documentId) + [r]
    && (forall key :: key in st.contents && key != (r.documentId, r.revisionId)
                      ==> key in st'.contents && st'.contents[key] == st.contents[key])
    && (forall key :: key in st'.contents ==> key in st.contents || key == (r.documentId, r.revisionId))
  }

  /** The revision, its content and the spans were written, and nothing else but an approval. */
  ghost predicate Wrote(sha256: string -> string, st: StoreState, st': StoreState, r: Revision, content: Content,
      spans: seq<ProtectedSpan>)
  {
    && st'.revisions == st.revisions[r.documentId := RevisionsOf(st, r.documentId) + [r]]
    && st'.contents == st.contents[(r.documentId, r.revisionId) := content]
    && st'.spans == st.spans[r.documentId := RowsOf(spans)]
    && Intact(sha256, r, content)
  }

  /** The revision's token is beyond those of the document. */
  ghost predicate Succeeds(st: StoreState, r: Revision) {
    var head := Head(RevisionsOf(st, r.documentId));
    r.status == Accepted && (head.Some? ==> head.value.token < r.token)
  }

  lemma WrittenIsShown(sha256: string -> string, st: StoreState, st': StoreState, r: Revision, content: Content,
      spans: seq<ProtectedSpan>)
    requires Wrote(sha256, st, st', r, content, spans) && Succeeds(st, r)
    ensures Shows(sha256, st', r, content, spans)
  {
    NewestIsLatest(RevisionsOf(st, r.documentId), r);
  }

  lemma WrittenKeepsOthers(sha256: string -> string, st: StoreState, st': StoreState, r: Revision, content: Content,
      spans: seq<ProtectedSpan>)
    requires Wrote(sha256, st, st', r, content, spans)
    ensures OthersKept(st, st', r)
  {
  }

  lemma RowFollows(st: StoreState, r: Revision)
    requires SaveRevision(st, r).Ok? && r.status == Accepted && r.token == r.baseToken + 1
    ensures SaveRevision(st, r).value
            == st.(revisions := st.revisions[r.documentId := RevisionsOf(st, r.documentId) + [r]])
    ensures Succeeds(st, r)
  {
  }

  lemma ContentFollows(sha256: string -> string, st: StoreState, r: Revision, content: Content)
    requires SaveContent(sha256, st, r, content).Ok?
    ensures SaveContent(sha256, st, r, content).value
            == st.(contents := st.contents[(r.documentId, r.revisionId) := content])
    ensures Intact(sha256, r, content)
  {
  }

  /**
   After a commit the next load finds exactly what was committed, the approval of the new revision is recorded last, and
   everything else is as before.
   */
  lemma CommitReadsBack(sha256: string -> string, st: StoreState, base: Revision, r: Revision, content: Content,
      spans: seq<ProtectedSpan>)
    requires CommitWrites(sha256, st, base, r, content, spans).Ok?
    requires r.documentId == base.documentId && r.status == Accepted && r.token == r.baseToken + 1
    ensures var st' := CommitWrites(sha256, st, base, r, content, spans).value;
            Shows(sha256, st', r, content, spans) && OthersKept(st, st', r) && Approves(st, st', "revision", r)
  {
    var st' := CommitWrites(sha256, st, base, r, content, spans).value;
    RowFollows(st, r);
    ContentFollows(sha256, SaveRevision(st, r).value, r, content);
    WrittenIsShown(sha256, st, st', r, content, spans);
    WrittenKeepsOthers(sha256, st, st', r, content, spans);
  }

  /** After an ingest the first load finds exactly what was ingested, and one approval was added. */
  lemma IngestReadsBack(sha256: string -> string, st: StoreState, r: Revision, content: Content,
      spans: seq<ProtectedSpan>)
    requires IngestWrites(sha256, st, r, content, spans).Ok? && r.status == Accepted && r.token == r.baseToken + 1
    ensures var st' := IngestWrites(sha256, st, r, content, spans).value;
            Shows(sha256, st', r, content, spans) && OthersKept(st, st', r) && Approves(st, st', "ingest", r)
  {
    var st' := IngestWrites(sha256, st, r, content, spans).value;
    var st1 := SaveSpans(st, r.documentId, spans).value;
    RowFollows(st1, r);
    ContentFollows(sha256, SaveRevision(st1, r).value, r, content);
    WrittenIsShown(sha256, st, st', r, content, spans);
    WrittenKeepsOthers(sha256, st, st', r, content, spans);
  }
}
