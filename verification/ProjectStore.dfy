/**
 The project store: revision rows, immutable revision contents and one set of protected-span rows per document.
 Every operation is a function of the stored value; the class runs them in place, and a transaction that fails
 leaves the store as it was.
 */
module ProjectStore {
  import opened Wrappers
  import opened Sequences
  import opened LexicalRules
  import opened Documents
  import opened ProtectedSpans
  import opened Revisions

  datatype SpanRow = SpanRow(spanId: string, kind: SpanKind, text: string, start: int, end: int)

  datatype Content = Content(acceptedText: string, document: Document, styleProfileId: string,
                             finalizationRunId: string)

  datatype StoreState = StoreState(
    revisions: map<string, seq<Revision>>, contents: map<(string, string), Content>, spans: map<string, seq<SpanRow>>,
    approvals: seq<(string, string)>)

  function RevisionsOf(st: StoreState, doc: string): seq<Revision> {
    if doc in st.revisions then st.revisions[doc] else []
  }

  function SpanRowsOf(st: StoreState, doc: string): seq<SpanRow> {
    if doc in st.spans then st.spans[doc] else []
  }

  // ----- Queries -----

  /** The highest-token accepted revision. */
  function LatestAccepted(rs: seq<Revision>): Option<Revision> {
    if |rs| == 0 then None
    else
      var last, rest := rs[|rs| - 1], LatestAccepted(rs[..|rs| - 1]);
      if last.status == Accepted && (rest.None? || last.token > rest.value.token) then Some(last) else rest
  }

  /** `r` is an accepted revision of the list with the greatest token of those, or there is none. */
  ghost predicate NewestAccepted(rs: seq<Revision>, r: Option<Revision>) {
    match r
    case None => forall x :: x in rs ==> x.status != Accepted
    case Some(newest) =>
      newest in rs && newest.status == Accepted
      && forall x :: x in rs && x.status == Accepted ==> x.token <= newest.token
  }

  lemma {:induction false} LatestAcceptedMeaning(rs: seq<Revision>)
    ensures NewestAccepted(rs, LatestAccepted(rs))
  {
    if |rs| > 0 {
      var last, rest := rs[|rs| - 1], rs[..|rs| - 1];
      LatestAcceptedMeaning(rest);
      assert last in rs && forall x :: x in rs <==> x == last || x in rest;
    }
  }

  /** The highest-token revision whatever its status (`SELECT MAX(token)` and the row that has it). */
  function Head(rs: seq<Revision>): Option<Revision> {
    if |rs| == 0 then None
    else
      var last, rest := rs[|rs| - 1], Head(rs[..|rs| - 1]);
      if rest.None? || last.token > rest.value.token then Some(last) else rest
  }

  function InsertRow(row: SpanRow, sorted: seq<SpanRow>): seq<SpanRow> {
    if |sorted| == 0 || LexLe(row.spanId, sorted[0].spanId) then [row] + sorted
      else [sorted[0]] + InsertRow(row, sorted[1..])
  }

  /** `ORDER BY span_id`: textual, so "s10" comes before "s2". */
  function OrderById(rows: seq<SpanRow>): seq<SpanRow> {
    if |rows| == 0 then [] else InsertRow(rows[0], OrderById(rows[1..]))
  }

  function SpanFromRow(row: SpanRow): ProtectedSpan {
    ProtectedSpan(row.spanId, row.kind, SourceLocation(row.start, row.end, 1, 1), row.text, "", Approved)
  }

  function SpansFromRows(rows: seq<SpanRow>): seq<ProtectedSpan> {
    if |rows| == 0 then [] else [SpanFromRow(rows[0])] + SpansFromRows(rows[1..])
  }

  ghost predicate AscendingIds(rows: seq<SpanRow>) {
    forall i, j :: 0 <= i < j < |rows| ==> LexLe(rows[i].spanId, rows[j].spanId)
  }

  lemma {:induction false} InsertRowMembers(row: SpanRow, sorted: seq<SpanRow>)
    ensures multiset(InsertRow(row, sorted)) == multiset(sorted) + multiset{row}
  {
    if |sorted| > 0 && !LexLe(row.spanId, sorted[0].spanId) {
      InsertRowMembers(row, sorted[1..]);
      HeadAndTail(sorted);
    }
  }

  lemma InsertRowElements(row: SpanRow, sorted: seq<SpanRow>)
    ensures forall x :: x in InsertRow(row, sorted) ==> x == row || x in sorted
  {
    InsertRowMembers(row, sorted);
    forall x | x in InsertRow(row, sorted) ensures x == row || x in sorted {
      assert x in multiset(InsertRow(row, sorted));
    }
  }

  lemma {:induction false} InsertRowAscends(row: SpanRow, sorted: seq<SpanRow>)
    requires AscendingIds(sorted)
    ensures AscendingIds(InsertRow(row, sorted))
  {
    if |sorted| == 0 || LexLe(row.spanId, sorted[0].spanId) {
      forall k | 0 <= k < |sorted| ensures LexLe(row.spanId, sorted[k].spanId) {
        if k > 0 {
          LexTransitive(row.spanId, sorted[0].spanId, sorted[k].spanId);
        }
      }
    } else {
      LexTotal(row.spanId, sorted[0].spanId);
      var rest := InsertRow(row, sorted[1..]);
      InsertRowAscends(row, sorted[1..]);
      InsertRowElements(row, sorted[1..]);
      forall k | 0 <= k < |rest| ensures LexLe(sorted[0].spanId, rest[k].spanId) {
        assert rest[k] in rest;
      }
    }
  }

  /** `ORDER BY` returns the rows, in ascending order of their ids. */
  lemma {:induction false} OrderByIdMeaning(rows: seq<SpanRow>)
    ensures multiset(OrderById(rows)) == multiset(rows) && AscendingIds(OrderById(rows))
  {
    if |rows| > 0 {
      OrderByIdMeaning(rows[1..]);
      InsertRowMembers(rows[0], OrderById(rows[1..]));
      InsertRowAscends(rows[0], OrderById(rows[1..]));
      HeadAndTail(rows);
    }
  }

  lemma OrderByIdMembers(rows: seq<SpanRow>)
    ensures |OrderById(rows)| == |rows| && forall row :: row in OrderById(rows) <==> row in rows
  {
    OrderByIdMeaning(rows);
    assert |multiset(OrderById(rows))| == |multiset(rows)|;
    forall row ensures row in OrderById(rows) <==> row in rows {
      assert row in multiset(OrderById(rows)) <==> row in multiset(rows);
    }
  }

  lemma {:induction false} SpansFromRowsPointwise(rows: seq<SpanRow>)
    ensures |SpansFromRows(rows)| == |rows|
    ensures forall i :: 0 <= i < |rows| ==> SpansFromRows(rows)[i] == SpanFromRow(rows[i])
  {
    if |rows| > 0 {
      SpansFromRowsPointwise(rows[1..]);
    }
  }

  /** The spans are those of the rows in some order, and that order is ascending in the ids. */
  ghost predicate ListsRows(spans: seq<ProtectedSpan>, rows: seq<SpanRow>) {
    exists sorted ::
      && multiset(sorted) == multiset(rows) && AscendingIds(sorted) && |spans| == |sorted|
      && forall i :: 0 <= i < |spans| ==> spans[i] == SpanFromRow(sorted[i])
  }

  lemma LoadedInOrder(rows: seq<SpanRow>)
    ensures ListsRows(SpansFromRows(OrderById(rows)), rows)
  {
    OrderByIdMeaning(rows);
    SpansFromRowsPointwise(OrderById(rows));
  }

  function LoadSpans(st: StoreState, doc: string): seq<ProtectedSpan> { SpansFromRows(OrderById(SpanRowsOf(st, doc))) }

  /** The content has the revision's recorded hash, and its document parses and has the content's text. */
  predicate Intact(sha256: string -> string, revision: Revision, content: Content) {
    && sha256(content.acceptedText) == revision.acceptedTextSha256 && Parseable(content.document)
    && content.document.surfaceText == content.acceptedText
  }

  /** The content of one revision, after its integrity checks. */
  function LoadContent(sha256: string -> string, st: StoreState, revision: Revision): Result<Content> {
    var key := (revision.documentId, revision.revisionId);
    if key !in st.contents then Err(MissingContent)
    else if sha256(st.contents[key].acceptedText) != revision.acceptedTextSha256 then Err(ContentHashMismatch)
    else if !Parseable(st.contents[key].document) then Err(InvalidDocument)
    else if st.contents[key].document.surfaceText != st.contents[key].acceptedText then Err(ContentSurfaceMismatch)
    else Ok(st.contents[key])
  }

  // ----- Writes -----

  function SaveRevision(st: StoreState, revision: Revision): Result<StoreState> {
    var rs := RevisionsOf(st, revision.documentId);
    var head := Head(rs);
    if head.None? && revision.baseToken != 0 then Err(RevisionConflict)
    else if head.None? && revision.parentRevisionId.Some? then Err(RevisionConflict)
    else if head.Some? && head.value.token != revision.baseToken then Err(RevisionConflict)
    else if head.Some? && Some(head.value.revisionId) != revision.parentRevisionId then Err(RevisionConflict)
    else if exists i :: 0 <= i < |rs| && (rs[i].revisionId == revision.revisionId || rs[i].token == revision.token)
      then Err(DuplicateRow)
    else Ok(st.(revisions := st.revisions[revision.documentId := rs + [revision]]))
  }

  /** Contents are written once: repeating the same row is accepted, a different one is refused. */
  function SaveContent(sha256: string -> string, st: StoreState, revision: Revision,
      content: Content): Result<StoreState>
  {
    var rs := RevisionsOf(st, revision.documentId);
    var key := (revision.documentId, revision.revisionId);
    if content.acceptedText == "" then Err(EmptyContent)
    else if sha256(content.acceptedText) != revision.acceptedTextSha256 then Err(ContentHashMismatch)
    else if !Parseable(content.document) then Err(InvalidDocument)
    else if content.document.surfaceText != content.acceptedText then Err(ContentSurfaceMismatch)
    else if revision.documentId == "" then Err(EmptyDocumentId)
    else if !exists i :: 0 <= i < |rs| && rs[i].revisionId == revision.revisionId
                         && rs[i].acceptedTextSha256 == revision.acceptedTextSha256 then Err(MissingRevision)
    else if key in st.contents && st.contents[key] != content then Err(ContentExists)
    else Ok(st.(contents := st.contents[key := content]))
  }

  function RowOf(span: ProtectedSpan): SpanRow {
    SpanRow(span.spanId, span.kind, span.text, span.location.start, span.location.end)
  }

  function RowsOf(spans: seq<ProtectedSpan>): seq<SpanRow> {
    if |spans| == 0 then [] else [RowOf(spans[0])] + RowsOf(spans[1..])
  }

  predicate DistinctIds(rows: seq<SpanRow>) {
    forall i, j :: 0 <= i < j < |rows| ==> rows[i].spanId != rows[j].spanId
  }

  lemma {:induction false} InsertRowDistinct(row: SpanRow, sorted: seq<SpanRow>)
    requires DistinctIds(sorted) && forall x :: x in sorted ==> x.spanId != row.spanId
    ensures DistinctIds(InsertRow(row, sorted))
  {
    if |sorted| > 0 && !LexLe(row.spanId, sorted[0].spanId) {
      var rest := InsertRow(row, sorted[1..]);
      InsertRowDistinct(row, sorted[1..]);
      InsertRowElements(row, sorted[1..]);
      forall k | 0 <= k < |rest| ensures rest[k].spanId != sorted[0].spanId {
        assert rest[k] in rest;
      }
    }
  }

  lemma {:induction false} OrderByIdDistinct(rows: seq<SpanRow>)
    requires DistinctIds(rows)
    ensures DistinctIds(OrderById(rows))
  {
    if |rows| > 0 {
      OrderByIdDistinct(rows[1..]);
      OrderByIdMembers(rows[1..]);
      InsertRowDistinct(rows[0], OrderById(rows[1..]));
    }
  }

  /** Replace all span rows of the document; a repeated span id violates the primary key. */
  function SaveSpans(st: StoreState, doc: string, spans: seq<ProtectedSpan>): Result<StoreState> {
    if !DistinctIds(RowsOf(spans)) then Err(DuplicateRow)
    else Ok(st.(spans := st.spans[doc := RowsOf(spans)]))
  }

  function RecordApproval(st: StoreState, kind: string, target: string): StoreState {
    st.(approvals := st.approvals + [(kind, target)])
  }

  // ----- Transactions -----

  /** The transaction of `ingest_source_package`. */
  function IngestWrites(sha256: string -> string, st: StoreState, revision: Revision, content: Content,
      spans: seq<ProtectedSpan>): Result<StoreState>
  {
    match SaveSpans(st, revision.documentId, spans)
    case Err(e) => Err(e)
    case Ok(st1) =>
      match SaveRevision(st1, revision)
      case Err(e) => Err(e)
      case Ok(st2) =>
        match SaveContent(sha256, st2, revision, content)
        case Err(e) => Err(e)
        case Ok(st3) => Ok(RecordApproval(st3, "ingest", revision.documentId + ":" + revision.revisionId))
  }

  /** The transaction of `finalize_reviewed_revision`: the base must still be the latest accepted revision. */
  function CommitWrites(sha256: string -> string, st: StoreState, base: Revision, revision: Revision, content: Content,
      spans: seq<ProtectedSpan>): Result<StoreState>
  {
    var current := LatestAccepted(RevisionsOf(st, base.documentId));
    if current.None? || current.value.revisionId != base.revisionId then Err(StaleRevision)
    else
      match SaveRevision(st, revision)
      case Err(e) => Err(e)
      case Ok(st1) =>
        match SaveContent(sha256, st1, revision, content)
        case Err(e) => Err(e)
        case Ok(st2) =>
          match SaveSpans(st2, base.documentId, spans)
          case Err(e) => Err(e)
          case Ok(st3) => Ok(RecordApproval(st3, "revision", base.documentId + ":" + revision.revisionId))
  }

  class Store {
    var revisions: map<string, seq<Revision>>
    var contents: map<(string, string), Content>
    var spans: map<string, seq<SpanRow>>
    var approvals: seq<(string, string)>

    ghost function State(): StoreState
      reads this
    {
      StoreState(revisions, contents, spans, approvals)
    }

    constructor ()
      ensures State() == StoreState(map[], map[], map[], [])
    {
      revisions, contents, spans, approvals := map[], map[], map[], [];
    }

    method LatestAcceptedRevision(doc: string) returns (r: Option<Revision>)
      ensures r == LatestAccepted(RevisionsOf(State(), doc)) && NewestAccepted(RevisionsOf(State(), doc), r)
    {
      LatestAcceptedMeaning(RevisionsOf(State(), doc));
      r := LatestAccepted(if doc in revisions then revisions[doc] else []);
    }

    method CurrentRevision(doc: string) returns (r: Option<Revision>)
      ensures r == Head(RevisionsOf(State(), doc))
    {
      r := Head(if doc in revisions then revisions[doc] else []);
    }

    method LoadRevisionContent(sha256: string -> string, revision: Revision) returns (r: Result<Content>)
      ensures r == LoadContent(sha256, State(), revision)
      ensures r.Ok? <==>
              && (revision.documentId, revision.revisionId) in contents
              && Intact(sha256, revision, contents[(revision.documentId, revision.revisionId)])
      ensures r.Ok? ==> r.value == contents[(revision.documentId, revision.revisionId)]
    {
      var key := (revision.documentId, revision.revisionId);
      if key !in contents {
        return Err(MissingContent);
      }
      var content := contents[key];
      if sha256(content.acceptedText) != revision.acceptedTextSha256 {
        return Err(ContentHashMismatch);
      }
      if !Parseable(content.document) {
        return Err(InvalidDocument);
      }
      if content.document.surfaceText != content.acceptedText {
        return Err(ContentSurfaceMismatch);
      }
      return Ok(content);
    }

    method LoadProtectedSpans(doc: string) returns (r: seq<ProtectedSpan>)
      ensures r == LoadSpans(State(), doc) && ListsRows(r, SpanRowsOf(State(), doc))
    {
      LoadedInOrder(SpanRowsOf(State(), doc));
      r := SpansFromRows(OrderById(if doc in spans then spans[doc] else []));
    }

    method SaveRevisionRow(revision: Revision) returns (error: Option<Error>)
      modifies this`revisions
      ensures match SaveRevision(old(State()), revision)
              case Err(e) => error == Some(e) && State() == old(State())
              case Ok(st) => error == None && State() == st
    {
      var rs := if revision.documentId in revisions then revisions[revision.documentId] else [];
      var head := Head(rs);
      if head.None? && (revision.baseToken != 0 || revision.parentRevisionId.Some?) {
        return Some(RevisionConflict);
      }
      if head.Some?
        && (head.value.token != revision.baseToken || Some(head.value.revisionId) != revision.parentRevisionId)
      {
        return Some(RevisionConflict);
      }
      if exists i :: 0 <= i < |rs| && (rs[i].revisionId == revision.revisionId || rs[i].token == revision.token) {
        return Some(DuplicateRow);
      }
      revisions := revisions[revision.documentId := rs + [revision]];
      return None;
    }

    method SaveRevisionContent(sha256: string -> string, revision: Revision, content: Content)
      returns (error: Option<Error>)
      modifies this`contents
      ensures match SaveContent(sha256, old(State()), revision, content)
              case Err(e) => error == Some(e) && State() == old(State())
              case Ok(st) => error == None && State() == st
    {
      var rs := if revision.documentId in revisions then revisions[revision.documentId] else [];
      var key := (revision.documentId, revision.revisionId);
      if content.acceptedText == "" {
        return Some(EmptyContent);
      }
      if sha256(content.acceptedText) != revision.acceptedTextSha256 {
        return Some(ContentHashMismatch);
      }
      if !Parseable(content.document) {
        return Some(InvalidDocument);
      }
      if content.document.surfaceText != content.acceptedText {
        return Some(ContentSurfaceMismatch);
      }
      if revision.documentId == "" {
        return Some(EmptyDocumentId);
      }
      if !exists i :: 0 <= i < |rs| && rs[i].revisionId == revision.revisionId
                      && rs[i].acceptedTextSha256 == revision.acceptedTextSha256 {
        return Some(MissingRevision);
      }
      if key in contents {
        if contents[key] != content {
          return Some(ContentExists);
        }
        assert contents[key := content] == contents;
        return None;
      }
      contents := contents[key := content];
      return None;
    }

    method SaveProtectedSpans(doc: string, newSpans: seq<ProtectedSpan>) returns (error: Option<Error>)
      modifies this`spans
      ensures match SaveSpans(old(State()), doc, newSpans)
              case Err(e) => error == Some(e) && State() == old(State())
              case Ok(st) => error == None && State() == st
    {
      var rows := RowsOf(newSpans);
      if !DistinctIds(rows) {
        return Some(DuplicateRow);
      }
      spans := spans[doc := rows];
      return None;
    }

    /** Undo the writes of a transaction that raised. */
    method Rollback(ghost before: StoreState, oldRevisions: map<string, seq<Revision>>,
        oldContents: map<(string, string), Content>, oldSpans: map<string, seq<SpanRow>>,
        oldApprovals: seq<(string, string)>)
      requires before == StoreState(oldRevisions, oldContents, oldSpans, oldApprovals)
      modifies this
      ensures State() == before
    {
      revisions, contents, spans, approvals := oldRevisions, oldContents, oldSpans, oldApprovals;
    }

    /** Ingest's transaction: all of the writes, or none. */
    method AtomicIngest(sha256: string -> string, revision: Revision, content: Content, newSpans: seq<ProtectedSpan>)
      returns (error: Option<Error>)
      modifies this
      ensures match IngestWrites(sha256, old(State()), revision, content, newSpans)
              case Err(e) => error == Some(e) && State() == old(State())
              case Ok(st) => error == None && State() == st
    {
      var oldRevisions, oldContents, oldSpans, oldApprovals := revisions, contents, spans, approvals;
      error := SaveProtectedSpans(revision.documentId, newSpans);
      if error.None? {
        error := SaveRevisionRow(revision);
      }
      if error.None? {
        error := SaveRevisionContent(sha256, revision, content);
      }
      if error.Some? {
        Rollback(old(State()), oldRevisions, oldContents, oldSpans, oldApprovals);
      } else {
        approvals := approvals + [("ingest", revision.documentId + ":" + revision.revisionId)];
      }
    }

    /** Finalization's transaction: the guard and all of the writes, or nothing. */
    method AtomicCommit(sha256: string -> string, base: Revision, revision: Revision, content: Content,
        newSpans: seq<ProtectedSpan>)
      returns (error: Option<Error>)
      modifies this
      ensures match CommitWrites(sha256, old(State()), base, revision, content, newSpans)
              case Err(e) => error == Some(e) && State() == old(State())
              case Ok(st) => error == None && State() == st
    {
      var oldRevisions, oldContents, oldSpans, oldApprovals := revisions, contents, spans, approvals;
      var current := LatestAcceptedRevision(base.documentId);
      if current.None? || current.value.revisionId != base.revisionId {
        return Some(StaleRevision);
      }
      error := SaveRevisionRow(revision);
      if error.None? {
        error := SaveRevisionContent(sha256, revision, content);
      }
      if error.None? {
        error := SaveProtectedSpans(base.documentId, newSpans);
      }
      if error.Some? {
        Rollback(old(State()), oldRevisions, oldContents, oldSpans, oldApprovals);
      } else {
        approvals := approvals + [("revision", base.documentId + ":" + revision.revisionId)];
      }
    }
  }
}
