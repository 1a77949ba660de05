/** What the project store accepts and refuses, row by row. */
module StoreRules {
  import opened Wrappers
  import opened Documents
  import opened ProtectedSpans
  import opened Revisions
  import opened ProjectStore

  // ----- Revision rows -----

  /** The revision of the greatest token; none exactly without revisions. */
  ghost predicate IsHead(rs: seq<Revision>, head: Option<Revision>) {
    if rs == [] then head == None
    else head.Some? && head.value in rs && forall r :: r in rs ==> r.token <= head.value.token
  }

  lemma {:induction false} HeadMeaning(rs: seq<Revision>)
    ensures IsHead(rs, Head(rs))
  {
    if |rs| > 0 {
      var last, rest := rs[|rs| - 1], rs[..|rs| - 1];
      HeadMeaning(rest);
      assert last in rs && forall r :: r in rs <==> r == last || r in rest;
    }
  }

  /** The revision starts a document without revisions, or follows the head of the others. */
  predicate Follows(revision: Revision, head: Option<Revision>) {
    match head
    case None => revision.baseToken == 0 && revision.parentRevisionId == None
    case Some(r) => revision.baseToken == r.token && revision.parentRevisionId == Some(r.revisionId)
  }

  ghost predicate Stored(rs: seq<Revision>, revision: Revision) {
    exists r :: r in rs && (r.revisionId == revision.revisionId || r.token == revision.token)
  }

  /** A row is saved exactly when it follows the head and its id and its token are new; nothing else is written. */
  lemma RowIsSavedIff(st: StoreState, revision: Revision)
    ensures var rs, r := RevisionsOf(st, revision.documentId), SaveRevision(st, revision);
            && IsHead(rs, Head(rs))
            && (!Follows(revision, Head(rs)) <==> r == Err(RevisionConflict))
            && (Follows(revision, Head(rs)) && Stored(rs, revision) <==> r == Err(DuplicateRow))
            && (Follows(revision, Head(rs)) && !Stored(rs, revision)
                <==> r == Ok(st.(revisions := st.revisions[revision.documentId := rs + [revision]])))
  {
    var rs := RevisionsOf(st, revision.documentId);
    HeadMeaning(rs);
    if Stored(rs, revision) {
      var r :| r in rs && (r.revisionId == revision.revisionId || r.token == revision.token);
      var i :| 0 <= i < |rs| && rs[i] == r;
    }
  }

  /** Accepting against a revision: exactly its child is accepted, and only its status changes. */
  lemma AcceptedIffChild(proposed: Revision, current: Revision)
    ensures var r := AcceptRevision(proposed, current);
            if proposed.baseToken == current.token && proposed.parentRevisionId == Some(current.revisionId)
            then r.Ok? && r.value.status == Accepted && r.value.(status := proposed.status) == proposed
            else r == Err(RevisionConflict)
  {
  }

  // ----- Contents -----

  /** A node stands in the list under the id that another names as its parent. */
  ghost predicate HasParent(nodes: seq<Node>, node: Node) {
    exists p :: p in nodes && node.parentId == Some(p.nodeId)
  }

  /** A stored document is read exactly if it is of version 1 and its nodes form a list under one root. */
  lemma ParsedIff(document: Document)
    ensures var nodes := document.nodes;
            Parseable(document) <==>
            && document.schemaVersion == 1 && |nodes| > 0 && nodes[0].nodeType == DocumentRoot
            && (forall k :: 0 <= k < |nodes|
                            ==> if k == 0 then nodes[k].parentId == None else HasParent(nodes, nodes[k]))
            && (forall i, j :: 0 <= i < j < |nodes| ==> nodes[i].nodeId != nodes[j].nodeId)
  {
    forall k | 0 <= k < |document.nodes|
      ensures HasParent(document.nodes, document.nodes[k])
              <==> document.nodes[k].parentId.Some? && HasNode(document.nodes, document.nodes[k].parentId.value)
    {
      ParentIsListed(document.nodes, document.nodes[k]);
    }
  }

  lemma ParentIsListed(nodes: seq<Node>, node: Node)
    ensures HasParent(nodes, node) <==> node.parentId.Some? && HasNode(nodes, node.parentId.value)
  {
    if HasParent(nodes, node) {
      var p :| p in nodes && node.parentId == Some(p.nodeId);
      var j :| 0 <= j < |nodes| && nodes[j] == p;
      assert nodes[j].nodeId == node.parentId.value;
    }
  }

  /** The text and the document belong to the revision. */
  ghost predicate Belongs(sha256: string -> string, revision: Revision, content: Content) {
    && content.acceptedText != "" && sha256(content.acceptedText) == revision.acceptedTextSha256
    && Parseable(content.document) && content.document.surfaceText == content.acceptedText
    && revision.documentId != ""
  }

  ghost predicate HasRow(rs: seq<Revision>, revision: Revision) {
    exists r :: r in rs && r.revisionId == revision.revisionId && r.acceptedTextSha256 == revision.acceptedTextSha256
  }

  lemma HasRowAt(rs: seq<Revision>, revision: Revision)
    ensures HasRow(rs, revision) <==>
            exists i :: 0 <= i < |rs| && rs[i].revisionId == revision.revisionId
                        && rs[i].acceptedTextSha256 == revision.acceptedTextSha256
  {
    if HasRow(rs, revision) {
      var r :| r in rs && r.revisionId == revision.revisionId && r.acceptedTextSha256 == revision.acceptedTextSha256;
      var i :| 0 <= i < |rs| && rs[i] == r;
    }
  }

  /** A content that belongs to its revision still needs the revision's row, and never replaces another content. */
  lemma ContentRow(sha256: string -> string, st: StoreState, revision: Revision, content: Content)
    requires Belongs(sha256, revision, content)
    ensures var key, r := (revision.documentId, revision.revisionId), SaveContent(sha256, st, revision, content);
            if !HasRow(RevisionsOf(st, revision.documentId), revision) then r == Err(MissingRevision)
            else if key in st.contents && st.contents[key] != content then r == Err(ContentExists)
            else r == Ok(st.(contents := st.contents[key := content]))
  {
    HasRowAt(RevisionsOf(st, revision.documentId), revision);
  }

  /**
   A content is stored exactly when it belongs to its revision, the revision has a row, and no other content is stored
   for it; it is never overwritten.
   */
  lemma ContentIsSavedIff(sha256: string -> string, st: StoreState, revision: Revision, content: Content)
    ensures SaveContent(sha256, st, revision, content).Ok? <==>
            && Belongs(sha256, revision, content) && HasRow(RevisionsOf(st, revision.documentId), revision)
            && ((revision.documentId, revision.revisionId) in st.contents
                ==> st.contents[(revision.documentId, revision.revisionId)] == content)
  {
    if Belongs(sha256, revision, content) {
      ContentRow(sha256, st, revision, content);
    } else {
      ContentRefusal(sha256, st, revision, content);
    }
  }

  /** Of what is wrong with a content itself the error names the first: text, hash, document, surface, document id. */
  lemma ContentRefusal(sha256: string -> string, st: StoreState, revision: Revision, content: Content)
    requires !Belongs(sha256, revision, content)
    ensures var r := SaveContent(sha256, st, revision, content);
            && (r == Err(EmptyContent) <==> content.acceptedText == "")
            && (r == Err(ContentHashMismatch) <==>
                content.acceptedText != "" && sha256(content.acceptedText) != revision.acceptedTextSha256)
            && (content.acceptedText != "" && sha256(content.acceptedText) == revision.acceptedTextSha256 ==>
                if !Parseable(content.document) then r == Err(InvalidDocument)
                else if content.document.surfaceText != content.acceptedText then r == Err(ContentSurfaceMismatch)
                else r == Err(EmptyDocumentId))
  {
  }

  /** A reader gets the content that was stored for the revision, unless it is missing or was tampered with. */
  lemma LoadRefusal(sha256: string -> string, st: StoreState, revision: Revision)
    ensures var key, r := (revision.documentId, revision.revisionId), LoadContent(sha256, st, revision);
            if key !in st.contents then r == Err(MissingContent)
            else
              var content := st.contents[key];
              if Intact(sha256, revision, content) then r == Ok(content)
              else if sha256(content.acceptedText) != revision.acceptedTextSha256 then r == Err(ContentHashMismatch)
              else r == Err(if Parseable(content.document) then ContentSurfaceMismatch else InvalidDocument)
  {
  }

  // ----- Span rows -----

  lemma {:induction false} RowsAt(spans: seq<ProtectedSpan>)
    ensures |RowsOf(spans)| == |spans| && forall i :: 0 <= i < |spans| ==> RowsOf(spans)[i] == RowOf(spans[i])
  {
    if |spans| > 0 {
      RowsAt(spans[1..]);
      assert forall i :: 1 <= i < |spans| ==> spans[i] == spans[1..][i - 1];
    }
  }

  lemma RowIdsDifferIff(spans: seq<ProtectedSpan>)
    ensures DistinctIds(RowsOf(spans)) <==>
            forall i, j :: 0 <= i < j < |spans| ==> spans[i].spanId != spans[j].spanId
  {
    RowsAt(spans);
    if DistinctIds(RowsOf(spans)) {
      forall i, j | 0 <= i < j < |spans| ensures spans[i].spanId != spans[j].spanId {
        assert RowsOf(spans)[i].spanId != RowsOf(spans)[j].spanId;
      }
    } else {
      var i, j :| 0 <= i < j < |spans| && RowsOf(spans)[i].spanId == RowsOf(spans)[j].spanId;
      assert spans[i].spanId == spans[j].spanId;
    }
  }

  /** Spans replace those of the document exactly when their ids are distinct. */
  lemma SpansAreSavedIff(st: StoreState, doc: string, spans: seq<ProtectedSpan>)
    ensures var r := SaveSpans(st, doc, spans);
            if forall i, j :: 0 <= i < j < |spans| ==> spans[i].spanId != spans[j].spanId
            then r.Ok? && SpanRowsOf(r.value, doc) == RowsOf(spans)
                 && (forall id :: id != doc ==> SpanRowsOf(r.value, id) == SpanRowsOf(st, id))
                 && r.value.(spans := st.spans) == st
            else r == Err(DuplicateRow)
  {
    RowIdsDifferIff(spans);
  }

  /** A span comes back with its id, kind, text and offsets; its lines, label and status are not stored. */
  lemma SpanComesBack(span: ProtectedSpan)
    ensures var loaded := SpanFromRow(RowOf(span));
            && loaded.spanId == span.spanId && loaded.kind == span.kind && loaded.text == span.text
            && loaded.location == SourceLocation(span.location.start, span.location.end, 1, 1)
            && loaded.spanLabel == "" && loaded.status == SpanStatus.Approved
  {
  }
}
