/**
 Whole runs of many clients over one store.  A client loads a document in three separate reads (revision, content,
 spans), between which others may commit, and then tries to commit; only ingest's and finalization's transactions are
 atomic.
 */
module WorkflowSafety {
  import opened Wrappers
  import opened LexicalChanges
  import opened LexicalReview
  import opened Documents
  import opened ProtectedSpans
  import opened SpanRebase
  import opened StructureSignature
  import opened Revisions
  import opened ProjectStore
  import opened IntegratedWorkflow

  datatype Client =
    | Idle
    | HasRevision(revision: Revision)
    | HasContent(revision: Revision, content: Content)
    | HasAll(loaded: Loaded)

  /** What a document was ingested with; a history variable that no step of the program reads. */
  datatype Origin = Origin(document: Document, rows: seq<SpanRow>)

  datatype System = System(store: StoreState, clients: map<nat, Client>, origins: map<string, Origin>)

  datatype Step =
    | Ingest(packageId: string, document: Document, extracted: seq<ProtectedSpan>, profileId: string)
    | ReadRevision(client: nat, documentId: string)
    | ReadContent(client: nat)
    | ReadSpans(client: nat)
    | Commit(client: nat, proposal: Proposal, journal: Journal)
    | Abandon(client: nat)

  function ClientAt(s: System, c: nat): Client { if c in s.clients then s.clients[c] else Idle }

  ghost predicate Init(s: System) { s == System(StoreState(map[], map[], map[], []), map[], map[]) }

  ghost predicate IngestNext(env: Env, s: System, id: string, document: Document, extracted: seq<ProtectedSpan>,
      profileId: string, s': System)
  {
    var spans := KeptFrom(extracted, {}, 0, -1);
    && document.lane == "source" && spans.Ok?
    && (var st := IngestWrites(env.sha256, s.store, InitialRevision(env, id, document),
                               InitialContent(document, profileId), spans.value);
        st.Ok? && s' == s.(store := st.value, origins := s.origins[id := Origin(document, RowsOf(spans.value))]))
  }

  ghost predicate ReadRevisionNext(s: System, c: nat, id: string, s': System) {
    var r := LatestAccepted(RevisionsOf(s.store, id));
    r.Some? && s' == s.(clients := s.clients[c := HasRevision(r.value)])
  }

  ghost predicate ReadContentNext(env: Env, s: System, c: nat, s': System) {
    && ClientAt(s, c).HasRevision?
    && (var content := LoadContent(env.sha256, s.store, ClientAt(s, c).revision);
        content.Ok? && s' == s.(clients := s.clients[c := HasContent(ClientAt(s, c).revision, content.value)]))
  }

  ghost predicate ReadSpansNext(s: System, c: nat, s': System) {
    && ClientAt(s, c).HasContent?
    && (var k := ClientAt(s, c);
        s' == s.(clients := s.clients[c := HasAll(Loaded(k.revision, k.content,
                                                         LoadSpans(s.store, k.revision.documentId)))]))
  }

  ghost predicate CommitNext(env: Env, s: System, c: nat, proposal: Proposal, journal: Journal, s': System) {
    && ClientAt(s, c).HasAll?
    && (var loaded := ClientAt(s, c).loaded;
        var f := Finalized(env, loaded, proposal, journal);
        f.Ok? && (var st := CommitWrites(env.sha256, s.store, loaded.revision, f.value.revision, f.value.content,
                                         f.value.spans);
                  st.Ok? && s' == s.(store := st.value)))
  }

  /** One step; a step whose operation raises leaves everything unchanged and is not listed. */
  ghost predicate Next(env: Env, s: System, step: Step, s': System) {
    match step
    case Ingest(id, document, extracted, profileId) => IngestNext(env, s, id, document, extracted, profileId, s')
    case ReadRevision(c, id) => ReadRevisionNext(s, c, id, s')
    case ReadContent(c) => ReadContentNext(env, s, c, s')
    case ReadSpans(c) => ReadSpansNext(s, c, s')
    case Commit(c, proposal, journal) => CommitNext(env, s, c, proposal, journal, s')
    case Abandon(c) => s' == s.(clients := s.clients[c := Idle])
  }

  // ----- The invariant -----

  ghost predicate RowsRead(rows: seq<SpanRow>, text: string) {
    forall row :: row in rows ==> Slice(text, row.start, row.end) == row.text
  }

  /** Which spans are protected, wherever they stand. */
  ghost function Identities(rows: seq<SpanRow>): set<(string, SpanKind, string)> {
    set row | row in rows :: (row.spanId, row.kind, row.text)
  }

  /** The revision's content is stored, hashes to the recorded digest and has the recorded signature. */
  ghost predicate ContentFits(env: Env, st: StoreState, r: Revision) {
    var key := (r.documentId, r.revisionId);
    && key in st.contents
    && env.sha256(st.contents[key].acceptedText) == r.acceptedTextSha256
    && st.contents[key].document.surfaceText == st.contents[key].acceptedText
    && SignatureOf(env.sha256, st.contents[key].document.nodes) == r.structureSignature
  }

  ghost function HeadOf(st: StoreState, id: string): Revision
    requires id in st.revisions && |st.revisions[id]| > 0
  {
    st.revisions[id][|st.revisions[id]| - 1]
  }

  /** No two protected spans overlap, in whatever order the rows are listed. */
  ghost predicate RowsDisjoint(rows: seq<SpanRow>) {
    forall a, b :: a in rows && b in rows && a.spanId != b.spanId ==> a.end <= b.start || b.end <= a.start
  }

  ghost predicate RowsFit(rows: seq<SpanRow>, origin: Origin, text: string, commits: nat) {
    && DistinctIds(rows) && (forall row :: row in rows ==> 0 <= row.start <= row.end) && RowsDisjoint(rows)
    && |rows| == |origin.rows| && Identities(rows) == Identities(origin.rows)
    && (commits == 0 ==> rows == origin.rows && text == origin.document.surfaceText)
    && (commits > 0 ==> RowsRead(rows, text) && RowsRead(origin.rows, origin.document.surfaceText))
  }

  ghost predicate RevisionsFit(env: Env, st: StoreState, rs: seq<Revision>, signature: Signature) {
    forall i :: 0 <= i < |rs| ==> ContentFits(env, st, rs[i]) && rs[i].structureSignature == signature
  }

  /** One document: a chain of accepted revisions with their contents, one structure, and protected spans in place. */
  ghost predicate DocumentInv(env: Env, s: System, id: string)
    requires id in s.store.revisions
  {
    var rs := s.store.revisions[id];
    && id in s.origins && id in s.store.spans && Chain(id, rs)
    && RevisionsFit(env, s.store, rs, SignatureOf(env.sha256, s.origins[id].document.nodes))
    && RowsFit(s.store.spans[id], s.origins[id], s.store.contents[(id, HeadOf(s.store, id).revisionId)].acceptedText,
               |rs| - 1)
  }

  ghost predicate IsStored(st: StoreState, r: Revision) {
    r.documentId in st.revisions && 1 <= r.token <= |st.revisions[r.documentId]|
    && st.revisions[r.documentId][r.token - 1] == r
  }

  ghost predicate HoldsContent(st: StoreState, r: Revision, content: Content) {
    (r.documentId, r.revisionId) in st.contents && st.contents[(r.documentId, r.revisionId)] == content
  }

  /** What a client holds was read; its spans are current as long as its revision is. */
  ghost predicate ClientInv(st: StoreState, client: Client) {
    match client
    case Idle => true
    case HasRevision(r) => IsStored(st, r)
    case HasContent(r, content) => IsStored(st, r) && HoldsContent(st, r, content)
    case HasAll(loaded) =>
      && IsStored(st, loaded.revision) && HoldsContent(st, loaded.revision, loaded.content)
      && (loaded.revision.token == |st.revisions[loaded.revision.documentId]|
          ==> loaded.spans == LoadSpans(st, loaded.revision.documentId))
  }

  ghost predicate Inv(env: Env, s: System) {
    && (forall id :: id in s.store.revisions ==> DocumentInv(env, s, id))
    && (forall c :: c in s.clients ==> ClientInv(s.store, s.clients[c]))
  }

  // ----- Queries on chains -----

  /** Accepted revisions with tokens 1, 2, ... */
  ghost predicate Counted(rs: seq<Revision>) {
    forall i :: 0 <= i < |rs| ==> rs[i].status == Accepted && rs[i].token == i + 1
  }

  lemma {:induction false} LatestOfCounted(rs: seq<Revision>)
    requires Counted(rs)
    ensures LatestAccepted(rs) == if |rs| == 0 then None else Some(rs[|rs| - 1])
    ensures Head(rs) == if |rs| == 0 then None else Some(rs[|rs| - 1])
    decreases |rs|
  {
    if |rs| > 0 {
      var n := |rs| - 1;
      CountedTo(rs, n);
      LatestOfCounted(rs[..n]);
    }
  }

  lemma CountedTo(rs: seq<Revision>, n: nat)
    requires Counted(rs) && n <= |rs|
    ensures Counted(rs[..n]) && |rs[..n]| == n && (n > 0 ==> rs[..n][n - 1] == rs[n - 1])
  {
  }

  lemma LatestOfChain(id: string, rs: seq<Revision>)
    requires Chain(id, rs)
    ensures LatestAccepted(rs) == Some(rs[|rs| - 1]) && Head(rs) == Some(rs[|rs| - 1])
  {
    LatestOfCounted(rs);
  }

  lemma ChainMember(st: StoreState, id: string, x: Revision)
    requires id in st.revisions && Chain(id, st.revisions[id]) && x in st.revisions[id]
    ensures x.documentId == id && IsStored(st, x) && x.revisionId == RevisionId(x.token)
  {
    var i :| 0 <= i < |st.revisions[id]| && st.revisions[id][i] == x;
  }

  // ----- Rows and spans -----

  lemma {:induction false} RowsOfPointwise(spans: seq<ProtectedSpan>)
    ensures |RowsOf(spans)| == |spans|
    ensures forall i :: 0 <= i < |spans| ==> RowsOf(spans)[i] == RowOf(spans[i])
  {
    if |spans| > 0 {
      RowsOfPointwise(spans[1..]);
    }
  }

  /** Loading stored rows: the same spans, in id order. */
  lemma LoadedSpans(st: StoreState, id: string)
    ensures var rows, spans := SpanRowsOf(st, id), LoadSpans(st, id);
            && |spans| == |rows|
            && (forall s :: s in spans ==> exists row :: row in rows && s == SpanFromRow(row))
            && (forall row :: row in rows ==> SpanFromRow(row) in spans)
  {
    var rows := SpanRowsOf(st, id);
    OrderByIdMembers(rows);
    SpansFromRowsPointwise(OrderById(rows));
    var spans := LoadSpans(st, id);
    forall s | s in spans ensures exists row :: row in rows && s == SpanFromRow(row) {
      var i :| 0 <= i < |spans| && spans[i] == s;
      assert OrderById(rows)[i] in OrderById(rows);
    }
    forall row | row in rows ensures SpanFromRow(row) in spans {
      assert row in OrderById(rows);
      var i :| 0 <= i < |rows| && OrderById(rows)[i] == row;
      assert spans[i] == SpanFromRow(row);
    }
  }

  /** Carried-over spans stay pairwise disjoint. */
  lemma CarriedRowsDisjoint(st: StoreState, id: string, spans: seq<ProtectedSpan>)
    requires |spans| == |LoadSpans(st, id)| && KeepOrder(LoadSpans(st, id), spans) && RowsDisjoint(SpanRowsOf(st, id))
    requires forall i :: 0 <= i < |spans| ==> SameSpan(LoadSpans(st, id)[i], spans[i])
    ensures RowsDisjoint(RowsOf(spans))
  {
    var rows' := RowsOf(spans);
    RowsOfPointwise(spans);
    forall a, b | a in rows' && b in rows' && a.spanId != b.spanId ensures a.end <= b.start || b.end <= a.start {
      var i :| 0 <= i < |rows'| && rows'[i] == a;
      var j :| 0 <= j < |rows'| && rows'[j] == b;
      assert SameSpan(LoadSpans(st, id)[i], spans[i]) && SameSpan(LoadSpans(st, id)[j], spans[j]);
      LoadedPairDisjoint(st, id, i, j);
    }
  }

  lemma LoadedPairDisjoint(st: StoreState, id: string, i: nat, j: nat)
    requires RowsDisjoint(SpanRowsOf(st, id)) && i < |LoadSpans(st, id)| && j < |LoadSpans(st, id)|
    requires LoadSpans(st, id)[i].spanId != LoadSpans(st, id)[j].spanId
    ensures var a, b := LoadSpans(st, id)[i].location, LoadSpans(st, id)[j].location;
            a.end <= b.start || b.end <= a.start
  {
    LoadedSpans(st, id);
    assert LoadSpans(st, id)[i] in LoadSpans(st, id) && LoadSpans(st, id)[j] in LoadSpans(st, id);
  }

  /** The spans of the rows, in some order, each at its old or a new place. */
  ghost predicate Carries(loaded: seq<ProtectedSpan>, spans: seq<ProtectedSpan>) {
    |spans| == |loaded| && forall i :: 0 <= i < |spans| ==> SameSpan(loaded[i], spans[i]) && ValidOffsets(spans[i])
  }

  lemma OldRowCarried(st: StoreState, id: string, spans: seq<ProtectedSpan>, text: string, row: SpanRow)
    requires Carries(LoadSpans(st, id), spans) && SpansRead(LoadSpans(st, id), text) && row in SpanRowsOf(st, id)
    ensures Slice(text, row.start, row.end) == row.text && (row.spanId, row.kind, row.text) in Identities(RowsOf(spans))
  {
    LoadedSpans(st, id);
    RowsOfPointwise(spans);
    var i :| 0 <= i < |spans| && LoadSpans(st, id)[i] == SpanFromRow(row);
    assert Reads(SpanFromRow(row), text) && SameSpan(SpanFromRow(row), spans[i]);
    assert RowsOf(spans)[i] in RowsOf(spans) && RowsOf(spans)[i] == RowOf(spans[i]);
  }

  lemma NewRowCarried(st: StoreState, id: string, spans: seq<ProtectedSpan>, text: string, row: SpanRow)
    requires Carries(LoadSpans(st, id), spans) && SpansRead(spans, text) && row in RowsOf(spans)
    ensures 0 <= row.start <= row.end && Slice(text, row.start, row.end) == row.text
    ensures (row.spanId, row.kind, row.text) in Identities(SpanRowsOf(st, id))
  {
    LoadedSpans(st, id);
    RowsOfPointwise(spans);
    var i :| 0 <= i < |RowsOf(spans)| && RowsOf(spans)[i] == row;
    assert Reads(spans[i], text) && SameSpan(LoadSpans(st, id)[i], spans[i])
           && LoadSpans(st, id)[i] in LoadSpans(st, id);
  }

  /** Rows saved from carried-over spans protect what the loaded rows protected, and read the new text. */
  lemma RowsCarried(st: StoreState, id: string, spans: seq<ProtectedSpan>, text: string, text': string)
    requires Carries(LoadSpans(st, id), spans) && SpansRead(LoadSpans(st, id), text) && SpansRead(spans, text')
    requires KeepOrder(LoadSpans(st, id), spans) && RowsDisjoint(SpanRowsOf(st, id))
    ensures var rows, rows' := SpanRowsOf(st, id), RowsOf(spans);
            && |rows'| == |rows| && Identities(rows') == Identities(rows)
            && RowsRead(rows, text) && RowsRead(rows', text')
            && (forall row :: row in rows' ==> 0 <= row.start <= row.end) && RowsDisjoint(rows')
  {
    CarriedRowsDisjoint(st, id, spans);
    LoadedSpans(st, id);
    RowsOfPointwise(spans);
    forall row | row in SpanRowsOf(st, id)
      ensures Slice(text, row.start, row.end) == row.text
              && (row.spanId, row.kind, row.text) in Identities(RowsOf(spans))
    {
      OldRowCarried(st, id, spans, text, row);
    }
    forall row | row in RowsOf(spans)
      ensures 0 <= row.start <= row.end && Slice(text', row.start, row.end) == row.text
      ensures (row.spanId, row.kind, row.text) in Identities(SpanRowsOf(st, id))
    {
      NewRowCarried(st, id, spans, text', row);
    }
  }

  // ----- The effect of the transactions -----

  /** One revision, its content and its spans are added to one document. */
  ghost predicate Extends(st: StoreState, st': StoreState, r: Revision, content: Content, spans: seq<ProtectedSpan>) {
    && st'.revisions == st.revisions[r.documentId := RevisionsOf(st, r.documentId) + [r]]
    && st'.contents == st.contents[(r.documentId, r.revisionId) := content]
    && st'.spans == st.spans[r.documentId := RowsOf(spans)]
    && DistinctIds(RowsOf(spans))
  }

  lemma CommitEffect(sha256: string -> string, st: StoreState, base: Revision, r: Revision, content: Content,
      spans: seq<ProtectedSpan>)
    requires r.documentId == base.documentId && CommitWrites(sha256, st, base, r, content, spans).Ok?
    ensures Extends(st, CommitWrites(sha256, st, base, r, content, spans).value, r, content, spans)
    ensures sha256(content.acceptedText) == r.acceptedTextSha256 && content.document.surfaceText == content.acceptedText
    ensures Parseable(content.document) && r.documentId != ""
    ensures LatestAccepted(RevisionsOf(st, base.documentId)).Some?
            && LatestAccepted(RevisionsOf(st, base.documentId)).value.revisionId == base.revisionId
  {
  }

  lemma IngestEffect(sha256: string -> string, st: StoreState, r: Revision, content: Content, spans: seq<ProtectedSpan>)
    requires IngestWrites(sha256, st, r, content, spans).Ok? && r.baseToken == 0
    ensures Extends(st, IngestWrites(sha256, st, r, content, spans).value, r, content, spans)
    ensures sha256(content.acceptedText) == r.acceptedTextSha256 && content.document.surfaceText == content.acceptedText
    ensures Parseable(content.document) && r.documentId != ""
    ensures Head(RevisionsOf(st, r.documentId)).Some? ==> Head(RevisionsOf(st, r.documentId)).value.token == 0
  {
  }

  /** Stored revisions keep their place and their content when a chain is extended. */
  lemma ExtensionKeepsStored(st: StoreState, st': StoreState, r: Revision, content: Content, spans: seq<ProtectedSpan>,
      x: Revision)
    requires Extends(st, st', r, content, spans) && IsStored(st, x) && Chain(x.documentId, st.revisions[x.documentId])
    requires r.documentId in st.revisions ==> r.revisionId == RevisionId(|st.revisions[r.documentId]| + 1)
    ensures IsStored(st', x)
    ensures ContentKept(st, st', x)
    ensures x.documentId == r.documentId ==> x.token < |st'.revisions[x.documentId]|
    ensures x.documentId != r.documentId ==> LoadSpans(st', x.documentId) == LoadSpans(st, x.documentId)
  {
    if x.documentId == r.documentId && x.revisionId == r.revisionId {
      RevisionIdInjective(x.token, |st.revisions[r.documentId]| + 1);
    }
  }

  lemma ExtensionKeepsClient(st: StoreState, st': StoreState, r: Revision, content: Content, spans: seq<ProtectedSpan>,
      client: Client)
    requires Extends(st, st', r, content, spans) && ClientInv(st, client)
    requires forall id :: id in st.revisions ==> Chain(id, st.revisions[id])
    requires r.documentId in st.revisions ==> r.revisionId == RevisionId(|st.revisions[r.documentId]| + 1)
    ensures ClientInv(st', client)
  {
    match client
    case Idle =>
    case HasRevision(x) => ExtensionKeepsStored(st, st', r, content, spans, x);
    case HasContent(x, c) => ExtensionKeepsStored(st, st', r, content, spans, x);
    case HasAll(loaded) => ExtensionKeepsStored(st, st', r, content, spans, loaded.revision);
  }

  /** The content conditions of an old revision survive. */
  lemma ExtensionKeepsContent(env: Env, st: StoreState, st': StoreState, r: Revision, content: Content,
      spans: seq<ProtectedSpan>, id: string, i: nat)
    requires Extends(st, st', r, content, spans) && id in st.revisions && Chain(id, st.revisions[id])
             && i < |st.revisions[id]|
    requires r.documentId in st.revisions ==> r.revisionId == RevisionId(|st.revisions[r.documentId]| + 1)
    requires ContentFits(env, st, st.revisions[id][i])
    ensures ContentFits(env, st', st.revisions[id][i])
    ensures st'.contents[(id, st.revisions[id][i].revisionId)] == st.contents[(id, st.revisions[id][i].revisionId)]
  {
    var x := st.revisions[id][i];
    if id == r.documentId && x.revisionId == r.revisionId {
      RevisionIdInjective(i + 1, |st.revisions[id]| + 1);
    }
  }

  lemma ExtensionKeepsOtherDocument(env: Env, s: System, s': System, r: Revision, content: Content,
      spans: seq<ProtectedSpan>, id: string)
    requires Extends(s.store, s'.store, r, content, spans) && id in s.store.revisions && id != r.documentId
    requires id in s.origins && id in s'.origins && s'.origins[id] == s.origins[id]
    requires DocumentInv(env, s, id)
    ensures DocumentInv(env, s', id)
  {
    assert s'.store.revisions[id] == s.store.revisions[id] && s'.store.spans[id] == s.store.spans[id];
    OtherRevisionsFit(env, s.store, s'.store, r, content, spans, id,
                      SignatureOf(env.sha256, s.origins[id].document.nodes));
    OtherHead(s.store, s'.store, r, content, spans, id);
  }

  lemma OtherRevisionsFit(env: Env, st: StoreState, st': StoreState, r: Revision, content: Content,
      spans: seq<ProtectedSpan>, id: string, signature: Signature)
    requires Extends(st, st', r, content, spans) && id in st.revisions && id != r.documentId
    requires Chain(id, st.revisions[id]) && RevisionsFit(env, st, st.revisions[id], signature)
    ensures RevisionsFit(env, st', st.revisions[id], signature)
  {
    var rs := st.revisions[id];
    forall i | 0 <= i < |rs| ensures ContentFits(env, st', rs[i]) {
      OtherContentFits(env, st, st', r, content, spans, rs[i]);
    }
  }

  lemma OtherHead(st: StoreState, st': StoreState, r: Revision, content: Content, spans: seq<ProtectedSpan>, id: string)
    requires Extends(st, st', r, content, spans) && id in st.revisions && id != r.documentId
    requires Chain(id, st.revisions[id]) && (id, HeadOf(st, id).revisionId) in st.contents
    ensures id in st'.revisions && |st'.revisions[id]| > 0 && HeadOf(st', id) == HeadOf(st, id)
    ensures (id, HeadOf(st, id).revisionId) in st'.contents
    ensures st'.contents[(id, HeadOf(st, id).revisionId)] == st.contents[(id, HeadOf(st, id).revisionId)]
  {
  }

  lemma OtherContentFits(env: Env, st: StoreState, st': StoreState, r: Revision, content: Content,
      spans: seq<ProtectedSpan>, x: Revision)
    requires Extends(st, st', r, content, spans) && x.documentId != r.documentId && ContentFits(env, st, x)
    ensures ContentFits(env, st', x)
    ensures st'.contents[(x.documentId, x.revisionId)] == st.contents[(x.documentId, x.revisionId)]
  {
  }

  // ----- Commit -----

  /**
   No torn read is committed: when a commit goes through, the revision, content and spans the client read, at three
   different times, are together the current ones.
   */
  lemma CommitSeesCurrentState(env: Env, s: System, c: nat, proposal: Proposal, journal: Journal, s': System)
    requires Inv(env, s) && CommitNext(env, s, c, proposal, journal, s')
    ensures var loaded := s.clients[c].loaded;
            var id := loaded.revision.documentId;
            && id in s.store.revisions && |s.store.revisions[id]| > 0
            && loaded.revision == HeadOf(s.store, id)
            && HoldsContent(s.store, loaded.revision, loaded.content)
            && loaded.spans == LoadSpans(s.store, id)
  {
    LoadedIsStored(env, s, c);
    CommittedIsHead(env, s, c, proposal, journal, s');
    NewestIsCurrent(s.store, s.clients[c].loaded);
  }

  lemma NewestIsCurrent(st: StoreState, loaded: Loaded)
    requires ClientInv(st, HasAll(loaded)) && loaded.revision.token == |st.revisions[loaded.revision.documentId]|
    ensures var id := loaded.revision.documentId;
            && id in st.revisions && |st.revisions[id]| > 0 && loaded.revision == HeadOf(st, id)
            && HoldsContent(st, loaded.revision, loaded.content) && loaded.spans == LoadSpans(st, id)
  {
  }

  lemma LoadedIsStored(env: Env, s: System, c: nat)
    requires Inv(env, s) && ClientAt(s, c).HasAll?
    ensures var loaded := s.clients[c].loaded;
            && ClientInv(s.store, s.clients[c]) && IsStored(s.store, loaded.revision)
            && Chain(loaded.revision.documentId, s.store.revisions[loaded.revision.documentId])
  {
    assert ClientInv(s.store, s.clients[c]) && IsStored(s.store, s.clients[c].loaded.revision);
    assert DocumentInv(env, s, s.clients[c].loaded.revision.documentId);
  }

  lemma CommittedIsHead(env: Env, s: System, c: nat, proposal: Proposal, journal: Journal, s': System)
    requires CommitNext(env, s, c, proposal, journal, s') && IsStored(s.store, ClientAt(s, c).loaded.revision)
    requires var r := ClientAt(s, c).loaded.revision; Chain(r.documentId, s.store.revisions[r.documentId])
    ensures var r := ClientAt(s, c).loaded.revision; r.token == |s.store.revisions[r.documentId]|
  {
    var loaded := ClientAt(s, c).loaded;
    var f := Finalized(env, loaded, proposal, journal).value;
    FinalizedRevision(env, loaded, proposal, journal);
    CommitGuard(env.sha256, s.store, loaded.revision, f.revision, f.content, f.spans);
  }

  /** The guard compares revision ids only; on a chain that identifies the head. */
  lemma CommitGuard(sha256: string -> string, st: StoreState, base: Revision, r: Revision, content: Content,
      spans: seq<ProtectedSpan>)
    requires IsStored(st, base) && Chain(base.documentId, st.revisions[base.documentId])
             && r.documentId == base.documentId
    requires CommitWrites(sha256, st, base, r, content, spans).Ok?
    ensures base.token == |st.revisions[base.documentId]|
  {
    var rs := st.revisions[base.documentId];
    LatestOfChain(base.documentId, rs);
    CommitEffect(sha256, st, base, r, content, spans);
    RevisionIdInjective(|rs|, base.token);
  }

  lemma FinalizedRevision(env: Env, loaded: Loaded, proposal: Proposal, journal: Journal)
    requires Finalized(env, loaded, proposal, journal).Ok?
    ensures var r := Finalized(env, loaded, proposal, journal).value.revision;
            r.documentId == loaded.revision.documentId && r.revisionId == RevisionId(loaded.revision.token + 1)
  {
  }

  /** The facts about one committed revision that extend its document's invariant. */
  ghost predicate CommitFits(env: Env, st: StoreState, st': StoreState, origin: Origin, loaded: Loaded, f: Finalization)
    requires loaded.revision.documentId in st.revisions
  {
    var id := loaded.revision.documentId;
    && f.revision.documentId == id && Extends(st, st', f.revision, f.content, f.spans)
    && Chain(id, st.revisions[id] + [f.revision])
    && f.revision.structureSignature == loaded.revision.structureSignature
    && ContentFits(env, st', f.revision)
    && RowsFit(RowsOf(f.spans), origin, f.content.acceptedText, |st.revisions[id]|)
  }

  lemma CommitExtends(env: Env, st: StoreState, origin: Origin, loaded: Loaded, f: Finalization, st': StoreState)
    requires KeepsBase(env, loaded, f) && Extends(st, st', f.revision, f.content, f.spans)
    requires loaded.revision.documentId in st.revisions
             && Chain(loaded.revision.documentId, st.revisions[loaded.revision.documentId])
    requires loaded.revision == HeadOf(st, loaded.revision.documentId)
             && loaded.spans == LoadSpans(st, loaded.revision.documentId)
    requires var rows := SpanRowsOf(st, loaded.revision.documentId);
             |rows| == |origin.rows| && Identities(rows) == Identities(origin.rows) && RowsDisjoint(rows)
             && (RowsRead(rows, loaded.content.acceptedText) ==> RowsRead(origin.rows, origin.document.surfaceText))
    ensures CommitFits(env, st, st', origin, loaded, f)
  {
    var id := loaded.revision.documentId;
    AcceptedExtendsChain(id, st.revisions[id], loaded.revision.structureSignature, env.sha256(f.content.acceptedText),
                         f.revision.createdNote);
    RowsCarried(st, id, f.spans, loaded.content.acceptedText, f.content.acceptedText);
  }

  lemma LoadedSpansValid(st: StoreState, id: string)
    requires forall row :: row in SpanRowsOf(st, id) ==> 0 <= row.start <= row.end
    ensures forall s :: s in LoadSpans(st, id) ==> ValidOffsets(s)
  {
    LoadedSpans(st, id);
  }

  lemma CommitKeepsInv(env: Env, s: System, c: nat, proposal: Proposal, journal: Journal, s': System)
    requires Inv(env, s) && CommitNext(env, s, c, proposal, journal, s')
    ensures Inv(env, s')
  {
    var loaded := ClientAt(s, c).loaded;
    var f := Finalized(env, loaded, proposal, journal).value;
    var id := loaded.revision.documentId;
    CommitSeesCurrentState(env, s, c, proposal, journal, s');
    assert DocumentInv(env, s, id) && ContentFits(env, s.store, loaded.revision);
    LoadedSpansValid(s.store, id);
    FinalizationKeeps(env, loaded, proposal, journal);
    CommitEffect(env.sha256, s.store, loaded.revision, f.revision, f.content, f.spans);
    CommitExtends(env, s.store, s.origins[id], loaded, f, s'.store);
    ExtensionKeepsInv(env, s, f, loaded, s');
  }

  lemma LastOfChain(id: string, rs: seq<Revision>, r: Revision)
    requires Chain(id, rs + [r])
    ensures r.revisionId == RevisionId(|rs| + 1)
  {
    assert (rs + [r])[|rs|] == r;
  }

  lemma ExtensionKeepsClients(env: Env, s: System, r: Revision, content: Content, spans: seq<ProtectedSpan>,
      st': StoreState)
    requires Inv(env, s) && Extends(s.store, st', r, content, spans)
    requires r.documentId in s.store.revisions ==> r.revisionId == RevisionId(|s.store.revisions[r.documentId]| + 1)
    ensures forall k :: k in s.clients ==> ClientInv(st', s.clients[k])
  {
    forall d | d in s.store.revisions ensures Chain(d, s.store.revisions[d]) {
      assert DocumentInv(env, s, d);
    }
    forall k | k in s.clients ensures ClientInv(st', s.clients[k]) {
      ExtensionKeepsClient(s.store, st', r, content, spans, s.clients[k]);
    }
  }

  lemma ExtensionKeepsDocument(env: Env, s: System, f: Finalization, loaded: Loaded, s': System, d: string)
    requires Inv(env, s) && loaded.revision.documentId in s.store.revisions && s' == s.(store := s'.store)
    requires DocumentInv(env, s, loaded.revision.documentId)
             && loaded.revision == HeadOf(s.store, loaded.revision.documentId)
    requires CommitFits(env, s.store, s'.store, s.origins[loaded.revision.documentId], loaded, f)
             && d in s'.store.revisions
    ensures DocumentInv(env, s', d)
  {
    var id := loaded.revision.documentId;
    if d == id {
      ExtendedDocument(env, s, s', f, id);
    } else {
      assert DocumentInv(env, s, d);
      ExtensionKeepsOtherDocument(env, s, s', f.revision, f.content, f.spans, d);
    }
  }

  lemma ExtensionKeepsInv(env: Env, s: System, f: Finalization, loaded: Loaded, s': System)
    requires Inv(env, s) && loaded.revision.documentId in s.store.revisions && s' == s.(store := s'.store)
    requires DocumentInv(env, s, loaded.revision.documentId)
             && loaded.revision == HeadOf(s.store, loaded.revision.documentId)
    requires CommitFits(env, s.store, s'.store, s.origins[loaded.revision.documentId], loaded, f)
    ensures Inv(env, s')
  {
    LastOfChain(loaded.revision.documentId, s.store.revisions[loaded.revision.documentId], f.revision);
    forall d | d in s'.store.revisions ensures DocumentInv(env, s', d) {
      ExtensionKeepsDocument(env, s, f, loaded, s', d);
    }
    ExtensionKeepsClients(env, s, f.revision, f.content, f.spans, s'.store);
  }

  lemma ExtendedDocument(env: Env, s: System, s': System, f: Finalization, id: string)
    requires id in s.store.revisions && DocumentInv(env, s, id) && f.revision.documentId == id
             && s'.origins == s.origins
    requires Extends(s.store, s'.store, f.revision, f.content, f.spans)
    requires Chain(id, s.store.revisions[id] + [f.revision]) && ContentFits(env, s'.store, f.revision)
    requires f.revision.structureSignature == HeadOf(s.store, id).structureSignature
    requires RowsFit(RowsOf(f.spans), s.origins[id], f.content.acceptedText, |s.store.revisions[id]|)
    ensures DocumentInv(env, s', id)
  {
    var rs := s.store.revisions[id];
    assert (rs + [f.revision])[|rs|].revisionId == RevisionId(|rs| + 1);
    forall i | 0 <= i < |rs| ensures ContentFits(env, s'.store, rs[i]) {
      ExtensionKeepsContent(env, s.store, s'.store, f.revision, f.content, f.spans, id, i);
    }
  }

  // ----- Ingest -----

  lemma IngestKeepsInv(env: Env, s: System, id: string, document: Document, extracted: seq<ProtectedSpan>,
      profileId: string, s': System)
    requires Inv(env, s) && IngestNext(env, s, id, document, extracted, profileId, s')
    ensures Inv(env, s')
  {
    var spans := KeptFrom(extracted, {}, 0, -1).value;
    var r, content := InitialRevision(env, id, document), InitialContent(document, profileId);
    IngestEffect(env.sha256, s.store, r, content, spans);
    if id in s.store.revisions {
      assert DocumentInv(env, s, id);
      LatestOfChain(id, s.store.revisions[id]);
      assert false;
    }
    IngestedDocument(env, s, s', id, document, extracted, spans, content);
    forall d | d in s'.store.revisions ensures DocumentInv(env, s', d) {
      if d != id {
        assert DocumentInv(env, s, d);
        ExtensionKeepsOtherDocument(env, s, s', r, content, spans, d);
      }
    }
    ExtensionKeepsClients(env, s, r, content, spans, s'.store);
  }

  lemma IngestedDocument(env: Env, s: System, s': System, id: string, document: Document, extracted: seq<ProtectedSpan>,
      spans: seq<ProtectedSpan>, content: Content)
    requires content.document == document && content.acceptedText == document.surfaceText && id !in s.store.revisions
    requires Extends(s.store, s'.store, InitialRevision(env, id, document), content, spans)
    requires KeptFrom(extracted, {}, 0, -1) == Ok(spans)
    requires id in s'.origins && s'.origins[id] == Origin(document, RowsOf(spans))
    ensures id in s'.store.revisions && DocumentInv(env, s', id)
  {
    var r := InitialRevision(env, id, document);
    SpanSetMeaning(extracted);
    InitialIsChain(id, r.structureSignature, r.acceptedTextSha256);
    IngestedRows(spans);
    SingleRevisionDocument(env, s', id, r);
  }

  lemma SingleRevisionDocument(env: Env, s: System, id: string, r: Revision)
    requires id in s.store.revisions && s.store.revisions[id] == [r] && Chain(id, [r]) && r.documentId == id
    requires id in s.origins && id in s.store.spans && ContentFits(env, s.store, r)
    requires r.structureSignature == SignatureOf(env.sha256, s.origins[id].document.nodes)
    requires s.store.spans[id] == s.origins[id].rows && DistinctIds(s.origins[id].rows)
    requires (forall row :: row in s.origins[id].rows ==> 0 <= row.start <= row.end) && RowsDisjoint(s.origins[id].rows)
    requires s.store.contents[(id, r.revisionId)].acceptedText == s.origins[id].document.surfaceText
    ensures DocumentInv(env, s, id)
  {
  }

  lemma IngestedRows(spans: seq<ProtectedSpan>)
    requires SortedDisjoint(spans)
    ensures (forall row :: row in RowsOf(spans) ==> 0 <= row.start <= row.end) && RowsDisjoint(RowsOf(spans))
  {
    RowsOfPointwise(spans);
    var rows := RowsOf(spans);
    forall a, b | a in rows && b in rows && a.spanId != b.spanId ensures a.end <= b.start || b.end <= a.start {
      var i :| 0 <= i < |rows| && rows[i] == a;
      var j :| 0 <= j < |rows| && rows[j] == b;
      assert i < j || j < i;
    }
    forall row | row in RowsOf(spans) ensures 0 <= row.start <= row.end {
      var i :| 0 <= i < |spans| && RowsOf(spans)[i] == row;
      assert ValidOffsets(spans[i]);
    }
  }

  // ----- Every step, every run -----

  /** Replacing what one client holds by something that was read keeps the invariant. */
  lemma ClientStepKeepsInv(env: Env, s: System, c: nat, client: Client, s': System)
    requires Inv(env, s) && s' == s.(clients := s.clients[c := client]) && ClientInv(s.store, client)
    ensures Inv(env, s')
  {
    forall d | d in s'.store.revisions ensures DocumentInv(env, s', d) {
      assert DocumentInv(env, s, d);
    }
    forall k | k in s'.clients ensures ClientInv(s'.store, s'.clients[k]) {
      assert k != c ==> k in s.clients && ClientInv(s.store, s.clients[k]);
    }
  }

  lemma ReadRevisionKeepsInv(env: Env, s: System, c: nat, id: string, s': System)
    requires Inv(env, s) && ReadRevisionNext(s, c, id, s')
    ensures Inv(env, s')
  {
    assert id in s.store.revisions && DocumentInv(env, s, id);
    LatestIsStored(s.store, id);
    ClientStepKeepsInv(env, s, c, HasRevision(LatestAccepted(s.store.revisions[id]).value), s');
  }

  lemma LatestIsStored(st: StoreState, id: string)
    requires id in st.revisions && Chain(id, st.revisions[id])
    ensures LatestAccepted(st.revisions[id]).Some? && IsStored(st, LatestAccepted(st.revisions[id]).value)
  {
    LatestOfChain(id, st.revisions[id]);
  }

  lemma ReadContentKeepsInv(env: Env, s: System, c: nat, s': System)
    requires Inv(env, s) && ReadContentNext(env, s, c, s')
    ensures Inv(env, s')
  {
    assert ClientInv(s.store, ClientAt(s, c));
    ClientStepKeepsInv(env, s, c, s'.clients[c], s');
  }

  lemma ReadSpansKeepsInv(env: Env, s: System, c: nat, s': System)
    requires Inv(env, s) && ReadSpansNext(s, c, s')
    ensures Inv(env, s')
  {
    assert ClientInv(s.store, ClientAt(s, c));
    ClientStepKeepsInv(env, s, c, s'.clients[c], s');
  }

  lemma StepKeepsInv(env: Env, s: System, step: Step, s': System)
    requires Inv(env, s) && Next(env, s, step, s')
    ensures Inv(env, s')
  {
    match step
    case Ingest(id, document, extracted, profileId) => IngestKeepsInv(env, s, id, document, extracted, profileId, s');
    case Commit(c, proposal, journal) => CommitKeepsInv(env, s, c, proposal, journal, s');
    case ReadRevision(c, id) => ReadRevisionKeepsInv(env, s, c, id, s');
    case ReadContent(c) => ReadContentKeepsInv(env, s, c, s');
    case ReadSpans(c) => ReadSpansKeepsInv(env, s, c, s');
    case Abandon(c) => ClientStepKeepsInv(env, s, c, Idle, s');
  }

  /** A run: any interleaving of the clients' steps from the empty store. */
  ghost predicate Run(env: Env, states: seq<System>, steps: seq<Step>) {
    && |states| == |steps| + 1 && Init(states[0])
    && forall i :: 0 <= i < |steps| ==> Next(env, states[i], steps[i], states[i + 1])
  }

  lemma {:induction false} RunKeepsInv(env: Env, states: seq<System>, steps: seq<Step>, n: nat)
    requires Run(env, states, steps) && n < |states|
    ensures Inv(env, states[n])
  {
    if n > 0 {
      RunKeepsInv(env, states, steps, n - 1);
      StepKeepsInv(env, states[n - 1], steps[n - 1], states[n]);
    }
  }

  // ----- What every run guarantees -----

  /**
   At every moment the accepted revisions of a document are rev-1, rev-2, ..., each the child of the one before; no
   two share a base.
   */
  lemma AcceptedRevisionsFormAChain(env: Env, states: seq<System>, steps: seq<Step>, n: nat, id: string)
    requires Run(env, states, steps) && n < |states| && id in states[n].store.revisions
    ensures Chain(id, states[n].store.revisions[id]) && Linked(states[n].store.revisions[id])
  {
    RunKeepsInv(env, states, steps, n);
    assert DocumentInv(env, states[n], id);
    ChainIsLinked(id, states[n].store.revisions[id]);
  }

  /** Content once stored for a revision stays as it is. */
  ghost predicate ContentKept(st: StoreState, st': StoreState, r: Revision) {
    var key := (r.documentId, r.revisionId);
    key in st.contents ==> key in st'.contents && st'.contents[key] == st.contents[key]
  }

  /** A document's history is only ever appended to, and the content of a stored revision never changes. */
  ghost predicate HistoryKept(s: System, s': System, id: string)
    requires id in s.store.revisions
  {
    && id in s'.store.revisions && s.store.revisions[id] <= s'.store.revisions[id]
    && (id in s.origins ==> id in s'.origins && s'.origins[id] == s.origins[id])
    && forall r :: r in s.store.revisions[id] ==> ContentKept(s.store, s'.store, r)
  }

  lemma ExtensionKeepsHistory(s: System, s': System, r: Revision, content: Content, spans: seq<ProtectedSpan>,
      id: string)
    requires Extends(s.store, s'.store, r, content, spans) && id in s.store.revisions
             && Chain(id, s.store.revisions[id])
    requires r.documentId in s.store.revisions ==> r.revisionId == RevisionId(|s.store.revisions[r.documentId]| + 1)
    requires id in s.origins ==> id in s'.origins && s'.origins[id] == s.origins[id]
    ensures HistoryKept(s, s', id)
  {
    var rs := s.store.revisions[id];
    forall x | x in rs ensures ContentKept(s.store, s'.store, x) {
      ChainMember(s.store, id, x);
      ExtensionKeepsStored(s.store, s'.store, r, content, spans, x);
    }
  }

  lemma IngestKeepsHistory(env: Env, s: System, d: string, document: Document, extracted: seq<ProtectedSpan>,
      profileId: string, s': System, id: string)
    requires Inv(env, s) && IngestNext(env, s, d, document, extracted, profileId, s') && id in s.store.revisions
    ensures HistoryKept(s, s', id)
  {
    var spans := KeptFrom(extracted, {}, 0, -1).value;
    IngestEffect(env.sha256, s.store, InitialRevision(env, d, document), InitialContent(document, profileId), spans);
    assert DocumentInv(env, s, id);
    if d in s.store.revisions {
      assert DocumentInv(env, s, d);
      LatestOfChain(d, s.store.revisions[d]);
      assert false;
    }
    ExtensionKeepsHistory(s, s', InitialRevision(env, d, document), InitialContent(document, profileId), spans, id);
  }

  /** The next revision, its content and its spans, all of one document. */
  ghost predicate AddsTo(s: System, s': System, f: Finalization) {
    var id := f.revision.documentId;
    && id in s.store.revisions && f.revision.revisionId == RevisionId(|s.store.revisions[id]| + 1)
    && Extends(s.store, s'.store, f.revision, f.content, f.spans) && s'.origins == s.origins
  }

  /** What a commit writes, whatever the store holds. */
  lemma CommitStepEffect(env: Env, s: System, c: nat, proposal: Proposal, journal: Journal, s': System)
    requires CommitNext(env, s, c, proposal, journal, s')
    ensures c in s.clients && s.clients[c].HasAll? && Finalized(env, s.clients[c].loaded, proposal, journal).Ok?
    ensures var base, f := s.clients[c].loaded.revision, Finalized(env, s.clients[c].loaded, proposal, journal).value;
            && f.revision.documentId == base.documentId && f.revision.revisionId == RevisionId(base.token + 1)
            && Extends(s.store, s'.store, f.revision, f.content, f.spans) && s'.origins == s.origins
            && Parseable(f.content.document) && f.revision.documentId != ""
  {
    var loaded := ClientAt(s, c).loaded;
    var f := Finalized(env, loaded, proposal, journal).value;
    FinalizedRevision(env, loaded, proposal, journal);
    CommitEffect(env.sha256, s.store, loaded.revision, f.revision, f.content, f.spans);
  }

  lemma HeadToken(env: Env, s: System, id: string)
    requires Inv(env, s) && id in s.store.revisions
    ensures |s.store.revisions[id]| > 0 && HeadOf(s.store, id).token == |s.store.revisions[id]|
  {
    assert DocumentInv(env, s, id);
  }

  lemma CommitAdds(env: Env, s: System, c: nat, proposal: Proposal, journal: Journal, s': System)
    requires Inv(env, s) && CommitNext(env, s, c, proposal, journal, s')
    ensures Finalized(env, s.clients[c].loaded, proposal, journal).Ok?
    ensures AddsTo(s, s', Finalized(env, s.clients[c].loaded, proposal, journal).value)
  {
    CommitSeesCurrentState(env, s, c, proposal, journal, s');
    CommitStepEffect(env, s, c, proposal, journal, s');
    var loaded := s.clients[c].loaded;
    HeadToken(env, s, loaded.revision.documentId);
    NextAdds(s, s', loaded.revision, Finalized(env, loaded, proposal, journal).value);
  }

  lemma NextAdds(s: System, s': System, base: Revision, f: Finalization)
    requires base.documentId in s.store.revisions && base.token == |s.store.revisions[base.documentId]|
    requires f.revision.documentId == base.documentId && f.revision.revisionId == RevisionId(base.token + 1)
    requires Extends(s.store, s'.store, f.revision, f.content, f.spans) && s'.origins == s.origins
    ensures AddsTo(s, s', f)
  {
  }

  lemma AddingKeepsHistory(env: Env, s: System, s': System, f: Finalization, id: string)
    requires Inv(env, s) && AddsTo(s, s', f) && id in s.store.revisions
    ensures HistoryKept(s, s', id)
  {
    assert DocumentInv(env, s, id);
    ExtensionKeepsHistory(s, s', f.revision, f.content, f.spans, id);
  }

  lemma CommitKeepsHistory(env: Env, s: System, c: nat, proposal: Proposal, journal: Journal, s': System, id: string)
    requires Inv(env, s) && CommitNext(env, s, c, proposal, journal, s') && id in s.store.revisions
    ensures HistoryKept(s, s', id)
  {
    CommitAdds(env, s, c, proposal, journal, s');
    AddingKeepsHistory(env, s, s', Finalized(env, s.clients[c].loaded, proposal, journal).value, id);
  }

  lemma StepKeepsHistory(env: Env, s: System, step: Step, s': System, id: string)
    requires Inv(env, s) && Next(env, s, step, s') && id in s.store.revisions
    ensures HistoryKept(s, s', id)
  {
    if step.Ingest? {
      IngestKeepsHistory(env, s, step.packageId, step.document, step.extracted, step.profileId, s', id);
    } else if step.Commit? {
      CommitKeepsHistory(env, s, step.client, step.proposal, step.journal, s', id);
    } else {
      ReadsOnly(env, s, step, s');
      ReadKeepsHistory(s, s', id);
    }
  }

  /** The other steps leave the store alone. */
  lemma ReadsOnly(env: Env, s: System, step: Step, s': System)
    requires Next(env, s, step, s') && !step.Ingest? && !step.Commit?
    ensures s'.store == s.store && s'.origins == s.origins
  {
  }

  lemma ReadKeepsHistory(s: System, s': System, id: string)
    requires id in s.store.revisions && s'.store == s.store && s'.origins == s.origins
    ensures HistoryKept(s, s', id)
  {
  }

  lemma RunStepKeepsHistory(env: Env, states: seq<System>, steps: seq<Step>, n: nat, id: string)
    requires Run(env, states, steps) && n < |steps| && id in states[n].store.revisions
    ensures HistoryKept(states[n], states[n + 1], id)
  {
    RunKeepsInv(env, states, steps, n);
    StepKeepsHistory(env, states[n], steps[n], states[n + 1], id);
  }

  lemma {:induction false} HistoriesCompose(states: seq<System>, m: nat, n: nat, id: string)
    requires m <= n < |states| && id in states[m].store.revisions
    requires forall i :: m <= i < n && id in states[i].store.revisions ==> HistoryKept(states[i], states[i + 1], id)
    ensures HistoryKept(states[m], states[n], id)
    decreases n
  {
    if m < n {
      HistoriesCompose(states, m, n - 1, id);
      HistoryTransitive(states[m], states[n - 1], states[n], id);
    }
  }

  lemma RunKeepsHistory(env: Env, states: seq<System>, steps: seq<Step>, m: nat, n: nat, id: string)
    requires Run(env, states, steps) && m <= n < |states| && id in states[m].store.revisions
    ensures HistoryKept(states[m], states[n], id)
  {
    forall i | m <= i < n && id in states[i].store.revisions ensures HistoryKept(states[i], states[i + 1], id) {
      RunStepKeepsHistory(env, states, steps, i, id);
    }
    HistoriesCompose(states, m, n, id);
  }

  lemma HistoryTransitive(a: System, b: System, c: System, id: string)
    requires id in a.store.revisions && HistoryKept(a, b, id) && HistoryKept(b, c, id)
    ensures HistoryKept(a, c, id)
  {
    assert forall r :: r in a.store.revisions[id] ==> r in b.store.revisions[id];
  }

  /**
   Whole-run safety of one document: the same spans are protected as at ingest, the latest structure signature is
   rev-1's, and if the ingested spans were exact, each still reads its original text at its stored offsets in the
   latest text.
   */
  lemma ProtectedTextSurvives(env: Env, states: seq<System>, steps: seq<Step>, n: nat, id: string)
    requires Run(env, states, steps) && n < |states| && id in states[n].store.revisions
    ensures var st := states[n].store;
            && |st.revisions[id]| > 0 && id in st.spans && id in states[n].origins
            && (id, HeadOf(st, id).revisionId) in st.contents
            && HeadOf(st, id).structureSignature == st.revisions[id][0].structureSignature
            && Identities(st.spans[id]) == Identities(states[n].origins[id].rows)
            && |st.spans[id]| == |states[n].origins[id].rows| && RowsDisjoint(st.spans[id])
            && (RowsRead(states[n].origins[id].rows, states[n].origins[id].document.surfaceText)
                ==> RowsRead(st.spans[id], st.contents[(id, HeadOf(st, id).revisionId)].acceptedText))
  {
    RunKeepsInv(env, states, steps, n);
    assert DocumentInv(env, states[n], id) && ContentFits(env, states[n].store, HeadOf(states[n].store, id));
  }

  /** In every run a commit that goes through was computed from the state it replaces. */
  lemma NoTornReadIsCommitted(env: Env, states: seq<System>, steps: seq<Step>, n: nat)
    requires Run(env, states, steps) && n < |steps| && steps[n].Commit?
    ensures var s := states[n];
            var c := steps[n].client;
            && c in s.clients && s.clients[c].HasAll?
            && var loaded := s.clients[c].loaded;
               var id := loaded.revision.documentId;
               && id in s.store.revisions && |s.store.revisions[id]| > 0 && loaded.revision == HeadOf(s.store, id)
               && HoldsContent(s.store, loaded.revision, loaded.content) && loaded.spans == LoadSpans(s.store, id)
  {
    RunKeepsInv(env, states, steps, n);
    CommitSeesCurrentState(env, states[n], steps[n].client, steps[n].proposal, steps[n].journal, states[n + 1]);
  }
}
