/** Document revisions: each proposal records the token and id of the revision it was based on. */
module Revisions {
  import opened Wrappers
  import opened Decimals
  import opened StructureSignature

  // `Pending` is the source's "proposed".
  datatype RevisionStatus = Draft | Pending | Accepted | Rejected

  datatype Revision = Revision(
    revisionId: string, documentId: string, parentRevisionId: Option<string>, status: RevisionStatus, baseToken: int,
    token: int, structureSignature: Signature, acceptedTextSha256: string, createdNote: string)

  function RevisionId(token: int): string { "rev-" + if token < 0 then "-" + Decimal(-token) else Decimal(token) }

  lemma RevisionIdInjective(m: nat, n: nat)
    requires RevisionId(m) == RevisionId(n)
    ensures m == n
  {
    assert Decimal(m) == RevisionId(m)[4..] && Decimal(n) == RevisionId(n)[4..];
    DecimalInjective(m, n);
  }

  function CreateInitialRevision(documentId: string, signature: Signature, sha: string): Revision {
    Revision("rev-1", documentId, None, Accepted, 0, 1, signature, sha, "")
  }

  function ProposeNextRevision(current: Revision, signature: Signature, sha: string, note: string): Revision {
    Revision(RevisionId(current.token + 1), current.documentId, Some(current.revisionId), Pending,
             current.token, current.token + 1, signature, sha, note)
  }

  function AcceptRevision(proposed: Revision, expectedCurrent: Revision): Result<Revision> {
    if expectedCurrent.token != proposed.baseToken then Err(RevisionConflict)
    else if Some(expectedCurrent.revisionId) != proposed.parentRevisionId then Err(RevisionConflict)
    else Ok(proposed.(status := Accepted))
  }

  /** Accepted revisions of one document: rev-1, rev-2, ..., each based on and child of the one before it. */
  ghost predicate Chain(documentId: string, rs: seq<Revision>) {
    && |rs| > 0
    && forall i :: 0 <= i < |rs| ==>
         && rs[i].documentId == documentId && rs[i].status == Accepted
         && rs[i].token == i + 1 && rs[i].baseToken == i && rs[i].revisionId == RevisionId(i + 1)
         && rs[i].parentRevisionId == if i == 0 then None else Some(RevisionId(i))
  }

  lemma InitialIsChain(documentId: string, signature: Signature, sha: string)
    ensures Chain(documentId, [CreateInitialRevision(documentId, signature, sha)])
  {
    assert Decimal(1) == "1";
  }

  /** Proposing on the head of a chain and accepting against it never conflicts and extends the chain. */
  lemma AcceptedExtendsChain(documentId: string, rs: seq<Revision>, signature: Signature, sha: string, note: string)
    requires Chain(documentId, rs)
    ensures var head := rs[|rs| - 1];
            var accepted := AcceptRevision(ProposeNextRevision(head, signature, sha, note), head);
            accepted.Ok? && Chain(documentId, rs + [accepted.value])
  {
    var head := rs[|rs| - 1];
    NextExtendsChain(documentId, rs, AcceptRevision(ProposeNextRevision(head, signature, sha, note), head).value);
  }

  lemma NextExtendsChain(documentId: string, rs: seq<Revision>, r: Revision)
    requires Chain(documentId, rs) && r.documentId == documentId && r.status == Accepted
    requires r.token == |rs| + 1 && r.baseToken == |rs| && r.revisionId == RevisionId(|rs| + 1)
    requires r.parentRevisionId == Some(rs[|rs| - 1].revisionId)
    ensures Chain(documentId, rs + [r])
  {
  }

  /** No two accepted revisions of a chain share a base, a token or an id. */
  lemma ChainHasDistinctBases(documentId: string, rs: seq<Revision>, i: nat, j: nat)
    requires Chain(documentId, rs) && i < j < |rs|
    ensures rs[i].baseToken != rs[j].baseToken && rs[i].revisionId != rs[j].revisionId
    ensures rs[i].parentRevisionId != rs[j].parentRevisionId
  {
    if rs[i].revisionId == rs[j].revisionId {
      RevisionIdInjective(i + 1, j + 1);
    }
    if RevisionId(i) == RevisionId(j) {
      RevisionIdInjective(i, j);
    }
  }

  /** The parent of every revision but the first is the one before it. */
  lemma ChainLinks(documentId: string, rs: seq<Revision>, i: nat)
    requires Chain(documentId, rs) && 0 < i < |rs|
    ensures rs[i].parentRevisionId == Some(rs[i - 1].revisionId)
  {
  }

  /** Each revision but the first is the child of the one before, and no two share a base or a parent. */
  ghost predicate Linked(rs: seq<Revision>) {
    && (forall i :: 0 < i < |rs| ==> rs[i].parentRevisionId == Some(rs[i - 1].revisionId))
    && (forall i, j :: 0 <= i < j < |rs| ==>
          rs[i].baseToken != rs[j].baseToken && rs[i].parentRevisionId != rs[j].parentRevisionId)
  }

  lemma ChainIsLinked(documentId: string, rs: seq<Revision>)
    requires Chain(documentId, rs)
    ensures Linked(rs)
  {
    forall i | 0 < i < |rs| ensures rs[i].parentRevisionId == Some(rs[i - 1].revisionId) {
      ChainLinks(documentId, rs, i);
    }
    forall i, j | 0 <= i < j < |rs|
      ensures rs[i].baseToken != rs[j].baseToken && rs[i].parentRevisionId != rs[j].parentRevisionId
    {
      ChainHasDistinctBases(documentId, rs, i, j);
    }
  }
}
