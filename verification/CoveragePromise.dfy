/**
 When the transform keeps its promise that every change maps to an exactly represented editable node: it compares sets
 of change ids, so exactly when the changes have distinct ids.
 */
module CoveragePromise {
  import opened Wrappers
  import opened Decimals
  import opened LexicalChanges
  import opened LexicalApplication
  import opened Documents
  import opened RevisionTransform
  import opened RevisionAgreement

  /** What the transform asks of the proposal and the surface, whatever the nodes. */
  ghost predicate Acceptable(sha256: string -> string, surface: string, proposal: Proposal) {
    && proposal.schemaVersion == PROPOSAL_SCHEMA_VERSION && sha256(surface) == proposal.documentHash
    && NoLineBreaks(Sort(proposal.changes)) && Applicable(surface, Sort(proposal.changes))
  }

  /** Whenever the transform accepts a document with this surface, each change edits one of its nodes. */
  ghost predicate PromiseKept(sha256: string -> string, nfc: string -> string, surface: string, proposal: Proposal) {
    forall document: Document ::
      Parseable(document) && document.surfaceText == surface && Transformed(sha256, nfc, document, proposal).Ok?
      ==> forall c :: c in proposal.changes ==> EditsSome(c, document.nodes, surface)
  }

  // ----- A document in which one of two changes with the same id has no node -----

  function IdOf(n: nat): string { "n" + Decimal(n) }

  lemma IdsDiffer(m: nat, n: nat)
    requires m != n
    ensures IdOf(m) != IdOf(n)
  {
    if IdOf(m) == IdOf(n) {
      assert Decimal(m) == IdOf(m)[1..] && Decimal(n) == IdOf(n)[1..];
      DecimalInjective(m, n);
    }
  }

  function RootOf(surface: string): Node {
    Node(IdOf(0), None, DocumentRoot, 1, SourceLocation(0, |surface|, 1, 1), "", map[], None, [], [])
  }

  /** A paragraph that is exactly what the change replaces, or an empty one for the hidden change. */
  function NodeFor(c: Change, k: nat, hidden: Change): Node {
    Node(IdOf(k + 1), Some(IdOf(0)), Paragraph, k + 1, SourceLocation(c.offset, c.End(), 1, 1),
         if c == hidden then "" else c.sourceSurface, map[], None, [], [])
  }

  function NodesFor(surface: string, cs: seq<Change>, hidden: Change): (r: seq<Node>)
    ensures |r| == |cs| + 1 && r[0] == RootOf(surface)
    ensures forall k :: 0 < k < |r| ==> r[k] == NodeFor(cs[k - 1], k - 1, hidden)
  {
    seq(|cs| + 1, k requires 0 <= k <= |cs| => if k == 0 then RootOf(surface) else NodeFor(cs[k - 1], k - 1, hidden))
  }

  function Hiding(surface: string, cs: seq<Change>, hidden: Change): Document {
    Document(CANONICAL_DOCUMENT_SCHEMA_VERSION, "source", "", "", "", "", surface, "",
             NodesFor(surface, cs, hidden), [])
  }

  lemma HidingIsParseable(surface: string, cs: seq<Change>, hidden: Change)
    ensures Parseable(Hiding(surface, cs, hidden))
  {
    var nodes := NodesFor(surface, cs, hidden);
    forall i, j | 0 <= i < j < |nodes| ensures nodes[i].nodeId != nodes[j].nodeId {
      IdsDiffer(i, j);
    }
    forall k | 0 < k < |nodes| ensures nodes[k].parentId.Some? && HasNode(nodes, nodes[k].parentId.value) {
      assert nodes[0].nodeId == IdOf(0);
    }
  }

  lemma RootTakes(surface: string, cs: seq<Change>)
    requires Applicable(surface, cs)
    ensures NodeTakes(RootOf(surface), surface, cs) && StillReads(RootOf(surface), surface, cs)
  {
    forall i | 0 <= i < |cs| ensures 0 <= cs[i].offset && cs[i].End() <= |surface| {
      assert Fits(surface, cs[i]);
    }
  }

  lemma PairDisjoint(surface: string, cs: seq<Change>, i: nat, j: nat)
    requires Applicable(surface, cs) && i < |cs| && j < |cs| && i != j
    ensures cs[i].End() <= cs[j].offset || cs[j].End() <= cs[i].offset
    ensures cs[i].length > 0
  {
  }

  lemma NodeForTakes(surface: string, cs: seq<Change>, k: nat, hidden: Change)
    requires Applicable(surface, cs) && k < |cs|
    ensures NodeTakes(NodeFor(cs[k], k, hidden), surface, cs) && StillReads(NodeFor(cs[k], k, hidden), surface, cs)
    ensures cs[k] != hidden ==> EditsNode(cs[k], NodeFor(cs[k], k, hidden), surface)
  {
    var c := cs[k];
    assert Fits(surface, c) && c in cs && Overlaps(c.offset, c.End(), c);
    forall i: nat | i < |cs| ensures cs[i].End() <= c.offset || c.offset <= cs[i].offset
      ensures cs[i].End() <= c.End() || c.End() <= cs[i].offset
    {
      if i != k {
        PairDisjoint(surface, cs, k, i);
      }
    }
  }

  lemma HiddenIsNotEdited(surface: string, cs: seq<Change>, hidden: Change)
    requires Applicable(surface, cs) && hidden in cs
    ensures !EditsSome(hidden, NodesFor(surface, cs, hidden), surface)
  {
    var nodes := NodesFor(surface, cs, hidden);
    var j: nat :| j < |cs| && cs[j] == hidden;
    forall node | node in nodes ensures !EditsNode(hidden, node, surface) {
      var k := IndexedNode(surface, cs, hidden, node);
      if k > 0 && k - 1 != j {
        PairDisjoint(surface, cs, j, k - 1);
      }
    }
  }

  lemma IndexedNode(surface: string, cs: seq<Change>, hidden: Change, node: Node) returns (k: nat)
    requires node in NodesFor(surface, cs, hidden)
    ensures k <= |cs| && (k == 0 ==> node == RootOf(surface)) && (k > 0 ==> node == NodeFor(cs[k - 1], k - 1, hidden))
  {
    k :| 0 <= k <= |cs| && NodesFor(surface, cs, hidden)[k] == node;
  }

  lemma EachNodeTakes(surface: string, cs: seq<Change>, hidden: Change, node: Node)
    requires Applicable(surface, cs) && node in NodesFor(surface, cs, hidden)
    ensures NodeTakes(node, surface, cs) && StillReads(node, surface, cs)
  {
    var k := IndexedNode(surface, cs, hidden, node);
    if k == 0 {
      RootTakes(surface, cs);
    } else {
      NodeForTakes(surface, cs, k - 1, hidden);
    }
  }

  lemma NodeIsListed(surface: string, cs: seq<Change>, hidden: Change, k: nat)
    requires k < |cs|
    ensures NodeFor(cs[k], k, hidden) in NodesFor(surface, cs, hidden)
  {
    assert NodesFor(surface, cs, hidden)[k + 1] in NodesFor(surface, cs, hidden);
  }

  lemma ShownIsEdited(surface: string, cs: seq<Change>, hidden: Change, c: Change)
    requires Applicable(surface, cs) && c in cs && c != hidden
    ensures EditsSome(c, NodesFor(surface, cs, hidden), surface)
  {
    var k: nat :| k < |cs| && cs[k] == c;
    NodeForTakes(surface, cs, k, hidden);
    NodeIsListed(surface, cs, hidden, k);
  }

  lemma HidingTakesAll(surface: string, cs: seq<Change>, seen: Change, hidden: Change)
    requires Applicable(surface, cs) && seen in cs && seen != hidden && seen.changeId == hidden.changeId
    ensures var nodes := NodesFor(surface, cs, hidden);
            NodesTakeAll(nodes, surface, cs) && forall node :: node in nodes ==> StillReads(node, surface, cs)
  {
    forall node | node in NodesFor(surface, cs, hidden)
      ensures NodeTakes(node, surface, cs) && StillReads(node, surface, cs)
    {
      EachNodeTakes(surface, cs, hidden, node);
    }
    forall c | c in cs ensures Lands(c.changeId, NodesFor(surface, cs, hidden), surface, cs) {
      ShownIsEdited(surface, cs, hidden, if c == hidden then seen else c);
    }
  }

  /**
   Whenever two changes share an id there is a document that the transform accepts although one of them edits no node.
   */
  lemma SharedIdHidesAChange(sha256: string -> string, nfc: string -> string, surface: string, proposal: Proposal,
      seen: Change, hidden: Change)
    returns (document: Document)
    requires Acceptable(sha256, surface, proposal) && seen in proposal.changes && hidden in proposal.changes
    requires seen != hidden && seen.changeId == hidden.changeId
    ensures Parseable(document) && document.surfaceText == surface
    ensures Transformed(sha256, nfc, document, proposal).Ok? && !EditsSome(hidden, document.nodes, surface)
  {
    var cs := Sort(proposal.changes);
    SameElements(proposal.changes);
    document := Hiding(surface, cs, hidden);
    HidingIsParseable(surface, cs, hidden);
    HidingTakesAll(surface, cs, seen, hidden);
    HiddenIsNotEdited(surface, cs, hidden);
    TransformSucceedsIff(sha256, nfc, document, proposal);
  }

  /**
   For a proposal that the transform can accept, the promise is kept, over all documents with the surface, exactly when
   the changes have distinct ids.
   */
  lemma PromiseKeptIff(sha256: string -> string, nfc: string -> string, surface: string, proposal: Proposal)
    requires Acceptable(sha256, surface, proposal)
    ensures PromiseKept(sha256, nfc, surface, proposal) <==> DistinctChangeIds(proposal.changes)
  {
    if DistinctChangeIds(proposal.changes) {
      forall document: Document, c |
        document.surfaceText == surface && Transformed(sha256, nfc, document, proposal).Ok? && c in proposal.changes
        ensures EditsSome(c, document.nodes, surface)
      {
        EveryChangeEditsANode(sha256, nfc, document, proposal, c);
      }
    } else {
      var a, b :| a in proposal.changes && b in proposal.changes && a.changeId == b.changeId && a != b;
      var document := SharedIdHidesAChange(sha256, nfc, surface, proposal, a, b);
    }
  }

  /** Two such changes. */
  lemma SharedIdPair(sha256: string -> string, a: Change, b: Change, proposal: Proposal)
    requires a.offset == 0 && a.length == 2 && a.sourceSurface == "ab" && a.target == "x"
    requires b.offset == 3 && b.length == 2 && b.sourceSurface == "cd" && b.target == "y" && a.changeId == b.changeId
    requires proposal.changes == [a, b] && proposal.schemaVersion == PROPOSAL_SCHEMA_VERSION
    requires proposal.documentHash == sha256("ab cd")
    ensures Acceptable(sha256, "ab cd", proposal) && !DistinctChangeIds(proposal.changes)
  {
    TwoChangesFit(a, b);
    SortsAlike([a, b], [a, b]);
    assert a in [a, b] && b in [a, b];
  }

  lemma TwoChangesFit(a: Change, b: Change)
    requires a.offset == 0 && a.length == 2 && a.sourceSurface == "ab" && a.target == "x"
    requires b.offset == 3 && b.length == 2 && b.sourceSurface == "cd" && b.target == "y"
    ensures Applicable("ab cd", [a, b]) && NoLineBreaks([a, b])
  {
    assert "ab cd"[0..2] == "ab" && "ab cd"[3..5] == "cd";
    assert Fits("ab cd", a) && Fits("ab cd", b);
    TwoOrdered("ab cd", a, b);
  }

  lemma TwoOrdered(text: string, a: Change, b: Change)
    requires Fits(text, a) && Fits(text, b) && a.End() <= b.offset
    ensures Applicable(text, [a, b])
  {
  }
}
