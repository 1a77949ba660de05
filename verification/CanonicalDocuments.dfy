/** Building canonical documents: pre-order flattening of a builder tree, its inverse, and the depth measurement. */
module CanonicalDocuments {
  import opened Wrappers
  import opened Sequences
  import opened Decimals
  import opened Documents

  datatype Builder = Builder(
    nodeType: NodeType, text: string, attributes: Option<map<string, string>>, location: Option<SourceLocation>,
    authorshipClass: Option<string>, protectedSpanRefs: seq<string>, findingCodes: seq<string>, children: seq<Builder>)

  function NodeId(n: nat): string { "n" + Decimal(n) }

  lemma NodeIdInjective(m: nat, n: nat)
    requires NodeId(m) == NodeId(n)
    ensures m == n
  {
    assert Decimal(m) == NodeId(m)[1..] && Decimal(n) == NodeId(n)[1..];
    DecimalInjective(m, n);
  }

  function AttributesOf(b: Builder): map<string, string> { if b.attributes.Some? then b.attributes.value else map[] }

  function LocationOf(b: Builder): SourceLocation {
    if b.location.Some? then b.location.value else SourceLocation(0, 0, 1, 1)
  }

  function WrapOne(b: Builder, parentId: Option<string>, position: int, id: string): Node {
    Node(id, parentId, b.nodeType, position, LocationOf(b), b.text, AttributesOf(b), b.authorshipClass,
         b.protectedSpanRefs, b.findingCodes)
  }

  function Size(b: Builder): nat
    decreases b, 1
  {
    1 + SizeAll(b.children)
  }

  function SizeAll(bs: seq<Builder>): nat
    decreases bs, 0
  {
    if |bs| == 0 then 0 else Size(bs[0]) + SizeAll(bs[1..])
  }

  /** The nodes of a tree in pre-order, numbered from `first`. */
  function Wrap(b: Builder, parentId: Option<string>, position: int, first: nat): seq<Node>
    decreases b, 1
  {
    [WrapOne(b, parentId, position, NodeId(first))] + WrapAll(b.children, NodeId(first), 1, first + 1)
  }

  function WrapAll(bs: seq<Builder>, parentId: string, position: int, first: nat): seq<Node>
    decreases bs, 0
  {
    if |bs| == 0 then []
    else Wrap(bs[0], Some(parentId), position, first) + WrapAll(bs[1..], parentId, position + 1, first + Size(bs[0]))
  }

  /** The loop over the children has `nodes` so far, the next child being number `i` and the next node `next`. */
  ghost predicate WrapsTo(nodes: seq<Node>, bs: seq<Builder>, i: nat, parentId: string, next: nat, goal: seq<Node>,
      end: nat)
  {
    i <= |bs| && nodes + WrapAll(bs[i..], parentId, i + 1, next) == goal && next + SizeAll(bs[i..]) == end
  }

  lemma WrapsStart(b: Builder, parentId: Option<string>, position: int, first: nat)
    ensures WrapsTo([WrapOne(b, parentId, position, NodeId(first))], b.children, 0, NodeId(first), first + 1,
                    Wrap(b, parentId, position, first), first + Size(b))
  {
    assert b.children[0..] == b.children;
  }

  lemma WrapsStep(nodes: seq<Node>, bs: seq<Builder>, i: nat, parentId: string, next: nat, goal: seq<Node>, end: nat)
    requires i < |bs| && WrapsTo(nodes, bs, i, parentId, next, goal, end)
    ensures WrapsTo(nodes + Wrap(bs[i], Some(parentId), i + 1, next), bs, i + 1, parentId, next + Size(bs[i]), goal,
                    end)
  {
    DropStep(bs, i);
    Associate(nodes, Wrap(bs[i], Some(parentId), i + 1, next),
              WrapAll(bs[i + 1..], parentId, i + 2, next + Size(bs[i])));
  }

  lemma WrapsEnd(nodes: seq<Node>, bs: seq<Builder>, parentId: string, next: nat, goal: seq<Node>, end: nat)
    requires WrapsTo(nodes, bs, |bs|, parentId, next, goal, end)
    ensures nodes == goal && next == end
  {
    AppendEmpty(nodes);
  }

  method WrapNodes(b: Builder, parentId: Option<string>, position: int, idCounter: array<nat>)
    returns (nodes: seq<Node>)
    requires idCounter.Length == 1
    modifies idCounter
    ensures nodes == Wrap(b, parentId, position, old(idCounter[0]) + 1)
    ensures idCounter[0] == old(idCounter[0]) + Size(b)
    decreases b
  {
    idCounter[0] := idCounter[0] + 1;
    var nodeId := "n" + Decimal(idCounter[0]);
    nodes := [WrapOne(b, parentId, position, nodeId)];
    WrapsStart(b, parentId, position, idCounter[0]);
    ghost var goal, end := Wrap(b, parentId, position, idCounter[0]), idCounter[0] + Size(b);
    for index := 0 to |b.children|
      invariant WrapsTo(nodes, b.children, index, nodeId, idCounter[0] + 1, goal, end)
    {
      WrapsStep(nodes, b.children, index, nodeId, idCounter[0] + 1, goal, end);
      var wrapped := WrapNodes(b.children[index], Some(nodeId), index + 1, idCounter);
      nodes := nodes + wrapped;
    }
    WrapsEnd(nodes, b.children, nodeId, idCounter[0] + 1, goal, end);
  }

  /** `build_document` up to the fields that are copied: a DOCUMENT root within the policy's node limit. */
  method BuildNodes(root: Builder, maxNodes: int) returns (r: Result<seq<Node>>)
    ensures r == if !root.nodeType.DocumentRoot? then Err(NotADocumentRoot)
                 else if Size(root) > maxNodes then Err(TooManyNodes)
                 else Ok(Wrap(root, None, 1, 1))
  {
    if !root.nodeType.DocumentRoot? {
      return Err(NotADocumentRoot);
    }
    var idCounter := new nat[1](_ => 0);
    var nodes := WrapNodes(root, None, 1, idCounter);
    WrapSize(root, None, 1, 1);
    if |nodes| > maxNodes {
      return Err(TooManyNodes);
    }
    return Ok(nodes);
  }

  lemma {:induction false} WrapSize(b: Builder, parentId: Option<string>, position: int, first: nat)
    ensures |Wrap(b, parentId, position, first)| == Size(b)
    decreases b, 1
  {
    WrapAllSize(b.children, NodeId(first), 1, first + 1);
  }

  lemma {:induction false} WrapAllSize(bs: seq<Builder>, parentId: string, position: int, first: nat)
    ensures |WrapAll(bs, parentId, position, first)| == SizeAll(bs)
    decreases bs, 0
  {
    if |bs| > 0 {
      WrapSize(bs[0], Some(parentId), position, first);
      WrapAllSize(bs[1..], parentId, position + 1, first + Size(bs[0]));
    }
  }

  // ----- Ids are the pre-order numbers -----

  /** The node of a builder: its own fields, no attributes and the first line's start where it gives none. */
  lemma WrappedNodeReads(b: Builder, parentId: Option<string>, position: int, first: nat)
    ensures var node := Wrap(b, parentId, position, first)[0];
            && node.nodeId == NodeId(first) && node.parentId == parentId && node.position == position
            && node.nodeType == b.nodeType && node.text == b.text && node.authorshipClass == b.authorshipClass
            && node.protectedSpanRefs == b.protectedSpanRefs && node.findingCodes == b.findingCodes
            && (if b.location.Some? then node.location == b.location.value
                else node.location == SourceLocation(0, 0, 1, 1))
            && (if b.attributes.Some? then node.attributes == b.attributes.value else node.attributes == map[])
  {
  }

  ghost predicate NumberedFrom(nodes: seq<Node>, first: nat) {
    forall k :: 0 <= k < |nodes| ==> nodes[k].nodeId == NodeId(first + k)
  }

  lemma NumberedBoth(a: seq<Node>, b: seq<Node>, first: nat)
    requires NumberedFrom(a, first) && NumberedFrom(b, first + |a|)
    ensures NumberedFrom(a + b, first)
  {
    forall k: nat | k < |a + b| ensures (a + b)[k].nodeId == NodeId(first + k) {
      if k >= |a| {
        assert b[k - |a|].nodeId == NodeId(first + |a| + (k - |a|));
      }
    }
  }

  lemma {:induction false} WrapNumbers(b: Builder, parentId: Option<string>, position: int, first: nat)
    ensures NumberedFrom(Wrap(b, parentId, position, first), first)
    decreases b, 1
  {
    WrapAllNumbers(b.children, NodeId(first), 1, first + 1);
    NumberedBoth([WrapOne(b, parentId, position, NodeId(first))], WrapAll(b.children, NodeId(first), 1, first + 1),
                 first);
  }

  lemma {:induction false} WrapAllNumbers(bs: seq<Builder>, parentId: string, position: int, first: nat)
    ensures NumberedFrom(WrapAll(bs, parentId, position, first), first)
    decreases bs, 0
  {
    if |bs| > 0 {
      WrapNumbers(bs[0], Some(parentId), position, first);
      WrapSize(bs[0], Some(parentId), position, first);
      WrapAllNumbers(bs[1..], parentId, position + 1, first + Size(bs[0]));
      NumberedBoth(Wrap(bs[0], Some(parentId), position, first),
                   WrapAll(bs[1..], parentId, position + 1, first + Size(bs[0])), first);
    }
  }

  // ----- The inverse: reading the tree back from the list -----

  /** The tree whose root is the first node, and the nodes after it. */
  function ReadTree(nodes: seq<Node>): (r: (Builder, seq<Node>))
    requires |nodes| > 0
    ensures |r.1| < |nodes|
    decreases |nodes|, 0
  {
    var n := nodes[0];
    var (children, rest) := ReadForest(nodes[1..], n.nodeId, 1);
    (Builder(n.nodeType, n.text, Some(n.attributes), Some(n.location), n.authorshipClass, n.protectedSpanRefs,
             n.findingCodes, children), rest)
  }

  /** The leading trees whose roots are the children of `parentId` from `position` on, and the nodes after them. */
  function ReadForest(nodes: seq<Node>, parentId: string, position: int): (r: (seq<Builder>, seq<Node>))
    ensures |r.1| <= |nodes|
    decreases |nodes|, 1
  {
    if |nodes| > 0 && nodes[0].parentId == Some(parentId) && nodes[0].position == position then
      var (tree, next) := ReadTree(nodes);
      var (trees, rest) := ReadForest(next, parentId, position + 1);
      ([tree] + trees, rest)
    else ([], nodes)
  }

  /** Wrapping makes absent attributes and locations explicit; otherwise the tree is kept. */
  function Explicit(b: Builder): Builder
    decreases b, 1
  {
    b.(attributes := Some(AttributesOf(b)), location := Some(LocationOf(b)), children := ExplicitAll(b.children))
  }

  function ExplicitAll(bs: seq<Builder>): seq<Builder>
    decreases bs, 0
  {
    if |bs| == 0 then [] else [Explicit(bs[0])] + ExplicitAll(bs[1..])
  }

  function IdOf(n: nat): Option<string> { if n == 0 then None else Some(NodeId(n)) }

  /** The first node, if there is one, belongs under a node numbered below `lo`. */
  ghost predicate Elsewhere(nodes: seq<Node>, lo: nat) {
    |nodes| > 0 ==> exists m: nat :: m < lo && nodes[0].parentId == IdOf(m)
  }

  lemma NotAChild(nodes: seq<Node>, parent: nat)
    requires |nodes| > 0 && Elsewhere(nodes, parent)
    ensures nodes[0].parentId != Some(NodeId(parent))
  {
    var m: nat :| m < parent && nodes[0].parentId == IdOf(m);
    if m > 0 && NodeId(m) == NodeId(parent) {
      NodeIdInjective(m, parent);
    }
  }

  lemma {:induction false} ReadWrapped(b: Builder, parentId: Option<string>, position: int, first: nat, post: seq<Node>)
    requires first > 0 && Elsewhere(post, first)
    ensures ReadTree(Wrap(b, parentId, position, first) + post) == (Explicit(b), post)
    decreases b, 1
  {
    var root, below := WrapOne(b, parentId, position, NodeId(first)), WrapAll(b.children, NodeId(first), 1, first + 1);
    Associate([root], below, post);
    ConcatTail([root], below + post);
    PrependEmpty(below + post);
    ReadWrappedAll(b.children, first, 1, first + 1, post);
  }

  lemma {:induction false} ReadWrappedAll(bs: seq<Builder>, parent: nat, position: int, first: nat, post: seq<Node>)
    requires 0 < parent < first && Elsewhere(post, parent)
    ensures ReadForest(WrapAll(bs, NodeId(parent), position, first) + post, NodeId(parent), position)
            == (ExplicitAll(bs), post)
    decreases bs, 0
  {
    if |bs| == 0 {
      PrependEmpty(post);
      if |post| > 0 {
        NotAChild(post, parent);
      }
    } else {
      var head := Wrap(bs[0], Some(NodeId(parent)), position, first);
      var tail := WrapAll(bs[1..], NodeId(parent), position + 1, first + Size(bs[0]));
      SiblingIsElsewhere(bs[1..], parent, position + 1, first + Size(bs[0]), post, first);
      ReadWrapped(bs[0], Some(NodeId(parent)), position, first, tail + post);
      ReadWrappedAll(bs[1..], parent, position + 1, first + Size(bs[0]), post);
      Associate(head, tail, post);
      ConcatTail(head, tail + post);
    }
  }

  /** After a subtree comes a sibling, or whatever comes after the whole forest. */
  lemma SiblingIsElsewhere(bs: seq<Builder>, parent: nat, position: int, next: nat, post: seq<Node>, first: nat)
    requires 0 < parent < first && Elsewhere(post, parent)
    ensures Elsewhere(WrapAll(bs, NodeId(parent), position, next) + post, first)
  {
    if |bs| > 0 {
      assert WrapAll(bs, NodeId(parent), position, next)[0] == Wrap(bs[0], Some(NodeId(parent)), position, next)[0];
      assert (WrapAll(bs, NodeId(parent), position, next) + post)[0].parentId == IdOf(parent);
    } else {
      assert [] + post == post;
    }
  }

  /**
   Flattening is invertible: the tree, with its defaults made explicit, is read back from the node list.  The reader
   takes the parent ids and positions at their word, so ids are the pre-order numbers and positions the ranks among
   siblings.
   */
  lemma WrapIsInvertible(b: Builder)
    ensures var nodes := Wrap(b, None, 1, 1);
            |nodes| == Size(b) && NumberedFrom(nodes, 1) && ReadTree(nodes) == (Explicit(b), [])
  {
    WrapSize(b, None, 1, 1);
    WrapNumbers(b, None, 1, 1);
    ReadWrapped(b, None, 1, 1, []);
    assert Wrap(b, None, 1, 1) + [] == Wrap(b, None, 1, 1);
  }

  // ----- measure_document -----

  /** Per node in pre-order: the number of its parent (0 for none) and its depth. */
  datatype Place = Place(parent: nat, depth: nat)

  ghost function Places(b: Builder, parent: nat, first: nat, depth: nat): seq<Place>
    decreases b, 1
  {
    [Place(parent, depth)] + PlacesAll(b.children, first, first + 1, depth + 1)
  }

  ghost function PlacesAll(bs: seq<Builder>, parent: nat, first: nat, depth: nat): seq<Place>
    decreases bs, 0
  {
    if |bs| == 0 then []
    else Places(bs[0], parent, first, depth) + PlacesAll(bs[1..], parent, first + Size(bs[0]), depth)
  }

  function Max(a: nat, b: nat): nat { if a < b then b else a }

  function Height(b: Builder): nat
    decreases b, 1
  {
    1 + HeightAll(b.children)
  }

  function HeightAll(bs: seq<Builder>): nat
    decreases bs, 0
  {
    if |bs| == 0 then 0 else Max(Height(bs[0]), HeightAll(bs[1..]))
  }

  ghost function Deepest(ps: seq<Place>): nat {
    if |ps| == 0 then 0 else Max(ps[0].depth, Deepest(ps[1..]))
  }

  /** A place below `parent` at `depth`, or below an earlier node of the list, one deeper. */
  ghost predicate Placed(ps: seq<Place>, k: nat, parent: nat, first: nat, depth: nat)
    requires k < |ps|
  {
    || (ps[k].parent == parent && ps[k].depth == depth)
    || (first <= ps[k].parent < first + k && ps[k].depth == ps[ps[k].parent - first].depth + 1)
  }

  ghost predicate AllPlaced(ps: seq<Place>, parent: nat, first: nat, depth: nat) {
    forall k: nat :: k < |ps| ==> Placed(ps, k, parent, first, depth)
  }

  lemma PlacedBelowRoot(root: Place, below: seq<Place>, parent: nat, first: nat, depth: nat)
    requires root == Place(parent, depth) && AllPlaced(below, first, first + 1, depth + 1)
    ensures forall k: nat :: 0 < k <= |below| ==>
              first <= ([root] + below)[k].parent < first + k
              && ([root] + below)[k].depth == ([root] + below)[([root] + below)[k].parent - first].depth + 1
  {
    var all := [root] + below;
    forall k: nat | 0 < k <= |below|
      ensures first <= all[k].parent < first + k && all[k].depth == all[all[k].parent - first].depth + 1
    {
      assert all[k] == below[k - 1] && Placed(below, k - 1, first, first + 1, depth + 1);
    }
  }

  lemma PlacedSideBySide(a: seq<Place>, b: seq<Place>, parent: nat, first: nat, depth: nat)
    requires AllPlaced(a, parent, first, depth) && AllPlaced(b, parent, first + |a|, depth)
    ensures AllPlaced(a + b, parent, first, depth)
  {
    forall k: nat | k < |a + b| ensures Placed(a + b, k, parent, first, depth) {
      if k < |a| {
        assert Placed(a, k, parent, first, depth);
      } else {
        assert Placed(b, k - |a|, parent, first + |a|, depth);
      }
    }
  }

  lemma {:induction false} TreePlaced(b: Builder, parent: nat, first: nat, depth: nat)
    ensures |Places(b, parent, first, depth)| == Size(b)
            && AllPlaced(Places(b, parent, first, depth), parent, first, depth)
    decreases b, 1
  {
    ForestPlaced(b.children, first, first + 1, depth + 1);
    PlacedBelowRoot(Place(parent, depth), PlacesAll(b.children, first, first + 1, depth + 1), parent, first, depth);
  }

  lemma {:induction false} ForestPlaced(bs: seq<Builder>, parent: nat, first: nat, depth: nat)
    ensures |PlacesAll(bs, parent, first, depth)| == SizeAll(bs)
            && AllPlaced(PlacesAll(bs, parent, first, depth), parent, first, depth)
    decreases bs, 0
  {
    if |bs| > 0 {
      TreePlaced(bs[0], parent, first, depth);
      ForestPlaced(bs[1..], parent, first + Size(bs[0]), depth);
      PlacedSideBySide(Places(bs[0], parent, first, depth), PlacesAll(bs[1..], parent, first + Size(bs[0]), depth),
                       parent, first, depth);
    }
  }

  lemma {:induction false} DeepestOfBoth(a: seq<Place>, b: seq<Place>)
    ensures Deepest(a + b) == Max(Deepest(a), Deepest(b))
  {
    if |a| > 0 {
      DeepestOfBoth(a[1..], b);
      assert (a + b)[1..] == a[1..] + b;
    } else {
      assert a + b == b;
    }
  }

  lemma {:induction false} TreeDeepest(b: Builder, parent: nat, first: nat, depth: nat)
    ensures Deepest(Places(b, parent, first, depth)) == depth - 1 + Height(b) || depth == 0
    ensures depth > 0 ==> Deepest(Places(b, parent, first, depth)) >= depth
    decreases b, 1
  {
    if depth > 0 {
      var below := PlacesAll(b.children, first, first + 1, depth + 1);
      ForestDeepest(b.children, first, first + 1, depth + 1);
      assert ([Place(parent, depth)] + below)[1..] == below;
    }
  }

  lemma {:induction false} ForestDeepest(bs: seq<Builder>, parent: nat, first: nat, depth: nat)
    requires depth > 0
    ensures Deepest(PlacesAll(bs, parent, first, depth)) == if |bs| == 0 then 0 else depth - 1 + HeightAll(bs)
    decreases bs, 0
  {
    if |bs| > 0 {
      TreeDeepest(bs[0], parent, first, depth);
      ForestDeepest(bs[1..], parent, first + Size(bs[0]), depth);
      DeepestOfBoth(Places(bs[0], parent, first, depth), PlacesAll(bs[1..], parent, first + Size(bs[0]), depth));
    }
  }

  /** The node list records exactly the places of the tree. */
  ghost predicate Records(nodes: seq<Node>, ps: seq<Place>) {
    |nodes| == |ps| && forall k :: 0 <= k < |ps| ==> nodes[k].parentId == IdOf(ps[k].parent)
  }

  lemma {:induction false} TreeRecords(b: Builder, parent: nat, position: int, first: nat, depth: nat)
    requires first > 0
    ensures Records(Wrap(b, IdOf(parent), position, first), Places(b, parent, first, depth))
    decreases b, 1
  {
    ForestRecords(b.children, first, 1, first + 1, depth + 1);
  }

  lemma {:induction false} ForestRecords(bs: seq<Builder>, parent: nat, position: int, first: nat, depth: nat)
    requires first > 0 && parent > 0
    ensures Records(WrapAll(bs, NodeId(parent), position, first), PlacesAll(bs, parent, first, depth))
    decreases bs, 0
  {
    if |bs| > 0 {
      TreeRecords(bs[0], parent, position, first, depth);
      ForestRecords(bs[1..], parent, position + 1, first + Size(bs[0]), depth);
      RecordsConcat(Wrap(bs[0], IdOf(parent), position, first), Places(bs[0], parent, first, depth),
                    WrapAll(bs[1..], NodeId(parent), position + 1, first + Size(bs[0])),
                    PlacesAll(bs[1..], parent, first + Size(bs[0]), depth));
    }
  }

  lemma RecordsConcat(a: seq<Node>, p: seq<Place>, b: seq<Node>, q: seq<Place>)
    requires Records(a, p) && Records(b, q)
    ensures Records(a + b, p + q)
  {
  }

  /** The dictionary of parents by id, as `measure_document` builds it. */
  function ParentById(nodes: seq<Node>): map<string, Option<string>> {
    if |nodes| == 0 then map[]
      else ParentById(nodes[..|nodes| - 1])[nodes[|nodes| - 1].nodeId := nodes[|nodes| - 1].parentId]
  }

  lemma {:induction false} ParentByIdLooksUp(nodes: seq<Node>, k: nat)
    requires NumberedFrom(nodes, 1) && k < |nodes|
    ensures NodeId(k + 1) in ParentById(nodes) && ParentById(nodes)[NodeId(k + 1)] == nodes[k].parentId
    decreases |nodes|
  {
    var n := |nodes| - 1;
    if k < n {
      ParentByIdLooksUp(nodes[..n], k);
      if NodeId(k + 1) == NodeId(n + 1) {
        NodeIdInjective(k + 1, n + 1);
      }
    }
  }

  /** In the list every node but the root comes after its parent. */
  lemma ParentsComeFirst(b: Builder, k: nat)
    requires k < |Wrap(b, None, 1, 1)|
    ensures var nodes := Wrap(b, None, 1, 1);
            if k == 0 then nodes[k].parentId == None
            else exists j: nat :: j < k && nodes[k].parentId == Some(nodes[j].nodeId)
  {
    var nodes, ps := Wrap(b, None, 1, 1), Places(b, 0, 1, 1);
    TreeRecords(b, 0, 1, 1, 1);
    TreePlaced(b, 0, 1, 1);
    WrapNumbers(b, None, 1, 1);
    assert nodes[k].parentId == IdOf(ps[k].parent);
    if k > 0 {
      ForestPlaced(b.children, 1, 2, 2);
      PlacedBelowRoot(Place(0, 1), PlacesAll(b.children, 1, 2, 2), 0, 1, 1);
      var j: nat := ps[k].parent - 1;
      assert nodes[j].nodeId == NodeId(1 + j);
    }
  }

  lemma IdsDiffer(nodes: seq<Node>, first: nat)
    requires NumberedFrom(nodes, first)
    ensures forall i, j :: 0 <= i < j < |nodes| ==> nodes[i].nodeId != nodes[j].nodeId
  {
    forall i, j | 0 <= i < j < |nodes| ensures nodes[i].nodeId != nodes[j].nodeId {
      if nodes[i].nodeId == nodes[j].nodeId {
        NodeIdInjective(first + i, first + j);
      }
    }
  }

  /** Whatever is built from a document root is accepted by the parser, so by the store. */
  lemma BuiltDocumentParses(root: Builder, document: Document)
    requires root.nodeType.DocumentRoot? && document.nodes == Wrap(root, None, 1, 1)
    requires document.schemaVersion == CANONICAL_DOCUMENT_SCHEMA_VERSION
    ensures Parseable(document)
  {
    var nodes := document.nodes;
    WrapIsInvertible(root);
    IdsDiffer(nodes, 1);
    forall k | 0 < k < |nodes| ensures nodes[k].parentId.Some? && HasNode(nodes, nodes[k].parentId.value) {
      ParentsComeFirst(root, k);
    }
    ParentsComeFirst(root, 0);
    WrappedNodeReads(root, None, 1, 1);
  }

  function Above(parents: map<string, Option<string>>, id: string): Option<string> {
    if id in parents then parents[id] else None
  }

  /** The walk up the parents from `p` ends after `n` nodes; an id that names no node ends it too. */
  ghost predicate WalkEndsAfter(parents: map<string, Option<string>>, p: Option<string>, n: nat)
    decreases n
  {
    if p.None? then n == 0 else n > 0 && WalkEndsAfter(parents, Above(parents, p.value), n - 1)
  }

  ghost predicate WalkEnds(parents: map<string, Option<string>>, p: Option<string>) {
    exists n: nat :: WalkEndsAfter(parents, p, n)
  }

  lemma {:induction false} WalkIsUnique(parents: map<string, Option<string>>, p: Option<string>, m: nat, n: nat)
    requires WalkEndsAfter(parents, p, m) && WalkEndsAfter(parents, p, n)
    ensures m == n
    decreases n
  {
    if p.Some? {
      WalkIsUnique(parents, Above(parents, p.value), m - 1, n - 1);
    }
  }

  /** One more than the length of the longest walk from a node to the end of its parents; 0 without nodes. */
  ghost predicate IsDepth(nodes: seq<Node>, depth: nat) {
    var parents := ParentById(nodes);
    && (nodes == [] ==> depth == 0)
    && (forall k, n: nat :: 0 <= k < |nodes| && WalkEndsAfter(parents, nodes[k].parentId, n) ==> n < depth)
    && (depth > 0 ==> exists k :: 0 <= k < |nodes| && WalkEndsAfter(parents, nodes[k].parentId, depth - 1))
  }

  /** The deepest parent chain of any list whose walks end; with a parent cycle the source does not end either. */
  method MeasureDepth(nodes: seq<Node>) returns (depth: nat)
    requires forall node :: node in nodes ==> WalkEnds(ParentById(nodes), node.parentId)
    ensures IsDepth(nodes, depth)
  {
    var parentById := ParentById(nodes);
    depth := 0;
    for i := 0 to |nodes|
      invariant i > 0 ==> depth > 0
      invariant forall k, n: nat :: 0 <= k < i && WalkEndsAfter(parentById, nodes[k].parentId, n) ==> n < depth
      invariant depth > 0 ==> exists k :: 0 <= k < i && WalkEndsAfter(parentById, nodes[k].parentId, depth - 1)
    {
      var chain := ChainLength(parentById, nodes[i].parentId);
      forall n: nat | WalkEndsAfter(parentById, nodes[i].parentId, n) ensures n < chain {
        WalkIsUnique(parentById, nodes[i].parentId, n, chain - 1);
      }
      depth := if depth < chain then chain else depth;
    }
  }

  /** The inner loop: the length of one node's chain of parents, itself included. */
  method ChainLength(parentById: map<string, Option<string>>, start: Option<string>) returns (chain: nat)
    requires WalkEnds(parentById, start)
    ensures chain > 0 && WalkEndsAfter(parentById, start, chain - 1)
  {
    ghost var total: nat :| WalkEndsAfter(parentById, start, total);
    ghost var left := total;
    chain := 1;
    var parentId := start;
    while parentId != None
      invariant WalkEndsAfter(parentById, parentId, left) && chain + left == 1 + total
      decreases left
    {
      chain := chain + 1;
      parentId := if parentId.value in parentById then parentById[parentId.value] else None;
      left := left - 1;
    }
  }

  /** A root, or a node whose parent is an earlier one, one level up. */
  lemma PlacedUp(nodes: seq<Node>, ps: seq<Place>, k: nat)
    requires Records(nodes, ps) && AllPlaced(ps, 0, 1, 1) && k < |nodes|
    ensures var up := ps[k].parent;
            if up == 0 then ps[k].depth == 1 && nodes[k].parentId == None
            else up <= k && ps[k].depth == ps[up - 1].depth + 1 && nodes[k].parentId == Some(NodeId(up))
  {
    assert Placed(ps, k, 0, 1, 1);
  }

  /** In a flattened tree the walk from a node ends after as many nodes as it has ancestors. */
  lemma {:induction false} WrappedWalkEnds(nodes: seq<Node>, ps: seq<Place>, k: nat)
    requires NumberedFrom(nodes, 1) && Records(nodes, ps) && AllPlaced(ps, 0, 1, 1) && k < |nodes|
    ensures ps[k].depth > 0 && WalkEndsAfter(ParentById(nodes), nodes[k].parentId, ps[k].depth - 1)
    decreases k
  {
    PlacedUp(nodes, ps, k);
    if ps[k].parent > 0 {
      ParentByIdLooksUp(nodes, ps[k].parent - 1);
      WrappedWalkEnds(nodes, ps, ps[k].parent - 1);
    }
  }

  lemma {:induction false} DeepestIsReached(ps: seq<Place>)
    ensures forall k :: 0 <= k < |ps| ==> ps[k].depth <= Deepest(ps)
    ensures Deepest(ps) > 0 ==> exists k :: 0 <= k < |ps| && ps[k].depth == Deepest(ps)
  {
    if |ps| > 0 {
      DeepestIsReached(ps[1..]);
      assert forall k :: 0 < k < |ps| ==> ps[k] == ps[1..][k - 1];
      if Deepest(ps) > 0 && Deepest(ps) != ps[0].depth {
        var k :| 0 <= k < |ps[1..]| && ps[1..][k].depth == Deepest(ps);
        assert ps[k + 1].depth == Deepest(ps);
      }
    }
  }

  /** On a flattened tree every walk ends, and the measured depth is the height of the tree. */
  lemma WrappedDepthIsHeight(root: Builder, depth: nat)
    ensures var nodes := Wrap(root, None, 1, 1);
            && (forall node :: node in nodes ==> WalkEnds(ParentById(nodes), node.parentId))
            && (IsDepth(nodes, depth) ==> depth == Height(root))
  {
    var nodes, ps := Wrap(root, None, 1, 1), Places(root, 0, 1, 1);
    TreeWalksAsDeep(root);
    TreeDeepest(root, 0, 1, 1);
    DeepestIsReached(ps);
    forall node | node in nodes ensures WalkEnds(ParentById(nodes), node.parentId) {
      var k :| 0 <= k < |nodes| && nodes[k] == node;
      assert WalkEndsAfter(ParentById(nodes), nodes[k].parentId, ps[k].depth - 1);
    }
    if IsDepth(nodes, depth) {
      DepthIsTop(nodes, ps, depth, Deepest(ps));
    }
  }

  /** The walk from each node is one shorter than the node's depth. */
  ghost predicate WalksAsDeep(nodes: seq<Node>, ps: seq<Place>) {
    |nodes| == |ps| && forall k :: 0 <= k < |nodes| ==>
      ps[k].depth > 0 && WalkEndsAfter(ParentById(nodes), nodes[k].parentId, ps[k].depth - 1)
  }

  lemma TreeWalksAsDeep(root: Builder)
    ensures WalksAsDeep(Wrap(root, None, 1, 1), Places(root, 0, 1, 1))
  {
    var nodes, ps := Wrap(root, None, 1, 1), Places(root, 0, 1, 1);
    TreeRecords(root, 0, 1, 1, 1);
    TreePlaced(root, 0, 1, 1);
    WrapNumbers(root, None, 1, 1);
    forall k | 0 <= k < |nodes|
      ensures ps[k].depth > 0 && WalkEndsAfter(ParentById(nodes), nodes[k].parentId, ps[k].depth - 1)
    {
      WrappedWalkEnds(nodes, ps, k);
    }
  }

  lemma DepthIsTop(nodes: seq<Node>, ps: seq<Place>, depth: nat, top: nat)
    requires IsDepth(nodes, depth) && WalksAsDeep(nodes, ps)
    requires (forall k :: 0 <= k < |ps| ==> ps[k].depth <= top) && exists k :: 0 <= k < |ps| && ps[k].depth == top
    ensures depth == top
  {
    var k :| 0 <= k < |ps| && ps[k].depth == top;
    assert ps[k].depth - 1 < depth;
    var j :| 0 <= j < |nodes| && WalkEndsAfter(ParentById(nodes), nodes[j].parentId, depth - 1);
    WalkIsUnique(ParentById(nodes), nodes[j].parentId, depth - 1, ps[j].depth - 1);
  }

  // ----- When a walk ends -----

  /** Where the walk from `p` is after `n` nodes. */
  ghost function UpFrom(parents: map<string, Option<string>>, p: Option<string>, n: nat): Option<string>
    decreases n
  {
    if n == 0 || p.None? then p else UpFrom(parents, Above(parents, p.value), n - 1)
  }

  /** The walk passes no id twice. */
  ghost predicate NoRepeat(parents: map<string, Option<string>>, p: Option<string>) {
    forall i: nat, j: nat :: i < j && UpFrom(parents, p, i).Some? ==> UpFrom(parents, p, i) != UpFrom(parents, p, j)
  }

  lemma {:induction false} WalkAlong(parents: map<string, Option<string>>, p: Option<string>, n: nat, i: nat)
    requires WalkEndsAfter(parents, p, n)
    ensures if i <= n then WalkEndsAfter(parents, UpFrom(parents, p, i), n - i) else UpFrom(parents, p, i).None?
    decreases i
  {
    if i > 0 && p.Some? {
      WalkAlong(parents, Above(parents, p.value), n - 1, i - 1);
    }
  }

  lemma {:induction false} EndIsReached(parents: map<string, Option<string>>, p: Option<string>, n: nat)
    requires UpFrom(parents, p, n).None?
    ensures WalkEnds(parents, p)
    decreases n
  {
    if p.None? {
      assert WalkEndsAfter(parents, p, 0);
    } else {
      EndIsReached(parents, Above(parents, p.value), n - 1);
      var m: nat :| WalkEndsAfter(parents, Above(parents, p.value), m);
      assert WalkEndsAfter(parents, p, m + 1);
    }
  }

  lemma {:induction false} NextUp(parents: map<string, Option<string>>, p: Option<string>, n: nat)
    requires UpFrom(parents, p, n).Some?
    ensures UpFrom(parents, p, n + 1) == Above(parents, UpFrom(parents, p, n).value)
    decreases n
  {
    if n > 0 {
      NextUp(parents, Above(parents, p.value), n - 1);
    }
  }

  ghost predicate PassedBefore(parents: map<string, Option<string>>, p: Option<string>, n: nat, id: string) {
    exists i: nat :: i < n && UpFrom(parents, p, i) == Some(id)
  }

  lemma NotPassedAgain(parents: map<string, Option<string>>, p: Option<string>, n: nat, id: string)
    requires NoRepeat(parents, p) && PassedBefore(parents, p, n, id)
    ensures UpFrom(parents, p, n) != Some(id)
  {
    var i: nat :| i < n && UpFrom(parents, p, i) == Some(id);
  }

  /** As long as it goes on, a walk without repetition has passed as many ids of the dictionary as it made steps. */
  lemma {:induction false} WalkPasses(parents: map<string, Option<string>>, p: Option<string>, n: nat)
    returns (passed: set<string>)
    requires NoRepeat(parents, p) && UpFrom(parents, p, n).Some?
    ensures |passed| == n && passed <= parents.Keys
    ensures forall id :: id in passed ==> PassedBefore(parents, p, n, id)
    decreases n
  {
    passed := {};
    if n > 0 {
      if UpFrom(parents, p, n - 1).None? {
        StaysEnded(parents, p, n - 1);
      }
      var before := WalkPasses(parents, p, n - 1);
      NextUp(parents, p, n - 1);
      var last := UpFrom(parents, p, n - 1).value;
      forall id | id in before ensures id != last {
        NotPassedAgain(parents, p, n - 1, id);
      }
      passed := before + {last};
      forall id | id in passed ensures PassedBefore(parents, p, n, id) {
        if id in before {
          var i: nat :| i < n - 1 && UpFrom(parents, p, i) == Some(id);
        }
      }
    }
  }

  lemma {:induction false} StaysEnded(parents: map<string, Option<string>>, p: Option<string>, n: nat)
    requires UpFrom(parents, p, n).None?
    ensures UpFrom(parents, p, n + 1).None?
    decreases n
  {
    if n > 0 && p.Some? {
      StaysEnded(parents, Above(parents, p.value), n - 1);
    }
  }

  /** A walk up the parents ends exactly when it passes no id twice. */
  lemma WalkEndsIff(parents: map<string, Option<string>>, p: Option<string>)
    ensures WalkEnds(parents, p) <==> NoRepeat(parents, p)
  {
    if WalkEnds(parents, p) {
      var n: nat :| WalkEndsAfter(parents, p, n);
      forall i: nat, j: nat | i < j && UpFrom(parents, p, i).Some?
        ensures UpFrom(parents, p, i) != UpFrom(parents, p, j)
      {
        WalkAlong(parents, p, n, i);
        WalkAlong(parents, p, n, j);
        if UpFrom(parents, p, i) == UpFrom(parents, p, j) {
          WalkIsUnique(parents, UpFrom(parents, p, i), n - i, n - j);
        }
      }
    } else if NoRepeat(parents, p) {
      var n := |parents.Keys| + 1;
      if UpFrom(parents, p, n).None? {
        EndIsReached(parents, p, n);
      } else {
        var passed := WalkPasses(parents, p, n);
        SubsetIsSmaller(passed, parents.Keys);
      }
    }
  }

  lemma {:induction false} SubsetIsSmaller(a: set<string>, b: set<string>)
    requires a <= b
    ensures |a| <= |b|
  {
    if a != {} {
      var x :| x in a;
      SubsetIsSmaller(a - {x}, b - {x});
    }
  }
}
