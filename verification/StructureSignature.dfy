/**
 The structural digest of a document: what it frames, when the framing can be decoded, and what leaves it unchanged.
 */
module StructureSignature {
  import opened Wrappers
  import opened Sequences
  import opened Decimals
  import opened Documents
  import opened LexicalChanges
  import opened RevisionTransform
  import opened RevisionAgreement

  // Counts are keyed by the node type itself; the source keys them by its name, which is injective
  // (`TypeNameInjective`).
  datatype Signature = Signature(digest: string, sectionOrder: seq<string>, nodeTypeCounts: map<NodeType, nat>,
                                 totalNodes: nat)

  const NUL: char := '\0'

  function TypeName(t: NodeType): string {
    match t
    case DocumentRoot => "document"
    case Section => "section"
    case Heading => "heading"
    case Paragraph => "paragraph"
    case Sentence => "sentence"
    case TextRun => "text_run"
    case ListBlock => "list"
    case ListItem => "list_item"
    case Table => "table"
    case TableRow => "table_row"
    case TableCell => "table_cell"
    case Quotation => "quotation"
    case Citation => "citation"
    case Footnote => "footnote"
    case Endnote => "endnote"
    case CodeBlock => "code_block"
    case Hyperlink => "hyperlink"
    case PageBreak => "page_break"
    case SectionBreak => "section_break"
    case ImagePlaceholder => "image_placeholder"
  }

  lemma TypeNameInjective(a: NodeType, b: NodeType)
    requires TypeName(a) == TypeName(b)
    ensures a == b
  {
    assert |TypeName(a)| == |TypeName(b)| && TypeName(a)[0] == TypeName(b)[0];
  }

  /** The type with a name, as a reader of the names finds it. */
  function TypeNamed(name: string): Option<NodeType> {
    if name == "document" then Some(DocumentRoot)
    else if name == "section" then Some(Section)
    else if name == "heading" then Some(Heading)
    else if name == "paragraph" then Some(Paragraph)
    else if name == "sentence" then Some(Sentence)
    else if name == "text_run" then Some(TextRun)
    else if name == "list" then Some(ListBlock)
    else if name == "list_item" then Some(ListItem)
    else if name == "table" then Some(Table)
    else if name == "table_row" then Some(TableRow)
    else if name == "table_cell" then Some(TableCell)
    else if name == "quotation" then Some(NodeType.Quotation)
    else if name == "citation" then Some(Citation)
    else if name == "footnote" then Some(Footnote)
    else if name == "endnote" then Some(Endnote)
    else if name == "code_block" then Some(CodeBlock)
    else if name == "hyperlink" then Some(Hyperlink)
    else if name == "page_break" then Some(PageBreak)
    else if name == "section_break" then Some(SectionBreak)
    else if name == "image_placeholder" then Some(ImagePlaceholder)
    else None
  }

  /** A name that is read is that of the type. */
  lemma NameIsOfType(name: string)
    requires TypeNamed(name).Some?
    ensures TypeName(TypeNamed(name).value) == name
  {
  }

  lemma TypeNameHasNoNul(t: NodeType)
    ensures NUL !in TypeName(t)
  {
    match t {
      case _ =>
    }
  }

  // ----- compute_structure_signature -----

  function HeadingPart(node: Node): string { if node.nodeType.Heading? then node.text + [NUL] else "" }

  function Field(node: Node): string { TypeName(node.nodeType) + [NUL] + HeadingPart(node) }

  function Body(nodes: seq<Node>): string {
    if |nodes| == 0 then "" else Field(nodes[0]) + Body(nodes[1..])
  }

  function Headings(nodes: seq<Node>): seq<string> {
    if |nodes| == 0 then []
    else (if nodes[0].nodeType.Heading? then [nodes[0].text] else []) + Headings(nodes[1..])
  }

  function CountOf(nodes: seq<Node>, t: NodeType): nat {
    if |nodes| == 0 then 0 else (if nodes[0].nodeType == t then 1 else 0) + CountOf(nodes[1..], t)
  }

  /** The string that is hashed. */
  function Frame(nodes: seq<Node>): string {
    Prefix() + Body(nodes) + Trailer(nodes)
  }

  function Prefix(): string { "structure-signature-v1" + [NUL] }

  function Trailer(nodes: seq<Node>): string { "paragraphs=" + Decimal(CountOf(nodes, Paragraph)) }

  /** The signature of a document with these nodes. */
  ghost function SignatureOf(sha256: string -> string, nodes: seq<Node>): Signature {
    Signature(sha256(Frame(nodes)), Headings(nodes), map t: NodeType | CountOf(nodes, t) > 0 :: CountOf(nodes, t),
              |nodes|)
  }

  ghost function CountIn(counts: map<NodeType, nat>, t: NodeType): nat { if t in counts then counts[t] else 0 }

  /** What has been counted so far and what is still to come make up the counts of all nodes. */
  ghost predicate CountsSplit(counts: map<NodeType, nat>, rest: seq<Node>, nodes: seq<Node>) {
    && (forall t :: CountIn(counts, t) + CountOf(rest, t) == CountOf(nodes, t))
    && (forall t :: t in counts ==> counts[t] > 0)
  }

  lemma CountStep(counts: map<NodeType, nat>, rest: seq<Node>, nodes: seq<Node>)
    requires |rest| > 0 && CountsSplit(counts, rest, nodes)
    ensures var t := rest[0].nodeType;
            CountsSplit(counts[t := 1 + if t in counts then counts[t] else 0], rest[1..], nodes)
  {
    var t := rest[0].nodeType;
    var counts' := counts[t := 1 + if t in counts then counts[t] else 0];
    assert forall u :: CountIn(counts', u) == CountIn(counts, u) + if u == t then 1 else 0;
    assert forall u :: CountOf(rest, u) == CountOf(rest[1..], u) + if u == t then 1 else 0;
  }

  lemma CountsComplete(counts: map<NodeType, nat>, nodes: seq<Node>)
    requires CountsSplit(counts, [], nodes)
    ensures counts == map t: NodeType | CountOf(nodes, t) > 0 :: CountOf(nodes, t)
  {
    assert forall t :: CountIn(counts, t) == CountOf(nodes, t);
  }

  lemma DigestStep(digested: string, rest: seq<Node>)
    requires |rest| > 0
    ensures var named := digested + (TypeName(rest[0].nodeType) + [NUL]);
            digested + Body(rest) == named + HeadingPart(rest[0]) + Body(rest[1..])
  {
    var name := TypeName(rest[0].nodeType) + [NUL];
    Associate(digested, name, HeadingPart(rest[0]));
    Associate(digested, Field(rest[0]), Body(rest[1..]));
  }

  lemma HeadingsStep(headings: seq<string>, rest: seq<Node>)
    requires |rest| > 0
    ensures headings + Headings(rest)
            == (if rest[0].nodeType.Heading? then headings + [rest[0].text] else headings) + Headings(rest[1..])
  {
    if rest[0].nodeType.Heading? {
      assert headings + ([rest[0].text] + Headings(rest[1..])) == headings + [rest[0].text] + Headings(rest[1..]);
    } else {
      assert [] + Headings(rest[1..]) == Headings(rest[1..]);
    }
  }

  method ComputeStructureSignature(sha256: string -> string, document: Document) returns (s: Signature)
    ensures s == SignatureOf(sha256, document.nodes)
  {
    var nodes := document.nodes;
    var digested := Prefix();
    var headings: seq<string> := [];
    var counts: map<NodeType, nat> := map[];
    var paragraphCount := 0;
    ghost var framed := digested + Body(nodes);
    assert nodes[0..] == nodes;
    for i := 0 to |nodes|
      invariant digested + Body(nodes[i..]) == framed
      invariant headings + Headings(nodes[i..]) == Headings(nodes)
      invariant paragraphCount + CountOf(nodes[i..], Paragraph) == CountOf(nodes, Paragraph)
      invariant CountsSplit(counts, nodes[i..], nodes)
    {
      var node := nodes[i];
      ghost var rest := nodes[i..];
      assert rest[0] == node && rest[1..] == nodes[i + 1..];
      CountStep(counts, rest, nodes);
      DigestStep(digested, rest);
      HeadingsStep(headings, rest);
      counts := counts[node.nodeType := 1 + if node.nodeType in counts then counts[node.nodeType] else 0];
      digested := digested + (TypeName(node.nodeType) + [NUL]);
      if node.nodeType.Heading? {
        headings := headings + [node.text];
        digested := digested + (node.text + [NUL]);
      } else {
        AppendEmpty(digested);
      }
      if node.nodeType.Paragraph? {
        paragraphCount := paragraphCount + 1;
      }
    }
    AppendEmpty(digested);
    AppendEmpty(headings);
    CountsComplete(counts, nodes);
    s := Signature(sha256(digested + ("paragraphs=" + Decimal(paragraphCount))), headings, counts, |nodes|);
  }

  // ----- Decoding the frame -----

  /** What the signature is about: the node types in order, and the text of every heading. */
  ghost function Skeleton(nodes: seq<Node>): seq<(NodeType, Option<string>)> {
    if |nodes| == 0 then []
    else [(nodes[0].nodeType, if nodes[0].nodeType.Heading? then Some(nodes[0].text) else None)] + Skeleton(nodes[1..])
  }

  lemma FirstFieldUnique(x: string, u: string, y: string, v: string)
    requires x + [NUL] + u == y + [NUL] + v && NUL !in x && NUL !in y
    ensures x == y && u == v
  {
    var s := x + [NUL] + u;
    assert forall k :: 0 <= k < |x| ==> s[k] == x[k] != NUL;
    assert forall k :: 0 <= k < |y| ==> s[k] == y[k] != NUL;
    assert s[|x|] == NUL && s[|y|] == NUL;
    assert |x| == |y|;
    assert x == s[..|x|] && y == s[..|y|] && u == s[|x| + 1..] && v == s[|y| + 1..];
  }

  ghost predicate NoNulInHeadings(nodes: seq<Node>) {
    forall node :: node in nodes && node.nodeType.Heading? ==> NUL !in node.text
  }

  lemma FieldAppend(node: Node, u: string)
    ensures Field(node) + u == TypeName(node.nodeType) + [NUL] + (HeadingPart(node) + u)
  {
    AssociateFour(TypeName(node.nodeType), [NUL], HeadingPart(node), u);
  }

  lemma TypeNamesDecode(a: NodeType, x: string, b: NodeType, y: string)
    requires TypeName(a) + [NUL] + x == TypeName(b) + [NUL] + y
    ensures a == b && x == y
  {
    TypeNameHasNoNul(a);
    TypeNameHasNoNul(b);
    FirstFieldUnique(TypeName(a), x, TypeName(b), y);
    TypeNameInjective(a, b);
  }

  /** A heading's field decodes when neither heading has a NUL, or when the headings are known to be equal. */
  lemma FieldsDecode(a: Node, u: string, b: Node, v: string)
    requires Field(a) + u == Field(b) + v
    requires a.nodeType.Heading? && b.nodeType.Heading? ==> a.text == b.text || (NUL !in a.text && NUL !in b.text)
    ensures a.nodeType == b.nodeType && (a.nodeType.Heading? ==> a.text == b.text) && u == v
  {
    FieldAppend(a, u);
    FieldAppend(b, v);
    TypeNamesDecode(a.nodeType, HeadingPart(a) + u, b.nodeType, HeadingPart(b) + v);
    HeadingPartsDecode(a, u, b, v);
  }

  lemma HeadingPartsDecode(a: Node, u: string, b: Node, v: string)
    requires a.nodeType == b.nodeType && HeadingPart(a) + u == HeadingPart(b) + v
    requires a.nodeType.Heading? ==> a.text == b.text || (NUL !in a.text && NUL !in b.text)
    ensures (a.nodeType.Heading? ==> a.text == b.text) && u == v
  {
    if !a.nodeType.Heading? {
      assert "" + u == u && "" + v == v;
    } else if a.text == b.text {
      assert u == (HeadingPart(a) + u)[|HeadingPart(a)|..] && v == (HeadingPart(b) + v)[|HeadingPart(b)|..];
    } else {
      FirstFieldUnique(a.text, u, b.text, v);
    }
  }

  lemma {:induction false} BodyDecodes(a: seq<Node>, ta: string, b: seq<Node>, tb: string)
    requires Body(a) + ta == Body(b) + tb && NUL !in ta && NUL !in tb
    requires Headings(a) == Headings(b) || (NoNulInHeadings(a) && NoNulInHeadings(b))
    ensures Skeleton(a) == Skeleton(b)
    decreases |a|
  {
    NoNulNoNodes(a, ta);
    NoNulNoNodes(b, tb);
    if |a| > 0 && |b| > 0 {
      HeadDecodes(a, ta, b, tb);
      BodyDecodes(a[1..], ta, b[1..], tb);
    }
  }

  lemma HeadDecodes(a: seq<Node>, ta: string, b: seq<Node>, tb: string)
    requires |a| > 0 && |b| > 0 && Body(a) + ta == Body(b) + tb
    requires Headings(a) == Headings(b) || (NoNulInHeadings(a) && NoNulInHeadings(b))
    ensures a[0].nodeType == b[0].nodeType && (a[0].nodeType.Heading? ==> a[0].text == b[0].text)
    ensures Body(a[1..]) + ta == Body(b[1..]) + tb
    ensures Headings(a) == Headings(b) ==> Headings(a[1..]) == Headings(b[1..])
  {
    Associate(Field(a[0]), Body(a[1..]), ta);
    Associate(Field(b[0]), Body(b[1..]), tb);
    if a[0].nodeType.Heading? && b[0].nodeType.Heading? && Headings(a) == Headings(b) {
      assert a[0].text == Headings(a)[0] == Headings(b)[0] == b[0].text;
    }
    FieldsDecode(a[0], Body(a[1..]) + ta, b[0], Body(b[1..]) + tb);
    if Headings(a) == Headings(b) {
      HeadingsTail(a, b);
    }
  }

  lemma NoNulNoNodes(a: seq<Node>, ta: string)
    ensures |a| > 0 ==> NUL in Body(a) + ta
  {
    if |a| > 0 {
      assert (Body(a) + ta)[|TypeName(a[0].nodeType)|] == NUL;
    }
  }

  lemma HeadingsTail(a: seq<Node>, b: seq<Node>)
    requires |a| > 0 && |b| > 0 && a[0].nodeType == b[0].nodeType && Headings(a) == Headings(b)
    ensures Headings(a[1..]) == Headings(b[1..])
  {
    if a[0].nodeType.Heading? {
      assert Headings(a[1..]) == Headings(a)[1..] && Headings(b[1..]) == Headings(b)[1..];
    } else {
      assert Headings(a[1..]) == Headings(a) && Headings(b[1..]) == Headings(b);
    }
  }

  lemma {:induction false} SkeletonDetermines(a: seq<Node>, b: seq<Node>)
    requires Skeleton(a) == Skeleton(b)
    ensures Body(a) == Body(b) && Headings(a) == Headings(b) && |a| == |b|
    ensures forall t :: CountOf(a, t) == CountOf(b, t)
    decreases |a|
  {
    if |a| > 0 && |b| > 0 {
      assert Skeleton(a)[0] == Skeleton(b)[0];
      assert Skeleton(a)[1..] == Skeleton(a[1..]) && Skeleton(b)[1..] == Skeleton(b[1..]);
      SkeletonDetermines(a[1..], b[1..]);
    }
  }

  /** The hashed string is uniquely decodable into node types and heading texts when no heading holds a NUL. */
  lemma FrameDecodes(a: seq<Node>, b: seq<Node>)
    requires NoNulInHeadings(a) && NoNulInHeadings(b)
    ensures Frame(a) == Frame(b) <==> Skeleton(a) == Skeleton(b)
  {
    if Frame(a) == Frame(b) {
      FrameBodies(a, b);
      BodyDecodes(a, Trailer(a), b, Trailer(b));
    }
    if Skeleton(a) == Skeleton(b) {
      SkeletonDetermines(a, b);
    }
  }

  /** Of two documents with one digest the headings decide: the skeletons agree exactly when the heading texts do. */
  lemma EqualFramesIff(a: seq<Node>, b: seq<Node>)
    requires Frame(a) == Frame(b)
    ensures Skeleton(a) == Skeleton(b) <==> Headings(a) == Headings(b)
  {
    if Headings(a) == Headings(b) {
      FrameBodies(a, b);
      BodyDecodes(a, Trailer(a), b, Trailer(b));
    }
    if Skeleton(a) == Skeleton(b) {
      SkeletonDetermines(a, b);
    }
  }

  lemma FrameBodies(a: seq<Node>, b: seq<Node>)
    requires Frame(a) == Frame(b)
    ensures Body(a) + Trailer(a) == Body(b) + Trailer(b) && NUL !in Trailer(a) && NUL !in Trailer(b)
  {
    Associate(Prefix(), Body(a), Trailer(a));
    Associate(Prefix(), Body(b), Trailer(b));
    CancelPrefix(Prefix(), Body(a) + Trailer(a), Body(b) + Trailer(b));
    TrailerHasNoNul(a);
    TrailerHasNoNul(b);
  }

  lemma CancelPrefix(p: string, x: string, y: string)
    requires p + x == p + y
    ensures x == y
  {
    assert x == (p + x)[|p|..] && y == (p + y)[|p|..];
  }

  lemma TrailerHasNoNul(a: seq<Node>)
    ensures NUL !in Trailer(a)
  {
    assert NUL !in DIGITS;
  }

  lemma SameInFront(root: Node, a: seq<Node>, b: seq<Node>)
    requires Body(a) == Body(b) && CountOf(a, Paragraph) == CountOf(b, Paragraph) && Skeleton(a) != Skeleton(b)
    ensures Frame([root] + a) == Frame([root] + b) && Skeleton([root] + a) != Skeleton([root] + b)
  {
    assert ([root] + a)[1..] == a && ([root] + b)[1..] == b;
    assert Skeleton([root] + a)[1..] == Skeleton(a) && Skeleton([root] + b)[1..] == Skeleton(b);
  }

  /** With a NUL in a heading the digest alone cannot tell these two documents apart. */
  lemma NulMakesFrameAmbiguous(root: Node, h: Node, g: Node, l: Node)
    requires root.nodeType.DocumentRoot? && h.nodeType.Heading? && h.text == "x" + [NUL] + "list"
    requires g.nodeType.Heading? && g.text == "x" && l.nodeType.ListBlock?
    ensures Frame([root, h]) == Frame([root, g, l]) && Skeleton([root, h]) != Skeleton([root, g, l])
  {
    assert [h][1..] == [] && [g, l][1..] == [l] && [l][1..] == [];
    assert Body([h]) == Field(h) + Body([]);
    assert Body([l]) == Field(l) + Body([]);
    assert Body([g, l]) == Field(g) + Body([l]);
    assert Body([h]) == Body([g, l]);
    assert CountOf([h], Paragraph) == 0 + CountOf([], Paragraph);
    assert CountOf([g, l], Paragraph) == 0 + CountOf([l], Paragraph) == 0 + CountOf([], Paragraph);
    assert |Skeleton([h])| == 1 + |Skeleton([])|;
    assert |Skeleton([g, l])| == 1 + |Skeleton([l])| == 2 + |Skeleton([])|;
    SameInFront(root, [h], [g, l]);
    assert [root, h] == [root] + [h] && [root, g, l] == [root] + [g, l];
  }

  lemma SampleFields(root: Node, h: Node, p: Node)
    requires root.nodeType.DocumentRoot? && h.nodeType.Heading? && p.nodeType.Paragraph? && h.text == "Title"
    ensures Field(root) == "document\0" && Field(h) == "heading\0Title\0" && Field(p) == "paragraph\0"
  {
    assert Field(h) == "heading" + [NUL] + ("Title" + [NUL]);
  }

  lemma SampleTrailer(root: Node, h: Node, p: Node)
    requires root.nodeType.DocumentRoot? && h.nodeType.Heading? && p.nodeType.Paragraph?
    ensures Trailer([root, h, p]) == "paragraphs=1"
  {
    assert CountOf([root, h, p], Paragraph) == CountOf([h, p], Paragraph) == CountOf([p], Paragraph) == 1 by {
      assert [root, h, p][1..] == [h, p] && [h, p][1..] == [p] && [p][1..] == [];
    }
  }

  /** The string hashed for a document with one heading and one paragraph. */
  lemma FrameOfSample(root: Node, h: Node, p: Node)
    requires root.nodeType.DocumentRoot? && h.nodeType.Heading? && p.nodeType.Paragraph? && h.text == "Title"
    ensures Frame([root, h, p])
            == "structure-signature-v1\0" + ("document\0" + ("heading\0Title\0" + "paragraph\0")) + "paragraphs=1"
  {
    SampleFields(root, h, p);
    SampleTrailer(root, h, p);
    assert [root, h, p][1..] == [h, p] && [h, p][1..] == [p] && [p][1..] == [];
    AppendEmpty(Field(p));
    assert Body([p]) == Field(p) && Body([h, p]) == Field(h) + Body([p]);
    assert Body([root, h, p]) == Field(root) + Body([h, p]);
    assert Prefix() == "structure-signature-v1\0";
  }

  // ----- Counts -----

  ghost function Types(nodes: seq<Node>): seq<NodeType> {
    if |nodes| == 0 then [] else [nodes[0].nodeType] + Types(nodes[1..])
  }

  lemma {:induction false} TypesAt(nodes: seq<Node>)
    ensures |Types(nodes)| == |nodes| && forall k :: 0 <= k < |nodes| ==> Types(nodes)[k] == nodes[k].nodeType
  {
    if |nodes| > 0 {
      TypesAt(nodes[1..]);
    }
  }

  lemma {:induction false} CountIsMultiplicity(nodes: seq<Node>, t: NodeType)
    ensures CountOf(nodes, t) == multiset(Types(nodes))[t]
  {
    if |nodes| > 0 {
      CountIsMultiplicity(nodes[1..], t);
    }
  }

  lemma HeadingsBefore(nodes: seq<Node>, k: nat)
    requires 0 < k <= |nodes|
    ensures multiset(Types(nodes[..k]))[Heading]
            == (if nodes[0].nodeType.Heading? then 1 else 0) + multiset(Types(nodes[1..][..k - 1]))[Heading]
  {
    assert nodes[..k][0] == nodes[0] && nodes[..k][1..] == nodes[1..][..k - 1];
  }

  /** A heading is listed after as many texts as headings stand before it, and nothing else is listed. */
  lemma {:induction false} HeadingAt(nodes: seq<Node>, k: nat)
    requires k < |nodes| && nodes[k].nodeType.Heading?
    ensures var place := multiset(Types(nodes[..k]))[Heading];
            place < |Headings(nodes)| && Headings(nodes)[place] == nodes[k].text
    decreases k
  {
    if k > 0 {
      HeadingAt(nodes[1..], k - 1);
      HeadingsBefore(nodes, k);
    }
  }

  lemma {:induction false} HeadingsAreCounted(nodes: seq<Node>)
    ensures |Headings(nodes)| == multiset(Types(nodes))[Heading]
  {
    if |nodes| > 0 {
      HeadingsAreCounted(nodes[1..]);
    }
  }

  /** A signature counts the nodes of each type that occurs, and all of them, and lists one text for each heading. */
  lemma SignatureCounts(sha256: string -> string, nodes: seq<Node>, t: NodeType)
    ensures var s, types := SignatureOf(sha256, nodes), multiset(Types(nodes));
            && |Types(nodes)| == |nodes| && s.totalNodes == |types|
            && (t in s.nodeTypeCounts <==> t in types) && (t in types ==> s.nodeTypeCounts[t] == types[t])
            && |s.sectionOrder| == types[Heading]
  {
    TypesAt(nodes);
    CountIsMultiplicity(nodes, t);
    HeadingsAreCounted(nodes);
  }

  // ----- revalidate_structure -----

  datatype StructureFinding = SectionOrderDrift(firstDiffIndex: nat) | SignatureDrift

  function FirstDiffIndex(left: seq<string>, right: seq<string>): nat {
    if |left| == 0 || |right| == 0 || left[0] != right[0] then 0 else 1 + FirstDiffIndex(left[1..], right[1..])
  }

  /** No finding means that the structure is accepted. */
  function RevalidateStructure(current: Signature, expected: Signature): Option<StructureFinding> {
    if current.sectionOrder != expected.sectionOrder
    then Some(SectionOrderDrift(FirstDiffIndex(current.sectionOrder, expected.sectionOrder)))
    else if current.digest != expected.digest then Some(SignatureDrift)
    else None
  }

  /** Headings are compared first; the digest decides only between equal headings. */
  lemma RevalidationMeaning(current: Signature, expected: Signature)
    ensures var finding := RevalidateStructure(current, expected);
            && (current.sectionOrder != expected.sectionOrder <==>
                finding == Some(SectionOrderDrift(FirstDiffIndex(current.sectionOrder, expected.sectionOrder))))
            && (current.sectionOrder == expected.sectionOrder && current.digest != expected.digest <==>
                finding == Some(SignatureDrift))
  {
  }

  /** The reported index is where the two section orders first differ. */
  lemma {:induction false} FirstDiffIndexMeaning(left: seq<string>, right: seq<string>)
    requires left != right
    ensures var i := FirstDiffIndex(left, right);
            && i <= |left| && i <= |right| && left[..i] == right[..i]
            && (i == |left| || i == |right| || left[i] != right[i])
  {
    if |left| > 0 && |right| > 0 && left[0] == right[0] {
      assert left == [left[0]] + left[1..] && right == [right[0]] + right[1..];
      FirstDiffIndexMeaning(left[1..], right[1..]);
      var i := FirstDiffIndex(left[1..], right[1..]);
      assert left[..i + 1] == [left[0]] + left[1..][..i] && right[..i + 1] == [right[0]] + right[1..][..i];
    }
  }

  /**
   Structure revalidation accepts exactly when the node types and the heading texts agree, for all headings:
   the section order it compares first makes up for the ambiguity of the digest.
   */
  lemma RevalidationIsExact(sha256: string -> string, a: seq<Node>, b: seq<Node>)
    requires sha256(Frame(a)) == sha256(Frame(b)) ==> Frame(a) == Frame(b)
    ensures RevalidateStructure(SignatureOf(sha256, a), SignatureOf(sha256, b)).None? <==> Skeleton(a) == Skeleton(b)
  {
    if RevalidateStructure(SignatureOf(sha256, a), SignatureOf(sha256, b)).None? {
      EqualFramesIff(a, b);
    }
    if Skeleton(a) == Skeleton(b) {
      SkeletonDetermines(a, b);
    }
  }

  lemma {:induction false} SameStructureSameSkeleton(a: seq<Node>, b: seq<Node>)
    requires |a| == |b| && forall i :: 0 <= i < |a| ==> SameStructure(a[i], b[i])
    ensures Skeleton(a) == Skeleton(b)
  {
    if |a| > 0 {
      assert SameStructure(a[0], b[0]);
      assert forall i :: 0 <= i < |a| - 1 ==> SameStructure(a[1..][i], b[1..][i]);
      SameStructureSameSkeleton(a[1..], b[1..]);
    }
  }

  /** A reviewed transform leaves every field of the signature unchanged, so finalization's structure check passes. */
  lemma TransformKeepsSignature(sha256: string -> string, nfc: string -> string, document: Document, proposal: Proposal)
    requires Transformed(sha256, nfc, document, proposal).Ok?
    ensures var document' := Transformed(sha256, nfc, document, proposal).value;
            SignatureOf(sha256, document'.nodes) == SignatureOf(sha256, document.nodes)
            && RevalidateStructure(SignatureOf(sha256, document'.nodes), SignatureOf(sha256, document.nodes)).None?
  {
    var nodes := Transformed(sha256, nfc, document, proposal).value.nodes;
    TransformKeepsAgreement(sha256, nfc, document, proposal);
    SameStructureSameSkeleton(document.nodes, nodes);
    SkeletonDetermines(document.nodes, nodes);
  }
}
