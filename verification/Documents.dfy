/** Canonical documents: typed nodes in document order over one surface text. */
module Documents {
  import opened Wrappers

  datatype NodeType =
    | DocumentRoot | Section | Heading | Paragraph | Sentence | TextRun | ListBlock | ListItem | Table | TableRow
    | TableCell | Quotation | Citation | Footnote | Endnote | CodeBlock | Hyperlink | PageBreak | SectionBreak
    | ImagePlaceholder

  datatype SourceLocation = SourceLocation(start: int, end: int, lineStart: int, lineEnd: int)

  datatype Node = Node(
    nodeId: string, parentId: Option<string>, nodeType: NodeType, position: int, location: SourceLocation,
    text: string, attributes: map<string, string>, authorshipClass: Option<string>,
    protectedSpanRefs: seq<string>, findingCodes: seq<string>)

  datatype Document = Document(
    schemaVersion: int, lane: string, parserName: string, parserVersion: string, policyVersion: string,
    revisionPolicy: string, surfaceText: string, canonicalText: string, nodes: seq<Node>, findings: seq<string>)

  const EDITABLE_NODE_TYPES: set<NodeType> := {Paragraph, Sentence, TextRun, ListItem, TableCell}

  const PROTECTED_TEXT_NODE_TYPES: set<NodeType> :=
    {Heading, Quotation, Citation, Footnote, Endnote, CodeBlock, Hyperlink}

  const CANONICAL_DOCUMENT_SCHEMA_VERSION := 1

  predicate HasNode(nodes: seq<Node>, id: string) { exists k :: 0 <= k < |nodes| && nodes[k].nodeId == id }

  /** What the document parser demands of the structure; it lets a parent cycle pass. */
  predicate Parseable(document: Document) {
    var nodes := document.nodes;
    && document.schemaVersion == CANONICAL_DOCUMENT_SCHEMA_VERSION
    && |nodes| > 0 && nodes[0].nodeType.DocumentRoot? && nodes[0].parentId.None?
    && (forall i, j :: 0 <= i < j < |nodes| ==> nodes[i].nodeId != nodes[j].nodeId)
    && (forall k :: 0 < k < |nodes| ==> nodes[k].parentId.Some? && HasNode(nodes, nodes[k].parentId.value))
  }
}
