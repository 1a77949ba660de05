/** Quotations of a document: whole quotation nodes, and quoted runs inside paragraphs and headings. */
module Quotations {
  import opened Sequences
  import opened Documents
  import opened RevisionAgreement
  import opened ProtectedSpans

  datatype Quotation = Quoted(text: string, location: SourceLocation)

  const MIN_INLINE_QUOTE_CHARS := 20

  // ----- Quoted runs -----

  /** Where a run without closing mark and line break ends. */
  function RunEnd(text: string, close: char, i: nat): (j: nat)
    requires i <= |text|
    ensures i <= j <= |text| && (j < |text| ==> text[j] == close || text[j] == '\n')
    ensures forall k :: i <= k < j ==> text[k] != close && text[k] != '\n'
    decreases |text| - i
  {
    if i < |text| && text[i] != close && text[i] != '\n' then RunEnd(text, close, i + 1) else i
  }

  /** An opening mark, twenty or more characters other than the closing mark and line breaks, and the closing mark. */
  predicate RunAt(text: string, open: char, close: char, p: nat) {
    && p < |text| && text[p] == open
    && var end := RunEnd(text, close, p + 1);
       end < |text| && text[end] == close && end - (p + 1) >= MIN_INLINE_QUOTE_CHARS
  }

  /** The non-overlapping runs from `i` on, left to right. */
  function Runs(text: string, open: char, close: char, i: nat): seq<(nat, nat)>
    requires i <= |text|
    decreases |text| - i
  {
    if i == |text| then []
    else if RunAt(text, open, close, i) then
      var end := RunEnd(text, close, i + 1) + 1;
      [(i, end)] + Runs(text, open, close, end)
    else Runs(text, open, close, i + 1)
  }

  /** The range holds a run between its two marks. */
  predicate IsRun(text: string, open: char, close: char, m: (nat, nat)) {
    && m.0 + 1 + MIN_INLINE_QUOTE_CHARS < m.1 <= |text| && text[m.0] == open && text[m.1 - 1] == close
    && forall k :: m.0 < k < m.1 - 1 ==> text[k] != close && text[k] != '\n'
  }

  lemma {:induction false} RunsAreRuns(text: string, open: char, close: char, i: nat)
    requires i <= |text|
    ensures forall m :: m in Runs(text, open, close, i) ==> IsRun(text, open, close, m)
    decreases |text| - i
  {
    if i < |text| {
      if RunAt(text, open, close, i) {
        RunsAreRuns(text, open, close, RunEnd(text, close, i + 1) + 1);
      } else {
        RunsAreRuns(text, open, close, i + 1);
      }
    }
  }

  /** Every run starts inside one that is found. */
  lemma {:induction false} RunIsFound(text: string, open: char, close: char, i: nat, p: nat) returns (m: (nat, nat))
    requires i <= p && RunAt(text, open, close, p)
    ensures m in Runs(text, open, close, i) && m.0 <= p < m.1
    decreases |text| - i
  {
    if RunAt(text, open, close, i) {
      var end := RunEnd(text, close, i + 1) + 1;
      m := (i, end);
      if end <= p {
        m := RunIsFound(text, open, close, end, p);
      }
    } else {
      m := RunIsFound(text, open, close, i + 1, p);
    }
  }

  // ----- Stripping -----

  function StripLeft(isSpace: char -> bool, s: string): string {
    if |s| > 0 && isSpace(s[0]) then StripLeft(isSpace, s[1..]) else s
  }

  function StripRight(isSpace: char -> bool, s: string): string {
    if |s| > 0 && isSpace(s[|s| - 1]) then StripRight(isSpace, s[..|s| - 1]) else s
  }

  function StripSpace(isSpace: char -> bool, s: string): string { StripRight(isSpace, StripLeft(isSpace, s)) }

  lemma {:induction false} StripLeftShortens(isSpace: char -> bool, s: string)
    ensures |StripLeft(isSpace, s)| <= |s|
  {
    if |s| > 0 && isSpace(s[0]) {
      StripLeftShortens(isSpace, s[1..]);
    }
  }

  lemma {:induction false} StripRightShortens(isSpace: char -> bool, s: string)
    ensures |StripRight(isSpace, s)| <= |s|
  {
    if |s| > 0 && isSpace(s[|s| - 1]) {
      StripRightShortens(isSpace, s[..|s| - 1]);
    }
  }

  // ----- extract_quotations -----

  function Located(node: Node, m: (nat, nat)): SourceLocation {
    SourceLocation(node.location.start + m.0, node.location.start + m.1, node.location.lineStart, node.location.lineEnd)
  }

  /** The stripped text between the marks, at the offsets of the marks. */
  function Inline(isSpace: char -> bool, node: Node, matches: seq<(nat, nat)>): seq<Quotation>
    requires forall m :: m in matches ==> m.0 + 1 < m.1 <= |node.text|
  {
    if |matches| == 0 then []
    else
      assert matches[0] in matches;
      var m := matches[0];
      var inner := StripSpace(isSpace, node.text[m.0 + 1..m.1 - 1]);
      (if |inner| < MIN_INLINE_QUOTE_CHARS then [] else [Quoted(inner, Located(node, m))])
      + Inline(isSpace, node, matches[1..])
  }

  function InlineOf(isSpace: char -> bool, node: Node, open: char, close: char): seq<Quotation> {
    RunsAreRuns(node.text, open, close, 0);
    Inline(isSpace, node, Runs(node.text, open, close, 0))
  }

  const LEFT_MARK := '\U{201C}'
  const RIGHT_MARK := '\U{201D}'

  function Candidates(isSpace: char -> bool, node: Node): seq<Quotation> {
    if node.nodeType.Quotation? then
      if StripSpace(isSpace, node.text) != "" then [Quoted(node.text, node.location)] else []
    else if node.nodeType.Paragraph? || node.nodeType.Heading? then
      InlineOf(isSpace, node, '"', '"') + InlineOf(isSpace, node, LEFT_MARK, RIGHT_MARK)
    else []
  }

  predicate HasLocation(qs: seq<Quotation>, l: SourceLocation) { exists k :: 0 <= k < |qs| && qs[k].location == l }

  /** One quotation for each location, the first. */
  function AddAll(cs: seq<Quotation>, done: seq<Quotation>): seq<Quotation>
    decreases |cs|
  {
    if |cs| == 0 then done else AddAll(cs[1..], if HasLocation(done, cs[0].location) then done else done + [cs[0]])
  }

  function ExtractedFrom(isSpace: char -> bool, nodes: seq<Node>, done: seq<Quotation>): seq<Quotation>
    decreases |nodes|
  {
    if |nodes| == 0 then done else ExtractedFrom(isSpace, nodes[1..], AddAll(Candidates(isSpace, nodes[0]), done))
  }

  method ExtractQuotations(isSpace: char -> bool, nodes: seq<Node>) returns (result: seq<Quotation>)
    ensures result == ExtractedFrom(isSpace, nodes, [])
  {
    result := [];
    for i := 0 to |nodes|
      invariant ExtractedFrom(isSpace, nodes[i..], result) == ExtractedFrom(isSpace, nodes, [])
    {
      DropStep(nodes, i);
      result := AddCandidates(Candidates(isSpace, nodes[i]), result);
    }
  }

  method AddCandidates(cs: seq<Quotation>, done: seq<Quotation>) returns (result: seq<Quotation>)
    ensures result == AddAll(cs, done)
  {
    result := done;
    for i := 0 to |cs|
      invariant AddAll(cs[i..], result) == AddAll(cs, done)
    {
      DropStep(cs, i);
      if !HasLocation(result, cs[i].location) {
        result := result + [cs[i]];
      }
    }
  }

  // ----- What is extracted -----

  ghost predicate DistinctLocations(qs: seq<Quotation>) {
    forall i, j :: 0 <= i < j < |qs| ==> qs[i].location != qs[j].location
  }

  lemma {:induction false} AddAllMeaning(cs: seq<Quotation>, done: seq<Quotation>)
    ensures var r := AddAll(cs, done);
            && done <= r && (DistinctLocations(done) ==> DistinctLocations(r))
            && (forall q :: q in r ==> q in done || q in cs)
            && (forall c :: c in cs ==> HasLocation(r, c.location))
    decreases |cs|
  {
    if |cs| > 0 {
      var next := if HasLocation(done, cs[0].location) then done else done + [cs[0]];
      AddAllMeaning(cs[1..], next);
      AddOneMeaning(cs[0], done, next, AddAll(cs, done));
      assert forall c :: c in cs <==> c == cs[0] || c in cs[1..];
    }
  }

  lemma AddOneMeaning(c: Quotation, done: seq<Quotation>, next: seq<Quotation>, r: seq<Quotation>)
    requires next == (if HasLocation(done, c.location) then done else done + [c]) && next <= r
    ensures done <= r && HasLocation(r, c.location)
    ensures DistinctLocations(done) ==> DistinctLocations(next)
    ensures forall q :: q in next ==> q in done || q == c
  {
    if HasLocation(done, c.location) {
      var k :| 0 <= k < |done| && done[k].location == c.location;
      assert r[k] == done[k];
    } else {
      assert next[|done|] == c && r[|done|] == c;
    }
  }

  /**
   Exactly the quotations of the nodes, one for each location: what is extracted is a candidate of some node, and every
   candidate's location has its quotation.
   */
  lemma {:induction false} ExtractedMeaning(isSpace: char -> bool, nodes: seq<Node>, done: seq<Quotation>)
    requires DistinctLocations(done)
    ensures var r := ExtractedFrom(isSpace, nodes, done);
            && done <= r && DistinctLocations(r)
            && (forall q :: q in r ==> q in done || exists node :: node in nodes && q in Candidates(isSpace, node))
            && (forall node, c :: node in nodes && c in Candidates(isSpace, node) ==> HasLocation(r, c.location))
    decreases |nodes|
  {
    if |nodes| > 0 {
      var next := AddAll(Candidates(isSpace, nodes[0]), done);
      AddAllMeaning(Candidates(isSpace, nodes[0]), done);
      ExtractedMeaning(isSpace, nodes[1..], next);
      var r := ExtractedFrom(isSpace, nodes, done);
      forall c | c in Candidates(isSpace, nodes[0]) ensures HasLocation(r, c.location) {
        LocationStays(next, r, c.location);
      }
      assert forall node :: node in nodes <==> node == nodes[0] || node in nodes[1..];
    }
  }

  lemma LocationStays(qs: seq<Quotation>, r: seq<Quotation>, l: SourceLocation)
    requires HasLocation(qs, l) && qs <= r
    ensures HasLocation(r, l)
  {
    var k :| 0 <= k < |qs| && qs[k].location == l;
    assert r[k] == qs[k];
  }

  /** An inline quotation is shorter than the range it stands at: it leaves out at least the marks. */
  ghost predicate LeavesOutMarks(node: Node, q: Quotation) {
    && node.location.start <= q.location.start && q.location.end <= node.location.start + |node.text|
    && q.location.end - q.location.start >= |q.text| + 2
  }

  lemma {:induction false} InlineLeavesOutMarks(isSpace: char -> bool, node: Node, matches: seq<(nat, nat)>)
    requires forall m :: m in matches ==> m.0 + 1 < m.1 <= |node.text|
    ensures forall q :: q in Inline(isSpace, node, matches) ==> LeavesOutMarks(node, q)
  {
    if |matches| > 0 {
      var m := matches[0];
      assert m in matches;
      InlineLeavesOutMarks(isSpace, node, matches[1..]);
      var between := node.text[m.0 + 1..m.1 - 1];
      StripLeftShortens(isSpace, between);
      StripRightShortens(isSpace, StripLeft(isSpace, between));
    }
  }

  /** The quotation of a quotation node reads its place if the node does; an inline one never reads its own. */
  lemma CandidatesRead(isSpace: char -> bool, node: Node, q: Quotation, surface: string)
    requires q in Candidates(isSpace, node) && Exact(surface, node)
    ensures 0 <= q.location.start <= q.location.end <= |surface|
    ensures surface[q.location.start..q.location.end] == q.text <==> node.nodeType.Quotation?
  {
    if !node.nodeType.Quotation? {
      RunsAreRuns(node.text, '"', '"', 0);
      RunsAreRuns(node.text, LEFT_MARK, RIGHT_MARK, 0);
      InlineLeavesOutMarks(isSpace, node, Runs(node.text, '"', '"', 0));
      InlineLeavesOutMarks(isSpace, node, Runs(node.text, LEFT_MARK, RIGHT_MARK, 0));
      assert LeavesOutMarks(node, q);
    }
  }

  // ----- What quotations read -----

  ghost predicate Blank(isSpace: char -> bool, s: string) { forall k :: 0 <= k < |s| ==> isSpace(s[k]) }

  lemma {:induction false} StripLeftParts(isSpace: char -> bool, s: string) returns (before: string)
    ensures s == before + StripLeft(isSpace, s) && Blank(isSpace, before)
    ensures StripLeft(isSpace, s) != "" ==> !isSpace(StripLeft(isSpace, s)[0])
  {
    before := "";
    if |s| > 0 && isSpace(s[0]) {
      before := StripLeftParts(isSpace, s[1..]);
      before := [s[0]] + before;
    }
  }

  lemma {:induction false} StripRightParts(isSpace: char -> bool, s: string) returns (after: string)
    ensures s == StripRight(isSpace, s) + after && Blank(isSpace, after)
    ensures var inner := StripRight(isSpace, s); inner != "" ==> !isSpace(inner[|inner| - 1]) && inner[0] == s[0]
  {
    after := "";
    if |s| > 0 && isSpace(s[|s| - 1]) {
      after := StripRightParts(isSpace, s[..|s| - 1]);
      after := after + [s[|s| - 1]];
    }
  }

  /** What is left of a text without the blanks around it. */
  ghost predicate Core(isSpace: char -> bool, s: string, before: string, inner: string, after: string) {
    && s == before + (inner + after) && Blank(isSpace, before) && Blank(isSpace, after)
    && (inner != "" ==> !isSpace(inner[0]) && !isSpace(inner[|inner| - 1]))
  }

  lemma StripIsCore(isSpace: char -> bool, s: string) returns (before: string, after: string)
    ensures Core(isSpace, s, before, StripSpace(isSpace, s), after)
  {
    before := StripLeftParts(isSpace, s);
    after := StripRightParts(isSpace, StripLeft(isSpace, s));
  }

  /** A run of twenty characters or more between two marks, on one line and without the closing mark. */
  ghost predicate QuotedRun(text: string, open: char, close: char, m: (nat, nat)) {
    && m.0 + 22 <= m.1 <= |text| && text[m.0] == open && text[m.1 - 1] == close
    && forall k :: m.0 < k < m.1 - 1 ==> text[k] != close && text[k] != '\n'
  }

  /** The quotation of a run: at the marks, with what is between them, stripped and still twenty characters long. */
  ghost predicate QuotesRun(isSpace: char -> bool, node: Node, open: char, close: char, m: (nat, nat), before: string,
      after: string, q: Quotation)
  {
    && QuotedRun(node.text, open, close, m) && |q.text| >= 20
    && Core(isSpace, node.text[m.0 + 1..m.1 - 1], before, q.text, after)
    && q.location == SourceLocation(node.location.start + m.0, node.location.start + m.1, node.location.lineStart,
                                    node.location.lineEnd)
  }

  lemma {:induction false} InlineIsRun(isSpace: char -> bool, node: Node, open: char, close: char,
      matches: seq<(nat, nat)>, q: Quotation)
    returns (m: (nat, nat), before: string, after: string)
    requires forall m :: m in matches ==> m.0 + 1 < m.1 <= |node.text|
    requires forall m :: m in matches ==> IsRun(node.text, open, close, m)
    requires q in Inline(isSpace, node, matches)
    ensures QuotesRun(isSpace, node, open, close, m, before, after, q)
  {
    m := matches[0];
    assert m in matches && IsRun(node.text, open, close, m);
    if q !in Inline(isSpace, node, matches[1..]) {
      before, after := StripIsCore(isSpace, node.text[m.0 + 1..m.1 - 1]);
    } else {
      m, before, after := InlineIsRun(isSpace, node, open, close, matches[1..], q);
    }
  }

  /** The two kinds of marks. */
  predicate AreMarks(open: char, close: char) { (open, close) in {('"', '"'), ('\U{201C}', '\U{201D}')} }

  /**
   A quotation is the text of a quotation node that is not blank, at the node's place, or a quoted run of a paragraph or
   heading; other nodes have none.
   */
  lemma QuotationMeaning(isSpace: char -> bool, node: Node, q: Quotation)
    returns (open: char, close: char, m: (nat, nat), before: string, after: string)
    requires q in Candidates(isSpace, node)
    ensures match node.nodeType
            case Quotation => q == Quoted(node.text, node.location) && !Blank(isSpace, node.text)
            case Paragraph | Heading =>
              AreMarks(open, close) && QuotesRun(isSpace, node, open, close, m, before, after, q)
            case _ => false
  {
    open, close, m := '"', '"', (0, 0);
    if node.nodeType.Quotation? {
      before, after := StripIsCore(isSpace, node.text);
      BlankStripsToNothing(isSpace, node.text);
    } else {
      var marked := InlineOf(isSpace, node, '"', '"');
      if q !in marked {
        open, close := '\U{201C}', '\U{201D}';
      }
      RunsAreRuns(node.text, open, close, 0);
      m, before, after := InlineIsRun(isSpace, node, open, close, Runs(node.text, open, close, 0), q);
    }
  }

  lemma {:induction false} BlankStripsToNothing(isSpace: char -> bool, s: string)
    ensures Blank(isSpace, s) <==> StripSpace(isSpace, s) == ""
  {
    var before, after := StripIsCore(isSpace, s);
    var inner := StripSpace(isSpace, s);
    if inner != "" {
      assert s[|before|] == inner[0];
    }
  }

  /** A quotation node that is not blank has its quotation. */
  lemma NodeIsQuoted(isSpace: char -> bool, node: Node)
    requires node.nodeType.Quotation? && !Blank(isSpace, node.text)
    ensures Candidates(isSpace, node) == [Quoted(node.text, node.location)]
  {
    BlankStripsToNothing(isSpace, node.text);
  }

  lemma {:induction false} RunIsInline(isSpace: char -> bool, node: Node, matches: seq<(nat, nat)>, m: (nat, nat))
    requires forall m :: m in matches ==> m.0 + 1 < m.1 <= |node.text|
    requires m in matches && |StripSpace(isSpace, node.text[m.0 + 1..m.1 - 1])| >= 20
    ensures Quoted(StripSpace(isSpace, node.text[m.0 + 1..m.1 - 1]), Located(node, m)) in Inline(isSpace, node, matches)
  {
    if m != matches[0] {
      RunIsInline(isSpace, node, matches[1..], m);
    }
  }

  /**
   Every quoted run of a paragraph or heading starts inside a run that is found, and that one is quoted unless fewer
   than twenty characters are left of it without the blanks around them.
   */
  lemma RunIsQuoted(isSpace: char -> bool, node: Node, open: char, close: char, run: (nat, nat))
    returns (m: (nat, nat), inner: string)
    requires (node.nodeType.Paragraph? || node.nodeType.Heading?) && AreMarks(open, close)
    requires QuotedRun(node.text, open, close, run)
    ensures QuotedRun(node.text, open, close, m) && m.0 <= run.0 < m.1
    ensures inner == StripSpace(isSpace, node.text[m.0 + 1..m.1 - 1])
    ensures |inner| >= 20 ==> Quoted(inner, Located(node, m)) in Candidates(isSpace, node)
  {
    m := RunIsFoundQuoted(node.text, open, close, run);
    inner := StripSpace(isSpace, node.text[m.0 + 1..m.1 - 1]);
    if |inner| >= 20 {
      RunsAreRuns(node.text, open, close, 0);
      RunIsInline(isSpace, node, Runs(node.text, open, close, 0), m);
    }
  }

  lemma RunIsFoundQuoted(text: string, open: char, close: char, run: (nat, nat)) returns (m: (nat, nat))
    requires QuotedRun(text, open, close, run)
    ensures m in Runs(text, open, close, 0) && QuotedRun(text, open, close, m) && m.0 <= run.0 < m.1
  {
    RunEndIs(text, close, run.0 + 1, run.1 - 1);
    m := RunIsFound(text, open, close, 0, run.0);
    RunsAreRuns(text, open, close, 0);
    assert IsRun(text, open, close, m);
  }

  lemma {:induction false} RunEndIs(text: string, close: char, i: nat, end: nat)
    requires i <= end < |text| && text[end] == close && forall k :: i <= k < end ==> text[k] != close && text[k] != '\n'
    ensures RunEnd(text, close, i) == end
  {
    var j := RunEnd(text, close, i);
    assert j <= end;
  }

  /** The protected span of a quotation, not numbered yet. */
  function SpanOf(q: Quotation): ProtectedSpan {
    ProtectedSpan("", QuotedSpan, q.location, q.text, "", SpanStatus.Extracted)
  }
}
