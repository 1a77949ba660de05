/**
 Lexical changes, the text edit they stand for, and the coordinate map from the old text to the new one.

 `Rebuild` is the reference meaning of a set of changes: one left-to-right pass that copies the gaps and
 writes the targets.  The program never runs it; it splices back to front, splices node texts locally and
 shifts offsets.  The lemmas here are what makes those agree.
 */
module LexicalChanges {
  import opened Sequences

  datatype ChangeStatus = Safe | Proposed

  datatype Change = Change(
    changeId: string, offset: int, length: int, sourceSurface: string, target: string,
    reason: string, precedence: string, confidence: real, status: ChangeStatus,
    ruleId: string, sense: string, rulesetHash: string)
  {
    function End(): int { offset + length }

    function Growth(): int { |target| - length }
  }

  datatype Proposal = Proposal(
    proposalId: string, runId: string, rulesetHash: string, documentHash: string,
    schemaVersion: int, changes: seq<Change>, findings: seq<string>)

  const PROPOSAL_SCHEMA_VERSION := 1

  // ----- Python's sequence operations -----

  function ClampIndex(i: int, n: nat): (r: nat)
    ensures r <= n
  {
    var j := if i < 0 then i + n else i;
    if j < 0 then 0 else if j > n then n else j
  }

  /** Python's `s[start:end]`: negative indices count from the end, all are clamped. */
  function Slice(s: string, start: int, end: int): string {
    var a, b := ClampIndex(start, |s|), ClampIndex(end, |s|);
    if a <= b then s[a..b] else ""
  }

  function Reverse(s: seq<Change>): (r: seq<Change>)
    ensures |r| == |s|
    ensures forall i :: 0 <= i < |s| ==> r[i] == s[|s| - 1 - i]
  {
    if |s| == 0 then [] else Reverse(s[1..]) + [s[0]]
  }

  lemma {:induction false} ReversePermutes(s: seq<Change>)
    ensures multiset(Reverse(s)) == multiset(s)
  {
    if |s| > 0 {
      ReversePermutes(s[1..]);
      HeadAndTail(s);
    }
  }

  /** The sort key (offset, length). */
  predicate KeyLe(a: Change, b: Change) {
    a.offset < b.offset || (a.offset == b.offset && a.length <= b.length)
  }

  function Insert(c: Change, s: seq<Change>): seq<Change> {
    if |s| == 0 || KeyLe(c, s[0]) then [c] + s else [s[0]] + Insert(c, s[1..])
  }

  /** Python's stable `sorted(changes, key=(offset, length))`. */
  function Sort(cs: seq<Change>): seq<Change> {
    if |cs| == 0 then [] else Insert(cs[0], Sort(cs[1..]))
  }

  /** Python's `sorted(..., reverse=True)`, which stays stable by sorting the reversed list. */
  function SortDescending(cs: seq<Change>): seq<Change> {
    Reverse(Sort(Reverse(cs)))
  }

  lemma {:induction false} InsertPermutes(c: Change, s: seq<Change>)
    ensures multiset(Insert(c, s)) == multiset(s) + multiset{c}
  {
    if |s| != 0 && !KeyLe(c, s[0]) {
      InsertPermutes(c, s[1..]);
      HeadAndTail(s);
    }
  }

  lemma {:induction false} SortPermutes(cs: seq<Change>)
    ensures multiset(Sort(cs)) == multiset(cs)
  {
    if |cs| > 0 {
      SortPermutes(cs[1..]);
      InsertPermutes(cs[0], Sort(cs[1..]));
      HeadAndTail(cs);
    }
  }

  predicate SortedByKey(cs: seq<Change>) {
    |cs| <= 1 || (KeyLe(cs[0], cs[1]) && SortedByKey(cs[1..]))
  }

  lemma InsertKeepsSorted(c: Change, s: seq<Change>)
    requires SortedByKey(s)
    ensures SortedByKey(Insert(c, s))
  {
    if |s| != 0 && !KeyLe(c, s[0]) {
      InsertKeepsSorted(c, s[1..]);
      assert Insert(c, s)[1..] == Insert(c, s[1..]);
    }
  }

  lemma {:induction false} SortIsSorted(cs: seq<Change>)
    ensures SortedByKey(Sort(cs))
  {
    if |cs| != 0 {
      SortIsSorted(cs[1..]);
      InsertKeepsSorted(cs[0], Sort(cs[1..]));
    }
  }

  lemma HeadIsLeast(cs: seq<Change>, c: Change)
    requires SortedByKey(cs) && c in cs
    ensures KeyLe(cs[0], c)
  {
    if |cs| > 1 && c != cs[0] {
      HeadIsLeast(cs[1..], c);
    }
  }

  lemma {:induction false} SortedPairs(cs: seq<Change>, i: nat, j: nat)
    requires SortedByKey(cs) && i < j < |cs|
    ensures cs[i].offset < cs[j].offset || (cs[i].offset == cs[j].offset && cs[i].length <= cs[j].length)
    decreases j
  {
    if i > 0 {
      SortedPairs(cs[1..], i - 1, j - 1);
    } else {
      HeadIsLeast(cs, cs[j]);
    }
  }

  /** The changes of one offset and length, in their order. */
  function WithKey(cs: seq<Change>, offset: int, length: int): seq<Change> {
    if |cs| == 0 then []
    else (if cs[0].offset == offset && cs[0].length == length then [cs[0]] else []) + WithKey(cs[1..], offset, length)
  }

  lemma {:induction false} InsertIsStable(c: Change, s: seq<Change>, offset: int, length: int)
    ensures WithKey(Insert(c, s), offset, length) == WithKey([c] + s, offset, length)
  {
    if |s| != 0 && !KeyLe(c, s[0]) {
      InsertIsStable(c, s[1..], offset, length);
      assert ([c] + s)[1..] == s && ([c] + s[1..])[1..] == s[1..];
      assert ([s[0]] + Insert(c, s[1..]))[1..] == Insert(c, s[1..]);
    }
  }

  lemma {:induction false} SortIsStable(cs: seq<Change>, offset: int, length: int)
    ensures WithKey(Sort(cs), offset, length) == WithKey(cs, offset, length)
  {
    if |cs| > 0 {
      SortIsStable(cs[1..], offset, length);
      InsertIsStable(cs[0], Sort(cs[1..]), offset, length);
      assert ([cs[0]] + Sort(cs[1..]))[1..] == Sort(cs[1..]);
    }
  }

  /** Sorting orders by offset and then by length, and keeps the listed order of changes that agree in both. */
  lemma SortMeaning(cs: seq<Change>, offset: int, length: int)
    ensures var s := Sort(cs);
            && multiset(s) == multiset(cs) && WithKey(s, offset, length) == WithKey(cs, offset, length)
            && forall i, j :: 0 <= i < j < |s| ==>
                 s[i].offset < s[j].offset || (s[i].offset == s[j].offset && s[i].length <= s[j].length)
  {
    SortPermutes(cs);
    SortIsSorted(cs);
    SortIsStable(cs, offset, length);
    forall i, j | 0 <= i < j < |Sort(cs)|
      ensures var s := Sort(cs);
              s[i].offset < s[j].offset || (s[i].offset == s[j].offset && s[i].length <= s[j].length)
    {
      SortedPairs(Sort(cs), i, j);
    }
  }

  lemma {:induction false} WithKeyOfSnoc(cs: seq<Change>, c: Change, offset: int, length: int)
    ensures WithKey(cs + [c], offset, length) == WithKey(cs, offset, length) + WithKey([c], offset, length)
  {
    if |cs| > 0 {
      WithKeyOfSnoc(cs[1..], c, offset, length);
      assert (cs + [c])[1..] == cs[1..] + [c];
    } else {
      assert cs + [c] == [c];
    }
  }

  lemma ReverseOfCons(c: Change, rest: seq<Change>)
    ensures Reverse([c] + rest) == Reverse(rest) + [c]
  {
    assert ([c] + rest)[1..] == rest;
  }

  lemma WithKeyOfOne(c: Change, offset: int, length: int)
    ensures WithKey([c], offset, length) == if c.offset == offset && c.length == length then [c] else []
  {
    assert [c][1..] == [];
  }

  lemma {:induction false} WithKeyOfReverse(cs: seq<Change>, offset: int, length: int)
    ensures WithKey(Reverse(cs), offset, length) == Reverse(WithKey(cs, offset, length))
  {
    if |cs| > 0 {
      var rest := WithKey(cs[1..], offset, length);
      WithKeyOfReverse(cs[1..], offset, length);
      WithKeyOfSnoc(Reverse(cs[1..]), cs[0], offset, length);
      WithKeyOfOne(cs[0], offset, length);
      if cs[0].offset == offset && cs[0].length == length {
        ReverseOfCons(cs[0], rest);
      } else {
        PrependEmpty(rest);
        AppendEmpty(Reverse(rest));
      }
    }
  }

  /** Sorted the other way round, changes that agree in offset and length keep the listed order too. */
  lemma SortDescendingMeaning(cs: seq<Change>, offset: int, length: int)
    ensures var s := SortDescending(cs);
            && WithKey(s, offset, length) == WithKey(cs, offset, length)
            && forall i, j :: 0 <= i < j < |s| ==>
                 s[j].offset < s[i].offset || (s[j].offset == s[i].offset && s[j].length <= s[i].length)
  {
    var s := Sort(Reverse(cs));
    SortMeaning(Reverse(cs), offset, length);
    WithKeyOfReverse(s, offset, length);
    WithKeyOfReverse(cs, offset, length);
    ReverseTwice(WithKey(cs, offset, length));
  }

  lemma ReverseTwice(cs: seq<Change>)
    ensures Reverse(Reverse(cs)) == cs
  {
  }

  /** A slice takes the characters between two positions; an index below zero counts from the end, and both are cut. */
  lemma SliceMeaning(s: string, i: nat, j: nat, k: int)
    requires i <= |s| && j <= |s|
    ensures Slice(s, i, j) == if i <= j then s[i..j] else ""
    ensures i < |s| ==> Slice(s, i - |s|, k) == Slice(s, i, k) && Slice(s, k, i - |s|) == Slice(s, k, i)
    ensures k < -|s| ==> Slice(s, k, j) == Slice(s, 0, j) && Slice(s, i, k) == Slice(s, i, 0)
    ensures k > |s| ==> Slice(s, k, j) == Slice(s, |s|, j) && Slice(s, i, k) == Slice(s, i, |s|)
  {
  }

  // ----- Sets of changes -----

  /** Positive lengths, ascending, pairwise disjoint. */
  ghost predicate Ordered(cs: seq<Change>) {
    && (forall i :: 0 <= i < |cs| ==> cs[i].length > 0)
    && (forall i, j :: 0 <= i < j < |cs| ==> cs[i].End() <= cs[j].offset)
  }

  ghost predicate Within(lo: int, hi: int, cs: seq<Change>) {
    forall i :: 0 <= i < |cs| ==> lo <= cs[i].offset && cs[i].End() <= hi
  }

  /** The change lies in the text and its recorded surface is what the text says there. */
  predicate Fits(text: string, c: Change) {
    0 <= c.offset && c.length > 0 && c.End() <= |text| && text[c.offset..c.End()] == c.sourceSurface
  }

  ghost predicate AllFit(text: string, cs: seq<Change>) {
    forall i :: 0 <= i < |cs| ==> Fits(text, cs[i])
  }

  ghost predicate Applicable(text: string, cs: seq<Change>) {
    Ordered(cs) && AllFit(text, cs)
  }

  lemma SameHead(a: seq<Change>, b: seq<Change>)
    requires Ordered(a) && SortedByKey(b) && multiset(a) == multiset(b) && |a| > 0 && |b| > 0
    ensures a[0] == b[0]
  {
    assert b[0] in multiset(a) && a[0] in multiset(b);
    HeadIsLeast(b, a[0]);
    var i :| 0 <= i < |a| && a[i] == b[0];
    assert a[0].offset < a[0].End();
    assert forall k :: 0 < k < |a| ==> a[0].End() <= a[k].offset;
    if i > 0 { assert false; }
  }

  lemma SameTail<T>(a: seq<T>, b: seq<T>)
    requires multiset(a) == multiset(b) && |a| > 0 && |b| > 0 && a[0] == b[0]
    ensures multiset(a[1..]) == multiset(b[1..])
  {
    assert a == [a[0]] + a[1..] && b == [b[0]] + b[1..];
    assert multiset(a[1..]) == multiset(a) - multiset{a[0]};
    assert multiset(b[1..]) == multiset(b) - multiset{b[0]};
  }

  lemma OrderedTail(cs: seq<Change>)
    requires Ordered(cs) && |cs| > 0
    ensures Ordered(cs[1..])
  {
  }

  lemma TailWithin(lo: int, hi: int, cs: seq<Change>)
    requires Ordered(cs) && Within(lo, hi, cs) && |cs| > 0
    ensures lo <= cs[0].offset < cs[0].End() <= hi
    ensures Ordered(cs[1..]) && Within(cs[0].End(), hi, cs[1..])
  {
  }

  /** Leaving out some of the changes after the first keeps the order. */
  lemma HeadBeforeSome(cs: seq<Change>, some: seq<Change>)
    requires Ordered(cs) && |cs| > 0 && Ordered(some) && forall c :: c in some ==> c in cs[1..]
    ensures Ordered([cs[0]] + some)
  {
    forall i | 0 <= i < |some| ensures cs[0].End() <= some[i].offset {
      assert some[i] in cs[1..];
    }
  }

  /** A strictly ascending list is the only sorted list with its elements. */
  lemma {:induction false} SortedIsUnique(a: seq<Change>, b: seq<Change>)
    requires Ordered(a) && SortedByKey(b) && multiset(a) == multiset(b)
    ensures a == b
  {
    assert |a| == |multiset(a)| == |multiset(b)| == |b|;
    if |a| > 0 {
      SameHead(a, b);
      SameTail(a, b);
      OrderedTail(a);
      SortedIsUnique(a[1..], b[1..]);
      assert a == [a[0]] + a[1..] && b == [b[0]] + b[1..];
    }
  }

  /** Disjoint changes are processed in the same order whatever order the proposal lists them in. */
  lemma OrderIndependent(cs: seq<Change>, ds: seq<Change>)
    requires multiset(cs) == multiset(ds) && Ordered(Sort(cs))
    ensures Sort(ds) == Sort(cs)
    ensures SortDescending(ds) == Reverse(Sort(cs))
  {
    SortPermutes(cs);
    SortsAlike(Sort(cs), ds);
    ReversePermutes(ds);
    SortsAlike(Sort(cs), Reverse(ds));
  }

  lemma SortsAlike(a: seq<Change>, ds: seq<Change>)
    requires Ordered(a) && multiset(a) == multiset(ds)
    ensures Sort(ds) == a
  {
    SortPermutes(ds);
    SortIsSorted(ds);
    SortedIsUnique(a, Sort(ds));
  }

  // ----- The reference meaning: one left-to-right pass -----

  /** Each change lies in [lo, hi) and starts at or after the end of the one before it. */
  ghost predicate Chained(lo: int, hi: int, cs: seq<Change>)
    decreases |cs|
  {
    |cs| == 0 || (lo <= cs[0].offset < cs[0].End() <= hi && Chained(cs[0].End(), hi, cs[1..]))
  }

  lemma {:induction false} OrderedIsChained(lo: int, hi: int, cs: seq<Change>)
    requires Ordered(cs) && Within(lo, hi, cs)
    ensures Chained(lo, hi, cs)
    decreases |cs|
  {
    if |cs| > 0 {
      TailWithin(lo, hi, cs);
      OrderedIsChained(cs[0].End(), hi, cs[1..]);
    }
  }

  /** Copies the gaps and writes the targets; only used for changes chained between `from` and the end of the text. */
  ghost function Rebuild(text: string, from: int, cs: seq<Change>): string
    decreases |cs|
  {
    if !(0 <= from <= |text|) then ""
    else if |cs| == 0 then text[from..]
    else if from <= cs[0].offset <= |text|
      then text[from..cs[0].offset] + cs[0].target + Rebuild(text, cs[0].End(), cs[1..])
    else ""
  }

  ghost function TotalGrowth(cs: seq<Change>): int {
    if cs == [] then 0 else cs[0].Growth() + TotalGrowth(cs[1..])
  }

  /** Net growth of the changes that end at or before `p`. */
  ghost function ShiftAt(p: int, cs: seq<Change>): int {
    if cs == [] then 0 else (if cs[0].End() <= p then cs[0].Growth() else 0) + ShiftAt(p, cs[1..])
  }

  /** No change straddles the position `p`. */
  ghost predicate Uncut(p: int, cs: seq<Change>) {
    forall i :: 0 <= i < |cs| ==> cs[i].End() <= p || p <= cs[i].offset
  }

  /** In-bounds changes cut the pass in two at `p`: the first `k` before it, the others after it. */
  ghost predicate SplitsAt(text: string, from: nat, cs: seq<Change>, k: nat, p: nat) {
    && Ordered(cs) && k <= |cs| && from <= p <= |text|
    && Within(from, p, cs[..k]) && Within(p, |text|, cs[k..])
  }

  lemma {:induction false} RebuildParts(text: string, from: nat, first: seq<Change>, last: seq<Change>, p: nat)
    requires from <= p <= |text| && Chained(from, p, first) && Chained(p, |text|, last)
    ensures Rebuild(text, from, first + last) == Rebuild(text[..p], from, first) + Rebuild(text, p, last)
    decreases |first|
  {
    if |first| == 0 {
      RebuildFromLater(text, from, last, p);
      assert first + last == last;
    } else {
      var c := first[0];
      RebuildParts(text, c.End(), first[1..], last, p);
      ConcatTail(first, last);
      SliceOfPrefix(text, from, c.offset, p);
      Associate(text[from..c.offset] + c.target, Rebuild(text[..p], c.End(), first[1..]), Rebuild(text, p, last));
    }
  }

  lemma RebuildSplits(text: string, from: nat, cs: seq<Change>, k: nat, p: nat)
    requires SplitsAt(text, from, cs, k, p)
    ensures Rebuild(text, from, cs) == Rebuild(text[..p], from, cs[..k]) + Rebuild(text, p, cs[k..])
  {
    OrderedIsChained(from, p, cs[..k]);
    OrderedIsChained(p, |text|, cs[k..]);
    RebuildParts(text, from, cs[..k], cs[k..], p);
    assert cs[..k] + cs[k..] == cs;
  }

  lemma RebuildFromLater(text: string, from: nat, cs: seq<Change>, p: nat)
    requires from <= p <= |text| && Chained(p, |text|, cs)
    ensures Rebuild(text, from, cs) == text[from..p] + Rebuild(text, p, cs)
  {
    if |cs| == 0 {
      assert text[from..] == text[from..p] + text[p..];
    } else {
      var c := cs[0];
      GapSplits(text, from, p, c.offset, c.target, Rebuild(text, c.End(), cs[1..]));
    }
  }

  lemma GapSplits(text: string, from: nat, p: nat, q: nat, target: string, rest: string)
    requires from <= p <= q <= |text|
    ensures text[from..q] + target + rest == text[from..p] + (text[p..q] + target + rest)
  {
    assert text[from..q] == text[from..p] + text[p..q];
  }

  lemma {:induction false} RebuildLength(text: string, from: nat, cs: seq<Change>)
    requires from <= |text| && Chained(from, |text|, cs)
    ensures |Rebuild(text, from, cs)| == |text| - from + TotalGrowth(cs)
    decreases |cs|
  {
    if |cs| != 0 {
      RebuildLength(text, cs[0].End(), cs[1..]);
    }
  }

  lemma NoShiftBefore(p: int, cs: seq<Change>)
    requires forall i :: 0 <= i < |cs| ==> p < cs[i].End()
    ensures ShiftAt(p, cs) == 0
  {
    if |cs| > 0 {
      NoShiftBefore(p, cs[1..]);
    }
  }

  /** `k` of the changes lie before `p`, the others from `p` on. */
  ghost predicate CutAt(text: string, cs: seq<Change>, k: nat, p: nat) {
    k <= |cs| && p <= |text| && Within(0, p, cs[..k]) && Within(p, |text|, cs[k..])
  }

  lemma HeadWithin(lo: int, hi: int, cs: seq<Change>)
    requires |cs| > 0 && lo <= cs[0].offset && cs[0].End() <= hi && Within(lo, hi, cs[1..])
    ensures Within(lo, hi, cs)
  {
    forall i | 0 <= i < |cs| ensures lo <= cs[i].offset && cs[i].End() <= hi {
      assert i > 0 ==> cs[i] == cs[1..][i - 1];
    }
  }

  /** A position no change straddles is a cut, and the shift there is the growth of the changes before it. */
  lemma {:induction false} CutExists(text: string, cs: seq<Change>, p: nat) returns (k: nat)
    requires Applicable(text, cs) && p <= |text| && Uncut(p, cs)
    ensures CutAt(text, cs, k, p) && ShiftAt(p, cs) == TotalGrowth(cs[..k])
  {
    if |cs| == 0 {
      k := 0;
    } else if cs[0].End() <= p {
      k := CutExists(text, cs[1..], p);
      k := k + 1;
      TakeTail(cs, k);
      HeadWithin(0, p, cs[..k]);
    } else {
      k := 0;
      NoShiftBefore(p, cs);
    }
  }

  /** The text after the changes. */
  ghost function NewText(text: string, cs: seq<Change>): string
    requires Applicable(text, cs)
  {
    Rebuild(text, 0, cs)
  }

  /** The segment [p, q) of the text after the changes inside it. */
  ghost function EditedSegment(text: string, p: nat, q: nat, inside: seq<Change>): string
    requires p <= q <= |text| && Ordered(inside) && Within(p, q, inside)
  {
    Rebuild(text[..q], p, inside)
  }

  lemma NewTextLength(text: string, cs: seq<Change>)
    requires Applicable(text, cs)
    ensures |NewText(text, cs)| == |text| + TotalGrowth(cs)
  {
    OrderedIsChained(0, |text|, cs);
    RebuildLength(text, 0, cs);
  }

  /** Cut at `p`, the new text starts with the edited prefix, whose length is p plus the shift. */
  lemma CoordinateMapAtCut(text: string, cs: seq<Change>, k: nat, p: nat)
    requires Applicable(text, cs) && CutAt(text, cs, k, p)
    ensures |EditedSegment(text, 0, p, cs[..k])| == p + TotalGrowth(cs[..k])
    ensures EditedSegment(text, 0, p, cs[..k]) <= NewText(text, cs)
  {
    RebuildSplits(text, 0, cs, k, p);
    OrderedIsChained(0, p, cs[..k]);
    RebuildLength(text[..p], 0, cs[..k]);
  }

  lemma SegmentBetweenCuts(text: string, cs: seq<Change>, i: nat, j: nat, p: nat, q: nat)
    requires Applicable(text, cs) && i <= j && p <= q && CutAt(text, cs, i, p) && CutAt(text, cs, j, q)
    ensures Within(p, q, cs[i..j])
    ensures EditedSegment(text, 0, p, cs[..i]) + EditedSegment(text, p, q, cs[i..j]) <= NewText(text, cs)
    ensures |EditedSegment(text, 0, p, cs[..i])| == p + TotalGrowth(cs[..i])
    ensures |EditedSegment(text, 0, q, cs[..j])| == q + TotalGrowth(cs[..j])
    ensures EditedSegment(text, 0, q, cs[..j])
            == EditedSegment(text, 0, p, cs[..i]) + EditedSegment(text, p, q, cs[i..j])
  {
    CoordinateMapAtCut(text, cs, j, q);
    CoordinateMapAtCut(text, cs, i, p);
    SplitPrefix(text, cs, i, j, p, q);
    PrefixImage(text, cs, i, j, p, q);
  }

  /** The changes that overlap the span [start, end). */
  function Inside(start: int, end: int, cs: seq<Change>): seq<Change> {
    if |cs| == 0 then []
    else (if cs[0].offset < end && start < cs[0].End() then [cs[0]] else []) + Inside(start, end, cs[1..])
  }

  /** The first `n` changes end at or before `p` and the others start at or after it. */
  ghost predicate CutBy(cs: seq<Change>, n: nat, p: int) {
    n <= |cs| && forall k :: 0 <= k < |cs| ==> if k < n then cs[k].End() <= p else p <= cs[k].offset
  }

  lemma CutByTail(cs: seq<Change>, n: nat, p: int)
    requires |cs| > 0 && CutBy(cs, n, p)
    ensures CutBy(cs[1..], if n == 0 then 0 else n - 1, p)
  {
  }

  lemma {:induction false} InsideIsSegment(start: int, end: int, cs: seq<Change>, i: nat, j: nat)
    requires i <= j && CutBy(cs, i, start) && CutBy(cs, j, end) && forall c :: c in cs ==> c.length > 0
    ensures Inside(start, end, cs) == cs[i..j]
    decreases |cs|
  {
    if |cs| > 0 {
      CutByTail(cs, i, start);
      CutByTail(cs, j, end);
      assert cs[0] in cs && forall c :: c in cs[1..] ==> c in cs;
      InsideIsSegment(start, end, cs[1..], if i == 0 then 0 else i - 1, if j == 0 then 0 else j - 1);
      PrependEmpty(Inside(start, end, cs[1..]));
      SegmentOfTail(cs, i, j);
    }
  }

  lemma SegmentOfTail(cs: seq<Change>, i: nat, j: nat)
    requires i <= j <= |cs| && |cs| > 0
    ensures i > 0 ==> cs[1..][i - 1..j - 1] == cs[i..j]
    ensures i == 0 && j > 0 ==> cs[i..j] == [cs[0]] + cs[1..][..j - 1]
    ensures j == 0 ==> cs[i..j] == []
  {
  }

  lemma CutAtCutsBy(text: string, cs: seq<Change>, n: nat, p: nat)
    requires CutAt(text, cs, n, p)
    ensures CutBy(cs, n, p)
  {
    forall k | 0 <= k < |cs| ensures if k < n then cs[k].End() <= p else p <= cs[k].offset {
      if k < n {
        assert cs[..n][k] == cs[k];
      } else {
        assert cs[n..][k - n] == cs[k];
      }
    }
  }

  lemma CutsOrdered(text: string, cs: seq<Change>, i: nat, j: nat, p: nat, q: nat)
    requires Applicable(text, cs) && p <= q && CutAt(text, cs, i, p) && CutAt(text, cs, j, q)
    ensures i <= j && Inside(p, q, cs) == cs[i..j]
  {
    CutAtCutsBy(text, cs, i, p);
    CutAtCutsBy(text, cs, j, q);
    assert j < |cs| ==> cs[j].length > 0;
    if j < i { assert false; }
    InsideIsSegment(p, q, cs, i, j);
  }

  /** The coordinate map: up to the shifted position the new text is the old prefix with its own changes applied. */
  lemma CoordinateMap(text: string, cs: seq<Change>, p: nat)
    requires Applicable(text, cs) && p <= |text| && Uncut(p, cs)
    ensures Ordered(Inside(0, p, cs)) && Within(0, p, Inside(0, p, cs))
    ensures 0 <= p + ShiftAt(p, cs) <= |NewText(text, cs)|
    ensures NewText(text, cs)[..p + ShiftAt(p, cs)] == EditedSegment(text, 0, p, Inside(0, p, cs))
  {
    var k := CutExists(text, cs, p);
    CutAtStart(text, cs);
    CutsOrdered(text, cs, 0, k, 0, p);
    PrefixOrdered(text, cs, k, p);
    CoordinateMapAtCut(text, cs, k, p);
  }

  lemma CutAtStart(text: string, cs: seq<Change>)
    requires Applicable(text, cs)
    ensures CutAt(text, cs, 0, 0)
  {
  }

  lemma PrefixOrdered(text: string, cs: seq<Change>, k: nat, p: nat)
    requires Applicable(text, cs) && CutAt(text, cs, k, p)
    ensures Ordered(cs[..k]) && Within(0, p, cs[..k]) && cs[0..k] == cs[..k]
  {
  }

  /**
   The new text between the shifted positions is the old segment with the overlapping changes applied,
   for any two positions that no change straddles.
   */
  lemma SegmentImage(text: string, cs: seq<Change>, p: nat, q: nat)
    requires Applicable(text, cs) && p <= q <= |text| && Uncut(p, cs) && Uncut(q, cs)
    ensures Ordered(Inside(p, q, cs)) && Within(p, q, Inside(p, q, cs))
    ensures 0 <= p + ShiftAt(p, cs) <= q + ShiftAt(q, cs) <= |NewText(text, cs)|
    ensures NewText(text, cs)[p + ShiftAt(p, cs)..q + ShiftAt(q, cs)] == EditedSegment(text, p, q, Inside(p, q, cs))
  {
    var i := CutExists(text, cs, p);
    var j := CutExists(text, cs, q);
    CutsOrdered(text, cs, i, j, p, q);
    ImageBetweenCuts(text, cs, i, j, p, q);
  }

  lemma ImageBetweenCuts(text: string, cs: seq<Change>, i: nat, j: nat, p: nat, q: nat)
    requires Applicable(text, cs) && i <= j && p <= q && CutAt(text, cs, i, p) && CutAt(text, cs, j, q)
    ensures Ordered(cs[i..j]) && Within(p, q, cs[i..j])
    ensures 0 <= p + TotalGrowth(cs[..i]) <= q + TotalGrowth(cs[..j]) <= |NewText(text, cs)|
    ensures NewText(text, cs)[p + TotalGrowth(cs[..i])..q + TotalGrowth(cs[..j])] == EditedSegment(text, p, q, cs[i..j])
  {
    SegmentBetweenCuts(text, cs, i, j, p, q);
    SliceAfter(NewText(text, cs), EditedSegment(text, 0, p, cs[..i]), EditedSegment(text, p, q, cs[i..j]));
  }

  lemma PrefixImage(text: string, cs: seq<Change>, i: nat, j: nat, p: nat, q: nat)
    requires i <= j <= |cs| && p <= q <= |text| && SplitsAt(text[..q], 0, cs[..j], i, p)
    requires Ordered(cs[..i]) && Within(0, p, cs[..i]) && Ordered(cs[i..j]) && Within(p, q, cs[i..j])
    ensures Rebuild(text[..q], 0, cs[..j]) == Rebuild(text[..p], 0, cs[..i]) + Rebuild(text[..q], p, cs[i..j])
  {
    RebuildSplits(text[..q], 0, cs[..j], i, p);
    assert text[..q][..p] == text[..p] && cs[..j][..i] == cs[..i] && cs[..j][i..] == cs[i..j];
  }

  lemma SliceAfter(whole: string, a: string, b: string)
    requires a + b <= whole
    ensures whole[|a|..|a| + |b|] == b
  {
    assert whole[..|a| + |b|] == a + b;
    assert whole[|a|..|a| + |b|] == whole[..|a| + |b|][|a|..];
  }

  lemma SplitPrefix(text: string, cs: seq<Change>, i: nat, j: nat, p: nat, q: nat)
    requires Applicable(text, cs) && i <= j <= |cs| && p <= q <= |text|
    requires Within(0, p, cs[..i]) && Within(p, |text|, cs[i..]) && Within(0, q, cs[..j])
    ensures SplitsAt(text[..q], 0, cs[..j], i, p)
    ensures Within(p, q, cs[i..j])
  {
    assert cs[..j][..i] == cs[..i];
    assert forall k :: 0 <= k < j - i ==> cs[..j][i..][k] == cs[i..][k] && cs[..j][i..][k] == cs[..j][i + k];
  }
}
