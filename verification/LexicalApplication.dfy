/** Applying a proposal to a text: the back-to-front splice of `apply_changes`. */
module LexicalApplication {
  import opened Wrappers
  import opened Sequences
  import opened LexicalChanges

  function Splice(w: string, c: Change): string
    requires 0 <= c.offset && c.length > 0 && c.End() <= |w|
  {
    w[..c.offset] + c.target + w[c.End()..]
  }

  /** Splice the changes one after the other into the working text, checking each against it first. */
  function SpliceInOrder(w: string, cs: seq<Change>): Result<string>
    decreases |cs|
  {
    if |cs| == 0 then Ok(w)
    else
      var c := cs[0];
      if c.offset < 0 || c.length <= 0 || c.End() > |w| then Err(ChangeOutsideDocument(c.changeId))
      else if w[c.offset..c.End()] != c.sourceSurface then Err(ChangeTextMismatch(c.changeId))
      else SpliceInOrder(Splice(w, c), cs[1..])
  }

  function Selected(cs: seq<Change>, only: Option<ChangeStatus>): seq<Change> {
    if |cs| == 0 then []
    else (if only.None? || cs[0].status == only.value then [cs[0]] else []) + Selected(cs[1..], only)
  }

  lemma {:induction false} SelectAll(cs: seq<Change>)
    ensures Selected(cs, None) == cs
  {
    if |cs| > 0 {
      SelectAll(cs[1..]);
    }
  }

  /** What `apply_changes` returns; `sha256` is the digest of the text. */
  function AppliedText(sha256: string -> string, text: string, proposal: Proposal,
      only: Option<ChangeStatus>): Result<string>
  {
    if proposal.schemaVersion != PROPOSAL_SCHEMA_VERSION then Err(UnsupportedSchema)
    else if sha256(text) != proposal.documentHash then Err(DocumentHashMismatch)
    else SpliceInOrder(text, SortDescending(Selected(proposal.changes, only)))
  }

  method ApplyChanges(sha256: string -> string, text: string, proposal: Proposal, only: Option<ChangeStatus>)
    returns (r: Result<string>)
    ensures r == AppliedText(sha256, text, proposal, only)
  {
    if proposal.schemaVersion != PROPOSAL_SCHEMA_VERSION {
      return Err(UnsupportedSchema);
    }
    if sha256(text) != proposal.documentHash {
      return Err(DocumentHashMismatch);
    }
    var ordered := SortDescending(Selected(proposal.changes, only));
    var working := text;
    for i := 0 to |ordered|
      invariant SpliceInOrder(working, ordered[i..]) == SpliceInOrder(text, ordered)
    {
      var c := ordered[i];
      assert ordered[i..][1..] == ordered[i + 1..];
      if c.offset < 0 || c.length <= 0 || c.End() > |working| {
        return Err(ChangeOutsideDocument(c.changeId));
      }
      if working[c.offset..c.End()] != c.sourceSurface {
        return Err(ChangeTextMismatch(c.changeId));
      }
      working := working[..c.offset] + c.target + working[c.End()..];
    }
    return Ok(working);
  }

  // ----- The splice is the left-to-right pass -----

  lemma SpliceKeepsFits(text: string, d: Change, c: Change)
    requires Fits(text, d) && Fits(text, c) && d.End() <= c.offset
    ensures Fits(Splice(text, c), d)
  {
    var text' := Splice(text, c);
    assert text'[..c.offset] == text[..c.offset];
    assert text'[d.offset..d.End()] == text'[..c.offset][d.offset..d.End()];
    assert text[d.offset..d.End()] == text[..c.offset][d.offset..d.End()];
  }

  lemma RebuildOfSplice(text: string, init: seq<Change>, c: Change)
    requires Ordered(init) && Ordered(init + [c]) && Within(0, c.offset, init) && Fits(text, c)
    ensures Rebuild(Splice(text, c), 0, init) == Rebuild(text, 0, init + [c])
  {
    var text' := Splice(text, c);
    OrderedIsChained(0, c.offset, init);
    RebuildParts(text, 0, init, [c], c.offset);
    RebuildParts(text', 0, init, [], c.offset);
    AppendEmpty(init);
    SpliceParts(text, c);
  }

  lemma SpliceParts(text: string, c: Change)
    requires Fits(text, c)
    ensures |Splice(text, c)| >= c.offset && Splice(text, c)[..c.offset] == text[..c.offset]
    ensures Rebuild(Splice(text, c), c.offset, []) == Rebuild(text, c.offset, [c])
  {
    assert [c][1..] == [];
    assert text[c.offset..c.offset] + c.target + text[c.End()..] == c.target + text[c.End()..];
    assert Splice(text, c)[c.offset..] == c.target + text[c.End()..];
  }

  lemma SpliceLast(text: string, cs: seq<Change>)
    requires Applicable(text, cs) && |cs| > 0
    ensures var init, c := cs[..|cs| - 1], cs[|cs| - 1];
            Applicable(Splice(text, c), init) && NewText(Splice(text, c), init) == NewText(text, cs)
  {
    var init, c := cs[..|cs| - 1], cs[|cs| - 1];
    forall i | 0 <= i < |init| ensures Fits(Splice(text, c), init[i]) && init[i].End() <= c.offset {
      assert init[i] == cs[i];
      SpliceKeepsFits(text, cs[i], c);
    }
    assert cs == init + [c];
    RebuildOfSplice(text, init, c);
  }

  /** If every change but the last fits the text after the last is spliced, it fitted before. */
  lemma FitsBefore(text: string, cs: seq<Change>)
    requires Ordered(cs) && |cs| > 0 && Fits(text, cs[|cs| - 1])
    requires AllFit(Splice(text, cs[|cs| - 1]), cs[..|cs| - 1])
    ensures AllFit(text, cs)
  {
    var c := cs[|cs| - 1];
    var text' := Splice(text, c);
    assert text'[..c.offset] == text[..c.offset];
    forall i | 0 <= i < |cs| - 1 ensures Fits(text, cs[i]) {
      var d := cs[i];
      assert d == cs[..|cs| - 1][i] && d.End() <= c.offset;
      assert text'[d.offset..d.End()] == text'[..c.offset][d.offset..d.End()];
      assert text[d.offset..d.End()] == text[..c.offset][d.offset..d.End()];
    }
  }

  /**
   Disjoint changes splice back to front exactly when each fits the original text, and give the left-to-right pass.
   */
  lemma {:induction false} BackToFrontIsLeftToRight(text: string, cs: seq<Change>)
    requires Ordered(cs)
    ensures SpliceInOrder(text, Reverse(cs)).Ok? <==> AllFit(text, cs)
    ensures AllFit(text, cs) ==> SpliceInOrder(text, Reverse(cs)) == Ok(NewText(text, cs))
    decreases |cs|
  {
    if |cs| > 0 {
      var init, c := cs[..|cs| - 1], cs[|cs| - 1];
      assert Reverse(cs)[0] == c && Reverse(cs)[1..] == Reverse(init);
      if Fits(text, c) {
        BackToFrontIsLeftToRight(Splice(text, c), init);
        if AllFit(text, cs) {
          SpliceLast(text, cs);
        } else if AllFit(Splice(text, c), init) {
          FitsBefore(text, cs);
        }
      }
    }
  }

  lemma {:induction false} GrowthOfSorted(cs: seq<Change>)
    ensures TotalGrowth(Sort(cs)) == TotalGrowth(cs)
  {
    if |cs| > 0 {
      GrowthOfSorted(cs[1..]);
      GrowthOfInsert(cs[0], Sort(cs[1..]));
    }
  }

  lemma GrowthOfInsert(c: Change, s: seq<Change>)
    ensures TotalGrowth(Insert(c, s)) == c.Growth() + TotalGrowth(s)
  {
    if |s| != 0 && !KeyLe(c, s[0]) {
      GrowthOfInsert(c, s[1..]);
    } else {
      assert ([c] + s)[1..] == s;
    }
  }

  /**
   `apply_changes` on changes that are disjoint in some order: when it succeeds, and the text and length it returns.
   */
  lemma ApplyChangesMeaning(sha256: string -> string, text: string, proposal: Proposal, only: Option<ChangeStatus>)
    requires Ordered(Sort(Selected(proposal.changes, only)))
    ensures var cs := Sort(Selected(proposal.changes, only));
            var r := AppliedText(sha256, text, proposal, only);
            && (r.Ok? <==> proposal.schemaVersion == PROPOSAL_SCHEMA_VERSION
                           && sha256(text) == proposal.documentHash && AllFit(text, cs))
            && (r.Ok? ==> r.value == NewText(text, cs)
                          && |r.value| == |text| + TotalGrowth(Selected(proposal.changes, only)))
  {
    var selected := Selected(proposal.changes, only);
    OrderIndependent(selected, selected);
    BackToFrontIsLeftToRight(text, Sort(selected));
    GrowthOfSorted(selected);
    if AllFit(text, Sort(selected)) {
      NewTextLength(text, Sort(selected));
    }
  }

  lemma SelectedMultiset(a: seq<Change>, b: seq<Change>, only: Option<ChangeStatus>)
    requires multiset(a) == multiset(b)
    ensures multiset(Selected(a, only)) == multiset(Selected(b, only))
  {
    SelectedCounts(a, only);
    SelectedCounts(b, only);
  }

  lemma {:induction false} SelectedCounts(a: seq<Change>, only: Option<ChangeStatus>)
    ensures forall c :: multiset(Selected(a, only))[c] ==
                        if only.None? || c.status == only.value then multiset(a)[c] else 0
  {
    if |a| > 0 {
      SelectedCounts(a[1..], only);
      assert a == [a[0]] + a[1..];
    }
  }

  /** The order in which a proposal lists disjoint changes is irrelevant. */
  lemma ApplyChangesOrderIndependent(sha256: string -> string, text: string, p: Proposal, q: Proposal,
      only: Option<ChangeStatus>)
    requires p.schemaVersion == q.schemaVersion && p.documentHash == q.documentHash
    requires multiset(p.changes) == multiset(q.changes) && Ordered(Sort(Selected(p.changes, only)))
    ensures AppliedText(sha256, text, p, only) == AppliedText(sha256, text, q, only)
  {
    var a, b := Selected(p.changes, only), Selected(q.changes, only);
    SelectedMultiset(p.changes, q.changes, only);
    SplicedAlike(a, b);
  }

  lemma SplicedAlike(a: seq<Change>, b: seq<Change>)
    requires multiset(a) == multiset(b) && Ordered(Sort(a))
    ensures SortDescending(a) == SortDescending(b)
  {
    OrderIndependent(a, b);
    OrderIndependent(a, a);
  }

  // ----- Overlapping changes -----

  /**
   After `b`, an overlapping change `a` that starts no later fits exactly when its part of the text past b's start is
   back.
   */
  lemma StillFitsIff(text: string, a: Change, b: Change)
    requires Fits(text, a) && Fits(text, b) && a.offset <= b.offset < a.End()
    ensures Fits(Splice(text, b), a) <==> text[b.offset..a.End()] <= b.target + text[b.End()..]
  {
    var before, after := text[..b.offset], b.target + text[b.End()..];
    var spliced := Splice(text, b);
    assert spliced == before + after;
    assert text[a.offset..a.End()] == before[a.offset..] + text[b.offset..a.End()];
    if a.End() <= |spliced| {
      var n := a.End() - b.offset;
      assert spliced[a.offset..a.End()] == before[a.offset..] + after[..n];
      SameSecondPart(before[a.offset..], text[b.offset..a.End()], after[..n]);
    }
  }

  lemma SameSecondPart(first: string, p: string, q: string)
    ensures first + p == first + q <==> p == q
  {
    assert (first + p)[|first|..] == p && (first + q)[|first|..] == q;
  }

  lemma TwoSorted(a: Change, b: Change)
    requires KeyLe(a, b)
    ensures SortDescending([b, a]) == [b, a] && (!KeyLe(b, a) ==> SortDescending([a, b]) == [b, a])
  {
    assert Reverse([a, b]) == [b, a] && Reverse([b, a]) == [a, b];
    SortTwo(a, b);
    if !KeyLe(b, a) {
      SortTwo(b, a);
    }
  }

  lemma SortTwo(a: Change, b: Change)
    ensures Sort([a, b]) == if KeyLe(a, b) then [a, b] else [b, a]
  {
    var none: seq<Change> := [];
    assert [a, b][1..] == [b] && [b][1..] == none;
    assert Sort([b]) == Insert(b, none) == [b];
    assert Insert(a, none) == [a];
  }

  lemma SpliceTwo(text: string, a: Change, b: Change)
    requires Fits(text, b)
    ensures SpliceInOrder(text, [b, a]).Ok? <==> Fits(Splice(text, b), a)
  {
    var spliced := Splice(text, b);
    assert [b, a][0] == b && [b, a][1..] == [a] && SpliceInOrder(text, [b, a]) == SpliceInOrder(spliced, [a]);
    if Fits(spliced, a) {
      assert SpliceInOrder(spliced, [a]) == SpliceInOrder(Splice(spliced, a), [a][1..]);
    }
  }

  /**
   `apply_changes` alone does not reject overlapping changes.  Of two that overlap and fit the text, the later by
   (offset, length) is spliced first; the pair is accepted exactly when the new text from there on starts with what
   `a` covered.
   */
  lemma OverlapIsAcceptedIff(sha256: string -> string, text: string, a: Change, b: Change, proposal: Proposal)
    requires Fits(text, a) && Fits(text, b) && a.offset <= b.offset < a.End() && KeyLe(a, b)
    requires proposal.changes == [b, a] || (proposal.changes == [a, b] && !KeyLe(b, a))
    requires proposal.schemaVersion == PROPOSAL_SCHEMA_VERSION && proposal.documentHash == sha256(text)
    ensures AppliedText(sha256, text, proposal, None).Ok? <==> text[b.offset..a.End()] <= b.target + text[b.End()..]
  {
    SelectAll(proposal.changes);
    TwoSorted(a, b);
    SpliceTwo(text, a, b);
    StillFitsIff(text, a, b);
  }
}
