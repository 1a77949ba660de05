/** Review journals: which changes of a proposal survive review. */
module LexicalReview {
  import opened Wrappers
  import opened Sequences
  import opened LexicalChanges
  import opened LexicalApplication

  datatype ReviewDecision = ReviewDecision(changeId: string, decision: string)

  datatype Journal = Journal(journalId: string, schemaVersion: int, proposalRunId: string,
                             decisions: seq<ReviewDecision>)

  const REVIEW_SCHEMA_VERSION := 1

  // The digest of a proposal payload without its run id.
  type RunIds = (string, string, seq<Change>, seq<string>) -> string

  /** The first decision that is empty, neither accept nor reject, or a repetition. */
  function DecisionError(ds: seq<ReviewDecision>, seen: set<string>): Option<Error> {
    if |ds| == 0 then None
    else if ds[0].changeId == "" then Some(EmptyDecisionId)
    else if ds[0].decision != "accept" && ds[0].decision != "reject" then Some(InvalidDecision(ds[0].changeId))
    else if ds[0].changeId in seen then Some(DuplicateDecision(ds[0].changeId))
    else DecisionError(ds[1..], seen + {ds[0].changeId})
  }

  function UnknownDecision(ds: seq<ReviewDecision>, known: set<string>): Option<Error> {
    if |ds| == 0 then None
    else if ds[0].changeId !in known then Some(UnknownChange(ds[0].changeId))
    else UnknownDecision(ds[1..], known)
  }

  function KeepIds(cs: seq<Change>, ids: set<string>): seq<Change> {
    if |cs| == 0 then []
    else (if cs[0].changeId in ids then [cs[0]] else []) + KeepIds(cs[1..], ids)
  }

  function AcceptedIds(journal: Journal): set<string> {
    set d | d in journal.decisions && d.decision == "accept" :: d.changeId
  }

  function Reviewed(runIds: RunIds, proposal: Proposal, journal: Journal): Result<Proposal> {
    if journal.schemaVersion != REVIEW_SCHEMA_VERSION then Err(UnsupportedSchema)
    else if DecisionError(journal.decisions, {}).Some? then Err(DecisionError(journal.decisions, {}).value)
    else
      var known := set c | c in proposal.changes :: c.changeId;
      if UnknownDecision(journal.decisions, known).Some? then Err(UnknownDecision(journal.decisions, known).value)
      else
        var accepted := KeepIds(proposal.changes, AcceptedIds(journal));
        var runId := runIds(proposal.rulesetHash, proposal.documentHash, accepted, proposal.findings);
        Ok(Proposal(runId, runId, proposal.rulesetHash, proposal.documentHash, PROPOSAL_SCHEMA_VERSION, accepted,
                    proposal.findings))
  }

  method ValidateDecisions(ds: seq<ReviewDecision>) returns (r: Option<Error>)
    ensures r == DecisionError(ds, {})
  {
    var seen: set<string> := {};
    for i := 0 to |ds|
      invariant DecisionError(ds[i..], seen) == DecisionError(ds, {})
    {
      var decision := ds[i];
      assert ds[i..][0] == decision && ds[i..][1..] == ds[i + 1..];
      if decision.changeId == "" {
        return Some(EmptyDecisionId);
      }
      if decision.decision != "accept" && decision.decision != "reject" {
        return Some(InvalidDecision(decision.changeId));
      }
      if decision.changeId in seen {
        return Some(DuplicateDecision(decision.changeId));
      }
      seen := seen + {decision.changeId};
    }
    return None;
  }

  method ApplyReview(runIds: RunIds, proposal: Proposal, journal: Journal) returns (r: Result<Proposal>)
    ensures r == Reviewed(runIds, proposal, journal)
  {
    if journal.schemaVersion != REVIEW_SCHEMA_VERSION {
      return Err(UnsupportedSchema);
    }
    var invalid := ValidateDecisions(journal.decisions);
    if invalid.Some? {
      return Err(invalid.value);
    }
    var known := set c | c in proposal.changes :: c.changeId;
    var ds := journal.decisions;
    for i := 0 to |ds|
      invariant UnknownDecision(ds[i..], known) == UnknownDecision(ds, known)
    {
      assert ds[i..][0] == ds[i] && ds[i..][1..] == ds[i + 1..];
      if ds[i].changeId !in known {
        return Err(UnknownChange(ds[i].changeId));
      }
    }
    var accepted := KeepIds(proposal.changes, AcceptedIds(journal));
    var runId := runIds(proposal.rulesetHash, proposal.documentHash, accepted, proposal.findings);
    return Ok(Proposal(runId, runId, proposal.rulesetHash, proposal.documentHash, PROPOSAL_SCHEMA_VERSION,
                       accepted, proposal.findings));
  }

  // ----- When a journal is accepted and what survives -----

  predicate WellFormed(d: ReviewDecision) { d.changeId != "" && d.decision in {"accept", "reject"} }

  /** Named, valid decisions with distinct ids that are not among `seen`. */
  ghost predicate GoodDecisions(ds: seq<ReviewDecision>, seen: set<string>) {
    && (forall d :: d in ds ==> WellFormed(d) && d.changeId !in seen)
    && (forall i, j :: 0 <= i < j < |ds| ==> ds[i].changeId != ds[j].changeId)
  }

  lemma GoodTail(ds: seq<ReviewDecision>, seen: set<string>)
    requires |ds| > 0
    ensures GoodDecisions(ds, seen) <==>
            WellFormed(ds[0]) && ds[0].changeId !in seen && GoodDecisions(ds[1..], seen + {ds[0].changeId})
  {
    var tail := ds[1..];
    assert forall d :: d in ds <==> d == ds[0] || d in tail;
    assert forall i :: 0 < i < |ds| ==> ds[i] == tail[i - 1] && ds[i] in tail;
    if GoodDecisions(ds, seen) {
      forall d | d in tail ensures d.changeId !in seen + {ds[0].changeId} {
        var i :| 0 <= i < |tail| && tail[i] == d;
        assert d == ds[i + 1];
      }
    }
  }

  lemma {:induction false} DecisionErrorMeaning(ds: seq<ReviewDecision>, seen: set<string>)
    ensures DecisionError(ds, seen).None? <==> GoodDecisions(ds, seen)
    decreases |ds|
  {
    if |ds| > 0 {
      GoodTail(ds, seen);
      DecisionErrorMeaning(ds[1..], seen + {ds[0].changeId});
    }
  }

  lemma {:induction false} UnknownDecisionMeaning(ds: seq<ReviewDecision>, known: set<string>)
    ensures UnknownDecision(ds, known).None? <==> forall d :: d in ds ==> d.changeId in known
    decreases |ds|
  {
    if |ds| > 0 {
      UnknownDecisionMeaning(ds[1..], known);
      assert forall d :: d in ds <==> d == ds[0] || d in ds[1..];
    }
  }

  /** A subset in the same order: exactly the changes whose id is among `ids`. */
  lemma {:induction false} KeepIdsMeaning(cs: seq<Change>, ids: set<string>)
    ensures forall c :: c in KeepIds(cs, ids) <==> c in cs && c.changeId in ids
    decreases |cs|
  {
    if |cs| > 0 {
      KeepIdsMeaning(cs[1..], ids);
      assert forall c :: c in cs <==> c == cs[0] || c in cs[1..];
    }
  }

  /** Order and multiplicity: what is kept of two lists, one after the other, is what is kept of each. */
  lemma {:induction false} KeepIdsConcat(a: seq<Change>, b: seq<Change>, ids: set<string>)
    ensures KeepIds(a + b, ids) == KeepIds(a, ids) + KeepIds(b, ids)
    decreases |a|
  {
    if |a| == 0 {
      PrependEmpty(b);
      PrependEmpty(KeepIds(b, ids));
    } else {
      ConcatTail(a, b);
      KeepIdsConcat(a[1..], b, ids);
      Associate(if a[0].changeId in ids then [a[0]] else [], KeepIds(a[1..], ids), KeepIds(b, ids));
    }
  }

  /**
   Each accepted change stands once in the reviewed proposal for each time the proposal lists it, between the same
   neighbours.
   */
  lemma ReviewKeepsOrder(runIds: RunIds, proposal: Proposal, journal: Journal, i: nat)
    requires Reviewed(runIds, proposal, journal).Ok? && i < |proposal.changes|
    ensures var cs, c := proposal.changes, proposal.changes[i];
            Reviewed(runIds, proposal, journal).value.changes ==
            KeepIds(cs[..i], AcceptedIds(journal))
            + ((if c.changeId in AcceptedIds(journal) then [c] else []) + KeepIds(cs[i + 1..], AcceptedIds(journal)))
  {
    var cs := proposal.changes;
    KeepIdsConcat(cs[..i], cs[i..], AcceptedIds(journal));
    assert cs[..i] + cs[i..] == cs;
    DropStep(cs, i);
  }

  lemma {:induction false} KeepIdsOrdered(cs: seq<Change>, ids: set<string>)
    requires Ordered(cs)
    ensures Ordered(KeepIds(cs, ids))
    decreases |cs|
  {
    if |cs| > 0 {
      KeepIdsOrdered(cs[1..], ids);
      KeepIdsMeaning(cs[1..], ids);
      HeadBeforeSome(cs, KeepIds(cs[1..], ids));
    }
  }

  /**
   Review succeeds exactly on a well-formed journal over known changes, and keeps exactly the changes with an explicit
   accept: everything else, rejected or not mentioned, is dropped.
   */
  lemma ReviewMeaning(runIds: RunIds, proposal: Proposal, journal: Journal)
    ensures var r := Reviewed(runIds, proposal, journal);
            && (r.Ok? <==>
                && journal.schemaVersion == REVIEW_SCHEMA_VERSION
                && (forall d :: d in journal.decisions ==>
                      d.changeId != "" && d.decision in {"accept", "reject"}
                      && exists c :: c in proposal.changes && c.changeId == d.changeId)
                && (forall i, j :: 0 <= i < j < |journal.decisions| ==>
                      journal.decisions[i].changeId != journal.decisions[j].changeId))
            && (r.Ok? ==>
                && r.value.documentHash == proposal.documentHash && r.value.rulesetHash == proposal.rulesetHash
                && r.value.findings == proposal.findings
                && r.value.changes == KeepIds(proposal.changes, AcceptedIds(journal))
                && forall c :: c in r.value.changes
                               <==> c in proposal.changes && ReviewDecision(c.changeId, "accept") in journal.decisions)
  {
    DecisionErrorMeaning(journal.decisions, {});
    var known := set c | c in proposal.changes :: c.changeId;
    UnknownDecisionMeaning(journal.decisions, known);
    KeepIdsMeaning(proposal.changes, AcceptedIds(journal));
    forall c: Change
      ensures c.changeId in AcceptedIds(journal) <==> ReviewDecision(c.changeId, "accept") in journal.decisions
    {
      if c.changeId in AcceptedIds(journal) {
        var d :| d in journal.decisions && d.decision == "accept" && d.changeId == c.changeId;
        assert d == ReviewDecision(c.changeId, "accept");
      }
    }
  }

  /** The ids of the kept changes keep the same changes again. */
  lemma KeepKeptIds(cs: seq<Change>, ids: set<string>)
    ensures KeepIds(cs, set c | c in KeepIds(cs, ids) :: c.changeId) == KeepIds(cs, ids)
  {
    KeepIdsMeaning(cs, ids);
    KeepSame(cs, set c | c in KeepIds(cs, ids) :: c.changeId, ids);
  }

  lemma {:induction false} KeepSame(cs: seq<Change>, a: set<string>, b: set<string>)
    requires forall c :: c in cs ==> (c.changeId in a <==> c.changeId in b)
    ensures KeepIds(cs, a) == KeepIds(cs, b)
    decreases |cs|
  {
    if |cs| > 0 {
      assert cs[0] in cs;
      KeepSame(cs[1..], a, b);
    }
  }

  lemma SubsetFits(text: string, all: seq<Change>, some: seq<Change>)
    requires AllFit(text, all) && forall c :: c in some ==> c in all
    ensures AllFit(text, some)
  {
    forall i | 0 <= i < |some| ensures Fits(text, some[i]) {
      assert some[i] in all;
    }
  }

  /** Whatever is accepted of changes that are disjoint and fit the text, applying it to that text never raises. */
  lemma ReviewedSubsetApplies(runIds: RunIds, sha256: string -> string, text: string, proposal: Proposal,
      journal: Journal)
    requires Applicable(text, proposal.changes) && proposal.documentHash == sha256(text)
    requires Reviewed(runIds, proposal, journal).Ok?
    ensures var reviewed := Reviewed(runIds, proposal, journal).value;
            Applicable(text, reviewed.changes)
            && AppliedText(sha256, text, reviewed, None) == Ok(NewText(text, reviewed.changes))
  {
    var reviewed := Reviewed(runIds, proposal, journal).value;
    KeepIdsMeaning(proposal.changes, AcceptedIds(journal));
    KeepIdsOrdered(proposal.changes, AcceptedIds(journal));
    SubsetFits(text, proposal.changes, reviewed.changes);
    SelectAll(reviewed.changes);
    SortsAlike(reviewed.changes, reviewed.changes);
    ApplyChangesMeaning(sha256, text, reviewed, None);
  }
}
