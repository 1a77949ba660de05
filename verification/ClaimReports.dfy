/** What a claim diff reports, field by field: which claims choose which, and the ids that follow from it. */
module ClaimReports {
  import opened Wrappers
  import opened MatchingSupport
  import opened ClaimDiff

  /** The first of the unused candidates that are related to the claim; none if there is none. */
  ghost predicate Chooses(rel: Relation, claim: Claim, cs: seq<Claim>, used: set<nat>, choice: Option<nat>) {
    match choice
    case None => forall d: nat :: d < |cs| && d !in used ==> !rel(claim, cs[d])
    case Some(c) =>
      c < |cs| && c !in used && rel(claim, cs[c]) && forall d: nat :: d < c && d !in used ==> !rel(claim, cs[d])
  }

  /**
   The claims that are not skipped choose in order, each among what is used neither before nor by those ahead of it.
   */
  ghost predicate Greedy(rel: Relation, source: seq<Claim>, cs: seq<Claim>, skip: set<nat>, used: set<nat>,
      choices: seq<Option<nat>>)
  {
    if |choices| == 0 then true
    else
      var n := |choices| - 1;
      && n < |source| && Greedy(rel, source, cs, skip, used, choices[..n])
      && if n in skip then choices[n].None?
         else Chooses(rel, source[n], cs, used + Taken(choices[..n]), choices[n])
  }

  /** The claims that chose, in order. */
  ghost function ChosenClaims(source: seq<Claim>, choices: seq<Option<nat>>): seq<Claim>
    requires |choices| <= |source|
  {
    if |choices| == 0 then []
    else
      ChosenClaims(source, choices[..|choices| - 1])
      + if choices[|choices| - 1].Some? then [source[|choices| - 1]] else []
  }

  /** The pairs of ids of the claims that chose with what they chose. */
  ghost function ChosenPairs(source: seq<Claim>, cs: seq<Claim>, choices: seq<Option<nat>>): seq<(string, string)>
    requires |choices| <= |source|
  {
    if |choices| == 0 then []
    else
      var n := |choices| - 1;
      ChosenPairs(source, cs, choices[..n])
      + if choices[n].Some? && choices[n].value < |cs|
        then [(source[n].claimId, cs[choices[n].value].claimId)] else []
  }

  lemma {:induction false} IdsSnoc(claims: seq<Claim>, a: Claim)
    ensures Ids(claims + [a]) == Ids(claims) + [a.claimId]
  {
    if |claims| > 0 {
      IdsSnoc(claims[1..], a);
      assert (claims + [a])[1..] == claims[1..] + [a];
    } else {
      assert (claims + [a])[1..] == [];
    }
  }

  lemma {:induction false} PairIdsSnoc(pairs: seq<(Claim, Claim)>, a: Claim, b: Claim)
    ensures PairIds(pairs + [(a, b)]) == PairIds(pairs) + [(a.claimId, b.claimId)]
  {
    if |pairs| > 0 {
      PairIdsSnoc(pairs[1..], a, b);
      assert (pairs + [(a, b)])[1..] == pairs[1..] + [(a, b)];
    } else {
      assert (pairs + [(a, b)])[1..] == [];
    }
  }

  // ----- The loops make the greedy choices -----

  lemma {:induction false} FirstIsChosen(rel: Relation, claim: Claim, cs: seq<Claim>, used: set<nat>, ci: nat)
    requires ci <= |cs| && forall d: nat :: d < ci && d !in used ==> !rel(claim, cs[d])
    ensures Chooses(rel, claim, cs, used, FirstRelated(rel, claim, cs, used, ci))
    decreases |cs| - ci
  {
    if ci < |cs| && (ci in used || !rel(claim, cs[ci])) {
      FirstIsChosen(rel, claim, cs, used, ci + 1);
    }
  }

  /** The pairing after the claims that have chosen. */
  ghost predicate Tallies(rel: Relation, source: seq<Claim>, cs: seq<Claim>, from: Pairing, choices: seq<Option<nat>>,
      p: Pairing)
  {
    && |choices| <= |source| && Greedy(rel, source, cs, from.usedSource, from.usedCandidate, choices)
    && Firsts(p.pairs) == ChosenClaims(source, choices) && PairIds(p.pairs) == ChosenPairs(source, cs, choices)
    && p.usedSource == from.usedSource + Choosers(choices)
    && p.usedCandidate == from.usedCandidate + Taken(choices)
  }

  lemma TallyStep(rel: Relation, source: seq<Claim>, cs: seq<Claim>, from: Pairing, choices: seq<Option<nat>>,
      p: Pairing)
    returns (choices': seq<Option<nat>>)
    requires Tallies(rel, source, cs, from, choices, p) && |choices| < |source|
    ensures |choices'| == |choices| + 1
    ensures Tallies(rel, source, cs, from, choices', PairOne(rel, source, cs, |choices|, p))
  {
    var s := |choices|;
    ChoosersAre(choices, s);
    FirstIsChosen(rel, source[s], cs, p.usedCandidate, 0);
    var choice := if s in p.usedSource then None else FirstRelated(rel, source[s], cs, p.usedCandidate, 0);
    choices' := choices + [choice];
    Snoc(choices, choice);
    if choice.Some? {
      FirstsSnoc(p.pairs, source[s], cs[choice.value]);
      PairIdsSnoc(p.pairs, source[s], cs[choice.value]);
    }
  }

  lemma {:induction false} TallyAll(rel: Relation, source: seq<Claim>, cs: seq<Claim>, from: Pairing,
      choices: seq<Option<nat>>, p: Pairing)
    returns (all: seq<Option<nat>>)
    requires Tallies(rel, source, cs, from, choices, p)
    ensures |all| == |source| && Tallies(rel, source, cs, from, all, PairFrom(rel, source, cs, |choices|, p))
    decreases |source| - |choices|
  {
    if |choices| == |source| {
      all := choices;
    } else {
      all := TallyStep(rel, source, cs, from, choices, p);
      all := TallyAll(rel, source, cs, from, all, PairOne(rel, source, cs, |choices|, p));
    }
  }

  /**
   First every source claim chooses an equal candidate, then every one left a contradicting one; preserved are the ids
   of those that chose in the first round, contradicted the pairs of the second, omitted and added the ids of what is
   left on either side, all in order.
   */
  lemma ReportMeaning(contradicts: Relation, source: seq<Claim>, cs: seq<Claim>)
    returns (equal: seq<Option<nat>>, clash: seq<Option<nat>>)
    ensures |equal| == |clash| == |source| && Greedy(SameProposition(), source, cs, {}, {}, equal)
    ensures Greedy(contradicts, source, cs, Choosers(equal), Taken(equal), clash)
    ensures var r := Diff(contradicts, source, cs);
            && r.preserved == Ids(ChosenClaims(source, equal))
            && r.contradictedPairs == ChosenPairs(source, cs, clash)
            && r.omitted == Ids(Unmatched(source, Choosers(equal) + Choosers(clash), 0))
            && r.added == Ids(Unmatched(cs, Taken(equal) + Taken(clash), 0))
            && (r.coverageStatus == Known <==> |source| > 0)
  {
    equal := TallyAll(SameProposition(), source, cs, NO_PAIRS, [], NO_PAIRS);
    var e := Equal(source, cs);
    assert e.usedSource == Choosers(equal) && e.usedCandidate == Taken(equal);
    clash := TallyAll(contradicts, source, cs, e.(pairs := []), [], e.(pairs := []));
  }

  // ----- With distinct ids: what the listed claims are -----

  ghost predicate DistinctClaimIds(claims: seq<Claim>) {
    forall i, j :: 0 <= i < j < |claims| ==> claims[i].claimId != claims[j].claimId
  }

  /** The claims with one of the ids, in order. */
  ghost function WithIds(claims: seq<Claim>, ids: seq<string>): seq<Claim> {
    if |claims| == 0 then []
    else
      WithIds(claims[..|claims| - 1], ids)
      + if claims[|claims| - 1].claimId in ids then [claims[|claims| - 1]] else []
  }

  lemma {:induction false} IdIsListed(claims: seq<Claim>, c: Claim)
    requires c in claims
    ensures c.claimId in Ids(claims)
  {
    if c != claims[0] {
      IdIsListed(claims[1..], c);
    }
  }

  lemma {:induction false} ListedId(claims: seq<Claim>, id: string) returns (c: Claim)
    requires id in Ids(claims)
    ensures c in claims && c.claimId == id
  {
    if claims[0].claimId == id {
      c := claims[0];
    } else {
      c := ListedId(claims[1..], id);
    }
  }

  lemma {:induction false} ChosenClaimsAre(source: seq<Claim>, choices: seq<Option<nat>>, c: Claim)
    requires |choices| <= |source|
    ensures c in ChosenClaims(source, choices) <==> exists s :: 0 <= s < |choices| && choices[s].Some? && source[s] == c
    decreases |choices|
  {
    if |choices| > 0 {
      var n := |choices| - 1;
      ChosenClaimsAre(source, choices[..n], c);
      assert forall s :: 0 <= s < n ==> choices[..n][s] == choices[s];
    }
  }

  lemma ChosenById(source: seq<Claim>, choices: seq<Option<nat>>, s: nat)
    requires DistinctClaimIds(source) && |choices| == |source| && s < |source|
    ensures source[s].claimId in Ids(ChosenClaims(source, choices)) <==> choices[s].Some?
  {
    ChosenClaimsAre(source, choices, source[s]);
    if choices[s].Some? {
      IdIsListed(ChosenClaims(source, choices), source[s]);
    } else if source[s].claimId in Ids(ChosenClaims(source, choices)) {
      var c := ListedId(ChosenClaims(source, choices), source[s].claimId);
      ChosenClaimsAre(source, choices, c);
    }
  }

  lemma {:induction false} SelectsChosen(source: seq<Claim>, choices: seq<Option<nat>>, ids: seq<string>, n: nat)
    requires n <= |choices| == |source|
    requires forall s :: 0 <= s < |source| ==> (source[s].claimId in ids <==> choices[s].Some?)
    ensures WithIds(source[..n], ids) == ChosenClaims(source, choices[..n])
  {
    if n > 0 {
      SelectsChosen(source, choices, ids, n - 1);
      assert source[..n][..n - 1] == source[..n - 1] && choices[..n][..n - 1] == choices[..n - 1];
    }
  }

  /**
   With distinct ids the claims listed as preserved are, per proposition, as many as both sides have, and they are
   listed in the order of the source.
   */
  lemma PreservedAreShared(contradicts: Relation, source: seq<Claim>, cs: seq<Claim>)
    requires DistinctClaimIds(source)
    ensures var kept := WithIds(source, Diff(contradicts, source, cs).preserved);
            && Diff(contradicts, source, cs).preserved == Ids(kept)
            && KeysOf(kept, Proposition()) == KeysOf(source, Proposition()) * KeysOf(cs, Proposition())
  {
    var equal := TallyAll(SameProposition(), source, cs, NO_PAIRS, [], NO_PAIRS);
    var ids := Diff(contradicts, source, cs).preserved;
    PreservedIsIntersection(source, cs);
    forall s | 0 <= s < |source| ensures source[s].claimId in ids <==> equal[s].Some? {
      ChosenById(source, equal, s);
    }
    SelectsChosen(source, equal, ids, |source|);
    assert source[..|source|] == source && equal[..|source|] == equal;
  }

  /** With distinct ids no claim listed as omitted equals or contradicts one listed as added. */
  lemma OmittedAndAddedAreUnrelated(contradicts: Relation, source: seq<Claim>, cs: seq<Claim>, s: nat, c: nat)
    requires DistinctClaimIds(source) && DistinctClaimIds(cs) && s < |source| && c < |cs|
    requires source[s].claimId in Diff(contradicts, source, cs).omitted
    requires cs[c].claimId in Diff(contradicts, source, cs).added
    ensures source[s].proposition != cs[c].proposition && !contradicts(source[s], cs[c])
  {
    var p := Contradicted(contradicts, source, cs);
    var a := ListedId(Unmatched(source, p.usedSource, 0), source[s].claimId);
    var b := ListedId(Unmatched(cs, p.usedCandidate, 0), cs[c].claimId);
    var i := UnmatchedIsUnused(source, p.usedSource, 0, a);
    var j := UnmatchedIsUnused(cs, p.usedCandidate, 0, b);
    LeftoversAreUnrelated(contradicts, source, cs);
    assert i == s && j == c;
  }
}
