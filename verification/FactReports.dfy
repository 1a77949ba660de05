/** What a drift report says: which anchors were matched with which, and what of that is drift. */
module FactReports {
  import opened Wrappers
  import opened MatchingSupport
  import opened Facts

  function Ratio(cmp: Comparison, a: FactAnchor,
      b: FactAnchor): real { cmp.ratio(cmp.lower(a.text), cmp.lower(b.text)) }

  /** Anchors of one category with a ratio above 0.7. */
  predicate Close(cmp: Comparison, a: FactAnchor, b: FactAnchor) { a.category == b.category && Ratio(cmp, a, b) > 0.7 }

  /**
   The first of the candidates with the greatest ratio among the close ones that are not used; none if there is none.
   */
  ghost predicate Chooses(cmp: Comparison, a: FactAnchor, cs: seq<FactAnchor>, used: set<nat>, choice: Option<nat>) {
    match choice
    case None => forall d: nat :: d < |cs| && d !in used ==> !Close(cmp, a, cs[d])
    case Some(c) =>
      && c < |cs| && c !in used && Close(cmp, a, cs[c])
      && forall d: nat :: d < |cs| && d !in used && Close(cmp, a, cs[d])
                          ==> Ratio(cmp, a, cs[d]) < Ratio(cmp, a, cs[c])
                              || (Ratio(cmp, a, cs[d]) == Ratio(cmp, a, cs[c]) && c <= d)
  }

  /** Source anchors choose in order, each among the candidates that those before it left. */
  ghost predicate Greedy(cmp: Comparison, source: seq<FactAnchor>, cs: seq<FactAnchor>, choices: seq<Option<nat>>) {
    if |choices| == 0 then true
    else
      var n := |choices| - 1;
      && n < |source| && Greedy(cmp, source, cs, choices[..n])
      && Chooses(cmp, source[n], cs, Taken(choices[..n]), choices[n])
  }

  /** The source anchors without a choice. */
  ghost function OmittedBy(source: seq<FactAnchor>, choices: seq<Option<nat>>): seq<FactAnchor>
    requires |choices| <= |source|
  {
    if |choices| == 0 then []
    else
      OmittedBy(source, choices[..|choices| - 1])
      + if choices[|choices| - 1].None? then [source[|choices| - 1]] else []
  }

  /** The choice falls on a candidate with a ratio below 0.9. */
  ghost predicate Doubtful(cmp: Comparison, a: FactAnchor, cs: seq<FactAnchor>, choice: Option<nat>) {
    choice.Some? && choice.value < |cs| && Ratio(cmp, a, cs[choice.value]) < 0.9
  }

  /** The doubtful pairs. */
  ghost function ContradictedBy(cmp: Comparison, source: seq<FactAnchor>, cs: seq<FactAnchor>,
      choices: seq<Option<nat>>): seq<(FactAnchor, FactAnchor)>
    requires |choices| <= |source|
  {
    if |choices| == 0 then []
    else
      var n := |choices| - 1;
      ContradictedBy(cmp, source, cs, choices[..n])
      + if Doubtful(cmp, source[n], cs, choices[n]) then [(source[n], cs[choices[n].value])] else []
  }

  lemma {:induction false} GreedyAt(cmp: Comparison, source: seq<FactAnchor>, cs: seq<FactAnchor>,
      choices: seq<Option<nat>>, s: nat)
    requires Greedy(cmp, source, cs, choices) && s < |choices|
    ensures s < |source| && Chooses(cmp, source[s], cs, Taken(choices[..s]), choices[s])
    decreases |choices|
  {
    var n := |choices| - 1;
    if s < n {
      GreedyAt(cmp, source, cs, choices[..n], s);
      assert choices[..n][..s] == choices[..s];
    }
  }

  // ----- The best match is the choice -----

  ghost predicate Beats(cmp: Comparison, a: FactAnchor, cs: seq<FactAnchor>, used: set<nat>, c: nat, ci: nat)
    requires ci <= |cs|
  {
    && c < ci && c !in used && Close(cmp, a, cs[c])
    && forall d: nat :: d < ci && d !in used && Close(cmp, a, cs[d])
                        ==> Ratio(cmp, a, cs[d]) < Ratio(cmp, a, cs[c])
                            || (Ratio(cmp, a, cs[d]) == Ratio(cmp, a, cs[c]) && c <= d)
  }

  /** The best of the first `ci` candidates. */
  ghost predicate BestSoFar(cmp: Comparison, a: FactAnchor, cs: seq<FactAnchor>, used: set<nat>, ci: nat,
      best: Option<(nat, real)>)
    requires ci <= |cs|
  {
    match best
    case None => forall d: nat :: d < ci && d !in used ==> !Close(cmp, a, cs[d])
    case Some(b) => Beats(cmp, a, cs, used, b.0, ci) && b.1 == Ratio(cmp, a, cs[b.0])
  }

  lemma {:induction false} BestIsChosen(cmp: Comparison, a: FactAnchor, cs: seq<FactAnchor>, used: set<nat>, ci: nat,
      best: Option<(nat, real)>)
    requires ci <= |cs| && BestSoFar(cmp, a, cs, used, ci, best)
    ensures BestSoFar(cmp, a, cs, used, |cs|, Best(cmp, a, cs, used, ci, best))
    decreases |cs| - ci
  {
    if ci < |cs| {
      var sim := Similarity(cmp, a, cs[ci]);
      var next := if ci !in used && sim > THRESHOLD && (best.None? || sim > best.value.1)
                  then Some((ci, sim)) else best;
      BestIsChosen(cmp, a, cs, used, ci + 1, next);
    }
  }

  function ChoiceOf(best: Option<(nat, real)>): Option<nat> { if best.None? then None else Some(best.value.0) }

  /** The state of the matching after the source anchors that have chosen. */
  ghost predicate Tallies(cmp: Comparison, source: seq<FactAnchor>, cs: seq<FactAnchor>, choices: seq<Option<nat>>,
      m: Matching)
  {
    && |choices| <= |source| && Greedy(cmp, source, cs, choices) && m.omissions == OmittedBy(source, choices)
    && m.contradictions == ContradictedBy(cmp, source, cs, choices) && m.usedCandidate == Taken(choices)
    && |m.usedSource| == CountSome(choices) && forall i :: i in m.usedSource ==> i < |choices|
  }

  lemma ChosenNext(cmp: Comparison, a: FactAnchor, cs: seq<FactAnchor>, used: set<nat>) returns (choice: Option<nat>)
    ensures choice == ChoiceOf(Best(cmp, a, cs, used, 0, None)) && Chooses(cmp, a, cs, used, choice)
    ensures choice.Some? ==> choice.value < |cs|
                             && Best(cmp, a, cs, used, 0, None) == Some((choice.value, Ratio(cmp, a, cs[choice.value])))
  {
    BestIsChosen(cmp, a, cs, used, 0, None);
    choice := ChoiceOf(Best(cmp, a, cs, used, 0, None));
  }

  lemma TallyStep(cmp: Comparison, source: seq<FactAnchor>, cs: seq<FactAnchor>, choices: seq<Option<nat>>,
      m: Matching)
    returns (choices': seq<Option<nat>>)
    requires Tallies(cmp, source, cs, choices, m) && |choices| < |source|
    ensures |choices'| == |choices| + 1 && Tallies(cmp, source, cs, choices', MatchOne(cmp, source, cs, |choices|, m))
  {
    var choice := ChosenNext(cmp, source[|choices|], cs, m.usedCandidate);
    choices' := choices + [choice];
    Snoc(choices, choice);
  }

  lemma {:induction false} TallyAll(cmp: Comparison, source: seq<FactAnchor>, cs: seq<FactAnchor>,
      choices: seq<Option<nat>>, m: Matching)
    returns (all: seq<Option<nat>>)
    requires Tallies(cmp, source, cs, choices, m)
    ensures |all| == |source| && Tallies(cmp, source, cs, all, MatchFrom(cmp, source, cs, |choices|, m))
    decreases |source| - |choices|
  {
    if |choices| == |source| {
      all := choices;
    } else {
      all := TallyStep(cmp, source, cs, choices, m);
      all := TallyAll(cmp, source, cs, all, MatchOne(cmp, source, cs, |choices|, m));
    }
  }

  /**
   A report is what the greedy choices make of the two lists: omitted are the anchors without a choice, added the
   candidates nobody chose, contradictions the pairs with a ratio below 0.9, and the score is the share that chose.
   */
  lemma ReportMeaning(cmp: Comparison, source: seq<FactAnchor>, cs: seq<FactAnchor>) returns (choices: seq<Option<nat>>)
    ensures Greedy(cmp, source, cs, choices) && |choices| == |source|
    ensures var r := Diff(cmp, source, cs);
            && r.omissions == OmittedBy(source, choices) && r.additions == Unmatched(cs, Taken(choices), 0)
            && r.contradictions == ContradictedBy(cmp, source, cs, choices)
            && r.preservation == (if |source| == 0 then 1.0 else CountSome(choices) as real / |source| as real)
            && r.totalSource == |source| && r.totalCandidate == |cs|
  {
    choices := TallyAll(cmp, source, cs, [], NO_MATCHES);
  }

  // ----- No drift -----

  lemma {:induction false} NoneOmitted(source: seq<FactAnchor>, choices: seq<Option<nat>>)
    requires |choices| <= |source|
    ensures OmittedBy(source, choices) == [] <==> forall s :: 0 <= s < |choices| ==> choices[s].Some?
  {
    if |choices| > 0 {
      var n := |choices| - 1;
      NoneOmitted(source, choices[..n]);
      assert forall s :: 0 <= s < n ==> choices[..n][s] == choices[s];
    }
  }

  lemma {:induction false} NoneContradicted(cmp: Comparison, source: seq<FactAnchor>, cs: seq<FactAnchor>,
      choices: seq<Option<nat>>)
    requires |choices| <= |source|
    ensures ContradictedBy(cmp, source, cs, choices) == [] <==>
            forall s :: 0 <= s < |choices| ==> !Doubtful(cmp, source[s], cs, choices[s])
    decreases |choices|
  {
    if |choices| > 0 {
      var n := |choices| - 1;
      NoneContradicted(cmp, source, cs, choices[..n]);
      assert forall s :: 0 <= s < n ==> choices[..n][s] == choices[s];
    }
  }

  /** No candidate is chosen twice. */
  lemma ChoicesDiffer(cmp: Comparison, source: seq<FactAnchor>, cs: seq<FactAnchor>, choices: seq<Option<nat>>, s: nat,
      t: nat)
    requires Greedy(cmp, source, cs, choices) && s < t < |choices| && choices[s].Some? && choices[t].Some?
    ensures choices[s].value != choices[t].value
  {
    TakenHas(choices[..t], s);
    GreedyAt(cmp, source, cs, choices, t);
  }

  /** A one-to-one pairing of all anchors of both texts, of one category each and with a ratio of at least 0.9. */
  ghost predicate Paired(cmp: Comparison, source: seq<FactAnchor>, cs: seq<FactAnchor>, choices: seq<Option<nat>>) {
    && |choices| == |source| == |cs|
    && (forall s :: 0 <= s < |source| ==>
          && choices[s].Some? && choices[s].value < |cs|
          && source[s].category == cs[choices[s].value].category
          && Ratio(cmp, source[s], cs[choices[s].value]) >= 0.9)
    && (forall s, t :: 0 <= s < t < |source| ==> choices[s] != choices[t])
  }

  /** There is no drift exactly when the greedy choices pair up all anchors one to one with ratios of at least 0.9. */
  lemma NoDriftIff(cmp: Comparison, source: seq<FactAnchor>, cs: seq<FactAnchor>) returns (choices: seq<Option<nat>>)
    ensures Greedy(cmp, source, cs, choices)
    ensures !Diff(cmp, source, cs).HasDrift() <==> Paired(cmp, source, cs, choices)
  {
    choices := ReportMeaning(cmp, source, cs);
    NoneOmitted(source, choices);
    NoneContradicted(cmp, source, cs, choices);
    DiffConserves(cmp, source, cs);
    forall s | 0 <= s < |source| && choices[s].Some?
      ensures choices[s].value < |cs| && Close(cmp, source[s], cs[choices[s].value])
    {
      GreedyAt(cmp, source, cs, choices, s);
    }
    forall s, t | 0 <= s < t < |source| && choices[s].Some? && choices[t].Some? ensures choices[s] != choices[t] {
      ChoicesDiffer(cmp, source, cs, choices, s, t);
    }
  }

  // ----- The citation check -----

  predicate IsCitation(a: FactAnchor) { a.category == "citation" }

  ghost function CitationsBefore(anchors: seq<FactAnchor>, i: nat): nat
    requires i <= |anchors|
  {
    if i == 0 then 0 else CitationsBefore(anchors, i - 1) + if IsCitation(anchors[i - 1]) then 1 else 0
  }

  /** The k-th citation is the anchor with k citations before it. */
  lemma {:induction false} CitationAt(anchors: seq<FactAnchor>, i: nat)
    requires i < |anchors| && IsCitation(anchors[i])
    ensures CitationsBefore(anchors, i) < |CitationTexts(anchors)|
    ensures CitationTexts(anchors)[CitationsBefore(anchors, i)] == anchors[i].text
    decreases i
  {
    if i > 0 {
      CitationAt(anchors[1..], i - 1);
      CountsShift(anchors, i);
    }
  }

  lemma {:induction false} CountsShift(anchors: seq<FactAnchor>, i: nat)
    requires 0 < i <= |anchors|
    ensures CitationsBefore(anchors, i)
            == (if IsCitation(anchors[0]) then 1 else 0) + CitationsBefore(anchors[1..], i - 1)
  {
    if i > 1 {
      CountsShift(anchors, i - 1);
      assert anchors[1..][i - 2] == anchors[i - 1];
    }
  }

  /** There are no other texts. */
  lemma {:induction false} CitationsCounted(anchors: seq<FactAnchor>)
    ensures |CitationTexts(anchors)| == CitationsBefore(anchors, |anchors|)
  {
    if |anchors| > 0 {
      CitationsCounted(anchors[1..]);
      CountsShift(anchors, |anchors|);
    }
  }

  /** The check passes exactly without drift and with the same citations, one by one. */
  lemma FactsKeptIff(cmp: Comparison, original: seq<FactAnchor>, finalized: seq<FactAnchor>)
    returns (choices: seq<Option<nat>>)
    ensures Greedy(cmp, original, finalized, choices)
    ensures FactsAndCitationsKept(cmp, original, finalized) <==>
            Paired(cmp, original, finalized, choices) && CitationTexts(original) == CitationTexts(finalized)
  {
    choices := NoDriftIff(cmp, original, finalized);
  }

  /** A changed citation never passes, however similar the new one is. */
  lemma ChangedCitationFails(cmp: Comparison, original: seq<FactAnchor>, finalized: seq<FactAnchor>, i: nat, j: nat)
    requires i < |original| && j < |finalized| && IsCitation(original[i]) && IsCitation(finalized[j])
    requires CitationsBefore(original, i) == CitationsBefore(finalized, j) && original[i].text != finalized[j].text
    ensures !FactsAndCitationsKept(cmp, original, finalized)
  {
    CitationAt(original, i);
    CitationAt(finalized, j);
  }
}
