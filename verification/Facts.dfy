/** Factual drift: greedy best-similarity matching of the anchors of two texts. */
module Facts {
  import opened Wrappers
  import opened MatchingSupport

  datatype FactAnchor = FactAnchor(text: string, category: string, position: nat)

  datatype FactDiffReport = FactDiffReport(
    omissions: seq<FactAnchor>, additions: seq<FactAnchor>, contradictions: seq<(FactAnchor, FactAnchor)>,
    preservation: real, totalSource: nat, totalCandidate: nat)
  {
    predicate HasDrift() { |omissions| > 0 || |additions| > 0 || |contradictions| > 0 }
  }

  /** String functions of the host language: lower-casing, and the similarity ratio of two strings. */
  datatype Comparison = Comparison(lower: string -> string, ratio: (string, string) -> real)

  /** A ratio never exceeds 1 and reaches it exactly on equal strings. */
  ghost predicate RatioLaws(cmp: Comparison) {
    forall a, b :: cmp.ratio(a, b) <= 1.0 && (cmp.ratio(a, b) == 1.0 <==> a == b)
  }

  function Similarity(cmp: Comparison, a: FactAnchor, b: FactAnchor): real {
    if a.category != b.category then 0.0 else cmp.ratio(cmp.lower(a.text), cmp.lower(b.text))
  }

  const THRESHOLD := 0.7
  const CONTRADICTION_BELOW := 0.9

  // ----- diff_facts -----

  /**
   The best unmatched candidate from `ci` on, improving on `best`: the first of the most similar above the threshold.
   */
  function Best(cmp: Comparison, a: FactAnchor, cs: seq<FactAnchor>, used: set<nat>, ci: nat,
      best: Option<(nat, real)>): (r: Option<(nat, real)>)
    requires ci <= |cs| && (best.Some? ==> best.value.0 < |cs|)
    ensures r.Some? ==> r.value.0 < |cs|
    decreases |cs| - ci
  {
    if ci == |cs| then best
    else
      var sim := Similarity(cmp, a, cs[ci]);
      Best(cmp, a, cs, used, ci + 1,
           if ci !in used && sim > THRESHOLD && (best.None? || sim > best.value.1) then Some((ci, sim)) else best)
  }

  datatype Matching = Matching(
    omissions: seq<FactAnchor>, contradictions: seq<(FactAnchor, FactAnchor)>, usedSource: set<nat>,
    usedCandidate: set<nat>)

  function MatchOne(cmp: Comparison, source: seq<FactAnchor>, cs: seq<FactAnchor>, si: nat, m: Matching): Matching
    requires si < |source|
  {
    match Best(cmp, source[si], cs, m.usedCandidate, 0, None)
    case None => m.(omissions := m.omissions + [source[si]])
    case Some(best) =>
      Matching(m.omissions,
               if best.1 < CONTRADICTION_BELOW then m.contradictions + [(source[si], cs[best.0])] else m.contradictions,
               m.usedSource + {si}, m.usedCandidate + {best.0})
  }

  function MatchFrom(cmp: Comparison, source: seq<FactAnchor>, cs: seq<FactAnchor>, si: nat, m: Matching): Matching
    requires si <= |source|
    decreases |source| - si
  {
    if si == |source| then m else MatchFrom(cmp, source, cs, si + 1, MatchOne(cmp, source, cs, si, m))
  }

  function Report(source: seq<FactAnchor>, cs: seq<FactAnchor>, m: Matching): FactDiffReport {
    FactDiffReport(m.omissions, Unmatched(cs, m.usedCandidate, 0), m.contradictions,
                   if |source| > 0 then |m.usedSource| as real / |source| as real else 1.0, |source|, |cs|)
  }

  const NO_MATCHES: Matching := Matching([], [], {}, {})

  function Diff(cmp: Comparison, source: seq<FactAnchor>, cs: seq<FactAnchor>): FactDiffReport {
    Report(source, cs, MatchFrom(cmp, source, cs, 0, NO_MATCHES))
  }

  method FindBest(cmp: Comparison, a: FactAnchor, cs: seq<FactAnchor>, used: set<nat>)
    returns (best: Option<(nat, real)>)
    ensures best == Best(cmp, a, cs, used, 0, None)
    ensures best.Some? ==> best.value.0 < |cs|
  {
    best := None;
    for ci := 0 to |cs|
      invariant best.Some? ==> best.value.0 < ci
      invariant Best(cmp, a, cs, used, ci, best) == Best(cmp, a, cs, used, 0, None)
    {
      if ci in used {
        continue;
      }
      var sim := Similarity(cmp, a, cs[ci]);
      if sim > THRESHOLD && (best.None? || sim > best.value.1) {
        best := Some((ci, sim));
      }
    }
  }

  method DiffFacts(cmp: Comparison, source: seq<FactAnchor>, candidates: seq<FactAnchor>) returns (r: FactDiffReport)
    ensures r == Diff(cmp, source, candidates)
  {
    var omissions: seq<FactAnchor> := [];
    var contradictions: seq<(FactAnchor, FactAnchor)> := [];
    var matchedSource: set<nat>, matchedCandidate: set<nat> := {}, {};
    for si := 0 to |source|
      invariant MatchFrom(cmp, source, candidates, si,
                          Matching(omissions, contradictions, matchedSource, matchedCandidate))
                == MatchFrom(cmp, source, candidates, 0, NO_MATCHES)
    {
      var best := FindBest(cmp, source[si], candidates, matchedCandidate);
      if best.Some? {
        if best.value.1 < CONTRADICTION_BELOW {
          contradictions := contradictions + [(source[si], candidates[best.value.0])];
        }
        matchedSource := matchedSource + {si};
        matchedCandidate := matchedCandidate + {best.value.0};
      } else {
        omissions := omissions + [source[si]];
      }
    }
    var additions: seq<FactAnchor> := [];
    for ci := 0 to |candidates|
      invariant additions + Unmatched(candidates, matchedCandidate, ci) == Unmatched(candidates, matchedCandidate, 0)
    {
      if ci !in matchedCandidate {
        additions := additions + [candidates[ci]];
      }
    }
    assert additions == Unmatched(candidates, matchedCandidate, 0);
    var preservation := if |source| > 0 then |matchedSource| as real / |source| as real else 1.0;
    r := FactDiffReport(omissions, additions, contradictions, preservation, |source|, |candidates|);
  }

  // ----- What the best match is -----

  ghost predicate IsCandidate(cmp: Comparison, a: FactAnchor, cs: seq<FactAnchor>, used: set<nat>, c: nat) {
    c < |cs| && c !in used && Similarity(cmp, a, cs[c]) > THRESHOLD
  }

  lemma {:induction false} BestMeaning(cmp: Comparison, a: FactAnchor, cs: seq<FactAnchor>, used: set<nat>, ci: nat,
      best: Option<(nat, real)>)
    requires ci <= |cs|
    requires best.Some?
             ==> IsCandidate(cmp, a, cs, used, best.value.0) && best.value.1 == Similarity(cmp, a, cs[best.value.0])
    requires forall c: nat :: c < ci && IsCandidate(cmp, a, cs, used, c)
                              ==> best.Some? && Similarity(cmp, a, cs[c]) <= best.value.1
    ensures var r := Best(cmp, a, cs, used, ci, best);
            && (r.Some? ==> IsCandidate(cmp, a, cs, used, r.value.0) && r.value.1 == Similarity(cmp, a, cs[r.value.0]))
            && forall c: nat :: IsCandidate(cmp, a, cs, used, c) ==> r.Some? && Similarity(cmp, a, cs[c]) <= r.value.1
    decreases |cs| - ci
  {
    if ci < |cs| {
      var sim := Similarity(cmp, a, cs[ci]);
      BestMeaning(cmp, a, cs, used, ci + 1,
                  if ci !in used && sim > THRESHOLD && (best.None? || sim > best.value.1)
                  then Some((ci, sim)) else best);
    }
  }

  // ----- Conservation -----

  ghost function Category(): FactAnchor -> string { (a: FactAnchor) => a.category }

  /** Between two source anchors: every one so far was matched or omitted. */
  ghost predicate Counted(si: nat, m: Matching) {
    |m.usedSource| + |m.omissions| == si && forall i :: i in m.usedSource ==> i < si
  }

  /** Between two source anchors: matched anchors pair up one to one and by category. */
  ghost predicate Balanced(source: seq<FactAnchor>, cs: seq<FactAnchor>, si: nat, m: Matching)
    requires si <= |source|
  {
    KeysOf(source[..si], Category()) + Left(cs, m.usedCandidate, 0, Category())
    == KeysOf(cs, Category()) + KeysOf(m.omissions, Category())
  }

  lemma MatchOneCounted(cmp: Comparison, source: seq<FactAnchor>, cs: seq<FactAnchor>, si: nat, m: Matching)
    requires si < |source| && Counted(si, m)
    ensures Counted(si + 1, MatchOne(cmp, source, cs, si, m))
  {
  }

  lemma MatchOneBalanced(cmp: Comparison, source: seq<FactAnchor>, cs: seq<FactAnchor>, si: nat, m: Matching)
    requires si < |source| && Balanced(source, cs, si, m)
    ensures Balanced(source, cs, si + 1, MatchOne(cmp, source, cs, si, m))
  {
    var key, a := Category(), source[si];
    assert source[..si + 1] == source[..si] + [a];
    KeysOfSnoc(source[..si], a, key);
    BestMeaning(cmp, a, cs, m.usedCandidate, 0, None);
    var best := Best(cmp, a, cs, m.usedCandidate, 0, None);
    if best.None? {
      KeysOfSnoc(m.omissions, a, key);
      Omit(KeysOf(source[..si], key), Left(cs, m.usedCandidate, 0, key), KeysOf(cs, key), KeysOf(m.omissions, key),
           key(a));
    } else {
      TakeOne(cs, m.usedCandidate, 0, key, best.value.0);
      Exchange(KeysOf(source[..si], key), Left(cs, m.usedCandidate + {best.value.0}, 0, key), key(a));
    }
  }

  lemma Omit<K>(s: multiset<K>, l: multiset<K>, c: multiset<K>, o: multiset<K>, k: K)
    requires s + l == c + o
    ensures (s + multiset{k}) + l == c + (o + multiset{k})
  {
    assert (s + multiset{k}) + l == (s + l) + multiset{k} && c + (o + multiset{k}) == (c + o) + multiset{k};
  }

  lemma {:induction false} MatchFromCounted(cmp: Comparison, source: seq<FactAnchor>, cs: seq<FactAnchor>, si: nat,
      m: Matching)
    requires si <= |source| && Counted(si, m)
    ensures Counted(|source|, MatchFrom(cmp, source, cs, si, m))
    decreases |source| - si
  {
    if si < |source| {
      MatchOneCounted(cmp, source, cs, si, m);
      MatchFromCounted(cmp, source, cs, si + 1, MatchOne(cmp, source, cs, si, m));
    }
  }

  lemma {:induction false} MatchFromBalanced(cmp: Comparison, source: seq<FactAnchor>, cs: seq<FactAnchor>, si: nat,
      m: Matching)
    requires si <= |source| && Balanced(source, cs, si, m)
    ensures Balanced(source, cs, |source|, MatchFrom(cmp, source, cs, si, m))
    decreases |source| - si
  {
    if si < |source| {
      MatchOneBalanced(cmp, source, cs, si, m);
      MatchFromBalanced(cmp, source, cs, si + 1, MatchOne(cmp, source, cs, si, m));
    }
  }

  /**
   For all inputs: per category, source and added anchors balance candidate and omitted ones, hence also in number;
   the score is the share of source anchors that are not omitted.
   */
  lemma DiffConserves(cmp: Comparison, source: seq<FactAnchor>, cs: seq<FactAnchor>)
    ensures var r := Diff(cmp, source, cs);
            && KeysOf(source, Category()) + KeysOf(r.additions, Category())
               == KeysOf(cs, Category()) + KeysOf(r.omissions, Category())
            && |source| + |r.additions| == |cs| + |r.omissions|
            && |r.omissions| <= |source|
            && r.preservation == if |source| > 0 then (|source| - |r.omissions|) as real / |source| as real else 1.0
  {
    var m := MatchFrom(cmp, source, cs, 0, NO_MATCHES);
    var additions := Unmatched(cs, m.usedCandidate, 0);
    FinallyBalanced(cmp, source, cs);
    SizesBalance(KeysOf(source, Category()), KeysOf(additions, Category()), KeysOf(cs, Category()),
                 KeysOf(m.omissions, Category()));
    KeysOfSize(source, Category());
    KeysOfSize(cs, Category());
    KeysOfSize(m.omissions, Category());
    KeysOfSize(additions, Category());
  }

  /** Without drift the score is 1 and both texts have equally many anchors of every category. */
  lemma NoDriftMeans(cmp: Comparison, source: seq<FactAnchor>, cs: seq<FactAnchor>)
    requires !Diff(cmp, source, cs).HasDrift()
    ensures Diff(cmp, source, cs).preservation == 1.0 && KeysOf(source, Category()) == KeysOf(cs, Category())
  {
    var r := Diff(cmp, source, cs);
    DiffConserves(cmp, source, cs);
    assert |r.omissions| == 0 && r.omissions == [] && r.additions == [];
    assert KeysOf(r.omissions, Category()) == multiset{} == KeysOf(r.additions, Category());
    assert KeysOf(source, Category()) == KeysOf(source, Category()) + multiset{};
    assert KeysOf(cs, Category()) == KeysOf(cs, Category()) + multiset{};
    if |source| > 0 {
      Whole(|source|);
    }
  }

  lemma Whole(n: nat)
    requires n > 0
    ensures n as real / n as real == 1.0
  {
  }

  lemma SizesBalance<K>(a: multiset<K>, b: multiset<K>, c: multiset<K>, d: multiset<K>)
    requires a + b == c + d
    ensures |a| + |b| == |c| + |d|
  {
    assert |a + b| == |a| + |b| && |c + d| == |c| + |d|;
  }

  lemma FinallyBalanced(cmp: Comparison, source: seq<FactAnchor>, cs: seq<FactAnchor>)
    ensures var m := MatchFrom(cmp, source, cs, 0, NO_MATCHES);
            && |m.usedSource| + |m.omissions| == |source|
            && KeysOf(source, Category()) + KeysOf(Unmatched(cs, m.usedCandidate, 0), Category())
               == KeysOf(cs, Category()) + KeysOf(m.omissions, Category())
  {
    assert source[..0] == [] && source[..|source|] == source && cs[0..] == cs;
    LeftOfNone(cs, 0, Category());
    MatchFromCounted(cmp, source, cs, 0, NO_MATCHES);
    MatchFromBalanced(cmp, source, cs, 0, NO_MATCHES);
    LeftIsUnmatched(cs, MatchFrom(cmp, source, cs, 0, NO_MATCHES).usedCandidate, 0, Category());
  }

  // ----- Texts with the same anchors -----

  /** Anchors of one class have similarity 1, whatever their positions. */
  ghost function ClassOf(cmp: Comparison): FactAnchor -> (string, string) {
    (a: FactAnchor) => (a.category, cmp.lower(a.text))
  }

  lemma SimilarityOne(cmp: Comparison, a: FactAnchor, b: FactAnchor)
    requires RatioLaws(cmp)
    ensures Similarity(cmp, a, b) <= 1.0
    ensures Similarity(cmp, a, b) == 1.0 <==> ClassOf(cmp)(a) == ClassOf(cmp)(b)
  {
    assert cmp.ratio(cmp.lower(a.text), cmp.lower(b.text)) <= 1.0;
  }

  /** While the classes left on both sides agree, the next source anchor finds a candidate of its own class. */
  lemma MatchOneInClass(cmp: Comparison, source: seq<FactAnchor>, cs: seq<FactAnchor>, si: nat, m: Matching)
    requires RatioLaws(cmp) && si < |source| && m.omissions == [] && m.contradictions == []
    requires Left(cs, m.usedCandidate, 0, ClassOf(cmp)) == KeysOf(source[si..], ClassOf(cmp))
    ensures var m' := MatchOne(cmp, source, cs, si, m);
            && m'.omissions == [] && m'.contradictions == []
            && Left(cs, m'.usedCandidate, 0, ClassOf(cmp)) == KeysOf(source[si + 1..], ClassOf(cmp))
  {
    var a, key := source[si], ClassOf(cmp);
    assert source[si..][0] == a && source[si..][1..] == source[si + 1..];
    var c := SomeLeft(cs, m.usedCandidate, 0, key, key(a));
    SimilarityOne(cmp, a, cs[c]);
    assert IsCandidate(cmp, a, cs, m.usedCandidate, c);
    BestMeaning(cmp, a, cs, m.usedCandidate, 0, None);
    var best := Best(cmp, a, cs, m.usedCandidate, 0, None).value;
    SimilarityOne(cmp, a, cs[best.0]);
    assert best.1 == 1.0;
    TakeOne(cs, m.usedCandidate, 0, key, best.0);
    assert key(cs[best.0]) == key(a);
    Cancel(Left(cs, m.usedCandidate + {best.0}, 0, key), KeysOf(source[si + 1..], key), key(a));
  }

  lemma {:induction false} MatchFromInClass(cmp: Comparison, source: seq<FactAnchor>, cs: seq<FactAnchor>, si: nat,
      m: Matching)
    requires RatioLaws(cmp) && si <= |source| && m.omissions == [] && m.contradictions == []
    requires Left(cs, m.usedCandidate, 0, ClassOf(cmp)) == KeysOf(source[si..], ClassOf(cmp))
    ensures var m' := MatchFrom(cmp, source, cs, si, m);
            m'.omissions == [] && m'.contradictions == [] && Left(cs, m'.usedCandidate, 0, ClassOf(cmp)) == multiset{}
    decreases |source| - si
  {
    if si < |source| {
      MatchOneInClass(cmp, source, cs, si, m);
      MatchFromInClass(cmp, source, cs, si + 1, MatchOne(cmp, source, cs, si, m));
    }
  }

  /**
   Texts whose anchors are the same up to position, order and letter case show no drift; identical texts in
   particular.
   */
  lemma SameAnchorsNoDrift(cmp: Comparison, source: seq<FactAnchor>, cs: seq<FactAnchor>)
    requires RatioLaws(cmp) && KeysOf(source, ClassOf(cmp)) == KeysOf(cs, ClassOf(cmp))
    ensures !Diff(cmp, source, cs).HasDrift() && Diff(cmp, source, cs).preservation == 1.0
  {
    assert source[0..] == source && cs[0..] == cs;
    LeftOfNone(cs, 0, ClassOf(cmp));
    MatchFromInClass(cmp, source, cs, 0, NO_MATCHES);
    var m := MatchFrom(cmp, source, cs, 0, NO_MATCHES);
    LeftIsUnmatched(cs, m.usedCandidate, 0, ClassOf(cmp));
    KeysOfSize(Unmatched(cs, m.usedCandidate, 0), ClassOf(cmp));
    NoDriftMeans(cmp, source, cs);
  }

  // ----- revalidate_facts_and_citations -----

  function CitationTexts(anchors: seq<FactAnchor>): seq<string> {
    if |anchors| == 0 then []
    else (if anchors[0].category == "citation" then [anchors[0].text] else []) + CitationTexts(anchors[1..])
  }

  predicate FactsAndCitationsKept(cmp: Comparison, original: seq<FactAnchor>, finalized: seq<FactAnchor>) {
    !Diff(cmp, original, finalized).HasDrift() && CitationTexts(finalized) == CitationTexts(original)
  }

  /** Moving the anchors of a text without changing them passes the fact check, as an edit between them does. */
  lemma MovedAnchorsPass(cmp: Comparison, original: seq<FactAnchor>, finalized: seq<FactAnchor>)
    requires RatioLaws(cmp) && |original| == |finalized|
    requires forall i :: 0 <= i < |original| ==> finalized[i] == original[i].(position := finalized[i].position)
    ensures FactsAndCitationsKept(cmp, original, finalized)
  {
    MovedAnchorsKeep(cmp, original, finalized);
    SameAnchorsNoDrift(cmp, original, finalized);
  }

  lemma {:induction false} MovedAnchorsKeep(cmp: Comparison, original: seq<FactAnchor>, finalized: seq<FactAnchor>)
    requires |original| == |finalized|
    requires forall i :: 0 <= i < |original| ==> finalized[i] == original[i].(position := finalized[i].position)
    ensures KeysOf(original, ClassOf(cmp)) == KeysOf(finalized, ClassOf(cmp))
            && CitationTexts(finalized) == CitationTexts(original)
  {
    if |original| > 0 {
      assert forall i :: 0 <= i < |original| - 1 ==>
               finalized[1..][i] == finalized[i + 1] && original[1..][i] == original[i + 1];
      MovedAnchorsKeep(cmp, original[1..], finalized[1..]);
      assert finalized[0] == original[0].(position := finalized[0].position);
    }
  }
}
