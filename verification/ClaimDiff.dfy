/** Diffing claim sets: first equal propositions, then contradictions, each claim in at most one pair. */
module ClaimDiff {
  import opened Wrappers
  import opened MatchingSupport

  datatype Claim = Claim(claimId: string, proposition: string, negation: bool)

  datatype CoverageStatus = Known | UnknownCoverage

  datatype ClaimDiffReport = ClaimDiffReport(
    preserved: seq<string>, omitted: seq<string>, added: seq<string>, contradictedPairs: seq<(string, string)>,
    coverageStatus: CoverageStatus)

  type Relation = (Claim, Claim) -> bool

  function SameProposition(): Relation { (a: Claim, b: Claim) => a.proposition == b.proposition }

  /** The pairs so far and the positions they use on either side. */
  datatype Pairing = Pairing(pairs: seq<(Claim, Claim)>, usedSource: set<nat>, usedCandidate: set<nat>)

  const NO_PAIRS: Pairing := Pairing([], {}, {})

  // ----- diff_claims -----

  /** The first unused candidate from `ci` on that is related to the claim. */
  function FirstRelated(rel: Relation, claim: Claim, cs: seq<Claim>, used: set<nat>, ci: nat): (r: Option<nat>)
    requires ci <= |cs|
    ensures r.Some? ==> ci <= r.value < |cs| && r.value !in used && rel(claim, cs[r.value])
    decreases |cs| - ci
  {
    if ci == |cs| then None
    else if ci !in used && rel(claim, cs[ci]) then Some(ci)
    else FirstRelated(rel, claim, cs, used, ci + 1)
  }

  function PairOne(rel: Relation, source: seq<Claim>, cs: seq<Claim>, si: nat, p: Pairing): Pairing
    requires si < |source|
  {
    if si in p.usedSource then p
    else
      match FirstRelated(rel, source[si], cs, p.usedCandidate, 0)
      case None => p
      case Some(ci) => Pairing(p.pairs + [(source[si], cs[ci])], p.usedSource + {si}, p.usedCandidate + {ci})
  }

  function PairFrom(rel: Relation, source: seq<Claim>, cs: seq<Claim>, si: nat, p: Pairing): Pairing
    requires si <= |source|
    decreases |source| - si
  {
    if si == |source| then p else PairFrom(rel, source, cs, si + 1, PairOne(rel, source, cs, si, p))
  }

  function Ids(claims: seq<Claim>): seq<string> {
    if |claims| == 0 then [] else [claims[0].claimId] + Ids(claims[1..])
  }

  function Firsts(pairs: seq<(Claim, Claim)>): seq<Claim> {
    if |pairs| == 0 then [] else [pairs[0].0] + Firsts(pairs[1..])
  }

  function Seconds(pairs: seq<(Claim, Claim)>): seq<Claim> {
    if |pairs| == 0 then [] else [pairs[0].1] + Seconds(pairs[1..])
  }

  function PairIds(pairs: seq<(Claim, Claim)>): seq<(string, string)> {
    if |pairs| == 0 then [] else [(pairs[0].0.claimId, pairs[0].1.claimId)] + PairIds(pairs[1..])
  }

  function Equal(source: seq<Claim>, cs: seq<Claim>): Pairing { PairFrom(SameProposition(), source, cs, 0, NO_PAIRS) }

  /** The contradictions among the claims that no equal proposition pairs up. */
  function Contradicted(contradicts: Relation, source: seq<Claim>, cs: seq<Claim>): Pairing {
    PairFrom(contradicts, source, cs, 0, Equal(source, cs).(pairs := []))
  }

  function Diff(contradicts: Relation, source: seq<Claim>, cs: seq<Claim>): ClaimDiffReport {
    var p := Contradicted(contradicts, source, cs);
    ClaimDiffReport(Ids(Firsts(Equal(source, cs).pairs)), Ids(Unmatched(source, p.usedSource, 0)),
                    Ids(Unmatched(cs, p.usedCandidate, 0)), PairIds(p.pairs),
                    if |source| > 0 then Known else UnknownCoverage)
  }

  /** The flags of one side hold exactly the used positions. */
  ghost predicate Flags(flags: array<bool>, used: set<nat>)
    reads flags
  {
    forall k: nat :: k < flags.Length ==> (flags[k] <==> k in used)
  }

  /**
   One of the two nested loops, which differ only in the relation: in the first one no claim is matched beforehand, so
   its missing skip makes no difference.
   */
  method PairUp(rel: Relation, source: seq<Claim>, cs: seq<Claim>, matchedSource: array<bool>,
      matchedCandidate: array<bool>, ghost p: Pairing)
    returns (pairs: seq<(Claim, Claim)>, ghost p': Pairing)
    requires matchedSource != matchedCandidate && matchedSource.Length == |source| && matchedCandidate.Length == |cs|
    requires p.pairs == [] && Flags(matchedSource, p.usedSource) && Flags(matchedCandidate, p.usedCandidate)
    modifies matchedSource, matchedCandidate
    ensures p' == PairFrom(rel, source, cs, 0, p) && pairs == p'.pairs
    ensures Flags(matchedSource, p'.usedSource) && Flags(matchedCandidate, p'.usedCandidate)
  {
    pairs := [];
    p' := p;
    for si := 0 to |source|
      invariant PairFrom(rel, source, cs, si, p') == PairFrom(rel, source, cs, 0, p) && pairs == p'.pairs
      invariant Flags(matchedSource, p'.usedSource) && Flags(matchedCandidate, p'.usedCandidate)
    {
      ghost var next := PairOne(rel, source, cs, si, p');
      if matchedSource[si] {
        assert next == p';
        continue;
      }
      var ci := 0;
      while ci < |cs| && (matchedCandidate[ci] || !rel(source[si], cs[ci]))
        invariant 0 <= ci <= |cs|
        invariant FirstRelated(rel, source[si], cs, p'.usedCandidate, ci)
                  == FirstRelated(rel, source[si], cs, p'.usedCandidate, 0)
      {
        ci := ci + 1;
      }
      if ci < |cs| {
        pairs := pairs + [(source[si], cs[ci])];
        matchedSource[si] := true;
        matchedCandidate[ci] := true;
      }
      p' := next;
    }
  }

  method UnmatchedIds(claims: seq<Claim>, matched: array<bool>, ghost used: set<nat>) returns (ids: seq<string>)
    requires matched.Length == |claims| && Flags(matched, used)
    ensures ids == Ids(Unmatched(claims, used, 0))
  {
    ids := [];
    for i := 0 to |claims|
      invariant ids + Ids(Unmatched(claims, used, i)) == Ids(Unmatched(claims, used, 0))
    {
      ghost var rest := Unmatched(claims, used, i + 1);
      assert ([claims[i]] + rest)[1..] == rest && [] + rest == rest;
      if !matched[i] {
        ids := ids + [claims[i].claimId];
      }
    }
  }

  method DiffClaims(contradicts: Relation, source: seq<Claim>, candidate: seq<Claim>) returns (r: ClaimDiffReport)
    ensures r == Diff(contradicts, source, candidate)
  {
    var matchedSource := new bool[|source|](_ => false);
    var matchedCandidate := new bool[|candidate|](_ => false);
    var equalPairs, p1 := PairUp(SameProposition(), source, candidate, matchedSource, matchedCandidate, NO_PAIRS);
    var contradictedPairs, p2 := PairUp(contradicts, source, candidate, matchedSource, matchedCandidate,
                                        p1.(pairs := []));
    var omitted := UnmatchedIds(source, matchedSource, p2.usedSource);
    var added := UnmatchedIds(candidate, matchedCandidate, p2.usedCandidate);
    r := ClaimDiffReport(Ids(Firsts(equalPairs)), omitted, added, PairIds(contradictedPairs),
                         if |source| > 0 then Known else UnknownCoverage);
  }

  // ----- Invariants of pairing -----

  lemma {:induction false} NoneRelated(rel: Relation, claim: Claim, cs: seq<Claim>, used: set<nat>, ci: nat)
    requires ci <= |cs| && FirstRelated(rel, claim, cs, used, ci).None?
    ensures forall c: nat :: ci <= c < |cs| && c !in used ==> !rel(claim, cs[c])
    decreases |cs| - ci
  {
    if ci < |cs| {
      NoneRelated(rel, claim, cs, used, ci + 1);
    }
  }

  ghost predicate AllRelated(rel: Relation, pairs: seq<(Claim, Claim)>) { forall p :: p in pairs ==> rel(p.0, p.1) }

  /** No two claims left over, the first among the first `si`, are related. */
  ghost predicate Exhausted(rel: Relation, source: seq<Claim>, cs: seq<Claim>, si: nat, p: Pairing) {
    forall s: nat, c: nat :: s < si && s < |source| && c < |cs| && s !in p.usedSource && c !in p.usedCandidate
                             ==> !rel(source[s], cs[c])
  }

  lemma PairOneExhausts(rel: Relation, source: seq<Claim>, cs: seq<Claim>, si: nat, p: Pairing)
    requires si < |source| && Exhausted(rel, source, cs, si, p) && AllRelated(rel, p.pairs)
    ensures var p' := PairOne(rel, source, cs, si, p);
            && Exhausted(rel, source, cs, si + 1, p') && AllRelated(rel, p'.pairs)
            && p.usedSource <= p'.usedSource && p.usedCandidate <= p'.usedCandidate
  {
    if si !in p.usedSource && FirstRelated(rel, source[si], cs, p.usedCandidate, 0).None? {
      NoneRelated(rel, source[si], cs, p.usedCandidate, 0);
    }
  }

  lemma {:induction false} PairFromExhausts(rel: Relation, source: seq<Claim>, cs: seq<Claim>, si: nat, p: Pairing)
    requires si <= |source| && Exhausted(rel, source, cs, si, p) && AllRelated(rel, p.pairs)
    ensures var p' := PairFrom(rel, source, cs, si, p);
            && Exhausted(rel, source, cs, |source|, p') && AllRelated(rel, p'.pairs)
            && p.usedSource <= p'.usedSource && p.usedCandidate <= p'.usedCandidate
    decreases |source| - si
  {
    if si < |source| {
      PairOneExhausts(rel, source, cs, si, p);
      PairFromExhausts(rel, source, cs, si + 1, PairOne(rel, source, cs, si, p));
    }
  }

  lemma {:induction false} FirstsSnoc(pairs: seq<(Claim, Claim)>, a: Claim, b: Claim)
    ensures Firsts(pairs + [(a, b)]) == Firsts(pairs) + [a] && Seconds(pairs + [(a, b)]) == Seconds(pairs) + [b]
  {
    if |pairs| > 0 {
      FirstsSnoc(pairs[1..], a, b);
      assert (pairs + [(a, b)])[1..] == pairs[1..] + [(a, b)];
    } else {
      assert (pairs + [(a, b)])[1..] == [];
    }
  }

  /** Pairing moves claims from the leftovers to the pairs, on both sides. */
  ghost predicate Moved<K>(source: seq<Claim>, cs: seq<Claim>, from: Pairing, to: Pairing, key: Claim -> K) {
    && KeysOf(Firsts(from.pairs), key) + Left(source, from.usedSource, 0, key)
       == KeysOf(Firsts(to.pairs), key) + Left(source, to.usedSource, 0, key)
    && KeysOf(Seconds(from.pairs), key) + Left(cs, from.usedCandidate, 0, key)
       == KeysOf(Seconds(to.pairs), key) + Left(cs, to.usedCandidate, 0, key)
  }

  lemma PairOneMoves<K>(rel: Relation, source: seq<Claim>, cs: seq<Claim>, si: nat, p: Pairing, key: Claim -> K)
    requires si < |source|
    ensures Moved(source, cs, p, PairOne(rel, source, cs, si, p), key)
  {
    if si !in p.usedSource {
      var found := FirstRelated(rel, source[si], cs, p.usedCandidate, 0);
      if found.Some? {
        var a, b := source[si], cs[found.value];
        FirstsSnoc(p.pairs, a, b);
        KeysOfSnoc(Firsts(p.pairs), a, key);
        KeysOfSnoc(Seconds(p.pairs), b, key);
        TakeOne(source, p.usedSource, 0, key, si);
        TakeOne(cs, p.usedCandidate, 0, key, found.value);
        Exchange(KeysOf(Firsts(p.pairs), key), Left(source, p.usedSource + {si}, 0, key), key(a));
        Exchange(KeysOf(Seconds(p.pairs), key), Left(cs, p.usedCandidate + {found.value}, 0, key), key(b));
      }
    }
  }

  lemma {:induction false} PairFromMoves<K>(rel: Relation, source: seq<Claim>, cs: seq<Claim>, si: nat, p: Pairing,
      key: Claim -> K)
    requires si <= |source|
    ensures Moved(source, cs, p, PairFrom(rel, source, cs, si, p), key)
    decreases |source| - si
  {
    if si < |source| {
      PairOneMoves(rel, source, cs, si, p, key);
      PairFromMoves(rel, source, cs, si + 1, PairOne(rel, source, cs, si, p), key);
    }
  }

  // ----- What the report says -----

  ghost function Proposition(): Claim -> string { (c: Claim) => c.proposition }

  ghost function Id(): Claim -> string { (c: Claim) => c.claimId }

  lemma {:induction false} IdsAreKeys(claims: seq<Claim>)
    ensures multiset(Ids(claims)) == KeysOf(claims, Id())
  {
    if |claims| > 0 {
      IdsAreKeys(claims[1..]);
    }
  }

  lemma {:induction false} SamePropositions(pairs: seq<(Claim, Claim)>)
    requires AllRelated(SameProposition(), pairs)
    ensures KeysOf(Firsts(pairs), Proposition()) == KeysOf(Seconds(pairs), Proposition())
  {
    if |pairs| > 0 {
      assert pairs[0] in pairs && forall p :: p in pairs[1..] ==> p in pairs;
      SamePropositions(pairs[1..]);
    }
  }

  /** Exactly min(source count, candidate count) claims of every proposition are preserved: multiset intersection. */
  lemma PreservedIsIntersection(source: seq<Claim>, cs: seq<Claim>)
    ensures KeysOf(Firsts(Equal(source, cs).pairs), Proposition())
            == KeysOf(source, Proposition()) * KeysOf(cs, Proposition())
  {
    var p, key := Equal(source, cs), Proposition();
    PairFromExhausts(SameProposition(), source, cs, 0, NO_PAIRS);
    SamePropositions(p.pairs);
    PairFromMoves(SameProposition(), source, cs, 0, NO_PAIRS, key);
    NothingUsed(source, key);
    NothingUsed(cs, key);
    assert forall s: nat, c: nat :: s < |source| && c < |cs| && s !in p.usedSource && c !in p.usedCandidate
             ==> key(source[s]) != key(cs[c]) by {
      assert forall a: Claim, b: Claim :: key(a) == key(b) ==> SameProposition()(a, b);
    }
    forall t | t in Left(source, p.usedSource, 0, key) ensures t !in Left(cs, p.usedCandidate, 0, key) {
      var s := SomeLeft(source, p.usedSource, 0, key, t);
      if t in Left(cs, p.usedCandidate, 0, key) {
        var c := SomeLeft(cs, p.usedCandidate, 0, key, t);
        assert false;
      }
    }
    Intersection(KeysOf(Firsts(p.pairs), key), Left(source, p.usedSource, 0, key), Left(cs, p.usedCandidate, 0, key));
  }

  lemma NothingUsed<K>(claims: seq<Claim>, key: Claim -> K)
    ensures multiset{} + Left(claims, {}, 0, key) == KeysOf(claims, key)
  {
    LeftOfNone(claims, 0, key);
    assert claims[0..] == claims;
  }

  lemma Intersection<K>(p: multiset<K>, a: multiset<K>, b: multiset<K>)
    requires forall t :: t in a ==> t !in b
    ensures p == (p + a) * (p + b)
  {
  }

  /**
   Preserved, contradicted and omitted claims are the source claims; matched, contradicted and added ones the
   candidates.
   */
  lemma DiffPartitions(contradicts: Relation, source: seq<Claim>, cs: seq<Claim>)
    ensures var r := Diff(contradicts, source, cs);
            var c := Contradicted(contradicts, source, cs);
            && multiset(Ids(source)) == multiset(r.preserved) + multiset(Ids(Firsts(c.pairs))) + multiset(r.omitted)
            && multiset(Ids(cs))
               == multiset(Ids(Seconds(Equal(source, cs).pairs))) + multiset(Ids(Seconds(c.pairs))) + multiset(r.added)
            && r.contradictedPairs == PairIds(c.pairs) && AllRelated(contradicts, c.pairs)
  {
    var e, c, key := Equal(source, cs), Contradicted(contradicts, source, cs), Id();
    PairFromMoves(SameProposition(), source, cs, 0, NO_PAIRS, key);
    PairFromMoves(contradicts, source, cs, 0, e.(pairs := []), key);
    NothingUsed(source, key);
    NothingUsed(cs, key);
    LeftIsUnmatched(source, c.usedSource, 0, key);
    LeftIsUnmatched(cs, c.usedCandidate, 0, key);
    PairFromExhausts(contradicts, source, cs, 0, e.(pairs := []));
    PartitionIds(source, Firsts(e.pairs), Firsts(c.pairs), Unmatched(source, c.usedSource, 0),
                 Left(source, e.usedSource, 0, key));
    PartitionIds(cs, Seconds(e.pairs), Seconds(c.pairs), Unmatched(cs, c.usedCandidate, 0),
                 Left(cs, e.usedCandidate, 0, key));
  }

  lemma PartitionIds(all: seq<Claim>, a: seq<Claim>, b: seq<Claim>, rest: seq<Claim>, left: multiset<string>)
    requires KeysOf(all, Id()) == KeysOf(a, Id()) + left && left == KeysOf(b, Id()) + KeysOf(rest, Id())
    ensures multiset(Ids(all)) == multiset(Ids(a)) + multiset(Ids(b)) + multiset(Ids(rest))
  {
    IdsAreKeys(all);
    IdsAreKeys(a);
    IdsAreKeys(b);
    IdsAreKeys(rest);
  }

  /** No omitted and added claim are left that are equal or contradict each other. */
  lemma LeftoversAreUnrelated(contradicts: Relation, source: seq<Claim>, cs: seq<Claim>)
    ensures var p := Contradicted(contradicts, source, cs);
            forall s: nat, c: nat :: s < |source| && c < |cs| && s !in p.usedSource && c !in p.usedCandidate
              ==> source[s].proposition != cs[c].proposition && !contradicts(source[s], cs[c])
  {
    var e := Equal(source, cs);
    PairFromExhausts(SameProposition(), source, cs, 0, NO_PAIRS);
    PairFromExhausts(contradicts, source, cs, 0, e.(pairs := []));
    assert forall s: nat, c: nat :: s < |source| && c < |cs| && s !in e.usedSource && c !in e.usedCandidate
             ==> !SameProposition()(source[s], cs[c]);
  }
}
