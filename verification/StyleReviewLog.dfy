/**
 Replaying a decision log on a package that was itself replayed: when it composes, and when recording a decision
 fails.
 */
module StyleReviewLog {
  import opened Wrappers
  import opened StyleServices

  // ----- What every replayed state keeps -----

  ghost predicate UniqueIds(dict: seq<ExcludedSpan>) {
    forall i, j :: 0 <= i < j < |dict| ==> dict[i].spanId != dict[j].spanId
  }

  predicate SameExtent(a: AuthorshipSpan, b: AuthorshipSpan) {
    a.spanId == b.spanId && a.location == b.location && a.text == b.text
  }

  /** Each original span is either effective, with its own text and offsets, or excluded. */
  ghost predicate Partitioned(originals: map<string, AuthorshipSpan>, st: State) {
    && Keyed(originals)
    && UniqueIds(st.excluded)
    && (forall id :: id in st.effective ==> id in originals && SameExtent(st.effective[id], originals[id]))
    && (forall id :: Lookup(st.excluded, id).Some? <==> id in originals && id !in st.effective)
  }

  lemma {:induction false} LookupFinds(dict: seq<ExcludedSpan>, id: string)
    ensures Lookup(dict, id).Some? <==> exists k :: 0 <= k < |dict| && dict[k].spanId == id
  {
    if |dict| > 0 && dict[0].spanId != id {
      LookupFinds(dict[1..], id);
      if Lookup(dict[1..], id).Some? {
        var k :| 0 <= k < |dict[1..]| && dict[1..][k].spanId == id;
        assert dict[k + 1].spanId == id;
      } else {
        assert forall k :: 1 <= k < |dict| ==> dict[k] == dict[1..][k - 1];
      }
    }
  }

  lemma {:induction false} PutKeepsUnique(dict: seq<ExcludedSpan>, x: ExcludedSpan)
    requires UniqueIds(dict)
    ensures UniqueIds(Put(dict, x))
  {
    if |dict| > 0 && dict[0].spanId != x.spanId {
      PutKeepsUnique(dict[1..], x);
      PutLooksUp(dict[1..], x, dict[0].spanId);
      LookupFinds(dict[1..], dict[0].spanId);
      LookupFinds(Put(dict[1..], x), dict[0].spanId);
    }
  }

  lemma {:induction false} PopKeepsUnique(dict: seq<ExcludedSpan>, id: string)
    requires UniqueIds(dict)
    ensures UniqueIds(Pop(dict, id))
  {
    if |dict| > 0 {
      PopKeepsUnique(dict[1..], id);
      PopLooksUp(dict[1..], id, dict[0].spanId);
      LookupFinds(dict[1..], dict[0].spanId);
      LookupFinds(Pop(dict[1..], id), dict[0].spanId);
    }
  }

  lemma StepKeepsPartition(originals: map<string, AuthorshipSpan>, packageId: string, st: State, d: Decision)
    requires Partitioned(originals, st) && Step(originals, packageId, st, d).Ok?
    ensures Partitioned(originals, Step(originals, packageId, st, d).value)
  {
    var st' := Step(originals, packageId, st, d).value;
    if Targets(packageId, d) {
      var y := d.spanId.s;
      PutKeepsUnique(st.excluded, Excluded(originals[y], d));
      PopKeepsUnique(st.excluded, y);
      forall id ensures Lookup(st'.excluded, id).Some? <==> id in originals && id !in st'.effective {
        PutLooksUp(st.excluded, Excluded(originals[y], d), id);
        PopLooksUp(st.excluded, y, id);
      }
    }
  }

  lemma {:induction false} RunKeepsPartition(originals: map<string, AuthorshipSpan>, packageId: string, st: State,
      ds: seq<Decision>)
    requires Partitioned(originals, st) && Run(originals, packageId, st, ds).Ok?
    ensures Partitioned(originals, Run(originals, packageId, st, ds).value)
    decreases |ds|
  {
    if |ds| > 0 {
      StepKeepsPartition(originals, packageId, st, ds[0]);
      RunKeepsPartition(originals, packageId, Step(originals, packageId, st, ds[0]).value, ds[1..]);
    }
  }

  lemma FreshIsPartitioned(p: Package)
    requires Fresh(p)
    ensures Partitioned(SpanMap(p.spans), Start(p))
  {
    SpanMapLooksUp(p.spans);
  }

  /** A replay lists no span twice among the exclusions, and no excluded span among the others. */
  lemma ExclusionsAreSeparate(p: Package, ds: seq<Decision>)
    requires Fresh(p) && Replay(p, ds).Ok?
    ensures UniqueIds(Replay(p, ds).value.excluded)
    ensures forall s :: s in Replay(p, ds).value.spans ==> Lookup(Replay(p, ds).value.excluded, s.spanId).None?
  {
    FreshIsPartitioned(p);
    RunKeepsPartition(SpanMap(p.spans), p.packageId, Start(p), ds);
    var st := Run(SpanMap(p.spans), p.packageId, Start(p), ds).value;
    InOrderIsEffective(p.spans, st.effective);
  }

  lemma {:induction false} InOrderIsEffective(spans: seq<AuthorshipSpan>, effective: map<string, AuthorshipSpan>)
    ensures forall s :: s in InOrder(spans, effective) ==> exists id :: id in effective && effective[id] == s
  {
    if |spans| > 0 {
      InOrderIsEffective(spans[1..], effective);
    }
  }

  // ----- Logs one after the other -----

  lemma {:induction false} RunConcat(originals: map<string, AuthorshipSpan>, packageId: string, st: State,
      a: seq<Decision>, b: seq<Decision>)
    ensures Run(originals, packageId, st, a + b) ==
            match Run(originals, packageId, st, a)
            case Err(e) => Err(e)
            case Ok(next) => Run(originals, packageId, next, b)
    decreases |a|
  {
    if |a| == 0 {
      assert a + b == b;
    } else {
      assert (a + b)[0] == a[0] && (a + b)[1..] == a[1..] + b;
      var next := Step(originals, packageId, st, a[0]);
      if next.Ok? {
        RunConcat(originals, packageId, next.value, a[1..], b);
      }
    }
  }

  /** The two tables of originals say the same about the spans the log decides. */
  ghost predicate AgreeOn(packageId: string, ds: seq<Decision>, o1: map<string, AuthorshipSpan>,
      o2: map<string, AuthorshipSpan>)
  {
    forall d :: d in ds && Targets(packageId, d) && d.spanId.Text? ==>
      var id := d.spanId.s;
      (id in o1 <==> id in o2) && (id in o1 ==> SameExtent(o1[id], o2[id]))
  }

  lemma {:induction false} RunAgrees(packageId: string, st: State, ds: seq<Decision>, o1: map<string, AuthorshipSpan>,
      o2: map<string, AuthorshipSpan>)
    requires AgreeOn(packageId, ds, o1, o2)
    ensures Run(o1, packageId, st, ds) == Run(o2, packageId, st, ds)
    decreases |ds|
  {
    if |ds| > 0 {
      assert ds[0] in ds && forall d :: d in ds[1..] ==> d in ds;
      var next := Step(o1, packageId, st, ds[0]);
      assert next == Step(o2, packageId, st, ds[0]);
      if next.Ok? {
        RunAgrees(packageId, next.value, ds[1..], o1, o2);
      }
    }
  }

  // ----- A replayed package as the start of another replay -----

  lemma {:induction false} InOrderMembers(spans: seq<AuthorshipSpan>, effective: map<string, AuthorshipSpan>,
      s: AuthorshipSpan)
    requires Keyed(effective)
    ensures s in InOrder(spans, effective) <==>
            s.spanId in effective && effective[s.spanId] == s && exists t :: t in spans && t.spanId == s.spanId
  {
    if |spans| > 0 {
      InOrderMembers(spans[1..], effective, s);
      assert forall t :: t in spans <==> t == spans[0] || t in spans[1..];
    }
  }

  lemma {:induction false} InOrderDistinct(spans: seq<AuthorshipSpan>, effective: map<string, AuthorshipSpan>)
    requires Keyed(effective) && DistinctSpans(spans)
    ensures DistinctSpans(InOrder(spans, effective))
  {
    if |spans| > 0 {
      InOrderDistinct(spans[1..], effective);
      var rest := InOrder(spans[1..], effective);
      forall k | 0 <= k < |rest| ensures rest[k].spanId != spans[0].spanId {
        InOrderMembers(spans[1..], effective, rest[k]);
      }
    }
  }

  lemma {:induction false} InOrderTwice(spans: seq<AuthorshipSpan>, e1: map<string, AuthorshipSpan>,
      e2: map<string, AuthorshipSpan>)
    requires Keyed(e1) && forall id :: id in e2 ==> id in e1
    ensures InOrder(InOrder(spans, e1), e2) == InOrder(spans, e2)
  {
    if |spans| > 0 {
      InOrderTwice(spans[1..], e1, e2);
      if spans[0].spanId in e1 {
        assert InOrder(spans, e1)[0].spanId == spans[0].spanId && InOrder(spans, e1)[1..] == InOrder(spans[1..], e1);
      } else {
        assert InOrder(spans, e1) == InOrder(spans[1..], e1);
      }
    }
  }

  lemma {:induction false} PutAtEnd(dict: seq<ExcludedSpan>, x: ExcludedSpan)
    requires forall k :: 0 <= k < |dict| ==> dict[k].spanId != x.spanId
    ensures Put(dict, x) == dict + [x]
  {
    if |dict| > 0 {
      PutAtEnd(dict[1..], x);
    }
  }

  lemma {:induction false} DictOfUnique(xs: seq<ExcludedSpan>)
    requires UniqueIds(xs)
    ensures DictOf(xs) == xs
    decreases |xs|
  {
    if |xs| > 0 {
      var n := |xs| - 1;
      DictOfUnique(xs[..n]);
      PutAtEnd(xs[..n], xs[n]);
    }
  }

  lemma MapOfInOrder(spans: seq<AuthorshipSpan>, effective: map<string, AuthorshipSpan>)
    requires Keyed(effective) && DistinctSpans(spans)
    requires forall id :: id in effective ==> exists t :: t in spans && t.spanId == id
    ensures SpanMap(InOrder(spans, effective)) == effective
  {
    var kept := InOrder(spans, effective);
    InOrderDistinct(spans, effective);
    SpanMapLooksUp(kept);
    forall id
      ensures (id in SpanMap(kept) <==> id in effective) && (id in effective ==> SpanMap(kept)[id] == effective[id])
    {
      if id in effective {
        InOrderMembers(spans, effective, effective[id]);
      } else if id in SpanMap(kept) {
        var s :| s in kept && s.spanId == id;
        InOrderMembers(spans, effective, s);
      }
    }
  }

  /** A replayed package carries the whole state of its replay. */
  lemma RestartsFrom(p: Package, a: seq<Decision>)
    requires Fresh(p) && Replay(p, a).Ok?
    ensures var st := Run(SpanMap(p.spans), p.packageId, Start(p), a).value;
            && Partitioned(SpanMap(p.spans), st)
            && Start(Finish(p, st)) == st
            && SpanMap(InOrder(p.spans, st.effective)) == st.effective
  {
    var st := Run(SpanMap(p.spans), p.packageId, Start(p), a).value;
    FreshIsPartitioned(p);
    RunKeepsPartition(SpanMap(p.spans), p.packageId, Start(p), a);
    DictOfUnique(st.excluded);
    SpanMapLooksUp(p.spans);
    MapOfInOrder(p.spans, st.effective);
  }

  /** The log decides a span that the package no longer holds because it was excluded. */
  ghost predicate MentionsExcluded(q: Package, ds: seq<Decision>) {
    exists d :: d in ds && Targets(q.packageId, d) && d.spanId.Text? && Lookup(q.excluded, d.spanId.s).Some?
  }

  /**
   Replaying `b` on the replayed package gives what replaying `a + b` on the original gives, unless `b` decides a span
   that `a` leaves excluded: then it raises.
   */
  lemma ReplayComposes(p: Package, a: seq<Decision>, b: seq<Decision>)
    requires Fresh(p) && Replay(p, a).Ok?
    ensures var q := Replay(p, a).value;
            if MentionsExcluded(q, b) then Replay(q, b).Err? else Replay(q, b) == Replay(p, a + b)
  {
    var originals := SpanMap(p.spans);
    var st := Run(originals, p.packageId, Start(p), a).value;
    var q := Replay(p, a).value;
    RestartsFrom(p, a);
    if MentionsExcluded(q, b) {
      RunSucceedsIff(SpanMap(q.spans), q.packageId, Start(q), b);
    } else {
      RunAgrees(p.packageId, st, b, st.effective, originals);
      RunConcat(originals, p.packageId, Start(p), a, b);
      var end := Run(originals, p.packageId, st, b);
      if end.Ok? {
        StaysWithin(st.effective, p.packageId, st, b);
        InOrderTwice(p.spans, st.effective, end.value.effective);
      }
    }
  }

  lemma {:induction false} StaysWithin(originals: map<string, AuthorshipSpan>, packageId: string, st: State,
      ds: seq<Decision>)
    requires Run(originals, packageId, st, ds).Ok? && forall id :: id in st.effective ==> id in originals
    ensures forall id :: id in Run(originals, packageId, st, ds).value.effective ==> id in originals
    decreases |ds|
  {
    if |ds| > 0 {
      StaysWithin(originals, packageId, Step(originals, packageId, st, ds[0]).value, ds[1..]);
    }
  }

  // ----- Replaying the same log again -----

  lemma SamePlaces(st: State, st': State)
    requires forall id :: PlaceOf(st', id) == PlaceOf(st, id)
    ensures st'.effective == st.effective
    ensures st.excluded == [] ==> st'.excluded == []
  {
    forall id
      ensures (id in st.effective <==> id in st'.effective)
              && (id in st.effective ==> st'.effective[id] == st.effective[id])
    {
      assert PlaceOf(st', id).effective == PlaceOf(st, id).effective;
    }
    if st'.excluded != [] {
      var id := st'.excluded[0].spanId;
      assert PlaceOf(st, id).excluded == PlaceOf(st', id).excluded == Some(st'.excluded[0]);
    }
  }

  /** When nothing is left excluded, running the log again from where it ended changes nothing. */
  lemma RerunIsIdle(originals: map<string, AuthorshipSpan>, packageId: string, st: State, ds: seq<Decision>)
    requires Keyed(originals) && Run(originals, packageId, st, ds).Ok?
    requires Run(originals, packageId, st, ds).value.excluded == []
    ensures Run(originals, packageId, Run(originals, packageId, st, ds).value, ds) == Run(originals, packageId, st, ds)
  {
    var end := Run(originals, packageId, st, ds).value;
    RunSucceedsIff(originals, packageId, st, ds);
    RunSucceedsIff(originals, packageId, end, ds);
    var again := Run(originals, packageId, end, ds).value;
    forall id ensures PlaceOf(again, id) == PlaceOf(end, id) {
      RunPlaces(originals, packageId, st, ds, id);
      RunPlaces(originals, packageId, end, ds, id);
    }
    SamePlaces(end, again);
  }

  lemma {:induction false} LastIsLogged(packageId: string, ds: seq<Decision>, id: string)
    requires Last(packageId, ds, id).Some?
    ensures Last(packageId, ds, id).value in ds && About(packageId, Last(packageId, ds, id).value, id)
    decreases |ds|
  {
    if Last(packageId, ds[1..], id).Some? {
      LastIsLogged(packageId, ds[1..], id);
    }
  }

  /** What a log leaves excluded, it decided. */
  lemma ExcludedWasDecided(p: Package, ds: seq<Decision>)
    requires Fresh(p) && Replay(p, ds).Ok? && Replay(p, ds).value.excluded != []
    ensures MentionsExcluded(Replay(p, ds).value, ds)
  {
    var q := Replay(p, ds).value;
    var id := q.excluded[0].spanId;
    assert Lookup(q.excluded, id).Some?;
    SpanMapLooksUp(p.spans);
    RunPlaces(SpanMap(p.spans), p.packageId, Start(p), ds, id);
    assert PlaceOf(Run(SpanMap(p.spans), p.packageId, Start(p), ds).value, id).excluded.Some?
           && PlaceOf(Start(p), id).excluded.None?;
    LastIsLogged(p.packageId, ds, id);
  }

  /**
   Replaying a log on its own result is the identity exactly when the log leaves nothing excluded; otherwise it
   raises.
   */
  lemma ReplayAgainIff(p: Package, ds: seq<Decision>)
    requires Fresh(p) && Replay(p, ds).Ok?
    ensures var q := Replay(p, ds).value;
            && (Replay(q, ds) == Ok(q) <==> q.excluded == [])
            && (Replay(q, ds).Err? <==> q.excluded != [])
  {
    ReplayComposes(p, ds, ds);
    if Replay(p, ds).value.excluded != [] {
      ExcludedWasDecided(p, ds);
    } else {
      SpanMapLooksUp(p.spans);
      RerunIsIdle(SpanMap(p.spans), p.packageId, Start(p), ds);
      RunConcat(SpanMap(p.spans), p.packageId, Start(p), ds, ds);
    }
  }

  // ----- Recording a decision -----

  function Recorded(packageId: string, spanId: string, c: AuthorshipClass, decidedBy: string,
      reason: Option<string>): Decision
  {
    Decision(Text(packageId), Text(spanId), Text(ClassName(c)), Some(decidedBy), reason)
  }

  predicate Holds(p: Package, spanId: string) { exists s :: s in p.spans && s.spanId == spanId }

  /** The append-only log of decisions. */
  class Vault {
    var decisions: seq<Decision>

    constructor ()
      ensures decisions == []
    {
      decisions := [];
    }

    /** Appends first and replays afterwards: when the replay raises, the decision stays in the log. */
    method RecordReviewDecision(p: Package, spanId: string, c: AuthorshipClass, decidedBy: string,
        reason: Option<string>)
      returns (r: Result<Package>)
      modifies this
      ensures !Holds(p, spanId) ==> r == Err(UnknownSpan(spanId)) && decisions == old(decisions)
      ensures Holds(p, spanId) && c.UnknownClass? ==> r == Err(UnknownAuthorship) && decisions == old(decisions)
      ensures Holds(p, spanId) && !c.UnknownClass? ==>
                && decisions == old(decisions) + [Recorded(p.packageId, spanId, c, decidedBy, reason)]
                && r == Replay(p, decisions)
    {
      var found := false;
      for i := 0 to |p.spans|
        invariant found <==> exists k :: 0 <= k < i && p.spans[k].spanId == spanId
        invariant decisions == old(decisions)
      {
        if p.spans[i].spanId == spanId {
          found := true;
        }
      }
      assert found <==> Holds(p, spanId);
      if !found {
        return Err(UnknownSpan(spanId));
      }
      if c.UnknownClass? {
        return Err(UnknownAuthorship);
      }
      decisions := decisions + [Recorded(p.packageId, spanId, c, decidedBy, reason)];
      r := ReplayDecisions(p, decisions);
    }
  }

  /**
   Recording a decision about a span that the effective package still holds, the way the review command does it,
   succeeds exactly when no span is excluded so far; then it yields what the immutable package yields.
   */
  lemma RecordingOnEffectiveIff(p: Package, log: seq<Decision>, spanId: string, c: AuthorshipClass, decidedBy: string,
      reason: Option<string>)
    requires Fresh(p) && Replay(p, log).Ok? && Holds(Replay(p, log).value, spanId) && !c.UnknownClass?
    ensures var q, log' := Replay(p, log).value, log + [Recorded(p.packageId, spanId, c, decidedBy, reason)];
            && Replay(p, log').Ok?
            && (Replay(q, log').Ok? <==> q.excluded == [])
            && (q.excluded == [] ==> Replay(q, log') == Replay(p, log'))
  {
    var d := Recorded(p.packageId, spanId, c, decidedBy, reason);
    var originals := SpanMap(p.spans);
    var q := Replay(p, log).value;
    var st := Run(originals, p.packageId, Start(p), log).value;
    NameIsParsed(c);
    RestartsFrom(p, log);
    SpanMapLooksUp(q.spans);
    assert spanId in originals;
    RunConcat(originals, p.packageId, Start(p), log, [d]);
    assert [d][1..] == [];
    assert Run(originals, p.packageId, st, [d]).Ok?;
    ReplayComposes(p, log, log + [d]);
    if q.excluded != [] {
      ExcludedWasDecided(p, log);
      var x :| x in log && Targets(q.packageId, x) && x.spanId.Text? && Lookup(q.excluded, x.spanId.s).Some?;
      assert x in log + [d];
    } else {
      SpanMapLooksUp(p.spans);
      RerunIsIdle(originals, p.packageId, Start(p), log);
      RunConcat(originals, p.packageId, st, log, [d]);
      RunConcat(originals, p.packageId, Start(p), log, log + [d]);
    }
  }

  lemma {:induction false} LastOfSnoc(packageId: string, log: seq<Decision>, d: Decision, id: string)
    requires About(packageId, d, id)
    ensures Last(packageId, log + [d], id) == Some(d)
    decreases |log|
  {
    if |log| > 0 {
      assert (log + [d])[1..] == log[1..] + [d];
      LastOfSnoc(packageId, log[1..], d, id);
    } else {
      assert log + [d] == [d] && [d][1..] == [];
    }
  }

  lemma {:induction false} EffectiveIsListed(spans: seq<AuthorshipSpan>, effective: map<string, AuthorshipSpan>,
      s: AuthorshipSpan)
    requires s in spans && s.spanId in effective
    ensures effective[s.spanId] in InOrder(spans, effective)
  {
    if s != spans[0] {
      EffectiveIsListed(spans[1..], effective, s);
    }
  }

  /** A recorded decision is the one that holds: the span has its class and decider, or is excluded for its reason. */
  lemma RecordedHolds(p: Package, log: seq<Decision>, s: AuthorshipSpan, c: AuthorshipClass, decidedBy: string,
      reason: Option<string>)
    requires Fresh(p) && s in p.spans
    requires Replay(p, log + [Recorded(p.packageId, s.spanId, c, decidedBy, reason)]).Ok?
    ensures var q := Replay(p, log + [Recorded(p.packageId, s.spanId, c, decidedBy, reason)]).value;
            if c == Exclude then
              Lookup(q.excluded, s.spanId)
              == Some(ExcludedSpan(s.spanId, s.location,
                                   if reason.Some? then reason.value else "excluded by review"))
            else AuthorshipSpan(s.spanId, s.location, s.text, c, "resolved", decidedBy) in q.spans
  {
    var d := Recorded(p.packageId, s.spanId, c, decidedBy, reason);
    var st := Run(SpanMap(p.spans), p.packageId, Start(p), log + [d]).value;
    LastOfSnoc(p.packageId, log, d, s.spanId);
    ReplayPlaces(p, log + [d]);
    RecordedClass(p.packageId, s.spanId, c, decidedBy, reason);
    assert PlaceOf(st, s.spanId) == DecidedPlace(s, d, c);
    if c != Exclude {
      EffectiveIsListed(p.spans, st.effective, s);
    }
  }

  lemma RecordedClass(packageId: string, spanId: string, c: AuthorshipClass, decidedBy: string, reason: Option<string>)
    ensures var r := ClassOf(Recorded(packageId, spanId, c, decidedBy, reason));
            r == if c.UnknownClass? then Err(UnknownAuthorship) else Ok(c)
  {
    NameIsParsed(c);
  }
}
