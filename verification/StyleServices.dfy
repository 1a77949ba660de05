/** Replaying the log of authorship review decisions over a style evidence package. */
module StyleServices {
  import opened Wrappers
  import opened Documents

  datatype AuthorshipClass =
    | AuthenticUserProse | UserRevision | QuotationClass | ExternalSource | Boilerplate | FormField | SignatureClass
    | ReviewerText | AiAssisted | UnknownClass | Exclude

  function ParseClass(s: string): Option<AuthorshipClass> {
    if s == "authentic_user_prose" then Some(AuthenticUserProse)
    else if s == "user_revision" then Some(UserRevision)
    else if s == "quotation" then Some(QuotationClass)
    else if s == "external_source" then Some(ExternalSource)
    else if s == "boilerplate" then Some(Boilerplate)
    else if s == "form_field" then Some(FormField)
    else if s == "signature" then Some(SignatureClass)
    else if s == "reviewer_text" then Some(ReviewerText)
    else if s == "ai_assisted" then Some(AiAssisted)
    else if s == "unknown" then Some(UnknownClass)
    else if s == "exclude" then Some(Exclude)
    else None
  }

  datatype AuthorshipSpan = AuthorshipSpan(
    spanId: string, location: SourceLocation, text: string, authorshipClass: AuthorshipClass, reviewStatus: string,
    decidedBy: string)

  datatype ExcludedSpan = ExcludedSpan(spanId: string, location: SourceLocation, reason: string)

  /** The part of a package that decisions can change. */
  datatype Package = Package(packageId: string, spans: seq<AuthorshipSpan>, excluded: seq<ExcludedSpan>)

  /** A field of a logged record: a string, or anything else (including absent). */
  datatype Field = Text(s: string) | NotText

  datatype Decision = Decision(packageId: Field, spanId: Field, authorshipClass: Field, decidedBy: Option<string>,
                               reason: Option<string>)

  // ----- Dictionaries -----

  /** `{span.span_id: span for span in spans}`: the last span of an id wins. */
  function SpanMap(spans: seq<AuthorshipSpan>): map<string, AuthorshipSpan> {
    if |spans| == 0 then map[]
    else SpanMap(spans[..|spans| - 1])[spans[|spans| - 1].spanId := spans[|spans| - 1]]
  }

  /** Assigning a key of an insertion-ordered dict: in place if present, else at the end. */
  function Put(dict: seq<ExcludedSpan>, x: ExcludedSpan): seq<ExcludedSpan> {
    if |dict| == 0 then [x]
    else if dict[0].spanId == x.spanId then [x] + dict[1..]
    else [dict[0]] + Put(dict[1..], x)
  }

  function Pop(dict: seq<ExcludedSpan>, id: string): seq<ExcludedSpan> {
    if |dict| == 0 then []
    else if dict[0].spanId == id then Pop(dict[1..], id)
    else [dict[0]] + Pop(dict[1..], id)
  }

  function DictOf(xs: seq<ExcludedSpan>): seq<ExcludedSpan> {
    if |xs| == 0 then [] else Put(DictOf(xs[..|xs| - 1]), xs[|xs| - 1])
  }

  function Lookup(dict: seq<ExcludedSpan>, id: string): Option<ExcludedSpan> {
    if |dict| == 0 then None else if dict[0].spanId == id then Some(dict[0]) else Lookup(dict[1..], id)
  }

  // ----- replay_decisions -----

  datatype State = State(effective: map<string, AuthorshipSpan>, excluded: seq<ExcludedSpan>)

  function ReasonOf(d: Decision): string { if d.reason.Some? then d.reason.value else "excluded by review" }

  function DeciderOf(d: Decision): string { if d.decidedBy.Some? then d.decidedBy.value else "cli" }

  function Excluded(original: AuthorshipSpan, d: Decision): ExcludedSpan {
    ExcludedSpan(original.spanId, original.location, ReasonOf(d))
  }

  function Decided(original: AuthorshipSpan, d: Decision, c: AuthorshipClass): AuthorshipSpan {
    AuthorshipSpan(original.spanId, original.location, original.text, c, "resolved", DeciderOf(d))
  }

  predicate Targets(packageId: string, d: Decision) { d.packageId == Text(packageId) }

  /** The class of a decision that a replay may apply, or why it may not. */
  function ClassOf(d: Decision): Result<AuthorshipClass> {
    if d.spanId.NotText? || d.authorshipClass.NotText? then Err(MalformedDecision)
    else
      match ParseClass(d.authorshipClass.s)
      case None => Err(MalformedDecision)
      case Some(c) => if c.UnknownClass? then Err(UnknownAuthorship) else Ok(c)
  }

  function Step(originals: map<string, AuthorshipSpan>, packageId: string, st: State, d: Decision): Result<State> {
    if !Targets(packageId, d) then Ok(st)
    else
      match ClassOf(d)
      case Err(e) => Err(e)
      case Ok(c) =>
        var id := d.spanId.s;
        if id !in originals then Err(UnknownSpan(id))
        else if c.Exclude?
          then Ok(State(st.effective - {id}, Put(st.excluded, Excluded(originals[id], d).(spanId := id))))
        else Ok(State(st.effective[id := Decided(originals[id], d, c).(spanId := id)], Pop(st.excluded, id)))
  }

  function Run(originals: map<string, AuthorshipSpan>, packageId: string, st: State, ds: seq<Decision>): Result<State>
    decreases |ds|
  {
    if |ds| == 0 then Ok(st)
    else
      match Step(originals, packageId, st, ds[0])
      case Err(e) => Err(e)
      case Ok(next) => Run(originals, packageId, next, ds[1..])
  }

  function InOrder(spans: seq<AuthorshipSpan>, effective: map<string, AuthorshipSpan>): seq<AuthorshipSpan> {
    if |spans| == 0 then []
    else (if spans[0].spanId in effective then [effective[spans[0].spanId]] else []) + InOrder(spans[1..], effective)
  }

  function Start(p: Package): State { State(SpanMap(p.spans), DictOf(p.excluded)) }

  function Finish(p: Package, st: State): Package { Package(p.packageId, InOrder(p.spans, st.effective), st.excluded) }

  function Replay(p: Package, ds: seq<Decision>): Result<Package> {
    match Run(SpanMap(p.spans), p.packageId, Start(p), ds)
    case Err(e) => Err(e)
    case Ok(st) => Ok(Finish(p, st))
  }

  method ReplayDecisions(p: Package, ds: seq<Decision>) returns (r: Result<Package>)
    ensures r == Replay(p, ds)
  {
    var effective := SpanMap(p.spans);
    var excluded := DictOf(p.excluded);
    var originals := effective;
    for i := 0 to |ds|
      invariant Run(originals, p.packageId, State(effective, excluded), ds[i..])
                == Run(SpanMap(p.spans), p.packageId, Start(p), ds)
    {
      var d := ds[i];
      assert ds[i..][0] == d && ds[i..][1..] == ds[i + 1..];
      if d.packageId != Text(p.packageId) {
        continue;
      }
      var c := ClassOf(d);
      if c.Err? {
        return Err(c.error);
      }
      var id := d.spanId.s;
      if id !in originals {
        return Err(UnknownSpan(id));
      }
      if c.value.Exclude? {
        excluded := Put(excluded, ExcludedSpan(id, originals[id].location, ReasonOf(d)));
        effective := effective - {id};
        continue;
      }
      excluded := Pop(excluded, id);
      effective := effective[id := AuthorshipSpan(id, originals[id].location, originals[id].text, c.value, "resolved",
                                                  DeciderOf(d))];
    }
    return Ok(Package(p.packageId, InOrder(p.spans, effective), excluded));
  }

  // ----- Last writer wins -----

  predicate About(packageId: string, d: Decision, id: string) { Targets(packageId, d) && d.spanId == Text(id) }

  /** The last decision of the log about a span of the package. */
  function Last(packageId: string, ds: seq<Decision>, id: string): Option<Decision>
    decreases |ds|
  {
    if |ds| == 0 then None
    else
      var later := Last(packageId, ds[1..], id);
      if later.Some? then later else if About(packageId, ds[0], id) then Some(ds[0]) else None
  }

  lemma {:induction false} PutLooksUp(dict: seq<ExcludedSpan>, x: ExcludedSpan, id: string)
    ensures Lookup(Put(dict, x), id) == if id == x.spanId then Some(x) else Lookup(dict, id)
  {
    if |dict| > 0 {
      PutLooksUp(dict[1..], x, id);
      assert ([x] + dict[1..])[1..] == dict[1..] && ([dict[0]] + Put(dict[1..], x))[1..] == Put(dict[1..], x);
    }
  }

  lemma {:induction false} PopLooksUp(dict: seq<ExcludedSpan>, y: string, id: string)
    ensures Lookup(Pop(dict, y), id) == if id == y then None else Lookup(dict, id)
  {
    if |dict| > 0 {
      PopLooksUp(dict[1..], y, id);
      assert ([dict[0]] + Pop(dict[1..], y))[1..] == Pop(dict[1..], y);
    }
  }

  /** Where a span stands: still in the package, or among the exclusions. */
  datatype Place = Place(effective: Option<AuthorshipSpan>, excluded: Option<ExcludedSpan>)

  function PlaceOf(st: State, id: string): Place {
    Place(if id in st.effective then Some(st.effective[id]) else None, Lookup(st.excluded, id))
  }

  /** Where a decision puts a span. */
  function DecidedPlace(original: AuthorshipSpan, d: Decision, c: AuthorshipClass): Place {
    if c.Exclude? then Place(None, Some(Excluded(original, d))) else Place(Some(Decided(original, d, c)), None)
  }

  ghost predicate Keyed(originals: map<string, AuthorshipSpan>) {
    forall id :: id in originals ==> originals[id].spanId == id
  }

  lemma StepPlaces(originals: map<string, AuthorshipSpan>, packageId: string, st: State, d: Decision, id: string)
    requires Keyed(originals) && Step(originals, packageId, st, d).Ok?
    ensures var st' := Step(originals, packageId, st, d).value;
            if About(packageId, d, id)
            then ClassOf(d).Ok? && id in originals
              && PlaceOf(st', id) == DecidedPlace(originals[id], d, ClassOf(d).value)
            else PlaceOf(st', id) == PlaceOf(st, id)
  {
    if Targets(packageId, d) {
      var y := d.spanId.s;
      PutLooksUp(st.excluded, Excluded(originals[y], d), id);
      PopLooksUp(st.excluded, y, id);
    }
  }

  /** After a replay every span stands where the last decision about it put it, or where it stood. */
  lemma {:induction false} RunPlaces(originals: map<string, AuthorshipSpan>, packageId: string, st: State,
      ds: seq<Decision>, id: string)
    requires Keyed(originals) && Run(originals, packageId, st, ds).Ok?
    ensures var st', last := Run(originals, packageId, st, ds).value, Last(packageId, ds, id);
            if last.Some?
            then ClassOf(last.value).Ok? && id in originals
                 && PlaceOf(st', id) == DecidedPlace(originals[id], last.value, ClassOf(last.value).value)
            else PlaceOf(st', id) == PlaceOf(st, id)
    decreases |ds|
  {
    if |ds| > 0 {
      StepPlaces(originals, packageId, st, ds[0], id);
      RunPlaces(originals, packageId, Step(originals, packageId, st, ds[0]).value, ds[1..], id);
    }
  }

  /**
   A log is accepted exactly when each of its records for the package is well-formed and about a span of the package.
   */
  lemma {:induction false} RunSucceedsIff(originals: map<string, AuthorshipSpan>, packageId: string, st: State,
      ds: seq<Decision>)
    ensures Run(originals, packageId, st, ds).Ok? <==>
            forall d :: d in ds && Targets(packageId, d) ==> ClassOf(d).Ok? && d.spanId.s in originals
    decreases |ds|
  {
    if |ds| > 0 {
      assert forall d :: d in ds <==> d == ds[0] || d in ds[1..];
      var next := Step(originals, packageId, st, ds[0]);
      if next.Ok? {
        RunSucceedsIff(originals, packageId, next.value, ds[1..]);
      } else {
        assert ds[0] in ds;
      }
    }
  }

  // ----- Spans and exclusions -----

  ghost predicate DistinctSpans(spans: seq<AuthorshipSpan>) {
    forall i, j :: 0 <= i < j < |spans| ==> spans[i].spanId != spans[j].spanId
  }

  /** A package as derived from a document: distinct span ids and nothing excluded. */
  ghost predicate Fresh(p: Package) { DistinctSpans(p.spans) && p.excluded == [] }

  lemma {:induction false} SpanMapLooksUp(spans: seq<AuthorshipSpan>)
    ensures forall id :: id in SpanMap(spans) <==> exists s :: s in spans && s.spanId == id
    ensures Keyed(SpanMap(spans))
    ensures DistinctSpans(spans) ==> forall s :: s in spans ==> SpanMap(spans)[s.spanId] == s
    decreases |spans|
  {
    if |spans| > 0 {
      var n := |spans| - 1;
      SpanMapLooksUp(spans[..n]);
      assert spans == spans[..n] + [spans[n]];
      assert forall s :: s in spans <==> s in spans[..n] || s == spans[n];
      if DistinctSpans(spans) {
        assert forall i :: 0 <= i < n ==> spans[..n][i].spanId != spans[n].spanId;
      }
    }
  }

  /** The surviving spans of a package, in order: unmentioned ones as they are, the others as last decided. */
  function Survivors(packageId: string, spans: seq<AuthorshipSpan>, ds: seq<Decision>): seq<AuthorshipSpan> {
    if |spans| == 0 then []
    else
      var last := Last(packageId, ds, spans[0].spanId);
      (if last.None? then [spans[0]]
       else match ClassOf(last.value)
            case Err(_) => []
            case Ok(c) => if c.Exclude? then [] else [Decided(spans[0], last.value, c)])
      + Survivors(packageId, spans[1..], ds)
  }

  /** Every span of the list stands where the log puts it. */
  ghost predicate PlacedBy(packageId: string, spans: seq<AuthorshipSpan>, ds: seq<Decision>, st: State) {
    forall s :: s in spans ==>
      var last := Last(packageId, ds, s.spanId);
      if last.Some?
        then ClassOf(last.value).Ok? && PlaceOf(st, s.spanId) == DecidedPlace(s, last.value, ClassOf(last.value).value)
      else PlaceOf(st, s.spanId) == Place(Some(s), None)
  }

  lemma {:induction false} InOrderIsSurvivors(packageId: string, spans: seq<AuthorshipSpan>, ds: seq<Decision>,
      st: State)
    requires PlacedBy(packageId, spans, ds, st)
    ensures InOrder(spans, st.effective) == Survivors(packageId, spans, ds)
  {
    if |spans| > 0 {
      assert spans[0] in spans && forall s :: s in spans[1..] ==> s in spans;
      InOrderIsSurvivors(packageId, spans[1..], ds, st);
      assert PlaceOf(st, spans[0].spanId).effective.Some? <==> spans[0].spanId in st.effective;
    }
  }

  /**
   Last writer wins: the replayed package holds, in the original order, each span as its last decision left it, and a
   span is excluded, with the last decision's reason, exactly when that decision excludes it.
   */
  lemma ReplayIsLastWriterWins(p: Package, ds: seq<Decision>)
    requires Fresh(p) && Replay(p, ds).Ok?
    ensures var q := Replay(p, ds).value;
            && q.spans == Survivors(p.packageId, p.spans, ds)
            && forall id :: Lookup(q.excluded, id).Some? <==>
                 exists s :: s in p.spans && s.spanId == id && ExcludedBy(p.packageId, ds, s, Lookup(q.excluded, id))
  {
    var st := Run(SpanMap(p.spans), p.packageId, Start(p), ds).value;
    ReplayPlaces(p, ds);
    InOrderIsSurvivors(p.packageId, p.spans, ds, st);
    SpanMapLooksUp(p.spans);
    forall id ensures Lookup(st.excluded, id).Some? <==>
                      exists s :: s in p.spans && s.spanId == id
                                  && ExcludedBy(p.packageId, ds, s, Lookup(st.excluded, id)) {
      RunPlaces(SpanMap(p.spans), p.packageId, Start(p), ds, id);
      assert PlaceOf(st, id).excluded == Lookup(st.excluded, id);
      if Lookup(st.excluded, id).Some? {
        assert id in SpanMap(p.spans);
        var s :| s in p.spans && s.spanId == id;
        assert ExcludedBy(p.packageId, ds, s, Lookup(st.excluded, id));
      }
    }
  }

  /** The log's last decision about the span is this exclusion. */
  ghost predicate ExcludedBy(packageId: string, ds: seq<Decision>, s: AuthorshipSpan, x: Option<ExcludedSpan>) {
    var last := Last(packageId, ds, s.spanId);
    last.Some? && ClassOf(last.value) == Ok(Exclude) && x == Some(Excluded(s, last.value))
  }

  lemma ReplayPlaces(p: Package, ds: seq<Decision>)
    requires Fresh(p) && Replay(p, ds).Ok?
    ensures PlacedBy(p.packageId, p.spans, ds, Run(SpanMap(p.spans), p.packageId, Start(p), ds).value)
  {
    SpanMapLooksUp(p.spans);
    forall s | s in p.spans
      ensures var last := Last(p.packageId, ds, s.spanId);
              var st := Run(SpanMap(p.spans), p.packageId, Start(p), ds).value;
              if last.Some?
                then ClassOf(last.value).Ok?
                  && PlaceOf(st, s.spanId) == DecidedPlace(s, last.value, ClassOf(last.value).value)
              else PlaceOf(st, s.spanId) == Place(Some(s), None)
    {
      RunPlaces(SpanMap(p.spans), p.packageId, Start(p), ds, s.spanId);
    }
  }

  // ----- What the records say -----

  /** The name a class has in the log. */
  function ClassName(c: AuthorshipClass): string {
    match c
    case AuthenticUserProse => "authentic_user_prose"
    case UserRevision => "user_revision"
    case QuotationClass => "quotation"
    case ExternalSource => "external_source"
    case Boilerplate => "boilerplate"
    case FormField => "form_field"
    case SignatureClass => "signature"
    case ReviewerText => "reviewer_text"
    case AiAssisted => "ai_assisted"
    case UnknownClass => "unknown"
    case Exclude => "exclude"
  }

  lemma NameIsParsed(c: AuthorshipClass)
    ensures ParseClass(ClassName(c)) == Some(c)
  {
  }

  lemma ParsedIsName(s: string)
    requires ParseClass(s).Some?
    ensures s == ClassName(ParseClass(s).value)
  {
  }

  /** A string is read as a class exactly when it is the class's name. */
  lemma ParsedIffNamed(s: string, c: AuthorshipClass)
    ensures ParseClass(s) == Some(c) <==> s == ClassName(c)
  {
    NameIsParsed(c);
    if ParseClass(s).Some? {
      ParsedIsName(s);
    }
  }

  /** The record at an index is the log's last about the span. */
  ghost predicate LastAt(packageId: string, ds: seq<Decision>, id: string, i: int) {
    && 0 <= i < |ds|
    && ds[i].packageId == Text(packageId) && ds[i].spanId == Text(id)
    && forall j :: i < j < |ds| && ds[j].packageId == Text(packageId) ==> ds[j].spanId != Text(id)
  }

  /** No record of the log is about the span. */
  ghost predicate Unmentioned(packageId: string, ds: seq<Decision>, id: string) {
    forall j :: 0 <= j < |ds| && ds[j].packageId == Text(packageId) ==> ds[j].spanId != Text(id)
  }

  lemma {:induction false} LastMeaning(packageId: string, ds: seq<Decision>, id: string) returns (i: int)
    ensures Last(packageId, ds, id).None? ==> Unmentioned(packageId, ds, id)
    ensures Last(packageId, ds, id).Some? ==>
              LastAt(packageId, ds, id, i) && ds[i] == Last(packageId, ds, id).value
    decreases |ds|
  {
    i := -1;
    if |ds| > 0 {
      i := LastMeaning(packageId, ds[1..], id);
      i := i + 1;
      if Last(packageId, ds[1..], id).Some? {
        assert ds[1..][i - 1] == ds[i];
        assert forall j :: i < j < |ds| ==> ds[1..][j - 1] == ds[j];
      } else {
        assert forall j :: 0 < j < |ds| ==> ds[1..][j - 1] == ds[j];
        i := 0;
      }
    }
  }

  /** The span is as its last record says: the class of the record, the decider of the record or the command line. */
  ghost predicate ReadsAs(original: AuthorshipSpan, d: Decision, s: AuthorshipSpan) {
    && d.authorshipClass == Text(ClassName(s.authorshipClass)) && s.authorshipClass !in {Exclude, UnknownClass}
    && s.reviewStatus == "resolved"
    && (if d.decidedBy.Some? then s.decidedBy == d.decidedBy.value else s.decidedBy == "cli")
    && s.spanId == original.spanId && s.location == original.location && s.text == original.text
  }

  /** The exclusion is as the span's last record says, with the reason of the record or the one given by default. */
  ghost predicate Removed(original: AuthorshipSpan, d: Decision, x: ExcludedSpan) {
    && d.authorshipClass == Text("exclude")
    && (if d.reason.Some? then x.reason == d.reason.value else x.reason == "excluded by review")
    && x.spanId == original.spanId && x.location == original.location
  }

  /** A span of the package that stays: no record is about it and it is unchanged, or it is as the last one says. */
  ghost predicate Stays(packageId: string, ds: seq<Decision>, original: AuthorshipSpan, s: AuthorshipSpan) {
    || (Unmentioned(packageId, ds, original.spanId) && s == original)
    || exists i :: LastAt(packageId, ds, original.spanId, i) && ReadsAs(original, ds[i], s)
  }

  ghost predicate Leaves(packageId: string, ds: seq<Decision>, original: AuthorshipSpan, x: ExcludedSpan) {
    exists i :: LastAt(packageId, ds, original.spanId, i) && Removed(original, ds[i], x)
  }

  lemma PlaceMeaning(packageId: string, ds: seq<Decision>, s: AuthorshipSpan, st: State)
    requires PlacedBy(packageId, [s], ds, st)
    ensures var place := PlaceOf(st, s.spanId);
            || (place.excluded.None? && place.effective.Some? && Stays(packageId, ds, s, place.effective.value))
            || (place.effective.None? && place.excluded.Some? && Leaves(packageId, ds, s, place.excluded.value))
  {
    assert s in [s];
    var i := LastMeaning(packageId, ds, s.spanId);
    var last := Last(packageId, ds, s.spanId);
    if last.Some? {
      var c := ClassOf(last.value).value;
      ParsedIffNamed(last.value.authorshipClass.s, c);
      if c.Exclude? {
        assert Removed(s, ds[i], Excluded(s, last.value));
      } else {
        assert ReadsAs(s, ds[i], Decided(s, last.value, c));
      }
    }
  }

  /** The spans of a package that its replay keeps: all but those that the log's last record about them excludes. */
  ghost predicate Kept(packageId: string, ds: seq<Decision>, id: string) {
    forall i :: LastAt(packageId, ds, id, i) ==> ds[i].authorshipClass != Text("exclude")
  }

  ghost function KeptSpans(packageId: string, spans: seq<AuthorshipSpan>, ds: seq<Decision>): seq<AuthorshipSpan> {
    if |spans| == 0 then []
    else (if Kept(packageId, ds, spans[0].spanId) then [spans[0]] else []) + KeptSpans(packageId, spans[1..], ds)
  }

  ghost predicate AllStay(packageId: string, ds: seq<Decision>, originals: seq<AuthorshipSpan>,
      spans: seq<AuthorshipSpan>) {
    |originals| == |spans| && forall k :: 0 <= k < |spans| ==> Stays(packageId, ds, originals[k], spans[k])
  }

  lemma LastAtUnique(packageId: string, ds: seq<Decision>, id: string, i: int, j: int)
    requires LastAt(packageId, ds, id, i) && LastAt(packageId, ds, id, j)
    ensures i == j
  {
  }

  lemma StaysIsKept(packageId: string, ds: seq<Decision>, original: AuthorshipSpan, s: AuthorshipSpan)
    requires Stays(packageId, ds, original, s)
    ensures Kept(packageId, ds, original.spanId)
  {
    if !Unmentioned(packageId, ds, original.spanId) {
      var i :| LastAt(packageId, ds, original.spanId, i) && ReadsAs(original, ds[i], s);
      forall j | LastAt(packageId, ds, original.spanId, j) ensures ds[j].authorshipClass != Text("exclude") {
        LastAtUnique(packageId, ds, original.spanId, i, j);
        ParsedIffNamed("exclude", s.authorshipClass);
      }
    }
  }

  lemma LeavesIsNotKept(packageId: string, ds: seq<Decision>, original: AuthorshipSpan, x: ExcludedSpan)
    requires Leaves(packageId, ds, original, x)
    ensures !Kept(packageId, ds, original.spanId)
  {
  }

  lemma {:induction false} AllStayInOrder(packageId: string, spans: seq<AuthorshipSpan>, ds: seq<Decision>, st: State)
    requires PlacedBy(packageId, spans, ds, st)
    ensures AllStay(packageId, ds, KeptSpans(packageId, spans, ds), InOrder(spans, st.effective))
  {
    if |spans| > 0 {
      var s := spans[0];
      assert forall t :: t in spans[1..] || t in [s] ==> t in spans;
      AllStayInOrder(packageId, spans[1..], ds, st);
      PlaceMeaning(packageId, ds, s, st);
      var place := PlaceOf(st, s.spanId);
      if place.effective.Some? {
        StaysIsKept(packageId, ds, s, place.effective.value);
      } else {
        LeavesIsNotKept(packageId, ds, s, place.excluded.value);
      }
    }
  }

  /**
   What a replay leaves, from the records alone: the spans the log does not exclude at last, in their order, each
   unchanged or with the class, the decider and the status of its last record, and an exclusion of every other span.
   */
  lemma ReplayMeaning(p: Package, ds: seq<Decision>)
    requires Fresh(p) && Replay(p, ds).Ok?
    ensures var q := Replay(p, ds).value;
            && q.packageId == p.packageId
            && AllStay(p.packageId, ds, KeptSpans(p.packageId, p.spans, ds), q.spans)
            && forall s :: s in p.spans ==>
                 if Kept(p.packageId, ds, s.spanId) then Lookup(q.excluded, s.spanId).None?
                 else Lookup(q.excluded, s.spanId).Some?
                      && Leaves(p.packageId, ds, s, Lookup(q.excluded, s.spanId).value)
  {
    var st := Run(SpanMap(p.spans), p.packageId, Start(p), ds).value;
    ReplayPlaces(p, ds);
    AllStayInOrder(p.packageId, p.spans, ds, st);
    forall s | s in p.spans
      ensures if Kept(p.packageId, ds, s.spanId) then Lookup(st.excluded, s.spanId).None?
              else Lookup(st.excluded, s.spanId).Some?
                   && Leaves(p.packageId, ds, s, Lookup(st.excluded, s.spanId).value)
    {
      PlaceMeaning(p.packageId, ds, s, st);
      var place := PlaceOf(st, s.spanId);
      if place.effective.Some? {
        StaysIsKept(p.packageId, ds, s, place.effective.value);
      } else {
        LeavesIsNotKept(p.packageId, ds, s, place.excluded.value);
      }
    }
  }
}
