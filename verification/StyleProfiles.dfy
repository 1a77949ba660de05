/** Coverage of style evidence packages, its aggregation, and when a profile may call itself complete. */
module StyleProfiles {
  import opened Wrappers
  import opened StyleServices

  // ----- Words: the tokens of [a-zA-Z0-9]+(?:'[a-zA-Z]+)? -----

  predicate IsLetter(c: char) { 'a' <= c <= 'z' || 'A' <= c <= 'Z' }

  predicate IsWordChar(c: char) { IsLetter(c) || '0' <= c <= '9' }

  function DropWordChars(s: string): (r: string)
    ensures |r| <= |s| && (|r| > 0 ==> !IsWordChar(r[0]))
  {
    if |s| > 0 && IsWordChar(s[0]) then DropWordChars(s[1..]) else s
  }

  function DropLetters(s: string): (r: string)
    ensures |r| <= |s|
  {
    if |s| > 0 && IsLetter(s[0]) then DropLetters(s[1..]) else s
  }

  /** What is left after the longest match at the front. */
  function AfterToken(s: string): (r: string)
    ensures |r| <= |s| && (|s| > 0 && IsWordChar(s[0]) ==> |r| < |s|)
  {
    var r := DropWordChars(s);
    if |r| >= 2 && r[0] == '\'' && IsLetter(r[1]) then DropLetters(r[1..]) else r
  }

  /** All matches, left to right. */
  function Tokens(s: string): seq<string>
    decreases |s|
  {
    if |s| == 0 then []
    else if IsWordChar(s[0]) then [s[..|s| - |AfterToken(s)|]] + Tokens(AfterToken(s))
    else Tokens(s[1..])
  }

  const BREAK := "\n\n"

  lemma {:induction false} DropWordCharsAppend(a: string, b: string)
    ensures DropWordChars(a + (BREAK + b)) == DropWordChars(a) + (BREAK + b)
  {
    if |a| > 0 && IsWordChar(a[0]) {
      DropWordCharsAppend(a[1..], b);
      assert (a + (BREAK + b))[1..] == a[1..] + (BREAK + b);
    } else if |a| == 0 {
      assert a + (BREAK + b) == BREAK + b;
    }
  }

  lemma {:induction false} DropLettersAppend(a: string, b: string)
    ensures DropLetters(a + (BREAK + b)) == DropLetters(a) + (BREAK + b)
  {
    if |a| > 0 && IsLetter(a[0]) {
      DropLettersAppend(a[1..], b);
      assert (a + (BREAK + b))[1..] == a[1..] + (BREAK + b);
    } else if |a| == 0 {
      assert a + (BREAK + b) == BREAK + b;
    }
  }

  lemma AfterTokenAppend(a: string, b: string)
    ensures AfterToken(a + (BREAK + b)) == AfterToken(a) + (BREAK + b)
  {
    DropWordCharsAppend(a, b);
    var r := DropWordChars(a);
    if |r| >= 2 {
      assert (r + (BREAK + b))[1..] == r[1..] + (BREAK + b);
      DropLettersAppend(r[1..], b);
    }
  }

  /** No token crosses a blank line, so joining texts with one joins their token lists. */
  lemma {:induction false} TokensAcrossBreak(a: string, b: string)
    ensures Tokens(a + (BREAK + b)) == Tokens(a) + Tokens(b)
    decreases |a|
  {
    var whole := a + (BREAK + b);
    if |a| == 0 {
      assert whole[1..] == "\n" + b && whole[1..][1..] == b;
    } else if IsWordChar(a[0]) {
      AfterTokenAppend(a, b);
      TokensAcrossBreak(AfterToken(a), b);
      assert whole[..|whole| - |AfterToken(whole)|] == a[..|a| - |AfterToken(a)|];
    } else {
      assert whole[1..] == a[1..] + (BREAK + b);
      TokensAcrossBreak(a[1..], b);
    }
  }

  /** Lower-casing works paragraph by paragraph: no case rule looks across a line break. */
  ghost predicate LowersByParagraph(lower: string -> string) {
    lower("") == "" && forall a: string, b: string :: lower(a + (BREAK + b)) == lower(a) + (BREAK + lower(b))
  }

  function WordCount(lower: string -> string, s: string): nat { |Tokens(lower(s))| }

  function Join(parts: seq<string>): string {
    if |parts| == 0 then ""
    else if |parts| == 1 then parts[0]
    else parts[0] + (BREAK + Join(parts[1..]))
  }

  function TotalWords(lower: string -> string, parts: seq<string>): nat {
    if |parts| == 0 then 0 else WordCount(lower, parts[0]) + TotalWords(lower, parts[1..])
  }

  lemma {:induction false} JoinedWords(lower: string -> string, parts: seq<string>)
    requires LowersByParagraph(lower)
    ensures WordCount(lower, Join(parts)) == TotalWords(lower, parts)
  {
    if |parts| == 1 {
      assert TotalWords(lower, parts[1..]) == 0;
    } else if |parts| > 1 {
      JoinedWords(lower, parts[1..]);
      TokensAcrossBreak(lower(parts[0]), lower(Join(parts[1..])));
    }
  }

  // ----- Packages and reports -----

  predicate Resolved(s: AuthorshipSpan) { s.reviewStatus == "resolved" && !s.authorshipClass.UnknownClass? }

  predicate Eligible(s: AuthorshipSpan) {
    Resolved(s) && (s.authorshipClass.AuthenticUserProse? || s.authorshipClass.UserRevision?)
  }

  datatype Evidence = Evidence(packageId: string, spans: seq<AuthorshipSpan>, surfaceText: string,
                               unsupported: seq<string>)

  function VoiceParts(spans: seq<AuthorshipSpan>): seq<string> {
    if |spans| == 0 then []
    else (if Eligible(spans[0]) then [spans[0].text] else []) + VoiceParts(spans[1..])
  }

  function ApprovedVoiceText(spans: seq<AuthorshipSpan>): string { Join(VoiceParts(spans)) }

  function Unresolved(spans: seq<AuthorshipSpan>): nat {
    if |spans| == 0 then 0 else (if Resolved(spans[0]) then 0 else 1) + Unresolved(spans[1..])
  }

  datatype Status = Complete | Partial | HumanReviewRequired

  datatype Report = Report(
    packageId: string,
    visibleText: real,
    codePoints: real,
    structure: real,
    formatting: real,
    unsupported: seq<string>,
    unresolved: nat,
    status: Status,
    sufficient: bool)

  function VoiceWords(lower: string -> string, spans: seq<AuthorshipSpan>): nat { TotalWords(lower, VoiceParts(spans)) }

  lemma {:induction false} TotalWordsAppend(lower: string -> string, a: seq<string>, b: seq<string>)
    ensures TotalWords(lower, a + b) == TotalWords(lower, a) + TotalWords(lower, b)
  {
    if |a| == 0 {
      assert a + b == b;
    } else {
      assert (a + b)[1..] == a[1..] + b;
      TotalWordsAppend(lower, a[1..], b);
    }
  }

  method VoiceProfileWordCount(lower: string -> string, spans: seq<AuthorshipSpan>) returns (total: nat)
    requires LowersByParagraph(lower)
    ensures total == WordCount(lower, ApprovedVoiceText(spans))
  {
    total := 0;
    for i := 0 to |spans|
      invariant total + VoiceWords(lower, spans[i..]) == VoiceWords(lower, spans)
    {
      assert spans[i..][0] == spans[i] && spans[i..][1..] == spans[i + 1..];
      if Eligible(spans[i]) {
        TotalWordsAppend(lower, [spans[i].text], VoiceParts(spans[i + 1..]));
        assert [spans[i].text][1..] == [];
        total := total + |Tokens(lower(spans[i].text))|;
      } else {
        assert VoiceParts(spans[i..]) == VoiceParts(spans[i + 1..]);
      }
    }
    JoinedWords(lower, VoiceParts(spans));
  }

  function Full(b: bool): real { if b then 1.0 else 0.0 }

  function BuildCoverageReport(lower: string -> string, p: Evidence, minWords: int): Report {
    var unresolved := Unresolved(p.spans);
    var sufficient := VoiceWords(lower, p.spans) >= minWords;
    var status :=
      if unresolved > 0 || p.unsupported != [] then HumanReviewRequired
      else if sufficient && Full(p.surfaceText != "") == 1.0 then Complete
      else Partial;
    Report(p.packageId, Full(p.surfaceText != ""), Full(p.surfaceText != ""), Full(p.unsupported == []),
           Full(p.unsupported == []), p.unsupported, unresolved, status, sufficient)
  }

  // ----- aggregate_coverage -----

  function Least(a: real, b: real): real { if b < a then b else a }

  function AddNew(known: seq<string>, features: seq<string>): seq<string>
    decreases |features|
  {
    if |features| == 0 then known
    else AddNew(if features[0] in known then known else known + [features[0]], features[1..])
  }

  /** The running aggregate of ratios, counts and features over the reports seen so far. */
  datatype Sums = Sums(visibleText: real, codePoints: real, structure: real, formatting: real, unresolved: nat,
                       unsupported: seq<string>)

  function Initial(r: Report): Sums { Sums(r.visibleText, r.codePoints, r.structure, r.formatting, 0, []) }

  function AddReport(s: Sums, r: Report): Sums {
    Sums(Least(s.visibleText, r.visibleText), Least(s.codePoints, r.codePoints), Least(s.structure, r.structure),
         Least(s.formatting, r.formatting), s.unresolved + r.unresolved, AddNew(s.unsupported, r.unsupported))
  }

  function SumUp(reports: seq<Report>): Sums
    requires |reports| > 0
  {
    if |reports| == 1 then AddReport(Initial(reports[0]), reports[0])
    else AddReport(SumUp(reports[..|reports| - 1]), reports[|reports| - 1])
  }

  predicate AnyPartial(reports: seq<Report>) { exists r :: r in reports && r.status.Partial? }

  predicate AllComplete(reports: seq<Report>) { forall r :: r in reports ==> r.status.Complete? }

  predicate AllSufficient(reports: seq<Report>) { forall r :: r in reports ==> r.sufficient }

  function StatusOf(s: Sums, reports: seq<Report>): Status {
    if s.unresolved > 0 || s.unsupported != [] then HumanReviewRequired
    else if AnyPartial(reports) then Partial
    else if AllComplete(reports) then Complete
    else HumanReviewRequired
  }

  function Aggregate(profileId: string, reports: seq<Report>): Report {
    if |reports| == 0 then Report(profileId, 0.0, 1.0, 1.0, 1.0, [], 0, HumanReviewRequired, false)
    else
      var s := SumUp(reports);
      Report(profileId, s.visibleText, s.codePoints, s.structure, s.formatting, s.unsupported, s.unresolved,
             StatusOf(s, reports), AllSufficient(reports))
  }

  predicate IdsMatch(ids: seq<string>, reports: seq<Report>) {
    |ids| == |reports| && forall i :: 0 <= i < |ids| ==> reports[i].packageId == ids[i]
  }

  method AggregateCoverage(ids: seq<string>, reports: seq<Report>, profileId: string) returns (r: Result<Report>)
    ensures r == if IdsMatch(ids, reports) then Ok(Aggregate(profileId, reports)) else Err(CoverageMismatch)
  {
    if !IdsMatch(ids, reports) {
      return Err(CoverageMismatch);
    }
    if |reports| == 0 {
      return Ok(Report(profileId, 0.0, 1.0, 1.0, 1.0, [], 0, HumanReviewRequired, false));
    }
    var unresolved: nat := 0;
    var unsupported := [];
    var visibleText, codePoints := reports[0].visibleText, reports[0].codePoints;
    var structure, formatting := reports[0].structure, reports[0].formatting;
    for i := 0 to |reports|
      invariant i == 0
                ==> Sums(visibleText, codePoints, structure, formatting, unresolved, unsupported) == Initial(reports[0])
      invariant i > 0
                ==> Sums(visibleText, codePoints, structure, formatting, unresolved, unsupported) == SumUp(reports[..i])
    {
      var report := reports[i];
      assert reports[..i + 1][..i] == reports[..i] && reports[..i + 1][i] == report;
      visibleText := Least(visibleText, report.visibleText);
      codePoints := Least(codePoints, report.codePoints);
      structure := Least(structure, report.structure);
      formatting := Least(formatting, report.formatting);
      unresolved := unresolved + report.unresolved;
      ghost var known := unsupported;
      for j := 0 to |report.unsupported|
        invariant AddNew(unsupported, report.unsupported[j..]) == AddNew(known, report.unsupported)
      {
        var feature := report.unsupported[j];
        assert report.unsupported[j..][0] == feature && report.unsupported[j..][1..] == report.unsupported[j + 1..];
        if feature !in unsupported {
          unsupported := unsupported + [feature];
        }
      }
    }
    assert reports[..|reports|] == reports;
    var status := StatusOf(Sums(visibleText, codePoints, structure, formatting, unresolved, unsupported), reports);
    return Ok(Report(profileId, visibleText, codePoints, structure, formatting, unsupported, unresolved, status,
                     AllSufficient(reports)));
  }

  lemma {:induction false} AddNewMembers(known: seq<string>, features: seq<string>, x: string)
    ensures x in AddNew(known, features) <==> x in known || x in features
    decreases |features|
  {
    if |features| > 0 {
      AddNewMembers(if features[0] in known then known else known + [features[0]], features[1..], x);
      assert x in features <==> x == features[0] || x in features[1..];
    }
  }

  ghost predicate Distinct(xs: seq<string>) { forall i, j :: 0 <= i < j < |xs| ==> xs[i] != xs[j] }

  lemma {:induction false} AddNewDistinct(known: seq<string>, features: seq<string>)
    requires Distinct(known)
    ensures Distinct(AddNew(known, features))
    decreases |features|
  {
    if |features| > 0 {
      AddNewDistinct(if features[0] in known then known else known + [features[0]], features[1..]);
    }
  }

  /** No ratio of the aggregate exceeds that of any report. */
  predicate NoBetter(s: Sums, r: Report) {
    s.visibleText <= r.visibleText && s.codePoints <= r.codePoints && s.structure <= r.structure
    && s.formatting <= r.formatting
  }

  function TotalUnresolved(reports: seq<Report>): nat {
    if |reports| == 0 then 0 else TotalUnresolved(reports[..|reports| - 1]) + reports[|reports| - 1].unresolved
  }

  lemma {:induction false} SumsMeaning(reports: seq<Report>)
    requires |reports| > 0
    ensures var s := SumUp(reports);
            && (forall r :: r in reports ==> NoBetter(s, r))
            && (exists r :: r in reports && s.visibleText == r.visibleText)
            && s.unresolved == TotalUnresolved(reports)
            && Distinct(s.unsupported)
    decreases |reports|
  {
    var n := |reports| - 1;
    AddNewDistinct([], reports[n].unsupported);
    if n == 0 {
      assert reports[..0] == [];
      assert reports[0] in reports;
    } else {
      SumsMeaning(reports[..n]);
      assert forall r :: r in reports <==> r in reports[..n] || r == reports[n];
      AddNewDistinct(SumUp(reports[..n]).unsupported, reports[n].unsupported);
    }
  }

  lemma {:induction false} UnsupportedMeaning(reports: seq<Report>, x: string)
    requires |reports| > 0
    ensures x in SumUp(reports).unsupported <==> exists r :: r in reports && x in r.unsupported
    decreases |reports|
  {
    var n := |reports| - 1;
    if n == 0 {
      AddNewMembers([], reports[0].unsupported, x);
      assert reports[0] in reports && forall r :: r in reports ==> r == reports[0];
    } else {
      UnsupportedMeaning(reports[..n], x);
      AddNewMembers(SumUp(reports[..n]).unsupported, reports[n].unsupported, x);
      assert forall r :: r in reports <==> r in reports[..n] || r == reports[n];
    }
  }

  lemma {:induction false} UnresolvedMeaning(reports: seq<Report>)
    ensures TotalUnresolved(reports) == 0 <==> forall r :: r in reports ==> r.unresolved == 0
    decreases |reports|
  {
    if |reports| > 0 {
      UnresolvedMeaning(reports[..|reports| - 1]);
      assert forall r :: r in reports <==> r in reports[..|reports| - 1] || r == reports[|reports| - 1];
    }
  }

  predicate Clean(r: Report) { r.unresolved == 0 && r.unsupported == [] }

  /** Aggregation fails closed: it is clean only if every report is, and never better than the worst report. */
  lemma AggregateMeaning(profileId: string, reports: seq<Report>)
    requires |reports| > 0
    ensures var a := Aggregate(profileId, reports);
            && (Clean(a) <==> forall r :: r in reports ==> Clean(r))
            && (a.status.Complete? ==> AllComplete(reports) && Clean(a))
            && (forall r :: r in reports ==> NoBetter(SumUp(reports), r))
            && (exists r :: r in reports && a.visibleText == r.visibleText)
  {
    SumsMeaning(reports);
    UnresolvedMeaning(reports);
    var s := SumUp(reports);
    if s.unsupported != [] {
      UnsupportedMeaning(reports, s.unsupported[0]);
      assert s.unsupported[0] in s.unsupported;
    }
    forall r | r in reports && s.unsupported == [] ensures r.unsupported == [] {
      if r.unsupported != [] {
        UnsupportedMeaning(reports, r.unsupported[0]);
      }
    }
  }

  // ----- build_profile -----

  function Reconcile(a: Report, wordCount: nat, minWords: int): Report {
    var sufficient := wordCount >= minWords;
    if a.sufficient == sufficient then a
    else if !sufficient then a.(sufficient := false, status := if a.status.Complete? then Partial else a.status)
    else
      a.(sufficient := true,
         status := if a.unresolved > 0 || a.unsupported != [] then HumanReviewRequired
                   else if a.visibleText == 1.0 then Complete
                   else Partial)
  }

  function NonEmptyVoices(packages: seq<Evidence>): seq<string> {
    if |packages| == 0 then []
    else
      var part := ApprovedVoiceText(packages[0].spans);
      (if part == "" then [] else [part]) + NonEmptyVoices(packages[1..])
  }

  function VoiceText(packages: seq<Evidence>): string { Join(NonEmptyVoices(packages)) }

  function Reports(lower: string -> string, packages: seq<Evidence>, minWords: int): (rs: seq<Report>)
    ensures |rs| == |packages|
    ensures forall i :: 0 <= i < |packages| ==> rs[i] == BuildCoverageReport(lower, packages[i], minWords)
  {
    if |packages| == 0 then []
    else [BuildCoverageReport(lower, packages[0], minWords)] + Reports(lower, packages[1..], minWords)
  }

  function PackageIds(packages: seq<Evidence>): (ids: seq<string>)
    ensures |ids| == |packages|
    ensures forall i :: 0 <= i < |packages| ==> ids[i] == packages[i].packageId
  {
    if |packages| == 0 then [] else [packages[0].packageId] + PackageIds(packages[1..])
  }

  datatype Profile = Profile(profileId: string, packageIds: seq<string>, voiceText: string, wordCount: nat,
                             minWords: int, coverage: Report)

  function Coverage(lower: string -> string, profileId: string, packages: seq<Evidence>, minWords: int): Report {
    Reconcile(Aggregate(profileId, Reports(lower, packages, minWords)), WordCount(lower, VoiceText(packages)), minWords)
  }

  method BuildProfile(lower: string -> string, profileId: string, packages: seq<Evidence>, minWords: int)
    returns (r: Result<Profile>)
    requires LowersByParagraph(lower)
    ensures packages == [] <==> r == Err(NoPackages)
    ensures packages != []
            ==> r.Ok? && r.value.voiceText == VoiceText(packages) && r.value.packageIds == PackageIds(packages)
    ensures packages != [] ==> r.value.profileId == profileId && r.value.minWords == minWords
    ensures packages != [] ==> r.value.wordCount == PackageWords(lower, packages)
    ensures packages != [] ==> r.value.coverage == Coverage(lower, profileId, packages, minWords)
  {
    if |packages| == 0 {
      return Err(NoPackages);
    }
    var voice := VoiceText(packages);
    var words := WordCount(lower, voice);
    var reports := Reports(lower, packages, minWords);
    var aggregated := AggregateCoverage(PackageIds(packages), reports, profileId);
    VoiceIsTheSum(lower, packages);
    return Ok(Profile(profileId, PackageIds(packages), voice, words, minWords,
                      Reconcile(aggregated.value, words, minWords)));
  }

  function PackageWords(lower: string -> string, packages: seq<Evidence>): nat {
    if |packages| == 0 then 0 else VoiceWords(lower, packages[0].spans) + PackageWords(lower, packages[1..])
  }

  lemma {:induction false} VoicesTotal(lower: string -> string, packages: seq<Evidence>)
    requires LowersByParagraph(lower)
    ensures TotalWords(lower, NonEmptyVoices(packages)) == PackageWords(lower, packages)
  {
    if |packages| > 0 {
      VoicesTotal(lower, packages[1..]);
      var part := ApprovedVoiceText(packages[0].spans);
      JoinedWords(lower, VoiceParts(packages[0].spans));
      if part != "" {
        TotalWordsAppend(lower, [part], NonEmptyVoices(packages[1..]));
        assert [part][1..] == [];
      } else {
        assert NonEmptyVoices(packages) == NonEmptyVoices(packages[1..]);
      }
    }
  }

  /** The joined voice text has exactly the words that the packages report one by one. */
  lemma VoiceIsTheSum(lower: string -> string, packages: seq<Evidence>)
    requires LowersByParagraph(lower)
    ensures WordCount(lower, VoiceText(packages)) == PackageWords(lower, packages)
  {
    VoicesTotal(lower, packages);
    JoinedWords(lower, NonEmptyVoices(packages));
  }

  lemma {:induction false} EachIsWithinTheSum(lower: string -> string, packages: seq<Evidence>, i: nat)
    requires i < |packages|
    ensures VoiceWords(lower, packages[i].spans) <= PackageWords(lower, packages)
    decreases |packages|
  {
    if i > 0 {
      EachIsWithinTheSum(lower, packages[1..], i - 1);
    }
  }

  /** Samples that are each sufficient are sufficient together, so building a profile never downgrades its aggregate. */
  lemma NeverDowngraded(lower: string -> string, profileId: string, packages: seq<Evidence>, minWords: int)
    requires LowersByParagraph(lower) && |packages| > 0
    requires Aggregate(profileId, Reports(lower, packages, minWords)).sufficient
    ensures WordCount(lower, VoiceText(packages)) >= minWords
    ensures Coverage(lower, profileId, packages, minWords) == Aggregate(profileId, Reports(lower, packages, minWords))
  {
    assert Reports(lower, packages, minWords)[0] in Reports(lower, packages, minWords);
    EachIsWithinTheSum(lower, packages, 0);
    VoiceIsTheSum(lower, packages);
  }

  lemma {:induction false} UnresolvedIff(spans: seq<AuthorshipSpan>)
    ensures Unresolved(spans) == 0 <==> forall s :: s in spans ==> Resolved(s)
  {
    if |spans| > 0 {
      UnresolvedIff(spans[1..]);
      assert forall s :: s in spans <==> s == spans[0] || s in spans[1..];
    }
  }

  /** Nothing in the package waits for a decision. */
  predicate NeedsNoReview(p: Evidence) { (forall s :: s in p.spans ==> Resolved(s)) && p.unsupported == [] }

  predicate NoneNeedsReview(packages: seq<Evidence>) {
    forall i :: 0 <= i < |packages| ==> NeedsNoReview(packages[i])
  }

  predicate AllHaveSurface(packages: seq<Evidence>) {
    forall i :: 0 <= i < |packages| ==> packages[i].surfaceText != ""
  }

  lemma CleanIff(lower: string -> string, packages: seq<Evidence>, minWords: int)
    ensures (forall r :: r in Reports(lower, packages, minWords) ==> Clean(r)) <==> NoneNeedsReview(packages)
  {
    var reports := Reports(lower, packages, minWords);
    forall i | 0 <= i < |packages| ensures Clean(reports[i]) <==> NeedsNoReview(packages[i]) {
      UnresolvedIff(packages[i].spans);
    }
    if forall r :: r in reports ==> Clean(r) {
      assert forall i :: 0 <= i < |packages| ==> reports[i] in reports;
    }
  }

  lemma VisibleIff(lower: string -> string, profileId: string, packages: seq<Evidence>, minWords: int)
    requires |packages| > 0
    ensures Aggregate(profileId, Reports(lower, packages, minWords)).visibleText == 1.0 <==> AllHaveSurface(packages)
  {
    var reports := Reports(lower, packages, minWords);
    AggregateMeaning(profileId, reports);
    var r :| r in reports && SumUp(reports).visibleText == r.visibleText;
    forall i | 0 <= i < |packages| ensures NoBetter(SumUp(reports), reports[i]) {
      assert reports[i] in reports;
    }
  }

  lemma CompleteReportsIff(lower: string -> string, packages: seq<Evidence>, minWords: int)
    requires NoneNeedsReview(packages)
    ensures var reports := Reports(lower, packages, minWords);
            && (AllComplete(reports) <==> AllSufficient(reports) && AllHaveSurface(packages))
            && (AnyPartial(reports) <==> !AllComplete(reports))
  {
    var reports := Reports(lower, packages, minWords);
    forall i | 0 <= i < |packages|
      ensures reports[i] in reports && !reports[i].status.HumanReviewRequired?
      ensures reports[i].status.Complete? <==> reports[i].sufficient && packages[i].surfaceText != "" {
      UnresolvedIff(packages[i].spans);
    }
  }

  /** What an aggregate says when its reports come from packages: the facts reconciling relies on. */
  ghost predicate FromPackages(a: Report) {
    && (!Clean(a) ==> a.status.HumanReviewRequired?)
    && (Clean(a) && a.sufficient ==> a.status == if a.visibleText == 1.0 then Complete else Partial)
    && (Clean(a) && !a.sufficient ==> a.status.Partial?)
  }

  lemma AggregateFromPackages(lower: string -> string, profileId: string, packages: seq<Evidence>, minWords: int)
    requires |packages| > 0
    ensures var a := Aggregate(profileId, Reports(lower, packages, minWords));
            FromPackages(a) && (Clean(a) <==> NoneNeedsReview(packages))
            && (a.visibleText == 1.0 <==> AllHaveSurface(packages))
  {
    AggregateMeaning(profileId, Reports(lower, packages, minWords));
    CleanIff(lower, packages, minWords);
    VisibleIff(lower, profileId, packages, minWords);
    if NoneNeedsReview(packages) {
      CompleteReportsIff(lower, packages, minWords);
    }
  }

  lemma ReconcileMeaning(a: Report, words: nat, minWords: int)
    requires FromPackages(a) && (a.sufficient ==> words >= minWords)
    ensures var status := Reconcile(a, words, minWords).status;
            && (status.HumanReviewRequired? <==> !Clean(a))
            && (status.Complete? <==> Clean(a) && a.visibleText == 1.0 && words >= minWords)
  {
  }

  /**
   The status of a profile: human review while any span of any package is unresolved or any feature unsupported;
   otherwise complete exactly when every package has a surface and the voice words of all packages together reach the
   minimum.
   */
  lemma ProfileStatusIff(lower: string -> string, profileId: string, packages: seq<Evidence>, minWords: int)
    requires LowersByParagraph(lower) && |packages| > 0
    ensures var status := Coverage(lower, profileId, packages, minWords).status;
            && (status.HumanReviewRequired? <==> !NoneNeedsReview(packages))
            && (status.Complete? <==>
                  NoneNeedsReview(packages) && AllHaveSurface(packages) && PackageWords(lower, packages) >= minWords)
  {
    var a := Aggregate(profileId, Reports(lower, packages, minWords));
    AggregateFromPackages(lower, profileId, packages, minWords);
    if a.sufficient {
      NeverDowngraded(lower, profileId, packages, minWords);
    }
    VoiceIsTheSum(lower, packages);
    ReconcileMeaning(a, WordCount(lower, VoiceText(packages)), minWords);
  }

  // ----- Reviewed packages -----

  lemma {:induction false} SurvivorsResolvedIff(packageId: string, spans: seq<AuthorshipSpan>, ds: seq<Decision>)
    requires forall s :: s in spans && Last(packageId, ds, s.spanId).Some?
                         ==> ClassOf(Last(packageId, ds, s.spanId).value).Ok?
    ensures (forall t :: t in Survivors(packageId, spans, ds) ==> Resolved(t)) <==>
            (forall s :: s in spans ==> Resolved(s) || Last(packageId, ds, s.spanId).Some?)
  {
    if |spans| > 0 {
      assert forall s :: s in spans <==> s == spans[0] || s in spans[1..];
      SurvivorsResolvedIff(packageId, spans[1..], ds);
      var rest := Survivors(packageId, spans[1..], ds);
      var last := Last(packageId, ds, spans[0].spanId);
      if last.None? {
        assert Survivors(packageId, spans, ds) == [spans[0]] + rest;
      } else if ClassOf(last.value).value.Exclude? {
        assert Survivors(packageId, spans, ds) == rest;
      } else {
        var t := Decided(spans[0], last.value, ClassOf(last.value).value);
        assert Survivors(packageId, spans, ds) == [t] + rest && Resolved(t);
      }
    }
  }

  /**
   After replaying a review log, a package is fully resolved exactly when the log decides every span that was not
   resolved.
   */
  lemma ReviewedIsResolvedIff(p: Package, ds: seq<Decision>)
    requires Fresh(p) && Replay(p, ds).Ok?
    ensures (forall t :: t in Replay(p, ds).value.spans ==> Resolved(t)) <==>
            (forall s :: s in p.spans ==> Resolved(s) || Last(p.packageId, ds, s.spanId).Some?)
  {
    ReplayIsLastWriterWins(p, ds);
    ReplayPlaces(p, ds);
    SurvivorsResolvedIff(p.packageId, p.spans, ds);
  }
}
