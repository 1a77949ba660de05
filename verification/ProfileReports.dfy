/** What tokens, voice texts and coverage reports are, field by field. */
module ProfileReports {
  import opened Sequences
  import opened Wrappers
  import opened StyleServices
  import opened StyleProfiles

  // ----- Tokens -----

  predicate Letter(c: char) { 'a' <= c <= 'z' || 'A' <= c <= 'Z' }

  predicate Alphanumeric(c: char) { Letter(c) || '0' <= c <= '9' }

  predicate Wordy(s: string) { |s| > 0 && forall k :: 0 <= k < |s| ==> Alphanumeric(s[k]) }

  predicate Lettered(s: string) { |s| > 0 && forall k :: 0 <= k < |s| ==> Letter(s[k]) }

  lemma {:induction false} DropsWord(w: string, rest: string)
    requires (forall k :: 0 <= k < |w| ==> Alphanumeric(w[k])) && (rest != "" ==> !Alphanumeric(rest[0]))
    ensures DropWordChars(w + rest) == rest
  {
    if |w| > 0 {
      assert (w + rest)[1..] == w[1..] + rest;
      DropsWord(w[1..], rest);
    } else {
      assert w + rest == rest;
    }
  }

  lemma {:induction false} DropsLetters(l: string, rest: string)
    requires (forall k :: 0 <= k < |l| ==> Letter(l[k])) && (rest != "" ==> !Letter(rest[0]))
    ensures DropLetters(l + rest) == rest
  {
    if |l| > 0 {
      assert (l + rest)[1..] == l[1..] + rest;
      DropsLetters(l[1..], rest);
    } else {
      assert l + rest == rest;
    }
  }

  lemma TokenThen(token: string, rest: string)
    requires token != "" && Alphanumeric(token[0]) && AfterToken(token + rest) == rest
    ensures Tokens(token + rest) == [token] + Tokens(rest)
  {
    assert (token + rest)[..|token|] == token;
  }

  /** Digits and letters up to something else, not an apostrophe before a letter, are a token. */
  lemma WordIsToken(w: string, rest: string)
    requires Wordy(w) && (rest != "" ==> !Alphanumeric(rest[0]))
    requires |rest| >= 2 && rest[0] == '\'' ==> !Letter(rest[1])
    ensures Tokens(w + rest) == [w] + Tokens(rest)
  {
    DropsWord(w, rest);
    TokenThen(w, rest);
  }

  lemma AfterContraction(w: string, l: string, rest: string, tail: string)
    requires Wordy(w) && Lettered(l) && (rest != "" ==> !Letter(rest[0])) && tail == "'" + (l + rest)
    ensures AfterToken(w + tail) == rest
  {
    DropsWord(w, tail);
    DropsLetters(l, rest);
    assert tail[1..] == l + rest && tail[1] == l[0];
  }

  /** With an apostrophe and letters behind them they are one token together. */
  lemma ContractionIsToken(w: string, l: string, rest: string)
    requires Wordy(w) && Lettered(l) && (rest != "" ==> !Letter(rest[0]))
    ensures Tokens(w + ("'" + l) + rest) == [w + ("'" + l)] + Tokens(rest)
  {
    var tail := "'" + (l + rest);
    AfterContraction(w, l, rest, tail);
    Regroup(w, "'", l, rest);
    TokenThen(w + ("'" + l), rest);
  }

  lemma Regroup(a: string, b: string, c: string, d: string)
    ensures a + (b + c) + d == a + (b + (c + d))
  {
  }

  /** Anything else is skipped. */
  lemma OtherIsSkipped(c: char, rest: string)
    requires !Alphanumeric(c)
    ensures Tokens([c] + rest) == Tokens(rest)
  {
    assert ([c] + rest)[1..] == rest;
  }

  // ----- Voice -----

  /** Only resolved spans of the user's own prose or revisions are part of the voice. */
  predicate Voiced(s: AuthorshipSpan) {
    s.reviewStatus == "resolved" && s.authorshipClass in {AuthenticUserProse, UserRevision}
  }

  /** Each span adds its text to the voice, or nothing, between those of its neighbours. */
  lemma {:induction false} VoiceAt(a: seq<AuthorshipSpan>, s: AuthorshipSpan, b: seq<AuthorshipSpan>)
    ensures VoiceParts(a + ([s] + b)) == VoiceParts(a) + ((if Voiced(s) then [s.text] else []) + VoiceParts(b))
    decreases |a|
  {
    if |a| == 0 {
      assert a + ([s] + b) == [s] + b && ([s] + b)[1..] == b;
    } else {
      ConcatTail(a, [s] + b);
      VoiceAt(a[1..], s, b);
      Associate(if Voiced(a[0]) then [a[0].text] else [], VoiceParts(a[1..]),
                (if Voiced(s) then [s.text] else []) + VoiceParts(b));
    }
  }

  predicate Open(s: AuthorshipSpan) { s.reviewStatus != "resolved" || s.authorshipClass == UnknownClass }

  lemma {:induction false} UnresolvedAt(a: seq<AuthorshipSpan>, s: AuthorshipSpan, b: seq<AuthorshipSpan>)
    ensures Unresolved(a + ([s] + b)) == Unresolved(a) + (if Open(s) then 1 else 0) + Unresolved(b)
    decreases |a|
  {
    if |a| == 0 {
      assert a + ([s] + b) == [s] + b && ([s] + b)[1..] == b;
    } else {
      assert (a + ([s] + b))[1..] == a[1..] + ([s] + b);
      UnresolvedAt(a[1..], s, b);
    }
  }

  /** A part more comes after a blank line. */
  lemma {:induction false} JoinSnoc(parts: seq<string>, x: string)
    ensures Join(parts + [x]) == if parts == [] then x else Join(parts) + ("\n\n" + x)
  {
    if |parts| == 0 {
      assert parts + [x] == [x];
    } else {
      assert (parts + [x])[1..] == parts[1..] + [x];
      JoinSnoc(parts[1..], x);
      if |parts| > 1 {
        assert parts[0] + (BREAK + (Join(parts[1..]) + (BREAK + x)))
               == parts[0] + (BREAK + Join(parts[1..])) + (BREAK + x);
      }
    }
  }

  /** Packages without a voice leave no blank lines behind. */
  lemma {:induction false} VoicesAt(a: seq<Evidence>, p: Evidence, b: seq<Evidence>)
    ensures NonEmptyVoices(a + ([p] + b))
            == NonEmptyVoices(a)
               + ((if Join(VoiceParts(p.spans)) != "" then [Join(VoiceParts(p.spans))] else []) + NonEmptyVoices(b))
    decreases |a|
  {
    if |a| == 0 {
      assert a + ([p] + b) == [p] + b && ([p] + b)[1..] == b;
    } else {
      assert (a + ([p] + b))[1..] == a[1..] + ([p] + b);
      VoicesAt(a[1..], p, b);
    }
  }

  // ----- Reports -----

  /**
   The report of a package: text counts as covered exactly when there is a surface, structure and formatting exactly
   without unsupported features; review is due while anything is open or unsupported, and otherwise the sample decides.
   */
  lemma PackageReport(lower: string -> string, p: Evidence, minWords: int)
    ensures var r := BuildCoverageReport(lower, p, minWords);
            && r.packageId == p.packageId && r.unsupported == p.unsupported && r.unresolved == Unresolved(p.spans)
            && r.visibleText == r.codePoints == (if p.surfaceText == "" then 0.0 else 1.0)
            && r.structure == r.formatting == (if p.unsupported == [] then 1.0 else 0.0)
            && (r.sufficient <==> minWords <= VoiceWords(lower, p.spans))
            && (r.status == HumanReviewRequired <==> Unresolved(p.spans) > 0 || p.unsupported != [])
            && (r.status == Complete <==> Unresolved(p.spans) == 0 && p.unsupported == [] && p.surfaceText != ""
                                          && minWords <= VoiceWords(lower, p.spans))
  {
  }

  predicate AnyOf(reports: seq<Report>, status: Status) { exists r :: r in reports && r.status == status }

  /**
   The aggregate of any reports.  Its status is that of clean complete reports only if all are; without a partial one
   among the others it asks for review.
   */
  lemma AggregateReport(profileId: string, reports: seq<Report>)
    requires |reports| > 0
    ensures var a := Aggregate(profileId, reports);
            && a.packageId == profileId && a.unresolved == TotalUnresolved(reports) && Distinct(a.unsupported)
            && (forall r :: r in reports ==> a.codePoints <= r.codePoints && a.structure <= r.structure
                                             && a.formatting <= r.formatting && a.visibleText <= r.visibleText)
            && (a.sufficient <==> forall r :: r in reports ==> r.sufficient)
            && (a.status == Partial <==> Clean(a) && AnyOf(reports, Partial))
            && (a.status == Complete <==>
                Clean(a) && !AnyOf(reports, Partial) && !AnyOf(reports, HumanReviewRequired))
  {
    SumsMeaning(reports);
    assert forall r :: r in reports ==> NoBetter(SumUp(reports), r);
    assert AnyPartial(reports) <==> AnyOf(reports, Partial);
    assert AllComplete(reports) <==> !AnyOf(reports, Partial) && !AnyOf(reports, HumanReviewRequired);
  }

  /** Each ratio of the aggregate is that of some report. */
  lemma {:induction false} RatiosAreAttained(reports: seq<Report>)
    requires |reports| > 0
    ensures var s := SumUp(reports);
            && (exists r :: r in reports && s.codePoints == r.codePoints)
            && (exists r :: r in reports && s.structure == r.structure)
            && (exists r :: r in reports && s.formatting == r.formatting)
    decreases |reports|
  {
    var n := |reports| - 1;
    assert reports[n] in reports;
    if n > 0 {
      RatiosAreAttained(reports[..n]);
      assert forall r :: r in reports[..n] ==> r in reports;
    }
  }

  /** Without reports nothing is covered and review is due. */
  lemma EmptyAggregate(profileId: string)
    ensures Aggregate(profileId, []) == Report(profileId, 0.0, 1.0, 1.0, 1.0, [], 0, HumanReviewRequired, false)
  {
  }

  /**
   Reconciling any report with the words there are: only sufficiency and status change, and never to more than due.
   */
  lemma ReconciledReport(a: Report, words: nat, minWords: int)
    ensures var r := Reconcile(a, words, minWords);
            && r.(sufficient := a.sufficient, status := a.status) == a && (r.sufficient <==> minWords <= words)
            && (r.sufficient == a.sufficient ==> r.status == a.status)
            && (a.sufficient && words < minWords ==> r.status == if a.status == Complete then Partial else a.status)
            && (!a.sufficient && minWords <= words ==>
                && (r.status == HumanReviewRequired <==> a.unresolved > 0 || a.unsupported != [])
                && (r.status == Complete <==> a.unresolved == 0 && a.unsupported == [] && a.visibleText == 1.0))
  {
  }
}
