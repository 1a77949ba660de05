/** `propose_changes`: from eligibility contexts to a proposal of disjoint, exact, unprotected changes. */
module LexicalProposals {
  import opened Wrappers
  import opened Sequences
  import opened Decimals
  import opened LexicalChanges
  import opened ProtectedSpans
  import opened LexicalRules
  import opened LexicalContexts
  import opened LexicalApplication
  import opened LexicalReview

  /** Python's `string.punctuation`: the ASCII characters that are neither letters, digits, spaces nor controls. */
  predicate IsPunctuation(c: char) { '!' <= c <= '/' || ':' <= c <= '@' || '[' <= c <= '`' || '{' <= c <= '~' }

  /**
   The inputs of `propose_changes` besides the text and its contexts; the preferences are a dict in insertion order.
   */
  datatype Inputs = Inputs(
    rules: TextRules, ruleset: seq<Rule>, rulesetHash: string, userPreferences: seq<(string, string)>,
    projectGlossary: seq<Rule>, registerRules: seq<Rule>, domainGlossary: seq<Rule>, safeThreshold: real,
    spans: seq<ProtectedSpan>, leftWindow: string, rightWindow: string)

  // ----- _match_surface -----

  function LeadingPunctuation(s: string): (n: nat)
    ensures n <= |s|
  {
    if |s| > 0 && IsPunctuation(s[0]) then 1 + LeadingPunctuation(s[1..]) else 0
  }

  function WithoutTrailing(s: string): (r: string)
    ensures |r| <= |s|
  {
    if |s| > 0 && IsPunctuation(s[|s| - 1]) then WithoutTrailing(s[..|s| - 1]) else s
  }

  lemma {:induction false} LeadingMeaning(s: string)
    ensures var n := LeadingPunctuation(s);
            (forall k :: 0 <= k < n ==> IsPunctuation(s[k])) && (n < |s| ==> !IsPunctuation(s[n]))
  {
    if |s| > 0 && IsPunctuation(s[0]) {
      LeadingMeaning(s[1..]);
      assert forall k :: 0 < k < LeadingPunctuation(s) ==> s[k] == s[1..][k - 1];
    }
  }

  lemma {:induction false} TrailingDropped(s: string)
    ensures s[..|WithoutTrailing(s)|] == WithoutTrailing(s)
  {
    if |s| > 0 && IsPunctuation(s[|s| - 1]) {
      TrailingDropped(s[..|s| - 1]);
      SliceOfPrefix(s, 0, |WithoutTrailing(s[..|s| - 1])|, |s| - 1);
    }
  }

  lemma {:induction false} TrailingMeaning(s: string)
    ensures var n := |WithoutTrailing(s)|;
            (forall k :: n <= k < |s| ==> IsPunctuation(s[k])) && (n > 0 ==> !IsPunctuation(s[n - 1]))
  {
    if |s| > 0 && IsPunctuation(s[|s| - 1]) {
      TrailingMeaning(s[..|s| - 1]);
    }
  }

  /** Python's `s.strip(string.punctuation)`. */
  const PUNCTUATION := "!\"#$%&'()*+,-./:;<=>?@[\\]^_`{|}~"

  /** The 32 characters of `string.punctuation`. */
  lemma PunctuationIsListed(c: char)
    ensures IsPunctuation(c) <==> c in PUNCTUATION
  {
    if IsPunctuation(c) {
      ListedInOrder(c);
    }
    ListedIsPunctuation();
  }

  lemma ListedInOrder(c: char)
    requires IsPunctuation(c)
    ensures c in PUNCTUATION
  {
    var k := if c <= '/' then c as int - 33 else if c <= '@' then c as int - 43 else if c <= '`' then c as int - 69
             else c as int - 95;
    assert PUNCTUATION[k] == c;
  }

  lemma ListedIsPunctuation()
    ensures forall c :: c in PUNCTUATION ==> IsPunctuation(c)
  {
  }

  function Strip(s: string): string { WithoutTrailing(s[LeadingPunctuation(s)..]) }

  /**
   Stripping drops exactly the punctuation at both ends: any other position `k` holds punctuation, the ends of the
   core do not.
   */
  lemma StripMeaning(s: string, k: nat)
    requires k < |s|
    ensures var n, core := LeadingPunctuation(s), Strip(s);
            && n + |core| <= |s| && s[n..n + |core|] == core
            && (!(n <= k < n + |core|) ==> IsPunctuation(s[k]))
            && (|core| > 0 ==> !IsPunctuation(s[n]) && !IsPunctuation(s[n + |core| - 1]))
  {
    var n := LeadingPunctuation(s);
    LeadingMeaning(s);
    AfterLeading(s, n, WithoutTrailing(s[n..]));
    if n <= k {
      assert s[k] == s[n..][k - n];
    }
  }

  lemma AfterLeading(s: string, n: nat, core: string)
    requires n <= |s| && core == WithoutTrailing(s[n..])
    ensures n + |core| <= |s| && s[n..n + |core|] == core
    ensures forall k :: |core| <= k < |s| - n ==> IsPunctuation(s[n..][k])
    ensures |core| > 0 ==> !IsPunctuation(s[n + |core| - 1])
  {
    TrailingDropped(s[n..]);
    TrailingMeaning(s[n..]);
    SliceOfTail(s, n, |core|);
    assert |core| > 0 ==> s[n + |core| - 1] == s[n..][|core| - 1];
  }

  /** Python's `hay.find(needle)` from position `i` on: the first occurrence, or -1. */
  function Find(hay: string, needle: string, i: nat): (r: int)
    decreases |hay| - i
  {
    if i + |needle| > |hay| then -1
    else if hay[i..i + |needle|] == needle then i
    else Find(hay, needle, i + 1)
  }

  /** The first occurrence of the stripped core is where stripping found it. */
  lemma FindCore(raw: string)
    requires |Strip(raw)| > 0
    ensures Find(raw, Strip(raw), 0) == LeadingPunctuation(raw)
    ensures LeadingPunctuation(raw) + |Strip(raw)| <= |raw|
    ensures raw[LeadingPunctuation(raw)..LeadingPunctuation(raw) + |Strip(raw)|] == Strip(raw)
  {
    var n, core := LeadingPunctuation(raw), Strip(raw);
    LeadingMeaning(raw);
    TrailingDropped(raw[n..]);
    SliceOfTail(raw, n, |core|);
    FindFrom(raw, core, n, 0);
  }

  lemma FindFrom(raw: string, core: string, n: nat, i: nat)
    requires i <= n && n + |core| <= |raw| && |core| > 0 && raw[n..n + |core|] == core
    requires !IsPunctuation(core[0]) && forall k :: 0 <= k < n ==> IsPunctuation(raw[k])
    ensures Find(raw, core, i) == n
    decreases n - i
  {
    if i < n {
      assert raw[i..i + |core|][0] == raw[i];
      FindFrom(raw, core, n, i + 1);
    }
  }

  function EndsWithE(s: string): bool { |s| > 0 && s[|s| - 1] == 'e' }

  function IngForm(s: string): string { (if EndsWithE(s) then s[..|s| - 1] else s) + "ing" }

  function EdForm(s: string): string { s + if EndsWithE(s) then "d" else "ed" }

  function SameLower(rules: TextRules, index: seq<string>, lowered: string): seq<string> {
    if |index| == 0 then []
    else (if rules.lower(index[0]) == lowered then [index[0]] else []) + SameLower(rules, index[1..], lowered)
  }

  function InflectedSources(rules: TextRules, index: seq<string>, lowered: string): seq<string> {
    if |index| == 0 then []
    else
      var l := rules.lower(index[0]);
      (if ' ' !in index[0] && (lowered == IngForm(l) || lowered == EdForm(l)) then [index[0]] else [])
      + InflectedSources(rules, index[1..], lowered)
  }

  /** The unique source token a context stands for, with the surface and its offset in the text. */
  function MatchSurface(rules: TextRules, context: Context, index: seq<string>): Option<(string, string, int)> {
    var core := Strip(context.token);
    if |core| == 0 then None
    else
      var offset := context.offset + Find(context.token, core, 0);
      var lowered := rules.lower(core);
      var direct := SameLower(rules, index, lowered);
      if |direct| == 1 then Some((core, direct[0], offset))
      else
        var inflected := InflectedSources(rules, index, lowered);
        if |inflected| == 1 then Some((core, inflected[0], offset)) else None
  }

  // ----- Precedence -----

  function UserPreferenceRule(word: string, preferences: seq<(string, string)>): Option<Rule> {
    if |preferences| == 0 then None
    else if preferences[0].0 == word
    then Some(Rule("user-preference", word, preferences[0].1, "", UserPreference, 1.0, "user-preference"))
    else UserPreferenceRule(word, preferences[1..])
  }

  function ResolvePrecedence(rule: Option<Rule>, preference: Option<Rule>, project: Option<Rule>,
      register: Option<Rule>, domain: Option<Rule>): Precedence
  {
    if preference.Some? then UserPreference
    else if project.Some? then ProjectGlossary
    else if register.Some? then RegisterEvidence
    else if domain.Some? then DomainGlossary
    else if rule.Some? then rule.value.precedence
    else NoChange
  }

  function WinningRule(p: Precedence, preference: Option<Rule>, project: Option<Rule>, register: Option<Rule>,
      domain: Option<Rule>, rule: Option<Rule>): Result<Rule>
  {
    if p.UserPreference? && preference.Some? then Ok(preference.value)
    else if p.ProjectGlossary? && project.Some? then Ok(project.value)
    else if p.RegisterEvidence? && register.Some? then Ok(register.value)
    else if p.DomainGlossary? && domain.Some? then Ok(domain.value)
    else if rule.None? then Err(NoWinningRule)
    else Ok(rule.value)
  }

  function MatchingAtPrecedence(inputs: Inputs, word: string, p: Precedence, preference: Option<Rule>): seq<Rule> {
    if p.UserPreference? then (if preference.Some? then [preference.value] else [])
    else MatchingRules(if p.ProjectGlossary? then inputs.projectGlossary
                       else if p.RegisterEvidence? then inputs.registerRules
                       else if p.DomainGlossary? then inputs.domainGlossary
                       else inputs.ruleset, word)
  }

  /** More than one (target, sense) among the rules at the winning precedence. */
  predicate Ambiguous(rules: seq<Rule>) {
    exists i, j :: 0 <= i < j < |rules|
                   && (rules[i].targetToken != rules[j].targetToken || rules[i].sense != rules[j].sense)
  }

  // ----- One context -----

  /** What happens to one candidate context: nothing, a finding, a change (not numbered yet), or an error. */
  datatype Decision = Ignore | Decline(finding: string) | Propose(change: Change) | Raise(error: Error)

  predicate SpanOverlap(span: ProtectedSpan, start: int, end: int) {
    start < span.location.end && span.location.start < end
  }

  function Decide(inputs: Inputs, text: string, index: seq<string>, context: Context): Decision {
    match MatchSurface(inputs.rules, context, index)
    case None => Ignore
    case Some(surface) =>
      var (token, word, offset) := surface;
      if offset < 0 || |token| == 0 || offset + |token| > |text| then Raise(ContextOutsideDocument)
      else if (exists s :: s in inputs.spans && SpanOverlap(s, offset, offset + |token|))
        || |context.protectedSpanIds| > 0
      then Decline("protected_skip:" + token)
      else DecideUnprotected(inputs, text, context, token, word, offset)
  }

  function DecideUnprotected(inputs: Inputs, text: string, context: Context, token: string, word: string,
      offset: int): Decision
  {
    var rule := SelectRule(inputs.ruleset, word);
    var preference := UserPreferenceRule(word, inputs.userPreferences);
    var project := SelectRule(inputs.projectGlossary, word);
    var register := SelectRule(inputs.registerRules, word);
    var domain := SelectRule(inputs.domainGlossary, word);
    var p := ResolvePrecedence(rule, preference, project, register, domain);
    if p.NoChange? then Decline("precedence_no_change:" + token)
    else if Ambiguous(MatchingAtPrecedence(inputs, word, p, preference)) then Decline("ambiguous_sense:" + token)
    else
      match WinningRule(p, preference, project, register, domain, rule)
      case Err(e) => Raise(e)
      case Ok(winner) =>
        match inputs.rules.inflect(token, word, winner.targetToken)
        case None => Decline("inflection_unsupported:" + token)
        case Some(inflected) =>
          var left := if inputs.leftWindow != "" then inputs.leftWindow else context.leftWindow;
          var right := if inputs.rightWindow != "" then inputs.rightWindow else context.rightWindow;
          if !inputs.rules.collocationPreserved(text, offset, |token|, inflected, left, right)
          then Decline("collocation_unsafe:" + token)
          else
            var status := if winner.confidence < inputs.safeThreshold || Rank(p) > Rank(CuratedRule) then Proposed
                          else Safe;
            Propose(Change("", offset, |token|, token, inflected, winner.ruleId + ":" + winner.sense, PrecedenceName(p),
                           winner.confidence, status, winner.ruleId, winner.sense, inputs.rulesetHash))
  }

  // ----- The loop -----

  function ChangeId(n: nat): string { "ch" + Decimal(n) }

  datatype Outcome = Outcome(changes: seq<Change>, findings: seq<string>)

  /** What one decision adds to the changes and findings so far. */
  function Extend(d: Decision, done: Outcome): Result<Outcome> {
    match d
    case Raise(e) => Err(e)
    case Ignore => Ok(done)
    case Decline(f) => Ok(done.(findings := done.findings + [f]))
    case Propose(c) => Ok(done.(changes := done.changes + [c.(changeId := ChangeId(|done.changes| + 1))]))
  }

  /** The outcome so far, extended by the candidate contexts still to come. */
  function ProposeFrom(decide: Context -> Decision, contexts: seq<Context>, done: Outcome): Result<Outcome>
    decreases |contexts|
  {
    if |contexts| == 0 then Ok(done)
    else
      match Extend(decide(contexts[0]), done)
      case Err(e) => Err(e)
      case Ok(next) => ProposeFrom(decide, contexts[1..], next)
  }

  function Keys(preferences: seq<(string, string)>): seq<string> {
    if |preferences| == 0 then [] else [preferences[0].0] + Keys(preferences[1..])
  }

  function SourceTokens(rules: seq<Rule>): seq<string> {
    if |rules| == 0 then [] else [rules[0].sourceToken] + SourceTokens(rules[1..])
  }

  function Distinct(s: seq<string>): seq<string> {
    if |s| == 0 then [] else if s[0] in s[1..] then Distinct(s[1..]) else [s[0]] + Distinct(s[1..])
  }

  /** The known surfaces, each once; the source keeps them in a frozenset. */
  function SurfaceIndex(inputs: Inputs): seq<string> {
    Distinct(Keys(inputs.userPreferences) + SourceTokens(inputs.ruleset) + SourceTokens(inputs.projectGlossary)
             + SourceTokens(inputs.registerRules) + SourceTokens(inputs.domainGlossary))
  }

  function ProposedOutcome(inputs: Inputs, text: string, contexts: seq<Context>): Result<Outcome> {
    if inputs.safeThreshold < 0.0 || inputs.safeThreshold > 1.0 then Err(ThresholdOutOfRange)
    else if |inputs.ruleset| == 0 then Err(EmptyRuleset)
    else OutcomeOver(inputs, text, SurfaceIndex(inputs), contexts)
  }

  function OutcomeOver(inputs: Inputs, text: string, index: seq<string>, contexts: seq<Context>): Result<Outcome> {
    ProposeFrom(Decider(inputs, text, index), Candidates(inputs.rules, text, contexts, index, inputs.spans),
                Outcome([], []))
  }

  function Decider(inputs: Inputs, text: string, index: seq<string>): Context -> Decision {
    context => Decide(inputs, text, index, context)
  }

  function ProposalOf(sha256: string -> string, runIds: RunIds, inputs: Inputs, text: string,
      outcome: Outcome): Proposal
  {
    var runId := runIds(inputs.rulesetHash, sha256(text), outcome.changes, outcome.findings);
    Proposal(runId, runId, inputs.rulesetHash, sha256(text), PROPOSAL_SCHEMA_VERSION, outcome.changes, outcome.findings)
  }

  method ProposeChanges(sha256: string -> string, runIds: RunIds, inputs: Inputs, text: string, contexts: seq<Context>)
    returns (r: Result<Proposal>)
    ensures r == match ProposedOutcome(inputs, text, contexts)
                 case Err(e) => Err(e)
                 case Ok(outcome) => Ok(ProposalOf(sha256, runIds, inputs, text, outcome))
  {
    if inputs.safeThreshold < 0.0 || inputs.safeThreshold > 1.0 {
      return Err(ThresholdOutOfRange);
    }
    if inputs.ruleset == [] {
      return Err(EmptyRuleset);
    }
    var index := SurfaceIndex(inputs);
    var candidates := ContextsWithMultiwordCandidates(inputs.rules, text, contexts, index, inputs.spans);
    var outcome := ProposeOver(Decider(inputs, text, index), candidates);
    if outcome.Err? {
      return Err(outcome.error);
    }
    return Ok(ProposalOf(sha256, runIds, inputs, text, outcome.value));
  }

  /** The loop over the candidate contexts. */
  method ProposeOver(decide: Context -> Decision, candidates: seq<Context>) returns (r: Result<Outcome>)
    ensures r == ProposeFrom(decide, candidates, Outcome([], []))
  {
    var changes: seq<Change> := [];
    var findings: seq<string> := [];
    for i := 0 to |candidates|
      invariant ProposeFrom(decide, candidates[i..], Outcome(changes, findings))
                == ProposeFrom(decide, candidates, Outcome([], []))
    {
      assert candidates[i..][0] == candidates[i] && candidates[i..][1..] == candidates[i + 1..];
      match decide(candidates[i])
      case Raise(e) => return Err(e);
      case Ignore =>
      case Decline(f) => findings := findings + [f];
      case Propose(c) => changes := changes + [c.(changeId := ChangeId(|changes| + 1))];
    }
    return Ok(Outcome(changes, findings));
  }

  // ----- What is proposed -----

  ghost predicate ClearOfSpans(spans: seq<ProtectedSpan>, c: Change) {
    forall s :: s in spans ==> !SpanOverlap(s, c.offset, c.End())
  }

  /** A matched surface is an exact slice inside its context's slice, although `find` looks for the first occurrence. */
  lemma SurfaceIsSlice(rules: TextRules, text: string, context: Context, index: seq<string>,
      surface: (string, string, int))
    requires IsSlice(text, context) && MatchSurface(rules, context, index) == Some(surface)
    ensures SliceInside(text, context, surface.0, surface.2)
  {
    MatchedCore(rules, context, index);
    CoreIsSlice(text, context);
  }

  /** The token is a non-empty exact slice of the text that lies inside the context's slice. */
  ghost predicate SliceInside(text: string, context: Context, token: string, offset: int)
    requires IsSlice(text, context)
  {
    |token| > 0 && context.offset <= offset && offset + |token| <= context.End()
    && text[offset..offset + |token|] == token
  }

  lemma CoreAt(text: string, context: Context, core: string, n: nat, found: int)
    requires found == n && IsSlice(text, context) && |core| > 0 && n + |core| <= |context.token|
             && context.token[n..n + |core|] == core
    ensures SliceInside(text, context, core, context.offset + found)
  {
    SliceOfSlice(text, context.offset, context.End(), n, n + |core|);
  }

  lemma {:induction false} CoreIsSlice(text: string, context: Context)
    requires IsSlice(text, context) && |Strip(context.token)| > 0
    ensures SliceInside(text, context, Strip(context.token),
                        context.offset + Find(context.token, Strip(context.token), 0))
  {
    FindCore(context.token);
    var raw, core := context.token, Strip(context.token);
    CoreAt(text, context, core, LeadingPunctuation(raw), Find(raw, core, 0));
  }

  lemma MatchedCore(rules: TextRules, context: Context, index: seq<string>)
    requires MatchSurface(rules, context, index).Some?
    ensures var core := Strip(context.token);
            |core| > 0 && MatchSurface(rules, context, index).value.0 == core
            && MatchSurface(rules, context, index).value.2 == context.offset + Find(context.token, core, 0)
  {
  }

  /**
   The base rule answers for every precedence that is left to it, so `_winning_rule` never raises; a proposed change
   covers exactly the matched token.
   */
  lemma UnprotectedDecision(inputs: Inputs, text: string, context: Context, token: string, word: string, offset: int)
    ensures var d := DecideUnprotected(inputs, text, context, token, word, offset);
            && !d.Raise?
            && (d.Propose?
                ==> d.change.offset == offset && d.change.length == |token| && d.change.sourceSurface == token)
  {
  }

  /**
   One decision over an exact slice never raises, and a change it proposes fits the text inside that slice and touches
   no span.
   */
  lemma DecisionFits(inputs: Inputs, text: string, index: seq<string>, context: Context)
    requires IsSlice(text, context)
    ensures GoodDecision(inputs.spans, text, context, Decide(inputs, text, index, context))
  {
    var surface := MatchSurface(inputs.rules, context, index);
    if surface.Some? {
      SurfaceIsSlice(inputs.rules, text, context, index, surface.value);
      DecisionOver(inputs, text, index, context, surface.value.0, surface.value.1, surface.value.2);
    }
  }

  lemma DecisionOver(inputs: Inputs, text: string, index: seq<string>, context: Context, token: string, word: string,
      offset: int)
    requires IsSlice(text, context) && SliceInside(text, context, token, offset)
    requires MatchSurface(inputs.rules, context, index) == Some((token, word, offset))
    ensures GoodDecision(inputs.spans, text, context, Decide(inputs, text, index, context))
  {
    var d := Decide(inputs, text, index, context);
    UnprotectedDecision(inputs, text, context, token, word, offset);
    if d.Propose? {
      assert d == DecideUnprotected(inputs, text, context, token, word, offset);
      ProposedIsGood(inputs.spans, text, context, d.change, token, offset);
    }
  }

  lemma ProposedIsGood(spans: seq<ProtectedSpan>, text: string, context: Context, c: Change, token: string, offset: int)
    requires IsSlice(text, context) && SliceInside(text, context, token, offset)
    requires c.offset == offset && c.length == |token| && c.sourceSurface == token
    requires !exists s :: s in spans && SpanOverlap(s, offset, offset + |token|)
    ensures GoodDecision(spans, text, context, Propose(c))
  {
  }

  ghost predicate GoodDecision(spans: seq<ProtectedSpan>, text: string, context: Context, d: Decision) {
    && !d.Raise?
    && (d.Propose? ==> Fits(text, d.change) && ClearOfSpans(spans, d.change)
                       && context.offset <= d.change.offset && d.change.End() <= context.End())
  }

  ghost predicate NumberedChanges(cs: seq<Change>) {
    forall i :: 0 <= i < |cs| ==> cs[i].changeId == ChangeId(i + 1)
  }

  /** Everything the changes so far satisfy, and where the next context may start. */
  ghost predicate GoodChanges(spans: seq<ProtectedSpan>, text: string, cs: seq<Change>) {
    Applicable(text, cs) && NumberedChanges(cs) && forall c :: c in cs ==> ClearOfSpans(spans, c)
  }

  lemma {:induction false} ProposeFromFits(spans: seq<ProtectedSpan>, text: string, decide: Context -> Decision,
      contexts: seq<Context>, done: Outcome)
    requires forall context :: context in contexts ==> GoodDecision(spans, text, context, decide(context))
    requires InOrder(contexts) && GoodChanges(spans, text, done.changes)
    requires forall c :: c in done.changes && |contexts| > 0 ==> c.End() <= contexts[0].offset
    requires forall context :: context in contexts ==> context.offset <= context.End()
    ensures var r := ProposeFrom(decide, contexts, done);
            r.Ok? && GoodChanges(spans, text, r.value.changes)
    decreases |contexts|
  {
    if |contexts| > 0 {
      var context, rest := contexts[0], contexts[1..];
      assert context in contexts;
      var next := Extend(decide(context), done).value;
      ExtendKeeps(spans, text, context, decide(context), done);
      assert |rest| > 0 ==> rest[0] == contexts[1] && context.End() <= rest[0].offset;
      ProposeFromFits(spans, text, decide, rest, next);
    }
  }

  lemma ExtendKeeps(spans: seq<ProtectedSpan>, text: string, context: Context, d: Decision, done: Outcome)
    requires GoodDecision(spans, text, context, d) && GoodChanges(spans, text, done.changes)
    requires context.offset <= context.End() && forall c :: c in done.changes ==> c.End() <= context.offset
    ensures var next := Extend(d, done);
            && next.Ok? && GoodChanges(spans, text, next.value.changes)
            && forall c :: c in next.value.changes ==> c.End() <= context.End()
  {
    if d.Propose? {
      var c := d.change.(changeId := ChangeId(|done.changes| + 1));
      AppendGood(spans, text, done.changes, c, context.End());
    }
  }

  lemma AppendGood(spans: seq<ProtectedSpan>, text: string, cs: seq<Change>, c: Change, end: int)
    requires GoodChanges(spans, text, cs) && Fits(text, c) && ClearOfSpans(spans, c) && c.changeId == ChangeId(|cs| + 1)
    requires c.End() <= end && forall x :: x in cs ==> x.End() <= c.offset
    ensures GoodChanges(spans, text, cs + [c]) && forall x :: x in cs + [c] ==> x.End() <= end
  {
    AppendChange(text, cs, c);
    assert forall x :: x in cs + [c] ==> x in cs || x == c;
  }

  lemma AppendChange(text: string, cs: seq<Change>, c: Change)
    requires Applicable(text, cs) && Fits(text, c) && forall x :: x in cs ==> x.End() <= c.offset
    ensures Applicable(text, cs + [c])
  {
    assert forall i :: 0 <= i < |cs| ==> cs[i] in cs;
  }

  /**
   Over a text's own contexts `propose_changes` fails only on a bad threshold or an empty ruleset.  The changes are
   numbered, strictly increasing, disjoint, in bounds, equal to their slices of the text, and clear of every protected
   span.
   */
  lemma ProposalMeaning(inputs: Inputs, text: string)
    ensures var r := ProposedOutcome(inputs, text, TokenContexts(inputs.rules, text, inputs.spans));
            && (r.Ok? <==> 0.0 <= inputs.safeThreshold <= 1.0 && |inputs.ruleset| > 0)
            && (r.Ok? ==> GoodChanges(inputs.spans, text, r.value.changes))
  {
    CandidatesInOrder(inputs.rules, text, SurfaceIndex(inputs), inputs.spans);
    OutcomeFits(inputs, text, SurfaceIndex(inputs), TokenContexts(inputs.rules, text, inputs.spans));
  }

  lemma OutcomeFits(inputs: Inputs, text: string, index: seq<string>, contexts: seq<Context>)
    requires InOrder(Candidates(inputs.rules, text, contexts, index, inputs.spans))
    requires AllSlices(text, Candidates(inputs.rules, text, contexts, index, inputs.spans))
    ensures var r := OutcomeOver(inputs, text, index, contexts);
            r.Ok? && GoodChanges(inputs.spans, text, r.value.changes)
  {
    var candidates := Candidates(inputs.rules, text, contexts, index, inputs.spans);
    AllDecisionsFit(inputs, text, index, candidates);
    ProposeFromFits(inputs.spans, text, Decider(inputs, text, index), candidates, Outcome([], []));
  }

  lemma AllDecisionsFit(inputs: Inputs, text: string, index: seq<string>, contexts: seq<Context>)
    requires AllSlices(text, contexts)
    ensures forall context :: context in contexts ==>
              && GoodDecision(inputs.spans, text, context, Decider(inputs, text, index)(context))
              && context.offset <= context.End()
  {
    forall context | context in contexts
      ensures GoodDecision(inputs.spans, text, context, Decide(inputs, text, index, context))
    {
      DecisionFits(inputs, text, index, context);
    }
  }

  /** Whatever the review accepts of such a proposal, `apply_changes` does not raise on the text it was made for. */
  lemma ReviewedProposalApplies(sha256: string -> string, runIds: RunIds, inputs: Inputs, text: string,
      journal: Journal)
    requires ProposedOutcome(inputs, text, TokenContexts(inputs.rules, text, inputs.spans)).Ok?
    requires var outcome := ProposedOutcome(inputs, text, TokenContexts(inputs.rules, text, inputs.spans)).value;
             Reviewed(runIds, ProposalOf(sha256, runIds, inputs, text, outcome), journal).Ok?
    ensures var outcome := ProposedOutcome(inputs, text, TokenContexts(inputs.rules, text, inputs.spans)).value;
            var reviewed := Reviewed(runIds, ProposalOf(sha256, runIds, inputs, text, outcome), journal).value;
            && Applicable(text, reviewed.changes)
            && AppliedText(sha256, text, reviewed, None) == Ok(NewText(text, reviewed.changes))
  {
    ProposalMeaning(inputs, text);
    var outcome := ProposedOutcome(inputs, text, TokenContexts(inputs.rules, text, inputs.spans)).value;
    ReviewedSubsetApplies(runIds, sha256, text, ProposalOf(sha256, runIds, inputs, text, outcome), journal);
  }

  // ----- No match is lost -----

  /** How many of the first `k` contexts are answered by a change. */
  function ChangesAmong(decide: Context -> Decision, contexts: seq<Context>, k: nat): nat
    requires k <= |contexts|
  {
    if k == 0 then 0 else (if decide(contexts[0]).Propose? then 1 else 0) + ChangesAmong(decide, contexts[1..], k - 1)
  }

  /** How many of the first `k` contexts are answered by a finding. */
  function FindingsAmong(decide: Context -> Decision, contexts: seq<Context>, k: nat): nat
    requires k <= |contexts|
  {
    if k == 0 then 0 else (if decide(contexts[0]).Decline? then 1 else 0) + FindingsAmong(decide, contexts[1..], k - 1)
  }

  /** The changes and findings so far stay where they are. */
  lemma {:induction false} OutcomeGrows(decide: Context -> Decision, contexts: seq<Context>, done: Outcome)
    requires ProposeFrom(decide, contexts, done).Ok?
    ensures var r := ProposeFrom(decide, contexts, done).value;
            && done.changes <= r.changes && done.findings <= r.findings
            && |r.changes| == |done.changes| + ChangesAmong(decide, contexts, |contexts|)
            && |r.findings| == |done.findings| + FindingsAmong(decide, contexts, |contexts|)
    decreases |contexts|
  {
    if |contexts| > 0 {
      OutcomeGrows(decide, contexts[1..], Extend(decide(contexts[0]), done).value);
    }
  }

  /** The decision on one context stands in the outcome after those on the contexts before it. */
  ghost predicate AnsweredAt(d: Decision, r: Outcome, change: nat, finding: nat) {
    && !d.Raise?
    && (d.Propose? ==> change < |r.changes| && r.changes[change] == d.change.(changeId := ChangeId(change + 1)))
    && (d.Decline? ==> finding < |r.findings| && r.findings[finding] == d.finding)
  }

  lemma {:induction false} AnswerOf(decide: Context -> Decision, contexts: seq<Context>, done: Outcome, k: nat)
    requires ProposeFrom(decide, contexts, done).Ok? && k < |contexts|
    ensures AnsweredAt(decide(contexts[k]), ProposeFrom(decide, contexts, done).value,
                       |done.changes| + ChangesAmong(decide, contexts, k),
                       |done.findings| + FindingsAmong(decide, contexts, k))
    decreases |contexts|
  {
    var next := Extend(decide(contexts[0]), done).value;
    if k > 0 {
      AnswerOf(decide, contexts[1..], next, k - 1);
    } else {
      OutcomeGrows(decide, contexts[1..], next);
      HeadAnswered(decide(contexts[0]), done, next, ProposeFrom(decide, contexts[1..], next).value);
    }
  }

  lemma HeadAnswered(d: Decision, done: Outcome, next: Outcome, r: Outcome)
    requires Extend(d, done) == Ok(next) && next.changes <= r.changes && next.findings <= r.findings
    ensures AnsweredAt(d, r, |done.changes|, |done.findings|)
  {
    if d.Propose? {
      assert r.changes[|done.changes|] == next.changes[|done.changes|];
    } else if d.Decline? {
      assert r.findings[|done.findings|] == next.findings[|done.findings|];
    }
  }

  /** Each context has its own change, finding or nothing, in order, and there are no further changes or findings. */
  ghost predicate AllAnswered(decide: Context -> Decision, contexts: seq<Context>, r: Outcome) {
    && (forall k: nat :: k < |contexts| ==>
          AnsweredAt(decide(contexts[k]), r, ChangesAmong(decide, contexts, k), FindingsAmong(decide, contexts, k)))
    && |r.changes| == ChangesAmong(decide, contexts, |contexts|)
    && |r.findings| == FindingsAmong(decide, contexts, |contexts|)
  }

  lemma AllOfThemAnswered(decide: Context -> Decision, contexts: seq<Context>, r: Outcome)
    requires ProposeFrom(decide, contexts, Outcome([], [])) == Ok(r)
    ensures AllAnswered(decide, contexts, r)
  {
    OutcomeGrows(decide, contexts, Outcome([], []));
    forall k: nat | k < |contexts|
      ensures AnsweredAt(decide(contexts[k]), r, ChangesAmong(decide, contexts, k), FindingsAmong(decide, contexts, k))
    {
      AnswerOf(decide, contexts, Outcome([], []), k);
    }
  }

  lemma IgnoredIff(inputs: Inputs, text: string, index: seq<string>, context: Context)
    ensures Decide(inputs, text, index, context).Ignore? <==> MatchSurface(inputs.rules, context, index).None?
  {
  }

  /**
   Each candidate that stands for a known surface is answered by one change or one finding of its own, in the order of
   the candidates; the others by none; and there are no further changes or findings.
   */
  lemma EveryMatchIsAnswered(inputs: Inputs, text: string, contexts: seq<Context>)
    requires ProposedOutcome(inputs, text, contexts).Ok?
    ensures var index := SurfaceIndex(inputs);
            && AllAnswered(Decider(inputs, text, index), Candidates(inputs.rules, text, contexts, index, inputs.spans),
                           ProposedOutcome(inputs, text, contexts).value)
            && forall context :: Decider(inputs, text, index)(context).Ignore?
                                 <==> MatchSurface(inputs.rules, context, index).None?
  {
    var index := SurfaceIndex(inputs);
    AllOfThemAnswered(Decider(inputs, text, index), Candidates(inputs.rules, text, contexts, index, inputs.spans),
                      ProposedOutcome(inputs, text, contexts).value);
    forall context
      ensures Decider(inputs, text, index)(context).Ignore? <==> MatchSurface(inputs.rules, context, index).None?
    {
      IgnoredIff(inputs, text, index, context);
    }
  }
}
