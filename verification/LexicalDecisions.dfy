/** Which rule decides about a word, and what becomes of it, in terms of the inputs. */
module LexicalDecisions {
  import opened Wrappers
  import opened Sequences
  import opened LexicalChanges
  import opened ProtectedSpans
  import opened LexicalRules
  import opened LexicalContexts
  import opened LexicalProposals

  // ----- The rules of each source -----

  const STRONGEST_FIRST: seq<Precedence> :=
    [ProtectedLevel, UserPreference, ProjectGlossary, RegisterEvidence, DomainGlossary, CuratedRule, LicensedResource,
     NoChange]

  /** The rank is the position in the order, strongest first. */
  lemma RankIsPosition(p: Precedence)
    ensures Rank(p) < |STRONGEST_FIRST| && STRONGEST_FIRST[Rank(p)] == p
  {
  }

  ghost predicate Knows(rules: seq<Rule>, word: string) { exists r :: r in rules && r.sourceToken == word }

  /** Of the rules for the word, the first of those that no other one is stronger than. */
  ghost predicate IsBest(rules: seq<Rule>, word: string, r: Rule) {
    exists k: nat ::
      && k < |rules| && rules[k] == r && r.sourceToken == word
      && (forall s :: s in rules && s.sourceToken == word ==> StrongerEq(r, s))
      && (forall j :: 0 <= j < k && rules[j].sourceToken == word ==> !StrongerEq(rules[j], r))
  }

  lemma {:induction false} FirstStrongest(matching: seq<Rule>) returns (k: nat)
    requires |matching| > 0
    ensures k < |matching| && matching[k] == Strongest(matching)
    ensures forall j :: 0 <= j < k ==> !StrongerEq(matching[j], Strongest(matching))
  {
    if |matching| == 1 || StrongerEq(matching[0], Strongest(matching[1..])) {
      k := 0;
    } else {
      k := FirstStrongest(matching[1..]);
      k := k + 1;
    }
  }

  lemma {:induction false} PlaceInRules(rules: seq<Rule>, word: string, k: nat) returns (i: nat)
    requires k < |MatchingRules(rules, word)|
    ensures i < |rules| && rules[i] == MatchingRules(rules, word)[k] && rules[i].sourceToken == word
    ensures forall j :: 0 <= j < i && rules[j].sourceToken == word ==> rules[j] in MatchingRules(rules, word)[..k]
  {
    var rest := MatchingRules(rules[1..], word);
    if rules[0].sourceToken != word {
      PrependEmpty(rest);
      i := PlaceInRules(rules[1..], word, k);
      i := i + 1;
    } else if k == 0 {
      i := 0;
    } else {
      i := PlaceInRules(rules[1..], word, k - 1);
      i := i + 1;
      assert MatchingRules(rules, word)[..k] == [rules[0]] + rest[..k - 1];
    }
  }

  lemma SelectedIsBest(rules: seq<Rule>, word: string)
    ensures SelectRule(rules, word).Some? <==> Knows(rules, word)
    ensures SelectRule(rules, word).Some? ==> IsBest(rules, word, SelectRule(rules, word).value)
  {
    SelectRuleMeaning(rules, word);
    var matching := MatchingRules(rules, word);
    if |matching| > 0 {
      var k := FirstStrongest(matching);
      var i := PlaceInRules(rules, word, k);
      forall j | 0 <= j < i && rules[j].sourceToken == word ensures !StrongerEq(rules[j], rules[i]) {
        assert rules[j] in matching[..k];
      }
    }
  }

  /** The target the user prefers for the word. */
  ghost predicate Prefers(preferences: seq<(string, string)>, word: string, target: string) {
    exists k: nat ::
      k < |preferences| && preferences[k] == (word, target) && forall j :: 0 <= j < k ==> preferences[j].0 != word
  }

  ghost predicate NoPreference(preferences: seq<(string, string)>, word: string) {
    forall k :: 0 <= k < |preferences| ==> preferences[k].0 != word
  }

  lemma {:induction false} PreferenceMeaning(word: string, preferences: seq<(string, string)>)
    ensures var r := UserPreferenceRule(word, preferences);
            && (r.None? <==> NoPreference(preferences, word))
            && (r.Some? ==> Prefers(preferences, word, r.value.targetToken) && IsPreferenceRule(r.value, word))
  {
    if |preferences| > 0 && preferences[0].0 != word {
      PreferenceMeaning(word, preferences[1..]);
      var r := UserPreferenceRule(word, preferences);
      if r.Some? {
        var k: nat :| k < |preferences[1..]| && preferences[1..][k] == (word, r.value.targetToken)
                      && forall j :: 0 <= j < k ==> preferences[1..][j].0 != word;
        assert preferences[k + 1] == (word, r.value.targetToken);
        assert forall j :: 1 <= j < k + 1 ==> preferences[j] == preferences[1..][j - 1];
      } else {
        assert forall j :: 1 <= j < |preferences| ==> preferences[j] == preferences[1..][j - 1];
      }
    } else if |preferences| > 0 {
      assert preferences[0] == (word, preferences[0].1);
    }
  }

  predicate IsPreferenceRule(r: Rule, word: string) {
    r.ruleId == "user-preference" && r.sourceToken == word && r.sense == "" && r.confidence == 1.0
    && r.precedence == UserPreference && r.provenance == "user-preference"
  }

  // ----- Who decides -----

  /**
   The rule that decides about the word, its level, and the rules among which it must not be ambiguous.  The user's
   preference comes first, then the project's glossary, register evidence, the domain's glossary, and the ruleset.
   */
  ghost predicate Rules(inputs: Inputs, word: string, p: Precedence, r: Rule, rivals: seq<Rule>) {
    if !NoPreference(inputs.userPreferences, word) then
      p == UserPreference && Prefers(inputs.userPreferences, word, r.targetToken) && IsPreferenceRule(r, word)
      && rivals == [r]
    else if Knows(inputs.projectGlossary, word) then
      p == ProjectGlossary && IsBest(inputs.projectGlossary, word, r) && rivals == inputs.projectGlossary
    else if Knows(inputs.registerRules, word) then
      p == RegisterEvidence && IsBest(inputs.registerRules, word, r) && rivals == inputs.registerRules
    else if Knows(inputs.domainGlossary, word) then
      p == DomainGlossary && IsBest(inputs.domainGlossary, word, r) && rivals == inputs.domainGlossary
    else
      p == r.precedence && p != NoChange && IsBest(inputs.ruleset, word, r)
      // A base rule at the level of another source is never held against its like: that source does not know the word.
      && rivals == if p in {UserPreference, ProjectGlossary, RegisterEvidence, DomainGlossary} then []
         else inputs.ruleset
  }

  /** No source has a rule for the word, or only the ruleset has and says not to change it. */
  ghost predicate Unruled(inputs: Inputs, word: string) {
    && NoPreference(inputs.userPreferences, word) && !Knows(inputs.projectGlossary, word)
    && !Knows(inputs.registerRules, word) && !Knows(inputs.domainGlossary, word)
    && (Knows(inputs.ruleset, word) ==> exists r :: IsBest(inputs.ruleset, word, r) && r.precedence == NoChange)
  }

  /** Two of the rules for the word differ in target or sense. */
  ghost predicate AtOdds(rivals: seq<Rule>, word: string) {
    exists a, b :: a in rivals && b in rivals && a.sourceToken == word == b.sourceToken
                   && (a.targetToken != b.targetToken || a.sense != b.sense)
  }

  lemma AmbiguousIff(rivals: seq<Rule>, word: string)
    ensures Ambiguous(MatchingRules(rivals, word)) <==> AtOdds(rivals, word)
  {
    MatchingMembers(rivals, word);
    OddsAreAmbiguous(rivals, word, MatchingRules(rivals, word));
    AmbiguousIsAtOdds(rivals, word, MatchingRules(rivals, word));
  }

  lemma OddsAreAmbiguous(rivals: seq<Rule>, word: string, matching: seq<Rule>)
    requires forall r :: r in matching <==> r in rivals && r.sourceToken == word
    ensures AtOdds(rivals, word) ==> Ambiguous(matching)
  {
    if AtOdds(rivals, word) {
      var a, b :| a in rivals && b in rivals && a.sourceToken == word == b.sourceToken
                  && (a.targetToken != b.targetToken || a.sense != b.sense);
      var i :| 0 <= i < |matching| && matching[i] == a;
      var j :| 0 <= j < |matching| && matching[j] == b;
      assert i < j || j < i;
    }
  }

  lemma AmbiguousIsAtOdds(rivals: seq<Rule>, word: string, matching: seq<Rule>)
    requires forall r :: r in matching <==> r in rivals && r.sourceToken == word
    ensures Ambiguous(matching) ==> AtOdds(rivals, word)
  {
    if Ambiguous(matching) {
      var i, j :| 0 <= i < j < |matching| && (matching[i].targetToken != matching[j].targetToken
                                              || matching[i].sense != matching[j].sense);
      var a, b := matching[i], matching[j];
      assert a in rivals && b in rivals && a.sourceToken == word == b.sourceToken;
    }
  }

  /** The selections of the five sources for the word. */
  datatype Selection = Selection(
    rule: Option<Rule>, preference: Option<Rule>, project: Option<Rule>, register: Option<Rule>, domain: Option<Rule>)

  function SelectionFor(inputs: Inputs, word: string): Selection {
    Selection(SelectRule(inputs.ruleset, word), UserPreferenceRule(word, inputs.userPreferences),
              SelectRule(inputs.projectGlossary, word), SelectRule(inputs.registerRules, word),
              SelectRule(inputs.domainGlossary, word))
  }

  lemma SelectionMeaning(inputs: Inputs, word: string)
    ensures var s := SelectionFor(inputs, word);
            && (s.preference.None? <==> NoPreference(inputs.userPreferences, word))
            && (s.preference.Some? ==> Prefers(inputs.userPreferences, word, s.preference.value.targetToken)
                                       && IsPreferenceRule(s.preference.value, word))
            && (s.project.Some? <==> Knows(inputs.projectGlossary, word))
            && (s.project.Some? ==> IsBest(inputs.projectGlossary, word, s.project.value))
            && (s.register.Some? <==> Knows(inputs.registerRules, word))
            && (s.register.Some? ==> IsBest(inputs.registerRules, word, s.register.value))
            && (s.domain.Some? <==> Knows(inputs.domainGlossary, word))
            && (s.domain.Some? ==> IsBest(inputs.domainGlossary, word, s.domain.value))
            && (s.rule.Some? <==> Knows(inputs.ruleset, word))
            && (s.rule.Some? ==> IsBest(inputs.ruleset, word, s.rule.value))
  {
    PreferenceMeaning(word, inputs.userPreferences);
    SelectedIsBest(inputs.projectGlossary, word);
    SelectedIsBest(inputs.registerRules, word);
    SelectedIsBest(inputs.domainGlossary, word);
    SelectedIsBest(inputs.ruleset, word);
  }

  function PrecedenceFor(s: Selection): Precedence {
    ResolvePrecedence(s.rule, s.preference, s.project, s.register, s.domain)
  }

  function WinnerFor(s: Selection): Result<Rule> {
    WinningRule(PrecedenceFor(s), s.preference, s.project, s.register, s.domain, s.rule)
  }

  lemma {:induction false} UnknownHasNoMatch(rules: seq<Rule>, word: string)
    requires !Knows(rules, word)
    ensures MatchingRules(rules, word) == []
  {
    if |rules| > 0 {
      assert rules[0] in rules && forall r :: r in rules[1..] ==> r in rules;
      UnknownHasNoMatch(rules[1..], word);
    }
  }

  /** The winner, its level and its rivals are those of the first source that knows the word. */
  lemma WinnerMeaning(inputs: Inputs, word: string) returns (rivals: seq<Rule>)
    ensures var s := SelectionFor(inputs, word);
            var p := PrecedenceFor(s);
            && (p == NoChange <==> Unruled(inputs, word))
            && (p != NoChange ==>
                  && WinnerFor(s).Ok? && Rules(inputs, word, p, WinnerFor(s).value, rivals)
                  && (Ambiguous(MatchingAtPrecedence(inputs, word, p, s.preference)) <==> AtOdds(rivals, word)))
  {
    var s := SelectionFor(inputs, word);
    SelectionMeaning(inputs, word);
    var p := PrecedenceFor(s);
    if s.preference.Some? {
      rivals := [s.preference.value];
      SingleIsNotAtOdds(s.preference.value, word);
    } else if s.project.Some? {
      rivals := inputs.projectGlossary;
      AmbiguousIff(rivals, word);
    } else if s.register.Some? {
      rivals := inputs.registerRules;
      AmbiguousIff(rivals, word);
    } else if s.domain.Some? {
      rivals := inputs.domainGlossary;
      AmbiguousIff(rivals, word);
    } else {
      UnknownHasNoMatch(inputs.projectGlossary, word);
      UnknownHasNoMatch(inputs.registerRules, word);
      UnknownHasNoMatch(inputs.domainGlossary, word);
      AmbiguousIff(inputs.ruleset, word);
      rivals := if p in {UserPreference, ProjectGlossary, RegisterEvidence, DomainGlossary} then []
                else inputs.ruleset;
      BestIsUnique(inputs.ruleset, word);
    }
  }

  lemma SingleIsNotAtOdds(r: Rule, word: string)
    ensures !AtOdds([r], word) && !Ambiguous([r])
  {
  }

  lemma BestIsUnique(rules: seq<Rule>, word: string)
    ensures forall r, s :: IsBest(rules, word, r) && IsBest(rules, word, s) ==> r == s
  {
    forall r, s | IsBest(rules, word, r) && IsBest(rules, word, s) ensures r == s {
      var i: nat :| i < |rules| && rules[i] == r && r.sourceToken == word
                    && (forall x :: x in rules && x.sourceToken == word ==> StrongerEq(r, x))
                    && (forall j :: 0 <= j < i && rules[j].sourceToken == word ==> !StrongerEq(rules[j], r));
      var k: nat :| k < |rules| && rules[k] == s && s.sourceToken == word
                    && (forall x :: x in rules && x.sourceToken == word ==> StrongerEq(s, x))
                    && (forall j :: 0 <= j < k && rules[j].sourceToken == word ==> !StrongerEq(rules[j], s));
      assert i == k;
    }
  }

  // ----- What becomes of the word -----

  function Window(explicit: string, own: string): string { if explicit == "" then own else explicit }

  /** The change the deciding rule makes: safe exactly from the threshold on and from curated rules up. */
  function ChangeBy(inputs: Inputs, token: string, offset: int, p: Precedence, r: Rule, target: string): Change {
    Change("", offset, |token|, token, target, r.ruleId + ":" + r.sense, PrecedenceName(p), r.confidence,
           if r.confidence >= inputs.safeThreshold && p != LicensedResource && p != NoChange then Safe else Proposed,
           r.ruleId, r.sense, inputs.rulesetHash)
  }

  /** What is decided about a token by a rule at a level with these rivals. */
  ghost predicate DecidedBy(inputs: Inputs, text: string, context: Context, token: string, word: string, offset: int,
      p: Precedence, r: Rule, rivals: seq<Rule>, d: Decision)
  {
    if AtOdds(rivals, word) then d == Decline("ambiguous_sense:" + token)
    else
      match inputs.rules.inflect(token, word, r.targetToken)
      case None => d == Decline("inflection_unsupported:" + token)
      case Some(target) =>
        if inputs.rules.collocationPreserved(text, offset, |token|, target,
                                             Window(inputs.leftWindow, context.leftWindow),
                                             Window(inputs.rightWindow, context.rightWindow))
        then d == Propose(ChangeBy(inputs, token, offset, p, r, target))
        else d == Decline("collocation_unsafe:" + token)
  }

  /**
   Past the protection check a word without a rule is declined for that, and any other is decided by the rule of the
   first source that knows it: preference, project, register, domain, ruleset.
   */
  lemma UnprotectedMeaning(inputs: Inputs, text: string, context: Context, token: string, word: string, offset: int)
    returns (p: Precedence, r: Rule, rivals: seq<Rule>)
    ensures var d := DecideUnprotected(inputs, text, context, token, word, offset);
            && (Unruled(inputs, word) ==> d == Decline("precedence_no_change:" + token))
            && (!Unruled(inputs, word) ==>
                  Rules(inputs, word, p, r, rivals)
                  && DecidedBy(inputs, text, context, token, word, offset, p, r, rivals, d))
  {
    var s := SelectionFor(inputs, word);
    rivals := WinnerMeaning(inputs, word);
    p := PrecedenceFor(s);
    if p == NoChange {
      r := Rule("", "", "", "", NoChange, 0.0, "");
    } else {
      r := WinnerFor(s).value;
      RankIsPosition(p);
    }
  }

  // ----- Ambiguity -----

  predicate OtherLevel(p: Precedence) { p in {UserPreference, ProjectGlossary, RegisterEvidence, DomainGlossary} }

  /** The first source that knows the word has rules at odds about it. */
  ghost predicate SourceAtOdds(inputs: Inputs, word: string) {
    && NoPreference(inputs.userPreferences, word)
    && if Knows(inputs.projectGlossary, word) then AtOdds(inputs.projectGlossary, word)
       else if Knows(inputs.registerRules, word) then AtOdds(inputs.registerRules, word)
       else if Knows(inputs.domainGlossary, word) then AtOdds(inputs.domainGlossary, word)
       else AtOdds(inputs.ruleset, word)
  }

  /** Only the ruleset knows the word, and its best rule has the level of one of the other sources. */
  ghost predicate Misplaced(inputs: Inputs, word: string) {
    && NoPreference(inputs.userPreferences, word) && !Knows(inputs.projectGlossary, word)
    && !Knows(inputs.registerRules, word) && !Knows(inputs.domainGlossary, word)
    && exists r :: IsBest(inputs.ruleset, word, r) && OtherLevel(r.precedence)
  }

  /**
   Declined as ambiguous is exactly a word that its source is at odds about, except one that only the ruleset knows
   and whose best rule is labelled as of another source: the code then looks for its rivals there.
   */
  lemma AmbiguousIsDeclinedIff(inputs: Inputs, text: string, context: Context, token: string, word: string,
      offset: int)
    requires !Unruled(inputs, word)
    ensures DecideUnprotected(inputs, text, context, token, word, offset) == Decline("ambiguous_sense:" + token) <==>
            SourceAtOdds(inputs, word) && !Misplaced(inputs, word)
  {
    var p, r, rivals := UnprotectedMeaning(inputs, text, context, token, word, offset);
    BestIsUnique(inputs.ruleset, word);
    SingleIsNotAtOdds(r, word);
    DeclinesDiffer(token);
  }

  lemma DeclinesDiffer(token: string)
    ensures "ambiguous_sense:" + token != "inflection_unsupported:" + token
    ensures "ambiguous_sense:" + token != "collocation_unsafe:" + token
  {
    assert ("ambiguous_sense:" + token)[0] == 'a' && ("inflection_unsupported:" + token)[0] == 'i'
           && ("collocation_unsafe:" + token)[0] == 'c';
  }

  const MIXED: seq<Rule> := [
    Rule("r1", "big", "large", "", DomainGlossary, 1.0, ""),
    Rule("r2", "big", "important", "", DomainGlossary, 1.0, "")]

  /** Such a ruleset: two rules for one word with different targets, and the word is not declined as ambiguous. */
  lemma MixedRulesArePassed(inputs: Inputs, text: string, context: Context, token: string, offset: int)
    requires inputs.ruleset == MIXED && inputs.userPreferences == [] && inputs.projectGlossary == []
    requires inputs.registerRules == [] && inputs.domainGlossary == []
    ensures SourceAtOdds(inputs, "big") && !Unruled(inputs, "big") && Misplaced(inputs, "big")
    ensures DecideUnprotected(inputs, text, context, token, "big", offset) != Decline("ambiguous_sense:" + token)
  {
    assert MIXED[0] in MIXED && MIXED[1] in MIXED;
    assert MIXED[0].sourceToken == "big" == MIXED[1].sourceToken && MIXED[0].targetToken != MIXED[1].targetToken by {
      assert |"large"| != |"important"|;
    }
    FirstIsBest();
    BestIsUnique(MIXED, "big");
    AmbiguousIsDeclinedIff(inputs, text, context, token, "big", offset);
  }

  lemma FirstIsBest()
    ensures IsBest(MIXED, "big", MIXED[0])
  {
    SelectedIsBest(MIXED, "big");
    assert StrongerEq(MIXED[0], MIXED[1]) by {
      LexLeMeaning("r1", "r2");
      assert "r1"[..1] == "r2"[..1] && "r1"[1] < "r2"[1];
    }
    assert StrongerEq(MIXED[0], MIXED[0]) by {
      LexLeMeaning("r1", "r1");
    }
    assert forall x :: x in MIXED ==> x == MIXED[0] || x == MIXED[1];
  }

  /** A token inside or across a protected span, or in a context of one, is skipped; one outside the text raises. */
  lemma DecisionMeaning(inputs: Inputs, text: string, index: seq<string>, context: Context)
    ensures var d := Decide(inputs, text, index, context);
            match MatchSurface(inputs.rules, context, index)
            case None => d == Ignore
            case Some(surface) =>
              var (token, word, offset) := surface;
              if offset < 0 || token == "" || |text| < offset + |token| then d == Raise(ContextOutsideDocument)
              else if context.protectedSpanIds != []
                || exists s :: s in inputs.spans && offset < s.location.end && s.location.start < offset + |token|
              then d == Decline("protected_skip:" + token)
              else d == DecideUnprotected(inputs, text, context, token, word, offset)
  {
  }

  // ----- Which word a context stands for -----

  predicate Alike(rules: TextRules, source: string, core: string) { rules.lower(source) == rules.lower(core) }

  /**
   The core is the -ing or -ed form of the source, which is one word; a final "e" of the source is dropped or kept.
   */
  ghost predicate Inflects(rules: TextRules, source: string, core: string) {
    var l, c := rules.lower(source), rules.lower(core);
    && ' ' !in source
    && if |l| > 0 && l[|l| - 1] == 'e' then c == l[..|l| - 1] + "ing" || c == l[..|l| - 1] + "ed"
       else c == l + "ing" || c == l + "ed"
  }

  ghost predicate OnlyAlike(rules: TextRules, index: seq<string>, core: string, w: string) {
    w in index && Alike(rules, w, core) && forall v :: v in index && Alike(rules, v, core) ==> v == w
  }

  ghost predicate OnlyInflects(rules: TextRules, index: seq<string>, core: string, w: string) {
    w in index && Inflects(rules, w, core) && forall v :: v in index && Inflects(rules, v, core) ==> v == w
  }

  ghost predicate DistinctWords(index: seq<string>) { forall i, j :: 0 <= i < j < |index| ==> index[i] != index[j] }

  lemma {:induction false} SameLowerMeaning(rules: TextRules, index: seq<string>, core: string)
    requires DistinctWords(index)
    ensures var found := SameLower(rules, index, rules.lower(core));
            && DistinctWords(found) && forall w :: w in found <==> w in index && Alike(rules, w, core)
  {
    if |index| > 0 {
      SameLowerMeaning(rules, index[1..], core);
      HeadIsNew(index);
    }
  }

  lemma HeadIsNew(index: seq<string>)
    requires |index| > 0 && DistinctWords(index)
    ensures index[0] !in index[1..] && DistinctWords(index[1..]) && forall w :: w in index
                                                                      <==> w == index[0] || w in index[1..]
  {
    HeadAndTail(index);
  }

  lemma InflectedForm(rules: TextRules, source: string, core: string)
    ensures var l, c := rules.lower(source), rules.lower(core);
            ' ' !in source && (c == IngForm(l) || c == EdForm(l)) <==> Inflects(rules, source, core)
  {
    var l := rules.lower(source);
    if EndsWithE(l) {
      assert l == l[..|l| - 1] + "e" && l + "d" == l[..|l| - 1] + "ed";
    }
  }

  lemma {:induction false} InflectedMeaning(rules: TextRules, index: seq<string>, core: string)
    requires DistinctWords(index)
    ensures var found := InflectedSources(rules, index, rules.lower(core));
            && DistinctWords(found) && forall w :: w in found <==> w in index && Inflects(rules, w, core)
  {
    if |index| > 0 {
      InflectedMeaning(rules, index[1..], core);
      HeadIsNew(index);
      InflectedForm(rules, index[0], core);
    }
  }

  lemma OneElement(found: seq<string>)
    ensures |found| == 1 ==> found == [found[0]]
    ensures forall w :: found == [w] ==> |found| == 1 && found[0] == w
  {
  }

  /**
   The word of a context is the only one that its stripped token equals up to case or, unless exactly one does, the only
   one of which the token is an inflected form; without such a word the context is ignored.
   */
  lemma MatchMeaning(rules: TextRules, context: Context, index: seq<string>)
    requires DistinctWords(index)
    ensures var core := Strip(context.token);
            match MatchSurface(rules, context, index)
            case None =>
              core == "" || forall w :: !OnlyAlike(rules, index, core, w) && !OnlyInflects(rules, index, core, w)
            case Some(surface) =>
              && core != "" && surface.0 == core && surface.2 == context.offset + Find(context.token, core, 0)
              && (OnlyAlike(rules, index, core, surface.1)
                  || (OnlyInflects(rules, index, core, surface.1) && forall w :: !OnlyAlike(rules, index, core, w)))
  {
    var core := Strip(context.token);
    var direct := SameLower(rules, index, rules.lower(core));
    var inflected := InflectedSources(rules, index, rules.lower(core));
    SameLowerMeaning(rules, index, core);
    InflectedMeaning(rules, index, core);
    OneElement(direct);
    OneElement(inflected);
    OnlyIffOne(rules, index, core, direct, inflected);
  }

  lemma OnlyIffOne(rules: TextRules, index: seq<string>, core: string, direct: seq<string>, inflected: seq<string>)
    requires DistinctWords(direct) && forall w :: w in direct <==> w in index && Alike(rules, w, core)
    requires DistinctWords(inflected) && forall w :: w in inflected <==> w in index && Inflects(rules, w, core)
    ensures forall w :: OnlyAlike(rules, index, core, w) <==> direct == [w]
    ensures forall w :: OnlyInflects(rules, index, core, w) <==> inflected == [w]
  {
    forall w ensures OnlyAlike(rules, index, core, w) <==> direct == [w] {
      OnlyElement(direct, w);
    }
    forall w ensures OnlyInflects(rules, index, core, w) <==> inflected == [w] {
      OnlyElement(inflected, w);
    }
  }

  lemma OnlyElement(found: seq<string>, w: string)
    requires DistinctWords(found)
    ensures found == [w] <==> w in found && forall v :: v in found ==> v == w
  {
    assert |found| > 0 ==> found[0] in found;
    assert |found| > 1 ==> found[1] in found && found[0] != found[1];
    assert found == [w] ==> found[0] == w;
    if |found| == 1 && found[0] == w {
      assert found == [w];
    }
  }

  // ----- The known surfaces -----

  lemma {:induction false} DistinctMeaning(s: seq<string>)
    ensures DistinctWords(Distinct(s)) && forall w :: w in Distinct(s) <==> w in s
  {
    if |s| > 0 {
      DistinctMeaning(s[1..]);
      HeadAndTail(s);
      assert forall w :: w in s <==> w == s[0] || w in s[1..];
    }
  }

  lemma {:induction false} TokensAreSources(rules: seq<Rule>, w: string)
    ensures w in SourceTokens(rules) <==> Knows(rules, w)
  {
    if |rules| > 0 {
      TokensAreSources(rules[1..], w);
      assert forall r :: r in rules <==> r == rules[0] || r in rules[1..];
    }
  }

  lemma {:induction false} KeysArePreferred(preferences: seq<(string, string)>, w: string)
    ensures w in Keys(preferences) <==> !NoPreference(preferences, w)
  {
    if |preferences| > 0 {
      KeysArePreferred(preferences[1..], w);
      assert forall j :: 1 <= j < |preferences| ==> preferences[j] == preferences[1..][j - 1];
      if !NoPreference(preferences[1..], w) {
        var k :| 0 <= k < |preferences[1..]| && preferences[1..][k].0 == w;
        assert preferences[k + 1].0 == w;
      }
    }
  }

  /** The known surfaces are the words some source has a rule or a preference for, each once. */
  lemma SurfaceIndexMeaning(inputs: Inputs)
    ensures DistinctWords(SurfaceIndex(inputs))
    ensures forall w :: w in SurfaceIndex(inputs) <==>
              || !NoPreference(inputs.userPreferences, w) || Knows(inputs.ruleset, w)
              || Knows(inputs.projectGlossary, w) || Knows(inputs.registerRules, w) || Knows(inputs.domainGlossary, w)
  {
    DistinctMeaning(Keys(inputs.userPreferences) + SourceTokens(inputs.ruleset) + SourceTokens(inputs.projectGlossary)
                    + SourceTokens(inputs.registerRules) + SourceTokens(inputs.domainGlossary));
    forall w
      ensures w in SurfaceIndex(inputs) <==>
              || !NoPreference(inputs.userPreferences, w) || Knows(inputs.ruleset, w)
              || Knows(inputs.projectGlossary, w) || Knows(inputs.registerRules, w) || Knows(inputs.domainGlossary, w)
    {
      KeysArePreferred(inputs.userPreferences, w);
      TokensAreSources(inputs.ruleset, w);
      TokensAreSources(inputs.projectGlossary, w);
      TokensAreSources(inputs.registerRules, w);
      TokensAreSources(inputs.domainGlossary, w);
    }
  }
}
