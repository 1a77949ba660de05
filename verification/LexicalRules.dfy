/** Lexical rules, their precedence, and the deterministic choice of one rule for a lemma. */
module LexicalRules {
  import opened Wrappers

  datatype Precedence =
    | ProtectedLevel | UserPreference | ProjectGlossary | RegisterEvidence | DomainGlossary | CuratedRule
    | LicensedResource | NoChange

  /** Position in PRECEDENCE_ORDER, strongest first. */
  function Rank(p: Precedence): nat {
    match p
    case ProtectedLevel => 0
    case UserPreference => 1
    case ProjectGlossary => 2
    case RegisterEvidence => 3
    case DomainGlossary => 4
    case CuratedRule => 5
    case LicensedResource => 6
    case NoChange => 7
  }

  function PrecedenceName(p: Precedence): string {
    match p
    case ProtectedLevel => "protected_span"
    case UserPreference => "user_preference"
    case ProjectGlossary => "project_glossary"
    case RegisterEvidence => "register_evidence"
    case DomainGlossary => "domain_glossary"
    case CuratedRule => "curated_rule"
    case LicensedResource => "licensed_resource"
    case NoChange => "no_change"
  }

  /** The level with a name, as a reader of the names finds it. */
  function PrecedenceNamed(name: string): Option<Precedence> {
    if name == "protected_span" then Some(ProtectedLevel)
    else if name == "user_preference" then Some(UserPreference)
    else if name == "project_glossary" then Some(ProjectGlossary)
    else if name == "register_evidence" then Some(RegisterEvidence)
    else if name == "domain_glossary" then Some(DomainGlossary)
    else if name == "curated_rule" then Some(CuratedRule)
    else if name == "licensed_resource" then Some(LicensedResource)
    else if name == "no_change" then Some(NoChange)
    else None
  }

  /** A level is read back from its name. */
  lemma PrecedenceIsNamed(p: Precedence)
    ensures PrecedenceNamed(PrecedenceName(p)) == Some(p)
  {
  }

  datatype Rule = Rule(ruleId: string, sourceToken: string, targetToken: string, sense: string,
                       precedence: Precedence, confidence: real, provenance: string)

  /** Lexicographic order of strings, as Python compares them. */
  predicate LexLe(a: string, b: string) {
    if |a| == 0 then true
    else if |b| == 0 then false
    else a[0] < b[0] || (a[0] == b[0] && LexLe(a[1..], b[1..]))
  }

  /** Equal, a beginning of the other, or smaller at the first character where they differ. */
  ghost predicate Before(a: string, b: string) {
    a <= b || exists k :: 0 <= k < |a| && k < |b| && a[..k] == b[..k] && a[k] < b[k]
  }

  lemma {:induction false} LexLeMeaning(a: string, b: string)
    ensures LexLe(a, b) <==> Before(a, b)
    decreases |a|
  {
    if |a| > 0 && |b| > 0 {
      LexLeMeaning(a[1..], b[1..]);
      if a[0] == b[0] {
        assert a <= b <==> a[1..] <= b[1..];
        if k :| 0 <= k < |a[1..]| && k < |b[1..]| && a[1..][..k] == b[1..][..k] && a[1..][k] < b[1..][k] {
          assert a[..k + 1] == [a[0]] + a[1..][..k] && b[..k + 1] == [b[0]] + b[1..][..k];
          assert a[k + 1] < b[k + 1];
        }
        if k :| 0 <= k < |a| && k < |b| && a[..k] == b[..k] && a[k] < b[k] {
          assert a[1..][..k - 1] == a[..k][1..] && b[1..][..k - 1] == b[..k][1..];
          assert a[1..][k - 1] < b[1..][k - 1];
        }
      } else if a[0] < b[0] {
        assert a[..0] == b[..0];
      } else if k :| 0 <= k < |a| && k < |b| && a[..k] == b[..k] && a[k] < b[k] {
        assert k == 0 || a[..k][0] == b[..k][0];
      }
    }
  }

  lemma {:induction false} LexTotal(a: string, b: string)
    ensures LexLe(a, b) || LexLe(b, a)
    ensures LexLe(a, b) && LexLe(b, a) ==> a == b
    decreases |a|
  {
    if |a| > 0 && |b| > 0 {
      LexTotal(a[1..], b[1..]);
      assert a == [a[0]] + a[1..] && b == [b[0]] + b[1..];
    }
  }

  lemma {:induction false} LexTransitive(a: string, b: string, c: string)
    requires LexLe(a, b) && LexLe(b, c)
    ensures LexLe(a, c)
    decreases |a|
  {
    if |a| > 0 && a[0] == b[0] == c[0] {
      LexTransitive(a[1..], b[1..], c[1..]);
    }
  }

  /** `a` is at least as strong as `b`: by rank, then by rule id. */
  predicate StrongerEq(a: Rule, b: Rule) {
    Rank(a.precedence) < Rank(b.precedence) || (Rank(a.precedence) == Rank(b.precedence) && LexLe(a.ruleId, b.ruleId))
  }

  function MatchingRules(rules: seq<Rule>, word: string): seq<Rule> {
    if |rules| == 0 then []
    else (if rules[0].sourceToken == word then [rules[0]] else []) + MatchingRules(rules[1..], word)
  }

  /** Python's `min`: the first of the strongest. */
  function Strongest(rules: seq<Rule>): Rule
    requires |rules| > 0
  {
    if |rules| == 1 then rules[0]
    else
      var best := Strongest(rules[1..]);
      if StrongerEq(rules[0], best) then rules[0] else best
  }

  function SelectRule(rules: seq<Rule>, word: string): Option<Rule> {
    var matching := MatchingRules(rules, word);
    if |matching| == 0 then None else Some(Strongest(matching))
  }

  lemma {:induction false} MatchingMembers(rules: seq<Rule>, word: string)
    ensures forall r :: r in MatchingRules(rules, word) <==> r in rules && r.sourceToken == word
  {
    if |rules| > 0 {
      MatchingMembers(rules[1..], word);
      assert forall r :: r in rules <==> r == rules[0] || r in rules[1..];
    }
  }

  lemma {:induction false} StrongestIsLeast(rules: seq<Rule>)
    requires |rules| > 0
    ensures Strongest(rules) in rules && forall r :: r in rules ==> StrongerEq(Strongest(rules), r)
  {
    LexTotal(rules[0].ruleId, rules[0].ruleId);
    if |rules| > 1 {
      StrongestIsLeast(rules[1..]);
      var best := Strongest(rules[1..]);
      LexTotal(rules[0].ruleId, best.ruleId);
      forall r | r in rules ensures StrongerEq(Strongest(rules), r) {
        assert r == rules[0] || r in rules[1..];
        if r != rules[0] && StrongerEq(rules[0], best)
          && Rank(rules[0].precedence) == Rank(best.precedence) == Rank(r.precedence)
        {
          LexTransitive(rules[0].ruleId, best.ruleId, r.ruleId);
        }
      }
    }
  }

  /** The selected rule: exists exactly when one matches, matches, and no matching rule is stronger. */
  lemma SelectRuleMeaning(rules: seq<Rule>, word: string)
    ensures SelectRule(rules, word).Some? <==> exists r :: r in rules && r.sourceToken == word
    ensures SelectRule(rules, word).Some? ==>
              var s := SelectRule(rules, word).value;
              s in rules && s.sourceToken == word
              && forall r :: r in rules && r.sourceToken == word ==> StrongerEq(s, r)
  {
    MatchingMembers(rules, word);
    var matching := MatchingRules(rules, word);
    if |matching| > 0 {
      StrongestIsLeast(matching);
      assert matching[0] in matching;
    }
  }

  /** With unique rule ids the choice does not depend on the order of the rules. */
  lemma SelectRuleOrderIndependent(a: seq<Rule>, b: seq<Rule>, word: string)
    requires forall r :: r in a <==> r in b
    requires forall r, s :: r in a && s in a && r.ruleId == s.ruleId ==> r == s
    ensures SelectRule(a, word) == SelectRule(b, word)
  {
    SelectRuleMeaning(a, word);
    SelectRuleMeaning(b, word);
    if SelectRule(a, word).Some? && SelectRule(b, word).Some? {
      LexTotal(SelectRule(a, word).value.ruleId, SelectRule(b, word).value.ruleId);
    }
  }
}
