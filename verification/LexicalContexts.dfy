/** Eligibility contexts: one per whitespace-separated token, plus one per multiword phrase found in the text. */
module LexicalContexts {
  import opened Wrappers
  import opened Sequences
  import opened ProtectedSpans
  import opened LexicalRules

  datatype Context = Context(
    token: string, word: string, offset: int, leftWindow: string, rightWindow: string,
    protectedSpanIds: seq<string>, partOfSpeech: string)
  {
    function End(): int { offset + |token| }
  }

  /** Character classes and string functions of the host language, and the two decision helpers of the pipeline. */
  datatype TextRules = TextRules(
    isSpace: char -> bool,
    isWordChar: char -> bool,
    fold: char -> char,
    lower: string -> string,
    partOfSpeech: string -> string,
    inflect: (string, string, string) -> Option<string>,
    collocationPreserved: (string, int, int, string, string, string) -> bool)

  // ----- build_contexts -----

  function SkipSpaces(rules: TextRules, text: string, i: nat): (j: nat)
    requires i <= |text|
    ensures i <= j <= |text| && (j < |text| ==> !rules.isSpace(text[j]))
    ensures forall k :: i <= k < j ==> rules.isSpace(text[k])
    decreases |text| - i
  {
    if i < |text| && rules.isSpace(text[i]) then SkipSpaces(rules, text, i + 1) else i
  }

  function TokenEnd(rules: TextRules, text: string, i: nat): (j: nat)
    requires i <= |text|
    ensures i <= j <= |text| && (i < |text| && !rules.isSpace(text[i]) ==> i < j)
    ensures forall k :: i <= k < j ==> !rules.isSpace(text[k])
    ensures j < |text| ==> rules.isSpace(text[j])
    decreases |text| - i
  {
    if i < |text| && !rules.isSpace(text[i]) then TokenEnd(rules, text, i + 1) else i
  }

  /** The matches of `\S+` from position `i` on, with their offsets. */
  function Tokens(rules: TextRules, text: string, i: nat): seq<(string, int)>
    requires i <= |text|
    decreases |text| - i
  {
    var start := SkipSpaces(rules, text, i);
    if start == |text| then []
    else
      var end := TokenEnd(rules, text, start);
      [(text[start..end], start)] + Tokens(rules, text, end)
  }

  const WINDOW_SIZE := 3

  function Surfaces(tokens: seq<(string, int)>): seq<string> {
    if |tokens| == 0 then [] else [tokens[0].0] + Surfaces(tokens[1..])
  }

  function Lowered(rules: TextRules, surfaces: seq<string>): seq<string> {
    if |surfaces| == 0 then [] else [rules.lower(surfaces[0])] + Lowered(rules, surfaces[1..])
  }

  function JoinBlank(parts: seq<string>): string {
    if |parts| == 0 then "" else if |parts| == 1 then parts[0] else parts[0] + " " + JoinBlank(parts[1..])
  }

  function CoveringIds(spans: seq<ProtectedSpan>, offset: int): seq<string> {
    if |spans| == 0 then []
    else (if spans[0].location.start <= offset < spans[0].location.end then [spans[0].spanId] else [])
         + CoveringIds(spans[1..], offset)
  }

  function ContextAt(rules: TextRules, tokens: seq<(string, int)>, spans: seq<ProtectedSpan>, index: nat): Context
    requires index < |tokens|
  {
    var from := if index < WINDOW_SIZE then 0 else index - WINDOW_SIZE;
    var to := if |tokens| < index + 1 + WINDOW_SIZE then |tokens| else index + 1 + WINDOW_SIZE;
    var surface, offset := tokens[index].0, tokens[index].1;
    Context(surface, rules.lower(surface), offset, JoinBlank(Lowered(rules, Surfaces(tokens[from..index]))),
            JoinBlank(Surfaces(tokens[index + 1..to])),
            CoveringIds(spans, offset), rules.partOfSpeech(surface))
  }

  /** The context stands where the token does. */
  predicate StandsFor(c: Context, token: (string, int)) { c.token == token.0 && c.offset == token.1 }

  /** One context for each token. */
  function ContextsOf(rules: TextRules, tokens: seq<(string, int)>, spans: seq<ProtectedSpan>): (cs: seq<Context>)
    ensures |cs| == |tokens| && forall k :: 0 <= k < |cs| ==> StandsFor(cs[k], tokens[k])
  {
    seq(|tokens|, k requires 0 <= k < |tokens| => ContextAt(rules, tokens, spans, k))
  }

  function TokenContexts(rules: TextRules, text: string, spans: seq<ProtectedSpan>): seq<Context> {
    ContextsOf(rules, Tokens(rules, text, 0), spans)
  }

  method BuildContexts(rules: TextRules, text: string, spans: seq<ProtectedSpan>) returns (contexts: seq<Context>)
    ensures contexts == TokenContexts(rules, text, spans)
  {
    var tokens := Tokens(rules, text, 0);
    contexts := [];
    for index := 0 to |tokens|
      invariant |contexts| == index
      invariant forall k :: 0 <= k < index ==> contexts[k] == ContextAt(rules, tokens, spans, k)
    {
      contexts := contexts + [ContextAt(rules, tokens, spans, index)];
    }
  }

  // ----- Phrases -----

  /** The phrase, ignoring case, stands at `i` between non-word characters. */
  predicate PhraseAt(rules: TextRules, text: string, source: string, i: nat) {
    && i + |source| <= |text|
    && (i == 0 || !rules.isWordChar(text[i - 1]))
    && (i + |source| == |text| || !rules.isWordChar(text[i + |source|]))
    && forall k :: 0 <= k < |source| ==> rules.fold(text[i + k]) == rules.fold(source[k])
  }

  /** The non-overlapping matches of the phrase from `i` on, left to right. */
  function FindPhrase(rules: TextRules, text: string, source: string, i: nat): seq<(nat, nat)>
    requires |source| > 0
    decreases |text| - i
  {
    if i + |source| > |text| then []
    else if PhraseAt(rules, text, source, i) then [(i, i + |source|)] + FindPhrase(rules, text, source, i + |source|)
    else FindPhrase(rules, text, source, i + 1)
  }

  function OverlappingIds(spans: seq<ProtectedSpan>, start: int, end: int): seq<string> {
    if |spans| == 0 then []
    else (if start < spans[0].location.end && spans[0].location.start < end then [spans[0].spanId] else [])
         + OverlappingIds(spans[1..], start, end)
  }

  function PhraseContext(text: string, source: string, spans: seq<ProtectedSpan>, start: nat, end: nat): Context
    requires start <= end <= |text|
  {
    Context(text[start..end], source, start, text[if start < 40 then 0 else start - 40..start],
            text[end..if end + 40 > |text| then |text| else end + 40], OverlappingIds(spans, start, end), "other")
  }

  predicate Clash(start: int, end: int, c: Context) { start < c.End() && c.offset < end }

  predicate ClashesWithAny(start: int, end: int, cs: seq<Context>) {
    exists k :: 0 <= k < |cs| && Clash(start, end, cs[k])
  }

  /** Phrases kept so far, extended with the matches that clash with none of them. */
  function AddMatches(text: string, source: string, spans: seq<ProtectedSpan>, matches: seq<(nat, nat)>,
      kept: seq<Context>): seq<Context>
    requires forall m :: m in matches ==> m.0 <= m.1 <= |text|
    decreases |matches|
  {
    if |matches| == 0 then kept
    else
      var m := matches[0];
      assert m in matches;
      AddMatches(text, source, spans, matches[1..],
                 if ClashesWithAny(m.0, m.1, kept) then kept else kept + [PhraseContext(text, source, spans, m.0, m.1)])
  }

  lemma {:induction false} MatchesInBounds(rules: TextRules, text: string, source: string, i: nat)
    requires |source| > 0
    ensures forall m :: m in FindPhrase(rules, text, source, i) ==> m.0 < m.1 <= |text|
    decreases |text| - i
  {
    if i + |source| <= |text| {
      if PhraseAt(rules, text, source, i) {
        MatchesInBounds(rules, text, source, i + |source|);
      } else {
        MatchesInBounds(rules, text, source, i + 1);
      }
    }
  }

  function AddSources(rules: TextRules, text: string, spans: seq<ProtectedSpan>, sources: seq<string>,
      kept: seq<Context>): seq<Context>
    requires forall s :: s in sources ==> |s| > 0
    decreases |sources|
  {
    if |sources| == 0 then kept
    else
      MatchesInBounds(rules, text, sources[0], 0);
      AddSources(rules, text, spans, sources[1..],
                 AddMatches(text, sources[0], spans, FindPhrase(rules, text, sources[0], 0), kept))
  }

  // ----- Sorted multiword sources: longest first, then lexicographic -----

  predicate SourceLe(a: string, b: string) { |a| > |b| || (|a| == |b| && LexLe(a, b)) }

  function InsertSource(s: string, sorted: seq<string>): (r: seq<string>)
    ensures forall x :: x in r ==> x == s || x in sorted
  {
    if |sorted| == 0 || SourceLe(s, sorted[0]) then [s] + sorted else [sorted[0]] + InsertSource(s, sorted[1..])
  }

  function MultiwordSources(index: seq<string>): (r: seq<string>)
    ensures forall x :: x in r ==> ' ' in x && |x| > 0
  {
    if |index| == 0 then []
    else if ' ' in index[0] then InsertSource(index[0], MultiwordSources(index[1..]))
    else MultiwordSources(index[1..])
  }

  function Singles(contexts: seq<Context>, phrases: seq<Context>): seq<Context> {
    if |contexts| == 0 then []
    else (if ClashesWithAny(contexts[0].offset, contexts[0].End(), phrases) then [] else [contexts[0]])
         + Singles(contexts[1..], phrases)
  }

  /** The sort key (offset, -length). */
  predicate ContextLe(a: Context, b: Context) {
    a.offset < b.offset || (a.offset == b.offset && |a.token| >= |b.token|)
  }

  function InsertContext(c: Context, sorted: seq<Context>): seq<Context> {
    if |sorted| == 0 || ContextLe(c, sorted[0]) then [c] + sorted else [sorted[0]] + InsertContext(c, sorted[1..])
  }

  function SortContexts(cs: seq<Context>): seq<Context> {
    if |cs| == 0 then [] else InsertContext(cs[0], SortContexts(cs[1..]))
  }

  /** Longest-first phrase contexts and the token contexts that clash with none of them, in text order. */
  function Candidates(rules: TextRules, text: string, contexts: seq<Context>, index: seq<string>,
      spans: seq<ProtectedSpan>): seq<Context>
  {
    var phrases := AddSources(rules, text, spans, MultiwordSources(index), []);
    SortContexts(phrases + Singles(contexts, phrases))
  }

  method ContextsWithMultiwordCandidates(rules: TextRules, text: string, contexts: seq<Context>, index: seq<string>,
      spans: seq<ProtectedSpan>)
    returns (r: seq<Context>)
    ensures r == Candidates(rules, text, contexts, index, spans)
  {
    var phrases := CollectPhrases(rules, text, spans, MultiwordSources(index));
    var singles: seq<Context> := [];
    assert contexts[0..] == contexts;
    for i := 0 to |contexts|
      invariant singles + Singles(contexts[i..], phrases) == Singles(contexts, phrases)
    {
      ghost var rest := contexts[i..];
      assert rest[0] == contexts[i] && rest[1..] == contexts[i + 1..];
      if !ClashesWithAny(contexts[i].offset, contexts[i].End(), phrases) {
        assert singles + ([contexts[i]] + Singles(rest[1..], phrases))
               == singles + [contexts[i]] + Singles(rest[1..], phrases);
        singles := singles + [contexts[i]];
      } else {
        assert [] + Singles(rest[1..], phrases) == Singles(rest[1..], phrases);
      }
    }
    assert singles + [] == singles;
    r := SortContexts(phrases + singles);
  }

  /** The outer loop: every multiword source, longest first. */
  method CollectPhrases(rules: TextRules, text: string, spans: seq<ProtectedSpan>, sources: seq<string>)
    returns (phrases: seq<Context>)
    requires forall s :: s in sources ==> |s| > 0
    ensures phrases == AddSources(rules, text, spans, sources, [])
  {
    phrases := [];
    for i := 0 to |sources|
      invariant AddSources(rules, text, spans, sources[i..], phrases) == AddSources(rules, text, spans, sources, [])
    {
      assert sources[i..][0] == sources[i] && sources[i..][1..] == sources[i + 1..];
      assert sources[i] in sources;
      phrases := AddPhraseMatches(rules, text, sources[i], spans, phrases);
    }
  }

  /** The inner loop: the matches of one phrase. */
  method AddPhraseMatches(rules: TextRules, text: string, source: string, spans: seq<ProtectedSpan>, kept: seq<Context>)
    returns (phrases: seq<Context>)
    requires |source| > 0
    ensures (MatchesInBounds(rules, text, source, 0);
             phrases == AddMatches(text, source, spans, FindPhrase(rules, text, source, 0), kept))
  {
    phrases := kept;
    var matches := FindPhrase(rules, text, source, 0);
    MatchesInBounds(rules, text, source, 0);
    for i := 0 to |matches|
      invariant AddMatches(text, source, spans, matches[i..], phrases) == AddMatches(text, source, spans, matches, kept)
    {
      assert matches[i..][0] == matches[i] && matches[i..][1..] == matches[i + 1..];
      assert matches[i] in matches;
      var (start, end) := matches[i];
      if !ClashesWithAny(start, end, phrases) {
        phrases := phrases + [PhraseContext(text, source, spans, start, end)];
      }
    }
  }

  // ----- Nothing is overlooked -----

  ghost predicate TokenAt(tokens: seq<(string, int)>, p: int) {
    exists t :: t in tokens && t.1 <= p < t.1 + |t.0|
  }

  /** The token stands between blanks or ends of the text. */
  ghost predicate Bounded(rules: TextRules, text: string, t: (string, int)) {
    && 0 <= t.1 <= t.1 + |t.0| <= |text|
    && (t.1 > 0 ==> rules.isSpace(text[t.1 - 1])) && (t.1 + |t.0| < |text| ==> rules.isSpace(text[t.1 + |t.0|]))
  }

  lemma {:induction false} TokensCover(rules: TextRules, text: string, i: nat, p: nat)
    requires i <= p < |text| && !rules.isSpace(text[p])
    ensures TokenAt(Tokens(rules, text, i), p)
    decreases |text| - i
  {
    var start := SkipSpaces(rules, text, i);
    var end := TokenEnd(rules, text, start);
    var head, rest := (text[start..end], start as int), Tokens(rules, text, end);
    assert Tokens(rules, text, i) == [head] + rest;
    if p < end {
      assert head in [head] + rest;
    } else {
      TokensCover(rules, text, end, p);
    }
  }

  lemma {:induction false} TokensAreBounded(rules: TextRules, text: string, i: nat)
    requires i <= |text| && (0 < i < |text| ==> rules.isSpace(text[i]))
    ensures forall t :: t in Tokens(rules, text, i) ==> Bounded(rules, text, t)
    decreases |text| - i
  {
    var start := SkipSpaces(rules, text, i);
    if start < |text| {
      TokensAreBounded(rules, text, TokenEnd(rules, text, start));
    }
  }

  /**
   The contexts are the words of the text: each stands between blanks, and whatever is not blank is in one of them.
   */
  lemma ContextsAreTheWords(rules: TextRules, text: string, spans: seq<ProtectedSpan>)
    ensures forall c :: c in TokenContexts(rules, text, spans) ==> Bounded(rules, text, (c.token, c.offset))
    ensures forall p :: 0 <= p < |text| && !rules.isSpace(text[p]) ==> CoveredAt(TokenContexts(rules, text, spans), p)
  {
    var tokens, contexts := Tokens(rules, text, 0), TokenContexts(rules, text, spans);
    TokensAreBounded(rules, text, 0);
    assert forall k :: 0 <= k < |tokens| ==> StandsFor(contexts[k], tokens[k]) && tokens[k] in tokens;
    forall p | 0 <= p < |text| && !rules.isSpace(text[p]) ensures CoveredAt(contexts, p) {
      TokensCover(rules, text, 0, p);
      TokenIsCovered(tokens, contexts, p);
    }
  }

  lemma TokenIsCovered(tokens: seq<(string, int)>, contexts: seq<Context>, p: int)
    requires |contexts| == |tokens| && forall k :: 0 <= k < |tokens| ==> StandsFor(contexts[k], tokens[k])
    requires TokenAt(tokens, p)
    ensures CoveredAt(contexts, p)
  {
    var t :| t in tokens && t.1 <= p < t.1 + |t.0|;
    var k :| 0 <= k < |tokens| && tokens[k] == t;
    assert contexts[k] in contexts && contexts[k].offset <= p < contexts[k].End();
  }

  ghost predicate CoveredAt(cs: seq<Context>, p: int) { exists c :: c in cs && c.offset <= p < c.End() }

  /** Every occurrence of a phrase starts inside one of its matches. */
  lemma {:induction false} OccurrenceIsFound(rules: TextRules, text: string, source: string, i: nat, p: nat)
    returns (m: (nat, nat))
    requires |source| > 0 && i <= p && PhraseAt(rules, text, source, p)
    ensures m in FindPhrase(rules, text, source, i) && m.0 <= p < m.1
    decreases |text| - i
  {
    var later := i + |source|;
    if PhraseAt(rules, text, source, i) {
      m := (i, later);
      if later <= p {
        m := OccurrenceIsFound(rules, text, source, later, p);
      }
    } else {
      m := OccurrenceIsFound(rules, text, source, i + 1, p);
    }
  }

  /** A phrase of at least `n` characters overlaps the range. */
  ghost predicate ClashesWithLong(start: int, end: int, n: nat, cs: seq<Context>) {
    exists k :: 0 <= k < |cs| && Clash(start, end, cs[k]) && |cs[k].token| >= n
  }

  ghost predicate AllLong(n: nat, cs: seq<Context>) { forall k :: 0 <= k < |cs| ==> |cs[k].token| >= n }

  lemma ClashStays(start: int, end: int, n: nat, kept: seq<Context>, more: seq<Context>)
    requires ClashesWithLong(start, end, n, kept) && kept <= more
    ensures ClashesWithLong(start, end, n, more)
  {
    var k :| 0 <= k < |kept| && Clash(start, end, kept[k]) && |kept[k].token| >= n;
    assert more[k] == kept[k];
  }

  lemma ClashIsLong(start: int, end: int, n: nat, kept: seq<Context>)
    requires ClashesWithAny(start, end, kept) && AllLong(n, kept)
    ensures ClashesWithLong(start, end, n, kept)
  {
  }

  /** Each match is among the phrases afterwards or overlaps one at least as long; nothing kept before is lost. */
  lemma {:induction false} MatchesAnswered(text: string, source: string, spans: seq<ProtectedSpan>,
      matches: seq<(nat, nat)>, kept: seq<Context>)
    requires forall m :: m in matches ==> m.0 < m.1 <= |text| && m.1 - m.0 == |source|
    requires AllLong(|source|, kept)
    ensures var all := AddMatches(text, source, spans, matches, kept);
            && kept <= all && AllLong(|source|, all)
            && forall m :: m in matches ==> ClashesWithLong(m.0, m.1, |source|, all)
    decreases |matches|
  {
    if |matches| > 0 {
      var m, p := matches[0], PhraseContext(text, source, spans, matches[0].0, matches[0].1);
      assert m in matches && forall x :: x in matches <==> x == m || x in matches[1..];
      var next := if ClashesWithAny(m.0, m.1, kept) then kept else kept + [p];
      if ClashesWithAny(m.0, m.1, kept) {
        ClashIsLong(m.0, m.1, |source|, kept);
      } else {
        assert next[|kept|] == p && Clash(m.0, m.1, p);
      }
      MatchesAnswered(text, source, spans, matches[1..], next);
      ClashStays(m.0, m.1, |source|, next, AddMatches(text, source, spans, matches, kept));
    }
  }

  lemma {:induction false} MatchesAreAsLong(rules: TextRules, text: string, source: string, i: nat)
    requires |source| > 0
    ensures forall m :: m in FindPhrase(rules, text, source, i) ==> m.0 < m.1 <= |text| && m.1 - m.0 == |source|
    decreases |text| - i
  {
    if i + |source| <= |text| {
      if PhraseAt(rules, text, source, i) {
        MatchesAreAsLong(rules, text, source, i + |source|);
      } else {
        MatchesAreAsLong(rules, text, source, i + 1);
      }
    }
  }

  /** Longest first. */
  ghost predicate LengthsDescend(sources: seq<string>) {
    forall i, j :: 0 <= i < j < |sources| ==> |sources[i]| >= |sources[j]|
  }

  lemma {:induction false} SourcesAnswered(rules: TextRules, text: string, spans: seq<ProtectedSpan>,
      sources: seq<string>, kept: seq<Context>, source: string, m: (nat, nat))
    requires (forall s :: s in sources ==> |s| > 0) && LengthsDescend(sources)
    requires |sources| > 0 ==> AllLong(|sources[0]|, kept)
    requires source in sources ==> m in FindPhrase(rules, text, source, 0)
    ensures kept <= AddSources(rules, text, spans, sources, kept)
    ensures source in sources ==> ClashesWithLong(m.0, m.1, |source|, AddSources(rules, text, spans, sources, kept))
    decreases |sources|
  {
    if |sources| > 0 {
      MatchesInBounds(rules, text, sources[0], 0);
      MatchesAreAsLong(rules, text, sources[0], 0);
      var matches := FindPhrase(rules, text, sources[0], 0);
      var next := AddMatches(text, sources[0], spans, matches, kept);
      MatchesAnswered(text, sources[0], spans, matches, kept);
      if |sources| > 1 {
        assert sources[1..][0] == sources[1] && |sources[0]| >= |sources[1]|;
      }
      SourcesAnswered(rules, text, spans, sources[1..], next, source, m);
      if source == sources[0] {
        ClashStays(m.0, m.1, |source|, next, AddSources(rules, text, spans, sources, kept));
      }
    }
  }

  lemma {:induction false} InsertSourceDescends(s: string, sorted: seq<string>)
    requires LengthsDescend(sorted)
    ensures LengthsDescend(InsertSource(s, sorted))
  {
    if |sorted| > 0 && !SourceLe(s, sorted[0]) {
      InsertSourceDescends(s, sorted[1..]);
      var rest := InsertSource(s, sorted[1..]);
      forall j | 0 <= j < |rest| ensures |sorted[0]| >= |rest[j]| {
        assert rest[j] in rest;
      }
    }
  }

  lemma {:induction false} MultiwordSourcesDescend(index: seq<string>)
    ensures LengthsDescend(MultiwordSources(index))
  {
    if |index| > 0 {
      MultiwordSourcesDescend(index[1..]);
      if ' ' in index[0] {
        InsertSourceDescends(index[0], MultiwordSources(index[1..]));
      }
    }
  }

  lemma {:induction false} MultiwordIsListed(index: seq<string>, source: string)
    requires source in index && ' ' in source
    ensures source in MultiwordSources(index)
  {
    if index[0] == source {
      InsertedIsListed(source, MultiwordSources(index[1..]), source);
    } else {
      MultiwordIsListed(index[1..], source);
      if ' ' in index[0] {
        InsertedIsListed(index[0], MultiwordSources(index[1..]), source);
      }
    }
  }

  lemma {:induction false} InsertedIsListed(s: string, sorted: seq<string>, x: string)
    requires x == s || x in sorted
    ensures x in InsertSource(s, sorted)
  {
    if |sorted| > 0 && !SourceLe(s, sorted[0]) && x != sorted[0] {
      InsertedIsListed(s, sorted[1..], x);
    }
  }

  /**
   Every occurrence of a multiword phrase of the ruleset starts inside a match that is itself a candidate or overlaps a
   candidate phrase that is at least as long.
   */
  lemma OccurrenceIsAnswered(rules: TextRules, text: string, contexts: seq<Context>, index: seq<string>,
      spans: seq<ProtectedSpan>, source: string, p: nat)
    returns (m: (nat, nat), c: Context)
    requires source in index && ' ' in source && PhraseAt(rules, text, source, p)
    ensures m in FindPhrase(rules, text, source, 0) && m.0 <= p < m.1
    ensures c in Candidates(rules, text, contexts, index, spans) && Clash(m.0, m.1, c) && |c.token| >= |source|
    ensures c in AddSources(rules, text, spans, MultiwordSources(index), [])
  {
    m := OccurrenceIsFound(rules, text, source, 0, p);
    MultiwordIsListed(index, source);
    MultiwordSourcesDescend(index);
    var phrases := AddSources(rules, text, spans, MultiwordSources(index), []);
    SourcesAnswered(rules, text, spans, MultiwordSources(index), [], source, m);
    var k :| 0 <= k < |phrases| && Clash(m.0, m.1, phrases[k]) && |phrases[k].token| >= |source|;
    c := phrases[k];
    SortContextsMembers(phrases + Singles(contexts, phrases));
  }

  // ----- Candidates are disjoint slices of the text, in order -----

  /** A non-empty exact slice of the text. */
  ghost predicate IsSlice(text: string, c: Context) {
    0 <= c.offset < c.End() <= |text| && text[c.offset..c.End()] == c.token
  }

  ghost predicate AllSlices(text: string, cs: seq<Context>) { forall c :: c in cs ==> IsSlice(text, c) }

  ghost predicate PairwiseDisjoint(cs: seq<Context>) {
    forall i, j :: 0 <= i < j < |cs| ==> cs[i].End() <= cs[j].offset || cs[j].End() <= cs[i].offset
  }

  ghost predicate InOrder(cs: seq<Context>) {
    forall i, j :: 0 <= i < j < |cs| ==> cs[i].End() <= cs[j].offset
  }

  ghost predicate TokenSlice(text: string, from: nat, t: (string, int)) {
    from <= t.1 < t.1 + |t.0| <= |text| && text[t.1..t.1 + |t.0|] == t.0
  }

  ghost predicate TokenOrder(text: string, from: nat, ts: seq<(string, int)>) {
    && (forall k :: 0 <= k < |ts| ==> TokenSlice(text, from, ts[k]))
    && (forall k, l :: 0 <= k < l < |ts| ==> ts[k].1 + |ts[k].0| <= ts[l].1)
  }

  lemma {:induction false} TokensInOrder(rules: TextRules, text: string, i: nat)
    requires i <= |text|
    ensures TokenOrder(text, i, Tokens(rules, text, i))
    decreases |text| - i
  {
    var start := SkipSpaces(rules, text, i);
    if start < |text| {
      var end := TokenEnd(rules, text, start);
      TokensInOrder(rules, text, end);
      PrependToken(text, i, start, end, Tokens(rules, text, end));
    }
  }

  lemma PrependToken(text: string, i: nat, start: nat, end: nat, rest: seq<(string, int)>)
    requires i <= start < end <= |text| && TokenOrder(text, end, rest)
    ensures TokenOrder(text, i, [(text[start..end], start as int)] + rest)
  {
    assert forall k :: 0 <= k < |rest| ==> TokenSlice(text, end, rest[k]);
  }

  lemma {:induction false} MatchesKept(text: string, source: string, spans: seq<ProtectedSpan>,
      matches: seq<(nat, nat)>, kept: seq<Context>)
    requires forall m :: m in matches ==> m.0 < m.1 <= |text|
    requires AllSlices(text, kept) && PairwiseDisjoint(kept)
    ensures AllSlices(text, AddMatches(text, source, spans, matches, kept))
    ensures PairwiseDisjoint(AddMatches(text, source, spans, matches, kept))
    decreases |matches|
  {
    if |matches| > 0 {
      var m := matches[0];
      assert m in matches;
      if ClashesWithAny(m.0, m.1, kept) {
        MatchesKept(text, source, spans, matches[1..], kept);
      } else {
        var p := PhraseContext(text, source, spans, m.0, m.1);
        assert forall k :: 0 <= k < |kept| ==> !Clash(m.0, m.1, kept[k]);
        assert forall c :: c in kept + [p] ==> c in kept || c == p;
        MatchesKept(text, source, spans, matches[1..], kept + [p]);
      }
    }
  }

  lemma {:induction false} PhrasesDisjoint(rules: TextRules, text: string, spans: seq<ProtectedSpan>,
      sources: seq<string>, kept: seq<Context>)
    requires forall s :: s in sources ==> |s| > 0
    requires AllSlices(text, kept) && PairwiseDisjoint(kept)
    ensures AllSlices(text, AddSources(rules, text, spans, sources, kept))
    ensures PairwiseDisjoint(AddSources(rules, text, spans, sources, kept))
    decreases |sources|
  {
    if |sources| > 0 {
      var matches := FindPhrase(rules, text, sources[0], 0);
      MatchesInBounds(rules, text, sources[0], 0);
      MatchesKept(text, sources[0], spans, matches, kept);
      PhrasesDisjoint(rules, text, spans, sources[1..], AddMatches(text, sources[0], spans, matches, kept));
    }
  }

  lemma TailInOrder(cs: seq<Context>)
    requires InOrder(cs) && |cs| > 0
    ensures InOrder(cs[1..]) && forall x :: x in cs[1..] ==> cs[0].End() <= x.offset
  {
  }

  lemma HeadInOrder(c: Context, rest: seq<Context>)
    requires InOrder(rest) && forall x :: x in rest ==> c.End() <= x.offset
    ensures InOrder([c] + rest)
  {
    assert forall k :: 0 <= k < |rest| ==> rest[k] in rest;
  }

  lemma {:induction false} SinglesKept(contexts: seq<Context>, phrases: seq<Context>)
    requires InOrder(contexts)
    ensures InOrder(Singles(contexts, phrases))
    ensures forall c :: c in Singles(contexts, phrases) ==> c in contexts && !ClashesWithAny(c.offset, c.End(), phrases)
    decreases |contexts|
  {
    if |contexts| > 0 {
      TailInOrder(contexts);
      SinglesKept(contexts[1..], phrases);
      HeadInOrder(contexts[0], Singles(contexts[1..], phrases));
    }
  }

  lemma {:induction false} InsertContextMembers(c: Context, sorted: seq<Context>)
    ensures forall x :: x in InsertContext(c, sorted) <==> x == c || x in sorted
  {
    if |sorted| > 0 && !ContextLe(c, sorted[0]) {
      InsertContextMembers(c, sorted[1..]);
      assert forall x :: x in sorted <==> x == sorted[0] || x in sorted[1..];
    }
  }

  /** Inserting a slice disjoint from all of an ordered list of slices keeps it ordered. */
  lemma {:induction false} InsertContextInOrder(text: string, c: Context, sorted: seq<Context>)
    requires IsSlice(text, c) && AllSlices(text, sorted) && InOrder(sorted)
    requires forall x :: x in sorted ==> c.End() <= x.offset || x.End() <= c.offset
    ensures InOrder(InsertContext(c, sorted))
  {
    if |sorted| > 0 {
      TailInOrder(sorted);
      assert sorted[0] in sorted && forall x :: x in sorted[1..] ==> x in sorted;
      assert forall x :: x in sorted <==> x == sorted[0] || x in sorted[1..];
      if ContextLe(c, sorted[0]) {
        HeadInOrder(c, sorted);
      } else {
        InsertContextInOrder(text, c, sorted[1..]);
        InsertContextMembers(c, sorted[1..]);
        HeadInOrder(sorted[0], InsertContext(c, sorted[1..]));
      }
    }
  }

  lemma {:induction false} SortContextsMembers(cs: seq<Context>)
    ensures forall x :: x in SortContexts(cs) <==> x in cs
  {
    if |cs| > 0 {
      SortContextsMembers(cs[1..]);
      InsertContextMembers(cs[0], SortContexts(cs[1..]));
      assert forall x :: x in cs <==> x == cs[0] || x in cs[1..];
    }
  }

  lemma {:induction false} SortContextsInOrder(text: string, cs: seq<Context>)
    requires AllSlices(text, cs) && PairwiseDisjoint(cs)
    ensures InOrder(SortContexts(cs))
    decreases |cs|
  {
    if |cs| > 0 {
      assert forall i :: 0 <= i < |cs| - 1 ==> cs[1..][i] == cs[i + 1];
      SortContextsInOrder(text, cs[1..]);
      SortContextsMembers(cs[1..]);
      forall x | x in cs[1..] ensures cs[0].End() <= x.offset || x.End() <= cs[0].offset {
        var i :| 0 <= i < |cs| - 1 && cs[1..][i] == x;
        assert cs[i + 1] == x;
      }
      InsertContextInOrder(text, cs[0], SortContexts(cs[1..]));
    }
  }

  /** Over the text's own token contexts, the candidates are exact, non-empty, disjoint slices in text order. */
  lemma CandidatesInOrder(rules: TextRules, text: string, index: seq<string>, spans: seq<ProtectedSpan>)
    ensures var cs := Candidates(rules, text, TokenContexts(rules, text, spans), index, spans);
            InOrder(cs) && AllSlices(text, cs)
  {
    var contexts := TokenContexts(rules, text, spans);
    TokenContextsInOrder(rules, text, spans);
    var sources := MultiwordSources(index);
    PhrasesDisjoint(rules, text, spans, sources, []);
    var phrases := AddSources(rules, text, spans, sources, []);
    PhrasesAndSingles(text, contexts, phrases);
    SortContextsInOrder(text, phrases + Singles(contexts, phrases));
    SortContextsMembers(phrases + Singles(contexts, phrases));
  }

  lemma TokenContextsInOrder(rules: TextRules, text: string, spans: seq<ProtectedSpan>)
    ensures InOrder(TokenContexts(rules, text, spans)) && AllSlices(text, TokenContexts(rules, text, spans))
  {
    TokensInOrder(rules, text, 0);
    var tokens, contexts := Tokens(rules, text, 0), TokenContexts(rules, text, spans);
    TokensToContexts(text, tokens, contexts);
  }

  lemma TokensToContexts(text: string, tokens: seq<(string, int)>, contexts: seq<Context>)
    requires TokenOrder(text, 0, tokens) && |contexts| == |tokens|
    requires forall k :: 0 <= k < |tokens| ==> StandsFor(contexts[k], tokens[k])
    ensures InOrder(contexts) && AllSlices(text, contexts)
  {
    forall k | 0 <= k < |contexts| ensures IsSlice(text, contexts[k]) {
      assert TokenSlice(text, 0, tokens[k]);
    }
  }

  lemma PhrasesAndSingles(text: string, contexts: seq<Context>, phrases: seq<Context>)
    requires InOrder(contexts) && AllSlices(text, contexts) && AllSlices(text, phrases) && PairwiseDisjoint(phrases)
    ensures PairwiseDisjoint(phrases + Singles(contexts, phrases))
            && AllSlices(text, phrases + Singles(contexts, phrases))
  {
    SinglesKept(contexts, phrases);
    var singles := Singles(contexts, phrases);
    forall i, j | 0 <= i < |phrases| && 0 <= j < |singles|
      ensures phrases[i].End() <= singles[j].offset || singles[j].End() <= phrases[i].offset
    {
      assert singles[j] in singles;
      assert !Clash(singles[j].offset, singles[j].End(), phrases[i]);
    }
  }

  lemma {:induction false} SinglesComplete(contexts: seq<Context>, phrases: seq<Context>, c: Context)
    requires c in contexts && !ClashesWithAny(c.offset, c.End(), phrases)
    ensures c in Singles(contexts, phrases)
  {
    if c != contexts[0] {
      SinglesComplete(contexts[1..], phrases, c);
    }
  }

  /** No token is lost: each context is a candidate, unless a phrase that is a candidate covers part of it. */
  lemma ContextsAreCovered(rules: TextRules, text: string, contexts: seq<Context>, index: seq<string>,
      spans: seq<ProtectedSpan>, c: Context)
    requires c in contexts
    ensures var cs := Candidates(rules, text, contexts, index, spans);
            c in cs || exists p :: p in cs && Clash(c.offset, c.End(), p)
  {
    var phrases := AddSources(rules, text, spans, MultiwordSources(index), []);
    SortContextsMembers(phrases + Singles(contexts, phrases));
    if ClashesWithAny(c.offset, c.End(), phrases) {
      var k :| 0 <= k < |phrases| && Clash(c.offset, c.End(), phrases[k]);
      assert phrases[k] in phrases + Singles(contexts, phrases);
    } else {
      SinglesComplete(contexts, phrases, c);
    }
  }
}
