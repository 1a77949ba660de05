/** What contexts and candidate phrases carry: their windows, the protected spans over them, and where phrases occur. */
module ContextWindows {
  import opened Sequences
  import opened LexicalRules
  import opened LexicalContexts
  import opened ProtectedSpans

  // ----- Token contexts -----

  lemma {:induction false} SurfacesAt(tokens: seq<(string, int)>)
    ensures |Surfaces(tokens)| == |tokens| && forall i :: 0 <= i < |tokens| ==> Surfaces(tokens)[i] == tokens[i].0
  {
    if |tokens| > 0 {
      SurfacesAt(tokens[1..]);
    }
  }

  lemma {:induction false} LoweredAt(rules: TextRules, surfaces: seq<string>)
    ensures |Lowered(rules, surfaces)| == |surfaces|
    ensures forall i :: 0 <= i < |surfaces| ==> Lowered(rules, surfaces)[i] == rules.lower(surfaces[i])
  {
    if |surfaces| > 0 {
      LoweredAt(rules, surfaces[1..]);
    }
  }

  /** Up to three words with a blank between any two. */
  ghost predicate Spaced(s: string, words: seq<string>) {
    && (words == [] ==> s == "")
    && (|words| == 1 ==> s == words[0])
    && (|words| == 2 ==> s == words[0] + (" " + words[1]))
    && (|words| == 3 ==> s == words[0] + (" " + (words[1] + (" " + words[2]))))
  }

  lemma {:induction false} JoinedIsSpaced(words: seq<string>)
    requires |words| <= 3
    ensures Spaced(JoinBlank(words), words)
  {
    if |words| == 3 {
      assert words[1..] == [words[1], words[2]];
      JoinedTwo(words[1], words[2]);
      assert JoinBlank(words) == words[0] + " " + JoinBlank([words[1], words[2]]);
    } else if |words| == 2 {
      assert words == [words[0], words[1]];
      JoinedTwo(words[0], words[1]);
    }
  }

  lemma {:induction false} JoinedTwo(a: string, b: string)
    ensures JoinBlank([a, b]) == a + (" " + b)
  {
    assert [a, b][1..] == [b];
    assert JoinBlank([a, b]) == a + " " + b;
  }

  /** The last three words of a list, or all of fewer. */
  ghost predicate LastWords(words: seq<string>, all: seq<string>) {
    |words| == (if |all| < 3 then |all| else 3) && words == all[|all| - |words|..]
  }

  ghost predicate FirstWords(words: seq<string>, all: seq<string>) {
    |words| == (if |all| < 3 then |all| else 3) && words == all[..|words|]
  }

  lemma {:induction false} CoveringMeaning(spans: seq<ProtectedSpan>, offset: int, id: string)
    ensures id in CoveringIds(spans, offset) <==>
            exists s :: s in spans && s.spanId == id && s.location.start <= offset < s.location.end
  {
    if |spans| > 0 {
      CoveringMeaning(spans[1..], offset, id);
      assert forall s :: s in spans <==> s == spans[0] || s in spans[1..];
    }
  }

  lemma LeftWords(rules: TextRules, tokens: seq<(string, int)>, k: nat) returns (left: seq<string>)
    requires k <= |tokens|
    ensures left == Lowered(rules, Surfaces(tokens[if k < 3 then 0 else k - 3..k]))
    ensures LastWords(left, Lowered(rules, Surfaces(tokens[..k])))
  {
    var from := if k < 3 then 0 else k - 3;
    left := Lowered(rules, Surfaces(tokens[from..k]));
    SurfacesAt(tokens[from..k]);
    SurfacesAt(tokens[..k]);
    LoweredAt(rules, Surfaces(tokens[from..k]));
    LoweredAt(rules, Surfaces(tokens[..k]));
  }

  lemma RightWords(tokens: seq<(string, int)>, k: nat) returns (right: seq<string>)
    requires k < |tokens|
    ensures right == Surfaces(tokens[k + 1..if |tokens| < k + 4 then |tokens| else k + 4])
    ensures FirstWords(right, Surfaces(tokens[k + 1..]))
  {
    var to := if |tokens| < k + 4 then |tokens| else k + 4;
    right := Surfaces(tokens[k + 1..to]);
    SurfacesAt(tokens[k + 1..to]);
    SurfacesAt(tokens[k + 1..]);
  }

  lemma WindowsAt(rules: TextRules, tokens: seq<(string, int)>, spans: seq<ProtectedSpan>, k: nat)
    returns (left: seq<string>, right: seq<string>)
    requires k < |tokens|
    ensures LastWords(left, Lowered(rules, Surfaces(tokens[..k]))) && FirstWords(right, Surfaces(tokens[k + 1..]))
    ensures Spaced(ContextAt(rules, tokens, spans, k).leftWindow, left)
    ensures Spaced(ContextAt(rules, tokens, spans, k).rightWindow, right)
  {
    left := LeftWords(rules, tokens, k);
    right := RightWords(tokens, k);
    JoinedIsSpaced(left);
    JoinedIsSpaced(right);
  }

  ghost predicate NamesCovering(spans: seq<ProtectedSpan>, offset: int, ids: seq<string>) {
    forall id :: id in ids <==>
      exists s :: s in spans && s.spanId == id && s.location.start <= offset < s.location.end
  }

  lemma CoveringAll(spans: seq<ProtectedSpan>, offset: int)
    ensures NamesCovering(spans, offset, CoveringIds(spans, offset))
  {
    forall id
      ensures id in CoveringIds(spans, offset) <==>
              exists s :: s in spans && s.spanId == id && s.location.start <= offset < s.location.end
    {
      CoveringMeaning(spans, offset, id);
    }
  }

  /**
   The context of a token: its lowered form and part of speech, up to three lowered tokens to its left, up to three as
   they are to its right, and the protected spans that cover its first character.
   */
  ghost predicate ContextReads(rules: TextRules, tokens: seq<(string, int)>, spans: seq<ProtectedSpan>, k: nat,
      c: Context, left: seq<string>, right: seq<string>)
    requires k < |tokens|
  {
    && c.token == tokens[k].0 && c.offset == tokens[k].1
    && c.word == rules.lower(c.token) && c.partOfSpeech == rules.partOfSpeech(c.token)
    && LastWords(left, Lowered(rules, Surfaces(tokens[..k]))) && Spaced(c.leftWindow, left)
    && FirstWords(right, Surfaces(tokens[k + 1..])) && Spaced(c.rightWindow, right)
    && NamesCovering(spans, c.offset, c.protectedSpanIds)
  }

  lemma ContextAtReads(rules: TextRules, tokens: seq<(string, int)>, spans: seq<ProtectedSpan>, k: nat)
    returns (left: seq<string>, right: seq<string>)
    requires k < |tokens|
    ensures ContextReads(rules, tokens, spans, k, ContextAt(rules, tokens, spans, k), left, right)
  {
    left, right := WindowsAt(rules, tokens, spans, k);
    CoveringAll(spans, tokens[k].1);
  }

  /** Each context of a text reads its surroundings. */
  lemma ContextMeaning(rules: TextRules, tokens: seq<(string, int)>, spans: seq<ProtectedSpan>, k: nat)
    returns (left: seq<string>, right: seq<string>)
    requires k < |tokens|
    ensures |ContextsOf(rules, tokens, spans)| == |tokens|
    ensures ContextReads(rules, tokens, spans, k, ContextsOf(rules, tokens, spans)[k], left, right)
  {
    left, right := ContextAtReads(rules, tokens, spans, k);
  }

  // ----- Phrases -----

  function Folded(rules: TextRules, s: string): string {
    if |s| == 0 then "" else [rules.fold(s[0])] + Folded(rules, s[1..])
  }

  lemma {:induction false} FoldedAt(rules: TextRules, s: string)
    ensures |Folded(rules, s)| == |s| && forall k :: 0 <= k < |s| ==> Folded(rules, s)[k] == rules.fold(s[k])
  {
    if |s| > 0 {
      FoldedAt(rules, s[1..]);
    }
  }

  lemma FoldedAlike(rules: TextRules, a: string, b: string)
    requires |a| == |b|
    ensures Folded(rules, a) == Folded(rules, b) <==> forall k :: 0 <= k < |a| ==> rules.fold(a[k]) == rules.fold(b[k])
  {
    FoldedAt(rules, a);
    FoldedAt(rules, b);
    if Folded(rules, a) == Folded(rules, b) {
      forall k | 0 <= k < |a| ensures rules.fold(a[k]) == rules.fold(b[k]) {
        assert Folded(rules, a)[k] == Folded(rules, b)[k];
      }
    }
  }

  /** The text has the phrase at a position, up to the folding of characters, as a whole word. */
  ghost predicate Occurs(rules: TextRules, text: string, source: string, before: string, found: string, after: string)
  {
    && text == before + (found + after) && Folded(rules, found) == Folded(rules, source)
    && (before != "" ==> !rules.isWordChar(before[|before| - 1])) && (after != "" ==> !rules.isWordChar(after[0]))
  }

  lemma ReadsFound(text: string, before: string, found: string, after: string)
    requires text == before + (found + after)
    ensures forall k :: 0 <= k < |found| ==> text[|before| + k] == found[k]
    ensures before != "" ==> text[|before| - 1] == before[|before| - 1]
    ensures after != "" ==> text[|before| + |found|] == after[0]
  {
  }

  lemma FoundFolds(rules: TextRules, text: string, source: string, before: string, found: string, after: string)
    requires text == before + (found + after) && |found| == |source|
    ensures var p := |before|;
            p + |source| <= |text|
            && ((forall k :: 0 <= k < |source| ==> rules.fold(text[p + k]) == rules.fold(source[k])) <==>
                Folded(rules, found) == Folded(rules, source))
  {
    ReadsFound(text, before, found, after);
    FoldedAlike(rules, found, source);
  }

  lemma WholeWordIff(rules: TextRules, text: string, before: string, found: string, after: string)
    requires text == before + (found + after)
    ensures var p, end := |before|, |before| + |found|;
            && ((p == 0 || !rules.isWordChar(text[p - 1])) <==>
                (before != "" ==> !rules.isWordChar(before[|before| - 1])))
            && end <= |text|
            && ((end == |text| || !rules.isWordChar(text[end])) <==> (after != "" ==> !rules.isWordChar(after[0])))
  {
    ReadsFound(text, before, found, after);
  }

  /** A match is an occurrence that starts where the text before it ends. */
  lemma OccursIff(rules: TextRules, text: string, source: string, before: string, found: string, after: string)
    requires text == before + (found + after) && |found| == |source|
    ensures PhraseAt(rules, text, source, |before|) <==> Occurs(rules, text, source, before, found, after)
  {
    FoundFolds(rules, text, source, before, found, after);
    WholeWordIff(rules, text, before, found, after);
  }

  lemma {:induction false} OverlappingMeaning(spans: seq<ProtectedSpan>, start: int, end: int, id: string)
    ensures id in OverlappingIds(spans, start, end) <==>
            exists s :: s in spans && s.spanId == id && start < s.location.end && s.location.start < end
  {
    if |spans| > 0 {
      OverlappingMeaning(spans[1..], start, end, id);
      assert forall s :: s in spans <==> s == spans[0] || s in spans[1..];
    }
  }

  /** Forty characters to each side of the context, or as many as there are. */
  ghost predicate WideWindows(text: string, c: Context) {
    && 0 <= c.offset <= c.End() <= |text|
    && |c.leftWindow| == (if c.offset < 40 then c.offset else 40)
    && text[c.offset - |c.leftWindow|..c.offset] == c.leftWindow
    && |c.rightWindow| == (if |text| - c.End() < 40 then |text| - c.End() else 40)
    && text[c.End()..c.End() + |c.rightWindow|] == c.rightWindow
  }

  ghost predicate NamesOverlapping(spans: seq<ProtectedSpan>, start: int, end: int, ids: seq<string>) {
    forall id :: id in ids <==>
      exists s :: s in spans && s.spanId == id && start < s.location.end && s.location.start < end
  }

  /** A candidate phrase: an occurrence of a source, with its surroundings and the spans over it. */
  ghost predicate PhraseReads(rules: TextRules, text: string, spans: seq<ProtectedSpan>, source: string, c: Context) {
    && WideWindows(text, c) && c.word == source && c.partOfSpeech == "other"
    && Occurs(rules, text, source, text[..c.offset], c.token, text[c.End()..])
    && NamesOverlapping(spans, c.offset, c.End(), c.protectedSpanIds)
  }

  lemma OverlappingAll(spans: seq<ProtectedSpan>, start: int, end: int)
    ensures NamesOverlapping(spans, start, end, OverlappingIds(spans, start, end))
  {
    forall id
      ensures id in OverlappingIds(spans, start, end) <==>
              exists s :: s in spans && s.spanId == id && start < s.location.end && s.location.start < end
    {
      OverlappingMeaning(spans, start, end, id);
    }
  }

  lemma PhraseWindows(text: string, source: string, spans: seq<ProtectedSpan>, start: nat, end: nat)
    requires start <= end <= |text|
    ensures WideWindows(text, PhraseContext(text, source, spans, start, end))
    ensures PhraseContext(text, source, spans, start, end).End() == end
  {
  }

  lemma MatchOccurs(rules: TextRules, text: string, source: string, start: nat, end: nat)
    requires PhraseAt(rules, text, source, start) && end == start + |source|
    ensures end <= |text| && Occurs(rules, text, source, text[..start], text[start..end], text[end..])
  {
    assert text == text[..start] + (text[start..end] + text[end..]);
    OccursIff(rules, text, source, text[..start], text[start..end], text[end..]);
  }

  lemma PhraseIsRead(rules: TextRules, text: string, spans: seq<ProtectedSpan>, source: string, c: Context)
    requires WideWindows(text, c) && c.word == source && c.partOfSpeech == "other"
    requires Occurs(rules, text, source, text[..c.offset], c.token, text[c.End()..])
    requires NamesOverlapping(spans, c.offset, c.End(), c.protectedSpanIds)
    ensures PhraseReads(rules, text, spans, source, c)
  {
  }

  lemma PhraseContextReads(rules: TextRules, text: string, spans: seq<ProtectedSpan>, source: string, start: nat,
      end: nat)
    requires start <= end <= |text| && Occurs(rules, text, source, text[..start], text[start..end], text[end..])
    ensures PhraseReads(rules, text, spans, source, PhraseContext(text, source, spans, start, end))
  {
    OverlappingAll(spans, start, end);
    PhraseWindows(text, source, spans, start, end);
    PhraseIsRead(rules, text, spans, source, PhraseContext(text, source, spans, start, end));
  }

  lemma {:induction false} FoundOccurs(rules: TextRules, text: string, source: string, i: nat, m: (nat, nat))
    requires |source| > 0 && m in FindPhrase(rules, text, source, i)
    ensures PhraseAt(rules, text, source, m.0) && m.1 == m.0 + |source|
    decreases |text| - i
  {
    if !PhraseAt(rules, text, source, i) {
      FoundOccurs(rules, text, source, i + 1, m);
    } else if m in FindPhrase(rules, text, source, i + |source|) {
      FoundOccurs(rules, text, source, i + |source|, m);
    }
  }

  lemma {:induction false} AddedMatch(text: string, source: string, spans: seq<ProtectedSpan>,
      matches: seq<(nat, nat)>, kept: seq<Context>, c: Context)
    returns (m: (nat, nat))
    requires forall m :: m in matches ==> m.0 <= m.1 <= |text|
    requires c in AddMatches(text, source, spans, matches, kept) && c !in kept
    ensures m in matches && c == PhraseContext(text, source, spans, m.0, m.1)
    decreases |matches|
  {
    m := matches[0];
    var next :=
      if ClashesWithAny(m.0, m.1, kept) then kept else kept + [PhraseContext(text, source, spans, m.0, m.1)];
    if c !in next {
      m := AddedMatch(text, source, spans, matches[1..], next, c);
    }
  }

  lemma {:induction false} AddedSource(rules: TextRules, text: string, spans: seq<ProtectedSpan>,
      sources: seq<string>, kept: seq<Context>, c: Context)
    returns (source: string, m: (nat, nat))
    requires forall s :: s in sources ==> |s| > 0
    requires c in AddSources(rules, text, spans, sources, kept) && c !in kept
    ensures source in sources && m in FindPhrase(rules, text, source, 0) && m.0 <= m.1 <= |text|
    ensures c == PhraseContext(text, source, spans, m.0, m.1)
    decreases |sources|
  {
    source := sources[0];
    MatchesInBounds(rules, text, source, 0);
    var matches := FindPhrase(rules, text, source, 0);
    var next := AddMatches(text, source, spans, matches, kept);
    if c in next {
      m := AddedMatch(text, source, spans, matches, kept, c);
    } else {
      source, m := AddedSource(rules, text, spans, sources[1..], next, c);
    }
  }

  lemma {:induction false} InsertedSource(s: string, sorted: seq<string>, x: string)
    ensures x in InsertSource(s, sorted) <==> x == s || x in sorted
  {
    if |sorted| > 0 && !SourceLe(s, sorted[0]) {
      InsertedSource(s, sorted[1..], x);
    }
  }

  /** The phrases looked for are the sources of the ruleset with a blank in them. */
  lemma {:induction false} MultiwordMeaning(index: seq<string>, x: string)
    ensures x in MultiwordSources(index) <==> x in index && ' ' in x
  {
    if |index| > 0 {
      MultiwordMeaning(index[1..], x);
      if ' ' in index[0] {
        InsertedSource(index[0], MultiwordSources(index[1..]), x);
      }
    }
  }

  /** Longer sources come first, and equally long ones in lexicographic order. */
  ghost predicate LongestFirst(sources: seq<string>) {
    forall i, j :: 0 <= i < j < |sources| ==>
      |sources[i]| > |sources[j]| || (|sources[i]| == |sources[j]| && Before(sources[i], sources[j]))
  }

  lemma SourceLeTransitive(a: string, b: string, c: string)
    requires SourceLe(a, b) && SourceLe(b, c)
    ensures SourceLe(a, c)
  {
    if |a| == |b| == |c| {
      LexTransitive(a, b, c);
    }
  }

  ghost predicate SortedSources(sources: seq<string>) {
    forall i, j :: 0 <= i < j < |sources| ==> SourceLe(sources[i], sources[j])
  }

  lemma {:induction false} InsertSorts(s: string, sorted: seq<string>)
    requires SortedSources(sorted)
    ensures SortedSources(InsertSource(s, sorted))
  {
    if |sorted| > 0 {
      if SourceLe(s, sorted[0]) {
        forall j | 0 <= j < |sorted| ensures SourceLe(s, sorted[j]) {
          if j > 0 {
            SourceLeTransitive(s, sorted[0], sorted[j]);
          }
        }
      } else {
        LexTotal(s, sorted[0]);
        InsertSorts(s, sorted[1..]);
        var rest := InsertSource(s, sorted[1..]);
        forall j | 0 <= j < |rest| ensures SourceLe(sorted[0], rest[j]) {
          assert rest[j] in rest;
        }
      }
    }
  }

  lemma {:induction false} SourcesAreSorted(index: seq<string>)
    ensures SortedSources(MultiwordSources(index))
  {
    if |index| > 0 {
      SourcesAreSorted(index[1..]);
      if ' ' in index[0] {
        InsertSorts(index[0], MultiwordSources(index[1..]));
      }
    }
  }

  lemma PhrasesLongestFirst(index: seq<string>)
    ensures LongestFirst(MultiwordSources(index))
  {
    SourcesAreSorted(index);
    var sources := MultiwordSources(index);
    forall i, j | 0 <= i < j < |sources|
      ensures |sources[i]| > |sources[j]| || (|sources[i]| == |sources[j]| && Before(sources[i], sources[j]))
    {
      assert SourceLe(sources[i], sources[j]);
      LexLeMeaning(sources[i], sources[j]);
    }
  }

  /**
   Every candidate is a token's context that no phrase overlaps, or the occurrence of a multiword source as a whole
   word, with the windows and the spans of its place.
   */
  lemma CandidateMeaning(rules: TextRules, text: string, contexts: seq<Context>, index: seq<string>,
      spans: seq<ProtectedSpan>, c: Context)
    requires c in Candidates(rules, text, contexts, index, spans)
    ensures c in contexts
            || exists source :: source in index && ' ' in source && PhraseReads(rules, text, spans, source, c)
  {
    var sources := MultiwordSources(index);
    var phrases := AddSources(rules, text, spans, sources, []);
    SortContextsMembers(phrases + Singles(contexts, phrases));
    if c in phrases {
      var source, m := AddedSource(rules, text, spans, sources, [], c);
      FoundOccurs(rules, text, source, 0, m);
      MatchOccurs(rules, text, source, m.0, m.1);
      PhraseContextReads(rules, text, spans, source, m.0, m.1);
      MultiwordMeaning(index, source);
    } else {
      SinglesAreContexts(contexts, phrases, c);
    }
  }

  lemma {:induction false} SinglesAreContexts(contexts: seq<Context>, phrases: seq<Context>, c: Context)
    requires c in Singles(contexts, phrases)
    ensures c in contexts && !ClashesWithAny(c.offset, c.End(), phrases)
  {
    if c in Singles(contexts[1..], phrases) {
      SinglesAreContexts(contexts[1..], phrases, c);
    }
  }

  // ----- The sort -----

  ghost predicate SortedContexts(cs: seq<Context>) {
    forall i, j :: 0 <= i < j < |cs| ==>
      cs[i].offset < cs[j].offset || (cs[i].offset == cs[j].offset && |cs[i].token| >= |cs[j].token|)
  }

  lemma {:induction false} InsertContextPermutes(c: Context, sorted: seq<Context>)
    ensures multiset(InsertContext(c, sorted)) == multiset(sorted) + multiset{c}
  {
    if |sorted| > 0 && !ContextLe(c, sorted[0]) {
      InsertContextPermutes(c, sorted[1..]);
      assert sorted == [sorted[0]] + sorted[1..];
    }
  }

  lemma ConsSorts(c: Context, rest: seq<Context>)
    requires SortedContexts(rest) && forall x :: x in rest ==> ContextLe(c, x)
    ensures SortedContexts([c] + rest)
  {
    forall j | 0 <= j < |rest| ensures ContextLe(c, rest[j]) {
      assert rest[j] in rest;
    }
  }

  lemma {:induction false} InsertContextSorts(c: Context, sorted: seq<Context>)
    requires SortedContexts(sorted)
    ensures SortedContexts(InsertContext(c, sorted))
  {
    if |sorted| > 0 {
      assert forall x :: x in sorted ==> ContextLe(sorted[0], x);
      if ContextLe(c, sorted[0]) {
        ConsSorts(c, sorted);
      } else {
        InsertContextSorts(c, sorted[1..]);
        InsertContextMembers(c, sorted[1..]);
        ConsSorts(sorted[0], InsertContext(c, sorted[1..]));
      }
    }
  }

  /** Candidates stand by offset, longer ones first, each as often as it was found. */
  lemma {:induction false} SortContextsMeaning(cs: seq<Context>)
    ensures SortedContexts(SortContexts(cs)) && multiset(SortContexts(cs)) == multiset(cs)
  {
    if |cs| > 0 {
      SortContextsMeaning(cs[1..]);
      InsertContextSorts(cs[0], SortContexts(cs[1..]));
      InsertContextPermutes(cs[0], SortContexts(cs[1..]));
      assert cs == [cs[0]] + cs[1..];
    }
  }
}
