/** The whitespace steps of output scrubbing: line endings, trailing whitespace, blank lines, and the final newline. */
module Scrub {
  import opened Sequences

  // ----- Lines -----

  function Split(s: string): (lines: seq<string>)
    ensures |lines| > 0
  {
    if |s| == 0 then [""]
    else
      var lines := Split(s[1..]);
      if s[0] == '\n' then [""] + lines else [[s[0]] + lines[0]] + lines[1..]
  }

  function Join(lines: seq<string>): string
    requires |lines| > 0
  {
    if |lines| == 1 then lines[0] else lines[0] + ("\n" + Join(lines[1..]))
  }

  lemma {:induction false} JoinSplit(s: string)
    ensures Join(Split(s)) == s
  {
    if |s| > 0 {
      JoinSplit(s[1..]);
      var lines := Split(s[1..]);
      if s[0] == '\n' {
        assert Split(s)[1..] == lines;
      } else {
        assert Split(s)[1..] == lines[1..];
      }
    }
  }

  predicate IsNewline(c: char) { c == '\n' }

  /** A stretch without a newline at the front belongs to the first line. */
  lemma {:induction false} SplitPrefix(line: string, s: string)
    requires forall k :: 0 <= k < |line| ==> line[k] != '\n'
    ensures Split(line + s) == [line + Split(s)[0]] + Split(s)[1..]
  {
    if |line| == 0 {
      assert line + s == s && line + Split(s)[0] == Split(s)[0];
    } else {
      SplitPrefix(line[1..], s);
      assert (line + s)[1..] == line[1..] + s;
      assert [line[0]] + (line[1..] + Split(s)[0]) == line + Split(s)[0];
    }
  }

  ghost predicate NoNewlines(lines: seq<string>) {
    forall i :: 0 <= i < |lines| ==> '\n' !in lines[i]
  }

  lemma {:induction false} SplitJoin(lines: seq<string>)
    requires |lines| > 0 && NoNewlines(lines)
    ensures Split(Join(lines)) == lines
  {
    if |lines| == 1 {
      SplitPrefix(lines[0], "");
      assert lines[0] + "" == lines[0];
    } else {
      SplitJoin(lines[1..]);
      var rest := "\n" + Join(lines[1..]);
      assert rest[1..] == Join(lines[1..]);
      assert Split(rest) == [""] + lines[1..];
      SplitPrefix(lines[0], rest);
      assert lines[0] + "" == lines[0];
    }
  }

  lemma {:induction false} SplitHasNoNewlines(s: string)
    ensures NoNewlines(Split(s))
  {
    if |s| > 0 {
      SplitHasNoNewlines(s[1..]);
    }
  }

  // ----- Stripping -----

  function RStrip(strip: char -> bool, s: string): string {
    if |s| == 0 then ""
    else
      var rest := RStrip(strip, s[1..]);
      if rest == "" && strip(s[0]) then "" else [s[0]] + rest
  }

  function StripAll(isSpace: char -> bool, lines: seq<string>): (r: seq<string>)
    ensures |r| == |lines|
  {
    if |lines| == 0 then [] else [RStrip(isSpace, lines[0])] + StripAll(isSpace, lines[1..])
  }

  lemma {:induction false} RStripIsPrefix(strip: char -> bool, s: string)
    ensures RStrip(strip, s) <= s
    ensures var r := RStrip(strip, s); |r| > 0 ==> !strip(r[|r| - 1])
    ensures forall k :: |RStrip(strip, s)| <= k < |s| ==> strip(s[k])
  {
    if |s| > 0 {
      RStripIsPrefix(strip, s[1..]);
      assert s == [s[0]] + s[1..];
    }
  }

  lemma {:induction false} StrippedStays(strip: char -> bool, s: string)
    requires |s| > 0 ==> !strip(s[|s| - 1])
    ensures RStrip(strip, s) == s
  {
    if |s| > 0 {
      StrippedStays(strip, s[1..]);
    }
  }

  lemma {:induction false} StripAllAt(isSpace: char -> bool, lines: seq<string>, i: nat)
    requires i < |lines|
    ensures StripAll(isSpace, lines)[i] == RStrip(isSpace, lines[i])
  {
    if i > 0 {
      StripAllAt(isSpace, lines[1..], i - 1);
    }
  }

  predicate LineStripped(isSpace: char -> bool, line: string) { |line| > 0 ==> !isSpace(line[|line| - 1]) }

  ghost predicate AllStripped(isSpace: char -> bool, lines: seq<string>) {
    forall i :: 0 <= i < |lines| ==> LineStripped(isSpace, lines[i])
  }

  lemma StripAllMeaning(isSpace: char -> bool, lines: seq<string>)
    requires NoNewlines(lines)
    ensures NoNewlines(StripAll(isSpace, lines)) && AllStripped(isSpace, StripAll(isSpace, lines))
  {
    forall i | 0 <= i < |lines|
      ensures '\n' !in StripAll(isSpace, lines)[i] && LineStripped(isSpace, StripAll(isSpace, lines)[i]) {
      StripAllAt(isSpace, lines, i);
      RStripIsPrefix(isSpace, lines[i]);
      assert '\n' !in lines[i];
    }
  }

  lemma {:induction false} AllStrippedStays(isSpace: char -> bool, lines: seq<string>)
    requires AllStripped(isSpace, lines)
    ensures StripAll(isSpace, lines) == lines
  {
    if |lines| > 0 {
      assert LineStripped(isSpace, lines[0]);
      StrippedStays(isSpace, lines[0]);
      AllStrippedStays(isSpace, lines[1..]);
    }
  }

  // ----- Steps 6 to 9 -----

  predicate AtCrlf(s: string) { |s| >= 2 && s[0] == '\r' && s[1] == '\n' }

  function ReplaceCrlf(s: string): string {
    if |s| == 0 then ""
    else if AtCrlf(s) then "\n" + ReplaceCrlf(s[2..])
    else [s[0]] + ReplaceCrlf(s[1..])
  }

  function CountCrlf(s: string): nat {
    if |s| == 0 then 0 else if AtCrlf(s) then 1 + CountCrlf(s[2..]) else CountCrlf(s[1..])
  }

  function StripLines(isSpace: char -> bool, s: string): string { Join(StripAll(isSpace, Split(s))) }

  predicate AtTriple(s: string) { |s| >= 3 && s[0] == '\n' && s[1] == '\n' && s[2] == '\n' }

  predicate HasTriple(s: string) { if |s| == 0 then false else AtTriple(s) || HasTriple(s[1..]) }

  function DropNewlines(s: string): (r: string)
    ensures |r| <= |s|
  {
    if |s| > 0 && s[0] == '\n' then DropNewlines(s[1..]) else s
  }

  /** Each run of three or more newlines becomes two. */
  function Collapse(s: string): string
    decreases |s|
  {
    if |s| == 0 then ""
    else if AtTriple(s) then "\n\n" + Collapse(DropNewlines(s[3..]))
    else [s[0]] + Collapse(s[1..])
  }

  function OneFinalNewline(s: string): string { RStrip(IsNewline, s) + "\n" }

  function Scrubbed(isSpace: char -> bool, s: string): string {
    OneFinalNewline(Collapse(StripLines(isSpace, ReplaceCrlf(s))))
  }

  datatype Finding = Crlf(count: nat) | TrailingWhitespace | BlankLines | Earlier(category: string)

  function CrlfFinding(s: string): seq<Finding> { if CountCrlf(s) > 0 then [Crlf(CountCrlf(s))] else [] }

  function TrailingFinding(isSpace: char -> bool, s: string): seq<Finding> {
    if StripAll(isSpace, Split(s)) != Split(s) then [TrailingWhitespace] else []
  }

  function BlankLinesFinding(s: string): seq<Finding> { if HasTriple(s) then [BlankLines] else [] }

  /** What the three reporting steps report; the final newline is not reported. */
  function Findings(isSpace: char -> bool, s: string): seq<Finding> {
    var s6 := ReplaceCrlf(s);
    CrlfFinding(s) + TrailingFinding(isSpace, s6) + BlankLinesFinding(StripLines(isSpace, s6))
  }

  lemma {:induction false} NoCrlfStays(s: string)
    requires CountCrlf(s) == 0
    ensures ReplaceCrlf(s) == s
  {
    if |s| > 0 {
      NoCrlfStays(s[1..]);
    }
  }

  lemma {:induction false} NoTripleStays(s: string)
    requires !HasTriple(s)
    ensures Collapse(s) == s
  {
    if |s| > 0 {
      NoTripleStays(s[1..]);
    }
  }

  /** The steps as the scrubber runs them after its removals, each guarded by a test that it has something to do. */
  method NormalizeWhitespace(isSpace: char -> bool, text: string, earlier: seq<Finding>, earlierMods: nat)
    returns (cleaned: string, findings: seq<Finding>, mods: nat)
    ensures cleaned == Scrubbed(isSpace, text)
    ensures findings == earlier + Findings(isSpace, text)
    ensures mods == earlierMods + |Findings(isSpace, text)|
  {
    cleaned, findings, mods := text, earlier, earlierMods;
    var crlfCount := CountCrlf(cleaned);
    if crlfCount > 0 {
      cleaned := ReplaceCrlf(cleaned);
      mods := mods + 1;
      findings := findings + [Crlf(crlfCount)];
    } else {
      NoCrlfStays(text);
    }
    assert cleaned == ReplaceCrlf(text) && findings == earlier + CrlfFinding(text)
           && mods == earlierMods + |CrlfFinding(text)|;
    var lines := Split(cleaned);
    var strippedLines := StripAll(isSpace, lines);
    JoinSplit(cleaned);
    ghost var s6, findings6 := cleaned, findings;
    if strippedLines != lines {
      cleaned := Join(strippedLines);
      mods := mods + 1;
      findings := findings + [TrailingWhitespace];
    }
    assert cleaned == StripLines(isSpace, s6) && findings == findings6 + TrailingFinding(isSpace, s6);
    ghost var s7, findings7 := cleaned, findings;
    if HasTriple(cleaned) {
      cleaned := Collapse(cleaned);
      mods := mods + 1;
      findings := findings + [BlankLines];
    } else {
      NoTripleStays(cleaned);
    }
    assert cleaned == Collapse(s7) && findings == findings7 + BlankLinesFinding(s7);
    Associate(earlier, CrlfFinding(text), TrailingFinding(isSpace, s6));
    Associate(earlier, CrlfFinding(text) + TrailingFinding(isSpace, s6), BlankLinesFinding(s7));
    cleaned := RStrip(IsNewline, cleaned) + "\n";
  }

  // ----- The normal form -----

  /** No line ends in whitespace: a space may only be followed by another character of its line. */
  ghost predicate NoTrailing(isSpace: char -> bool, s: string) { AllStripped(isSpace, Split(s)) }

  predicate EndsInOneNewline(s: string) { |s| > 0 && s[|s| - 1] == '\n' && (|s| > 1 ==> s[|s| - 2] != '\n') }

  ghost predicate Normal(isSpace: char -> bool, s: string) {
    CountCrlf(s) == 0 && NoTrailing(isSpace, s) && !HasTriple(s) && EndsInOneNewline(s)
  }

  lemma CrlfIsTrailing(isSpace: char -> bool, s: string)
    requires isSpace('\r')
    ensures AtCrlf(s) ==> !NoTrailing(isSpace, s)
  {
    if AtCrlf(s) {
      assert Split(s)[0] == "\r";
      assert !LineStripped(isSpace, Split(s)[0]);
    }
  }

  /**
   Stripped lines leave no CRLF, because a carriage return is whitespace; replacing CRLF alone does leave one in
   "\r\r\n".
   */
  lemma {:induction false} StrippedHasNoCrlf(isSpace: char -> bool, s: string)
    requires isSpace('\r') && NoTrailing(isSpace, s)
    ensures CountCrlf(s) == 0
  {
    if |s| > 0 {
      CrlfIsTrailing(isSpace, s);
      TailStripped(isSpace, s);
      StrippedHasNoCrlf(isSpace, s[1..]);
    }
  }

  lemma TailStripped(isSpace: char -> bool, s: string)
    requires |s| > 0 && NoTrailing(isSpace, s)
    ensures NoTrailing(isSpace, s[1..])
  {
    var lines := Split(s[1..]);
    forall i | 0 <= i < |lines| ensures LineStripped(isSpace, lines[i]) {
      if s[0] == '\n' {
        assert LineStripped(isSpace, Split(s)[i + 1]);
      } else {
        assert LineStripped(isSpace, Split(s)[i]);
      }
    }
  }

  lemma ConsStripped(isSpace: char -> bool, c: char, s: string)
    requires NoTrailing(isSpace, s)
    requires c != '\n' && isSpace(c) ==> Split(s)[0] != ""
    ensures NoTrailing(isSpace, [c] + s)
  {
    assert ([c] + s)[1..] == s;
    var lines := Split([c] + s);
    forall i | 0 <= i < |lines| ensures LineStripped(isSpace, lines[i]) {
      if c == '\n' {
        assert i > 0 ==> LineStripped(isSpace, Split(s)[i - 1]);
      } else {
        assert LineStripped(isSpace, Split(s)[i]);
      }
    }
  }

  lemma HeadStripped(isSpace: char -> bool, s: string)
    requires |s| > 0 && NoTrailing(isSpace, s) && s[0] != '\n' && isSpace(s[0])
    ensures Split(s[1..])[0] != ""
  {
    assert LineStripped(isSpace, Split(s)[0]);
  }

  // ----- Collapsing -----

  /** One newline of a triple can be dropped before collapsing. */
  lemma CollapseStep(s: string)
    requires AtTriple(s)
    ensures Collapse(s) == Collapse(s[1..])
  {
    if AtTriple(s[1..]) {
      assert s[1..][3..] == s[4..] && s[3..][1..] == s[4..];
    } else {
      assert DropNewlines(s[3..]) == s[3..];
      assert s[1..][1..] == s[2..] && s[2..][1..] == s[3..];
      assert !AtTriple(s[2..]);
    }
  }

  /**
   The lines of a text with every run of blank lines before a line reduced to one, and the blank lines at the end
   dropped.
   */
  function Paragraphs(lines: seq<string>, afterBlank: bool): seq<string> {
    if |lines| == 0 then []
    else if lines[0] == "" then Paragraphs(lines[1..], true)
    else (if afterBlank then ["", lines[0]] else [lines[0]]) + Paragraphs(lines[1..], false)
  }

  ghost predicate SameParagraphs(a: string, b: string) {
    && Split(a)[0] == Split(b)[0]
    && Paragraphs(Split(a)[1..], true) == Paragraphs(Split(b)[1..], true)
    && Paragraphs(Split(a)[1..], false) == Paragraphs(Split(b)[1..], false)
  }

  lemma SameParagraphsAfter(a: string, b: string, afterBlank: bool)
    requires SameParagraphs(a, b)
    ensures Paragraphs(Split(a), afterBlank) == Paragraphs(Split(b), afterBlank)
  {
  }

  lemma ConsSameParagraphs(c: char, a: string, b: string)
    requires SameParagraphs(a, b)
    ensures SameParagraphs([c] + a, [c] + b)
  {
    assert ([c] + a)[1..] == a && ([c] + b)[1..] == b;
    if c == '\n' {
      SameParagraphsAfter(a, b, true);
      SameParagraphsAfter(a, b, false);
      assert Split([c] + a)[1..] == Split(a) && Split([c] + b)[1..] == Split(b);
    } else {
      assert Split([c] + a)[1..] == Split(a)[1..] && Split([c] + b)[1..] == Split(b)[1..];
    }
  }

  lemma {:induction false} CollapseKeepsParagraphs(s: string)
    ensures SameParagraphs(Collapse(s), s)
    decreases |s|
  {
    if |s| > 0 {
      CollapseKeepsParagraphs(s[1..]);
      if AtTriple(s) {
        CollapseStep(s);
        TripleParagraphs(s);
      } else {
        ConsSameParagraphs(s[0], Collapse(s[1..]), s[1..]);
        assert s == [s[0]] + s[1..];
      }
    }
  }

  lemma TripleParagraphs(s: string)
    requires AtTriple(s)
    ensures SameParagraphs(s[1..], s)
  {
    assert s[1..][1..] == s[2..];
    assert Split(s)[1..] == Split(s[1..]) && Split(s[1..])[1..] == Split(s[2..]);
    assert Split(s[2..])[0] == "";
  }

  lemma {:induction false} CollapseKeepsStripped(isSpace: char -> bool, s: string)
    requires NoTrailing(isSpace, s)
    ensures NoTrailing(isSpace, Collapse(s))
    decreases |s|
  {
    if |s| > 0 {
      TailStripped(isSpace, s);
      CollapseKeepsStripped(isSpace, s[1..]);
      if AtTriple(s) {
        CollapseStep(s);
      } else {
        if s[0] != '\n' && isSpace(s[0]) {
          HeadStripped(isSpace, s);
          CollapseKeepsParagraphs(s[1..]);
        }
        ConsStripped(isSpace, s[0], Collapse(s[1..]));
      }
    }
  }

  function LeadingNewlines(s: string): nat { if |s| > 0 && s[0] == '\n' then 1 + LeadingNewlines(s[1..]) else 0 }

  lemma TripleIsThreeLeading(s: string)
    ensures AtTriple(s) <==> LeadingNewlines(s) >= 3
  {
    if |s| > 0 && s[0] == '\n' {
      if |s| > 1 && s[1] == '\n' {
        assert LeadingNewlines(s) == 2 + LeadingNewlines(s[2..]) by {
          assert s[1..][1..] == s[2..];
        }
      }
    }
  }

  lemma {:induction false} CollapseLeading(s: string)
    ensures !HasTriple(Collapse(s))
    ensures LeadingNewlines(Collapse(s)) == if LeadingNewlines(s) > 2 then 2 else LeadingNewlines(s)
    decreases |s|
  {
    if |s| > 0 {
      CollapseLeading(s[1..]);
      TripleIsThreeLeading(s);
      if AtTriple(s) {
        CollapseStep(s);
      } else {
        var c := [s[0]] + Collapse(s[1..]);
        assert c[1..] == Collapse(s[1..]);
        TripleIsThreeLeading(c);
      }
    }
  }

  // ----- The final newline -----

  lemma {:induction false} FinalNewlineKeepsParagraphs(s: string)
    ensures SameParagraphs(OneFinalNewline(s), s)
  {
    if |s| == 0 {
      assert Split("\n") == ["", ""] && ["", ""][1..] == [""] && [""][1..] == [];
    } else {
      FinalNewlineKeepsParagraphs(s[1..]);
      var rest := RStrip(IsNewline, s[1..]);
      if rest == "" && s[0] == '\n' {
        assert OneFinalNewline(s[1..]) == "\n" == OneFinalNewline(s);
        assert Split("\n") == ["", ""] && ["", ""][1..] == [""] && [""][1..] == [];
        SameParagraphsAfter("\n", s[1..], true);
        SameParagraphsAfter("\n", s[1..], false);
        assert Split(s)[1..] == Split(s[1..]);
      } else {
        ConsSameParagraphs(s[0], OneFinalNewline(s[1..]), s[1..]);
        assert OneFinalNewline(s) == [s[0]] + OneFinalNewline(s[1..]);
        assert s == [s[0]] + s[1..];
      }
    }
  }

  lemma {:induction false} FinalNewlineKeepsStripped(isSpace: char -> bool, s: string)
    requires NoTrailing(isSpace, s)
    ensures NoTrailing(isSpace, OneFinalNewline(s))
  {
    if |s| == 0 {
      assert Split("\n") == ["", ""];
    } else {
      TailStripped(isSpace, s);
      FinalNewlineKeepsStripped(isSpace, s[1..]);
      if RStrip(IsNewline, s[1..]) == "" && s[0] == '\n' {
        assert OneFinalNewline(s) == OneFinalNewline(s[1..]);
      } else {
        if s[0] != '\n' && isSpace(s[0]) {
          HeadStripped(isSpace, s);
          FinalNewlineKeepsParagraphs(s[1..]);
        }
        ConsStripped(isSpace, s[0], OneFinalNewline(s[1..]));
        assert OneFinalNewline(s) == [s[0]] + OneFinalNewline(s[1..]);
      }
    }
  }

  lemma {:induction false} FinalNewlineAddsNoTriple(s: string)
    requires !HasTriple(s)
    ensures !HasTriple(OneFinalNewline(s))
    ensures LeadingNewlines(OneFinalNewline(s)) <= if LeadingNewlines(s) > 0 then LeadingNewlines(s) else 1
  {
    if |s| == 0 {
      assert LeadingNewlines("\n"[1..]) == 0;
    } else {
      FinalNewlineAddsNoTriple(s[1..]);
      if RStrip(IsNewline, s[1..]) == "" && s[0] == '\n' {
        assert OneFinalNewline(s) == OneFinalNewline(s[1..]);
      } else {
        var r := [s[0]] + OneFinalNewline(s[1..]);
        assert OneFinalNewline(s) == r && r[1..] == OneFinalNewline(s[1..]);
        TripleIsThreeLeading(s);
        TripleIsThreeLeading(r);
        if RStrip(IsNewline, s[1..]) != "" {
          LeadingBlank(s[1..]);
        }
      }
    }
  }

  /** A text that is not all newlines keeps its leading newlines when its final ones are stripped. */
  lemma {:induction false} LeadingBlank(s: string)
    requires RStrip(IsNewline, s) != ""
    ensures LeadingNewlines(OneFinalNewline(s)) == LeadingNewlines(s)
  {
    if s[0] == '\n' {
      LeadingBlank(s[1..]);
    }
    assert OneFinalNewline(s)[1..] == OneFinalNewline(s[1..]);
  }

  lemma FinalNewlineIsSingle(s: string)
    ensures EndsInOneNewline(OneFinalNewline(s))
    ensures EndsInOneNewline(s) ==> OneFinalNewline(s) == s
  {
    RStripIsPrefix(IsNewline, s);
    var r := RStrip(IsNewline, s);
    if EndsInOneNewline(s) {
      assert IsNewline(s[|s| - 1]);
      assert |r| == |s| - 1;
    }
  }

  // ----- Main results -----

  lemma {:induction false} CrlfKeepsStrippedLines(isSpace: char -> bool, s: string)
    requires isSpace('\r')
    ensures StripAll(isSpace, Split(ReplaceCrlf(s))) == StripAll(isSpace, Split(s))
    decreases |s|
  {
    if |s| > 0 {
      if AtCrlf(s) {
        CrlfKeepsStrippedLines(isSpace, s[2..]);
        assert s[1..][1..] == s[2..];
        var r := "\n" + ReplaceCrlf(s[2..]);
        assert r[1..] == ReplaceCrlf(s[2..]);
        assert Split(s[1..]) == [""] + Split(s[2..]);
        assert Split(s) == [['\r'] + ""] + Split(s[1..])[1..];
        assert Split(s[1..])[1..] == Split(s[2..]) && ['\r'] + "" == "\r";
        assert RStrip(isSpace, "\r") == "" by { assert "\r"[1..] == ""; }
      } else {
        CrlfKeepsStrippedLines(isSpace, s[1..]);
        var r := [s[0]] + ReplaceCrlf(s[1..]);
        assert r[1..] == ReplaceCrlf(s[1..]);
        ConsStripAll(isSpace, s[0], r[1..], s[1..]);
        assert r == [s[0]] + r[1..] && s == [s[0]] + s[1..];
      }
    }
  }

  lemma ConsStripAll(isSpace: char -> bool, c: char, a: string, b: string)
    requires StripAll(isSpace, Split(a)) == StripAll(isSpace, Split(b))
    ensures StripAll(isSpace, Split([c] + a)) == StripAll(isSpace, Split([c] + b))
  {
    assert ([c] + a)[1..] == a && ([c] + b)[1..] == b;
    if c == '\n' {
      assert Split([c] + a)[1..] == Split(a) && Split([c] + b)[1..] == Split(b);
    } else {
      assert ([c] + Split(a)[0])[1..] == Split(a)[0] && ([c] + Split(b)[0])[1..] == Split(b)[0];
      assert StripAll(isSpace, Split(a))[0] == RStrip(isSpace, Split(a)[0]);
      assert StripAll(isSpace, Split(a))[1..] == StripAll(isSpace, Split(a)[1..]);
      assert StripAll(isSpace, Split(b))[1..] == StripAll(isSpace, Split(b)[1..]);
    }
  }

  lemma StripLinesMeaning(isSpace: char -> bool, s: string)
    ensures Split(StripLines(isSpace, s)) == StripAll(isSpace, Split(s))
    ensures NoTrailing(isSpace, StripLines(isSpace, s))
  {
    SplitHasNoNewlines(s);
    StripAllMeaning(isSpace, Split(s));
    SplitJoin(StripAll(isSpace, Split(s)));
  }

  /** Whatever the input, also "\r\r\n", the result is in normal form. */
  lemma ScrubbedIsNormal(isSpace: char -> bool, s: string)
    requires isSpace('\r')
    ensures Normal(isSpace, Scrubbed(isSpace, s))
  {
    var s7 := StripLines(isSpace, ReplaceCrlf(s));
    StripLinesMeaning(isSpace, ReplaceCrlf(s));
    CollapseKeepsStripped(isSpace, s7);
    CollapseLeading(s7);
    FinalNewlineKeepsStripped(isSpace, Collapse(s7));
    FinalNewlineAddsNoTriple(Collapse(s7));
    FinalNewlineIsSingle(Collapse(s7));
    StrippedHasNoCrlf(isSpace, Scrubbed(isSpace, s));
  }

  // ----- What is reported -----

  /** A CRLF stands `n` characters from the end. */
  predicate CrlfAt(s: string, n: int) { 2 <= n <= |s| && s[|s| - n] == '\r' && s[|s| - n + 1] == '\n' }

  /** The places of a CRLF, counted from the end. */
  ghost function CrlfPlaces(s: string): set<int> { set n | 2 <= n <= |s| && CrlfAt(s, n) }

  lemma CrlfAtFront(s: string)
    requires |s| > 0
    ensures CrlfPlaces(s) == CrlfPlaces(s[1..]) + if AtCrlf(s) then {|s|} else {}
    ensures |s| !in CrlfPlaces(s[1..])
  {
    var t := s[1..];
    assert forall k :: 0 <= k < |t| ==> t[k] == s[k + 1];
  }

  lemma {:induction false} CrlfsAreCounted(s: string)
    ensures CountCrlf(s) == |CrlfPlaces(s)|
    decreases |s|
  {
    if |s| > 0 {
      CrlfAtFront(s);
      if AtCrlf(s) {
        CrlfAtFront(s[1..]);
        assert s[1..][1..] == s[2..];
        CrlfsAreCounted(s[2..]);
      } else {
        CrlfsAreCounted(s[1..]);
      }
    }
  }

  /** Somewhere three newlines follow each other. */
  ghost predicate TripleAt(s: string, i: int) {
    0 <= i && i + 2 < |s| && s[i] == '\n' && s[i + 1] == '\n' && s[i + 2] == '\n'
  }

  lemma {:induction false} TripleMeaning(s: string)
    ensures HasTriple(s) <==> exists i :: TripleAt(s, i)
    decreases |s|
  {
    if |s| > 0 {
      TripleMeaning(s[1..]);
      if i :| TripleAt(s, i) {
        assert i == 0 || TripleAt(s[1..], i - 1);
      }
      if i :| TripleAt(s[1..], i) {
        assert TripleAt(s, i + 1);
      }
      assert AtTriple(s) <==> TripleAt(s, 0);
    }
  }

  lemma StrippedIff(isSpace: char -> bool, s: string)
    ensures StripAll(isSpace, Split(s)) == Split(s) <==> NoTrailing(isSpace, s)
  {
    SplitHasNoNewlines(s);
    StripAllMeaning(isSpace, Split(s));
    if NoTrailing(isSpace, s) {
      AllStrippedStays(isSpace, Split(s));
    }
  }

  lemma CrlfReported(s: string)
    ensures CrlfFinding(s) == if CrlfPlaces(s) == {} then [] else [Crlf(|CrlfPlaces(s)|)]
  {
    CrlfsAreCounted(s);
  }

  lemma TrailingReported(isSpace: char -> bool, s: string)
    ensures TrailingFinding(isSpace, s) == if NoTrailing(isSpace, s) then [] else [TrailingWhitespace]
  {
    StrippedIff(isSpace, s);
  }

  lemma BlankReported(s: string)
    ensures BlankLinesFinding(s) == if exists i :: TripleAt(s, i) then [BlankLines] else []
  {
    TripleMeaning(s);
  }

  /** Reported are, in this order, the number of CRLFs, lines with trailing whitespace, and repeated blank lines. */
  lemma FindingsMeaning(isSpace: char -> bool, s: string, s6: string, s7: string)
    requires s6 == ReplaceCrlf(s) && s7 == Join(StripAll(isSpace, Split(s6)))
    ensures Findings(isSpace, s)
            == (if CrlfPlaces(s) == {} then [] else [Crlf(|CrlfPlaces(s)|)])
               + (if NoTrailing(isSpace, s6) then [] else [TrailingWhitespace])
               + (if exists i :: TripleAt(s7, i) then [BlankLines] else [])
  {
    CrlfReported(s);
    TrailingReported(isSpace, s6);
    BlankReported(s7);
  }

  /**
   Nothing is reported exactly when every line is stripped and no blank lines repeat; then at most the final newline
   changes.
   */
  lemma NothingReportedIff(isSpace: char -> bool, s: string)
    requires isSpace('\r')
    ensures Findings(isSpace, s) == [] <==> NoTrailing(isSpace, s) && !HasTriple(s)
    ensures Findings(isSpace, s) == [] ==> Scrubbed(isSpace, s) == OneFinalNewline(s)
  {
    JoinSplit(s);
    if NoTrailing(isSpace, s) {
      StrippedHasNoCrlf(isSpace, s);
      AllStrippedStays(isSpace, Split(s));
    }
    if CountCrlf(s) == 0 {
      NoCrlfStays(s);
      SplitHasNoNewlines(s);
      StripAllMeaning(isSpace, Split(s));
      if !HasTriple(s) {
        NoTripleStays(s);
      }
    }
  }

  /** A text in normal form is left alone and nothing is reported; with ScrubbedIsNormal, a second run does nothing. */
  lemma NormalIsFixed(isSpace: char -> bool, s: string)
    requires isSpace('\r') && Normal(isSpace, s)
    ensures Scrubbed(isSpace, s) == s && Findings(isSpace, s) == []
  {
    NothingReportedIff(isSpace, s);
    FinalNewlineIsSingle(s);
  }

  lemma SecondRunDoesNothing(isSpace: char -> bool, s: string)
    requires isSpace('\r')
    ensures var once := Scrubbed(isSpace, s); Scrubbed(isSpace, once) == once && Findings(isSpace, once) == []
  {
    ScrubbedIsNormal(isSpace, s);
    NormalIsFixed(isSpace, Scrubbed(isSpace, s));
  }

  /** Scrubbing keeps every line up to trailing whitespace, in order, and keeps which lines a blank line separates. */
  lemma ScrubbingKeepsParagraphs(isSpace: char -> bool, s: string)
    requires isSpace('\r')
    ensures Paragraphs(Split(Scrubbed(isSpace, s)), true) == Paragraphs(StripAll(isSpace, Split(s)), true)
  {
    var s7 := StripLines(isSpace, ReplaceCrlf(s));
    CrlfKeepsStrippedLines(isSpace, s);
    StripLinesMeaning(isSpace, ReplaceCrlf(s));
    CollapseKeepsParagraphs(s7);
    FinalNewlineKeepsParagraphs(Collapse(s7));
    SameParagraphsAfter(Collapse(s7), s7, true);
    SameParagraphsAfter(Scrubbed(isSpace, s), Collapse(s7), true);
  }

  // ----- Nothing but whitespace is touched -----

  /** The characters that are not whitespace, in order. */
  function Visible(isSpace: char -> bool, s: string): string {
    if |s| == 0 then "" else (if isSpace(s[0]) then "" else [s[0]]) + Visible(isSpace, s[1..])
  }

  lemma {:induction false} VisibleBoth(isSpace: char -> bool, a: string, b: string)
    ensures Visible(isSpace, a + b) == Visible(isSpace, a) + Visible(isSpace, b)
  {
    if |a| == 0 {
      PrependEmpty(b);
      PrependEmpty(Visible(isSpace, b));
    } else {
      VisibleBoth(isSpace, a[1..], b);
      ConcatTail(a, b);
      Associate(if isSpace(a[0]) then "" else [a[0]], Visible(isSpace, a[1..]), Visible(isSpace, b));
    }
  }

  lemma {:induction false} SpacesAreInvisible(isSpace: char -> bool, s: string)
    requires forall k :: 0 <= k < |s| ==> isSpace(s[k])
    ensures Visible(isSpace, s) == ""
  {
    if |s| > 0 {
      SpacesAreInvisible(isSpace, s[1..]);
    }
  }

  lemma RStripKeepsVisible(isSpace: char -> bool, strip: char -> bool, s: string)
    requires forall c :: strip(c) ==> isSpace(c)
    ensures Visible(isSpace, RStrip(strip, s)) == Visible(isSpace, s)
  {
    var kept := RStrip(strip, s);
    RStripIsPrefix(strip, s);
    SpacesAreInvisible(isSpace, s[|kept|..]);
    VisibleBoth(isSpace, kept, s[|kept|..]);
    assert s == kept + s[|kept|..];
  }

  lemma {:induction false} ReplaceCrlfKeepsVisible(isSpace: char -> bool, s: string)
    requires isSpace('\r') && isSpace('\n')
    ensures Visible(isSpace, ReplaceCrlf(s)) == Visible(isSpace, s)
  {
    if AtCrlf(s) {
      ReplaceCrlfKeepsVisible(isSpace, s[2..]);
      DropInvisible(isSpace, s, 2);
      SpacesAreInvisible(isSpace, "\n");
      VisibleBoth(isSpace, "\n", ReplaceCrlf(s[2..]));
    } else if |s| > 0 {
      ReplaceCrlfKeepsVisible(isSpace, s[1..]);
      assert ([s[0]] + ReplaceCrlf(s[1..]))[1..] == ReplaceCrlf(s[1..]);
    }
  }

  lemma DropInvisible(isSpace: char -> bool, s: string, n: nat)
    requires n <= |s| && forall k :: 0 <= k < n ==> isSpace(s[k])
    ensures Visible(isSpace, s) == Visible(isSpace, s[n..])
  {
    SpacesAreInvisible(isSpace, s[..n]);
    VisibleBoth(isSpace, s[..n], s[n..]);
    assert s == s[..n] + s[n..];
  }

  lemma {:induction false} StrippedLinesKeepVisible(isSpace: char -> bool, lines: seq<string>)
    requires |lines| > 0
    ensures Visible(isSpace, Join(StripAll(isSpace, lines))) == Visible(isSpace, Join(lines))
  {
    RStripKeepsVisible(isSpace, isSpace, lines[0]);
    if |lines| > 1 {
      var rest, stripped := Join(lines[1..]), Join(StripAll(isSpace, lines[1..]));
      StrippedLinesKeepVisible(isSpace, lines[1..]);
      assert StripAll(isSpace, lines)[1..] == StripAll(isSpace, lines[1..]);
      VisibleBoth(isSpace, lines[0], "\n" + rest);
      VisibleBoth(isSpace, RStrip(isSpace, lines[0]), "\n" + stripped);
      VisibleBoth(isSpace, "\n", rest);
      VisibleBoth(isSpace, "\n", stripped);
    }
  }

  lemma {:induction false} DropNewlinesKeepsVisible(isSpace: char -> bool, s: string)
    requires isSpace('\n')
    ensures Visible(isSpace, DropNewlines(s)) == Visible(isSpace, s)
  {
    if |s| > 0 && s[0] == '\n' {
      DropNewlinesKeepsVisible(isSpace, s[1..]);
      DropInvisible(isSpace, s, 1);
    }
  }

  lemma {:induction false} CollapseKeepsVisible(isSpace: char -> bool, s: string)
    requires isSpace('\n')
    ensures Visible(isSpace, Collapse(s)) == Visible(isSpace, s)
    decreases |s|
  {
    if AtTriple(s) {
      var rest := DropNewlines(s[3..]);
      CollapseKeepsVisible(isSpace, rest);
      DropNewlinesKeepsVisible(isSpace, s[3..]);
      DropInvisible(isSpace, s, 3);
      SpacesAreInvisible(isSpace, "\n\n");
      VisibleBoth(isSpace, "\n\n", Collapse(rest));
    } else if |s| > 0 {
      CollapseKeepsVisible(isSpace, s[1..]);
      assert ([s[0]] + Collapse(s[1..]))[1..] == Collapse(s[1..]);
    }
  }

  /** Scrubbing keeps every character that is not whitespace, in order, and adds none. */
  lemma ScrubbingKeepsVisible(isSpace: char -> bool, s: string)
    requires isSpace('\r') && isSpace('\n')
    ensures Visible(isSpace, Scrubbed(isSpace, s)) == Visible(isSpace, s)
  {
    var unix := ReplaceCrlf(s);
    ReplaceCrlfKeepsVisible(isSpace, s);
    JoinSplit(unix);
    StrippedLinesKeepVisible(isSpace, Split(unix));
    var collapsed := Collapse(StripLines(isSpace, unix));
    CollapseKeepsVisible(isSpace, StripLines(isSpace, unix));
    RStripKeepsVisible(isSpace, IsNewline, collapsed);
    VisibleBoth(isSpace, RStrip(IsNewline, collapsed), "\n");
    SpacesAreInvisible(isSpace, "\n");
  }

  /** Replacing CRLF once does not remove every CRLF. */
  lemma ReplacingIsNotEnough()
    ensures CountCrlf(ReplaceCrlf("\r\r\n")) == 1
  {
    assert "\r\r\n"[1..] == "\r\n" && "\r\n"[2..] == "";
    assert ReplaceCrlf("\r\n") == "\n";
    assert ReplaceCrlf("\r\r\n") == "\r\n";
  }
}
