# Reviewed edits, proved

A Dafny model of the reviewed-edit core of humanhand, with proofs. `dafny verify dfyconfig.toml` checks it.

The centre is the pipeline that proposes lexical edits over a text, keeps the ones a human review accepts, splices them into the
surface text, translates every node span and protected span into the new text, and commits a new accepted revision under an
optimistic check. The same edit is computed four ways there: back to front over the surface, locally in each node, offset by
offset, and span by span. The proofs make one left-to-right pass (`LexicalChanges.Rebuild`) the meaning of all four. On top of
that stands a state machine of many clients that load in three separate reads and then try to commit; its theorems hold in every
run. Around the centre: greedy matching of facts and claims, flattening of document trees, the type-directed capsule format, the
review log of style evidence and the profile status built on it, percentile summaries, and the whitespace normal form.

| module | source |
|---|---|
| `Sequences`, `Decimals`, `Wrappers` | shared facts, decimal ids, outcome types |
| `LexicalChanges`, `LexicalApplication` | `domain/lexical_normalizer.py` (`apply_changes`), the reference meaning and the coordinate map |
| `Documents`, `RevisionTransform`, `RevisionAgreement`, `CoveragePromise` | `domain/revision_transform.py` |
| `StructureSignature`, `LexicalReview`, `LexicalRules`, `LexicalContexts`, `ContextWindows`, `LexicalProposals`, `LexicalDecisions`, `ProtectedSpans`, `Revisions` | the files of the same names, and `domain/lexical_normalizer.py` |
| `SpanRebase`, `IntegratedWorkflow`, `ReviewedPipeline`, `Refusals`, `WorkflowSafety`, `WorkflowRecords`, `IngestedTexts`, `WorkflowOutcomes`, `WorkflowProgress` | `application/integrated_workflow.py` |
| `Quotations` | `domain/quotations.py` |
| `ProjectStore`, `StoreRules`, `StoreReads` | `infra/stores/project_store.py`, `infra/stores/integrated_project_store.py` |
| `MatchingSupport`, `Facts`, `FactReports`, `ClaimDiff`, `ClaimReports` | `domain/facts.py`, `domain/claim_diff.py` |
| `CanonicalDocuments`, `ContextCapsules` | `domain/canonical_document.py`, `domain/context_capsule.py` |
| `StyleServices`, `StyleReviewLog`, `StyleProfiles`, `ProfileReports`, `StyleMetrics` | `application/style_services.py`, `domain/style_profiles.py`, `domain/style_coverage.py`, `domain/style_metrics.py` |
| `Scrub` | `domain/scrub.py`, steps 6 to 9 |

Loops that update variables are methods, proved against a specification function; the store, the decision log and the id counter
are mutable objects. What the code calls and the model does not look into is a function-valued parameter: SHA-256, NFC, run ids,
lower-casing and case folding, whitespace and word characters, inflection, the collocation check, the similarity ratio,
`_contradicts`, and the fact and style checks of finalization. Assumptions about them are stated where they are used: an injective
digest in `RevalidationIsExact`, a ratio that is 1 exactly on equal texts and never above 1 in `Facts`, lower-casing that does not
look across a blank line in `StyleProfiles`, and a carriage return (for `ScrubbingKeepsVisible` also a
newline) that counts as whitespace in `Scrub`.

## Where the code and its promises differ

- The transform promises that every change maps to an exactly represented editable node. It compares sets of change ids, so of
  two changes with one id one may edit the surface alone (`SharedIdHidesAChange`, for instance `SharedIdPair`). The promise
  holds exactly for distinct ids (`PromiseKeptIff`); the proposals made here number their changes.
- A node span with end before start passes the boundary check although a change straddles its start (`ReversedSpanIsAccepted`).
  The check is exact precisely for spans that are not reversed (`CheckIsExactIff`).
- The signature's docstring says its framing cannot be ambiguous. With a NUL in a heading it can (`NulMakesFrameAmbiguous`); the
  comparison of signatures is exact all the same, because it also compares the headings (`RevalidationIsExact`).
- Inline quotations are stored with the text between the marks and the offsets of the marks (`CandidatesRead`). A document
  ingested with such a span can never be finalized (`InexactSpanFreezesDocument`; exactly when: `LoadedSpansReadIff`).
- The Markdown importer gives headings, list items and quoted paragraphs the text without its marker and the span of the whole
  line. Where such a text is editable, the document can never be finalized either, not even with no accepted change at all
  (`InexactTextFreezesDocument`, `MarkedLineIsIngestedInexact`; exactly when: `LoadedTextsReadIff`, `ReviewGoesThroughIff`).
- Once a review excludes a span, every further review of the replayed package raises, after the record was appended
  (`RecordingOnEffectiveIff`, `Vault.RecordReviewDecision`).
- `build_protected_span_set` says nested spans keep only the outermost region, and that lists out of order are safe too. It
  keeps the first span listed: among spans with one start, sorted by start and end, that is the shortest (`FirstOfTwoIsKept`),
  and out of order a span is lost that overlaps nothing (`OutOfOrderIsLost`). Exactly which regions stay protected:
  `RegionIsKeptIff` in any order, `SortedRegionsAreKeptIff` in the order in which the extractors list them.
- `lexical_normalizer` says that anything ambiguous is a no-op. Rules of the base ruleset that disagree about a word are not found
  ambiguous when the strongest is labelled as a preference, glossary or register rule (`MixedRulesArePassed`); ambiguity is
  declined exactly otherwise (`AmbiguousIsDeclinedIff`).
- `save_revision` says it rejects a revision when a stored one has a token of at least its base token. It accepts exactly the
  token and the id of the newest stored revision, whatever its status, as base and parent (`RowIsSavedIff`).
- A text that lacks only its final newline is changed without a finding or a modification (`NothingReportedIff`).

## Model

| member | source | states |
|---|---|---|
| LexicalChanges.OrderIndependent | src/humanhand/domain/lexical_normalizer.py:632 | Disjoint changes are processed in the same order, ascending and descending, however the proposal lists them: the sort has one outcome. |
| LexicalChanges.CoordinateMap | src/humanhand/domain/revision_transform.py:56-62 | At a position no change straddles, the new text up to the shifted position is the old prefix with its own changes applied, and the shifted position is in bounds. |
| LexicalChanges.SegmentImage | src/humanhand/domain/revision_transform.py:56-77 | For two such positions the shift is monotone, and the new text between the shifted positions is the old segment with the overlapping changes applied. |
| LexicalChanges.NewTextLength | src/humanhand/domain/lexical_normalizer.py:611-642 | The new text is as long as the old one plus the sum of target length minus replaced length. |
| LexicalChanges.SortMeaning | src/humanhand/domain/revision_transform.py:43 | The ascending sort orders by offset, then length, and keeps the listed order of changes that agree in both. |
| LexicalChanges.SortDescendingMeaning | src/humanhand/domain/lexical_normalizer.py:632 | The descending sort does so too: changes that agree in both stay in their listed order. |
| LexicalApplication.ApplyChanges | src/humanhand/domain/lexical_normalizer.py:611-642 | The descending in-place splice, with its schema, hash, bounds and surface checks, computes `AppliedText`: the same text, or the error the source raises first. |
| LexicalApplication.BackToFrontIsLeftToRight | src/humanhand/domain/lexical_normalizer.py:632-642 | For disjoint changes the back-to-front splice succeeds exactly when every change fits the text, and then equals one left-to-right pass that copies gaps and writes targets. |
| LexicalApplication.ApplyChangesMeaning | src/humanhand/domain/lexical_normalizer.py:611-642 | When the selected changes are disjoint: success exactly if schema, hash and all surfaces match; the result is the left-to-right pass and has the stated length. |
| LexicalApplication.ApplyChangesOrderIndependent | src/humanhand/domain/lexical_normalizer.py:632 | Permuting `proposal.changes` does not change the result when the changes are disjoint. |
| LexicalApplication.OverlapIsAcceptedIff | src/humanhand/domain/lexical_normalizer.py:611-642 | Of two overlapping changes that fit the text the splice alone accepts the pair exactly when what follows the start of the later one still begins, after its splice, with what the earlier one covered. |
| RevisionTransform.OrderedChanges | src/humanhand/domain/revision_transform.py:42-53 | The loop returns the sorted changes or the first line-break or overlap error in sorted order. |
| RevisionTransform.OrderCheckMeaning | src/humanhand/domain/revision_transform.py:44-53 | For changes of positive length the check passes exactly when no surface or target contains a line break, the sorted changes are pairwise disjoint, and the first starts at or after the previous end (-1 at first). |
| RevisionTransform.ShiftedOffset | src/humanhand/domain/revision_transform.py:56-62 | The loop adds the growth of the changes that end at or before the offset. |
| RevisionTransform.ChangesInside | src/humanhand/domain/revision_transform.py:65-77 | The loop returns the overlapping changes in order, or names the first one that crosses a boundary. |
| RevisionTransform.AcceptedIffUncut | src/humanhand/domain/revision_transform.py:65-77 | A span is accepted exactly when no change straddles its start or its end. |
| RevisionTransform.ReversedAcceptedIff | src/humanhand/domain/revision_transform.py:65-77 | A span with end before start is accepted exactly when no change covers both of its ends. |
| RevisionTransform.CheckIsExactIff | src/humanhand/domain/revision_transform.py:65-77 | For a span the check accepts exactly the changes that straddle neither end, whatever the changes, precisely when the span is not reversed. |
| RevisionTransform.LocalSplice | src/humanhand/domain/revision_transform.py:109-117 | The node-local back-to-front splice succeeds and gives the node's segment of the edited surface: local and global edit agree. |
| RevisionTransform.SpliceNode | src/humanhand/domain/revision_transform.py:109-116 | The loop over an exact node's changes never meets a text mismatch and yields the edited segment. |
| RevisionTransform.ApplyNodeChanges | src/humanhand/domain/revision_transform.py:80-134 | Edits and moves one node, or raises the first of the five node errors; the result is stated through the edited segment of the surface, not through the loop. |
| RevisionTransform.AppliedIsApplicable | src/humanhand/domain/revision_transform.py:147-148 | Changes that pass the order check and whose splice succeeds are disjoint and fit the surface, so the later stages may rely on it. |
| RevisionTransform.TransformNodes | src/humanhand/domain/revision_transform.py:149-154 | The node loop transforms every node in order and collects exactly the ids of the covering changes. |
| RevisionTransform.ValidateNodes | src/humanhand/domain/revision_transform.py:167-177 | The last loop names the first editable node with text that does not read its span. |
| RevisionTransform.ApplyReviewedProposal | src/humanhand/domain/revision_transform.py:137-178 | The whole transform, error for error in the source's order. |
| RevisionAgreement.ExactNodeStaysExact | src/humanhand/domain/revision_transform.py:80-134 | An accepted node that was exactly its slice of the old surface is exactly its shifted slice of the new one, edited or not. |
| RevisionAgreement.TransformKeepsAgreement | src/humanhand/domain/revision_transform.py:137-178 | After a successful transform: the surface is the left-to-right pass and the canonical text its normal form; every node keeps its place, type and annotations, moves by the coordinate map, and stays exact if it was; nothing else of the document changes. |
| RevisionAgreement.CoveredIffLands | src/humanhand/domain/revision_transform.py:149-154 | An id is covered exactly when a change of this id lies within a non-empty exact editable node. |
| RevisionAgreement.EveryChangeEditsANode | src/humanhand/domain/revision_transform.py:155-160 | With distinct change ids every applied change itself lies within a non-empty exact editable node: none touches the surface alone. |
| CoveragePromise.PromiseKeptIff | src/humanhand/domain/revision_transform.py:140-160 | For every proposal the transform can accept: over all documents with the surface, success means that each change edits a node, exactly when the change ids are distinct. |
| CoveragePromise.SharedIdHidesAChange | src/humanhand/domain/revision_transform.py:155-160 | Whenever two changes share an id there is a document that the transform accepts although one of them edits no node. |
| RevisionAgreement.NodeAccepted | src/humanhand/domain/revision_transform.py:88-108 | Any node is accepted exactly when no change straddles its ends (for a reversed span: covers both) and, if a change overlaps its text, it is an editable exact node. |
| RevisionAgreement.UneditedSpan | src/humanhand/domain/revision_transform.py:120-131 | A span no change overlaps reads at its shifted place what it read before, also when it reaches past the end of the text. |
| RevisionAgreement.TransformSucceedsIff | src/humanhand/domain/revision_transform.py:137-178 | For every document and proposal, in their own terms: success exactly if schema and hash are right, no change has a line break, the changes are disjoint and fit the surface, every node takes them, every change id lands in an exact editable node, and untouched editable texts read their shifted spans. |
| RevisionAgreement.ValidationReadsOldSpans | src/humanhand/domain/revision_transform.py:167-177 | Once every node takes the changes, the last condition is that editable texts at ordered offsets read their old spans; only negative or reversed offsets leave it to the shifted span. So the last loop cannot raise on documents whose editable nodes are exact. |
| StructureSignature.ComputeStructureSignature | src/humanhand/domain/structure_signature.py:31-63 | The loop over digest, headings, counts and paragraph count computes the signature of the node list. |
| StructureSignature.SignatureCounts | src/humanhand/domain/structure_signature.py:31-63 | The signature counts all nodes, and those of each type that occurs, as often as it occurs. |
| StructureSignature.NameIsOfType | src/humanhand/domain/document_serialization.py:146-152 | Each name a node type is read from is the name the type is written and hashed with. |
| StructureSignature.HeadingAt | src/humanhand/domain/structure_signature.py:51-54 | Each heading's text is listed after those of the headings before it. |
| StructureSignature.FrameOfSample | src/humanhand/domain/structure_signature.py:31-57 | The string hashed for a document with one heading and one paragraph, written out. |
| StructureSignature.FrameDecodes | src/humanhand/domain/structure_signature.py:34-37 | If no heading contains a NUL, the hashed string determines all node types in order and all heading texts. |
| StructureSignature.NulMakesFrameAmbiguous | src/humanhand/domain/structure_signature.py:36-37 | Two node lists under a document root with different types and one hashed string, one with a NUL in a heading: the encoding can be ambiguous. |
| StructureSignature.EqualFramesIff | src/humanhand/domain/structure_signature.py:31-63 | Of two node lists with the same hashed string the types and headings agree exactly when the heading texts do. |
| StructureSignature.FirstDiffIndexMeaning | src/humanhand/domain/lexical_review.py:270-274 | The index of the first difference of two heading lists: equal before it, and different (or one list ended) at it. |
| StructureSignature.RevalidationMeaning | src/humanhand/domain/lexical_review.py:174-193 | Drift of the headings is reported with the index of the first difference, drift of the digest only with equal headings. |
| StructureSignature.RevalidationIsExact | src/humanhand/domain/lexical_review.py:174-193 | With an injective digest, comparing signatures passes exactly when node types and heading texts agree in order, NULs or not. |
| StructureSignature.TransformKeepsSignature | src/humanhand/domain/revision_transform.py:137-178 | A successful transform keeps the structure signature. |
| ProtectedSpans.BuildProtectedSpanSet | src/humanhand/domain/protected_spans.py:85-121 | The loop keeps the spans the specification keeps, renumbered, or raises on invalid offsets. |
| ProtectedSpans.SpanSetMeaning | src/humanhand/domain/protected_spans.py:85-121 | Building fails exactly on invalid offsets; otherwise spans are sorted, disjoint, distinctly numbered, taken from the input, and building again changes nothing. |
| ProtectedSpans.DroppedIsShadowed | src/humanhand/domain/protected_spans.py:105-108 | A span is dropped only as a duplicate of, or because it starts before the end of, a span kept earlier in the list. |
| ProtectedSpans.RegionIsKeptIff | src/humanhand/domain/protected_spans.py:85-121 | In whatever order spans are listed, a span's region lies within a kept one exactly when the span starts at or after where those ahead of it reach, or lies within one of them that did. |
| ProtectedSpans.SortedRegionsAreKeptIff | src/humanhand/domain/protected_spans.py:85-121 | Of spans sorted by start every region is kept exactly when no span starts before the greatest end ahead of it and ends after it. |
| ProtectedSpans.OutOfOrderIsLost | src/humanhand/domain/protected_spans.py:89-95 | A span listed after one that lies behind it is lost although the two do not overlap. |
| ProtectedSpans.FirstOfTwoIsKept | src/humanhand/domain/protected_spans.py:89-108 | Of two spans of which the second starts before the end of the first only the first is kept, and the second is covered exactly when it lies within the first. |
| LexicalReview.ApplyReview | src/humanhand/domain/lexical_review.py:136-171 | Filtering by review, with the journal checks in the source's order. |
| LexicalReview.ReviewMeaning | src/humanhand/domain/lexical_review.py:136-171 | A journal is accepted exactly when its decisions are named, valid, distinct and about proposed changes; what remains are exactly the accepted changes, with hashes and findings kept. |
| LexicalReview.ReviewKeepsOrder | src/humanhand/domain/lexical_review.py:154-157 | Each accepted change stands in the reviewed proposal where the proposal lists it, as often as it lists it. |
| LexicalReview.ReviewedSubsetApplies | src/humanhand/domain/lexical_review.py:136-171 | Whatever is accepted of disjoint fitting changes, applying it to the same text never raises. |
| LexicalRules.SelectRuleMeaning | src/humanhand/domain/lexical_rules.py:31-45 | The selected rule matches the word and is least by (rank, rule id); none is selected exactly when none matches. |
| LexicalRules.SelectRuleOrderIndependent | src/humanhand/domain/lexical_rules.py:31-45 | With distinct rule ids the selection does not depend on the order of the rules. |
| LexicalContexts.BuildContexts | src/humanhand/domain/lexical_context.py:34-70 | The loop yields one context per token, in order, with its windows and covering spans. |
| LexicalContexts.ContextsAreTheWords | src/humanhand/domain/lexical_context.py:34-70 | Every character that is not blank lies in a context, and every context stands between blanks or ends of the text. |
| LexicalContexts.ContextsWithMultiwordCandidates | src/humanhand/domain/lexical_normalizer.py:375-420 | Phrase matches longest first, suppressed token contexts and the final sort, as specified. |
| LexicalContexts.CandidatesInOrder | src/humanhand/domain/lexical_normalizer.py:375-420 | Over the text's own contexts the candidates are non-empty exact slices, pairwise disjoint and in text order. |
| LexicalContexts.ContextsAreCovered | src/humanhand/domain/lexical_normalizer.py:412-420 | No context is lost: each is a candidate unless a candidate phrase overlaps it. |
| LexicalContexts.OccurrenceIsAnswered | src/humanhand/domain/lexical_normalizer.py:375-410 | Longest first: every occurrence of a multiword phrase of the index starts inside a match that is a candidate or overlaps a candidate phrase at least as long. |
| ContextWindows.ContextMeaning | src/humanhand/domain/lexical_context.py:43-70 | Each context has its lowered token, up to three lowered tokens to the left and three as they are to the right, and the ids of exactly the spans over its first character. |
| ContextWindows.CandidateMeaning | src/humanhand/domain/lexical_normalizer.py:384-420 | Every candidate is a context of the text or a whole-word occurrence, up to case, of a source with a blank, with forty characters to each side and the ids of exactly the spans it overlaps. |
| ContextWindows.PhrasesLongestFirst | src/humanhand/domain/lexical_normalizer.py:384-386 | Phrases are looked for longest first, equally long ones in lexicographic order. |
| ContextWindows.SortContextsMeaning | src/humanhand/domain/lexical_normalizer.py:420 | Candidates are ordered by offset and then by falling length, each as often as it was found. |
| LexicalRules.LexLeMeaning | src/humanhand/domain/lexical_rules.py:42-45 | The tie-break on rule ids is lexicographic: equal, a beginning, or smaller at the first difference. |
| LexicalRules.PrecedenceIsNamed | src/humanhand/domain/lexical_types.py:32-42 | Each precedence is read back from the name a change carries. |
| LexicalProposals.StripMeaning | src/humanhand/domain/lexical_normalizer.py:353 | Stripping removes exactly the punctuation at both ends. |
| LexicalProposals.PunctuationIsListed | src/humanhand/domain/lexical_normalizer.py:353 | Punctuation are the 32 characters of Python's `string.punctuation`. |
| LexicalProposals.FindCore | src/humanhand/domain/lexical_normalizer.py:356 | The first occurrence of the stripped core in the raw token is where stripping found it, so the computed offset is the core's. |
| LexicalProposals.UnprotectedDecision | src/humanhand/domain/lexical_normalizer.py:261-332 | Past the protection check nothing raises (the winning rule exists), and a proposed change replaces exactly the matched token. |
| LexicalProposals.ProposeChanges | src/humanhand/domain/lexical_normalizer.py:208-345 | The loop of proposals and findings equals the specification for any contexts, including both argument errors. |
| LexicalProposals.ProposalMeaning | src/humanhand/domain/lexical_normalizer.py:208-345 | Over the text's own contexts it fails only on a bad threshold or an empty ruleset; the changes are numbered in order, disjoint, equal to their slices and clear of every protected span. |
| LexicalProposals.EveryMatchIsAnswered | src/humanhand/domain/lexical_normalizer.py:243-332 | Each candidate that stands for a known surface has one change or one finding of its own, in the order of the candidates; other candidates have none, and there are no further changes or findings. |
| LexicalDecisions.SelectedIsBest | src/humanhand/domain/lexical_rules.py:31-45 | The selected rule is the first of the word's rules that no other is stronger than. |
| LexicalDecisions.RankIsPosition | src/humanhand/domain/lexical_types.py:46-55 | The rank of a precedence is its position in the order from protected span down to no change. |
| LexicalDecisions.UnprotectedMeaning | src/humanhand/domain/lexical_normalizer.py:261-332 | From the inputs alone: the rule is that of the first of preference, project, register, domain and base that knows the word; it is declined if its level has rules at odds, its target has no inflection, or the collocation breaks; otherwise the change writes the inflected target, and is safe exactly from the threshold on at curated level or above. |
| LexicalDecisions.AmbiguousIsDeclinedIff | src/humanhand/domain/lexical_normalizer.py:277-288 | A word with a rule is declined as ambiguous exactly when the rules of its source disagree about it, unless only the base ruleset knows it and the best rule is labelled with the precedence of another source. |
| LexicalDecisions.MixedRulesArePassed | src/humanhand/domain/lexical_normalizer.py:277-288 | Such a ruleset, for which two rules with different targets are not found ambiguous. |
| LexicalDecisions.DecisionMeaning | src/humanhand/domain/lexical_normalizer.py:245-260 | A token over a protected span, or in a context with one, is skipped with its finding and decided in no other way. |
| LexicalDecisions.MatchMeaning | src/humanhand/domain/lexical_normalizer.py:348-372 | A context stands for the only source its stripped token equals up to case, else for the only one-word source of which it is the -ing or -ed form, at the core's offset. |
| LexicalDecisions.SurfaceIndexMeaning | src/humanhand/domain/lexical_normalizer.py:235-241 | The known sources are exactly the words some rule source or preference names, each once. |
| LexicalProposals.ReviewedProposalApplies | src/humanhand/domain/lexical_normalizer.py:611-642 | Any reviewed subset of such a proposal is applied to the text without raising. |
| SpanRebase.RebaseProtectedSpans | src/humanhand/application/integrated_workflow.py:322-355 | The nested loops over spans and accepted changes compute the specified rebase or its first error. |
| SpanRebase.RebaseSpanIff | src/humanhand/application/integrated_workflow.py:334-354 | A span is rebased exactly when no accepted change overlaps it and it read its text before; both its ends then move by the coordinate map. |
| SpanRebase.RebaseSucceedsIff | src/humanhand/application/integrated_workflow.py:322-355 | All spans are rebased exactly when each is clear of the changes and exact; every span then keeps its length and reads its own text in the new surface. |
| SpanRebase.RebaseKeepsOrder | src/humanhand/application/integrated_workflow.py:322-355 | Whatever order the spans are listed in: of any two, what ended at or before the start of the other still does. |
| SpanRebase.RebaseKeepsDisjoint | src/humanhand/application/integrated_workflow.py:322-355 | In particular a sorted disjoint list stays sorted and disjoint. |
| Revisions.AcceptedExtendsChain | src/humanhand/domain/revisions.py:73-119 | Proposing on the head of a chain and accepting against it never conflicts and extends the chain rev-1, rev-2, ... by one. |
| Revisions.ChainHasDistinctBases | src/humanhand/domain/revisions.py:36-119 | No two accepted revisions of a chain share a base token, an id or a parent. |
| Revisions.RevisionIdInjective | src/humanhand/domain/revisions.py:90 | Different tokens give different revision ids. |
| ProjectStore.Store.LatestAcceptedRevision | src/humanhand/infra/stores/integrated_project_store.py:90-97 | A stored accepted revision with the greatest token of the accepted ones; none exactly when none is accepted. |
| ProjectStore.Store.LoadRevisionContent | src/humanhand/infra/stores/integrated_project_store.py:184-225 | The stored content, exactly when there is one with the revision's hash whose document parses and has its text; otherwise the error. |
| ProjectStore.Store.LoadProtectedSpans | src/humanhand/infra/stores/project_store.py:576-594 | The spans of a permutation of the document's rows, ascending in the text of their ids. |
| ProjectStore.Store.SaveRevisionRow | src/humanhand/infra/stores/project_store.py:355-420 | Inserts the row or leaves the store unchanged with the error. |
| ProjectStore.Store.SaveRevisionContent | src/humanhand/infra/stores/integrated_project_store.py:99-182 | Inserts the content of a stored revision or leaves the store unchanged with the error, in the order of the checks. |
| ProjectStore.Store.SaveProtectedSpans | src/humanhand/infra/stores/integrated_project_store.py:227-253 | Replaces all span rows of the document. |
| StoreReads.CommitReadsBack | src/humanhand/application/integrated_workflow.py:417-435 | After a commit the latest accepted revision, its content and the span rows are exactly those committed, the approvals are those before and one of the new revision, and other documents are as before. |
| StoreReads.IngestReadsBack | src/humanhand/application/integrated_workflow.py:136-157 | After an ingest the first load finds exactly what was ingested, one approval of the ingest was added, and other documents are as before. |
| StoreRules.RowIsSavedIff | src/humanhand/infra/stores/project_store.py:372-420 | A revision row is saved exactly when it follows the greatest token's revision (or starts the document) and its id and token are new; the two failures are told apart, and nothing else is written. |
| StoreRules.AcceptedIffChild | src/humanhand/domain/revisions.py:99-119 | Exactly the child of the expected revision is accepted, and only its status changes. |
| StoreRules.ContentIsSavedIff | src/humanhand/infra/stores/integrated_project_store.py:99-182 | A content is stored exactly when it belongs to its revision, the revision has a row, and no other content is stored for it. |
| StoreRules.ParsedIff | src/humanhand/domain/document_serialization.py:229-277 | A stored document is read exactly if its version is 1, its first node is the only root, ids are distinct and every other node names a node of the list as its parent. |
| StoreRules.ContentRefusal | src/humanhand/infra/stores/integrated_project_store.py:99-150 | The error names the first fault of text, hash, document, surface and document id. |
| StoreRules.LoadRefusal | src/humanhand/infra/stores/integrated_project_store.py:184-225 | A load gives the stored content if it is intact, and otherwise says whether it is missing, its hash, its document or its surface is wrong. |
| StoreRules.SpansAreSavedIff | src/humanhand/infra/stores/integrated_project_store.py:227-253 | Spans replace those of the document exactly when their ids are distinct; other documents keep theirs. |
| StoreRules.SpanComesBack | src/humanhand/infra/stores/project_store.py:576-594 | A span is loaded with its id, kind, text and offsets, as approved, on line 1 and without a label. |
| WorkflowRecords.FinalizationRecords | src/humanhand/application/integrated_workflow.py:402-429 | The stored revision and content name the run of the proposal, the bound style profile, the hash of the text and the signature of the document. |
| WorkflowRecords.IngestRecords | src/humanhand/application/integrated_workflow.py:120-157 | Ingest stores the document's own text as rev-1, under the given profile and no run. |
| WorkflowRecords.TargetInjective | src/humanhand/application/integrated_workflow.py:430-435 | What an approval is recorded for determines document and revision, whatever colons the document's id contains. |
| ProjectStore.Store.AtomicIngest | src/humanhand/application/integrated_workflow.py:136-157 | All of ingest's writes, or none of them. |
| ProjectStore.Store.AtomicCommit | src/humanhand/application/integrated_workflow.py:417-435 | The head check and all of finalization's writes, or nothing. |
| IntegratedWorkflow.IngestSourcePackage | src/humanhand/application/integrated_workflow.py:109-167 | Ingest rejects other lanes and known documents, and otherwise stores revision 1 with its content and spans, or nothing. |
| IntegratedWorkflow.ComputeFinalization | src/humanhand/application/integrated_workflow.py:367-415 | Everything finalization computes before its transaction, error for error. |
| IntegratedWorkflow.FinalizeReviewedRevision | src/humanhand/application/integrated_workflow.py:358-443 | The store ends with the committed revision, content and spans, or exactly as it was. |
| IntegratedWorkflow.FinalizationKeeps | src/humanhand/application/integrated_workflow.py:366-435 | From consistent loaded state: the next revision of the same chain and structure signature, every span exact before and after and otherwise the same, disjoint spans still in order. |
| ReviewedPipeline.FinalizationSucceedsIff | src/humanhand/application/integrated_workflow.py:358-415 | For a review of the document's own proposal, the transform succeeds exactly when no change has a line break, the nodes take the changes, each change lies in an exact editable node and untouched texts read their spans; finalization, exactly when also the protected spans read their texts and the fact and style checks pass. Overlap, bounds, text, schema, hash, structure and base revision checks cannot fail. |
| ReviewedPipeline.ProposalsAreSelfNamed | src/humanhand/domain/lexical_normalizer.py:333-345 | A proposal names its ruleset and the hash of its text, and its ids are derived from its content; a reviewed one is renamed after what was accepted. |
| Refusals.ApplyRefusal | src/humanhand/domain/lexical_normalizer.py:617-638 | Schema before hash; then the error names the change at the back of the text that does not fit, as out of bounds or as reading something else. |
| Refusals.OrderRefusal | src/humanhand/domain/revision_transform.py:44-53 | The first change at fault in sorted order is reported: a line break in what it replaces, then one in its target, then an overlap. |
| Refusals.CrossedNode | src/humanhand/domain/revision_transform.py:65-77 | The first change that straddles an end of a node is reported, before anything else about the node. |
| Refusals.RefusedNode | src/humanhand/domain/revision_transform.py:88-108 | An overlapped text is refused for a protected type, then for a type that is not editable, then for offsets, then for what it reads; both type sets are listed. |
| Refusals.TransformRefusesNode | src/humanhand/domain/revision_transform.py:149-154 | If the changes pass, the first node that does not take them decides the error of the transform. |
| Refusals.TransformRefusesCoverage | src/humanhand/domain/revision_transform.py:155-160 | If every node takes the changes, an id that lands in no node is the error. |
| Refusals.TransformRefusesText | src/humanhand/domain/revision_transform.py:167-177 | If all lands, the first untouched editable text that does not read its shifted span is named. |
| Refusals.ReviewRefusal | src/humanhand/domain/lexical_review.py:147-149 | The schema first; then the first decision that has no id, neither accepts nor rejects, or repeats an id, each with its own error. |
| Refusals.UnknownRefusal | src/humanhand/domain/lexical_review.py:150-153 | Only after all decisions are sound is the first one about a change the proposal lacks reported. |
| Refusals.RebaseRefusal | src/humanhand/application/integrated_workflow.py:334-354 | The first span that a change overlaps, or that did not read its text, is reported, with the error of its case. |
| Refusals.FinalizationRefusal | src/humanhand/application/integrated_workflow.py:366-400 | Review, transform and rebase precede the fact check, that the comparison of headings and digest, that the style check; the first that fails is the error. |
| WorkflowSafety.StepKeepsInv | src/humanhand/application/integrated_workflow.py:242-435 | Every step of every client (ingest, each of the three reads, commit, abandoning) keeps the system invariant. |
| WorkflowSafety.RunKeepsInv | src/humanhand/application/integrated_workflow.py:242-435 | The invariant holds throughout every interleaved run from the empty store. |
| WorkflowSafety.AcceptedRevisionsFormAChain | src/humanhand/application/integrated_workflow.py:406-421 | At every moment of every run the revisions of a document are rev-1, rev-2, ..., each the child of the one before; no two share a base or a parent. |
| WorkflowSafety.NoTornReadIsCommitted | src/humanhand/application/integrated_workflow.py:242-274 | A commit that goes through was computed from revision, content and spans that are together the current ones. |
| WorkflowSafety.RunKeepsHistory | src/humanhand/application/integrated_workflow.py:417-435 | Histories only grow and stored content never changes, between any two moments of a run. |
| WorkflowSafety.ProtectedTextSurvives | src/humanhand/application/integrated_workflow.py:366-435 | In every run the same spans stay protected and pairwise disjoint, the latest signature is that of rev-1, and spans exact at ingest read their original text in the latest text. |
| WorkflowRecords.EachRevisionIsApproved | src/humanhand/application/integrated_workflow.py:136-157 | In every run a document's approvals are one of the ingest of rev-1 and then exactly one of each of rev-2 to rev-n, in order (lines 430-435 for the latter). |
| WorkflowRecords.StoredDocumentsDescend | src/humanhand/domain/revision_transform.py:161-166 | In every run each stored document is the ingested one in all but texts and spans, node by node, and its canonical text is the normal form of its surface if the ingested one's was. |
| Quotations.ExtractQuotations | src/humanhand/domain/quotations.py:29-70 | The loops over nodes and quoted runs, with the check for known locations, extract the specified quotations. |
| Quotations.ExtractedMeaning | src/humanhand/domain/quotations.py:29-70 | Every quotation is a candidate of some node, every candidate's location has one, and no location has two. |
| Quotations.RunIsFound | src/humanhand/domain/quotations.py:10-13 | Every quoted run of twenty characters or more starts inside one that is found. |
| Quotations.CandidatesRead | src/humanhand/domain/quotations.py:51-69 | In an exact node, the quotation of a quotation node reads its place; an inline quotation never does. |
| Quotations.QuotationMeaning | src/humanhand/domain/quotations.py:51-69 | A quotation is a quotation node's text that is not blank, at its place, or the stripped inside of a run between straight or curly marks of a paragraph or heading, at the marks, twenty characters long or more. |
| Quotations.RunIsQuoted | src/humanhand/domain/quotations.py:56-69 | Every run of twenty characters between marks starts in a run that is found, and that one is quoted unless stripping leaves fewer than twenty. |
| IngestedTexts.LoadedSpansReadIff | src/humanhand/application/integrated_workflow.py:345-353 | In every run the spans loaded with the newest revision read their texts exactly when the ingested ones did: with exact spans the rebase never fails for a text, with an inexact one always. |
| IngestedTexts.InexactSpanFreezesDocument | src/humanhand/application/integrated_workflow.py:345-353 | A document ingested with a span that does not read its own text stays at revision 1 for ever. |
| IngestedTexts.QuotedRunIsIngestedInexact | src/humanhand/domain/quotations.py:56-69 | Such a document is received: ingesting any source document of which an inline quotation of an exact paragraph or heading is kept as a span is a run after which its rows do not read. |
| IngestedTexts.LoadedTextsReadIff | src/humanhand/domain/revision_transform.py:167-177 | In every run the editable texts loaded with the newest revision are exact precisely when the ingested ones were (at ordered offsets), and offsets stay ordered. |
| IngestedTexts.InexactTextFreezesDocument | src/humanhand/domain/revision_transform.py:167-177 | A document ingested with an editable text that does not read its span stays at revision 1 for ever. |
| IngestedTexts.MarkedLineIsIngestedInexact | src/humanhand/infra/importers/markdown_importer.py:244-258 | Such a document is received: ingesting any source document with a line of which an editable text leaves out the marker is a run after which its texts do not read. |
| WorkflowOutcomes.CommitSucceedsIff | src/humanhand/application/integrated_workflow.py:417-435 | In every run a computed finalization commits exactly when its base is the newest revision and the new text is not empty; otherwise the error is the stale base, or the empty text. All other errors of the transaction are dead. |
| WorkflowOutcomes.ReviewGoesThroughIff | src/humanhand/application/integrated_workflow.py:358-443 | In every run, from proposal to commit: a review of the newest revision's own proposal becomes the next revision exactly when no change has a line break, nodes take every change, texts and protected spans were exact when ingested, facts and style pass, and some text is left. |
| WorkflowProgress.IngestStepIff | src/humanhand/application/integrated_workflow.py:109-167 | At the end of every run a document can be ingested exactly when it is of the source lane, parses, has a name, a text and spans at valid offsets, and is not known yet. |
| WorkflowProgress.LoadsNewest | src/humanhand/application/integrated_workflow.py:242-274 | From the end of every run any client can load any document by its three reads, none of which is refused, and then holds the newest revision. |
| WorkflowProgress.CommitStepIff | src/humanhand/application/integrated_workflow.py:358-443 | A client that holds a document can take the commit step exactly when what it computes goes through. |
| WorkflowProgress.ReviewBecomesRevision | src/humanhand/application/integrated_workflow.py:358-443 | Every run can be continued by the three reads and a commit of any review that goes through: afterwards the document has one revision more, with the computed content and spans. |
| Facts.FindBest | src/humanhand/domain/facts.py:96-102 | The inner loop finds the first of the most similar unmatched candidates above 0.7. |
| Facts.BestMeaning | src/humanhand/domain/facts.py:96-102 | The best match is unmatched, above the threshold and at least as similar as every other; none is found exactly when there is none. |
| Facts.DiffFacts | src/humanhand/domain/facts.py:71-135 | The nested loops with their matched sets compute the specified report. |
| Facts.DiffConserves | src/humanhand/domain/facts.py:93-126 | For all inputs, per category source plus additions balance candidates plus omissions; the score is the share of source anchors not omitted. |
| Facts.NoDriftMeans | src/humanhand/domain/facts.py:71-135 | Without drift the score is 1 and both texts have equally many anchors of every category. |
| Facts.SameAnchorsNoDrift | src/humanhand/domain/facts.py:71-135 | Anchor lists that agree as multisets of (category, lowercased text), in whatever order, show no omission, addition or contradiction. |
| Facts.MovedAnchorsPass | src/humanhand/domain/lexical_review.py:196-227 | If every anchor and citation is only moved, the fact and citation check passes. |
| FactReports.ReportMeaning | src/humanhand/domain/facts.py:93-126 | The report is what the greedy choices make of the lists: omitted are the anchors without a candidate above 0.7 left, contradictory the pairs chosen below 0.9, added the candidates nobody chose, each in order. |
| FactReports.NoDriftIff | src/humanhand/domain/facts.py:71-135 | There is no drift exactly when the choices pair up all anchors of both texts one to one, within categories and each with a ratio of at least 0.9. |
| FactReports.FactsKeptIff | src/humanhand/domain/lexical_review.py:196-227 | The fact and citation check passes exactly without drift and with the same citation texts, one by one. |
| FactReports.ChangedCitationFails | src/humanhand/domain/lexical_review.py:210-227 | A citation that is not the same text as the one in its place fails the check, however similar it is. |
| MatchingSupport.UnmatchedAt | src/humanhand/domain/facts.py:113-116 | The k-th item listed as unmatched is the one with k unmatched items before it. |
| ClaimDiff.DiffClaims | src/humanhand/domain/claim_diff.py:84-148 | The two phases over the flag lists compute the specified report. |
| ClaimDiff.PreservedIsIntersection | src/humanhand/domain/claim_diff.py:84-108 | Exactly min(source count, candidate count) claims of every proposition are preserved. |
| ClaimDiff.DiffPartitions | src/humanhand/domain/claim_diff.py:84-148 | Preserved, contradicted and omitted ids partition the source; matched, contradicted and added ones the candidates; every reported pair contradicts. |
| ClaimDiff.LeftoversAreUnrelated | src/humanhand/domain/claim_diff.py:84-148 | No omitted and added claim are equal or contradict each other. |
| ClaimReports.ReportMeaning | src/humanhand/domain/claim_diff.py:84-148 | Every source claim first chooses the first free equal candidate, and if it has none the first free contradicting one: preserved are the ids of the first group, contradicted the pairs of the second, omitted and added the ids of the rest, all in order; coverage is known exactly with source claims. |
| ClaimReports.PreservedAreShared | src/humanhand/domain/claim_diff.py:101-113 | With distinct ids, the claims listed as preserved are per proposition as many as the smaller of the two counts. |
| ClaimReports.OmittedAndAddedAreUnrelated | src/humanhand/domain/claim_diff.py:131-140 | With distinct ids no claim listed as omitted equals or contradicts one listed as added. |
| CanonicalDocuments.WrapNodes | src/humanhand/domain/canonical_document.py:101-136 | The recursive flattening with its shared counter yields the pre-order list and advances the counter by the size of the tree. |
| CanonicalDocuments.BuildNodes | src/humanhand/domain/canonical_document.py:139-161 | Rejects other roots and trees above the node limit, and otherwise flattens from n1. |
| CanonicalDocuments.WrappedNodeReads | src/humanhand/domain/canonical_document.py:101-136 | A node carries each field of its builder, and no attributes and the place 0, 0, 1, 1 where that gives none. |
| CanonicalDocuments.WrapIsInvertible | src/humanhand/domain/canonical_document.py:101-136 | The list has one node per tree node, ids are n1..nk in order, and the tree is read back from parent ids and sibling positions alone. |
| CanonicalDocuments.ParentsComeFirst | src/humanhand/domain/canonical_document.py:101-136 | The root has no parent; every other node of the list names an earlier node as its parent. |
| CanonicalDocuments.BuiltDocumentParses | src/humanhand/domain/document_serialization.py:265-277 | Every document built from a document root passes the parser's checks on ids and parents, so it can be stored and loaded. |
| CanonicalDocuments.TreeRecords | src/humanhand/domain/canonical_document.py:112-135 | The parent ids in the list are those of the tree. |
| CanonicalDocuments.MeasureDepth | src/humanhand/domain/canonical_document.py:176-198 | For any list whose parent walks end, also with unknown parents: one more than the longest walk, 0 without nodes. |
| CanonicalDocuments.WalkEndsIff | src/humanhand/domain/canonical_document.py:188-192 | A walk up the parents ends exactly when it passes no id twice. |
| CanonicalDocuments.WrappedDepthIsHeight | src/humanhand/domain/canonical_document.py:176-198 | On a flattened tree every walk ends and the measured depth is the height of the tree. |
| ContextCapsules.RenderThenRebuild | src/humanhand/domain/context_capsule.py:417-523 | Rebuilding a rendered well-typed value of any type gives the value back. |
| ContextCapsules.RebuildThenRender | src/humanhand/domain/context_capsule.py:417-523 | An accepted raw value rebuilds to a well-typed value that renders to it again, up to integers read as floats. |
| ContextCapsules.AcceptedIff | src/humanhand/domain/context_capsule.py:445-523 | A raw value is accepted exactly when some well-typed value renders to it, up to integers read as floats. |
| ContextCapsules.RenderInjective | src/humanhand/domain/context_capsule.py:417-442 | Different values of one type render differently. |
| StyleServices.ReplayDecisions | src/humanhand/application/style_services.py:159-220 | The loop over the two dictionaries computes the specified replay or its first error. |
| StyleServices.RunSucceedsIff | src/humanhand/application/style_services.py:177-192 | A log is accepted exactly when each record for the package is well-formed, not `unknown`, and about a span the package holds. |
| StyleServices.RunPlaces | src/humanhand/application/style_services.py:177-211 | After a replay each span stands where the last record about it put it, or where it stood. |
| StyleServices.ReplayIsLastWriterWins | src/humanhand/application/style_services.py:159-220 | On a fresh package the survivors are, in original order, the spans as last decided, and exactly the spans last excluded are excluded, with that record's reason. |
| StyleServices.ReplayMeaning | src/humanhand/application/style_services.py:175-220 | From the records alone: kept are, in order, the spans that no last record excludes, each unchanged or with the class named by its last record, its decider (by default `cli`), status `resolved` and its own text and place; every other span is excluded with its last record's reason or the default one. |
| StyleServices.ParsedIffNamed | src/humanhand/application/style_services.py:184-187 | A string is read as an authorship class exactly when it is the class's name. |
| StyleReviewLog.ReplayComposes | src/humanhand/application/style_services.py:159-220 | Replaying b on the result of a equals replaying a+b, unless b decides a span a left excluded; then it raises. |
| StyleReviewLog.ReplayAgainIff | src/humanhand/application/style_services.py:159-220 | Replaying a log on its own result is the identity exactly when the log leaves nothing excluded, and raises otherwise. |
| StyleReviewLog.ExclusionsAreSeparate | src/humanhand/application/style_services.py:194-211 | No span is excluded twice, and none is both excluded and kept. |
| StyleReviewLog.Vault.RecordReviewDecision | src/humanhand/application/style_services.py:231-254 | Unknown spans and the unknown class leave the log alone; otherwise the record is appended first and stays even when the replay raises. |
| StyleReviewLog.RecordingOnEffectiveIff | src/humanhand/application/style_services.py:231-254 | Recording on an already replayed package succeeds exactly when nothing is excluded so far; then it gives what the immutable package gives. |
| StyleReviewLog.RecordedHolds | src/humanhand/application/style_services.py:231-254 | After recording a decision the replay has the span with that class and decider, or excluded for that reason. |
| StyleProfiles.TokensAcrossBreak | src/humanhand/domain/style_metrics.py:761-763 | No token crosses a blank line, so the tokens of two joined texts are the tokens of each. |
| StyleProfiles.VoiceProfileWordCount | src/humanhand/domain/style_coverage.py:78-84 | The loop over eligible spans counts the words of the package's joined voice text. |
| StyleProfiles.AggregateCoverage | src/humanhand/domain/style_profiles.py:147-213 | The loops with the growing feature list compute the specified aggregate, or reject reports in another order. |
| StyleProfiles.AggregateMeaning | src/humanhand/domain/style_profiles.py:147-213 | Fail-closed: the aggregate is clean exactly when every report is, `complete` only if all are, and no ratio exceeds any report's. |
| StyleProfiles.UnsupportedMeaning | src/humanhand/domain/style_profiles.py:184-188 | The aggregate lists exactly the features some report lists. |
| StyleProfiles.VoiceIsTheSum | src/humanhand/domain/style_profiles.py:115-117 | The joined voice text has exactly the words the packages report one by one. |
| StyleProfiles.BuildProfile | src/humanhand/domain/style_profiles.py:94-144 | The profile's text, ids, word count and coverage, or the error for no packages. |
| StyleProfiles.NeverDowngraded | src/humanhand/domain/style_profiles.py:216-242 | Building a profile never takes the downgrading branch: sufficient samples are sufficient together. |
| StyleProfiles.ProfileStatusIff | src/humanhand/domain/style_profiles.py:94-242 | Human review exactly while some span is unresolved or some feature unsupported; complete exactly when, besides, every package has a surface and all voice words together reach the minimum. |
| StyleProfiles.ReviewedIsResolvedIff | src/humanhand/domain/style_authorship.py:78-84 | After replaying a log a package is fully resolved exactly when the log decides every span that was not resolved. |
| ProfileReports.WordIsToken | src/humanhand/domain/style_metrics.py:761-763 | A run of letters and digits is a token, up to anything but an apostrophe with a letter. |
| ProfileReports.ContractionIsToken | src/humanhand/domain/style_metrics.py:761-763 | With an apostrophe and letters behind it, it is one token together with them. |
| ProfileReports.OtherIsSkipped | src/humanhand/domain/style_metrics.py:761-763 | Any other character is skipped; with the last two this determines the tokens of every text. |
| ProfileReports.VoiceAt | src/humanhand/domain/style_authorship.py:51-59 | Each resolved span of the user's prose or revisions, and no other, adds its text to the voice, in order. |
| ProfileReports.VoicesAt | src/humanhand/domain/style_profiles.py:94-117 | Packages without a voice add nothing to the joined text. |
| ProfileReports.PackageReport | src/humanhand/domain/style_coverage.py:40-75 | Every field of a package's report from the package: covered text and structure, open spans, sufficiency and status. |
| ProfileReports.AggregateReport | src/humanhand/domain/style_profiles.py:147-213 | For arbitrary reports: least ratios, total of open spans, and the exact conditions of `partial` and `complete`. |
| ProfileReports.ReconciledReport | src/humanhand/domain/style_profiles.py:216-242 | For arbitrary reports: only sufficiency and status change, each exactly as the joined sample demands. |
| StyleMetrics.SortedMeaning | src/humanhand/domain/style_metrics.py:432 | The sorted sample is ascending and has the same values with the same multiplicities and sum. |
| StyleMetrics.PercentileSeparates | src/humanhand/domain/style_metrics.py:653-661 | Elements up to the interpolated position are at most the percentile, elements from it on at least. |
| StyleMetrics.PercentileMonotone | src/humanhand/domain/style_metrics.py:653-661 | A larger quantile never has a smaller percentile. |
| StyleMetrics.PercentileIsWeighted | src/humanhand/domain/style_metrics.py:653-661 | Between two elements a percentile is their mean, weighted by the distances of its position from their indices. |
| StyleMetrics.PercentileOfEvenlySpaced | src/humanhand/domain/style_metrics.py:653-661 | On an evenly spaced sample every percentile lies on the line through it, at the quantile of its length. |
| StyleMetrics.MedianIsMiddle | src/humanhand/domain/style_metrics.py:424-460 | The median is the middle value of the sorted sample, or the mean of the two in the middle. |
| StyleMetrics.PercentilesOfTwentieths | src/humanhand/domain/style_metrics.py:451-457 | The five summaries stand at 10, 25, 50, 75 and 90 per cent of the sorted sample. |
| StyleMetrics.SummaryMean | src/humanhand/domain/style_metrics.py:448-458 | The reported mean is that of the sample as listed. |
| StyleMetrics.MeanSpreadsSum | src/humanhand/domain/style_metrics.py:448-458 | The mean times the number of values is their sum. |
| StyleMetrics.PercentilesInOrder | src/humanhand/domain/style_metrics.py:424-460 | minimum <= p10 <= p25 <= median <= p75 <= p90 <= maximum for every sample, also the empty one. |
| StyleMetrics.MeanInRange | src/humanhand/domain/style_metrics.py:448-458 | The mean lies between minimum and maximum and is the mean of the unsorted sample. |
| StyleMetrics.EndsAreExtremes | src/humanhand/domain/style_metrics.py:451-457 | Minimum and maximum are members of the sample that bound every member. |
| Scrub.NormalizeWhitespace | src/humanhand/domain/scrub.py:100-149 | The four guarded steps compute the specified text, findings and modification count on top of the earlier ones. |
| Scrub.ScrubbedIsNormal | src/humanhand/domain/scrub.py:100-143 | Whatever the input, the result has no CRLF, no trailing whitespace on any line, no three newlines in a row and exactly one final newline. |
| Scrub.NormalIsFixed | src/humanhand/domain/scrub.py:100-143 | A text in normal form is left alone and nothing is reported. |
| Scrub.SecondRunDoesNothing | src/humanhand/domain/scrub.py:100-143 | The steps are idempotent, and the second run reports nothing. |
| Scrub.NothingReportedIff | src/humanhand/domain/scrub.py:100-143 | Nothing is reported exactly when every line is stripped and no blank lines repeat; then at most the final newline changes. |
| Scrub.FindingsMeaning | src/humanhand/domain/scrub.py:100-143 | Reported are, in order, the exact number of CRLFs, whether a line has trailing whitespace, and whether three newlines follow each other then. |
| Scrub.ScrubbingKeepsParagraphs | src/humanhand/domain/scrub.py:100-143 | Every line survives up to trailing whitespace, in order, and which lines a blank line separates stays the same. |
| Scrub.ScrubbingKeepsVisible | src/humanhand/domain/scrub.py:100-143 | The characters that are not whitespace stay the same, in order. |
| Scrub.ReplacingIsNotEnough | src/humanhand/domain/scrub.py:101-103 | Replacing CRLF alone leaves one in "\r\r\n": the normal form needs the stripping step. |

## Left out

- ProjectStore.Store.SaveRevisionContent: takes the document as a value; of the parser it has the structural checks (`Documents.Parseable`), not the JSON text and the types of its fields; a revision without a row and one whose row has another hash are one error.
- IngestedTexts.MarkedLineIsIngestedInexact: takes the importer's lines as a condition on the node; the importers are not modelled.
- IngestedTexts.QuotedRunIsIngestedInexact: the other extractors are any list of spans; that the quotation is kept among them is a condition.
- StructureSignature.FrameDecodes: works on characters; the source hashes their UTF-8 bytes, which decode uniquely.
- StructureSignature.ComputeStructureSignature: keys the counts by node type instead of its name and leaves the sorting of the keys out.
- Facts.DiffFacts: leaves the rounding of the preservation score to four digits out, and starts from extracted anchors.
- ClaimDiff.DiffClaims: the two nested loops share one method; the first loop's lack of a skip makes no difference there.
- LexicalProposals.ProposeChanges: inflection and collocation are functions that may decline; the set of source tokens is an ordered list without duplicates.
- ContextCapsules.RenderThenRebuild: the dataclass rebuild is stated on values (which of several mismatches is reported first is not), and ambiguous unions and unsupported types are not modelled.
- CanonicalDocuments.MeasureDepth: requires that every walk up the parents ends; on a parent cycle, which the document parser accepts, the source does not end (`WalkEndsIff`).
- StyleReviewLog.ReplayComposes: starts from a fresh package (distinct span ids, nothing excluded), as derived packages are.
- StyleMetrics.PercentilesInOrder: over real numbers; floating-point rounding and the standard deviation are left out.
- IntegratedWorkflow.IngestSourcePackage: claims, entities, relationships, the project row and the profile binding are not stored; they take no part in the guarded commit.
- IntegratedWorkflow.FinalizeReviewedRevision: the fact check is a parameter here; `Facts.MovedAnchorsPass` says when the real one passes.
- The JSON text of documents, proposals, journals, revisions and capsules, and its parsers, with the shape checks on their fields.
- The regular expressions for citations, numbers, dates and fact anchors, and the active-content scan.
- The ratios and counters of `style_metrics.py` other than percentiles, and the tendencies and invariants extracted from them.
- Steps 1 to 5 of output scrubbing (byte-order mark, JSON wrapper, tags, fences, telemetry).
- Nested transactions, SQLite errors, permissions, encryption and retention of the store.
- The command line, rendering, configuration, logging, network clients and prompts.
