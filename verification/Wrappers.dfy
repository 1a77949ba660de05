/** Outcome types shared by every module: optional values, and results that carry the reason a check raised. */
module Wrappers {

  datatype Option<+T> = None | Some(value: T)

  /** One constructor per kind of `DomainError` (or store error) the modelled code raises. */
  datatype Error =
      // lexical_normalizer.apply_changes
    | UnsupportedSchema
    | DocumentHashMismatch
    | ChangeOutsideDocument(changeId: string)
    | ChangeTextMismatch(changeId: string)
      // revision_transform
    | SourceLineBoundary(changeId: string)
    | TargetLineBoundary(changeId: string)
    | OverlappingChanges
    | CrossesNodeBoundary(changeId: string)
    | ProtectedNode(nodeId: string)
    | UnsupportedNode(nodeId: string)
    | InvalidNodeOffsets(nodeId: string)
    | InexactNode(nodeId: string)
    | UncoveredChanges
    | SurfaceValidation(nodeId: string)
      // lexical_normalizer.propose_changes
    | ThresholdOutOfRange
    | EmptyRuleset
    | ContextOutsideDocument
    | NoWinningRule
      // lexical_review
    | EmptyDecisionId
    | InvalidDecision(changeId: string)
    | DuplicateDecision(changeId: string)
    | UnknownChange(changeId: string)
      // protected_spans
    | InvalidSpanOffsets
      // integrated_workflow and the project store
    | SpanOverlap(spanId: string)
    | SpanRebaseFailed(spanId: string)
    | FactDrift
    | StructureDrift
    | StyleProfileRejected
    | RevisionConflict
    | StaleRevision
    | AlreadyIngested
    | NotSourceLane
    | DuplicateRow
    | EmptyContent
    | InvalidDocument
    | EmptyDocumentId
    | ContentHashMismatch
    | ContentSurfaceMismatch
    | MissingRevision
    | MissingContent
    | ContentExists
      // style_services
    | MalformedDecision
    | UnknownAuthorship
    | UnknownSpan(spanId: string)
      // canonical_document
    | NotADocumentRoot
    | TooManyNodes
      // context_capsule
    | CapsuleMismatch
      // style_profiles
    | NoPackages
    | CoverageMismatch

  datatype Result<+T> = Ok(value: T) | Err(error: Error)
}
