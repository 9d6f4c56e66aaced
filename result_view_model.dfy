/** `ResultViewModel`: the screen that reports how an operation ended. */
module ResultView {
  import opened Wrappers
  import opened Domain
  import opened Localization

  /** `ResultParameter`. */
  datatype ResultParameter =
    | SuccessParameter(operation: Operation)
    | FailureParameter(failedOperation: Option<Operation>, description: Option<string>)

  /** `ResultType`. */
  datatype ResultType = SuccessResult | FailureResult

  /** `L10n.Error.App.Generic.title`, shown for a failure without an operation. */
  const GenericFailureTitle := Localized("Error.App.Generic.title")

  /**
   * `title()`. A success needs its operation (the source unwraps it); a failure without one gets
   * the generic title.
   */
  function Title(result: ResultType, operation: Option<Operation>): (t: Text)
    requires result.SuccessResult? ==> operation.Some?
    ensures t == GenericFailureTitle <==> operation.None?
    ensures operation.Some? ==> t.LocalizedWith? && t.args == [OperationText(operation.value)]
  {
    match result
    case SuccessResult => LocalizedWith("Operation.Success.title", [OperationText(operation.value)])
    case FailureResult =>
      if operation.None? then GenericFailureTitle
      else LocalizedWith("Operation.Failed.title", [OperationText(operation.value)])
  }

  /**
   * The title tells success from failure, and names the operation. The texts are compared as L10n
   * keys with their arguments; that the shown strings differ too depends on the table's entries.
   */
  lemma TitleTellsOutcome(r: ResultType, o: Operation, p: Operation)
    ensures Title(SuccessResult, Some(o)) != Title(FailureResult, Some(p))
    ensures Title(r, Some(o)) == Title(r, Some(p)) ==> o == p
  {
  }

  class ResultViewModel {
    var result: ResultType
    var operation: Option<Operation>
    var description: Option<string>

    /** A success always knows its operation, so `title()` never unwraps a missing one. */
    ghost predicate Valid()
      reads this
    {
      result.SuccessResult? ==> operation.Some?
    }

    /** `init(appCoordinator:parameter:)` with `setParameter(_:)`; the result type starts as success. */
    constructor(parameter: ResultParameter)
      ensures result == if parameter.SuccessParameter? then SuccessResult else FailureResult
      ensures operation == if parameter.SuccessParameter? then Some(parameter.operation) else parameter.failedOperation
      ensures description == if parameter.SuccessParameter? then None else parameter.description
      ensures Valid()
    {
      result := SuccessResult;
      description := None;
      match parameter {
        case SuccessParameter(op) =>
          operation := Some(op);
        case FailureParameter(op, d) =>
          result := FailureResult;
          operation := op;
          description := d;
      }
    }
  }

  /** The title of a screen opened with a parameter: the success or failure of that parameter's operation. */
  lemma ParameterTitle(parameter: ResultParameter)
    ensures parameter.SuccessParameter? ==>
      Title(SuccessResult, Some(parameter.operation)) == LocalizedWith("Operation.Success.title", [OperationText(parameter.operation)])
    ensures parameter.FailureParameter? ==>
      (Title(FailureResult, parameter.failedOperation) == GenericFailureTitle <==> parameter.failedOperation.None?)
  {
  }
}
