/** The fixed texts of the engine's messages (the `Resources` class and the
    message templates of the decomposer). A template with one argument is a
    function of that argument's text. */
module Resources {

  const AssertionVerb: string := "Should"
  const EmptyEnumerable: string := "<Empty>"
  const Negation: string := "Not"
  const NullValue: string := "(null)"
  const Ellipsis: string := "..."

  /** `ExpectedTmpl`, "Expected: {0}". */
  function Expected(value: string): string {
    "Expected: " + value
  }

  /** `FoundTmpl`, "Found   : {0}". */
  function Found(value: string): string {
    "Found   : " + value
  }

  /** `FailureMsgEnumerableDiffPosTmpl`, "Values differ at position {0}.". */
  function EnumerableDiffPos(position: string): string {
    "Values differ at position " + position + "."
  }

  /** `FailureMsgStringDiffPosTmpl`, "Strings differ at position {0}.". */
  function StringDiffPos(position: string): string {
    "Strings differ at position " + position + "."
  }

  /** `FailureMsgBinary`, "Compared {0} {1} {2}.". */
  function Binary(left: string, operator: string, right: string): string {
    "Compared " + left + " " + operator + " " + right + "."
  }

  /** The decomposer's `InvalidOperandsMessageTemplate`. */
  function InvalidOperands(expression: string): string {
    "The expression (" + expression + ") is invalid; none of the operands includes the value under test."
  }

  /** The decomposer's `ConstantExpressionMessageTemplate`. */
  function ConstantExpression(expression: string): string {
    "The expression (" + expression + ") is a constant; you may test something else."
  }
}
