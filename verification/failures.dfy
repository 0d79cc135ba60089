/** The exceptions the engine can end an assertion call with. */
module Failures {
  import opened Expressions

  datatype Failure =
    /** `InvalidOperationException`: a constant where a predicate was expected. */
    | ConstantPredicate(message: string)
    /** `InvalidOperationException`: the predicate never refers to its parameter. */
    | InvalidOperands(message: string)
    /** `ArgumentOutOfRangeException("expression")`: a node kind the decomposer
        or the value getter does not accept. The exception names only the
        parameter; the node kind is kept here so that contracts can say which
        node was refused. */
    | UnsupportedNode(tag: NodeType)
    /** `Exception("Unhandled expression type: '<kind>'")`: a node kind the
        printer does not render. */
    | UnrenderableNode(tag: NodeType)
    /** The sequence magnifier could not be built from the call's arguments
        (the reflective construction of the source throws). */
    | MagnifierConstruction(reason: string)
    /** The test-framework failure carrying the composed message. */
    | AssertionFailed(message: string)
}
