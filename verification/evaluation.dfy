/** What the engine leaves to the runtime: compiling a node into a delegate
    and invoking it on the value under test. The host supplies it as a total
    function; the engine only decides which nodes are evaluated and when. */
module Evaluation {
  import opened Wrappers
  import opened Values
  import opened Expressions
  import opened Failures

  /** The runtime: `eval(e, subject)` is the value of `e` with the lambda's
      parameter bound to `subject`; `defaultOf(t)` is `default(T)`. */
  datatype Host = Host(eval: (Expr, Value) -> Value, defaultOf: TypeRef -> Value)

  /** A boolean node holds when it evaluates to `true`: the compiled matcher
      of a leaf. */
  predicate Holds(host: Host, e: Expr, subject: Value)
  {
    host.eval(e, subject) == Bool(true)
  }

  /** A host that evaluates `&&` and `||` as the language defines them. */
  ghost predicate Coherent(host: Host)
  {
    && (forall l, r, ty, s :: Holds(host, BinaryExpr(AndAlso, l, r, ty), s) == (Holds(host, l, s) && Holds(host, r, s)))
    && (forall l, r, ty, s :: Holds(host, BinaryExpr(OrElse, l, r, ty), s) == (Holds(host, l, s) || Holds(host, r, s)))
  }

  /** A host that gives a constant its value and the lambda's parameter the
      value under test. */
  ghost predicate Faithful(host: Host, param: Param)
  {
    && (forall v, ty, s :: host.eval(ConstantExpr(v, ty), s) == v)
    && (forall s :: host.eval(ParameterExpr(param), s) == s)
  }

  /** The node kinds `GetAsValue` compiles and invokes. */
  predicate IsCompiledKind(t: NodeType)
  {
    t in {Call, MemberAccess, ArrayIndex, ArrayLength, Multiply, Divide, Modulo, Add,
          Subtract, NewArrayInit, New}
  }

  /** The nodes `GetAsValue` can read a value from. */
  predicate IsReadable(e: Expr)
  {
    e.ConstantExpr? || e.ParameterExpr? || IsCompiledKind(NodeTypeOf(e))
  }

  /** `GetAsValue`: a constant's value, the value under test for any
      parameter node, the evaluated value of the compiled kinds, and an
      out-of-range error for every other node kind. */
  function GetAsValue(host: Host, subject: Value, e: Expr): (r: Result<Value, Failure>)
    ensures r.Success? <==> IsReadable(e)
    ensures r.Failure? ==> r.error == UnsupportedNode(NodeTypeOf(e))
  {
    match e
    case ConstantExpr(v, _) => Success(v)
    case ParameterExpr(_) => Success(subject)
    case _ =>
      if IsCompiledKind(NodeTypeOf(e)) then Success(host.eval(e, subject))
      else Failure(UnsupportedNode(NodeTypeOf(e)))
  }

  /** Whenever `GetAsValue` answers, it answers what evaluating the node
      gives, provided the only parameter in sight is the lambda's own. */
  lemma GetAsValueAgreesWithEvaluation(host: Host, param: Param, subject: Value, e: Expr)
    requires Faithful(host, param)
    requires e.ParameterExpr? ==> e.param == param
    requires GetAsValue(host, subject, e).Success?
    ensures GetAsValue(host, subject, e).value == host.eval(e, subject)
  {
  }
}
