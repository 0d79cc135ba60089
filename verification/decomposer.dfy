/** The predicate decomposer (`ExpressionVisitor`) and the entry point
    `Satisfies`: the predicate's body is split at `&&` and `||` into an
    assertion tree whose leaves carry the magnifier that suits them, and the
    tree is then asserted against the value under test. */
module Decomposer {
  import opened Wrappers
  import opened Text
  import opened Values
  import opened Expressions
  import opened Failures
  import opened Evaluation
  import opened Magnifiers
  import opened Assertions
  import Printer
  import Resources

  // ---------------------------------------------------------------------
  // Does the body refer to the value under test?

  /** The binary kinds whose operands `ContainsActualParameter` searches. */
  predicate IsSearchedBinary(t: NodeType)
  {
    t in {Equal, NotEqual, GreaterThan, LessThan, GreaterThanOrEqual, LessThanOrEqual, OrElse,
          AndAlso, ArrayIndex, Multiply, Divide, Add, Subtract, Modulo}
  }

  /** `ContainsActualParameter`: the lambda's own parameter is reached
      through the operands of the searched binary kinds, the operand of a
      `!`, the owner of a member access, or the receiver and arguments of a
      call. Constants and every other kind (conversions among them) count as
      not containing it. */
  predicate ContainsActualParameter(actual: Param, e: Expr)
  {
    match e
    case BinaryExpr(tag, l, r, _) =>
      IsSearchedBinary(tag) && (ContainsActualParameter(actual, l) || ContainsActualParameter(actual, r))
    case UnaryExpr(tag, operand, _) => tag == Not && ContainsActualParameter(actual, operand)
    case MemberExpr(owner, _, _, _) =>
      (match owner case Some(x) => ContainsActualParameter(actual, x) case None => false)
    case CallExpr(receiver, _, args, _) =>
      || (match receiver case Some(x) => ContainsActualParameter(actual, x) case None => false)
      || (exists i :: 0 <= i < |args| && ContainsActualParameter(actual, args[i]))
    case ParameterExpr(p) => p == actual
    case _ => false
  }

  /** Reference definition: the parameter occurs anywhere in the tree. */
  predicate Mentions(actual: Param, e: Expr)
  {
    match e
    case BinaryExpr(_, l, r, _) => Mentions(actual, l) || Mentions(actual, r)
    case UnaryExpr(_, operand, _) => Mentions(actual, operand)
    case TypeIsExpr(x, _) => Mentions(actual, x)
    case ConditionalExpr(test, ifTrue, ifFalse, _) =>
      Mentions(actual, test) || Mentions(actual, ifTrue) || Mentions(actual, ifFalse)
    case ConstantExpr(_, _) => false
    case ParameterExpr(p) => p == actual
    case MemberExpr(owner, _, _, _) => (match owner case Some(x) => Mentions(actual, x) case None => false)
    case CallExpr(receiver, _, args, _) =>
      (match receiver case Some(x) => Mentions(actual, x) case None => false) || MentionsAny(actual, args)
    case LambdaExpr(_, body, _) => Mentions(actual, body)
    case NewExpr(c) => MentionsAny(actual, c.args)
    case NewArrayInitExpr(items, _) => MentionsAny(actual, items)
    case NewArrayBoundsExpr(_, bounds, _) => MentionsAny(actual, bounds)
    case InvocationExpr(target, args, _) => Mentions(actual, target) || MentionsAny(actual, args)
    case MemberInitExpr(c, bindings) =>
      MentionsAny(actual, c.args) || exists i :: 0 <= i < |bindings| && MentionsInBinding(actual, bindings[i])
    case ListInitExpr(c, initializers) =>
      MentionsAny(actual, c.args) || exists i :: 0 <= i < |initializers| && MentionsAny(actual, initializers[i].args)
  }

  predicate MentionsAny(actual: Param, es: seq<Expr>)
  {
    exists i :: 0 <= i < |es| && Mentions(actual, es[i])
  }

  predicate MentionsInBinding(actual: Param, b: Binding)
  {
    match b
    case Assignment(_, value) => Mentions(actual, value)
    case MemberMemberBinding(_, bindings) => exists i :: 0 <= i < |bindings| && MentionsInBinding(actual, bindings[i])
    case ListBinding(_, initializers) => exists i :: 0 <= i < |initializers| && MentionsAny(actual, initializers[i].args)
  }

  /** The search never reports a parameter that is not there. */
  lemma {:induction false} ContainsImpliesMentions(actual: Param, e: Expr)
    requires ContainsActualParameter(actual, e)
    ensures Mentions(actual, e)
  {
    match e
    case BinaryExpr(_, l, r, _) =>
      if ContainsActualParameter(actual, l) {
        ContainsImpliesMentions(actual, l);
      } else {
        ContainsImpliesMentions(actual, r);
      }
    case UnaryExpr(_, operand, _) =>
      ContainsImpliesMentions(actual, operand);
    case MemberExpr(owner, _, _, _) =>
      ContainsImpliesMentions(actual, owner.value);
    case CallExpr(receiver, _, args, _) =>
      if receiver.Some? && ContainsActualParameter(actual, receiver.value) {
        ContainsImpliesMentions(actual, receiver.value);
      } else {
        var i :| 0 <= i < |args| && ContainsActualParameter(actual, args[i]);
        ContainsImpliesMentions(actual, args[i]);
      }
    case ParameterExpr(_) =>
  }

  // ---------------------------------------------------------------------
  // Which magnifier a leaf gets.

  datatype MagnifierKind = NoMagnifier | StringMagnifier | ComparisonMagnifier | SequenceMagnifier

  /** `Enumerable.SequenceEqual`. */
  predicate IsSequenceEqual(m: MethodRef)
  {
    m.name == "SequenceEqual" && m.declaringType.fullName == "System.Linq.Enumerable"
  }

  /** The magnifier rules: `==` with a string operand compares strings; a
      comparison with a primitive operand compares values; a call of
      `Enumerable.SequenceEqual` compares sequences; nothing else is
      magnified. */
  function ExpectedMagnifier(e: Expr): MagnifierKind
  {
    if e.BinaryExpr? && e.tag == Equal && (IsStringTyped(e.left) || IsStringTyped(e.right)) then StringMagnifier
    else if e.BinaryExpr? && IsComparison(e.tag) && (IsPrimitiveTyped(e.left) || IsPrimitiveTyped(e.right)) then ComparisonMagnifier
    else if e.CallExpr? && IsSequenceEqual(e.callee) then SequenceMagnifier
    else NoMagnifier
  }

  /** The magnifier a leaf over `e` carries follows the rules; the string
      magnifier holds the operands' values as strings, read when the
      predicate was decomposed, and the binary one keeps the comparison. */
  predicate MagnifierFits(host: Host, subject: Value, e: Expr, m: Magnifier)
  {
    match m
    case Empty => ExpectedMagnifier(e) == NoMagnifier
    case BinaryMagnifier(tag, l, r) =>
      ExpectedMagnifier(e) == ComparisonMagnifier && e.tag == tag && e.left == l && e.right == r
    case StringEquality(a, b) =>
      && ExpectedMagnifier(e) == StringMagnifier
      && GetAsValue(host, subject, e.left).Success? && GetAsValue(host, subject, e.right).Success?
      && a == AsString(GetAsValue(host, subject, e.left).value)
      && b == AsString(GetAsValue(host, subject, e.right).value)
    case SameSequence(actualItems, expectedItems, elementDefault) =>
      && ExpectedMagnifier(e) == SequenceMagnifier
      && SequenceMagnifierBuildable(host, subject, e.callee, e.args)
      && actualItems == AsSequence(GetAsValue(host, subject, e.args[0]).value).value
      && expectedItems == AsSequence(GetAsValue(host, subject, e.args[1]).value).value
      && elementDefault == host.defaultOf(e.callee.genericArgs[0])
  }

  /** A value the sequence magnifier's constructor takes as a sequence. */
  predicate IsSequenceLike(v: Value)
  {
    v.Null? || v.Sequence? || v.Str?
  }

  /** When the sequence magnifier can be built for a call: the method has a
      generic argument, every argument can be read, there are two or three of
      them, and the first two read as sequences. */
  predicate SequenceMagnifierBuildable(host: Host, subject: Value, m: MethodRef, args: seq<Expr>)
  {
    && |m.genericArgs| > 0
    && (forall i :: 0 <= i < |args| ==> IsReadable(args[i]))
    && (|args| == 2 || |args| == 3)
    && IsSequenceLike(GetAsValue(host, subject, args[0]).value)
    && IsSequenceLike(GetAsValue(host, subject, args[1]).value)
  }

  /** When an `==` node decomposes: with a string operand, both operands must
      be readable; otherwise always. */
  predicate EqualityDecomposable(e: Expr)
    requires e.BinaryExpr?
  {
    (IsStringTyped(e.left) || IsStringTyped(e.right)) ==> IsReadable(e.left) && IsReadable(e.right)
  }

  /** Which bodies decompose, stated node kind by node kind: `&&` and `||`
      when both sides do, `==` as above, the other comparisons, `!`, member
      accesses and parameters always, and a call unless it is
      `SequenceEqual` and its magnifier cannot be built. */
  predicate Decomposable(host: Host, subject: Value, e: Expr)
  {
    match e
    case BinaryExpr(tag, l, r, _) =>
      if tag == AndAlso || tag == OrElse then Decomposable(host, subject, l) && Decomposable(host, subject, r)
      else if tag == Equal then EqualityDecomposable(e)
      else IsComparison(tag)
    case UnaryExpr(tag, _, _) => tag == Not
    case MemberExpr(_, _, _, _) => true
    case ParameterExpr(_) => true
    case CallExpr(_, m, args, _) => IsSequenceEqual(m) ==> SequenceMagnifierBuildable(host, subject, m, args)
    case _ => false
  }

  /** The shape of a decomposition: `&&` becomes an `And`, `||` an `Or`, and
      every other node a leaf over that node with the lambda's parameter and
      a fitting magnifier. */
  predicate Mirrors(actual: Param, host: Host, subject: Value, a: Assertion, e: Expr)
  {
    if e.BinaryExpr? && e.tag == AndAlso then
      a.AndAssertion? && Mirrors(actual, host, subject, a.left, e.left) && Mirrors(actual, host, subject, a.right, e.right)
    else if e.BinaryExpr? && e.tag == OrElse then
      a.OrAssertion? && Mirrors(actual, host, subject, a.left, e.left) && Mirrors(actual, host, subject, a.right, e.right)
    else
      a.ExpressionAssertion? && a.expression == Predicate(actual, e) && MagnifierFits(host, subject, e, a.magnifier)
  }

  // ---------------------------------------------------------------------
  // The decomposer.

  /** The failures decomposition itself can raise. */
  predicate IsDecompositionFailure(f: Failure)
  {
    f.ConstantPredicate? || f.UnsupportedNode? || f.MagnifierConstruction?
  }

  /** The text the runtime gives a constant node in a message: `null`, a
      string in double quotes, "value(...)" around a value whose
      `ToString()` is its type name, and the value's `ToString()` otherwise. */
  function ConstantText(v: Value): (r: string)
    ensures v.Null? ==> r == "null"
    ensures v.Str? ==> |r| == |v.s| + 2 && r[0] == '"' && r[1..|r| - 1] == v.s && r[|r| - 1] == '"'
    ensures v.Int? ==> ParseInt(r) == Some(v.i)
    ensures v.Sequence? ==> r == "value(" + v.clrType + ")"
  {
    if v.Null? then "null"
    else if v.Str? then "\"" + v.s + "\""
    else if ClrToString(v) == RuntimeTypeName(v) then "value(" + ClrToString(v) + ")"
    else ClrToString(v)
  }

  /** The node kinds `Visit(Expression)` has a case for. */
  predicate IsVisitedKind(t: NodeType)
  {
    IsComparison(t) || t in {AndAlso, OrElse, Constant, Not, MemberAccess, Call, Parameter}
  }

  /** `Visit(Expression)`: the assertion for one node of the body. */
  function Visit(actual: Param, subject: Value, host: Host, e: Expr): (r: Result<Assertion, Failure>)
    ensures r.Success? <==> Decomposable(host, subject, e)
    ensures r.Success? ==> Mirrors(actual, host, subject, r.value, e)
    ensures r.Failure? ==> IsDecompositionFailure(r.error)
    ensures !IsVisitedKind(NodeTypeOf(e)) ==> r == Failure(UnsupportedNode(NodeTypeOf(e)))
    decreases e, 1
  {
    match e
    case BinaryExpr(_, _, _, _) =>
      VisitBinary(actual, subject, host, e)
    case ConstantExpr(v, _) =>
      Failure(ConstantPredicate(Resources.ConstantExpression(ConstantText(v))))
    case UnaryExpr(tag, _, _) =>
      // `!` is not decomposed further: the whole negation is one leaf.
      if tag == Not then Success(ExpressionAssertion(Predicate(actual, e), Empty))
      else Failure(UnsupportedNode(tag))
    case MemberExpr(_, _, _, _) =>
      Success(ExpressionAssertion(Predicate(actual, e), Empty))
    case ParameterExpr(_) =>
      Success(ExpressionAssertion(Predicate(actual, e), Empty))
    case CallExpr(_, _, _, _) =>
      CallAssertion(actual, subject, host, e)
    case _ =>
      Failure(UnsupportedNode(NodeTypeOf(e)))
  }

  /** The binary cases of `Visit(Expression)`: `==` has its own visitor, the
      other comparisons are leaves, `&&` and `||` are decomposed on both
      sides, and every other binary node is out of range. */
  function VisitBinary(actual: Param, subject: Value, host: Host, e: Expr): (r: Result<Assertion, Failure>)
    requires e.BinaryExpr?
    ensures r.Success? <==> Decomposable(host, subject, e)
    ensures r.Success? ==> Mirrors(actual, host, subject, r.value, e)
    ensures r.Failure? ==> IsDecompositionFailure(r.error)
    ensures !IsVisitedKind(e.tag) ==> r == Failure(UnsupportedNode(e.tag))
    decreases e, 0
  {
    var BinaryExpr(tag, l, r, _) := e;
    if tag == Equal then
      EqualityAssertion(actual, subject, host, e)
    else if tag in {NotEqual, GreaterThan, LessThan, GreaterThanOrEqual, LessThanOrEqual} then
      var magnifier := if IsPrimitiveTyped(l) || IsPrimitiveTyped(r) then BinaryMagnifier(tag, l, r) else Empty;
      Success(ExpressionAssertion(Predicate(actual, e), magnifier))
    else if tag == AndAlso then
      var left :- Visit(actual, subject, host, l);
      var right :- Visit(actual, subject, host, r);
      Success(AndAssertion(left, right))
    else if tag == OrElse then
      var left :- Visit(actual, subject, host, l);
      var right :- Visit(actual, subject, host, r);
      Success(OrAssertion(left, right))
    else Failure(UnsupportedNode(tag))
  }

  /** The call case of `Visit(Expression)`: a leaf, with the sequence
      magnifier for `SequenceEqual` and none otherwise. */
  function CallAssertion(actual: Param, subject: Value, host: Host, e: Expr): (r: Result<Assertion, Failure>)
    requires e.CallExpr?
    ensures r.Success? <==> (IsSequenceEqual(e.callee) ==> SequenceMagnifierBuildable(host, subject, e.callee, e.args))
    ensures r.Success? ==> Mirrors(actual, host, subject, r.value, e)
    ensures r.Failure? ==> r.error.MagnifierConstruction? || r.error.UnsupportedNode?
  {
    var magnifier :- if IsSequenceEqual(e.callee) then SequenceEqualMagnifier(subject, host, e.callee, e.args) else Success(Empty);
    Success(ExpressionAssertion(Predicate(actual, e), magnifier))
  }

  /** `GetEqualOperatorGenericAssertion`: with a string operand both
      operands are read at once and compared as strings (a non-string value
      reads as null); otherwise a primitive operand gets the binary
      magnifier, and anything else none. */
  function EqualityAssertion(actual: Param, subject: Value, host: Host, e: Expr): (r: Result<Assertion, Failure>)
    requires e.BinaryExpr? && e.tag == Equal
    ensures r.Success? <==> EqualityDecomposable(e)
    ensures r.Success? ==> Mirrors(actual, host, subject, r.value, e)
    ensures r.Failure? ==> r.error == UnsupportedNode(NodeTypeOf(if IsReadable(e.left) then e.right else e.left))
  {
    var magnifier :-
      if IsStringTyped(e.left) || IsStringTyped(e.right) then
        var left :- GetAsValue(host, subject, e.left);
        var right :- GetAsValue(host, subject, e.right);
        Success(StringEquality(AsString(left), AsString(right)))
      else if IsPrimitiveTyped(e.left) || IsPrimitiveTyped(e.right) then
        Success(BinaryMagnifier(Equal, e.left, e.right))
      else Success(Empty);
    Success(ExpressionAssertion(Predicate(actual, e), magnifier))
  }

  /** Every argument read through the value getter, in order. */
  function GetAsValues(host: Host, subject: Value, args: seq<Expr>): (r: Result<seq<Value>, Failure>)
    ensures r.Success? ==> |r.value| == |args|
    ensures r.Success? ==> forall i :: 0 <= i < |args| ==> GetAsValue(host, subject, args[i]) == Success(r.value[i])
    ensures r.Failure? ==> exists i :: 0 <= i < |args| && GetAsValue(host, subject, args[i]) == Failure(r.error)
  {
    if |args| == 0 then Success([])
    else
      var head :- GetAsValue(host, subject, args[0]);
      var tail :- GetAsValues(host, subject, args[1..]);
      assert forall i :: 1 <= i < |args| ==> args[i] == args[1..][i - 1];
      Success([head] + tail)
  }

  /** A value passed where the magnifier expects a sequence: null, an
      enumerable's elements, a string's characters; anything else has no
      matching constructor. */
  function AsSequence(v: Value): (r: Result<Option<seq<Value>>, Failure>)
    ensures v.Null? ==> r == Success(None)
    ensures v.Sequence? ==> r == Success(Some(v.items))
    ensures r.Failure? <==> !IsSequenceLike(v)
  {
    match v
    case Null => Success(None)
    case Sequence(items, _) => Success(Some(items))
    case Str(s) => Success(Some(seq(|s|, i requires 0 <= i < |s| => Char(s[i]))))
    case _ => Failure(MagnifierConstruction("no constructor accepts the arguments"))
  }

  /** `GetSequenceEqualMagnifier`: the element type is the method's first
      generic argument; all arguments are read at once and handed to the
      magnifier's constructor, which takes the two sequences and, in the
      three-argument form, a comparer. */
  function SequenceEqualMagnifier(subject: Value, host: Host, m: MethodRef, args: seq<Expr>): (r: Result<Magnifier, Failure>)
    ensures r.Success? <==> SequenceMagnifierBuildable(host, subject, m, args)
    ensures r.Success? ==>
      && r.value.SameSequence?
      && r.value.actualItems == AsSequence(GetAsValue(host, subject, args[0]).value).value
      && r.value.expectedItems == AsSequence(GetAsValue(host, subject, args[1]).value).value
      && r.value.elementDefault == host.defaultOf(m.genericArgs[0])
    ensures r.Failure? ==> r.error.MagnifierConstruction? || r.error.UnsupportedNode?
  {
    if |m.genericArgs| == 0 then Failure(MagnifierConstruction("the method has no generic argument"))
    else
      var values :- GetAsValues(host, subject, args);
      if |values| != 2 && |values| != 3 then Failure(MagnifierConstruction("no constructor accepts the arguments"))
      else
        var actualItems :- AsSequence(values[0]);
        var expectedItems :- AsSequence(values[1]);
        Success(SameSequence(actualItems, expectedItems, host.defaultOf(m.genericArgs[0])))
  }

  /** `ExpressionVisitor.Visit()`: the body is decomposed first, and only
      then rejected when it does not refer to the lambda's parameter; the
      message of that rejection renders the body. */
  function Decompose(p: Predicate, subject: Value, host: Host): (r: Result<Assertion, Failure>)
    ensures Visit(p.param, subject, host, p.body).Failure? ==> r == Visit(p.param, subject, host, p.body)
    ensures r.Success? <==> Visit(p.param, subject, host, p.body).Success? && ContainsActualParameter(p.param, p.body)
    ensures r.Success? ==> r == Visit(p.param, subject, host, p.body)
    ensures Visit(p.param, subject, host, p.body).Success? && !ContainsActualParameter(p.param, p.body) ==>
      r.Failure? && (r.error.InvalidOperands? || r.error.UnrenderableNode?)
  {
    var a :- Visit(p.param, subject, host, p.body);
    if !ContainsActualParameter(p.param, p.body) then
      Printer.RenderSucceedsIffPrintable(p.body);
      var text :- Printer.Render(p.body);
      Failure(InvalidOperands(Resources.InvalidOperands(text)))
    else Success(a)
  }

  /** `Satisfies(actual, customMessage, assertion)`: decompose, then assert. */
  function Satisfies(subject: Value, custom: string, p: Predicate, host: Host): (o: Outcome)
    ensures Decompose(p, subject, host).Failure? ==> o == Raised(Decompose(p, subject, host).error)
    ensures Decompose(p, subject, host).Success? ==> o == Assert(Decompose(p, subject, host).value, host, subject, custom)
  {
    match Decompose(p, subject, host)
    case Failure(e) => Raised(e)
    case Success(a) => Assert(a, host, subject, custom)
  }

  // ---------------------------------------------------------------------
  // Properties.

  /** A decomposition matches exactly when the node it mirrors holds, for a
      host that evaluates `&&` and `||` as the language does. */
  lemma {:induction false} MirrorsSound(actual: Param, host: Host, subject: Value, a: Assertion, e: Expr)
    requires Coherent(host)
    requires Mirrors(actual, host, subject, a, e)
    ensures Matches(a, host, subject) == Holds(host, e, subject)
  {
    if e.BinaryExpr? && (e.tag == AndAlso || e.tag == OrElse) {
      MirrorsSound(actual, host, subject, a.left, e.left);
      MirrorsSound(actual, host, subject, a.right, e.right);
      assert e == BinaryExpr(e.tag, e.left, e.right, e.ty);
    }
  }

  /** The assertion passes exactly when the predicate decomposes and holds
      for the value under test. */
  lemma SatisfiesIffHolds(subject: Value, custom: string, p: Predicate, host: Host)
    requires Coherent(host)
    ensures Satisfies(subject, custom, p, host).Pass?
        <==> Decompose(p, subject, host).Success? && Holds(host, p.body, subject)
  {
    var d := Decompose(p, subject, host);
    if d.Success? {
      MirrorsSound(p.param, host, subject, d.value, p.body);
    }
  }

  /** A predicate whose body never mentions its parameter is rejected. */
  lemma UnrelatedPredicateRejected(p: Predicate, subject: Value, host: Host)
    requires !Mentions(p.param, p.body)
    ensures Decompose(p, subject, host).Failure?
  {
    if ContainsActualParameter(p.param, p.body) {
      ContainsImpliesMentions(p.param, p.body);
    }
  }

  /** A constant body is reported as a constant, before the search for the
      parameter could reject it. */
  lemma ConstantPredicateRejected(p: Predicate, subject: Value, host: Host)
    requires p.body.ConstantExpr?
    ensures Decompose(p, subject, host)
         == Failure(ConstantPredicate(Resources.ConstantExpression(ConstantText(p.body.value))))
  {
  }

  /** An equality whose left operand is a conversion, such as
      `x => (long)x.Id == 5`: the parameter is there, but the search does
      not look inside the conversion, so the predicate is rejected, and the
      printer renders the conversion as nothing, so the message shows the
      comparison without its left side (" == 5"). */
  lemma ConvertedOperandRejected(p: Predicate, operand: Expr, target: TypeRef, right: Expr, ty: TypeRef,
                                 subject: Value, host: Host)
    requires p.body == BinaryExpr(Equal, UnaryExpr(Convert, operand, target), right, ty)
    requires Mentions(p.param, operand)
    requires right.ConstantExpr? && !IsStringTyped(right) && target.kind != StringKind
    requires Printer.Render(right).Success? && !Printer.NeedEncloseInParen(right)
    ensures Mentions(p.param, p.body)
    ensures Decompose(p, subject, host)
         == Failure(InvalidOperands(Resources.InvalidOperands(" == " + Printer.Render(right).value)))
  {
    ConvertedEqualityDecomposes(p.param, subject, host, p.body);
    ConvertedEqualityText(p.body, operand, target, right, ty);
    RejectedWithText(p, subject, host, " == " + Printer.Render(right).value);
  }

  lemma ConvertedEqualityDecomposes(actual: Param, subject: Value, host: Host, e: Expr)
    requires e.BinaryExpr? && e.tag == Equal && e.left.UnaryExpr? && e.left.tag == Convert
    requires e.right.ConstantExpr? && !IsStringTyped(e.right) && !IsStringTyped(e.left)
    ensures Visit(actual, subject, host, e).Success?
    ensures !ContainsActualParameter(actual, e)
  {
    assert Visit(actual, subject, host, e) == EqualityAssertion(actual, subject, host, e);
  }

  lemma ConvertedEqualityText(e: Expr, operand: Expr, target: TypeRef, right: Expr, ty: TypeRef)
    requires e == BinaryExpr(Equal, UnaryExpr(Convert, operand, target), right, ty)
    requires Printer.Render(right).Success? && !Printer.NeedEncloseInParen(right)
    ensures Printer.Render(e) == Success(" == " + Printer.Render(right).value)
  {
    var text := Printer.Render(right).value;
    Printer.ConversionHidesOperand(Equal, operand, target, right, ty);
    EqualitySpacing(Printer.ToStringOperator(Equal), text);
  }

  lemma EqualitySpacing(op: string, text: string)
    requires op == "=="
    ensures " " + op + " " + text == " == " + text
  {
    assert " " + op + " " == " == ";
  }

  /** A body that decomposes but never reaches the parameter is rejected
      with its rendering in the message. */
  lemma RejectedWithText(p: Predicate, subject: Value, host: Host, text: string)
    requires Visit(p.param, subject, host, p.body).Success? && !ContainsActualParameter(p.param, p.body)
    requires Printer.Render(p.body) == Success(text)
    ensures Decompose(p, subject, host) == Failure(InvalidOperands(Resources.InvalidOperands(text)))
  {
  }
}
