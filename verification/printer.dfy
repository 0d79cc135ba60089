/** The pretty printer (`ExpressionStringBuilder`): renders an expression in
    source-like notation for failure messages. */
module Printer {
  import opened Wrappers
  import opened Text
  import opened Values
  import opened Expressions
  import opened Failures
  import Resources

  /** `ToStringOperator`: the symbol of an operator tag, the tag's name for
      any other tag. `Power` shares "^" with `ExclusiveOr`. */
  function ToStringOperator(t: NodeType): (r: string)
    ensures IsOperatorTag(t) ==> OperatorOfSymbol(r) == Some(OperatorClass(t))
  {
    match t
    case Add => "+"
    case AddChecked => "+"
    case And => "&"
    case AndAlso => "&&"
    case Coalesce => "??"
    case Divide => "/"
    case Equal => "=="
    case ExclusiveOr => "^"
    case GreaterThan => ">"
    case GreaterThanOrEqual => ">="
    case LeftShift => "<<"
    case LessThan => "<"
    case LessThanOrEqual => "<="
    case Modulo => "%"
    case Multiply => "*"
    case MultiplyChecked => "*"
    case NotEqual => "!="
    case Or => "|"
    case OrElse => "||"
    case Power => "^"
    case RightShift => ">>"
    case Subtract => "-"
    case SubtractChecked => "-"
    case _ => NodeTypeName(t)
  }

  /** Binary tags `ToStringBinary` renders (`Power` is not among them). */
  predicate IsRenderedBinary(t: NodeType)
  {
    t in {Add, AddChecked, Subtract, SubtractChecked, Multiply, MultiplyChecked, Divide,
          Modulo, And, AndAlso, Or, OrElse, LessThan, LessThanOrEqual, GreaterThan,
          GreaterThanOrEqual, Equal, NotEqual, Coalesce, ArrayIndex, RightShift,
          LeftShift, ExclusiveOr}
  }

  /** The tags written between two operands, and `Power`. */
  predicate IsOperatorTag(t: NodeType)
  {
    match t
    case Add | AddChecked | And | AndAlso | Coalesce | Divide | Equal | ExclusiveOr | GreaterThan
       | GreaterThanOrEqual | LeftShift | LessThan | LessThanOrEqual | Modulo | Multiply
       | MultiplyChecked | NotEqual | Or | OrElse | Power | RightShift | Subtract | SubtractChecked => true
    case _ => false
  }

  /** The operation an operator tag stands for, forgetting overflow
      checking; `Power` is taken for `ExclusiveOr`, whose symbol it shares. */
  function OperatorClass(t: NodeType): NodeType
  {
    match t
    case AddChecked => Add
    case SubtractChecked => Subtract
    case MultiplyChecked => Multiply
    case Power => ExclusiveOr
    case _ => t
  }

  /** Reads an operator symbol back as the operation it stands for. */
  function OperatorOfSymbol(symbol: string): Option<NodeType>
  {
    if |symbol| == 1 then
      match symbol[0]
      case '+' => Some(Add)
      case '-' => Some(Subtract)
      case '*' => Some(Multiply)
      case '/' => Some(Divide)
      case '%' => Some(Modulo)
      case '&' => Some(And)
      case '|' => Some(Or)
      case '^' => Some(ExclusiveOr)
      case '<' => Some(LessThan)
      case '>' => Some(GreaterThan)
      case _ => None
    else if |symbol| == 2 then
      match (symbol[0], symbol[1])
      case ('&', '&') => Some(AndAlso)
      case ('|', '|') => Some(OrElse)
      case ('?', '?') => Some(Coalesce)
      case ('=', '=') => Some(Equal)
      case ('!', '=') => Some(NotEqual)
      case ('<', '=') => Some(LessThanOrEqual)
      case ('>', '=') => Some(GreaterThanOrEqual)
      case ('<', '<') => Some(LeftShift)
      case ('>', '>') => Some(RightShift)
      case _ => None
    else None
  }

  /** Unary tags the printer accepts (`UnaryPlus` is not among them). */
  predicate IsRenderedUnary(t: NodeType)
  {
    t in {Negate, NegateChecked, Not, Convert, ConvertChecked, ArrayLength, Quote, TypeAs}
  }

  /** `NeedEncloseInParen`: operands that are themselves `&&` or `||`. */
  predicate NeedEncloseInParen(operand: Expr)
  {
    NodeTypeOf(operand) == AndAlso || NodeTypeOf(operand) == OrElse
  }

  function Enclose(operand: Expr, text: string): string
  {
    if NeedEncloseInParen(operand) then "(" + text + ")" else text
  }

  /** `ToStringParameter`. */
  function RenderParameter(p: Param): string
  {
    match p.name
    case Some(n) => n
    case None => "<param>"
  }

  function RenderParameters(params: seq<Param>): (r: seq<string>)
    ensures |r| == |params|
    ensures forall i :: 0 <= i < |params| ==> r[i] == RenderParameter(params[i])
  {
    seq(|params|, i requires 0 <= i < |params| => RenderParameter(params[i]))
  }

  /** `ToStringConstant`: `null` as "(null)", a string in double quotes, a
      value whose `ToString()` is just its type name as nothing, an enum
      member as `Type.Member`, anything else as its `ToString()`. */
  function RenderConstant(v: Value, ty: TypeRef): (r: string)
    ensures v.Null? ==> r == "(null)"
    ensures v.Str? ==> |r| == |v.s| + 2 && r[0] == '"' && r[1..|r| - 1] == v.s && r[|r| - 1] == '"'
    ensures v.Int? && ty.kind != EnumKind ==> ParseInt(r) == Some(v.i)
    ensures v.Sequence? ==> r == ""
    ensures !v.Null? && !v.Str? && ClrToString(v) == RuntimeTypeName(v) ==> r == ""
    ensures !v.Null? && !v.Str? && ClrToString(v) != RuntimeTypeName(v) && ty.kind == EnumKind ==>
      r == DisplayName(ty) + "." + ClrToString(v)
    ensures !v.Null? && !v.Str? && ClrToString(v) != RuntimeTypeName(v) && ty.kind != EnumKind ==>
      r == ClrToString(v)
  {
    if v.Null? then Resources.NullValue
    else if v.Str? then "\"" + v.s + "\""
    else if ClrToString(v) == RuntimeTypeName(v) then ""
    else if ty.kind == EnumKind then DisplayName(ty) + "." + ClrToString(v)
    else ClrToString(v)
  }

  /** `ToString(Expression)`: the rendering of a node, or the exception the
      printer raises on a node kind it does not handle. */
  function Render(e: Expr): (r: Result<string, Failure>)
    ensures e.InvocationExpr? ==> (r.Success? <==> RenderAll(e.args).Success?)
    decreases e, 1
  {
    match e
    case BinaryExpr(_, _, _, _) =>
      RenderBinary(e)
    case UnaryExpr(_, _, _) =>
      RenderUnary(e)
    case TypeIsExpr(x, _) =>
      Render(x)
    case ConditionalExpr(test, ifTrue, ifFalse, _) =>
      var t :- Render(test);
      var a :- Render(ifTrue);
      var b :- Render(ifFalse);
      Success(t + a + b)
    case ConstantExpr(v, ty) =>
      Success(RenderConstant(v, ty))
    case ParameterExpr(p) =>
      Success(RenderParameter(p))
    case MemberExpr(owner, declaringType, member, _) =>
      var o :- match owner
        case Some(x) => Render(x)
        case None => Success(DisplayName(declaringType));
      Success(o + "." + member)
    case CallExpr(receiver, m, args, _) =>
      // An extension method's first argument is written as the receiver.
      var extension := m.isExtension && |args| > 0;
      var target := if extension then Some(args[0]) else receiver;
      var prefix :- match target
        case Some(x) => (var t :- Render(x); Success(t + "."))
        case None => Success(if m.isStatic then DisplayName(m.declaringType) + "." else "");
      var rendered :- RenderAll(args);
      Success(prefix + m.name + "(" + Join(rendered[if extension then 1 else 0..], CommaSeparator) + ")")
    case LambdaExpr(params, body, _) =>
      var b :- Render(body);
      var ps := RenderParameters(params);
      Success((if |params| == 1 then ps[0] else "(" + Join(ps, CommaSeparator) + ")") + " => " + b)
    case NewExpr(c) =>
      RenderConstruction(c)
    case NewArrayInitExpr(items, _) =>
      var rendered :- RenderAll(items);
      Success("new[] {" + Join(rendered, CommaSeparator) + "}")
    case NewArrayBoundsExpr(elementType, bounds, _) =>
      var rendered :- RenderAll(bounds);
      Success("new " + DisplayName(elementType) + "[" + Join(rendered, CommaSeparator) + "]")
    case InvocationExpr(_, args, _) =>
      // Only the arguments of an invocation are written.
      var rendered :- RenderAll(args);
      Success(Join(rendered, CommaSeparator))
    case MemberInitExpr(c, bindings) =>
      var n :- RenderConstruction(c);
      var bs :- RenderBindings(bindings);
      Success(n + " {" + Join(bs, CommaSeparator) + "}")
    case ListInitExpr(c, initializers) =>
      var n :- RenderConstruction(c);
      var inits :- RenderInitializers(initializers);
      Success(n + " {" + Join(inits, CommaSeparator) + "}")
  }

  /** `ToStringBinary`: an array index in brackets; any other operator
      between its operands, an operand that is itself `&&` or `||` in
      parentheses. */
  function RenderBinary(e: Expr): Result<string, Failure>
    requires e.BinaryExpr?
    decreases e, 0
  {
    if e.tag == ArrayIndex then
      var left :- Render(e.left);
      var right :- Render(e.right);
      Success(left + "[" + right + "]")
    else if IsRenderedBinary(e.tag) then
      var left :- Render(e.left);
      var right :- Render(e.right);
      Success(Enclose(e.left, left) + " " + ToStringOperator(e.tag) + " " + Enclose(e.right, right))
    else Failure(UnrenderableNode(e.tag))
  }

  /** `ToStringUnary`. A conversion is written as nothing: the printer has
      no case for it and writes nothing, its operand included. */
  function RenderUnary(e: Expr): Result<string, Failure>
    requires e.UnaryExpr?
    decreases e, 0
  {
    if e.tag == Convert || e.tag == ConvertChecked then Success("")
    else if !IsRenderedUnary(e.tag) then Failure(UnrenderableNode(e.tag))
    else
      var o :- Render(e.operand);
      Success(UnaryText(e.tag, o, e.ty))
  }

  /** The text around a rendered operand of a unary node. */
  function UnaryText(tag: NodeType, operand: string, ty: TypeRef): string
  {
    match tag
    case ArrayLength => operand + ".Length"
    case Negate => "-" + operand
    case NegateChecked => "-" + operand
    case Not => "!(" + operand + ")"
    case TypeAs => "(" + operand + " as " + DisplayName(ty) + ")"
    case _ => operand
  }

  /** Every node of a list rendered, stopping at the first failure. */
  function RenderAll(es: seq<Expr>): (r: Result<seq<string>, Failure>)
    ensures r.Success? ==> |r.value| == |es|
  {
    if |es| == 0 then Success([])
    else
      var head :- Render(es[0]);
      var tail :- RenderAll(es[1..]);
      Success([head] + tail)
  }

  /** `ToStringNew`: the constructor's declaring type, or the node's type
      when there is no constructor. */
  function RenderConstruction(c: Construction): Result<string, Failure>
  {
    var t := match c.constructorType case Some(d) => d case None => c.ty;
    var rendered :- RenderAll(c.args);
    Success("new " + DisplayName(t) + "(" + Join(rendered, CommaSeparator) + ")")
  }

  /** `ToStringBinding`. A nested member binding writes only its bindings,
      a list binding only its initializers, without separators. */
  function RenderBinding(b: Binding): Result<string, Failure>
  {
    match b
    case Assignment(member, value) =>
      var v :- Render(value);
      Success(member + "= " + v)
    case MemberMemberBinding(_, bindings) =>
      var bs :- RenderBindings(bindings);
      Success(Join(bs, CommaSeparator))
    case ListBinding(_, initializers) =>
      var inits :- RenderInitializers(initializers);
      Success(Join(inits, ""))
  }

  function RenderBindings(bs: seq<Binding>): (r: Result<seq<string>, Failure>)
    ensures r.Success? ==> |r.value| == |bs|
  {
    if |bs| == 0 then Success([])
    else
      var head :- RenderBinding(bs[0]);
      var tail :- RenderBindings(bs[1..]);
      Success([head] + tail)
  }

  /** `ToStringElementInitializer`: the arguments in braces. */
  function RenderInitializer(i: ElementInit): Result<string, Failure>
  {
    var rendered :- RenderAll(i.args);
    Success("{" + Join(rendered, CommaSeparator) + "}")
  }

  function RenderInitializers(inits: seq<ElementInit>): (r: Result<seq<string>, Failure>)
    ensures r.Success? ==> |r.value| == |inits|
  {
    if |inits| == 0 then Success([])
    else
      var head :- RenderInitializer(inits[0]);
      var tail :- RenderInitializers(inits[1..]);
      Success([head] + tail)
  }

  /** The rendering of an asserted predicate, `param => body`. */
  function RenderPredicate(p: Predicate): Result<string, Failure>
  {
    Render(PredicateLambda(p))
  }

  // ---------------------------------------------------------------------
  // When the printer succeeds.

  /** The nodes the printer visits all have a kind it handles. A conversion's
      operand is never visited, nor is an invocation's target, nor the
      receiver slot of an extension call (its first argument stands there). */
  predicate Printable(e: Expr)
  {
    match e
    case BinaryExpr(tag, l, r, _) => IsRenderedBinary(tag) && Printable(l) && Printable(r)
    case UnaryExpr(tag, operand, _) =>
      IsRenderedUnary(tag) && (tag == Convert || tag == ConvertChecked || Printable(operand))
    case TypeIsExpr(x, _) => Printable(x)
    case ConditionalExpr(test, ifTrue, ifFalse, _) => Printable(test) && Printable(ifTrue) && Printable(ifFalse)
    case ConstantExpr(_, _) => true
    case ParameterExpr(_) => true
    case MemberExpr(owner, _, _, _) => (match owner case Some(x) => Printable(x) case None => true)
    case CallExpr(receiver, m, args, _) =>
      && ((m.isExtension && |args| > 0) || (match receiver case Some(x) => Printable(x) case None => true))
      && AllPrintable(args)
    case LambdaExpr(_, body, _) => Printable(body)
    case NewExpr(c) => AllPrintable(c.args)
    case NewArrayInitExpr(items, _) => AllPrintable(items)
    case NewArrayBoundsExpr(_, bounds, _) => AllPrintable(bounds)
    case InvocationExpr(_, args, _) => AllPrintable(args)
    case MemberInitExpr(c, bindings) => AllPrintable(c.args) && AllBindingsPrintable(bindings)
    case ListInitExpr(c, initializers) => AllPrintable(c.args) && AllInitializersPrintable(initializers)
  }

  predicate AllPrintable(es: seq<Expr>)
  {
    forall i :: 0 <= i < |es| ==> Printable(es[i])
  }

  predicate BindingPrintable(b: Binding)
  {
    match b
    case Assignment(_, value) => Printable(value)
    case MemberMemberBinding(_, bindings) => AllBindingsPrintable(bindings)
    case ListBinding(_, initializers) => AllInitializersPrintable(initializers)
  }

  predicate AllBindingsPrintable(bs: seq<Binding>)
  {
    forall i :: 0 <= i < |bs| ==> BindingPrintable(bs[i])
  }

  predicate AllInitializersPrintable(inits: seq<ElementInit>)
  {
    forall i :: 0 <= i < |inits| ==> AllPrintable(inits[i].args)
  }

  /** The only exception the printer raises is the unhandled-node one. */
  predicate RaisesOnlyUnrenderable<T>(r: Result<T, Failure>)
  {
    r.Failure? ==> r.error.UnrenderableNode?
  }

  /** An invocation's target is never written: two invocations that differ
      only in their targets render alike, failure included. */
  lemma InvocationTargetNotWritten(t1: Expr, t2: Expr, args: seq<Expr>, ty: TypeRef)
    ensures Render(InvocationExpr(t1, args, ty)) == Render(InvocationExpr(t2, args, ty))
    ensures Render(InvocationExpr(t1, args, ty)).Success? <==> RenderAll(args).Success?
  {
  }

  /** The printer succeeds exactly on printable trees; otherwise it fails
      with the unhandled-node exception. */
  lemma {:induction false} RenderSucceedsIffPrintable(e: Expr)
    ensures Render(e).Success? <==> Printable(e)
    ensures RaisesOnlyUnrenderable(Render(e))
    decreases e, 1
  {
    match e
    case BinaryExpr(_, _, _, _) =>
      RenderBinarySucceedsIffPrintable(e);
    case UnaryExpr(_, _, _) =>
      RenderUnarySucceedsIffPrintable(e);
    case TypeIsExpr(x, _) =>
      RenderSucceedsIffPrintable(x);
    case ConditionalExpr(test, ifTrue, ifFalse, _) =>
      RenderSucceedsIffPrintable(test);
      RenderSucceedsIffPrintable(ifTrue);
      RenderSucceedsIffPrintable(ifFalse);
    case ConstantExpr(_, _) =>
    case ParameterExpr(_) =>
    case MemberExpr(owner, _, _, _) =>
      match owner {
        case Some(x) => RenderSucceedsIffPrintable(x);
        case None =>
      }
    case CallExpr(receiver, m, args, _) =>
      RenderCallSucceedsIffPrintable(e);
    case LambdaExpr(_, body, _) =>
      RenderSucceedsIffPrintable(body);
    case _ =>
      RenderCompositeSucceedsIffPrintable(e);
  }

  /** The nodes that hold lists: construction, arrays, invocation and
      initializers. */
  lemma {:induction false} RenderCompositeSucceedsIffPrintable(e: Expr)
    requires e.NewExpr? || e.NewArrayInitExpr? || e.NewArrayBoundsExpr? || e.InvocationExpr?
          || e.MemberInitExpr? || e.ListInitExpr?
    ensures Render(e).Success? <==> Printable(e)
    ensures RaisesOnlyUnrenderable(Render(e))
    decreases e, 0
  {
    match e
    case NewExpr(c) =>
      RenderAllSucceedsIffPrintable(c.args);
    case NewArrayInitExpr(items, _) =>
      RenderAllSucceedsIffPrintable(items);
    case NewArrayBoundsExpr(_, bounds, _) =>
      RenderAllSucceedsIffPrintable(bounds);
    case InvocationExpr(_, args, _) =>
      RenderAllSucceedsIffPrintable(args);
    case MemberInitExpr(c, bindings) =>
      RenderAllSucceedsIffPrintable(c.args);
      RenderBindingsSucceedIffPrintable(bindings);
    case ListInitExpr(c, initializers) =>
      RenderAllSucceedsIffPrintable(c.args);
      RenderInitializersSucceedIffPrintable(initializers);
  }

  lemma {:induction false} RenderBinarySucceedsIffPrintable(e: Expr)
    requires e.BinaryExpr?
    ensures RenderBinary(e).Success? <==> Printable(e)
    ensures RaisesOnlyUnrenderable(RenderBinary(e))
    decreases e, 0
  {
    RenderSucceedsIffPrintable(e.left);
    RenderSucceedsIffPrintable(e.right);
  }

  lemma {:induction false} RenderUnarySucceedsIffPrintable(e: Expr)
    requires e.UnaryExpr?
    ensures RenderUnary(e).Success? <==> Printable(e)
    ensures RaisesOnlyUnrenderable(RenderUnary(e))
    decreases e, 0
  {
    RenderSucceedsIffPrintable(e.operand);
  }

  lemma {:induction false} RenderCallSucceedsIffPrintable(e: Expr)
    requires e.CallExpr?
    ensures Render(e).Success? <==> Printable(e)
    ensures RaisesOnlyUnrenderable(Render(e))
    decreases e, 0
  {
    if |e.args| > 0 {
      RenderSucceedsIffPrintable(e.args[0]);
    }
    match e.receiver {
      case Some(x) => RenderSucceedsIffPrintable(x);
      case None =>
    }
    RenderAllSucceedsIffPrintable(e.args);
  }

  lemma {:induction false} RenderAllSucceedsIffPrintable(es: seq<Expr>)
    ensures RenderAll(es).Success? <==> AllPrintable(es)
    ensures RaisesOnlyUnrenderable(RenderAll(es))
  {
    if |es| > 0 {
      RenderSucceedsIffPrintable(es[0]);
      RenderAllSucceedsIffPrintable(es[1..]);
      assert AllPrintable(es) <==> Printable(es[0]) && AllPrintable(es[1..]) by {
        if Printable(es[0]) && AllPrintable(es[1..]) {
          forall i | 0 <= i < |es| ensures Printable(es[i]) {
            if i > 0 {
              assert es[i] == es[1..][i - 1];
            }
          }
        }
      }
    }
  }

  lemma {:induction false} RenderBindingSucceedsIffPrintable(b: Binding)
    ensures RenderBinding(b).Success? <==> BindingPrintable(b)
    ensures RaisesOnlyUnrenderable(RenderBinding(b))
  {
    match b
    case Assignment(_, value) =>
      RenderSucceedsIffPrintable(value);
    case MemberMemberBinding(_, bindings) =>
      RenderBindingsSucceedIffPrintable(bindings);
    case ListBinding(_, initializers) =>
      RenderInitializersSucceedIffPrintable(initializers);
  }

  lemma {:induction false} RenderBindingsSucceedIffPrintable(bs: seq<Binding>)
    ensures RenderBindings(bs).Success? <==> AllBindingsPrintable(bs)
    ensures RaisesOnlyUnrenderable(RenderBindings(bs))
  {
    if |bs| > 0 {
      RenderBindingSucceedsIffPrintable(bs[0]);
      RenderBindingsSucceedIffPrintable(bs[1..]);
      assert AllBindingsPrintable(bs) <==> BindingPrintable(bs[0]) && AllBindingsPrintable(bs[1..]) by {
        if BindingPrintable(bs[0]) && AllBindingsPrintable(bs[1..]) {
          forall i | 0 <= i < |bs| ensures BindingPrintable(bs[i]) {
            if i > 0 {
              assert bs[i] == bs[1..][i - 1];
            }
          }
        }
      }
    }
  }

  lemma {:induction false} RenderInitializersSucceedIffPrintable(inits: seq<ElementInit>)
    ensures RenderInitializers(inits).Success? <==> AllInitializersPrintable(inits)
    ensures RaisesOnlyUnrenderable(RenderInitializers(inits))
  {
    if |inits| > 0 {
      RenderAllSucceedsIffPrintable(inits[0].args);
      RenderInitializersSucceedIffPrintable(inits[1..]);
      assert AllInitializersPrintable(inits) <==>
          AllPrintable(inits[0].args) && AllInitializersPrintable(inits[1..]) by {
        if AllPrintable(inits[0].args) && AllInitializersPrintable(inits[1..]) {
          forall i | 0 <= i < |inits| ensures AllPrintable(inits[i].args) {
            if i > 0 {
              assert inits[i] == inits[1..][i - 1];
            }
          }
        }
      }
    }
  }

  // ---------------------------------------------------------------------
  // Properties of the notation.

  /** An extension call reads like an instance call on its first argument:
      `Enumerable.Any(xs, p)` is written `xs.Any(p)`. */
  lemma ExtensionCallReadsAsInstanceCall(
    receiver: Option<Expr>, m: MethodRef, first: Expr, rest: seq<Expr>, ty: TypeRef)
    requires m.isExtension
    ensures Render(CallExpr(receiver, m, [first] + rest, ty))
         == Render(CallExpr(Some(first), m.(isExtension := false), rest, ty))
  {
    var args := [first] + rest;
    assert args[0] == first && args[1..] == rest;
    var all := RenderAll(args);
    if all.Success? {
      assert all.value[1..] == RenderAll(rest).value;
    }
  }

  /** The rendering of an operator node whose operands both render. */
  lemma RenderedOperator(e: Expr)
    requires e.BinaryExpr? && IsRenderedBinary(e.tag) && e.tag != ArrayIndex
    requires Render(e.left).Success? && Render(e.right).Success?
    ensures Render(e) == Success(Enclose(e.left, Render(e.left).value) + " " + ToStringOperator(e.tag) + " "
                                 + Enclose(e.right, Render(e.right).value))
  {
    assert Render(e) == RenderBinary(e);
  }

  /** `&&` and `||` operands are always enclosed in parentheses, so a
      rendered connective never has a bare connective beside it: the left
      operand's text opens the rendering in parentheses ... */
  lemma ConnectiveLeftOperandEnclosed(tag: NodeType, l: Expr, r: Expr, ty: TypeRef, inner: string)
    requires IsRenderedBinary(tag) && tag != ArrayIndex
    requires NodeTypeOf(l) == AndAlso || NodeTypeOf(l) == OrElse
    requires Render(l) == Success(inner) && Render(r).Success?
    ensures Render(BinaryExpr(tag, l, r, ty)).Success?
    ensures var text := Render(BinaryExpr(tag, l, r, ty)).value;
      |text| > |inner| + 2 && text[..|inner| + 2] == "(" + inner + ")"
  {
    RenderedOperator(BinaryExpr(tag, l, r, ty));
    ParenthesisedPrefix(inner, ToStringOperator(tag), Enclose(r, Render(r).value));
  }

  lemma ParenthesisedPrefix(inner: string, op: string, right: string)
    ensures var text := "(" + inner + ")" + " " + op + " " + right;
      |text| > |inner| + 2 && text[..|inner| + 2] == "(" + inner + ")"
  {
    var enclosed := "(" + inner + ")";
    assert enclosed + " " + op + " " + right == enclosed + (" " + op + " " + right);
  }

  /** ... and the right operand's text closes it in parentheses. */
  lemma ConnectiveRightOperandEnclosed(tag: NodeType, l: Expr, r: Expr, ty: TypeRef, inner: string)
    requires IsRenderedBinary(tag) && tag != ArrayIndex
    requires NodeTypeOf(r) == AndAlso || NodeTypeOf(r) == OrElse
    requires Render(l).Success? && Render(r) == Success(inner)
    ensures Render(BinaryExpr(tag, l, r, ty)).Success?
    ensures var text := Render(BinaryExpr(tag, l, r, ty)).value;
      |text| > |inner| + 2 && text[|text| - (|inner| + 2)..] == "(" + inner + ")"
  {
    RenderedOperator(BinaryExpr(tag, l, r, ty));
    ParenthesisedSuffix(Enclose(l, Render(l).value), ToStringOperator(tag), inner);
  }

  lemma ParenthesisedSuffix(left: string, op: string, inner: string)
    ensures var text := left + " " + op + " " + "(" + inner + ")";
      |text| > |inner| + 2 && text[|text| - (|inner| + 2)..] == "(" + inner + ")"
  {
    var enclosed := "(" + inner + ")";
    assert left + " " + op + " " + enclosed == (left + " " + op + " ") + enclosed;
  }

  /** A conversion hides its operand, whatever it is: `x => (long)x.Id == 5`
      is written `x =>  == 5`. */
  lemma ConversionHidesOperand(tag: NodeType, operand: Expr, target: TypeRef, right: Expr, ty: TypeRef)
    requires IsRenderedBinary(tag) && tag != ArrayIndex
    requires Render(right).Success? && !NeedEncloseInParen(right)
    ensures Render(BinaryExpr(tag, UnaryExpr(Convert, operand, target), right, ty))
         == Success(" " + ToStringOperator(tag) + " " + Render(right).value)
  {
    var hidden := UnaryExpr(Convert, operand, target);
    assert Render(hidden) == RenderUnary(hidden);
    RenderedOperator(BinaryExpr(tag, hidden, right, ty));
    EmptyPrefix(ToStringOperator(tag), Render(right).value);
  }

  /** An operator written after an empty left operand. */
  lemma EmptyPrefix(op: string, right: string)
    ensures "" + " " + op + " " + right == " " + op + " " + right
  {
    assert "" + " " == " ";
  }
}
