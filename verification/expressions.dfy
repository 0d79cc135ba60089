/** The predicate syntax tree the engine receives: a closed version of the
    host's expression nodes, with the node tags of `ExpressionType` and the
    static type information the engine consults. */
module Expressions {
  import opened Wrappers
  import opened Text
  import opened Values

  /** The members of `ExpressionType`. */
  datatype NodeType =
    | Add | AddChecked | And | AndAlso | ArrayLength | ArrayIndex | Call | Coalesce
    | Conditional | Constant | Convert | ConvertChecked | Divide | Equal | ExclusiveOr
    | GreaterThan | GreaterThanOrEqual | Invoke | Lambda | LeftShift | LessThan
    | LessThanOrEqual | ListInit | MemberAccess | MemberInit | Modulo | Multiply
    | MultiplyChecked | Negate | UnaryPlus | NegateChecked | New | NewArrayInit
    | NewArrayBounds | Not | NotEqual | Or | OrElse | Parameter | Power | Quote
    | RightShift | Subtract | SubtractChecked | TypeAs | TypeIs

  /** `nodeType.ToString()`: the member's name. */
  function NodeTypeName(t: NodeType): string
  {
    match t
    case Add => "Add" case AddChecked => "AddChecked" case And => "And"
    case AndAlso => "AndAlso" case ArrayLength => "ArrayLength" case ArrayIndex => "ArrayIndex"
    case Call => "Call" case Coalesce => "Coalesce" case Conditional => "Conditional"
    case Constant => "Constant" case Convert => "Convert" case ConvertChecked => "ConvertChecked"
    case Divide => "Divide" case Equal => "Equal" case ExclusiveOr => "ExclusiveOr"
    case GreaterThan => "GreaterThan" case GreaterThanOrEqual => "GreaterThanOrEqual"
    case Invoke => "Invoke" case Lambda => "Lambda" case LeftShift => "LeftShift"
    case LessThan => "LessThan" case LessThanOrEqual => "LessThanOrEqual" case ListInit => "ListInit"
    case MemberAccess => "MemberAccess" case MemberInit => "MemberInit" case Modulo => "Modulo"
    case Multiply => "Multiply" case MultiplyChecked => "MultiplyChecked" case Negate => "Negate"
    case UnaryPlus => "UnaryPlus" case NegateChecked => "NegateChecked" case New => "New"
    case NewArrayInit => "NewArrayInit" case NewArrayBounds => "NewArrayBounds" case Not => "Not"
    case NotEqual => "NotEqual" case Or => "Or" case OrElse => "OrElse" case Parameter => "Parameter"
    case Power => "Power" case Quote => "Quote" case RightShift => "RightShift"
    case Subtract => "Subtract" case SubtractChecked => "SubtractChecked" case TypeAs => "TypeAs"
    case TypeIs => "TypeIs"
  }

  /** The six comparison tags. */
  predicate IsComparison(t: NodeType)
  {
    t in {Equal, NotEqual, GreaterThan, GreaterThanOrEqual, LessThan, LessThanOrEqual}
  }

  /** What the engine asks of a static type: is it `string`, is it one of the
      CLR primitive types (`Type.IsPrimitive`), is it an enum, or none of these. */
  datatype TypeKind = StringKind | PrimitiveKind | EnumKind | OtherKind

  /** A CLR type: its full name (`ToString()`), its short `Name` (which keeps
      the "`1" arity suffix of generic types), the `Name`s of its generic
      arguments, and its kind. */
  datatype TypeRef = TypeRef(fullName: string, name: string, genericArgs: seq<string>, kind: TypeKind)

  const BoolType: TypeRef := TypeRef("System.Boolean", "Boolean", [], PrimitiveKind)

  /** The text of `name` before its first backtick (`Split('`').First()`). */
  function BeforeBacktick(name: string): (r: string)
    ensures |r| <= |name| && r == name[..|r|]
    ensures '`' !in r
    ensures |r| < |name| ==> name[|r|] == '`'
  {
    if |name| == 0 || name[0] == '`' then ""
    else [name[0]] + BeforeBacktick(name[1..])
  }

  /** `Type.DisplayName()`: the name without its arity suffix, followed by the
      comma-separated generic argument names in angle brackets for a
      generic type. */
  function DisplayName(t: TypeRef): (r: string)
    ensures |t.genericArgs| == 0 ==> r == BeforeBacktick(t.name)
    ensures |t.genericArgs| > 0 ==>
      && |r| >= |BeforeBacktick(t.name)| + 2
      && r[..|BeforeBacktick(t.name)|] == BeforeBacktick(t.name)
      && r[|BeforeBacktick(t.name)|] == '<'
      && r[|r| - 1] == '>'
  {
    var head := BeforeBacktick(t.name);
    if |t.genericArgs| > 0 then head + "<" + Join(t.genericArgs, CommaSeparator) + ">" else head
  }

  /** Between the angle brackets of a generic type's display name stand its
      generic argument names: when none of them holds a comma, splitting that
      text at the commas gives the names back in order, each after the first
      behind the space of the separator. */
  lemma DisplayNameArguments(t: TypeRef)
    requires |t.genericArgs| > 0
    requires forall i :: 0 <= i < |t.genericArgs| ==> ',' !in t.genericArgs[i]
    ensures var head := BeforeBacktick(t.name);
            var r := DisplayName(t);
            Split(r[|head| + 1..|r| - 1], ',') == Padded(t.genericArgs, " ")
  {
    var head := BeforeBacktick(t.name);
    var inner := Join(t.genericArgs, CommaSeparator);
    var r := DisplayName(t);
    assert r == head + "<" + inner + ">";
    assert r[|head| + 1..|r| - 1] == inner;
    assert CommaSeparator == [','] + " ";
    SplitPaddedJoin(t.genericArgs, ',', " ");
  }

  /** A lambda parameter. Two parameter nodes are the same parameter exactly
      when they are equal (the host compares them by reference). */
  datatype Param = Param(name: Option<string>, id: nat, ty: TypeRef)

  /** A method as far as the engine looks at it. `isExtension` stands for the
      presence of `ExtensionAttribute`; `genericArgs` are the method's generic
      type arguments. */
  datatype MethodRef = MethodRef(
    name: string,
    declaringType: TypeRef,
    isStatic: bool,
    isExtension: bool,
    genericArgs: seq<TypeRef>)

  /** An expression node, one constructor per node class of the host. The
      `tag` of `Binary` and `Unary` is the node's `NodeType`. */
  datatype Expr =
    | BinaryExpr(tag: NodeType, left: Expr, right: Expr, ty: TypeRef)
    | UnaryExpr(tag: NodeType, operand: Expr, ty: TypeRef)
    | TypeIsExpr(expression: Expr, typeOperand: TypeRef)
    | ConditionalExpr(test: Expr, ifTrue: Expr, ifFalse: Expr, ty: TypeRef)
    | ConstantExpr(value: Value, ty: TypeRef)
    | ParameterExpr(param: Param)
    | MemberExpr(owner: Option<Expr>, declaringType: TypeRef, member: string, ty: TypeRef)
    | CallExpr(receiver: Option<Expr>, callee: MethodRef, args: seq<Expr>, ty: TypeRef)
    | LambdaExpr(params: seq<Param>, body: Expr, ty: TypeRef)
    | NewExpr(construction: Construction)
    | NewArrayInitExpr(items: seq<Expr>, ty: TypeRef)
    | NewArrayBoundsExpr(elementType: TypeRef, bounds: seq<Expr>, ty: TypeRef)
    | InvocationExpr(target: Expr, args: seq<Expr>, ty: TypeRef)
    | MemberInitExpr(construction: Construction, bindings: seq<Binding>)
    | ListInitExpr(construction: Construction, initializers: seq<ElementInit>)

  /** A `NewExpression`: the constructor's declaring type (absent for a value
      type built without a constructor), the arguments and the node's type. */
  datatype Construction = Construction(constructorType: Option<TypeRef>, args: seq<Expr>, ty: TypeRef)

  /** The member bindings of an object initializer. */
  datatype Binding =
    | Assignment(member: string, value: Expr)
    | MemberMemberBinding(member: string, bindings: seq<Binding>)
    | ListBinding(member: string, initializers: seq<ElementInit>)

  /** One `Add` call of a collection initializer. */
  datatype ElementInit = ElementInit(args: seq<Expr>)

  /** The node's `NodeType`. */
  function NodeTypeOf(e: Expr): NodeType
  {
    match e
    case BinaryExpr(tag, _, _, _) => tag
    case UnaryExpr(tag, _, _) => tag
    case TypeIsExpr(_, _) => NodeType.TypeIs
    case ConditionalExpr(_, _, _, _) => NodeType.Conditional
    case ConstantExpr(_, _) => NodeType.Constant
    case ParameterExpr(_) => NodeType.Parameter
    case MemberExpr(_, _, _, _) => NodeType.MemberAccess
    case CallExpr(_, _, _, _) => NodeType.Call
    case LambdaExpr(_, _, _) => NodeType.Lambda
    case NewExpr(_) => NodeType.New
    case NewArrayInitExpr(_, _) => NodeType.NewArrayInit
    case NewArrayBoundsExpr(_, _, _) => NodeType.NewArrayBounds
    case InvocationExpr(_, _, _) => NodeType.Invoke
    case MemberInitExpr(_, _) => NodeType.MemberInit
    case ListInitExpr(_, _) => NodeType.ListInit
  }

  /** The node's static type (`Expression.Type`). */
  function TypeOf(e: Expr): TypeRef
  {
    match e
    case BinaryExpr(_, _, _, ty) => ty
    case UnaryExpr(_, _, ty) => ty
    case TypeIsExpr(_, _) => BoolType
    case ConditionalExpr(_, _, _, ty) => ty
    case ConstantExpr(_, ty) => ty
    case ParameterExpr(p) => p.ty
    case MemberExpr(_, _, _, ty) => ty
    case CallExpr(_, _, _, ty) => ty
    case LambdaExpr(_, _, ty) => ty
    case NewExpr(c) => c.ty
    case NewArrayInitExpr(_, ty) => ty
    case NewArrayBoundsExpr(_, _, ty) => ty
    case InvocationExpr(_, _, ty) => ty
    case MemberInitExpr(c, _) => c.ty
    case ListInitExpr(c, _) => c.ty
  }

  predicate IsStringTyped(e: Expr) {
    TypeOf(e).kind == StringKind
  }

  predicate IsPrimitiveTyped(e: Expr) {
    TypeOf(e).kind == PrimitiveKind
  }

  /** The asserted predicate `param => body` (an `Expression<Func<T, bool>>`). */
  datatype Predicate = Predicate(param: Param, body: Expr)

  /** The predicate as a lambda node, as the printer sees it. */
  function PredicateLambda(p: Predicate): (e: Expr)
    ensures e.LambdaExpr? && e.params == [p.param] && e.body == p.body
  {
    LambdaExpr([p.param], p.body, TypeRef("System.Func`2", "Func`2", [p.param.ty.name, "Boolean"], OtherKind))
  }
}
