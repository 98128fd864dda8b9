/**
 * The part of the .NET expression-tree runtime that the translator sees:
 * node kinds (`ExpressionType`), static types, captured runtime values,
 * reflective member reads, the exceptions that can abort a translation,
 * and the printed form of a node (`Expression.ToString()`).
 */
module Expressions {
  import opened Wrappers

  /** The node kinds of `System.Linq.Expressions.ExpressionType` that the translator names,
      plus `Call`, `Add` and `Modulo` as common others; any further kind is `OtherKind`. */
  datatype ExprKind =
    | And | AndAlso | Or | OrElse
    | Equal | NotEqual | GreaterThan | GreaterThanOrEqual | LessThan | LessThanOrEqual | Not
    | Constant | Convert | MemberAccess | Parameter | Call | Add | Modulo
    | OtherKind(name: string)

  /** The name `ExpressionType.ToString()` gives a kind. */
  function KindName(k: ExprKind): string {
    match k
    case And => "And"
    case AndAlso => "AndAlso"
    case Or => "Or"
    case OrElse => "OrElse"
    case Equal => "Equal"
    case NotEqual => "NotEqual"
    case GreaterThan => "GreaterThan"
    case GreaterThanOrEqual => "GreaterThanOrEqual"
    case LessThan => "LessThan"
    case LessThanOrEqual => "LessThanOrEqual"
    case Not => "Not"
    case Constant => "Constant"
    case Convert => "Convert"
    case MemberAccess => "MemberAccess"
    case Parameter => "Parameter"
    case Call => "Call"
    case Add => "Add"
    case Modulo => "Modulo"
    case OtherKind(name) => name
  }

  /** The static type of a node, as far as the translator distinguishes it:
      `string`, `System.Guid`, or any other type (by name). */
  datatype TypeTag = StringType | GuidType | OtherType(name: string)

  /** `MemberInfo.MemberType`: a field, a property, or another member kind. */
  datatype MemberKind = Field | Property | OtherMember(name: string)

  /** The reflected member of a member access: its kind, its name and the name of its declaring type. */
  datatype MemberInfo = MemberInfo(kind: MemberKind, name: string, declaringType: string)

  /** A runtime value: null, a string, or another object identified by `id`
      whose `ToString()` is `text` and whose runtime type's full name is `typeName`
      (an object without its own `ToString()`, such as a compiler closure, has
      `text == typeName`). */
  datatype Value = Null | Str(s: string) | Obj(id: nat, text: string, typeName: string)

  /** An expression-tree node, one variant per node class of `System.Linq.Expressions`.
      Every node carries its static type `ty` (`Expression.Type`); for a member access
      that is the type of the member. `OtherExpression` stands for every other node class
      (method calls, lambdas, ...) and carries its kind and its printed form. */
  datatype Expr =
    | BinaryExpression(kind: ExprKind, left: Expr, right: Expr, ty: TypeTag)
    | UnaryExpression(kind: ExprKind, operand: Expr, ty: TypeTag)
    | ConstantExpression(value: Value, ty: TypeTag)
    | MemberExpression(holder: Option<Expr>, member: MemberInfo, ty: TypeTag)
    | ParameterExpression(name: string, ty: TypeTag)
    | OtherExpression(kind: ExprKind, text: string, ty: TypeTag)
  {
    /** `Expression.NodeType` */
    function NodeType(): ExprKind {
      match this
      case BinaryExpression(k, _, _, _) => k
      case UnaryExpression(k, _, _) => k
      case ConstantExpression(_, _) => Constant
      case MemberExpression(_, _, _) => MemberAccess
      case ParameterExpression(_, _) => Parameter
      case OtherExpression(k, _, _) => k
    }
  }

  /** The exceptions that can abort a translation, one per distinct cause. */
  datatype Error =
    | InvalidCast(target: string)              // a C# cast to the named class fails
    | NullReference(what: string)              // the named reference is null
    | NodeTypeNotSupported(kind: ExprKind)     // HandleExpression: neither comparison nor connective
    | OperandNotExists(kind: ExprKind)         // GetOperand: no token for the kind
    | IndexOutOfRange                          // the field-name split has fewer than two segments
    | TypeNotSupported(ty: TypeTag)            // the right operand or member type is neither string nor Guid
    | MemberTypeNotHandled(memberKind: MemberKind)   // a member on a constant that is neither field nor property
    | TargetRequired(member: string)           // a reflective instance read with a null target
    | MemberNotFound(member: string)           // a reflective read of a member the target does not have

  /** Reflection replaced by an abstract map: (target object, member name) to the member's value. */
  type Heap = map<(Value, string), Value>

  /** `FieldInfo.GetValue(target)` / `PropertyInfo.GetValue(target)` on an instance member. */
  function ReadMember(heap: Heap, target: Value, name: string): (r: Result<Value, Error>)
    ensures r.Success? <==> target != Null && (target, name) in heap
    ensures r.Success? ==> r.value == heap[(target, name)]
    ensures target == Null ==> r == Failure(TargetRequired(name))
  {
    if target == Null then Failure(TargetRequired(name))
    else if (target, name) in heap then Success(heap[(target, name)])
    else Failure(MemberNotFound(name))
  }

  /** `value.ToString()`: a string is its own text, null throws. */
  function ToText(v: Value): (r: Result<string, Error>)
    ensures r.Success? <==> v != Null
    ensures v.Str? ==> r == Success(v.s)
  {
    match v
    case Null => Failure(NullReference("value"))
    case Str(s) => Success(s)
    case Obj(_, text, _) => Success(text)
  }

  /** The operator symbol the .NET Framework expression printer writes for a binary node. */
  function BinarySymbol(k: ExprKind): string {
    match k
    case Equal => "=="
    case NotEqual => "!="
    case GreaterThan => ">"
    case GreaterThanOrEqual => ">="
    case LessThan => "<"
    case LessThanOrEqual => "<="
    case Add => "+"
    case Modulo => "%"
    case _ => KindName(k)
  }

  /** `Expression.ToString()` as the .NET Framework expression printer writes it:
      a parameter is its name, a member access is its holder's text (or, when static,
      its declaring type) followed by `.` and the member name, a string constant is quoted,
      an object constant whose text is its type name is written `value(...)`, any other
      constant is its text, a conversion is `Convert(...)`. */
  function ExprText(e: Expr): string
    decreases e
  {
    match e
    case BinaryExpression(k, l, r, _) => "(" + ExprText(l) + " " + BinarySymbol(k) + " " + ExprText(r) + ")"
    case UnaryExpression(k, o, _) => KindName(k) + "(" + ExprText(o) + ")"
    case ConstantExpression(v, _) =>
      (match v
       case Null => "null"
       case Str(s) => "\"" + s + "\""
       case Obj(_, text, typeName) => if text == typeName then "value(" + text + ")" else text)
    case MemberExpression(h, m, _) =>
      (match h
       case None => m.declaringType
       case Some(holder) => ExprText(holder)) + "." + m.name
    case ParameterExpression(name, _) => name
    case OtherExpression(_, text, _) => text
  }
}
