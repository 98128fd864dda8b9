/**
 * The static translator of `DynamicExpressionHandler.cs` as pure functions:
 * operator classification, the token table, the field name of a comparison,
 * value resolution through captured constants, type-driven formatting, and
 * the recursive translation of a whole predicate tree.
 */
module Translator {
  import opened Wrappers
  import opened Expressions
  import opened Segments

  /** `CheckIsSingleExpression`: the comparison kinds. */
  predicate CheckIsSingleExpression(k: ExprKind) {
    k == Equal || k == GreaterThan || k == GreaterThanOrEqual || k == LessThan
    || k == LessThanOrEqual || k == Not || k == NotEqual
  }

  /** `CheckIsMultiExpression`: the logical connective kinds. */
  predicate CheckIsMultiExpression(k: ExprKind) {
    k == And || k == AndAlso || k == Or || k == OrElse
  }

  /** `GetOperand`: the query-language token of an operator. It has a token for exactly the
      comparisons and connectives; a connective's token is `AND` or `OR`. */
  function GetOperand(k: ExprKind): (r: Result<string, Error>)
    ensures r.Success? <==> CheckIsSingleExpression(k) || CheckIsMultiExpression(k)
    ensures r.Failure? ==> r.error == OperandNotExists(k)
    ensures CheckIsMultiExpression(k) ==> r.Success? && r.value in {"AND", "OR"}
    ensures CheckIsSingleExpression(k) ==> r.Success? && r.value !in {"AND", "OR"}
  {
    match k
    case And | AndAlso => Success("AND")
    case Equal => Success("=")
    case GreaterThan => Success(">")
    case GreaterThanOrEqual => Success(">=")
    case LessThan => Success("<")
    case LessThanOrEqual => Success("<=")
    case Not | NotEqual => Success("NOT")
    case Or | OrElse => Success("OR")
    case _ => Failure(OperandNotExists(k))
  }

  /** `leftOperand.ToString().Split('.')[1]`: the second `.`-separated segment of a text.
      It exists exactly when the text contains a `.`. */
  function FieldName(text: string): (r: Result<string, Error>)
    ensures r.Success? <==> '.' in text
    ensures r.Success? ==> '.' !in r.value
    ensures r.Failure? ==> r.error == IndexOutOfRange
  {
    var parts := Split(text, '.');
    if |parts| < 2 then Failure(IndexOutOfRange)
    else Success(parts[1])
  }

  /** `GetFormatedString`: format a member-read value by the member's declared type.
      A Guid is wrapped as `Guid("...")`, a string is used unchanged, any other type is
      rejected before the value is looked at, and a null value of a supported type throws. */
  function GetFormatedString(memberExpression: Expr, value: Value): (r: Result<string, Error>)
    ensures memberExpression.ty.OtherType? <==> r == Failure(TypeNotSupported(memberExpression.ty))
    ensures r.Success? <==> !memberExpression.ty.OtherType? && value != Null
    ensures memberExpression.ty == StringType && value.Str? ==> r == Success(value.s)
  {
    if memberExpression.ty == GuidType then
      var text :- ToText(value);
      Success("Guid(\"" + text + "\")")
    else if memberExpression.ty == StringType then
      ToText(value)
    else
      Failure(TypeNotSupported(memberExpression.ty))
  }

  /** The value of a member access, lines 111-135 of `GetExpressionPropertyValue`:
      a field or property read on a captured constant, or a field read on a captured
      constant followed by a property read on its result. */
  function MemberValue(memberExpression: Expr, heap: Heap): (r: Result<string, Error>)
    requires memberExpression.MemberExpression?
    ensures memberExpression.holder.None? ==> r.Failure? && r.error.NullReference?
    ensures memberExpression.ty.OtherType? ==> r.Failure?
  {
    match memberExpression.holder
    case None => Failure(NullReference("memberExpression.Expression"))
    case Some(h) =>
      if h.NodeType() == Constant then
        if !h.ConstantExpression? then Failure(InvalidCast("ConstantExpression"))
        else
          var m := memberExpression.member;
          var val :-
            if m.kind == Field || m.kind == Property then ReadMember(heap, h.value, m.name)
            else Failure(MemberTypeNotHandled(m.kind));
          var text :- ToText(val);
          GetFormatedString(memberExpression, Str(text))
      else if !h.MemberExpression? then Failure(InvalidCast("MemberExpression"))
      else if h.holder.Some? && !h.holder.value.ConstantExpression? then Failure(InvalidCast("ConstantExpression"))
      else if h.member.kind != Field then Failure(InvalidCast("FieldInfo"))
      else if h.holder.None? then Failure(NullReference("objectConstant"))
      else
        var product :- ReadMember(heap, h.holder.value.value, h.member.name);
        if memberExpression.member.kind != Property then Failure(InvalidCast("PropertyInfo"))
        else
          var value :- ReadMember(heap, product, memberExpression.member.name);
          GetFormatedString(memberExpression, value)
  }

  /** `GetExpressionPropertyValue`: the text of a comparison's right operand. A constant
      gives its value's own text; a conversion is unwrapped to the member access it holds;
      a member access is resolved by `MemberValue`; any other node leaves the member
      reference null. */
  function GetExpressionPropertyValue(exp: Expr, heap: Heap): (r: Result<string, Error>)
    ensures exp.ConstantExpression? ==> r == ToText(exp.value)
    ensures exp.NodeType() !in {Constant, Convert, MemberAccess} ==> r == Failure(NullReference("memberExpression"))
  {
    if exp.NodeType() == Constant then
      if exp.ConstantExpression? then ToText(exp.value) else Failure(InvalidCast("ConstantExpression"))
    else if exp.NodeType() == Convert then
      if !exp.UnaryExpression? then Failure(InvalidCast("UnaryExpression"))
      else if !exp.operand.MemberExpression? then Failure(InvalidCast("MemberExpression"))
      else MemberValue(exp.operand, heap)
    else if exp.NodeType() == MemberAccess then
      if exp.MemberExpression? then MemberValue(exp, heap) else Failure(InvalidCast("MemberExpression"))
    else
      Failure(NullReference("memberExpression"))
  }

  /** `GetExpressionQueryString`: one comparison `field op value`. The field name is computed
      first, then the value, then the right operand's static type picks the shape:
      `<field> <token> "<value>"` for a string, `(<field>.Equals(<value>))` for a Guid. */
  function GetExpressionQueryString(expression: Expr, heap: Heap): (r: Result<string, Error>)
    requires expression.BinaryExpression?
    ensures FieldName(ExprText(expression.left)).Failure? ==> r == Failure(IndexOutOfRange)
    ensures r.Success? ==> !expression.right.ty.OtherType?
  {
    var propertyName :- FieldName(ExprText(expression.left));
    var propertyValue :- GetExpressionPropertyValue(expression.right, heap);
    if expression.right.ty == StringType then
      var token :- GetOperand(expression.kind);
      Success(propertyName + " " + token + " \"" + propertyValue + "\"")
    else if expression.right.ty == GuidType then
      Success("(" + propertyName + ".Equals(" + propertyValue + "))")
    else
      Failure(TypeNotSupported(expression.right.ty))
  }

  /** The query string of a tree: what `GetDynamicQueryString` returns, or the exception it throws.
      The root must be a binary node (the cast at the call); a comparison is formatted as a leaf;
      a connective is the left translation, the token between spaces, then the right translation,
      with no parentheses; any other binary kind is rejected. */
  function Translate(e: Expr, heap: Heap): (r: Result<string, Error>)
    decreases e
  {
    match e
    case BinaryExpression(kind, left, right, _) =>
      if CheckIsSingleExpression(kind) then GetExpressionQueryString(e, heap)
      else if CheckIsMultiExpression(kind) then
        var l :- Translate(left, heap);
        var token :- GetOperand(kind);
        var r :- Translate(right, heap);
        Success(l + " " + token + " " + r)
      else Failure(NodeTypeNotSupported(kind))
    case _ => Failure(InvalidCast("BinaryExpression"))
  }

  /** A connective node's translation: the left child's error, else the right child's error,
      else the two translations joined by the connective's token between single spaces. */
  lemma TranslateConnective(e: Expr, heap: Heap)
    requires e.BinaryExpression? && CheckIsMultiExpression(e.kind)
    ensures Translate(e.left, heap).Failure? ==> Translate(e, heap) == Translate(e.left, heap)
    ensures Translate(e.left, heap).Success? && Translate(e.right, heap).Failure? ==>
      Translate(e, heap) == Translate(e.right, heap)
    ensures Translate(e.left, heap).Success? && Translate(e.right, heap).Success? ==>
      Translate(e, heap) == Success(Translate(e.left, heap).value + " " + GetOperand(e.kind).value + " "
                                    + Translate(e.right, heap).value)
  {
  }
}
