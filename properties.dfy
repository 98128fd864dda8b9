/** Properties of the translator, stated over the pure model in `Translator`. */
module TranslatorProperties {
  import opened Wrappers
  import opened Expressions
  import opened Segments
  import opened Translator

  // ---------------------------------------------------------------------------
  // Operator classification and the token table

  /** No operator is both a comparison and a connective. */
  lemma ClassificationDisjoint(k: ExprKind)
    ensures !(CheckIsSingleExpression(k) && CheckIsMultiExpression(k))
  {
  }

  /** The token table: `AND`, `OR`, the comparison symbols, and `NOT` for both negations. */
  lemma TokenTable()
    ensures GetOperand(And) == GetOperand(AndAlso) == Success("AND")
    ensures GetOperand(Or) == GetOperand(OrElse) == Success("OR")
    ensures GetOperand(Equal) == Success("=")
    ensures GetOperand(GreaterThan) == Success(">") && GetOperand(GreaterThanOrEqual) == Success(">=")
    ensures GetOperand(LessThan) == Success("<") && GetOperand(LessThanOrEqual) == Success("<=")
    ensures GetOperand(Not) == GetOperand(NotEqual) == Success("NOT")
  {
  }

  /** `GetOperand`'s own error cannot surface from a translation: every kind the traversal
      asks a token for is a comparison or a connective. */
  lemma {:induction false} NoOperandErrorInTranslation(e: Expr, heap: Heap)
    ensures Translate(e, heap).Failure? ==> !Translate(e, heap).error.OperandNotExists?
    decreases e
  {
    if e.BinaryExpression? && CheckIsMultiExpression(e.kind) {
      NoOperandErrorInTranslation(e.left, heap);
      NoOperandErrorInTranslation(e.right, heap);
      TranslateConnective(e, heap);
    }
  }

  /** A binary node that is neither a comparison nor a connective is rejected with its kind;
      a root that is not a binary node fails the cast. */
  lemma UnsupportedNodesRejected(e: Expr, heap: Heap)
    ensures e.BinaryExpression? && !CheckIsSingleExpression(e.kind) && !CheckIsMultiExpression(e.kind)
      ==> Translate(e, heap) == Failure(NodeTypeNotSupported(e.kind))
    ensures !e.BinaryExpression? ==> Translate(e, heap) == Failure(InvalidCast("BinaryExpression"))
  {
  }

  // ---------------------------------------------------------------------------
  // The traversal

  /** How a single leaf of the connective skeleton is rendered: a comparison is formatted,
      any other binary kind is rejected, and a node that is not binary fails the cast. */
  function LeafQuery(e: Expr, heap: Heap): Result<string, Error> {
    if !e.BinaryExpression? then Failure(InvalidCast("BinaryExpression"))
    else if CheckIsSingleExpression(e.kind) then GetExpressionQueryString(e, heap)
    else Failure(NodeTypeNotSupported(e.kind))
  }

  /** The flat, in-order reading of a tree: the rendering of each leaf of its connective
      skeleton, left to right, with each connective's token (between single spaces)
      placed between the pieces of its two sides. */
  function Pieces(e: Expr, heap: Heap): seq<Result<string, Error>>
    decreases e
  {
    if e.BinaryExpression? && CheckIsMultiExpression(e.kind) then
      Pieces(e.left, heap) + [Success(" " + GetOperand(e.kind).value + " ")] + Pieces(e.right, heap)
    else [LeafQuery(e, heap)]
  }

  /** Concatenate a list of pieces left to right, stopping at the first failure.
      Nothing is written between the pieces: no parentheses, no extra spaces. */
  function Concat(ps: seq<Result<string, Error>>): Result<string, Error>
    decreases |ps|
  {
    if ps == [] then Success("")
    else
      var head :- ps[0];
      var rest :- Concat(ps[1..]);
      Success(head + rest)
  }

  /** Concatenating two lists concatenates the first, then the second. */
  lemma {:induction false} ConcatAppend(p1: seq<Result<string, Error>>, p2: seq<Result<string, Error>>)
    ensures Concat(p1).Failure? ==> Concat(p1 + p2) == Concat(p1)
    ensures Concat(p1).Success? && Concat(p2).Failure? ==> Concat(p1 + p2) == Concat(p2)
    ensures Concat(p1).Success? && Concat(p2).Success? ==>
      Concat(p1 + p2) == Success(Concat(p1).value + Concat(p2).value)
    decreases |p1|
  {
    if p1 == [] {
      assert p1 + p2 == p2;
      if Concat(p2).Success? {
        assert "" + Concat(p2).value == Concat(p2).value;
      }
    } else {
      assert (p1 + p2)[0] == p1[0];
      assert (p1 + p2)[1..] == p1[1..] + p2;
      ConcatAppend(p1[1..], p2);
      if p1[0].Success? && Concat(p1[1..]).Success? && Concat(p2).Success? {
        var head, a, b := p1[0].value, Concat(p1[1..]).value, Concat(p2).value;
        assert head + (a + b) == (head + a) + b;
      }
    }
  }

  /** Left pieces, a token, then right pieces concatenate to the first failing side, else
      to the two sides joined by the token between single spaces. */
  lemma ConcatAroundToken(pl: seq<Result<string, Error>>, token: string, pr: seq<Result<string, Error>>)
    ensures Concat(pl).Failure? ==> Concat(pl + ([Success(" " + token + " ")] + pr)) == Concat(pl)
    ensures Concat(pl).Success? && Concat(pr).Failure? ==> Concat(pl + ([Success(" " + token + " ")] + pr)) == Concat(pr)
    ensures Concat(pl).Success? && Concat(pr).Success? ==>
      Concat(pl + ([Success(" " + token + " ")] + pr)) == Success(Concat(pl).value + " " + token + " " + Concat(pr).value)
  {
    var tail := [Success(" " + token + " ")] + pr;
    assert tail[0] == Success(" " + token + " ") && tail[1..] == pr;
    ConcatAppend(pl, tail);
    if Concat(pl).Success? && Concat(pr).Success? {
      var l, r := Concat(pl).value, Concat(pr).value;
      assert l + (" " + token + " " + r) == l + " " + token + " " + r;
    }
  }

  /** The pieces of a connective concatenate to the first failing side, else to the two
      sides joined by the connective's token between single spaces. */
  lemma ConcatOfConnective(e: Expr, heap: Heap)
    requires e.BinaryExpression? && CheckIsMultiExpression(e.kind)
    ensures Concat(Pieces(e.left, heap)).Failure? ==> Concat(Pieces(e, heap)) == Concat(Pieces(e.left, heap))
    ensures Concat(Pieces(e.left, heap)).Success? && Concat(Pieces(e.right, heap)).Failure? ==>
      Concat(Pieces(e, heap)) == Concat(Pieces(e.right, heap))
    ensures Concat(Pieces(e.left, heap)).Success? && Concat(Pieces(e.right, heap)).Success? ==>
      Concat(Pieces(e, heap)) == Success(Concat(Pieces(e.left, heap)).value + " " + GetOperand(e.kind).value + " "
                                         + Concat(Pieces(e.right, heap)).value)
  {
    var token := GetOperand(e.kind).value;
    var pl, pr := Pieces(e.left, heap), Pieces(e.right, heap);
    assert Pieces(e, heap) == pl + ([Success(" " + token + " ")] + pr);
    ConcatAroundToken(pl, token, pr);
  }

  /** The traversal is an in-order, flattened reading of the tree: translating a tree is
      concatenating its pieces left to right, and the first failing leaf is the error. */
  lemma {:induction false} TranslateIsInOrderConcat(e: Expr, heap: Heap)
    ensures Translate(e, heap) == Concat(Pieces(e, heap))
    decreases e
  {
    if e.BinaryExpression? && CheckIsMultiExpression(e.kind) {
      TranslateIsInOrderConcat(e.left, heap);
      TranslateIsInOrderConcat(e.right, heap);
      TranslateConnective(e, heap);
      ConcatOfConnective(e, heap);
    } else {
      var single := [LeafQuery(e, heap)];
      assert single[1..] == [];
      if LeafQuery(e, heap).Success? {
        assert LeafQuery(e, heap).value + "" == LeafQuery(e, heap).value;
      }
    }
  }

  /** Regrouping two connectives leaves the in-order pieces unchanged. */
  lemma RegroupedPieces(k1: ExprKind, k2: ExprKind, a: Expr, b: Expr, c: Expr,
                        t1: TypeTag, t2: TypeTag, heap: Heap)
    requires CheckIsMultiExpression(k1) && CheckIsMultiExpression(k2)
    ensures Pieces(BinaryExpression(k1, BinaryExpression(k2, a, b, t2), c, t1), heap)
         == Pieces(BinaryExpression(k2, a, BinaryExpression(k1, b, c, t1), t2), heap)
  {
    var x1, x2 := [Success(" " + GetOperand(k1).value + " ")], [Success(" " + GetOperand(k2).value + " ")];
    var pa, pb, pc := Pieces(a, heap), Pieces(b, heap), Pieces(c, heap);
    assert pa + x2 + pb + x1 + pc == pa + x2 + (pb + x1 + pc);
  }

  /** Grouping is lost: `(a k2 b) k1 c` and `a k2 (b k1 c)` translate to the same text
      (or the same error), although a query engine reads at most one of them as intended. */
  lemma FlatteningLosesGrouping(k1: ExprKind, k2: ExprKind, a: Expr, b: Expr, c: Expr,
                                t1: TypeTag, t2: TypeTag, heap: Heap)
    requires CheckIsMultiExpression(k1) && CheckIsMultiExpression(k2)
    ensures Translate(BinaryExpression(k1, BinaryExpression(k2, a, b, t2), c, t1), heap)
         == Translate(BinaryExpression(k2, a, BinaryExpression(k1, b, c, t1), t2), heap)
  {
    TranslateIsInOrderConcat(BinaryExpression(k1, BinaryExpression(k2, a, b, t2), c, t1), heap);
    TranslateIsInOrderConcat(BinaryExpression(k2, a, BinaryExpression(k1, b, c, t1), t2), heap);
    RegroupedPieces(k1, k2, a, b, c, t1, t2, heap);
  }

  // ---------------------------------------------------------------------------
  // The field name

  /** The field name is the second `.`-separated segment: with `a` and `b` free of dots,
      both `a.b` and `a.b.rest` give `b`. */
  lemma FieldNameIsSecondSegment(a: string, b: string, rest: string)
    requires '.' !in a && '.' !in b
    ensures FieldName(a + "." + b) == Success(b)
    ensures FieldName(a + "." + b + "." + rest) == Success(b)
  {
    SplitAfterSegment(a, b, '.');
    assert Split(a + "." + b, '.') == [a, b];
    SplitAfterSegment(b, rest, '.');
    SplitAfterSegment(a, b + "." + rest, '.');
    assert a + "." + b + "." + rest == a + ['.'] + (b + ['.'] + rest);
  }

  /** `p.Name` gives `Name`. */
  lemma FieldNameOfParameterMember(p: string, m: MemberInfo, pt: TypeTag, mt: TypeTag)
    requires '.' !in p && '.' !in m.name
    ensures ExprText(MemberExpression(Some(ParameterExpression(p, pt)), m, mt)) == p + "." + m.name
    ensures FieldName(ExprText(MemberExpression(Some(ParameterExpression(p, pt)), m, mt))) == Success(m.name)
  {
    FieldNameIsSecondSegment(p, m.name, "");
  }

  /** `p.A.B` gives `A`, not `B`: only the first member below the parameter is kept. */
  lemma FieldNameOfNestedMember(p: string, outer: MemberInfo, inner: MemberInfo, pt: TypeTag, ot: TypeTag, it: TypeTag)
    requires '.' !in p && '.' !in outer.name
    ensures FieldName(ExprText(MemberExpression(Some(MemberExpression(Some(ParameterExpression(p, pt)), outer, ot)), inner, it)))
         == Success(outer.name)
  {
    var path := MemberExpression(Some(ParameterExpression(p, pt)), outer, ot);
    assert ExprText(path) == p + "." + outer.name;
    assert ExprText(MemberExpression(Some(path), inner, it)) == ExprText(path) + "." + inner.name;
    FieldNameIsSecondSegment(p, outer.name, inner.name);
  }

  /** A converted left operand `Convert(p.A)` gives `A)`: the closing parenthesis of the
      printed conversion stays attached to the field name. */
  lemma FieldNameOfConvertedMember(p: string, m: MemberInfo, pt: TypeTag, mt: TypeTag, ct: TypeTag)
    requires '.' !in p && '.' !in m.name
    ensures FieldName(ExprText(UnaryExpression(Convert, MemberExpression(Some(ParameterExpression(p, pt)), m, mt), ct)))
         == Success(m.name + ")")
  {
    var read := MemberExpression(Some(ParameterExpression(p, pt)), m, mt);
    assert ExprText(read) == p + "." + m.name;
    assert ExprText(UnaryExpression(Convert, read, ct)) == "Convert(" + ExprText(read) + ")";
    assert "Convert(" + (p + "." + m.name) + ")" == ("Convert(" + p) + "." + (m.name + ")");
    FieldNameIsSecondSegment("Convert(" + p, m.name + ")", "");
  }

  // ---------------------------------------------------------------------------
  // Leaf formatting

  /** A string-typed right operand gives `<field> <token> "<value>"`, the value written
      verbatim between the quotes. */
  lemma StringComparisonShape(expression: Expr, heap: Heap)
    requires expression.BinaryExpression? && CheckIsSingleExpression(expression.kind)
    requires expression.right.ty == StringType
    requires FieldName(ExprText(expression.left)).Success?
    requires GetExpressionPropertyValue(expression.right, heap).Success?
    ensures GetExpressionQueryString(expression, heap) ==
      Success(FieldName(ExprText(expression.left)).value + " " + GetOperand(expression.kind).value
              + " \"" + GetExpressionPropertyValue(expression.right, heap).value + "\"")
  {
  }

  /** A Guid-typed right operand gives `(<field>.Equals(<value>))` whatever the comparison:
      the operator is dropped, so `!=` reads as `==`. */
  lemma GuidComparisonIgnoresOperator(expression: Expr, k: ExprKind, heap: Heap)
    requires expression.BinaryExpression? && CheckIsSingleExpression(expression.kind)
    requires CheckIsSingleExpression(k)
    requires expression.right.ty == GuidType
    ensures GetExpressionQueryString(expression, heap)
         == GetExpressionQueryString(BinaryExpression(k, expression.left, expression.right, expression.ty), heap)
    ensures FieldName(ExprText(expression.left)).Success? && GetExpressionPropertyValue(expression.right, heap).Success? ==>
      GetExpressionQueryString(expression, heap) ==
        Success("(" + FieldName(ExprText(expression.left)).value + ".Equals("
                + GetExpressionPropertyValue(expression.right, heap).value + "))")
  {
  }

  /** A right operand of any type but string or Guid is rejected; the type error is raised
      only after the field name and the value have been computed. */
  lemma OtherTypeRejected(expression: Expr, heap: Heap)
    requires expression.BinaryExpression?
    requires expression.right.ty.OtherType?
    ensures GetExpressionQueryString(expression, heap).Failure?
    ensures FieldName(ExprText(expression.left)).Success? && GetExpressionPropertyValue(expression.right, heap).Success? ==>
      GetExpressionQueryString(expression, heap) == Failure(TypeNotSupported(expression.right.ty))
  {
  }

  /** Once the field name is found, a failure to resolve the right operand is the leaf's
      failure, whatever the operand's type: no text is produced for it. */
  lemma ValueFailureFailsLeaf(expression: Expr, heap: Heap)
    requires expression.BinaryExpression?
    requires FieldName(ExprText(expression.left)).Success?
    requires GetExpressionPropertyValue(expression.right, heap).Failure?
    ensures GetExpressionQueryString(expression, heap) == Failure(GetExpressionPropertyValue(expression.right, heap).error)
  {
  }

  // ---------------------------------------------------------------------------
  // Value resolution

  /** A conversion is unwrapped to the member access it holds. */
  lemma ConvertIsTransparent(operand: Expr, t: TypeTag, heap: Heap)
    requires operand.MemberExpression?
    ensures GetExpressionPropertyValue(UnaryExpression(Convert, operand, t), heap)
         == GetExpressionPropertyValue(operand, heap)
  {
  }

  /** A conversion of anything but a member access fails its cast. */
  lemma ConvertOfNonMemberFails(operand: Expr, t: TypeTag, heap: Heap)
    requires !operand.MemberExpression?
    ensures GetExpressionPropertyValue(UnaryExpression(Convert, operand, t), heap) == Failure(InvalidCast("MemberExpression"))
  {
  }

  /** A field or property of a captured constant is read from the heap and formatted by the
      member's type: a string as is, a Guid wrapped in `Guid("...")`; other member kinds are refused. */
  lemma MemberOfConstant(c: Value, ct: TypeTag, m: MemberInfo, mt: TypeTag, heap: Heap)
    requires c != Null && (c, m.name) in heap && heap[(c, m.name)] != Null
    ensures var read := MemberExpression(Some(ConstantExpression(c, ct)), m, mt);
            var text := ToText(heap[(c, m.name)]).value;
            && (m.kind.OtherMember? ==> GetExpressionPropertyValue(read, heap) == Failure(MemberTypeNotHandled(m.kind)))
            && (!m.kind.OtherMember? && mt == StringType ==> GetExpressionPropertyValue(read, heap) == Success(text))
            && (!m.kind.OtherMember? && mt == GuidType ==>
                  GetExpressionPropertyValue(read, heap) == Success("Guid(\"" + text + "\")"))
            && (!m.kind.OtherMember? && mt.OtherType? ==> GetExpressionPropertyValue(read, heap) == Failure(TypeNotSupported(mt)))
  {
  }

  /** A Guid-typed member's non-null value is wrapped as `Guid("<text>")`. */
  lemma GuidValueWrapped(memberExpression: Expr, value: Value)
    requires memberExpression.ty == GuidType && value != Null
    ensures GetFormatedString(memberExpression, value) == Success("Guid(\"" + ToText(value).value + "\")")
  {
  }

  /** The two-hop read `constant.outer.inner`: a field read on the constant, then a property
      read on what it holds, formatted by the inner member's type. */
  lemma TwoHopRead(c: Value, ct: TypeTag, outer: MemberInfo, ot: TypeTag, inner: MemberInfo, it: TypeTag, heap: Heap)
    requires outer.kind == Field && inner.kind == Property
    requires c != Null && (c, outer.name) in heap
    requires heap[(c, outer.name)] != Null && (heap[(c, outer.name)], inner.name) in heap
    ensures var read := MemberExpression(Some(MemberExpression(Some(ConstantExpression(c, ct)), outer, ot)), inner, it);
            GetExpressionPropertyValue(read, heap) == GetFormatedString(read, heap[(heap[(c, outer.name)], inner.name)])
  {
  }

  /** On the one-hop path a null value is a null reference whatever the member's type:
      `val.ToString()` runs before the type is looked at. */
  lemma OneHopNullValueFails(c: Value, ct: TypeTag, m: MemberInfo, t: TypeTag, heap: Heap)
    requires c != Null && (c, m.name) in heap && heap[(c, m.name)] == Null && !m.kind.OtherMember?
    ensures GetExpressionPropertyValue(MemberExpression(Some(ConstantExpression(c, ct)), m, t), heap)
         == Failure(NullReference("value"))
  {
  }

  /** On the two-hop path the type is looked at first: a null value of an unsupported type
      is a type error, a null value of a string or Guid member a null reference. */
  lemma TwoHopNullValueErrorOrder(c: Value, ct: TypeTag, outer: MemberInfo, ot: TypeTag, inner: MemberInfo, t: TypeTag, heap: Heap)
    requires outer.kind == Field && inner.kind == Property
    requires c != Null && (c, outer.name) in heap && heap[(c, outer.name)] != Null
    requires (heap[(c, outer.name)], inner.name) in heap && heap[(heap[(c, outer.name)], inner.name)] == Null
    ensures var read := MemberExpression(Some(MemberExpression(Some(ConstantExpression(c, ct)), outer, ot)), inner, t);
            && (t.OtherType? ==> GetExpressionPropertyValue(read, heap) == Failure(TypeNotSupported(t)))
            && (!t.OtherType? ==> GetExpressionPropertyValue(read, heap) == Failure(NullReference("value")))
  {
  }

  /** A static member such as `Guid.Empty` has no holder and fails with a null reference. */
  lemma StaticMemberFails(m: MemberInfo, t: TypeTag, heap: Heap)
    ensures GetExpressionPropertyValue(MemberExpression(None, m, t), heap).Failure?
    ensures GetExpressionPropertyValue(MemberExpression(None, m, t), heap).error.NullReference?
  {
  }

  /** `p.<field>`, a property of the lambda parameter `p`, the left operand of the comparisons below. */
  function Prop(field: string, t: TypeTag): Expr {
    MemberExpression(Some(ParameterExpression("p", OtherType("User"))), MemberInfo(Property, field, "User"), t)
  }

  /** A Guid constant is emitted bare: its text goes straight into `.Equals(...)`. */
  lemma GuidConstantEmittedBare(field: string, id: nat, g: string, heap: Heap)
    requires '.' !in field
    ensures Translate(BinaryExpression(Equal, Prop(field, GuidType), ConstantExpression(Obj(id, g, "System.Guid"), GuidType), OtherType("Boolean")), heap)
         == Success("(" + field + ".Equals(" + g + "))")
  {
    FieldNameOfParameterMember("p", MemberInfo(Property, field, "User"), OtherType("User"), GuidType);
  }

  /** A Guid read from a captured constant is wrapped in `Guid("...")` inside `.Equals(...)`. */
  lemma GuidMemberWrapped(field: string, holder: Value, m: MemberInfo, id: nat, g: string, heap: Heap)
    requires '.' !in field
    requires holder != Null && !m.kind.OtherMember? && (holder, m.name) in heap && heap[(holder, m.name)] == Obj(id, g, "System.Guid")
    ensures Translate(BinaryExpression(Equal, Prop(field, GuidType),
                                       MemberExpression(Some(ConstantExpression(holder, OtherType("Closure"))), m, GuidType),
                                       OtherType("Boolean")), heap)
         == Success("(" + field + ".Equals(" + ("Guid(\"" + g + "\")") + "))")
  {
    FieldNameOfParameterMember("p", MemberInfo(Property, field, "User"), OtherType("User"), GuidType);
    var read := MemberExpression(Some(ConstantExpression(holder, OtherType("Closure"))), m, GuidType);
    MemberOfConstant(holder, OtherType("Closure"), m, GuidType, heap);
    assert GetExpressionPropertyValue(read, heap) == Success("Guid(\"" + g + "\")");
  }

  /** `p.<field> == "<s>"` gives `<field> = "<s>"`. */
  lemma StringConstantEquality(field: string, s: string, heap: Heap)
    requires '.' !in field
    ensures Translate(BinaryExpression(Equal, Prop(field, StringType), ConstantExpression(Str(s), StringType), OtherType("Boolean")), heap)
         == Success(field + " = \"" + s + "\"")
  {
    FieldNameOfParameterMember("p", MemberInfo(Property, field, "User"), OtherType("User"), StringType);
    assert field + " " + "=" + " \"" + s + "\"" == field + " = \"" + s + "\"";
  }

  /** The text of a comparison with an injected quote is the text of a disjunction. */
  lemma InjectedText(f: string, a: string, b: string)
    ensures f + " = \"" + (a + "\" OR " + f + " = \"" + b) + "\""
         == (f + " = \"" + a + "\"") + " " + "OR" + " " + (f + " = \"" + b + "\"")
  {
    assert "\" OR " == "\"" + " " + "OR" + " ";
  }

  /** A string constant is written verbatim, so a quote inside it changes the structure of the
      query: the single comparison `p.<f> == "<a>\" OR <f> = \"<b>"` translates exactly like the
      disjunction `p.<f> == "<a>" || p.<f> == "<b>"`. */
  lemma QuoteIsNotEscaped(f: string, a: string, b: string, heap: Heap)
    requires '.' !in f
    ensures
      var injected := a + "\" OR " + f + " = \"" + b;
      Translate(BinaryExpression(Equal, Prop(f, StringType), ConstantExpression(Str(injected), StringType), OtherType("Boolean")), heap)
      == Translate(BinaryExpression(OrElse,
                     BinaryExpression(Equal, Prop(f, StringType), ConstantExpression(Str(a), StringType), OtherType("Boolean")),
                     BinaryExpression(Equal, Prop(f, StringType), ConstantExpression(Str(b), StringType), OtherType("Boolean")),
                     OtherType("Boolean")), heap)
  {
    var injected := a + "\" OR " + f + " = \"" + b;
    var left := BinaryExpression(Equal, Prop(f, StringType), ConstantExpression(Str(a), StringType), OtherType("Boolean"));
    var right := BinaryExpression(Equal, Prop(f, StringType), ConstantExpression(Str(b), StringType), OtherType("Boolean"));
    StringConstantEquality(f, injected, heap);
    StringConstantEquality(f, a, heap);
    StringConstantEquality(f, b, heap);
    TranslateConnective(BinaryExpression(OrElse, left, right, OtherType("Boolean")), heap);
    InjectedText(f, a, b);
  }
}
