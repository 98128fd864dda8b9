/**
 * Concrete trees, as the C# compiler lowers the lambdas of the demo program and of
 * typical callers, with what the translator makes of them.
 */
module Scenarios {
  import opened Wrappers
  import opened Expressions
  import opened Translator
  import opened TranslatorProperties

  const UserType := OtherType("User")
  const BoolType := OtherType("Boolean")
  const IntType := OtherType("Int32")

  /** `left == right` */
  function Eq(left: Expr, right: Expr): Expr {
    BinaryExpression(Equal, left, right, BoolType)
  }

  /** `<closure>.<local>.<name>`: property `name` of a captured local variable, which the
      compiler stores in a field of the closure object. */
  function CapturedProp(closure: Value, local: string, name: string, t: TypeTag): Expr {
    MemberExpression(Some(MemberExpression(Some(ConstantExpression(closure, OtherType("Closure"))),
                                           MemberInfo(Field, local, "Closure"), UserType)),
                     MemberInfo(Property, name, "User"), t)
  }

  /** The demo predicate
      `p.Name == "Some name" && (p.Description == "dsafsdfsdfs" || p.Age == 6 || p.Id == Guid.Empty)`. */
  function DemoPredicate(): Expr {
    BinaryExpression(AndAlso,
      Eq(Prop("Name", StringType), ConstantExpression(Str("Some name"), StringType)),
      BinaryExpression(OrElse,
        BinaryExpression(OrElse,
          Eq(Prop("Description", StringType), ConstantExpression(Str("dsafsdfsdfs"), StringType)),
          Eq(Prop("Age", IntType), ConstantExpression(Obj(0, "6", "System.Int32"), IntType)),
          BoolType),
        Eq(Prop("Id", GuidType), MemberExpression(None, MemberInfo(Field, "Empty", "Guid"), GuidType)),
        BoolType),
      BoolType)
  }

  /** `p.<field> == <int constant>` fails on the type of the right operand. */
  lemma IntConstantComparisonFails(field: string, id: nat, text: string, heap: Heap)
    requires '.' !in field
    ensures Translate(Eq(Prop(field, IntType), ConstantExpression(Obj(id, text, "System.Int32"), IntType)), heap)
         == Failure(TypeNotSupported(IntType))
  {
    FieldNameOfParameterMember("p", MemberInfo(Property, field, "User"), UserType, IntType);
    OtherTypeRejected(Eq(Prop(field, IntType), ConstantExpression(Obj(id, text, "System.Int32"), IntType)), heap);
  }

  /** The demo program does not get a query string: `p.Age == 6` compares an `int`,
      which the translator rejects, after the name and description comparisons succeed. */
  lemma DemoPredicateFails(heap: Heap)
    ensures Translate(DemoPredicate(), heap) == Failure(TypeNotSupported(IntType))
  {
    var name := Eq(Prop("Name", StringType), ConstantExpression(Str("Some name"), StringType));
    var description := Eq(Prop("Description", StringType), ConstantExpression(Str("dsafsdfsdfs"), StringType));
    var age := Eq(Prop("Age", IntType), ConstantExpression(Obj(0, "6", "System.Int32"), IntType));
    var inner := BinaryExpression(OrElse, description, age, BoolType);
    var id := Eq(Prop("Id", GuidType), MemberExpression(None, MemberInfo(Field, "Empty", "Guid"), GuidType));
    var outer := BinaryExpression(OrElse, inner, id, BoolType);
    StringConstantEquality("Name", "Some name", heap);
    StringConstantEquality("Description", "dsafsdfsdfs", heap);
    IntConstantComparisonFails("Age", 0, "6", heap);
    TranslateConnective(inner, heap);
    TranslateConnective(outer, heap);
    TranslateConnective(DemoPredicate(), heap);
  }

  /** Without the `int` comparison the demo still fails: the static `Guid.Empty` has no
      holder expression, so reading it is a null dereference. */
  lemma StaticGuidComparisonFails(heap: Heap)
    ensures Translate(Eq(Prop("Id", GuidType), MemberExpression(None, MemberInfo(Field, "Empty", "Guid"), GuidType)), heap)
         == Failure(NullReference("memberExpression.Expression"))
  {
    FieldNameOfParameterMember("p", MemberInfo(Property, "Id", "User"), UserType, GuidType);
  }

  /** `p.<field> == user.<name>` for a captured `user` whose `name` is a string gives
      `<field> = "<value>"`. */
  lemma CapturedStringComparison(closure: Value, field: string, name: string, user: Value, value: string, heap: Heap)
    requires '.' !in field
    requires closure != Null && (closure, "user") in heap && heap[(closure, "user")] == user
    requires user != Null && (user, name) in heap && heap[(user, name)] == Str(value)
    ensures Translate(Eq(Prop(field, StringType), CapturedProp(closure, "user", name, StringType)), heap)
         == Success(field + " " + "=" + " \"" + value + "\"")
  {
    FieldNameOfParameterMember("p", MemberInfo(Property, field, "User"), UserType, StringType);
    TwoHopRead(closure, OtherType("Closure"), MemberInfo(Field, "user", "Closure"), UserType,
               MemberInfo(Property, name, "User"), StringType, heap);
  }

  /** `p.Age == user.Age` for a captured `user` is rejected by the member's `int` type. */
  lemma CapturedIntComparisonFails(closure: Value, user: Value, age: Value, heap: Heap)
    requires closure != Null && (closure, "user") in heap && heap[(closure, "user")] == user
    requires user != Null && (user, "Age") in heap && heap[(user, "Age")] == age
    ensures Translate(Eq(Prop("Age", IntType), CapturedProp(closure, "user", "Age", IntType)), heap)
         == Failure(TypeNotSupported(IntType))
  {
    FieldNameOfParameterMember("p", MemberInfo(Property, "Age", "User"), UserType, IntType);
    TwoHopRead(closure, OtherType("Closure"), MemberInfo(Field, "user", "Closure"), UserType,
               MemberInfo(Property, "Age", "User"), IntType, heap);
  }

  /** `p.Name == user.Name && p.Age == user.Age || p.Description == user.Description` ends in
      the `int` rejection, although the name comparison alone would succeed. */
  lemma CapturedUserPredicateFails(closure: Value, user: Value, heap: Heap)
    requires closure != Null && (closure, "user") in heap && heap[(closure, "user")] == user
    requires user != Null && (user, "Name") in heap && heap[(user, "Name")] == Str("Namee")
    requires (user, "Age") in heap && heap[(user, "Age")] == Obj(1, "33", "System.Int32")
    ensures
      var name := Eq(Prop("Name", StringType), CapturedProp(closure, "user", "Name", StringType));
      var age := Eq(Prop("Age", IntType), CapturedProp(closure, "user", "Age", IntType));
      var description := Eq(Prop("Description", StringType), CapturedProp(closure, "user", "Description", StringType));
      Translate(BinaryExpression(OrElse, BinaryExpression(AndAlso, name, age, BoolType), description, BoolType), heap)
      == Failure(TypeNotSupported(IntType))
  {
    var name := Eq(Prop("Name", StringType), CapturedProp(closure, "user", "Name", StringType));
    var age := Eq(Prop("Age", IntType), CapturedProp(closure, "user", "Age", IntType));
    var description := Eq(Prop("Description", StringType), CapturedProp(closure, "user", "Description", StringType));
    var both := BinaryExpression(AndAlso, name, age, BoolType);
    CapturedStringComparison(closure, "Name", "Name", user, "Namee", heap);
    CapturedIntComparisonFails(closure, user, Obj(1, "33", "System.Int32"), heap);
    TranslateConnective(both, heap);
    TranslateConnective(BinaryExpression(OrElse, both, description, BoolType), heap);
  }

  /** `p.Id == firstUser.Id` for a captured `firstUser` whose `Id` is a Guid gives
      `(Id.Equals(Guid("<guid>")))`. */
  lemma CapturedGuidComparison(closure: Value, user: Value, id: nat, g: string, heap: Heap)
    requires closure != Null && (closure, "firstUser") in heap && heap[(closure, "firstUser")] == user
    requires user != Null && (user, "Id") in heap && heap[(user, "Id")] == Obj(id, g, "System.Guid")
    ensures Translate(Eq(Prop("Id", GuidType), CapturedProp(closure, "firstUser", "Id", GuidType)), heap)
         == Success("(" + "Id" + ".Equals(" + ("Guid(\"" + g + "\")") + "))")
  {
    FieldNameOfParameterMember("p", MemberInfo(Property, "Id", "User"), UserType, GuidType);
    TwoHopRead(closure, OtherType("Closure"), MemberInfo(Field, "firstUser", "Closure"), UserType,
               MemberInfo(Property, "Id", "User"), GuidType, heap);
  }

  /** The reversed comparison `user.Name == p.Name`: the captured closure object prints as
      `value(<type name>)`, so a closure type `a.b` (as `TestExpression.Program+<>c__DisplayClass0_0`)
      makes the field name `b)`, not `Name`. */
  lemma ReversedCapturedFieldName(id: nat, a: string, b: string, local: string, name: string, t: TypeTag)
    requires '.' !in a && '.' !in b
    ensures FieldName(ExprText(CapturedProp(Obj(id, a + "." + b, a + "." + b), local, name, t))) == Success(b + ")")
  {
    var closure := Obj(id, a + "." + b, a + "." + b);
    var constant := ConstantExpression(closure, OtherType("Closure"));
    var captured := MemberExpression(Some(constant), MemberInfo(Field, local, "Closure"), UserType);
    assert ExprText(constant) == "value(" + (a + "." + b) + ")";
    assert ExprText(captured) == ExprText(constant) + "." + local;
    assert ExprText(CapturedProp(closure, local, name, t)) == ExprText(captured) + "." + name;
    assert ExprText(CapturedProp(closure, local, name, t)) == ("value(" + a) + "." + (b + ")") + "." + (local + "." + name);
    FieldNameIsSecondSegment("value(" + a, b + ")", local + "." + name);
  }

  /** The whole reversed comparison `user.Name == p.Name` fails: the right operand `p.Name`
      has the parameter as its holder, so the two-hop path casts a parameter to a member
      access. */
  lemma ReversedCapturedComparisonFails(id: nat, a: string, b: string, heap: Heap)
    requires '.' !in a && '.' !in b
    ensures Translate(Eq(CapturedProp(Obj(id, a + "." + b, a + "." + b), "user", "Name", StringType),
                         Prop("Name", StringType)), heap)
         == Failure(InvalidCast("MemberExpression"))
  {
  }
}
