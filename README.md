# DynamicExpressionHandler in Dafny

`DynamicExpressionHandler` turns a LINQ predicate tree into a filter string for a dynamic-query engine. The tree is a `BinaryExpression` made of comparisons joined by `&&`, `||`, `&` and `|`. The translator walks the tree in order:

- **A comparison** (`==`, `!=`, `<`, `<=`, `>`, `>=`, `Not`) becomes one piece of text. The field name comes from the second `.`-separated segment of the left operand's printed text. The value comes from the right operand: a constant, a `Convert` around a member access, a field or property of a captured constant, or a two-hop read through a closure field. The right operand's static type picks the shape:
  - `string` gives `<field> <token> "<value>"`;
  - `Guid` gives `(<field>.Equals(<value>))`.
- **A connective** writes its left and right translations with the token `AND` or `OR` between single spaces.
- **Anything else** raises an exception.

The C# class builds its result by appending to a static string field, `dynamicQueryString`. `GetDynamicQueryString` clears that field first.

The project has seven modules:

- `Wrappers`: `Option`, `Result` and `Outcome`.
- `Expressions`: the expression tree, the `ExpressionType` kinds the translator looks at, static type tags, runtime values, reflection as a heap map, the exceptions as error values, and the .NET Framework printer's text of a node (`Expression.ToString()`).
- `Segments`: `String.Split(char)` and its inverse `Join`.
- `Translator`: the pure translator.
  - Operator classification, the token table, the field name, value resolution and formatting.
  - `Translate`, the whole-tree translation. It returns the query string, or the error the C# code would throw.
- `Handler`: the imperative face. A class `DynamicExpressionHandler` has the buffer `dynamicQueryString` as a field. Its recursive `HandleExpression` appends to the buffer, and it is proved to compute exactly `Translate`.
- `TranslatorProperties`: lemmas about the model. They include:
  - the traversal is an in-order concatenation, so grouping is lost;
  - the error at line 195 cannot surface;
  - the field-name rule;
  - the type-directed formatting;
  - the value-resolution paths and their error order;
  - unescaped quotes.
- `Scenarios`: hand-lowered trees for the predicate of the demo program and typical captured-variable comparisons, with what the translator makes of them.

How the code behaves, as the model shows:

- The demo predicate at `TestExpression/Program.cs:10` gets no query string. `p.Age == 6` has an `int` right operand and is rejected (line 82), after the `Name` and `Description` comparisons succeed. Even without it, `p.Id == Guid.Empty` fails: the static member has no holder expression, so line 111 dereferences null.
- A captured `int` member, as in `p.Age == user.Age`, is rejected by `GetFormatedString` (line 156), so the comparison yields no text.
- A Guid constant is written bare inside `.Equals(...)`. Only a Guid read through a member gets the `Guid("...")` wrapper.
- Nested groups are flattened. `(a || b) && c` and `a || (b && c)` translate to the same string.
- A Guid comparison drops its operator, so `p.Id != x` translates like `p.Id == x`.
- String values are not escaped: a quote inside a constant produces the text of a disjunction.
- A reversed comparison such as `user.Name == p.Name` takes its field name from the captured side. The closure object prints as `value(TestExpression.Program+<>c__DisplayClass0_0)`, so line 71 picks `Program+<>c__DisplayClass0_0)`. The comparison then fails at line 128, because the holder of `p.Name` is the parameter, which the two-hop path casts to a member access. The odd field name only reaches the output when the right side also resolves, as in `user.Name == other.Name`.
- On the one-hop path, a null value fails before its type is checked (`val.ToString()` at line 124). On the two-hop path, an unsupported type is reported first (line 156 comes before `value.ToString()` runs).

## Model

All source paths are in the `DynamicExpressionHandler` repository.

| member | source | states |
|---|---|---|
| Segments.Split | DynamicExpressionHandler/DynamicExpressionHandler/DynamicExpressionHandler.cs:71 | `Split('.')` yields at least one segment and no segment holds the separator. A string without the separator is its own single segment. A string with one has at least two segments. |
| Segments.JoinSplit | DynamicExpressionHandler/DynamicExpressionHandler/DynamicExpressionHandler.cs:71 | Joining the segments of a split with the separator gives back the original string. |
| Segments.SplitJoin | DynamicExpressionHandler/DynamicExpressionHandler/DynamicExpressionHandler.cs:71 | Splitting the join of separator-free segments gives back those segments. |
| Segments.SplitAfterSegment | DynamicExpressionHandler/DynamicExpressionHandler/DynamicExpressionHandler.cs:71 | A separator-free prefix followed by the separator is split off as the first segment. |
| Expressions.ReadMember | DynamicExpressionHandler/DynamicExpressionHandler/DynamicExpressionHandler.cs:117-132 | A reflective instance read succeeds exactly when the target is non-null and has the member. It then yields the member's value. A null target is an error. |
| Expressions.ToText | DynamicExpressionHandler/DynamicExpressionHandler/DynamicExpressionHandler.cs:98 | `ToString()` succeeds exactly on non-null values, and a string is its own text. |
| Translator.CheckIsSingleExpression | DynamicExpressionHandler/DynamicExpressionHandler/DynamicExpressionHandler.cs:207-220 | No contract of its own. `TranslatorProperties.ClassificationDisjoint` and the iff in `Translator.GetOperand`'s contract state it. |
| Translator.CheckIsMultiExpression | DynamicExpressionHandler/DynamicExpressionHandler/DynamicExpressionHandler.cs:230-240 | No contract of its own. `TranslatorProperties.ClassificationDisjoint` and `Translator.GetOperand`'s contract (a connective's token is `AND` or `OR`) state it. |
| Translator.GetOperand | DynamicExpressionHandler/DynamicExpressionHandler/DynamicExpressionHandler.cs:165-197 | There is a token exactly for the comparisons and connectives; any other kind is `OperandNotExists` for that kind. A connective's token is `AND` or `OR`, and a comparison's token is neither. |
| Translator.FieldName | DynamicExpressionHandler/DynamicExpressionHandler/DynamicExpressionHandler.cs:71 | The second `.`-segment exists exactly when the text has a `.`, and it holds no `.` itself. Otherwise the result is an index-out-of-range error. |
| Translator.GetFormatedString | DynamicExpressionHandler/DynamicExpressionHandler/DynamicExpressionHandler.cs:149-157 | A type other than string or Guid is an error exactly then, whatever the value. The result is a success exactly for a supported type and a non-null value. A string value of a string member is returned unchanged. |
| Translator.MemberValue | DynamicExpressionHandler/DynamicExpressionHandler/DynamicExpressionHandler.cs:111-135 | A member access without a holder is a null-reference error. A member of an unsupported type never yields a value. |
| Translator.GetExpressionPropertyValue | DynamicExpressionHandler/DynamicExpressionHandler/DynamicExpressionHandler.cs:90-141 | A constant yields its value's own text, with no type check and no wrapper. A node that is not a constant, conversion or member access leaves the member null, which is a null-reference error. |
| Translator.GetExpressionQueryString | DynamicExpressionHandler/DynamicExpressionHandler/DynamicExpressionHandler.cs:64-83 | A left operand without a `.` fails with index-out-of-range before the value is resolved. No comparison with a right operand of another type than string or Guid succeeds. |
| Translator.TranslateConnective | DynamicExpressionHandler/DynamicExpressionHandler/DynamicExpressionHandler.cs:44-49 | A connective whose left child fails fails with that error. One whose right child fails, after a successful left child, fails with the right child's error. Otherwise its translation is the two translations joined by the connective's token between single spaces. |
| Translator.Translate | DynamicExpressionHandler/DynamicExpressionHandler/DynamicExpressionHandler.cs:26-54 | No contract of its own. `TranslatorProperties.TranslateIsInOrderConcat`, `Translator.TranslateConnective` and `TranslatorProperties.UnsupportedNodesRejected` state it, and the handler methods are proved equal to it. |
| Handler.DynamicExpressionHandler.constructor | DynamicExpressionHandler/DynamicExpressionHandler/DynamicExpressionHandler.cs:15 | The buffer starts empty. The C# field starts null, which `+=` reads as empty, and line 28 resets it before any read. |
| Handler.DynamicExpressionHandler.GetDynamicQueryString | DynamicExpressionHandler/DynamicExpressionHandler/DynamicExpressionHandler.cs:26-31 | The result equals the pure translation of the tree, whatever the buffer held before, including the cast failure of a non-binary root. On success the buffer holds exactly the result. |
| Handler.DynamicExpressionHandler.HandleExpression | DynamicExpressionHandler/DynamicExpressionHandler/DynamicExpressionHandler.cs:38-54 | Handling succeeds exactly when the translation does. The buffer is extended by exactly the translation on success. A failure carries the translation's error. The old buffer is always a prefix of the new one. |
| Handler.ConnectiveLeftFails | DynamicExpressionHandler/DynamicExpressionHandler/DynamicExpressionHandler.cs:46 | A connective whose left child fails fails with that error. |
| Handler.ConnectiveRightNotBinary | DynamicExpressionHandler/DynamicExpressionHandler/DynamicExpressionHandler.cs:48 | After a successful left child, a right child that is not binary is a cast error of the whole connective. |
| Handler.ConnectiveRightFails | DynamicExpressionHandler/DynamicExpressionHandler/DynamicExpressionHandler.cs:48 | After a successful left child, the right child's error is the connective's error. |
| Handler.ConnectiveSucceeds | DynamicExpressionHandler/DynamicExpressionHandler/DynamicExpressionHandler.cs:46-48 | Appending the left text, the spaced token and the right text appends the connective's translation. |
| Handler.TranslateTwice | DynamicExpressionHandler/DynamicExpressionHandler/DynamicExpressionHandler.cs:26-29 | Two calls on one handler each return their own tree's translation: nothing leaks from the first into the second. The same tree gives the same answer twice. |
| TranslatorProperties.ClassificationDisjoint | DynamicExpressionHandler/DynamicExpressionHandler/DynamicExpressionHandler.cs:207-240 | No operator is both a comparison and a connective. |
| TranslatorProperties.TokenTable | DynamicExpressionHandler/DynamicExpressionHandler/DynamicExpressionHandler.cs:167-192 | The token of each supported operator, as listed there: `AND`, `OR`, `=`, `>`, `>=`, `<`, `<=`, `NOT`. |
| TranslatorProperties.NoOperandErrorInTranslation | DynamicExpressionHandler/DynamicExpressionHandler/DynamicExpressionHandler.cs:195 | No translation of any tree fails with `GetOperand`'s own error. |
| TranslatorProperties.UnsupportedNodesRejected | DynamicExpressionHandler/DynamicExpressionHandler/DynamicExpressionHandler.cs:50-53 | A binary node that is neither a comparison nor a connective is rejected with its kind. A non-binary root fails the cast. |
| TranslatorProperties.TranslateIsInOrderConcat | DynamicExpressionHandler/DynamicExpressionHandler/DynamicExpressionHandler.cs:40-53 | Translation is the left-to-right concatenation of the leaf texts and spaced tokens, with nothing in between, and the first failing piece is the error. |
| TranslatorProperties.FlatteningLosesGrouping | DynamicExpressionHandler/DynamicExpressionHandler/DynamicExpressionHandler.cs:44-49 | `(a k2 b) k1 c` and `a k2 (b k1 c)` translate identically, so grouping is lost. |
| TranslatorProperties.FieldNameIsSecondSegment | DynamicExpressionHandler/DynamicExpressionHandler/DynamicExpressionHandler.cs:71 | For dot-free `a` and `b`, both `a.b` and `a.b.<rest>` give `b`. |
| TranslatorProperties.FieldNameOfParameterMember | DynamicExpressionHandler/DynamicExpressionHandler/DynamicExpressionHandler.cs:71 | `p.Name` prints as `p.Name` and gives the field `Name`. |
| TranslatorProperties.FieldNameOfNestedMember | DynamicExpressionHandler/DynamicExpressionHandler/DynamicExpressionHandler.cs:71 | `p.A.B` gives `A`. |
| TranslatorProperties.FieldNameOfConvertedMember | DynamicExpressionHandler/DynamicExpressionHandler/DynamicExpressionHandler.cs:71 | A converted left operand `Convert(p.A)` gives `A)`. |
| TranslatorProperties.StringComparisonShape | DynamicExpressionHandler/DynamicExpressionHandler/DynamicExpressionHandler.cs:75-76 | A string right operand gives `<field> <token> "<value>"`, with the value verbatim. |
| TranslatorProperties.GuidComparisonIgnoresOperator | DynamicExpressionHandler/DynamicExpressionHandler/DynamicExpressionHandler.cs:77-80 | A Guid right operand gives `(<field>.Equals(<value>))`, and every comparison operator gives the same result. |
| TranslatorProperties.OtherTypeRejected | DynamicExpressionHandler/DynamicExpressionHandler/DynamicExpressionHandler.cs:71-82 | Any other right-operand type fails. Once the name and value are found, the error is the type error. |
| TranslatorProperties.ValueFailureFailsLeaf | DynamicExpressionHandler/DynamicExpressionHandler/DynamicExpressionHandler.cs:71-72 | Once the field name is found, a failure to resolve the right operand is the leaf's failure, with the same error. |
| TranslatorProperties.ConvertIsTransparent | DynamicExpressionHandler/DynamicExpressionHandler/DynamicExpressionHandler.cs:101-104 | A conversion of a member access resolves like the member access. |
| TranslatorProperties.ConvertOfNonMemberFails | DynamicExpressionHandler/DynamicExpressionHandler/DynamicExpressionHandler.cs:103 | A conversion of anything else fails its cast to `MemberExpression`. |
| TranslatorProperties.MemberOfConstant | DynamicExpressionHandler/DynamicExpressionHandler/DynamicExpressionHandler.cs:111-125 | A field or property of a constant is formatted by the member's type: the text for string, `Guid("<text>")` for Guid, an error otherwise. Other member kinds are refused. |
| TranslatorProperties.GuidValueWrapped | DynamicExpressionHandler/DynamicExpressionHandler/DynamicExpressionHandler.cs:151-152 | A non-null value of a Guid-typed member is formatted as `Guid("<text>")`. |
| TranslatorProperties.TwoHopRead | DynamicExpressionHandler/DynamicExpressionHandler/DynamicExpressionHandler.cs:126-135 | `constant.field.property` is a field read on the constant, then a property read on its value, formatted by the type of the property read. |
| TranslatorProperties.OneHopNullValueFails | DynamicExpressionHandler/DynamicExpressionHandler/DynamicExpressionHandler.cs:117-124 | A null value read through one hop is a null reference, whatever the member's type, string and Guid included. |
| TranslatorProperties.TwoHopNullValueErrorOrder | DynamicExpressionHandler/DynamicExpressionHandler/DynamicExpressionHandler.cs:131-156 | A null value read through two hops is a type error for an unsupported type, and a null reference for a string or Guid member. |
| TranslatorProperties.StaticMemberFails | DynamicExpressionHandler/DynamicExpressionHandler/DynamicExpressionHandler.cs:111 | A member without a holder expression, such as `Guid.Empty`, fails with a null reference. |
| TranslatorProperties.GuidConstantEmittedBare | DynamicExpressionHandler/DynamicExpressionHandler/DynamicExpressionHandler.cs:95-98 | `p.F == <Guid constant g>` gives `(F.Equals(g))`, with no `Guid("...")` wrapper. |
| TranslatorProperties.GuidMemberWrapped | DynamicExpressionHandler/DynamicExpressionHandler/DynamicExpressionHandler.cs:149-152 | A Guid read from a captured constant gives `(F.Equals(Guid("g")))`. |
| TranslatorProperties.StringConstantEquality | DynamicExpressionHandler/DynamicExpressionHandler/DynamicExpressionHandler.cs:64-83 | `p.F == "s"` gives `F = "s"`. |
| TranslatorProperties.QuoteIsNotEscaped | DynamicExpressionHandler/DynamicExpressionHandler/DynamicExpressionHandler.cs:76 | A string constant holding a quote translates exactly like a disjunction of two comparisons. |
| Scenarios.IntConstantComparisonFails | DynamicExpressionHandler/DynamicExpressionHandler/DynamicExpressionHandler.cs:81-82 | `p.F == <int constant>` fails with the `int` type error. |
| Scenarios.DemoPredicateFails | DynamicExpressionHandler/TestExpression/Program.cs:10 | The demo predicate fails with the `int` type error of `p.Age == 6`. |
| Scenarios.StaticGuidComparisonFails | DynamicExpressionHandler/DynamicExpressionHandler/DynamicExpressionHandler.cs:111 | `p.Id == Guid.Empty` fails with a null reference on the missing holder. |
| Scenarios.CapturedStringComparison | DynamicExpressionHandler/DynamicExpressionHandler/DynamicExpressionHandler.cs:126-135 | `p.F == user.N`, with a captured `user` whose string `N` is `v`, gives `F = "v"`. |
| Scenarios.CapturedIntComparisonFails | DynamicExpressionHandler/DynamicExpressionHandler/DynamicExpressionHandler.cs:156 | `p.Age == user.Age` fails with the `int` type error. |
| Scenarios.CapturedUserPredicateFails | DynamicExpressionHandler/DynamicExpressionHandler/DynamicExpressionHandler.cs:38-54 | A predicate mixing a good string comparison with a captured `int` comparison fails with the type error. |
| Scenarios.ReversedCapturedFieldName | DynamicExpressionHandler/DynamicExpressionHandler/DynamicExpressionHandler.cs:71 | With a captured closure on the left, whose type name is `a.b`, the field name is `b)`. |
| Scenarios.ReversedCapturedComparisonFails | DynamicExpressionHandler/DynamicExpressionHandler/DynamicExpressionHandler.cs:111-128 | The whole comparison `user.Name == p.Name` fails with an invalid cast: the right operand's holder is the parameter, not a member access. |
| Scenarios.CapturedGuidComparison | DynamicExpressionHandler/DynamicExpressionHandler/DynamicExpressionHandler.cs:126-135 | `p.Id == firstUser.Id` gives `(Id.Equals(Guid("<guid>")))`. |

## Left out

- Expressions.ExprText: only parameters, member accesses, constants and conversions are printed as the .NET Framework expression printer does. That includes `value(...)` around an object constant whose text is its runtime type name. Other nodes (calls, arithmetic, lambdas) get an approximation. Only their dots matter to the field name.
- Reflection is a map from (object, member name) to value. A missing member is a distinct error, standing in for the reflection exceptions.
- `Guid.ToString()` and `object.ToString()` are opaque texts carried by the value, next to the full name of the value's runtime type. Runtime `Type` objects become the tags string, Guid and other.
- Exceptions are distinct error values. Their messages and types are not modelled. The `catch { throw; }` at lines 137-140 only rethrows, so it is the identity.
- The static buffer is an instance field of a class. Sharing it between threads is not modelled.
- Handler.DynamicExpressionHandler.HandleExpression: after a failure, the contract states only that the old buffer is a prefix of the new one, not exactly what was appended. The unused `expressionType` parameter is dropped.
- Translator.GetFormatedString: its own contract does not state the `Guid("...")` wrapper. `TranslatorProperties.GuidValueWrapped` states it for every Guid-typed member and non-null value.
- Translator.MemberValue: its own contract is weaker than its behaviour. `MemberOfConstant`, `TwoHopRead`, `OneHopNullValueFails`, `TwoHopNullValueErrorOrder` and `StaticMemberFails` state the paths.
- Translator.GetExpressionQueryString: its own contract gives only the field-name error and the type restriction. `StringComparisonShape`, `GuidComparisonIgnoresOperator`, `OtherTypeRejected` and `ValueFailureFailsLeaf` state the shapes and the other error cases.
- Translator.Translate: it has no contract of its own. `TranslateIsInOrderConcat`, `TranslateConnective`, `NoOperandErrorInTranslation` and `UnsupportedNodesRejected` state it.
- `TestExpression/UserRepository.cs` builds demo data with `Guid.NewGuid` and `DateTime.Now`, then passes the lambda body through. It is not part of this model.
- `TestExpression/Program.cs` is console input and output. Only its predicate is used, as `Scenarios.DemoPredicate`.
- The C# compiler's lowering of lambdas into expression trees is external. The scenarios build the trees by hand.
