/**
 * The stateful face of the translator: `DynamicExpressionHandler` keeps its output in the
 * field `dynamicQueryString`, which `GetDynamicQueryString` clears and `HandleExpression`
 * appends to while it recurses. The methods are proved to compute `Translator.Translate`.
 */
module Handler {
  import opened Wrappers
  import opened Expressions
  import opened Translator

  class DynamicExpressionHandler {
    /** The accumulation buffer (a static field of the C# class). */
    var dynamicQueryString: string

    constructor ()
      ensures dynamicQueryString == ""
    {
      dynamicQueryString := "";
    }

    /** Translate a tree: clear the buffer, cast the root to a binary node, handle it.
        The result is the pure translation of the tree, whatever the buffer held before;
        on success the buffer holds exactly the result. */
    method GetDynamicQueryString(expressionBody: Expr, heap: Heap) returns (r: Result<string, Error>)
      modifies this
      ensures r == Translate(expressionBody, heap)
      ensures r.Success? ==> dynamicQueryString == r.value
    {
      dynamicQueryString := "";
      if !expressionBody.BinaryExpression? {
        return Failure(InvalidCast("BinaryExpression"));
      }
      var outcome := HandleExpression(expressionBody, heap);
      if outcome.Fail? {
        return Failure(outcome.error);
      }
      assert dynamicQueryString == Translate(expressionBody, heap).value;
      r := Success(dynamicQueryString);
    }

    /** Append the translation of a binary node to the buffer. A comparison appends its
        formatted text; a connective handles its left child, appends the token between
        spaces, then handles its right child, each child first cast to a binary node.
        The buffer is only ever extended; on success by exactly the tree's translation. */
    method HandleExpression(expression: Expr, heap: Heap) returns (outcome: Outcome<Error>)
      requires expression.BinaryExpression?
      modifies this
      ensures outcome.Pass? <==> Translate(expression, heap).Success?
      ensures outcome.Pass? ==>
        dynamicQueryString == old(dynamicQueryString) + Translate(expression, heap).value
      ensures outcome.Fail? ==> Translate(expression, heap) == Failure(outcome.error)
      ensures old(dynamicQueryString) <= dynamicQueryString
      decreases expression
    {
      if CheckIsSingleExpression(expression.kind) {
        assert Translate(expression, heap) == GetExpressionQueryString(expression, heap);
        var query := GetExpressionQueryString(expression, heap);
        if query.Failure? {
          return Fail(query.error);
        }
        dynamicQueryString := dynamicQueryString + query.value;
        outcome := Pass;
      } else if CheckIsMultiExpression(expression.kind) {
        if !expression.left.BinaryExpression? {
          return Fail(InvalidCast("BinaryExpression"));
        }
        ghost var before := dynamicQueryString;
        var left := HandleExpression(expression.left, heap);
        if left.Fail? {
          ConnectiveLeftFails(expression, heap);
          return left;
        }
        var token := GetOperand(expression.kind).value;
        dynamicQueryString := dynamicQueryString + (" " + token + " ");
        if !expression.right.BinaryExpression? {
          ConnectiveRightNotBinary(expression, heap);
          return Fail(InvalidCast("BinaryExpression"));
        }
        var right := HandleExpression(expression.right, heap);
        if right.Fail? {
          ConnectiveRightFails(expression, heap);
          return right;
        }
        ConnectiveSucceeds(expression, heap, before, token);
        outcome := Pass;
      } else {
        outcome := Fail(NodeTypeNotSupported(expression.kind));
      }
    }
  }

  /** A connective whose left child fails fails with the left child's error. */
  lemma ConnectiveLeftFails(e: Expr, heap: Heap)
    requires e.BinaryExpression? && CheckIsMultiExpression(e.kind)
    requires Translate(e.left, heap).Failure?
    ensures Translate(e, heap) == Translate(e.left, heap)
  {
    TranslateConnective(e, heap);
  }

  /** A connective whose left child succeeds and whose right child is no binary node fails
      with the cast error of the right child. */
  lemma ConnectiveRightNotBinary(e: Expr, heap: Heap)
    requires e.BinaryExpression? && CheckIsMultiExpression(e.kind)
    requires Translate(e.left, heap).Success? && !e.right.BinaryExpression?
    ensures Translate(e, heap) == Failure(InvalidCast("BinaryExpression"))
  {
    TranslateConnective(e, heap);
  }

  /** A connective whose left child succeeds and whose right child fails fails with the
      right child's error. */
  lemma ConnectiveRightFails(e: Expr, heap: Heap)
    requires e.BinaryExpression? && CheckIsMultiExpression(e.kind)
    requires Translate(e.left, heap).Success? && Translate(e.right, heap).Failure?
    ensures Translate(e, heap) == Translate(e.right, heap)
  {
    TranslateConnective(e, heap);
  }

  /** When both children succeed, a buffer extended by the left text, the spaced token and
      the right text has been extended by the connective's translation. */
  lemma ConnectiveSucceeds(e: Expr, heap: Heap, before: string, token: string)
    requires e.BinaryExpression? && CheckIsMultiExpression(e.kind)
    requires token == GetOperand(e.kind).value
    requires Translate(e.left, heap).Success? && Translate(e.right, heap).Success?
    ensures Translate(e, heap).Success?
    ensures before + Translate(e.left, heap).value + (" " + token + " ") + Translate(e.right, heap).value
      == before + Translate(e, heap).value
  {
    TranslateConnective(e, heap);
    var l, r := Translate(e.left, heap).value, Translate(e.right, heap).value;
    assert l + " " + token + " " + r == l + (" " + token + " ") + r;
    Regroup(before, l, " " + token + " ", r);
  }

  /** Appending three pieces one after another is appending their concatenation. */
  lemma Regroup(buffer: string, a: string, b: string, c: string)
    ensures buffer + a + b + c == buffer + (a + b + c)
  {
  }

  /** A client: two translations on one handler, the second after the first, do not leak
      into each other, and translating the same tree twice gives the same answer. */
  method TranslateTwice(handler: DynamicExpressionHandler, first: Expr, second: Expr, heap: Heap)
    returns (r1: Result<string, Error>, r2: Result<string, Error>)
    modifies handler
    ensures r1 == Translate(first, heap) && r2 == Translate(second, heap)
    ensures first == second ==> r1 == r2
  {
    r1 := handler.GetDynamicQueryString(first, heap);
    r2 := handler.GetDynamicQueryString(second, heap);
  }
}
