/**
 * Worked walks taken from the detector's test suite, each written as the
 * node sequence `ast.walk` yields for the quoted snippet (nodes the
 * dispatch ignores collapsed to `OtherNode` or left out, since visiting one
 * changes nothing), with the violation list `Walk` produces.
 */
module Scenarios {
  import opened Wrappers
  import opened Seqs
  import opened Names
  import opened Ast
  import opened Checks
  import opened Core

  /**
   * `def test_foo(mocker):` on line 2 with `mocker.patch('something')` on
   * line 3: the fixture and the attribute patch call are both reported.
   */
  lemma MockerFixtureAndPatchCall()
    ensures Walk([
      FunctionDef(["mocker"], [], 2),
      OtherNode,
      ExprNode(Call(1, Attribute(2, Name(3, "mocker", 3), "patch", 3), 3))
    ]).violations == [Violation(2, MockerMessage()), Violation(3, CallMessage("patch"))]
  {
    var def := FunctionDef(["mocker"], [], 2);
    var call := Call(1, Attribute(2, Name(3, "mocker", 3), "patch", 3), 3);
    MockerDefVisited();
    WalkSnoc([def], OtherNode);
    AttributePatchCallHit();
    WalkSnoc([def, OtherNode], ExprNode(call));
    assert [def, OtherNode] + [ExprNode(call)] == [def, OtherNode, ExprNode(call)];
  }

  lemma MockerDefVisited()
    ensures Walk([FunctionDef(["mocker"], [], 2)]) == Analysis([Violation(2, MockerMessage())], {})
  {
    SingleElement("mocker", p => FixtureHit(p, 2));
    WalkSingle(FunctionDef(["mocker"], [], 2));
  }

  lemma AttributePatchCallHit()
    ensures CallHit(Call(1, Attribute(2, Name(3, "mocker", 3), "patch", 3), 3), {}) ==
      Some(Violation(3, CallMessage("patch")))
  {
    assert PatchName(Attribute(2, Name(3, "mocker", 3), "patch", 3)) == Some("patch");
  }

  /**
   * A user function `patch(value)` defined on line 2, and `test_foo()` on
   * line 5 whose body calls `patch(5)` on line 6: the call's callee is a bare
   * name, so nothing is reported.
   */
  lemma BarePatchCallNotReported()
    ensures Walk([
      FunctionDef(["value"], [], 2),
      FunctionDef([], [], 5),
      ExprNode(Call(1, Name(2, "patch", 6), 6))
    ]).violations == []
  {
    var def := FunctionDef(["value"], [], 2);
    var test := FunctionDef([], [], 5);
    var call := Call(1, Name(2, "patch", 6), 6);
    TwoDefinitionsVisited(def, test);
    assert CallHit(call, {}) == None;
    WalkSnoc([def, test], ExprNode(call));
    assert [def, test] + [ExprNode(call)] == [def, test, ExprNode(call)];
  }

  lemma TwoDefinitionsVisited(def: Node, test: Node)
    requires def == FunctionDef(["value"], [], 2) && test == FunctionDef([], [], 5)
    ensures Walk([def, test]) == Analysis([], {})
  {
    SingleElement("value", p => FixtureHit(p, 2));
    WalkSingle(def);
    WalkSnoc([def], test);
    assert [def] + [test] == [def, test];
  }

  /**
   * `@patch.object(MyClass, 'method')` on line 2 over a definition on line 3:
   * the decorator is reported once. On its own the decorator's call node
   * would be reported as a `patch.object()` call; the walk's later visit
   * finds it registered and adds nothing.
   */
  lemma PatchObjectDecoratorReportedOnce()
    ensures CallHit(Call(1, Attribute(2, Name(3, "patch", 2), "object", 2), 2), {}).Some?
    ensures Walk([
      FunctionDef(["mock_method"], [Call(1, Attribute(2, Name(3, "patch", 2), "object", 2), 2)], 3),
      ExprNode(Call(1, Attribute(2, Name(3, "patch", 2), "object", 2), 2))
    ]).violations == [Violation(2, DecoratorMessage("patch.object"))]
  {
    var d := Call(1, Attribute(2, Name(3, "patch", 2), "object", 2), 2);
    var def := FunctionDef(["mock_method"], [d], 3);
    PatchObjectName();
    PatchObjectDefVisited(d, def);
    assert CallHit(d, {1}) == None;
    WalkSnoc([def], ExprNode(d));
    assert [def] + [ExprNode(d)] == [def, ExprNode(d)];
  }

  lemma PatchObjectName()
    ensures PatchName(Attribute(2, Name(3, "patch", 2), "object", 2)) == Some("patch.object")
    ensures PatchName(Call(1, Attribute(2, Name(3, "patch", 2), "object", 2), 2)) == Some("patch.object")
  {
    assert "patch" + "." + "object" == "patch.object";
  }

  lemma PatchObjectDefVisited(d: Expr, def: Node)
    requires d == Call(1, Attribute(2, Name(3, "patch", 2), "object", 2), 2)
    requires def == FunctionDef(["mock_method"], [d], 3)
    ensures Walk([def]) == Analysis([Violation(2, DecoratorMessage("patch.object"))], {1})
  {
    SingleElement("mock_method", p => FixtureHit(p, 3));
    PatchObjectDecoratorList();
    assert Elems([1]) == {1};
    WalkSingle(def);
  }

  lemma PatchObjectDecoratorList()
    ensures DecoratorViolations([Call(1, Attribute(2, Name(3, "patch", 2), "object", 2), 2)]) ==
      [Violation(2, DecoratorMessage("patch.object"))]
    ensures Claims([Call(1, Attribute(2, Name(3, "patch", 2), "object", 2), 2)]) == [1]
  {
    var d := Call(1, Attribute(2, Name(3, "patch", 2), "object", 2), 2);
    PatchObjectName();
    SingleElement(d, DecoratorHit);
    SingleElement(d, ClaimOf);
  }

  /** The filter-map of a one-element sequence. */
  lemma SingleElement<T, U>(x: T, f: T -> Option<U>)
    ensures FilterMap([x], f) == Kept(f(x))
  {
    FilterMapSnoc([], x, f);
    assert [] + [x] == [x];
  }

  /** The walk of a one-node sequence. */
  lemma WalkSingle(n: Node)
    ensures Walk([n]) == Visit(Analysis([], {}), n)
  {
    WalkSnoc([], n);
    assert [] + [n] == [n];
  }
}
