/**
 * The shapes of Python's syntax tree that the detector inspects. Parsing is
 * not modelled: the parser's output is an input, as the sequence of nodes
 * `ast.walk` yields (breadth first) or the fact that parsing failed. Every
 * expression carries `nid`, a node index that stands in for Python's `id()`.
 */
module Ast {

  /** Expressions: a bare name, `value.attr`, a call of `func`, or anything else. */
  datatype Expr =
    | Name(nid: nat, id: string, line: int)
    | Attribute(nid: nat, value: Expr, attr: string, line: int)
    | Call(nid: nat, func: Expr, line: int)
    | OtherExpr(nid: nat, line: int)

  /**
   * The nodes of a walk. A function definition keeps the names of its
   * positional parameters (`args.args`) and its decorator list; a `with`
   * statement keeps the context expression of each item; every other node
   * that the dispatch ignores is `OtherNode`.
   */
  datatype Node =
    | FunctionDef(params: seq<string>, decorators: seq<Expr>, line: int)
    | AsyncFunctionDef(params: seq<string>, decorators: seq<Expr>, line: int)
    | With(items: seq<Expr>)
    | AsyncWith(items: seq<Expr>)
    | ExprNode(e: Expr)
    | OtherNode

  /** What `ast.parse` produced: a SyntaxError, or the walk of the module. */
  datatype Parsed = SyntaxError | Module(walk: seq<Node>)

  /** One reported occurrence of a mocking construct. */
  datatype Violation = Violation(line: int, message: string)
}
