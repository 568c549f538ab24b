/**
 * `detect_mocks` (src/mockbuster/core.py:185-223): walk the syntax tree,
 * dispatch each node to the matching check, then drop the violations on
 * lines that carry an ignore directive.
 *
 * The source text is given together with what the tokenizer and the parser
 * made of it. The walk is specified as a left fold (`Walk`) of `Visit` over
 * the nodes; `DetectMocks` is proved to compute `Detected`, and the lemmas
 * below state what `Detected` promises.
 */
module Core {
  import opened Wrappers
  import opened Seqs
  import opened Ast
  import opened Names
  import opened Checks
  import Comments

  /** A source file: its text, its token stream and its parse. */
  datatype Source = Source(text: string, lexed: Comments.Lexed, tree: Parsed)

  /** The state the walk threads through: the violation list and `processed_calls`. */
  datatype Analysis = Analysis(violations: seq<Violation>, processed: set<nat>)

  /** What the helpers assert about the nodes they are handed. */
  predicate WellFormedNode(n: Node) {
    match n
    case FunctionDef(_, ds, line) => line > 0 && forall i :: 0 <= i < |ds| ==> ds[i].line > 0
    case With(items) => |items| > 0 && forall i :: 0 <= i < |items| ==> items[i].line > 0
    case ExprNode(e) => e.Call? ==> e.line > 0
    case _ => true
  }

  /** The call identities a node registers in `processed_calls`. */
  function NodeClaims(n: Node): seq<nat> {
    match n
    case FunctionDef(_, ds, _) => Claims(ds)
    case With(items) => Claims(items)
    case _ => []
  }

  /** The call identities a walk registers, in order. */
  function WalkClaims(ws: seq<Node>): seq<nat> {
    if ws == [] then [] else WalkClaims(ws[..|ws| - 1]) + NodeClaims(ws[|ws| - 1])
  }

  /**
   * A walk of a real tree: every node well formed, and no call node claimed
   * twice (each call has exactly one parent, so this holds of any `ast.walk`).
   */
  predicate WellFormedWalk(ws: seq<Node>) {
    (forall i :: 0 <= i < |ws| ==> WellFormedNode(ws[i])) && Distinct(WalkClaims(ws))
  }

  /** What visiting one node appends, given the calls registered so far. */
  function NodeViolations(n: Node, processed: set<nat>): seq<Violation> {
    match n
    case FunctionDef(params, ds, line) => FixtureViolations(params, line) + DecoratorViolations(ds)
    case ExprNode(e) => if e.Call? then Kept(CallHit(e, processed)) else []
    case With(items) => WithViolations(items)
    case _ => []
  }

  /** One step of the walk loop. */
  function Visit(a: Analysis, n: Node): (r: Analysis)
    ensures |a.violations| <= |r.violations| && r.violations[..|a.violations|] == a.violations
    ensures a.processed <= r.processed
    ensures n.AsyncFunctionDef? || n.AsyncWith? || n.OtherNode? ==> r == a
    ensures n.ExprNode? ==> r.processed == a.processed
  {
    Analysis(a.violations + NodeViolations(n, a.processed), a.processed + Elems(NodeClaims(n)))
  }

  /**
   * The state after walking `ws` from an empty list and an empty set:
   * `processed_calls` ends up holding exactly the identities the walk's
   * decorators and `with` items claimed.
   */
  function Walk(ws: seq<Node>): (r: Analysis)
    ensures ws == [] ==> r == Analysis([], {})
    ensures r.processed == Elems(WalkClaims(ws))
    decreases |ws|
  {
    if ws == [] then Analysis([], {})
    else
      ElemsAppend(WalkClaims(ws[..|ws| - 1]), NodeClaims(ws[|ws| - 1]));
      Visit(Walk(ws[..|ws| - 1]), ws[|ws| - 1])
  }

  /** Walking one more node is one more visit. */
  lemma WalkSnoc(ws: seq<Node>, n: Node)
    ensures Walk(ws + [n]) == Visit(Walk(ws), n)
  {
    assert (ws + [n])[..|ws|] == ws;
  }

  /** The order-preserving filter that drops violations on ignored lines. */
  function Unignored(vs: seq<Violation>, ignored: set<int>): (r: seq<Violation>)
    ensures |r| <= |vs|
  {
    FilterMap(vs, (v: Violation) => if v.line in ignored then None else Some(v))
  }

  /** What `detect_mocks` returns for `source`. */
  function Detected(source: Source, respectIgnores: bool): (r: seq<Violation>)
    ensures source.tree.SyntaxError? ==> r == []
    ensures source.tree.Module? && !respectIgnores ==> r == Walk(source.tree.walk).violations
    ensures source.tree.Module? ==> |r| <= |Walk(source.tree.walk).violations|
  {
    match source.tree
    case SyntaxError => []
    case Module(ws) =>
      var raw := Walk(ws).violations;
      if respectIgnores then Unignored(raw, Comments.IgnoredLines(source.text, source.lexed)) else raw
  }

  method DetectMocks(source: Source, respectIgnores: bool) returns (violations: seq<Violation>)
    requires source.tree.Module? ==> WellFormedWalk(source.tree.walk)
    ensures violations == Detected(source, respectIgnores)
  {
    violations := [];
    var processedCalls: set<nat> := {};
    if source.tree.SyntaxError? {
      return;
    }
    var walk := source.tree.walk;
    for i := 0 to |walk|
      invariant Analysis(violations, processedCalls) == Walk(walk[..i])
    {
      WalkPrefixStep(walk, i);
      WalkStep(walk, i);
      var node := walk[i];
      ghost var before := Analysis(violations, processedCalls);
      if node.FunctionDef? {
        violations := CheckFunctionArgs(node, violations);
        violations, processedCalls := CheckDecorators(node, violations, processedCalls);
        FunctionDefStep(before.violations, node, before.processed);
      } else if node.ExprNode? && node.e.Call? {
        violations := CheckCalls(node.e, violations, processedCalls);
      } else if node.With? {
        violations, processedCalls := CheckWithStatements(node, violations, processedCalls);
      }
      assert Analysis(violations, processedCalls) == Visit(before, node);
    }
    assert walk[..|walk|] == walk;
    if respectIgnores {
      var ignoredLines := Comments.ExtractIgnoredLines(source.text, source.lexed);
      violations := Unignored(violations, ignoredLines);
    }
  }

  lemma FunctionDefStep(vs: seq<Violation>, n: Node, processed: set<nat>)
    requires n.FunctionDef?
    ensures vs + FixtureViolations(n.params, n.line) + DecoratorViolations(n.decorators) ==
      vs + NodeViolations(n, processed)
  {
  }

  /** The facts the loop of `DetectMocks` needs about the claims of step `i`. */
  lemma WalkStep(ws: seq<Node>, i: int)
    requires WellFormedWalk(ws) && 0 <= i < |ws|
    ensures Distinct(NodeClaims(ws[i])) && Elems(NodeClaims(ws[i])) !! Walk(ws[..i]).processed
  {
    DistinctPrefix(ws, i + 1);
    assert ws[..i + 1][..i] == ws[..i];
    DistinctAppend(WalkClaims(ws[..i]), NodeClaims(ws[i]));
  }

  /** Walking one node further extends a prefix by one visit. */
  lemma WalkPrefixStep(ws: seq<Node>, i: int)
    requires 0 <= i < |ws|
    ensures Walk(ws[..i + 1]) == Visit(Walk(ws[..i]), ws[i])
  {
    assert ws[..i + 1][..i] == ws[..i];
  }

  /** Every prefix of a walk with distinct claims has distinct claims. */
  lemma {:induction false} DistinctPrefix(ws: seq<Node>, k: int)
    requires 0 <= k <= |ws| && Distinct(WalkClaims(ws))
    ensures Distinct(WalkClaims(ws[..k]))
    decreases |ws|
  {
    if k < |ws| {
      var p := ws[..|ws| - 1];
      DistinctAppend(WalkClaims(p), NodeClaims(ws[|ws| - 1]));
      DistinctPrefix(p, k);
      assert p[..k] == ws[..k];
    } else {
      assert ws[..k] == ws;
    }
  }

  /** A claim made by node `k` is part of the claims of every walk containing it. */
  lemma {:induction false} WalkClaimsContains(ws: seq<Node>, k: int, id: nat)
    requires 0 <= k < |ws| && id in NodeClaims(ws[k])
    ensures id in WalkClaims(ws)
    decreases |ws|
  {
    if k < |ws| - 1 {
      var p := ws[..|ws| - 1];
      assert p[k] == ws[k];
      WalkClaimsContains(p, k, id);
    }
  }

  /**
   * A call registered by an earlier decorator or `with` item adds nothing
   * when the walk reaches that call node itself: it is reported once.
   */
  lemma ClaimedCallNotReportedAgain(ws: seq<Node>, k: int, j: int)
    requires 0 <= k < j < |ws|
    requires ws[j].ExprNode? && ws[j].e.Call? && ws[j].e.nid in NodeClaims(ws[k])
    ensures NodeViolations(ws[j], Walk(ws[..j]).processed) == []
    ensures Walk(ws[..j + 1]).violations == Walk(ws[..j]).violations
  {
    var call := ws[j].e;
    var processed := Walk(ws[..j]).processed;
    ClaimRegisteredBefore(ws, k, j, call.nid);
    assert CallHit(call, processed) == None;
    CallNodeViolations(ws[j], processed);
    WalkPrefixStep(ws, j);
  }

  /** A call node contributes what the generic call check yields for it. */
  lemma CallNodeViolations(n: Node, processed: set<nat>)
    requires n.ExprNode? && n.e.Call?
    ensures NodeViolations(n, processed) == Kept(CallHit(n.e, processed))
  {
  }

  /** An identity claimed by node `k` is registered once the walk has passed `k`. */
  lemma ClaimRegisteredBefore(ws: seq<Node>, k: int, j: int, id: nat)
    requires 0 <= k < j <= |ws| && id in NodeClaims(ws[k])
    ensures id in Walk(ws[..j]).processed
  {
    var prefix := ws[..j];
    assert prefix[k] == ws[k];
    WalkClaimsContains(prefix, k, id);
    assert id in Elems(WalkClaims(prefix));
  }

  /**
   * The breadth-first order of `ast.walk`: a node that claims a call comes
   * before that call node in the walk.
   */
  predicate ClaimantsFirst(ws: seq<Node>) {
    forall j, k ::
      0 <= j < |ws| && 0 <= k < |ws| && ws[j].ExprNode? && ws[j].e.Call? && ws[j].e.nid in NodeClaims(ws[k])
      ==> k < j
  }

  /**
   * In breadth-first order, a call node that some decorator or `with` item
   * claims contributes nothing when the walk reaches it.
   */
  lemma ClaimedCallsSkipped(ws: seq<Node>, j: int)
    requires ClaimantsFirst(ws) && 0 <= j < |ws|
    requires ws[j].ExprNode? && ws[j].e.Call?
    requires exists k :: 0 <= k < |ws| && ws[j].e.nid in NodeClaims(ws[k])
    ensures Walk(ws[..j + 1]).violations == Walk(ws[..j]).violations
  {
    var k :| 0 <= k < |ws| && ws[j].e.nid in NodeClaims(ws[k]);
    ClaimedCallNotReportedAgain(ws, k, j);
  }

  /** Every violation a node appends sits on a positive line. */
  lemma NodeViolationsPositive(n: Node, processed: set<nat>, v: Violation)
    requires WellFormedNode(n) && v in NodeViolations(n, processed)
    ensures v.line > 0
  {
    match n
    case FunctionDef(params, ds, line) =>
      if v in FixtureViolations(params, line) {
        FilterMapMember(params, p => FixtureHit(p, line), v);
      } else {
        FilterMapMember(ds, DecoratorHit, v);
      }
    case With(items) =>
      FilterMapMember(items, WithHit, v);
    case ExprNode(e) =>
    case _ =>
  }

  /** Every raw violation of a well-formed walk sits on a positive line. */
  lemma {:induction false} RawViolationsPositive(ws: seq<Node>, v: Violation)
    requires forall i :: 0 <= i < |ws| ==> WellFormedNode(ws[i])
    requires v in Walk(ws).violations
    ensures v.line > 0
    decreases |ws|
  {
    var p := ws[..|ws| - 1];
    var n := ws[|ws| - 1];
    if v in Walk(p).violations {
      RawViolationsPositive(p, v);
    } else {
      NodeViolationsPositive(n, Walk(p).processed, v);
    }
  }

  /** A violation survives the filter exactly when its line is not ignored. */
  lemma UnignoredMember(vs: seq<Violation>, ignored: set<int>, v: Violation)
    ensures v in Unignored(vs, ignored) <==> v in vs && v.line !in ignored
  {
    var f := (w: Violation) => if w.line in ignored then None else Some(w);
    FilterMapMember(vs, f, v);
    if v in vs && v.line !in ignored {
      var i :| 0 <= i < |vs| && vs[i] == v;
      assert f(vs[i]) == Some(v);
    }
  }

  /** The filter keeps order: it distributes over concatenation. */
  lemma UnignoredAppend(a: seq<Violation>, b: seq<Violation>, ignored: set<int>)
    ensures Unignored(a + b, ignored) == Unignored(a, ignored) + Unignored(b, ignored)
  {
    FilterMapAppend(a, b, (v: Violation) => if v.line in ignored then None else Some(v));
  }

  /** A violation list none of whose lines is ignored passes the filter unchanged. */
  lemma {:induction false} UnignoredKeepsAll(vs: seq<Violation>, ignored: set<int>)
    requires forall i :: 0 <= i < |vs| ==> vs[i].line !in ignored
    ensures Unignored(vs, ignored) == vs
    decreases |vs|
  {
    if vs != [] {
      UnignoredKeepsAll(vs[..|vs| - 1], ignored);
      assert vs[..|vs| - 1] + [vs[|vs| - 1]] == vs;
    }
  }

  /**
   * With ignores respected, a violation is reported exactly when the walk
   * raised it and its line is not among the ignored lines.
   */
  lemma DetectedWithIgnores(source: Source, v: Violation)
    requires source.tree.Module?
    ensures v in Detected(source, true) <==>
      v in Detected(source, false) && v.line !in Comments.IgnoredLines(source.text, source.lexed)
  {
    UnignoredMember(Walk(source.tree.walk).violations, Comments.IgnoredLines(source.text, source.lexed), v);
  }

  /** When the tokenizer fails, nothing is ignored and every raw violation is reported. */
  lemma TokenizerFailureIgnoresNothing(source: Source)
    requires source.tree.Module? && source.lexed.failed
    ensures Detected(source, true) == Detected(source, false)
  {
    UnignoredKeepsAll(Walk(source.tree.walk).violations, {});
  }
}
