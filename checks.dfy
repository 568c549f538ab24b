/**
 * The four `_check_*` helpers of src/mockbuster/core.py. Each appends to the
 * shared violation list, and two of them register call nodes in the shared
 * `processed_calls` set; the list and the set are passed in and the updated
 * ones returned. What each helper appends is specified per element
 * (`FixtureHit`, `DecoratorHit`, `CallHit`, `WithHit`) and, for the loops,
 * as the order-preserving filter-map of those over the list walked.
 */
module Checks {
  import opened Wrappers
  import opened Seqs
  import opened Ast
  import opened Names

  const Advice := "Use real objects, dependency injection, or integration tests"

  /** `word` occurs in `msg` starting at position `k`. */
  predicate OccursAt(msg: string, word: string, k: nat) {
    k + |word| <= |msg| && msg[k..k + |word|] == word
  }

  /** `word` occurs in `msg`. */
  ghost predicate Mentions(msg: string, word: string) {
    exists k: nat :: OccursAt(msg, word, k)
  }

  /** A message built as `before + word + after` mentions `word`. */
  lemma MentionsMiddle(before: string, word: string, after: string)
    ensures Mentions(before + word + after, word)
  {
    var m := before + word + after;
    assert m[|before|..|before| + |word|] == word;
    assert OccursAt(m, word, |before|);
  }

  /**
   * A message built around `phrase` mentions the phrase and the `word`
   * inside it.
   */
  lemma MentionsPhrase(before: string, phrase: string, after: string, pre: string, word: string, post: string)
    requires phrase == pre + word + post
    ensures Mentions(before + phrase + after, phrase)
    ensures Mentions(before + phrase + after, word)
  {
    MentionsMiddle(before, phrase, after);
    MentionsMiddle(before + pre, word, post + after);
    assert before + phrase + after == before + pre + word + (post + after);
  }

  function MockerMessage(): (m: string)
    ensures Mentions(m, "mocker") && Mentions(m, "'mocker' fixture")
  {
    MentionsPhrase("pytest-mock ", "'mocker' fixture", " detected - " + Advice, "'", "mocker", "' fixture");
    "pytest-mock " + "'mocker' fixture" + (" detected - " + Advice)
  }

  function MonkeypatchMessage(): (m: string)
    ensures Mentions(m, "monkeypatch") && Mentions(m, "'monkeypatch' fixture")
  {
    MentionsPhrase("pytest ", "'monkeypatch' fixture", " detected - " + Advice, "'", "monkeypatch", "' fixture");
    "pytest " + "'monkeypatch' fixture" + (" detected - " + Advice)
  }

  function DecoratorMessage(name: string): (m: string)
    ensures Mentions(m, name) && Mentions(m, "@" + name + " decorator")
  {
    MentionsPhrase("", "@" + name + " decorator", " detected - " + Advice, "@", name, " decorator");
    "" + ("@" + name + " decorator") + (" detected - " + Advice)
  }

  function InstantiationMessage(cls: string): (m: string)
    ensures Mentions(m, cls + "()") && Mentions(m, cls + "() instantiation")
  {
    MentionsPhrase("", cls + "() instantiation", " detected - " + Advice, "", cls + "()", " instantiation");
    "" + (cls + "() instantiation") + (" detected - " + Advice)
  }

  function CallMessage(name: string): (m: string)
    ensures Mentions(m, name + "()") && Mentions(m, name + "() call")
  {
    MentionsPhrase("", name + "() call", " detected - " + Advice, "", name + "()", " call");
    "" + (name + "() call") + (" detected - " + Advice)
  }

  function ContextManagerMessage(name: string): (m: string)
    ensures Mentions(m, name) && Mentions(m, name + "() context manager")
  {
    MentionsPhrase("", name + "() context manager", " detected - " + Advice, "", name, "() context manager");
    "" + (name + "() context manager") + (" detected - " + Advice)
  }

  // ---- parameters (`_check_function_args`) ----

  /** The violation one parameter of a definition on line `line` yields. */
  function FixtureHit(param: string, line: int): (r: Option<Violation>)
    ensures r.Some? <==> param == "mocker" || param == "monkeypatch"
    ensures r.Some? ==> r.value.line == line && Mentions(r.value.message, param)
  {
    if param == "mocker" then Some(Violation(line, MockerMessage()))
    else if param == "monkeypatch" then Some(Violation(line, MonkeypatchMessage()))
    else None
  }

  /** One violation per fixture parameter, at the definition's line, in parameter order. */
  function FixtureViolations(params: seq<string>, line: int): seq<Violation> {
    FilterMap(params, p => FixtureHit(p, line))
  }

  method CheckFunctionArgs(node: Node, violations: seq<Violation>) returns (out: seq<Violation>)
    requires node.FunctionDef? && node.line > 0
    ensures out == violations + FixtureViolations(node.params, node.line)
  {
    out := violations;
    var params := node.params;
    for i := 0 to |params|
      invariant out == violations + FixtureViolations(params[..i], node.line)
    {
      FixtureStep(violations, params, i, node.line);
      var arg := params[i];
      if arg == "mocker" {
        assert node.line > 0;
        out := out + [Violation(node.line, MockerMessage())];
      } else if arg == "monkeypatch" {
        assert node.line > 0;
        out := out + [Violation(node.line, MonkeypatchMessage())];
      }
    }
    assert params[..|params|] == params;
  }

  lemma FixtureStep(vs: seq<Violation>, params: seq<string>, i: int, line: int)
    requires 0 <= i < |params|
    ensures vs + FixtureViolations(params[..i + 1], line) == vs + FixtureViolations(params[..i], line) + Kept(FixtureHit(params[i], line))
  {
    assert params[..i + 1] == params[..i] + [params[i]];
    FilterMapSnoc(params[..i], params[i], p => FixtureHit(p, line));
    var before := FixtureViolations(params[..i], line);
    var k := Kept(FixtureHit(params[i], line));
    assert vs + (before + k) == vs + before + k;
  }

  /** A definition none of whose parameters is a fixture name yields nothing. */
  lemma NoFixtureNoViolation(params: seq<string>, line: int)
    requires forall i :: 0 <= i < |params| ==> params[i] != "mocker" && params[i] != "monkeypatch"
    ensures FixtureViolations(params, line) == []
  {
    FilterMapNoneKept(params, p => FixtureHit(p, line));
  }

  // ---- claims on call nodes, shared by decorators and `with` items ----

  /** The call node a decorator or `with` item registers in `processed_calls`, if any. */
  function ClaimOf(e: Expr): Option<nat> {
    if e.Call? && PatchName(e).Some? then Some(e.nid) else None
  }

  /** The identities a list of decorators or items registers, in order. */
  function Claims(es: seq<Expr>): seq<nat> {
    FilterMap(es, ClaimOf)
  }

  /** Only call nodes are registered, each under its own identity. */
  lemma ClaimsAreCalls(es: seq<Expr>, id: nat)
    requires id in Claims(es)
    ensures exists i :: 0 <= i < |es| && es[i].Call? && es[i].nid == id && PatchName(es[i]).Some?
  {
    FilterMapMember(es, ClaimOf, id);
  }

  // ---- decorators (`_check_decorators`) ----

  /** The violation one decorator yields. */
  function DecoratorHit(d: Expr): (r: Option<Violation>)
    ensures r.Some? <==> PatchName(d).Some?
    ensures r.Some? ==> r.value.line == d.line && Mentions(r.value.message, PatchName(d).value)
    ensures r.Some? ==> Mentions(r.value.message, "@" + PatchName(d).value + " decorator")
  {
    match PatchName(d)
    case Some(name) => Some(Violation(d.line, DecoratorMessage(name)))
    case None => None
  }

  /** One violation per patch decorator, at the decorator's line, in decorator-list order. */
  function DecoratorViolations(ds: seq<Expr>): seq<Violation> {
    FilterMap(ds, DecoratorHit)
  }

  method CheckDecorators(node: Node, violations: seq<Violation>, processed: set<nat>)
    returns (out: seq<Violation>, outProcessed: set<nat>)
    requires node.FunctionDef?
    requires forall i :: 0 <= i < |node.decorators| ==> node.decorators[i].line > 0
    requires Distinct(Claims(node.decorators)) && Elems(Claims(node.decorators)) !! processed
    ensures out == violations + DecoratorViolations(node.decorators)
    ensures outProcessed == processed + Elems(Claims(node.decorators))
  {
    out, outProcessed := violations, processed;
    var ds := node.decorators;
    for i := 0 to |ds|
      invariant out == violations + DecoratorViolations(ds[..i])
      invariant outProcessed == processed + Elems(Claims(ds[..i]))
    {
      DecoratorStep(violations, ds, i);
      ClaimUpdate(ds, i, processed);
      var decorator := ds[i];
      var patchName := PatchName(decorator);
      if patchName.Some? {
        assert decorator.line > 0 && |patchName.value| > 0;
        out := out + [Violation(decorator.line, DecoratorMessage(patchName.value))];
        if decorator.Call? {
          var callId := decorator.nid;
          assert callId !in outProcessed;
          outProcessed := outProcessed + {callId};
        }
      }
    }
    assert ds[..|ds|] == ds;
  }

  lemma DecoratorStep(vs: seq<Violation>, ds: seq<Expr>, i: int)
    requires 0 <= i < |ds|
    ensures PatchName(ds[i]).Some? ==> (vs + DecoratorViolations(ds[..i + 1]) ==
      vs + DecoratorViolations(ds[..i]) + [Violation(ds[i].line, DecoratorMessage(PatchName(ds[i]).value))])
    ensures PatchName(ds[i]).None? ==> vs + DecoratorViolations(ds[..i + 1]) == vs + DecoratorViolations(ds[..i])
  {
    assert ds[..i + 1] == ds[..i] + [ds[i]];
    FilterMapSnoc(ds[..i], ds[i], DecoratorHit);
    var before := DecoratorViolations(ds[..i]);
    var k := Kept(DecoratorHit(ds[i]));
    assert vs + (before + k) == vs + before + k;
  }

  /**
   * Registering the claim of the `i`-th element, if any, keeps the registered
   * set equal to the claims so far; with distinct claims the identity was
   * not yet registered (the source's assertion).
   */
  lemma ClaimUpdate(es: seq<Expr>, i: int, processed: set<nat>)
    requires 0 <= i < |es|
    requires Distinct(Claims(es)) && Elems(Claims(es)) !! processed
    ensures ClaimOf(es[i]).Some? ==>
      es[i].nid !in processed + Elems(Claims(es[..i])) &&
      processed + Elems(Claims(es[..i + 1])) == processed + Elems(Claims(es[..i])) + {es[i].nid}
    ensures ClaimOf(es[i]).None? ==>
      processed + Elems(Claims(es[..i + 1])) == processed + Elems(Claims(es[..i]))
  {
    ClaimStep(es, i);
    if ClaimOf(es[i]).Some? {
      ClaimNotYetProcessed(es, i, processed);
    }
  }

  lemma ClaimNotYetProcessed(es: seq<Expr>, i: int, processed: set<nat>)
    requires 0 <= i < |es| && ClaimOf(es[i]).Some?
    requires Distinct(Claims(es)) && Elems(Claims(es)) !! processed
    ensures es[i].nid !in processed + Elems(Claims(es[..i]))
  {
    assert es == es[..i] + [es[i]] + es[i + 1..];
    FilterMapAppend(es[..i] + [es[i]], es[i + 1..], ClaimOf);
    FilterMapSnoc(es[..i], es[i], ClaimOf);
    var before := Claims(es[..i]);
    assert Claims(es) == before + [es[i].nid] + Claims(es[i + 1..]);
    DistinctAppend(before + [es[i].nid], Claims(es[i + 1..]));
    DistinctAppend(before, [es[i].nid]);
    assert es[i].nid in Elems(Claims(es));
  }

  // ---- calls (`_check_calls`) ----

  /**
   * The violation a call node yields in the generic check, given the calls
   * already registered: none for a registered call; otherwise a mock-class
   * instantiation before anything else, and a patch call only when the
   * callee is an attribute access.
   */
  function CallHit(call: Expr, processed: set<nat>): (r: Option<Violation>)
    requires call.Call?
    ensures call.nid in processed ==> r.None?
    ensures r.Some? ==> r.value.line == call.line
    ensures call.nid !in processed && MockClassName(call.func).Some? ==>
      r == Some(Violation(call.line, InstantiationMessage(MockClassName(call.func).value)))
    ensures MockClassName(call.func).None? && !call.func.Attribute? ==> r.None?
    ensures call.nid !in processed && MockClassName(call.func).None? && call.func.Attribute? ==>
      (r.Some? <==> PatchName(call.func).Some?)
    ensures r.Some? && MockClassName(call.func).None? ==>
      Mentions(r.value.message, PatchName(call.func).value + "() call")
  {
    if call.nid in processed then None
    else
      match MockClassName(call.func)
      case Some(cls) => Some(Violation(call.line, InstantiationMessage(cls)))
      case None =>
        if call.func.Attribute? then
          match PatchName(call.func)
          case Some(name) => Some(Violation(call.line, CallMessage(name)))
          case None => None
        else None
  }

  method CheckCalls(node: Expr, violations: seq<Violation>, processed: set<nat>) returns (out: seq<Violation>)
    requires node.Call? && node.line > 0
    ensures out == violations + Kept(CallHit(node, processed))
  {
    out := violations;
    if node.nid in processed {
      return;
    }
    var mockClass := MockClassName(node.func);
    if mockClass.Some? {
      assert node.line > 0 && |mockClass.value| > 0;
      out := out + [Violation(node.line, InstantiationMessage(mockClass.value))];
    } else if node.func.Attribute? {
      var patchName := PatchName(node.func);
      if patchName.Some? {
        assert node.line > 0 && |patchName.value| > 0;
        out := out + [Violation(node.line, CallMessage(patchName.value))];
      }
    }
  }

  // ---- `with` items (`_check_with_statements`) ----

  /** The violation one `with` item yields. */
  function WithHit(item: Expr): (r: Option<Violation>)
    ensures r.Some? <==> PatchName(item).Some?
    ensures r.Some? ==> r.value.line == item.line && Mentions(r.value.message, PatchName(item).value)
    ensures r.Some? ==> Mentions(r.value.message, PatchName(item).value + "() context manager")
  {
    match PatchName(item)
    case Some(name) => Some(Violation(item.line, ContextManagerMessage(name)))
    case None => None
  }

  /** One violation per patch context manager, at its expression's line, in item order. */
  function WithViolations(items: seq<Expr>): seq<Violation> {
    FilterMap(items, WithHit)
  }

  method CheckWithStatements(node: Node, violations: seq<Violation>, processed: set<nat>)
    returns (out: seq<Violation>, outProcessed: set<nat>)
    requires node.With? && |node.items| > 0
    requires forall i :: 0 <= i < |node.items| ==> node.items[i].line > 0
    requires Distinct(Claims(node.items)) && Elems(Claims(node.items)) !! processed
    ensures out == violations + WithViolations(node.items)
    ensures outProcessed == processed + Elems(Claims(node.items))
  {
    out, outProcessed := violations, processed;
    var items := node.items;
    for i := 0 to |items|
      invariant out == violations + WithViolations(items[..i])
      invariant outProcessed == processed + Elems(Claims(items[..i]))
    {
      WithStep(violations, items, i);
      ClaimUpdate(items, i, processed);
      var item := items[i];
      var patchName := PatchName(item);
      if patchName.Some? {
        assert item.line > 0 && |patchName.value| > 0;
        out := out + [Violation(item.line, ContextManagerMessage(patchName.value))];
        if item.Call? {
          var callId := item.nid;
          assert callId !in outProcessed;
          outProcessed := outProcessed + {callId};
        }
      }
    }
    assert items[..|items|] == items;
  }

  lemma WithStep(vs: seq<Violation>, items: seq<Expr>, i: int)
    requires 0 <= i < |items|
    ensures PatchName(items[i]).Some? ==> (vs + WithViolations(items[..i + 1]) ==
      vs + WithViolations(items[..i]) + [Violation(items[i].line, ContextManagerMessage(PatchName(items[i]).value))])
    ensures PatchName(items[i]).None? ==> vs + WithViolations(items[..i + 1]) == vs + WithViolations(items[..i])
  {
    assert items[..i + 1] == items[..i] + [items[i]];
    FilterMapSnoc(items[..i], items[i], WithHit);
    var before := WithViolations(items[..i]);
    var k := Kept(WithHit(items[i]));
    assert vs + (before + k) == vs + before + k;
  }

  lemma ClaimStep(es: seq<Expr>, i: int)
    requires 0 <= i < |es|
    ensures ClaimOf(es[i]).Some? ==> Elems(Claims(es[..i + 1])) == Elems(Claims(es[..i])) + {es[i].nid}
    ensures ClaimOf(es[i]).None? ==> Elems(Claims(es[..i + 1])) == Elems(Claims(es[..i]))
  {
    assert es[..i + 1] == es[..i] + [es[i]];
    FilterMapSnoc(es[..i], es[i], ClaimOf);
    ElemsAppend(Claims(es[..i]), Kept(ClaimOf(es[i])));
  }
}
