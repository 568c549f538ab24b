/**
 * The two name resolvers of src/mockbuster/core.py: which expressions name a
 * mock class and which name the `patch` family.
 */
module Names {
  import opened Wrappers
  import opened Ast

  const MockClasses: set<string> :=
    {"Mock", "MagicMock", "AsyncMock", "PropertyMock", "NonCallableMock", "NonCallableMagicMock"}

  const PatchFunctions: set<string> := {"patch"}

  /**
   * `_get_mock_class_name`: a bare name, or the last component of an
   * attribute access, that is one of the mock classes.
   */
  function MockClassName(e: Expr): (r: Option<string>)
    ensures r.Some? <==> (e.Name? && e.id in MockClasses) || (e.Attribute? && e.attr in MockClasses)
    ensures r.Some? ==> r.value in MockClasses && |r.value| > 0
    ensures r.Some? && e.Name? ==> r.value == e.id
    ensures r.Some? && e.Attribute? ==> r.value == e.attr
  {
    match e
    case Name(_, id, _) => if id in MockClasses then Some(id) else None
    case Attribute(_, _, attr, _) => if attr in MockClasses then Some(attr) else None
    case _ => None
  }

  /** `value` is the bare name `patch`. */
  predicate IsPatchName(value: Expr) {
    value.Name? && value.id in PatchFunctions
  }

  /**
   * `value.attr` read as a patch name: `patch.attr` when the value is the
   * bare name `patch`, otherwise `patch` when the attribute itself is named
   * `patch` (as in `mocker.patch`), and nothing else.
   */
  function AttributePatchName(value: Expr, attr: string): (r: Option<string>)
    ensures r.Some? <==> IsPatchName(value) || attr == "patch"
    ensures IsPatchName(value) ==> r == Some("patch." + attr)
    ensures !IsPatchName(value) && attr == "patch" ==> r == Some("patch")
    ensures r.Some? ==> r.value == "patch" || (|r.value| >= 6 && r.value[..6] == "patch.")
  {
    if value.Name? && value.id in PatchFunctions then
      assert value.id + "." + attr == "patch." + attr;
      Some(value.id + "." + attr)
    else if attr in PatchFunctions then Some(attr)
    else None
  }

  /**
   * `_get_patch_name`: the canonical patch name of a name, an attribute
   * access, or a call of either; `None` for every other shape.
   */
  function PatchName(e: Expr): (r: Option<string>)
    ensures e.Name? ==> (r.Some? <==> e.id == "patch") && (r.Some? ==> r.value == "patch")
    ensures e.Attribute? ==> r == AttributePatchName(e.value, e.attr)
    ensures e.Call? && e.func.Name? ==> r == PatchName(e.func)
    ensures e.Call? && e.func.Attribute? ==> r == AttributePatchName(e.func.value, e.func.attr)
    ensures e.Call? && !e.func.Name? && !e.func.Attribute? ==> r.None?
    ensures e.OtherExpr? ==> r.None?
    ensures r.Some? ==> r.value == "patch" || (|r.value| >= 6 && r.value[..6] == "patch.")
    ensures r.Some? ==> |r.value| > 0
  {
    match e
    case Name(_, id, _) => if id in PatchFunctions then Some(id) else None
    case Call(_, func, _) =>
      (match func
       case Name(_, id, _) => if id in PatchFunctions then Some(id) else None
       case Attribute(_, value, attr, _) => AttributePatchName(value, attr)
       case _ => None)
    case Attribute(_, value, attr, _) => AttributePatchName(value, attr)
    case OtherExpr(_, _) => None
  }

  /** A call resolves to the patch name of its callee; calls of anything else resolve to nothing. */
  lemma PatchNameOfCall(nid: nat, func: Expr, line: int)
    ensures PatchName(Call(nid, func, line)) == if func.Name? || func.Attribute? then PatchName(func) else None
  {
  }

  /** A bare name resolves only when it is `patch`; so do the calls of a bare name. */
  lemma BareNamePatch(nid: nat, id: string, line: int)
    ensures PatchName(Name(nid, id, line)) == (if id == "patch" then Some("patch") else None)
  {
  }

  /**
   * An attribute named `patch` on anything but the bare name `patch`
   * resolves to `patch`, alone or as the callee of a call: this is what
   * reports `mocker.patch(...)` and `mock.patch(...)`.
   */
  lemma PatchOnOtherValue(nid: nat, cid: nat, value: Expr, line: int)
    requires !IsPatchName(value)
    ensures PatchName(Attribute(nid, value, "patch", line)) == Some("patch")
    ensures PatchName(Call(cid, Attribute(nid, value, "patch", line), line)) == Some("patch")
  {
  }

  /** An attribute resolves only when its value is the name `patch` or it is itself named `patch`. */
  lemma OtherAttributeUnresolved(nid: nat, value: Expr, attr: string, line: int)
    requires !IsPatchName(value) && attr != "patch"
    ensures PatchName(Attribute(nid, value, attr, line)) == None
  {
  }

  /** An attribute on `patch` resolves to the dotted name, whatever the attribute. */
  lemma PatchAttribute(nid: nat, vid: nat, attr: string, line: int, vline: int)
    ensures PatchName(Attribute(nid, Name(vid, "patch", vline), attr, line)) == Some("patch." + attr)
  {
  }
}
