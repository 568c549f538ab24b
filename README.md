# mockbuster, modelled in Dafny

mockbuster reports the places in Python test code where mocking is used. It flags these constructs:
- `mocker` and `monkeypatch` fixture parameters;
- `@patch…` decorators;
- `Mock()`-family instantiations;
- `….patch…()` calls;
- `with patch…(…)` context managers.

Any report on a line governed by a `# mockbuster: ignore` comment is dropped. This project models the two passes that make up the checker, plus the filter that joins them. Each pass has a specification function, and the method that mirrors the Python loop is proved to compute it.

- **Directive** (`directive.dfy`): the pattern `#\s*mockbuster\s*:\s*ignore\b`, searched case-insensitively in a comment's text.
  - It is written once as a greedy matcher (`MatchAt`) and once as a declarative split of the text (`Decomposes`), and proved equivalent.
  - Lemmas cover the accepted and rejected spellings from the test suite.
- **Comments** (`comments.dfy`): `extract_ignored_lines`, as a fold `Scan` of `Step` over the token stream.
  - `ExtractIgnoredLines` is the imperative loop, and it is proved equal to that fold.
  - `ScanInvariant` gives the fold a declarative reading: which directive lines and which governed code lines end up in the set.
- **Names** (`names.dfy`): the two name resolvers, `_get_mock_class_name` and `_get_patch_name`.
- **Checks** (`checks.dfy`): the four `_check_*` helpers.
  - Each is a method that appends to the violation list (and, where the source does, adds to `processed_calls`).
  - Each is proved against a per-element specification (`FixtureHit`, `DecoratorHit`, `CallHit`, `WithHit`), lifted to lists by an order-preserving filter-map.
- **Core** (`core.dfy`): `detect_mocks`.
  - The walk is a left fold `Walk` of `Visit` over the nodes of `ast.walk`.
  - `DetectMocks` is the dispatch loop followed by the ignore filter, and it is proved to compute `Detected`.
  - Lemmas cover deduplication of claimed calls, line positivity and the filter.
- **Scenarios** (`scenarios.dfy`): walks taken from the test suite, with the violations the model computes for them.
- `seqs.dfy`, `wrappers.dfy` and `ast.dfy` hold the shared sequence lemmas, `Option`, and the syntax-tree and violation datatypes.

The parser and the tokenizer are taken as inputs:
- a `Source` carries the text;
- its token stream: the tokens plus whether `TokenError` was raised;
- its parse: `SyntaxError`, or the node sequence `ast.walk` yields.

Python's `id()` of a call node is replaced by the node index `nid`.

## Model

| member | source | states |
|---|---|---|
| Names.MockClassName | src/mockbuster/core.py:19-38 | A mock class name is returned exactly when a bare name, or an attribute's last component, is one of the six mock classes. It is that member, and it is non-empty. |
| Names.AttributePatchName | src/mockbuster/core.py:61-71 | `value.attr` resolves if and only if the value is the bare name `patch` or the attribute is named `patch`. In the first case the result is `patch.<attr>`, otherwise it is `patch`. |
| Names.PatchName | src/mockbuster/core.py:41-73 | Per shape:<br>- a name resolves if and only if it is `patch`, to `patch`;<br>- an attribute resolves as `AttributePatchName` of its value and attribute;<br>- a call of a name or an attribute resolves as that callee;<br>- any other call or expression resolves to nothing.<br>A resolved name is `patch` or begins with `patch.`, and it is non-empty. |
| Names.PatchNameOfCall | src/mockbuster/core.py:58-65 | A call resolves as its callee when the callee is a name or an attribute, and to nothing otherwise. |
| Names.BareNamePatch | src/mockbuster/core.py:55-56 | A bare name resolves only when it is `patch`. |
| Names.PatchOnOtherValue | src/mockbuster/core.py:64-71 | An attribute named `patch` on anything but the bare name `patch` (such as `mocker.patch`) resolves to `patch`, alone or as a call's callee. |
| Names.OtherAttributeUnresolved | src/mockbuster/core.py:67-73 | An attribute whose value is not the name `patch` and whose name is not `patch` resolves to nothing. |
| Names.PatchAttribute | src/mockbuster/core.py:67-69 | `patch.<attr>` resolves to the dotted name, whatever the attribute. |
| Checks.MockerMessage | src/mockbuster/core.py:85-88 | The message mentions `mocker` and `'mocker' fixture`. |
| Checks.MonkeypatchMessage | src/mockbuster/core.py:93-96 | The message mentions `monkeypatch` and `'monkeypatch' fixture`. |
| Checks.DecoratorMessage | src/mockbuster/core.py:114-117 | The message mentions the patch name and `@<name> decorator`. |
| Checks.InstantiationMessage | src/mockbuster/core.py:141-144 | The message mentions `<Class>()` and `<Class>() instantiation`. |
| Checks.CallMessage | src/mockbuster/core.py:153-156 | The message mentions `<name>()` and `<name>() call`. |
| Checks.ContextManagerMessage | src/mockbuster/core.py:174-177 | The message mentions the patch name and `<name>() context manager`. |
| Checks.FixtureHit | src/mockbuster/core.py:81-97 | A parameter yields a violation if and only if it is named exactly `mocker` or `monkeypatch`. The violation is at the definition's line and names the fixture. |
| Checks.CheckFunctionArgs | src/mockbuster/core.py:76-97 | Appends to the list exactly the fixture violations of the parameters, in parameter order. |
| Checks.NoFixtureNoViolation | src/mockbuster/core.py:81-97 | A definition with no fixture parameter appends nothing. |
| Checks.ClaimsAreCalls | src/mockbuster/core.py:119-122 | Only call nodes that resolve to a patch name are registered, each under its own identity. |
| Checks.DecoratorHit | src/mockbuster/core.py:107-118 | A decorator yields a violation if and only if it resolves to a patch name. The violation is at the decorator's line and mentions `@<name> decorator`. |
| Checks.CheckDecorators | src/mockbuster/core.py:100-122 | Appends one violation per patch decorator, in list order. Adds exactly the identities of the patch decorator calls to `processed_calls`. Requires that none was there before, as the source asserts. |
| Checks.ClaimUpdate | src/mockbuster/core.py:119-122 | With distinct claims disjoint from `processed_calls`, the identity being added is not yet present. The set grows by exactly that identity. |
| Checks.CallHit | src/mockbuster/core.py:132-157 | A registered call yields nothing. A mock-class callee takes precedence. A patch report needs an attribute callee, so a bare `patch(…)` call is never reported. At most one violation, at the call's line; a patch report mentions `<name>() call`. |
| Checks.CheckCalls | src/mockbuster/core.py:125-157 | Appends exactly what `CallHit` yields for the call, given the registered set. |
| Checks.WithHit | src/mockbuster/core.py:167-178 | An item yields a violation if and only if its context expression resolves to a patch name. The violation is at that expression's line and mentions `<name>() context manager`. |
| Checks.CheckWithStatements | src/mockbuster/core.py:160-182 | Appends one violation per patch item, in item order. Adds exactly the identities of the patch call items to `processed_calls`. |
| Core.Visit | src/mockbuster/core.py:206-213 | One dispatch step extends the list and grows the set. Async definitions, async `with` and other nodes change nothing. A call node leaves the set alone. |
| Core.Walk | src/mockbuster/core.py:198-213 | The walk of no nodes is the empty list and the empty set. After any walk, `processed_calls` is exactly the set of identities the walk's decorators and `with` items claimed. |
| Core.WalkSnoc | src/mockbuster/core.py:206-213 | Walking one more node is one more dispatch step. |
| Core.Unignored | src/mockbuster/core.py:221 | The ignore filter never lengthens the list. |
| Core.Detected | src/mockbuster/core.py:185-223 | Source that fails to parse yields the empty list. Without ignores, the result is the raw walk result. With ignores, the result is no longer than the raw list. |
| Core.DetectMocks | src/mockbuster/core.py:185-223 | The dispatch loop and the filter compute exactly `Detected`. |
| Core.WalkStep | src/mockbuster/core.py:121 | In a well-formed walk, a node's claims are distinct, and none was registered by an earlier node. This is the source's assertion. |
| Core.ClaimedCallNotReportedAgain | src/mockbuster/core.py:132-133 | A call claimed by an earlier decorator or `with` item adds nothing when the walk reaches it. |
| Core.ClaimRegisteredBefore | src/mockbuster/core.py:119-122 | An identity claimed by a decorator or `with` item is in `processed_calls` once the walk has passed that node. |
| Core.CallNodeViolations | src/mockbuster/core.py:210-211 | A call node contributes exactly what the generic call check yields for it. |
| Core.ClaimedCallsSkipped | src/mockbuster/core.py:119-122 | In breadth-first order (claimants before the calls they claim), every claimed call node adds nothing to the list. |
| Core.NodeViolationsPositive | src/mockbuster/core.py:83 | Every violation a well-formed node appends is on a positive line. |
| Core.RawViolationsPositive | src/mockbuster/core.py:137 | Every raw violation of a well-formed walk is on a positive line. |
| Core.UnignoredMember | src/mockbuster/core.py:221 | A violation survives the filter if and only if it was raised and its line is not ignored. |
| Core.UnignoredAppend | src/mockbuster/core.py:221 | The filter keeps order: it distributes over concatenation. |
| Core.UnignoredKeepsAll | src/mockbuster/core.py:221 | A list with no ignored line passes the filter unchanged. |
| Core.DetectedWithIgnores | src/mockbuster/core.py:215-221 | With ignores respected, a violation is reported if and only if the raw walk raised it and its line is not among the ignored lines. |
| Core.TokenizerFailureIgnoresNothing | src/mockbuster/comments.py:59-61 | When the tokenizer fails, every raw violation is reported. |
| Comments.IsCodeKind | src/mockbuster/comments.py:44-51 | A token kind is not code if and only if it is NEWLINE, NL, INDENT, DEDENT, ENCODING or COMMENT. Every other kind, ENDMARKER included, is code. |
| Comments.Step | src/mockbuster/comments.py:37-57 | One token:<br>- only ever adds its own line;<br>- a directive adds its line;<br>- a code-kind token clears the pending directive, records its line, and is ignored if and only if a directive was pending;<br>- any other token changes nothing. |
| Comments.Scan | src/mockbuster/comments.py:33-57 | Every collected line is the start line of some token. |
| Comments.ExtractIgnoredLines | src/mockbuster/comments.py:8-63 | The token loop computes `IgnoredLines`. Empty text gives the empty set. A `TokenError` gives the empty set, discarding lines already collected. |
| Comments.ScanInvariant | src/mockbuster/comments.py:28-57 | After any tokens:<br>- the last code line is that of the last code-kind token;<br>- a directive is pending if and only if a standalone directive has seen no code since;<br>- the set is exactly the directive lines plus the first code line after each standalone directive. |
| Comments.IgnoredLinesExactly | src/mockbuster/comments.py:37-57 | A line is ignored if and only if it starts a directive comment, or starts the first code-kind token after a standalone directive. |
| Comments.DirectiveLineIgnored | src/mockbuster/comments.py:37-40 | Every directive comment puts its own start line in the result. |
| Comments.StandaloneIgnoresNextCode | src/mockbuster/comments.py:42-57 | A standalone directive also ignores the next code-kind token's line. Blank-line, indentation and comment tokens in between do not matter. |
| Comments.PendingExtend | src/mockbuster/comments.py:42-57 | A directive is pending after one more token if and only if that token is not code, and either something was pending or the token is itself a standalone directive. |
| Comments.TrailingDirectiveMarksOnlyItsLine | src/mockbuster/comments.py:42-43 | A directive with a code token before it on its line marks only its own line and leaves nothing pending, given that token lines never decrease. |
| Comments.NothingPendingAtTrailing | src/mockbuster/comments.py:42-43 | When the last code token is on the new token's line, no earlier directive is pending. |
| Comments.PendingResolvedByCode | src/mockbuster/comments.py:44-57 | A pending directive is resolved by the next code-kind token of any kind, ENDMARKER included. That token's line is added and nothing stays pending. |
| Comments.OnlyCommentTextMatters | src/mockbuster/comments.py:37-38 | Streams that agree on kinds, lines and comment texts scan alike, so directive-like text in a string token is never matched. |
| Directive.MatchAt | src/mockbuster/comments.py:27 | The greedy matcher for `#\s*mockbuster\s*:\s*ignore\b` at one position. A match starts with `#` and needs room after it for `mockbuster`, the colon and `ignore`. |
| Directive.ContainsDirective | src/mockbuster/comments.py:38 | `re.search` with IGNORECASE: a match starts at some position of the comment text. A text that contains the directive holds a `#` and is at least 18 characters long. |
| Directive.ContainsDirectiveIffSplit | src/mockbuster/comments.py:27-38 | A comment contains the directive if and only if its text splits, from some `#`, into the pattern's parts. |
| Directive.SkipSpaces | src/mockbuster/comments.py:27 | `\s*` stops at the first non-whitespace position, and everything skipped is whitespace. |
| Directive.MatchAtDecomposes | src/mockbuster/comments.py:27 | A greedy match splits the text into the pattern's parts. |
| Directive.DecomposesMatchAt | src/mockbuster/comments.py:27 | Any split of the text into the pattern's parts is found by the greedy matcher. |
| Directive.MatchAtIffDecomposes | src/mockbuster/comments.py:27 | The greedy matcher accepts a position if and only if the text splits there into `#`, spaces, `mockbuster`, spaces, `:`, spaces, `ignore` and a word boundary. |
| Directive.AcceptsPlain | tests/test_comments.py:14-20 | `# mockbuster: ignore` is a directive. |
| Directive.AcceptsUpperCase | tests/test_comments.py:39-49 | `# MOCKBUSTER: IGNORE` is a directive. |
| Directive.AcceptsMixedCase | tests/test_comments.py:39-49 | `# MockBuster: Ignore` is a directive. |
| Directive.AcceptsNoSpaces | tests/test_comments.py:51-61 | `#mockbuster:ignore` is a directive. |
| Directive.AcceptsWideSpaces | tests/test_comments.py:51-61 | `#  mockbuster:  ignore` is a directive. |
| Directive.AcceptsSpaceBeforeColon | tests/test_comments.py:51-61 | `# mockbuster : ignore` is a directive. |
| Directive.RejectsIgnoreme | tests/test_comments.py:74-82 | `# mockbuster:ignoreme` is not a directive: a word boundary must follow `ignore`. |
| Directive.RejectsMissingColon | tests/test_comments.py:74-82 | `# mockbuster ignore` is not a directive. |
| Directive.RejectsSplitKeyword | tests/test_comments.py:74-82 | `# mock buster: ignore` is not a directive. |
| Scenarios.MockerFixtureAndPatchCall | tests/test_core.py:103-110 | `def test_foo(mocker)` with `mocker.patch(…)` reports the fixture at line 2 and the `patch()` call at line 3, in that order. |
| Scenarios.BarePatchCallNotReported | tests/test_usage_detection.py:209-219 | A user function named `patch`, then a test function calling it as `patch(5)`, yields no violation. |
| Scenarios.PatchObjectDecoratorReportedOnce | tests/test_usage_detection.py:67-76 | `@patch.object(…)` is reported once, as a decorator. Its call node alone would be reported, but it is skipped once claimed. |

## Left out

- Parsing (`ast.parse`) and tokenizing (`tokenize.generate_tokens`) are not modelled.
  - Their results are inputs: the breadth-first node sequence of `ast.walk` or a syntax error, and the yielded tokens with a flag for `TokenError`.
  - That the walk really is breadth-first is stated as `ClaimantsFirst` and used by the deduplication lemma. `DetectMocks` itself runs on any order, as the source does.
  - That a real tree never claims a call twice is part of `WellFormedWalk`, the precondition of `DetectMocks`.
- Python's `id()` is replaced by the node index `nid`.
- DetectMocks: the keyword argument `respect_ignores` defaults to true in the source (src/mockbuster/core.py:185). Dafny has no keyword defaults, so every caller passes the flag explicitly.
- The runtime `assert` statements become preconditions of the methods, and `assert` statements that the verifier discharges:
  - positive line numbers;
  - non-empty `with` items;
  - non-empty names;
  - call identities not yet processed.

  The type checks among them (`isinstance`, `hasattr`, not `None`) are guaranteed by the Dafny types.
- Directive.IsWordChar: the `\b` after `ignore` treats only ASCII letters, digits and `_` as word characters. Python's Unicode `\w` also counts other alphanumerics. So `# mockbuster: ignoreé` matches here but not in Python.
- Directive.FoldsTo: IGNORECASE matching covers ASCII letters plus the four non-ASCII characters that fold to `i`, `k` and `s`. No other Unicode case folding is modelled.
- Messages: each message is built as the source builds it, but the contracts state only the parts that tell the kinds apart: the name, and the phrase around it (`'mocker' fixture`, `@<name> decorator`, `<Class>() instantiation`, `<name>() call`, `<name>() context manager`). The fixed recommendation suffix is carried as one constant.
- The violation dictionaries `{"line", "message"}` are the `Violation` datatype.
- Not modelled:
  - the command-line entry point, file reading and output formatting, which are not part of the analysis;
  - `tests/test_docs.py`, which runs documentation examples.
- Scenarios: only three of the test suite's walks are written out as lemmas. The general behaviour the other tests check is covered by the lemmas in Checks, Core and Comments.
