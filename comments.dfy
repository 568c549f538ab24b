/**
 * `extract_ignored_lines` (src/mockbuster/comments.py:8-63): one forward pass
 * over the token stream of the source that collects the lines an ignore
 * directive governs. The tokenizer is not modelled: its output is the input
 * here, as the tokens it yields and whether it stopped with a TokenError.
 */
module Comments {
  import opened Wrappers
  import Directive

  /** The token types of Python's tokenize module. */
  datatype TokenKind =
    | EndMarker | Name | Number | String | Op | Newline | NL | Indent | Dedent
    | Comment | Encoding | ErrorToken | FStringStart | FStringMiddle | FStringEnd

  /** A token: its type, the line it starts on (1-based) and its text. */
  datatype Token = Token(kind: TokenKind, line: int, text: string)

  /**
   * What the tokenizer produced: the tokens it yielded, and whether it then
   * raised TokenError (in which case `tokens` is the prefix yielded before).
   */
  datatype Lexed = Lexed(tokens: seq<Token>, failed: bool)

  /**
   * The kinds that count as code. Only NEWLINE, NL, INDENT, DEDENT, ENCODING
   * and COMMENT are excluded; every other kind, ENDMARKER included, is code.
   */
  predicate IsCodeKind(k: TokenKind)
    ensures !IsCodeKind(k) <==> k in {Newline, NL, Indent, Dedent, Encoding, Comment}
    ensures k == EndMarker ==> IsCodeKind(k)
  {
    k != Newline && k != NL && k != Indent && k != Dedent && k != Encoding && k != Comment
  }

  /** A comment token whose text contains the ignore directive. */
  predicate IsDirective(t: Token) {
    t.kind == Comment && Directive.ContainsDirective(t.text)
  }

  /**
   * The scanner's state between two tokens: the lines collected so far, the
   * line of a standalone directive still waiting for code, and the line of
   * the last code token.
   */
  datatype ScanState = ScanState(ignored: set<int>, standalone: Option<int>, lastCode: Option<int>)

  const Start := ScanState({}, None, None)

  /** The effect of one token on the scanner's state. */
  function Step(st: ScanState, t: Token): (r: ScanState)
    ensures st.ignored <= r.ignored <= st.ignored + {t.line}
    ensures IsDirective(t) ==> t.line in r.ignored
    ensures IsCodeKind(t.kind) ==> r.standalone == None && r.lastCode == Some(t.line)
    ensures IsCodeKind(t.kind) ==> (t.line in r.ignored <==> t.line in st.ignored || st.standalone.Some?)
    ensures !IsCodeKind(t.kind) ==> r.lastCode == st.lastCode
    ensures !IsCodeKind(t.kind) && !IsDirective(t) ==> r == st
  {
    if t.kind == Comment then
      if Directive.ContainsDirective(t.text) then
        ScanState(st.ignored + {t.line},
                  if st.lastCode != Some(t.line) then Some(t.line) else st.standalone,
                  st.lastCode)
      else st
    else if IsCodeKind(t.kind) then
      ScanState(if st.standalone.Some? then st.ignored + {t.line} else st.ignored, None, Some(t.line))
    else st
  }

  /** The state after the tokens `ts`, processed in order. */
  function Scan(ts: seq<Token>): (r: ScanState)
    ensures forall l :: l in r.ignored ==> exists i :: 0 <= i < |ts| && ts[i].line == l
    decreases |ts|
  {
    if ts == [] then Start
    else
      var r := Step(Scan(ts[..|ts| - 1]), ts[|ts| - 1]);
      assert forall i :: 0 <= i < |ts| - 1 ==> ts[..|ts| - 1][i] == ts[i];
      r
  }

  /** The set `extract_ignored_lines` returns for source `text` lexed as `lexed`. */
  function IgnoredLines(text: string, lexed: Lexed): set<int> {
    if text == "" then {}
    else if lexed.failed then {}
    else Scan(lexed.tokens).ignored
  }

  /** The scanner, a single pass over the tokens that updates two scalars and a set. */
  method ExtractIgnoredLines(text: string, lexed: Lexed) returns (ignored: set<int>)
    ensures ignored == IgnoredLines(text, lexed)
    ensures text == "" ==> ignored == {}
    ensures lexed.failed ==> ignored == {}
  {
    if text == "" {
      return {};
    }
    ignored := {};
    var standalone: Option<int> := None;
    var lastCode: Option<int> := None;
    var tokens := lexed.tokens;
    for i := 0 to |tokens|
      invariant ScanState(ignored, standalone, lastCode) == Scan(tokens[..i])
    {
      var token := tokens[i];
      if token.kind == Comment {
        if Directive.ContainsDirective(token.text) {
          var commentLine := token.line;
          ignored := ignored + {commentLine};
          if lastCode != Some(commentLine) {
            standalone := Some(commentLine);
          }
        }
      } else if IsCodeKind(token.kind) {
        lastCode := Some(token.line);
        if standalone.Some? {
          ignored := ignored + {token.line};
          standalone := None;
        }
      }
      assert tokens[..i + 1][..i] == tokens[..i];
    }
    assert tokens[..|tokens|] == tokens;
    if lexed.failed {
      return {};
    }
  }

  // A declarative reading of the scan: which lines it marks, without states.

  /** The line of the last code token among `ts`, if there is one. */
  function LastCodeLine(ts: seq<Token>): Option<int>
    decreases |ts|
  {
    if ts == [] then None
    else if IsCodeKind(ts[|ts| - 1].kind) then Some(ts[|ts| - 1].line)
    else LastCodeLine(ts[..|ts| - 1])
  }

  /** Token `j` is a directive with no code token before it on its own line. */
  predicate Standalone(ts: seq<Token>, j: int)
    requires 0 <= j < |ts|
  {
    IsDirective(ts[j]) && LastCodeLine(ts[..j]) != Some(ts[j].line)
  }

  /** No token at a position in [lo, hi) is code. */
  predicate NoCodeIn(ts: seq<Token>, lo: int, hi: int)
    requires 0 <= lo <= hi <= |ts|
  {
    forall k :: lo <= k < hi ==> !IsCodeKind(ts[k].kind)
  }

  /** Token `i` is the first code token after a standalone directive. */
  predicate Governed(ts: seq<Token>, i: int)
    requires 0 <= i < |ts|
  {
    IsCodeKind(ts[i].kind) && exists j :: 0 <= j < i && Standalone(ts, j) && NoCodeIn(ts, j + 1, i)
  }

  /** After `ts`, some standalone directive is still waiting for code. */
  predicate Pending(ts: seq<Token>) {
    exists j :: 0 <= j < |ts| && Standalone(ts, j) && NoCodeIn(ts, j + 1, |ts|)
  }

  /** The start lines of the directives and of the code tokens they govern. */
  ghost function MarkedLines(ts: seq<Token>): set<int> {
    set i | 0 <= i < |ts| && (IsDirective(ts[i]) || Governed(ts, i)) :: ts[i].line
  }

  lemma ScanSnoc(p: seq<Token>, t: Token)
    ensures Scan(p + [t]) == Step(Scan(p), t)
  {
    assert (p + [t])[..|p|] == p;
  }

  /** Appending a token leaves the earlier positions' standalone status alone. */
  lemma StandaloneExtend(p: seq<Token>, t: Token, j: int)
    requires 0 <= j < |p|
    ensures Standalone(p + [t], j) <==> Standalone(p, j)
  {
    assert (p + [t])[..j] == p[..j];
  }

  lemma LastCodeLineExtend(p: seq<Token>, t: Token)
    ensures LastCodeLine(p + [t]) == if IsCodeKind(t.kind) then Some(t.line) else LastCodeLine(p)
  {
    assert (p + [t])[..|p|] == p;
  }

  /** Whether a directive is pending after one more token. */
  lemma PendingExtend(p: seq<Token>, t: Token)
    ensures Pending(p + [t]) <==>
      !IsCodeKind(t.kind) && (Pending(p) || (IsDirective(t) && LastCodeLine(p) != Some(t.line)))
  {
    if Pending(p + [t]) {
      PendingExtendOnlyIf(p, t);
    }
    if !IsCodeKind(t.kind) && (Pending(p) || (IsDirective(t) && LastCodeLine(p) != Some(t.line))) {
      PendingExtendIf(p, t);
    }
  }

  lemma PendingExtendOnlyIf(p: seq<Token>, t: Token)
    requires Pending(p + [t])
    ensures !IsCodeKind(t.kind) && (Pending(p) || (IsDirective(t) && LastCodeLine(p) != Some(t.line)))
  {
    var ts := p + [t];
    var j :| 0 <= j < |ts| && Standalone(ts, j) && NoCodeIn(ts, j + 1, |ts|);
    assert ts[|p|] == t;
    if j < |p| {
      StandaloneExtend(p, t, j);
      NoCodeInExtend(p, t, j + 1, |p|);
      assert Standalone(p, j) && NoCodeIn(p, j + 1, |p|);
    } else {
      assert ts[..|p|] == p;
    }
  }

  lemma PendingExtendIf(p: seq<Token>, t: Token)
    requires !IsCodeKind(t.kind) && (Pending(p) || (IsDirective(t) && LastCodeLine(p) != Some(t.line)))
    ensures Pending(p + [t])
  {
    var ts := p + [t];
    assert ts[|p|] == t;
    if Pending(p) {
      var j :| 0 <= j < |p| && Standalone(p, j) && NoCodeIn(p, j + 1, |p|);
      StandaloneExtend(p, t, j);
      NoCodeInExtend(p, t, j + 1, |p|);
      assert Standalone(ts, j) && NoCodeIn(ts, j + 1, |ts|);
    } else {
      assert ts[..|p|] == p;
      assert Standalone(ts, |p|) && NoCodeIn(ts, |p| + 1, |ts|);
    }
  }

  /** Appending a token leaves a range of earlier positions alone. */
  lemma NoCodeInExtend(p: seq<Token>, t: Token, lo: int, hi: int)
    requires 0 <= lo <= hi <= |p|
    ensures NoCodeIn(p + [t], lo, hi) <==> NoCodeIn(p, lo, hi)
  {
    assert forall k :: lo <= k < hi ==> (p + [t])[k] == p[k];
  }

  /** Whether the new last token is governed by a pending directive. */
  lemma GovernedLast(p: seq<Token>, t: Token)
    ensures Governed(p + [t], |p|) <==> IsCodeKind(t.kind) && Pending(p)
  {
    var ts := p + [t];
    assert ts[|p|] == t;
    if Governed(ts, |p|) {
      var j :| 0 <= j < |p| && Standalone(ts, j) && NoCodeIn(ts, j + 1, |p|);
      StandaloneExtend(p, t, j);
      NoCodeInExtend(p, t, j + 1, |p|);
    }
    if IsCodeKind(t.kind) && Pending(p) {
      var j :| 0 <= j < |p| && Standalone(p, j) && NoCodeIn(p, j + 1, |p|);
      StandaloneExtend(p, t, j);
      NoCodeInExtend(p, t, j + 1, |p|);
    }
  }

  /** Appending a token leaves the earlier positions' governed status alone. */
  lemma GovernedExtend(p: seq<Token>, t: Token, i: int)
    requires 0 <= i < |p|
    ensures Governed(p + [t], i) <==> Governed(p, i)
  {
    var ts := p + [t];
    assert ts[i] == p[i];
    if Governed(ts, i) {
      var j :| 0 <= j < i && Standalone(ts, j) && NoCodeIn(ts, j + 1, i);
      StandaloneExtend(p, t, j);
      NoCodeInExtend(p, t, j + 1, i);
    }
    if Governed(p, i) {
      var j :| 0 <= j < i && Standalone(p, j) && NoCodeIn(p, j + 1, i);
      StandaloneExtend(p, t, j);
      NoCodeInExtend(p, t, j + 1, i);
    }
  }

  lemma MarkedLinesExtend(p: seq<Token>, t: Token)
    ensures MarkedLines(p + [t]) ==
      MarkedLines(p) + (if IsDirective(t) || (IsCodeKind(t.kind) && Pending(p)) then {t.line} else {})
  {
    var ts := p + [t];
    GovernedLast(p, t);
    forall i | 0 <= i < |p| ensures (IsDirective(ts[i]) || Governed(ts, i)) <==> (IsDirective(p[i]) || Governed(p, i)) {
      GovernedExtend(p, t, i);
    }
    assert ts[|p|] == t;
  }

  /**
   * The scan, read declaratively: after any tokens, the last code line is
   * that of the last code token, a directive is pending exactly when a
   * standalone directive has seen no code since, and the collected lines are
   * the directives' lines and the lines of the first code token after each
   * standalone directive.
   */
  lemma {:induction false} ScanInvariant(ts: seq<Token>)
    ensures Scan(ts).lastCode == LastCodeLine(ts)
    ensures Scan(ts).standalone.Some? <==> Pending(ts)
    ensures Scan(ts).ignored == MarkedLines(ts)
    decreases |ts|
  {
    if ts == [] {
      assert MarkedLines(ts) == {};
    } else {
      var p, t := ts[..|ts| - 1], ts[|ts| - 1];
      assert ts == p + [t];
      ScanInvariant(p);
      ScanSnoc(p, t);
      LastCodeLineExtend(p, t);
      PendingExtend(p, t);
      MarkedLinesExtend(p, t);
    }
  }

  /**
   * The collected lines, exactly: a line is ignored if and only if it is the
   * start line of a directive comment, or of the first code token after a
   * standalone directive.
   */
  lemma IgnoredLinesExactly(text: string, lexed: Lexed, l: int)
    requires text != "" && !lexed.failed
    ensures l in IgnoredLines(text, lexed) <==>
      exists i :: 0 <= i < |lexed.tokens| && lexed.tokens[i].line == l
        && (IsDirective(lexed.tokens[i]) || Governed(lexed.tokens, i))
  {
    ScanInvariant(lexed.tokens);
  }

  /** Every directive comment puts its own line in the result. */
  lemma DirectiveLineIgnored(text: string, lexed: Lexed, i: int)
    requires text != "" && !lexed.failed
    requires 0 <= i < |lexed.tokens| && IsDirective(lexed.tokens[i])
    ensures lexed.tokens[i].line in IgnoredLines(text, lexed)
  {
    IgnoredLinesExactly(text, lexed, lexed.tokens[i].line);
  }

  /**
   * A standalone directive also ignores the line of the next code token,
   * however many comment, blank-line and indentation tokens lie between.
   */
  lemma StandaloneIgnoresNextCode(text: string, lexed: Lexed, j: int, i: int)
    requires text != "" && !lexed.failed
    requires 0 <= j < i < |lexed.tokens|
    requires Standalone(lexed.tokens, j) && NoCodeIn(lexed.tokens, j + 1, i)
    requires IsCodeKind(lexed.tokens[i].kind)
    ensures lexed.tokens[i].line in IgnoredLines(text, lexed)
  {
    assert Governed(lexed.tokens, i);
    IgnoredLinesExactly(text, lexed, lexed.tokens[i].line);
  }

  /** Token start lines never decrease along the stream, as tokenize yields them. */
  predicate LinesNondecreasing(ts: seq<Token>) {
    forall i, j :: 0 <= i <= j < |ts| ==> ts[i].line <= ts[j].line
  }

  /** Non-code tokens at the end do not change the last code line. */
  lemma {:induction false} LastCodeLineSkipsTail(ts: seq<Token>, j: int)
    requires 0 <= j <= |ts| && NoCodeIn(ts, j, |ts|)
    ensures LastCodeLine(ts) == LastCodeLine(ts[..j])
    decreases |ts|
  {
    if j < |ts| {
      var p := ts[..|ts| - 1];
      assert p[..j] == ts[..j];
      assert NoCodeIn(p, j, |p|) by {
        assert forall k :: j <= k < |p| ==> p[k] == ts[k];
      }
      LastCodeLineSkipsTail(p, j);
    } else {
      assert ts[..j] == ts;
    }
  }

  /** The last code line is the line of some code token. */
  lemma {:induction false} LastCodeLineIsALine(ts: seq<Token>, l: int)
    requires LastCodeLine(ts) == Some(l)
    ensures exists k :: 0 <= k < |ts| && IsCodeKind(ts[k].kind) && ts[k].line == l
    decreases |ts|
  {
    var p := ts[..|ts| - 1];
    if !IsCodeKind(ts[|ts| - 1].kind) {
      LastCodeLineIsALine(p, l);
      var k :| 0 <= k < |p| && IsCodeKind(p[k].kind) && p[k].line == l;
      assert ts[k] == p[k];
    }
  }

  /** When a code token precedes a directive on its line, no earlier directive is pending. */
  lemma NothingPendingAtTrailing(p: seq<Token>, t: Token)
    requires LastCodeLine(p) == Some(t.line)
    requires LinesNondecreasing(p + [t])
    ensures !Pending(p)
  {
    forall j | 0 <= j < |p| && IsDirective(p[j]) && NoCodeIn(p, j + 1, |p|)
      ensures LastCodeLine(p[..j]) == Some(p[j].line)
    {
      LateDirectiveIsTrailing(p, t, j);
    }
  }

  /** A directive after the last code token, on that token's line, follows code on its line. */
  lemma LateDirectiveIsTrailing(p: seq<Token>, t: Token, j: int)
    requires LastCodeLine(p) == Some(t.line)
    requires LinesNondecreasing(p + [t])
    requires 0 <= j < |p| && IsDirective(p[j]) && NoCodeIn(p, j + 1, |p|)
    ensures LastCodeLine(p[..j]) == Some(p[j].line)
  {
    assert NoCodeIn(p, j, |p|) by {
      assert !IsCodeKind(p[j].kind);
    }
    LastCodeLineSkipsTail(p, j);
    var q := p[..j];
    LastCodeLineIsALine(q, t.line);
    var k :| 0 <= k < |q| && IsCodeKind(q[k].kind) && q[k].line == t.line;
    var ts := p + [t];
    LinesBetween(ts, k, j, |p|);
    assert ts[k] == q[k] && ts[j] == p[j] && ts[|p|] == t;
    assert p[j].line == t.line;
    assert LastCodeLine(q) == Some(t.line);
  }

  /** In a stream with nondecreasing lines, a token's line lies between its neighbours'. */
  lemma LinesBetween(ts: seq<Token>, a: int, b: int, c: int)
    requires LinesNondecreasing(ts) && 0 <= a <= b <= c < |ts|
    ensures ts[a].line <= ts[b].line <= ts[c].line
  {
  }


  /**
   * A trailing directive (one with code before it on its line) marks only
   * its own line and leaves nothing pending, given the tokenizer's ordering
   * of start lines.
   */
  lemma TrailingDirectiveMarksOnlyItsLine(p: seq<Token>, t: Token)
    requires IsDirective(t) && LastCodeLine(p) == Some(t.line)
    requires LinesNondecreasing(p + [t])
    ensures Scan(p + [t]).ignored == Scan(p).ignored + {t.line}
    ensures Scan(p + [t]).standalone == None
  {
    ScanSnoc(p, t);
    ScanInvariant(p);
    NothingPendingAtTrailing(p, t);
  }

  /**
   * Only the texts of comment tokens matter: streams that agree on kinds, on
   * lines and on comment texts scan alike, so directive-like text inside a
   * string literal is never matched.
   */
  lemma {:induction false} OnlyCommentTextMatters(ts: seq<Token>, us: seq<Token>)
    requires |ts| == |us|
    requires forall i :: 0 <= i < |ts| ==> ts[i].kind == us[i].kind && ts[i].line == us[i].line
    requires forall i :: 0 <= i < |ts| && ts[i].kind == Comment ==> ts[i].text == us[i].text
    ensures Scan(ts) == Scan(us)
    decreases |ts|
  {
    if ts != [] {
      var n := |ts| - 1;
      OnlyCommentTextMatters(ts[..n], us[..n]);
    }
  }

  /**
   * A pending directive is resolved by the next code-kind token, whatever
   * its kind: ENDMARKER at the end of the file resolves it too.
   */
  lemma PendingResolvedByCode(p: seq<Token>, t: Token)
    requires Pending(p) && IsCodeKind(t.kind)
    ensures t.line in Scan(p + [t]).ignored
    ensures Scan(p + [t]).standalone == None && !Pending(p + [t])
  {
    ScanSnoc(p, t);
    ScanInvariant(p);
    PendingExtend(p, t);
  }
}
