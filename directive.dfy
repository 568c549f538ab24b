/**
 * The ignore directive of mockbuster: a case-insensitive search for
 * `#\s*mockbuster\s*:\s*ignore\b` anywhere in the text of a comment token
 * (src/mockbuster/comments.py:27, 38). The regular expression is written out
 * by hand twice: as a greedy left-to-right matcher (`MatchAt`, what a
 * backtracking engine settles on) and as the declarative split of the text
 * into the pattern's parts (`Decomposes`); `MatchAtIffDecomposes` shows that
 * the two agree.
 */
module Directive {

  /** Python's `\s` on str patterns: the characters for which str.isspace() holds. */
  predicate IsSpace(c: char) {
    c == ' ' || ('\t' <= c <= '\r') || ('\U{1C}' <= c <= '\U{1F}')
    || c == '\U{85}' || c == '\U{A0}' || c == '\U{1680}'
    || ('\U{2000}' <= c <= '\U{200A}') || c == '\U{2028}' || c == '\U{2029}'
    || c == '\U{202F}' || c == '\U{205F}' || c == '\U{3000}'
  }

  /** A word character for `\b`, restricted to ASCII letters, digits and underscore. */
  predicate IsWordChar(c: char) {
    ('a' <= c <= 'z') || ('A' <= c <= 'Z') || ('0' <= c <= '9') || c == '_'
  }

  /**
   * Whether the text character `c` matches the pattern character `p` under
   * IGNORECASE: itself, the ASCII upper case of a lower-case letter, and the
   * four non-ASCII letters that Python's simple case folding relates to
   * `i`, `k` and `s`.
   */
  predicate FoldsTo(c: char, p: char) {
    c == p
    || ('a' <= p <= 'z' && c as int == p as int - 32)
    || (p == 'i' && (c == '\U{130}' || c == '\U{131}'))
    || (p == 'k' && c == '\U{212A}')
    || (p == 's' && c == '\U{17F}')
  }

  const Mockbuster := "mockbuster"
  const Ignore := "ignore"

  /** The lower-case word `w` occurs, case-insensitively, at position `i` of `s`. */
  predicate WordAt(s: string, i: nat, w: string) {
    i + |w| <= |s| && forall k :: 0 <= k < |w| ==> FoldsTo(s[i + k], w[k])
  }

  /** `\s*`, greedily: the first position at or after `i` that is not whitespace. */
  function SkipSpaces(s: string, i: nat): (j: nat)
    requires i <= |s|
    ensures i <= j <= |s|
    ensures forall k :: i <= k < j ==> IsSpace(s[k])
    ensures j == |s| || !IsSpace(s[j])
    decreases |s| - i
  {
    if i < |s| && IsSpace(s[i]) then SkipSpaces(s, i + 1) else i
  }

  /**
   * The pattern matches the text starting at position `i`: a match starts
   * with `#` and needs room for both keywords and the colon after it.
   */
  predicate MatchAt(s: string, i: nat)
    ensures MatchAt(s, i) ==> i < |s| && s[i] == '#'
    ensures MatchAt(s, i) ==> i + 1 + |Mockbuster| + 1 + |Ignore| <= |s|
  {
    i < |s| && s[i] == '#' &&
    var a := SkipSpaces(s, i + 1);
    WordAt(s, a, Mockbuster) &&
    var b := SkipSpaces(s, a + |Mockbuster|);
    b < |s| && s[b] == ':' &&
    var c := SkipSpaces(s, b + 1);
    WordAt(s, c, Ignore) &&
    (c + |Ignore| == |s| || !IsWordChar(s[c + |Ignore|]))
  }

  /** `re.search`: the pattern matches somewhere in the text. */
  predicate ContainsDirective(s: string)
    ensures ContainsDirective(s) ==> '#' in s && |s| >= 18
  {
    exists i :: 0 <= i < |s| && MatchAt(s, i)
  }

  predicate AllSpace(s: string, i: nat, j: nat)
    requires i <= j <= |s|
  {
    forall k :: i <= k < j ==> IsSpace(s[k])
  }

  /**
   * The regular expression read declaratively: from `i` the text is `#`,
   * whitespace up to `a`, "mockbuster" at `a`, whitespace up to `b`, `:` at
   * `b`, whitespace up to `c`, "ignore" at `c`, and then a word boundary.
   */
  predicate Decomposes(s: string, i: nat, a: nat, b: nat, c: nat) {
    i < |s| && s[i] == '#'
    && i + 1 <= a && WordAt(s, a, Mockbuster) && AllSpace(s, i + 1, a)
    && a + |Mockbuster| <= b < |s| && AllSpace(s, a + |Mockbuster|, b) && s[b] == ':'
    && b + 1 <= c && WordAt(s, c, Ignore) && AllSpace(s, b + 1, c)
    && (c + |Ignore| == |s| || !IsWordChar(s[c + |Ignore|]))
  }

  /** `\s*` followed by a non-space character can only stop at that character. */
  lemma SkipSpacesStopsAt(s: string, i: nat, j: nat)
    requires i <= j < |s| && AllSpace(s, i, j) && !IsSpace(s[j])
    ensures SkipSpaces(s, i) == j
  {
  }

  /** The first character of either keyword is never whitespace. */
  lemma KeywordStartsWithNonSpace(s: string, a: nat, w: string)
    requires w == Mockbuster || w == Ignore
    requires WordAt(s, a, w)
    ensures !IsSpace(s[a])
  {
    assert FoldsTo(s[a + 0], w[0]);
  }

  /** The greedy matcher's own positions split a matching text into the pattern's parts. */
  lemma MatchAtDecomposes(s: string, i: nat)
    requires MatchAt(s, i)
    ensures Decomposes(s, i, SkipSpaces(s, i + 1), SkipSpaces(s, SkipSpaces(s, i + 1) + |Mockbuster|),
                        SkipSpaces(s, SkipSpaces(s, SkipSpaces(s, i + 1) + |Mockbuster|) + 1))
  {
  }

  /** In a split, the greedy `\s*` after `#` stops at the split's "mockbuster". */
  lemma GreedyAfterHash(s: string, i: nat, a: nat, b: nat, c: nat)
    requires Decomposes(s, i, a, b, c)
    ensures SkipSpaces(s, i + 1) == a
  {
    KeywordStartsWithNonSpace(s, a, Mockbuster);
    SkipSpacesStopsAt(s, i + 1, a);
  }

  /** In a split, the greedy `\s*` after "mockbuster" stops at the split's `:`. */
  lemma GreedyAfterMockbuster(s: string, i: nat, a: nat, b: nat, c: nat)
    requires Decomposes(s, i, a, b, c)
    ensures SkipSpaces(s, a + |Mockbuster|) == b
  {
    SkipSpacesStopsAt(s, a + |Mockbuster|, b);
  }

  /** In a split, the greedy `\s*` after `:` stops at the split's "ignore". */
  lemma GreedyAfterColon(s: string, i: nat, a: nat, b: nat, c: nat)
    requires Decomposes(s, i, a, b, c)
    ensures SkipSpaces(s, b + 1) == c
  {
    KeywordStartsWithNonSpace(s, c, Ignore);
    SkipSpacesStopsAt(s, b + 1, c);
  }

  /** Any split of the text into the pattern's parts is the one the greedy matcher finds. */
  lemma DecomposesMatchAt(s: string, i: nat, a: nat, b: nat, c: nat)
    requires Decomposes(s, i, a, b, c)
    ensures MatchAt(s, i)
  {
    GreedyAfterHash(s, i, a, b, c);
    GreedyAfterMockbuster(s, i, a, b, c);
    GreedyAfterColon(s, i, a, b, c);
  }

  /**
   * The greedy matcher accepts exactly the texts that split into the
   * pattern's parts: greediness loses no match, because the character that
   * follows each `\s*` (`m`, `:`, `i`) is never whitespace.
   */
  lemma MatchAtIffDecomposes(s: string, i: nat)
    ensures MatchAt(s, i) <==> exists a: nat, b: nat, c: nat :: Decomposes(s, i, a, b, c)
  {
    if MatchAt(s, i) {
      MatchAtDecomposes(s, i);
    }
    if exists a: nat, b: nat, c: nat :: Decomposes(s, i, a, b, c) {
      var a: nat, b: nat, c: nat :| Decomposes(s, i, a, b, c);
      DecomposesMatchAt(s, i, a, b, c);
    }
  }

  /**
   * `re.search` read declaratively: a comment contains the directive
   * exactly when its text splits, from some `#`, into the pattern's parts.
   */
  lemma ContainsDirectiveIffSplit(s: string)
    ensures ContainsDirective(s) <==> exists i: nat, a: nat, b: nat, c: nat :: Decomposes(s, i, a, b, c)
  {
    if ContainsDirective(s) {
      var i :| 0 <= i < |s| && MatchAt(s, i);
      MatchAtDecomposes(s, i);
    }
    if exists i: nat, a: nat, b: nat, c: nat :: Decomposes(s, i, a, b, c) {
      var i: nat, a: nat, b: nat, c: nat :| Decomposes(s, i, a, b, c);
      DecomposesMatchAt(s, i, a, b, c);
    }
  }

  /** Lower case, one space after `#` and after `:`. */
  lemma AcceptsPlain()
    ensures ContainsDirective("# mockbuster: ignore")
  {
    var s := "# mockbuster: ignore";
    assert WordAt(s, 2, Mockbuster) && WordAt(s, 14, Ignore);
    assert Decomposes(s, 0, 2, 12, 14);
    DecomposesMatchAt(s, 0, 2, 12, 14);
  }

  /** Upper case keywords match. */
  lemma AcceptsUpperCase()
    ensures ContainsDirective("# MOCKBUSTER: IGNORE")
  {
    var s := "# MOCKBUSTER: IGNORE";
    assert WordAt(s, 2, Mockbuster) && WordAt(s, 14, Ignore);
    assert Decomposes(s, 0, 2, 12, 14);
    DecomposesMatchAt(s, 0, 2, 12, 14);
  }

  /** Mixed case keywords match. */
  lemma AcceptsMixedCase()
    ensures ContainsDirective("# MockBuster: Ignore")
  {
    var s := "# MockBuster: Ignore";
    assert WordAt(s, 2, Mockbuster) && WordAt(s, 14, Ignore);
    assert Decomposes(s, 0, 2, 12, 14);
    DecomposesMatchAt(s, 0, 2, 12, 14);
  }

  /** No whitespace at all matches. */
  lemma AcceptsNoSpaces()
    ensures ContainsDirective("#mockbuster:ignore")
  {
    var s := "#mockbuster:ignore";
    assert WordAt(s, 1, Mockbuster) && WordAt(s, 12, Ignore);
    assert Decomposes(s, 0, 1, 11, 12);
    DecomposesMatchAt(s, 0, 1, 11, 12);
  }

  /** Several spaces after `#` and after `:` match. */
  lemma AcceptsWideSpaces()
    ensures ContainsDirective("#  mockbuster:  ignore")
  {
    var s := "#  mockbuster:  ignore";
    assert WordAt(s, 3, Mockbuster) && WordAt(s, 16, Ignore);
    assert Decomposes(s, 0, 3, 13, 16);
    DecomposesMatchAt(s, 0, 3, 13, 16);
  }

  /** A space before `:` matches. */
  lemma AcceptsSpaceBeforeColon()
    ensures ContainsDirective("# mockbuster : ignore")
  {
    var s := "# mockbuster : ignore";
    assert WordAt(s, 2, Mockbuster) && WordAt(s, 15, Ignore);
    assert Decomposes(s, 0, 2, 13, 15);
    DecomposesMatchAt(s, 0, 2, 13, 15);
  }

  /** A word character right after "ignore" leaves no word boundary. */
  lemma RejectsIgnoreme()
    ensures !ContainsDirective("# mockbuster:ignoreme")
  {
    var s := "# mockbuster:ignoreme";
    assert forall i :: 0 < i < |s| ==> s[i] != '#';
    forall i | 0 <= i < |s| ensures !MatchAt(s, i) {
      if i == 0 {
        SkipSpacesStopsAt(s, 1, 2);
        SkipSpacesStopsAt(s, 12, 12);
        SkipSpacesStopsAt(s, 13, 13);
      }
    }
  }

  /** Without a colon between the keywords there is no match. */
  lemma RejectsMissingColon()
    ensures !ContainsDirective("# mockbuster ignore")
  {
    var s := "# mockbuster ignore";
    assert forall i :: 0 < i < |s| ==> s[i] != '#';
    forall i | 0 <= i < |s| ensures !MatchAt(s, i) {
      if i == 0 {
        SkipSpacesStopsAt(s, 1, 2);
        SkipSpacesStopsAt(s, 12, 13);
      }
    }
  }

  /** A keyword split by a space is not the keyword. */
  lemma RejectsSplitKeyword()
    ensures !ContainsDirective("# mock buster: ignore")
  {
    var s := "# mock buster: ignore";
    assert forall i :: 0 < i < |s| ==> s[i] != '#';
    forall i | 0 <= i < |s| ensures !MatchAt(s, i) {
      if i == 0 {
        SkipSpacesStopsAt(s, 1, 2);
        assert !FoldsTo(s[2 + 4], Mockbuster[4]);
      }
    }
  }
}
