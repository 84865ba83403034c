/**
 * Compilation of SQL `LIKE` patterns into anchored regular expressions
 * (`sqlLikeToRegex` in windows/query.go), and what those expressions match.
 *
 * The compiled text is read as a sequence of tokens (`^`, an escaped or plain
 * literal, `.`, `.*`, `$`). `MatchAt`/`Search` give the RE2 meaning of such a
 * token sequence (unanchored search, `^` only at the start, `$` only at the
 * end, `.` never matching a newline), and `LikeMatch` is the SQL `LIKE`
 * meaning of the source pattern. The main results: the compiled text parses
 * back to exactly the pattern's tokens, and searching with those tokens is
 * `LikeMatch`.
 */
module LikePattern {
  import opened Wrappers
  import opened GoStrings

  // ---------------------------------------------------------------------------
  // regexp.QuoteMeta and sqlLikeToRegex

  /** The characters `regexp.QuoteMeta` escapes: backslash and `.+*?()|[]{}^$`. */
  predicate IsMeta(c: char) {
    c == '\\' || c == '.' || c == '+' || c == '*' || c == '?' || c == '(' || c == ')'
    || c == '|' || c == '[' || c == ']' || c == '{' || c == '}' || c == '^' || c == '$'
  }

  /** One character as `regexp.QuoteMeta` writes it. */
  function QuoteChar(c: char): string {
    if IsMeta(c) then ['\\', c] else [c]
  }

  /** `regexp.QuoteMeta`: a backslash before every metacharacter. */
  function QuoteMeta(s: string): string {
    if s == [] then [] else QuoteChar(s[0]) + QuoteMeta(s[1..])
  }

  /**
   * `sqlLikeToRegex`: escape the metacharacters, turn `%` into `.*` and `_`
   * into `.`, and anchor the result at both ends.
   */
  function SqlLikeToRegex(pattern: string): (r: string)
    ensures |r| >= 2 && r[0] == '^' && r[|r| - 1] == '$'
  {
    var escaped := QuoteMeta(pattern);
    var anyRun := ReplaceAll(escaped, '%', ".*");
    var anyChar := ReplaceAll(anyRun, '_', ".");
    "^" + anyChar + "$"
  }

  // ---------------------------------------------------------------------------
  // The token fragment of RE2 that compiled LIKE patterns live in

  datatype Token =
    | Begin       // ^
    | End         // $
    | Lit(c: char) // c, or \c for a metacharacter
    | AnyChar     // .
    | AnyRun      // .*

  /** The token a LIKE pattern character stands for. */
  function TokenOf(c: char): Token {
    if c == '%' then AnyRun else if c == '_' then AnyChar else Lit(c)
  }

  function BodyTokens(pattern: string): (ts: seq<Token>)
    ensures |ts| == |pattern|
  {
    if pattern == [] then [] else [TokenOf(pattern[0])] + BodyTokens(pattern[1..])
  }

  /** The tokens of a compiled LIKE pattern. */
  function LikeTokens(pattern: string): seq<Token> {
    [Begin] + BodyTokens(pattern) + [End]
  }

  function RenderToken(t: Token): (r: string)
    ensures r != [] && r[0] != '*'
  {
    match t
    case Begin => "^"
    case End => "$"
    case Lit(c) => QuoteChar(c)
    case AnyChar => "."
    case AnyRun => ".*"
  }

  /** The regular-expression text of a token sequence. */
  function Render(ts: seq<Token>): (r: string)
    ensures r == [] || r[0] != '*'
  {
    if ts == [] then [] else RenderToken(ts[0]) + Render(ts[1..])
  }

  lemma {:induction false} RenderAppend(a: seq<Token>, b: seq<Token>)
    ensures Render(a + b) == Render(a) + Render(b)
    decreases |a|
  {
    if a == [] {
      assert a + b == b;
    } else {
      assert (a + b)[0] == a[0];
      assert (a + b)[1..] == a[1..] + b;
      RenderAppend(a[1..], b);
    }
  }

  function Prepend(t: Token, rest: Option<seq<Token>>): Option<seq<Token>> {
    if rest.Some? then Some([t] + rest.value) else None
  }

  /**
   * How RE2 reads a text made of anchors, literals, `.` and `.*`; None for any
   * text outside that fragment (an unescaped metacharacter such as `*` or `(`,
   * a backslash before a non-metacharacter, a trailing backslash).
   */
  function ParseFragment(s: string): Option<seq<Token>>
    decreases |s|
  {
    if s == [] then Some([])
    else if s[0] == '^' then Prepend(Begin, ParseFragment(s[1..]))
    else if s[0] == '$' then Prepend(End, ParseFragment(s[1..]))
    else if s[0] == '.' then
      if |s| >= 2 && s[1] == '*' then Prepend(AnyRun, ParseFragment(s[2..]))
      else Prepend(AnyChar, ParseFragment(s[1..]))
    else if s[0] == '\\' then
      if |s| >= 2 && IsMeta(s[1]) then Prepend(Lit(s[1]), ParseFragment(s[2..]))
      else None
    else if IsMeta(s[0]) then None
    else Prepend(Lit(s[0]), ParseFragment(s[1..]))
  }

  /** Rendering is unambiguous: the text of any token sequence reads back as that sequence. */
  lemma {:induction false} ParseRender(ts: seq<Token>)
    ensures ParseFragment(Render(ts)) == Some(ts)
  {
    if ts != [] {
      var head := RenderToken(ts[0]);
      var tail := Render(ts[1..]);
      var s := head + tail;
      assert Render(ts) == s;
      ParseRender(ts[1..]);
      assert s[|head|..] == tail;
      assert [ts[0]] + ts[1..] == ts;
      match ts[0]
      case Lit(c) =>
        if !IsMeta(c) {
          assert s[0] == c && s[1..] == tail;
        }
      case AnyChar =>
        assert s[1..] == tail;
      case _ =>
    }
  }

  /** The escaping, `%` and `_` rewriting produce exactly the text of the pattern's tokens. */
  lemma {:induction false} RewriteRendersBody(pattern: string)
    ensures ReplaceAll(ReplaceAll(QuoteMeta(pattern), '%', ".*"), '_', ".") == Render(BodyTokens(pattern))
  {
    if pattern != [] {
      var c := pattern[0];
      var q := QuoteChar(c);
      var rest := QuoteMeta(pattern[1..]);
      ReplaceAllAppend(q, rest, '%', ".*");
      ReplaceAllAppend(ReplaceAll(q, '%', ".*"), ReplaceAll(rest, '%', ".*"), '_', ".");
      RewriteRendersBody(pattern[1..]);
      RewriteChar(c);
    }
  }

  lemma RewriteChar(c: char)
    ensures ReplaceAll(ReplaceAll(QuoteChar(c), '%', ".*"), '_', ".") == RenderToken(TokenOf(c))
  {
    if c == '%' {
      assert ReplaceAll("%", '%', ".*") == ".*" + ReplaceAll([], '%', ".*");
    } else if c == '_' {
      assert ReplaceAll("_", '_', ".") == "." + ReplaceAll([], '_', ".");
    }
  }

  /**
   * The compiled text of a LIKE pattern is the text of its tokens, and it
   * reads back as those tokens: every metacharacter of the pattern stays a
   * literal, and only `%` and `_` become wildcards.
   */
  lemma CompiledTokens(pattern: string)
    ensures SqlLikeToRegex(pattern) == Render(LikeTokens(pattern))
    ensures ParseFragment(SqlLikeToRegex(pattern)) == Some(LikeTokens(pattern))
  {
    RewriteRendersBody(pattern);
    RenderAppend([Begin] + BodyTokens(pattern), [End]);
    RenderAppend([Begin], BodyTokens(pattern));
    ParseRender(LikeTokens(pattern));
  }

  /** The empty LIKE pattern compiles to `^$`. */
  lemma EmptyPatternCompiles()
    ensures SqlLikeToRegex("") == "^$"
  {
  }

  /** Escaped text reads back as the literal characters it escapes. */
  lemma {:induction false} QuoteMetaIsLiteral(s: string)
    ensures ParseFragment(QuoteMeta(s)) == Some(seq(|s|, i requires 0 <= i < |s| => Lit(s[i])))
  {
    var lits := seq(|s|, i requires 0 <= i < |s| => Lit(s[i]));
    QuoteMetaRendersLiterals(s);
    ParseRender(lits);
  }

  lemma {:induction false} QuoteMetaRendersLiterals(s: string)
    ensures QuoteMeta(s) == Render(seq(|s|, i requires 0 <= i < |s| => Lit(s[i])))
  {
    if s != [] {
      var lits := seq(|s|, i requires 0 <= i < |s| => Lit(s[i]));
      QuoteMetaRendersLiterals(s[1..]);
      assert lits[1..] == seq(|s| - 1, i requires 0 <= i < |s| - 1 => Lit(s[1..][i]));
    }
  }

  // ---------------------------------------------------------------------------
  // RE2 meaning of a token sequence

  /**
   * The tokens `ts` match a stretch of `s` that begins at position `i` (and
   * ends anywhere). `^` holds only at 0, `$` only at |s|, `.` consumes one
   * character other than a newline, `.*` any run of such characters.
   */
  predicate MatchAt(ts: seq<Token>, s: string, i: nat)
    requires i <= |s|
    decreases |ts|, |s| - i
  {
    if ts == [] then true
    else match ts[0]
      case Begin => i == 0 && MatchAt(ts[1..], s, i)
      case End => i == |s| && MatchAt(ts[1..], s, i)
      case Lit(c) => i < |s| && s[i] == c && MatchAt(ts[1..], s, i + 1)
      case AnyChar => i < |s| && s[i] != '\n' && MatchAt(ts[1..], s, i + 1)
      case AnyRun => MatchAt(ts[1..], s, i) || (i < |s| && s[i] != '\n' && MatchAt(ts, s, i + 1))
  }

  /** `regexp.MatchString` on a token sequence: some substring of `s` matches. */
  predicate Search(ts: seq<Token>, s: string) {
    exists i: nat :: i <= |s| && MatchAt(ts, s, i)
  }

  // ---------------------------------------------------------------------------
  // SQL LIKE, stated directly

  predicate NoNewline(s: string) {
    forall i :: 0 <= i < |s| ==> s[i] != '\n'
  }

  /**
   * `s` is LIKE `pattern`: `%` stands for any run of characters and `_` for
   * exactly one character (neither covers a newline, as in RE2), every other
   * character for itself, and the pattern covers the whole of `s`.
   */
  predicate LikeMatch(pattern: string, s: string)
    decreases |pattern|
  {
    if pattern == [] then s == []
    else if pattern[0] == '%' then
      exists k :: 0 <= k <= |s| && NoNewline(s[..k]) && LikeMatch(pattern[1..], s[k..])
    else if pattern[0] == '_' then s != [] && s[0] != '\n' && LikeMatch(pattern[1..], s[1..])
    else s != [] && s[0] == pattern[0] && LikeMatch(pattern[1..], s[1..])
  }

  /** `%` either covers nothing or one more non-newline character. */
  lemma PercentStep(pattern: string, s: string)
    requires pattern != [] && pattern[0] == '%'
    ensures LikeMatch(pattern, s) <==>
      LikeMatch(pattern[1..], s) || (s != [] && s[0] != '\n' && LikeMatch(pattern, s[1..]))
  {
    if LikeMatch(pattern, s) {
      PercentSplits(pattern, s);
    }
    if LikeMatch(pattern[1..], s) {
      PercentCoversNothing(pattern, s);
    }
    if s != [] && s[0] != '\n' && LikeMatch(pattern, s[1..]) {
      PercentCoversOneMore(pattern, s);
    }
  }

  lemma PercentSplits(pattern: string, s: string)
    requires pattern != [] && pattern[0] == '%' && LikeMatch(pattern, s)
    ensures LikeMatch(pattern[1..], s) || (s != [] && s[0] != '\n' && LikeMatch(pattern, s[1..]))
  {
    var rest := pattern[1..];
    var k :| 0 <= k <= |s| && NoNewline(s[..k]) && LikeMatch(rest, s[k..]);
    if k == 0 {
      assert s[0..] == s;
    } else {
      assert s[1..][..k - 1] == s[1..k];
      assert s[1..][k - 1..] == s[k..];
      assert NoNewline(s[1..][..k - 1]);
    }
  }

  lemma PercentCoversNothing(pattern: string, s: string)
    requires pattern != [] && pattern[0] == '%' && LikeMatch(pattern[1..], s)
    ensures LikeMatch(pattern, s)
  {
    assert s[..0] == [] && s[0..] == s;
    assert NoNewline(s[..0]);
  }

  lemma PercentCoversOneMore(pattern: string, s: string)
    requires pattern != [] && pattern[0] == '%'
    requires s != [] && s[0] != '\n' && LikeMatch(pattern, s[1..])
    ensures LikeMatch(pattern, s)
  {
    var rest := pattern[1..];
    var k :| 0 <= k <= |s| - 1 && NoNewline(s[1..][..k]) && LikeMatch(rest, s[1..][k..]);
    forall i | 0 <= i < k + 1
      ensures s[i] != '\n'
    {
      if i > 0 {
        assert s[i] == s[1..][..k][i - 1];
      }
    }
    assert NoNewline(s[..k + 1]);
    assert s[k + 1..] == s[1..][k..];
    assert 0 <= k + 1 <= |s| && NoNewline(s[..k + 1]) && LikeMatch(rest, s[k + 1..]);
  }

  /** The body tokens followed by `$`, matched from position i, are LIKE on the rest of `s`. */
  lemma {:induction false} BodyMatchesLike(pattern: string, s: string, i: nat)
    requires i <= |s|
    ensures MatchAt(BodyTokens(pattern) + [End], s, i) <==> LikeMatch(pattern, s[i..])
    decreases |pattern|, |s| - i
  {
    var ts := BodyTokens(pattern) + [End];
    if pattern == [] {
      assert ts == [End];
      assert ts[1..] == [];
    } else {
      var rest := BodyTokens(pattern[1..]) + [End];
      assert ts[0] == TokenOf(pattern[0]) && ts[1..] == rest;
      BodyMatchesLike(pattern[1..], s, i);
      if i < |s| {
        BodyMatchesLike(pattern[1..], s, i + 1);
        assert s[i..][1..] == s[i + 1..];
      }
      if pattern[0] == '%' {
        if i < |s| {
          BodyMatchesLike(pattern, s, i + 1);
        }
        PercentStep(pattern, s[i..]);
      }
    }
  }

  /**
   * Searching with a compiled LIKE pattern is LIKE matching: the anchors make
   * the match cover the whole string.
   */
  lemma LikeSearch(pattern: string, s: string)
    ensures Search(LikeTokens(pattern), s) <==> LikeMatch(pattern, s)
  {
    var ts := LikeTokens(pattern);
    var body := BodyTokens(pattern) + [End];
    assert ts[0] == Begin && ts[1..] == body;
    BodyMatchesLike(pattern, s, 0);
    assert s[0..] == s;
    if Search(ts, s) {
      var i: nat :| i <= |s| && MatchAt(ts, s, i);
    }
    if LikeMatch(pattern, s) {
      assert MatchAt(ts, s, 0);
    }
  }

  // ---------------------------------------------------------------------------
  // What LIKE patterns match

  predicate NoWildcards(pattern: string) {
    forall i :: 0 <= i < |pattern| ==> pattern[i] != '%' && pattern[i] != '_'
  }

  /** The empty pattern matches the empty string and nothing else. */
  lemma EmptyPatternMatchesEmpty(s: string)
    ensures Search(LikeTokens(""), s) <==> s == ""
  {
    LikeSearch("", s);
  }

  /** Without wildcards a pattern matches exactly itself, not a string that merely contains it. */
  lemma {:induction false} LiteralPattern(pattern: string, s: string)
    requires NoWildcards(pattern)
    ensures LikeMatch(pattern, s) <==> s == pattern
    decreases |pattern|
  {
    if pattern != [] && s != [] {
      LiteralPattern(pattern[1..], s[1..]);
      assert s == [s[0]] + s[1..];
      assert pattern == [pattern[0]] + pattern[1..];
    }
  }

  /** A wildcard-free prefix must be matched character for character. */
  lemma {:induction false} LiteralPrefix(a: string, rest: string, s: string)
    requires NoWildcards(a)
    ensures LikeMatch(a + rest, s) <==> |s| >= |a| && s[..|a|] == a && LikeMatch(rest, s[|a|..])
    decreases |a|
  {
    if a == [] {
      assert a + rest == rest;
      assert s[..0] == a && s[0..] == s;
    } else {
      var p := a + rest;
      assert p[0] == a[0] && p[1..] == a[1..] + rest;
      if s != [] {
        LiteralPrefix(a[1..], rest, s[1..]);
        if |s| >= |a| {
          assert s[..|a|] == [s[0]] + s[1..][..|a| - 1];
          assert s[1..][|a| - 1..] == s[|a|..];
          assert a == [a[0]] + a[1..];
        }
      }
    }
  }

  /** `%` followed by a wildcard-free tail: any newline-free run, then the tail. */
  lemma PercentThenLiteral(b: string, u: string)
    requires NoWildcards(b)
    ensures LikeMatch("%" + b, u) <==> |u| >= |b| && u[|u| - |b|..] == b && NoNewline(u[..|u| - |b|])
  {
    var p := "%" + b;
    assert p[0] == '%' && p[1..] == b;
    if LikeMatch(p, u) {
      var k :| 0 <= k <= |u| && NoNewline(u[..k]) && LikeMatch(b, u[k..]);
      LiteralPattern(b, u[k..]);
    }
    if |u| >= |b| && u[|u| - |b|..] == b && NoNewline(u[..|u| - |b|]) {
      LiteralPattern(b, u[|u| - |b|..]);
    }
  }

  /**
   * `a%b` with wildcard-free `a` and `b` matches exactly the strings that
   * start with `a`, end with `b` (not overlapping) and have no newline between.
   */
  lemma PrefixPercentSuffix(a: string, b: string, s: string)
    requires NoWildcards(a) && NoWildcards(b)
    ensures LikeMatch(a + "%" + b, s) <==>
      |s| >= |a| + |b| && s[..|a|] == a && s[|s| - |b|..] == b && NoNewline(s[|a|..|s| - |b|])
  {
    var tail := "%" + b;
    assert a + "%" + b == a + tail;
    LiteralPrefix(a, tail, s);
    if |s| >= |a| {
      SuffixAfterPrefix(a, b, s);
    }
  }

  lemma SuffixAfterPrefix(a: string, b: string, s: string)
    requires NoWildcards(b) && |s| >= |a|
    ensures LikeMatch("%" + b, s[|a|..]) <==>
      |s| >= |a| + |b| && s[|s| - |b|..] == b && NoNewline(s[|a|..|s| - |b|])
  {
    var u := s[|a|..];
    PercentThenLiteral(b, u);
    if |u| >= |b| {
      assert u[|u| - |b|..] == s[|s| - |b|..];
      assert u[..|u| - |b|] == s[|a|..|s| - |b|];
    }
  }

  /** `_` then a wildcard-free tail: one non-newline character, then exactly the tail. */
  lemma UnderscoreThenLiteral(b: string, u: string)
    requires NoWildcards(b)
    ensures LikeMatch("_" + b, u) <==> |u| == 1 + |b| && u[0] != '\n' && u[1..] == b
  {
    var p := "_" + b;
    assert p[0] == '_' && p[1..] == b;
    if u != [] {
      LiteralPattern(b, u[1..]);
    }
  }

  /**
   * `a_b` with wildcard-free `a` and `b`: `_` consumes exactly one character,
   * which is not a newline.
   */
  lemma PrefixUnderscoreSuffix(a: string, b: string, s: string)
    requires NoWildcards(a) && NoWildcards(b)
    ensures LikeMatch(a + "_" + b, s) <==>
      |s| == |a| + 1 + |b| && s[..|a|] == a && s[|a|] != '\n' && s[|a| + 1..] == b
  {
    var tail := "_" + b;
    assert a + "_" + b == a + tail;
    LiteralPrefix(a, tail, s);
    if |s| >= |a| {
      CharAfterPrefix(a, b, s);
    }
  }

  lemma CharAfterPrefix(a: string, b: string, s: string)
    requires NoWildcards(b) && |s| >= |a|
    ensures LikeMatch("_" + b, s[|a|..]) <==> |s| == |a| + 1 + |b| && s[|a|] != '\n' && s[|a| + 1..] == b
  {
    var u := s[|a|..];
    UnderscoreThenLiteral(b, u);
    if u != [] {
      assert u[0] == s[|a|];
      assert u[1..] == s[|a| + 1..];
    }
  }
}
