/**
 * The part of Go's `strings`, `unicode` and `strconv` packages that the query
 * compiler relies on, over strings as sequences of code points.
 */
module GoStrings {
  import opened Wrappers

  /** `unicode.IsSpace`: the ASCII white space, NEL, NBSP and the Unicode space separators. */
  predicate IsSpace(c: char) {
    c == ' ' || c == '\t' || c == '\n' || c == '\U{B}' || c == '\U{C}' || c == '\r'
    || c == '\U{85}' || c == '\U{A0}' || c == '\U{1680}' || ('\U{2000}' <= c <= '\U{200A}')
    || c == '\U{2028}' || c == '\U{2029}' || c == '\U{202F}' || c == '\U{205F}' || c == '\U{3000}'
  }

  /** `unicode.ToLower` restricted to ASCII letters. */
  function LowerChar(c: char): char {
    if 'A' <= c <= 'Z' then (c as int + 32) as char else c
  }

  /** `strings.ToLower`, letter by letter. */
  function ToLower(s: string): (r: string)
    ensures |r| == |s|
  {
    seq(|s|, i requires 0 <= i < |s| => LowerChar(s[i]))
  }

  /** Lower-casing twice is lower-casing once. */
  lemma ToLowerIdempotent(s: string)
    ensures ToLower(ToLower(s)) == ToLower(s)
  {
    var once := ToLower(s);
    var twice := ToLower(once);
    forall i | 0 <= i < |s|
      ensures twice[i] == once[i]
    {
      assert once[i] == LowerChar(s[i]);
    }
  }

  /** Lower-casing works letter by letter, so it distributes over concatenation. */
  lemma ToLowerConcat(a: string, b: string)
    ensures ToLower(a + b) == ToLower(a) + ToLower(b)
  {
    var whole := ToLower(a + b);
    forall i | 0 <= i < |a + b|
      ensures whole[i] == (ToLower(a) + ToLower(b))[i]
    {
      if i < |a| {
        assert (a + b)[i] == a[i];
      } else {
        assert (a + b)[i] == b[i - |a|];
      }
    }
  }

  /** Text without upper-case ASCII letters is its own lower case. */
  lemma ToLowerKeeps(s: string)
    requires forall i :: 0 <= i < |s| ==> !('A' <= s[i] <= 'Z')
    ensures ToLower(s) == s
  {
  }

  // ---------------------------------------------------------------------------
  // Substring search: strings.Index and strings.Contains

  /** `sub` occurs in `s` starting at position `i`. */
  predicate OccursAt(s: string, sub: string, i: int) {
    0 <= i && i + |sub| <= |s| && s[i..i + |sub|] == sub
  }

  /** First occurrence of `sub` in `s` at or after position `from`, or -1. */
  function IndexFrom(s: string, sub: string, from: nat): (r: int)
    ensures r == -1 || (from <= r && r + |sub| <= |s|)
    decreases |s| - from
  {
    if from + |sub| > |s| then -1
    else if s[from..from + |sub|] == sub then from
    else IndexFrom(s, sub, from + 1)
  }

  /** `IndexFrom` finds the first occurrence at or after `from`, and -1 means there is none. */
  lemma {:induction false} IndexFromFirst(s: string, sub: string, from: nat)
    ensures IndexFrom(s, sub, from) != -1 ==> OccursAt(s, sub, IndexFrom(s, sub, from))
    ensures forall j ::
      (from <= j && (IndexFrom(s, sub, from) == -1 || j < IndexFrom(s, sub, from))) ==> !OccursAt(s, sub, j)
    decreases |s| - from
  {
    if from + |sub| <= |s| && s[from..from + |sub|] != sub {
      IndexFromFirst(s, sub, from + 1);
    }
  }

  /** `strings.Index`: the first position where `sub` occurs in `s`, or -1. */
  function Index(s: string, sub: string): (r: int)
    ensures r == -1 || 0 <= r <= |s| - |sub|
  {
    IndexFrom(s, sub, 0)
  }

  /** `Index` is the first occurrence, and -1 exactly when there is none. */
  lemma IndexFirst(s: string, sub: string)
    ensures Index(s, sub) == -1 <==> forall j :: !OccursAt(s, sub, j)
    ensures Index(s, sub) != -1 ==>
      OccursAt(s, sub, Index(s, sub)) && forall j :: 0 <= j < Index(s, sub) ==> !OccursAt(s, sub, j)
  {
    IndexFromFirst(s, sub, 0);
  }

  /** `strings.Contains`. */
  predicate Contains(s: string, sub: string) {
    Index(s, sub) != -1
  }

  /** An occurrence inside a prefix is an occurrence in the whole string. */
  lemma OccursInPrefix(s: string, sub: string, m: nat, j: int)
    requires m <= |s|
    requires OccursAt(s[..m], sub, j)
    ensures OccursAt(s, sub, j)
  {
    assert s[..m][j..j + |sub|] == s[j..j + |sub|];
  }

  /** An occurrence inside a suffix is an occurrence in the whole string, shifted. */
  lemma OccursInSuffix(s: string, sub: string, m: nat, j: int)
    requires m <= |s|
    requires OccursAt(s[m..], sub, j)
    ensures OccursAt(s, sub, m + j)
  {
    assert s[m..][j..j + |sub|] == s[m + j..m + j + |sub|];
  }

  // ---------------------------------------------------------------------------
  // strings.Split with a non-empty separator, and its inverse

  /** `strings.Join`. */
  function Join(parts: seq<string>, sep: string): string
    requires |parts| >= 1
  {
    if |parts| == 1 then parts[0] else parts[0] + sep + Join(parts[1..], sep)
  }

  /**
   * `strings.Split(s, sep)` for a non-empty `sep`: cut `s` at every occurrence
   * of `sep`, scanning left to right.
   */
  function Split(s: string, sep: string): (parts: seq<string>)
    requires sep != []
    ensures |parts| >= 1
    decreases |s|
  {
    var m := Index(s, sep);
    if m == -1 then [s]
    else [s[..m]] + Split(s[m + |sep|..], sep)
  }

  /** The pieces of a split join back to the string. */
  lemma {:induction false} SplitJoin(s: string, sep: string)
    requires sep != []
    ensures Join(Split(s, sep), sep) == s
    decreases |s|
  {
    var m := Index(s, sep);
    if m != -1 {
      var tail := Split(s[m + |sep|..], sep);
      SplitJoin(s[m + |sep|..], sep);
      IndexFirst(s, sep);
      JoinAtOccurrence(s, sep, m, tail);
    }
  }

  lemma JoinAtOccurrence(s: string, sep: string, m: int, tail: seq<string>)
    requires sep != [] && OccursAt(s, sep, m) && |tail| >= 1 && Join(tail, sep) == s[m + |sep|..]
    ensures Join([s[..m]] + tail, sep) == s
  {
    JoinCons(s[..m], tail, sep);
    Recompose(s, sep, m);
  }

  lemma JoinCons(head: string, tail: seq<string>, sep: string)
    requires |tail| >= 1
    ensures Join([head] + tail, sep) == head + sep + Join(tail, sep)
  {
    assert ([head] + tail)[1..] == tail;
  }

  /** Cutting out an occurrence and gluing the parts back gives the string. */
  lemma Recompose(s: string, sep: string, m: int)
    requires OccursAt(s, sep, m)
    ensures s[..m] + sep + s[m + |sep|..] == s
  {
    assert s[..m] + s[m..] == s;
    assert s[m..] == sep + s[m + |sep|..];
  }

  /** No piece of a split holds the separator. */
  lemma {:induction false} SplitPiecesLackSeparator(s: string, sep: string)
    requires sep != []
    ensures forall i :: 0 <= i < |Split(s, sep)| ==> !Contains(Split(s, sep)[i], sep)
    decreases |s|
  {
    var m := Index(s, sep);
    if m != -1 {
      var head := s[..m];
      var tail := Split(s[m + |sep|..], sep);
      SplitPiecesLackSeparator(s[m + |sep|..], sep);
      assert Split(s, sep) == [head] + tail;
      assert !Contains(head, sep) by {
        if Contains(head, sep) {
          var j := Index(head, sep);
          IndexFirst(head, sep);
          OccursInPrefix(s, sep, m, j);
          IndexFirst(s, sep);
        }
      }
    }
  }

  /** Splitting a string without the separator gives the string back alone. */
  lemma SplitWithoutSeparator(s: string, sep: string)
    requires sep != [] && !Contains(s, sep)
    ensures Split(s, sep) == [s]
  {
  }

  /**
   * Cutting at a separator that first occurs right after `pre`, and never
   * again in `rest`, gives exactly the two pieces.
   */
  lemma SplitAtOnlyOccurrence(pre: string, sep: string, rest: string)
    requires sep != []
    requires forall j :: 0 <= j < |pre| ==> !OccursAt(pre + sep, sep, j)
    requires !Contains(rest, sep)
    ensures Split(pre + sep + rest, sep) == [pre, rest]
  {
    var s := pre + sep + rest;
    FirstOccurrenceAfter(pre, sep, rest);
    SplitAtIndex(s, sep);
    assert s[..|pre|] == pre;
    assert s[|pre| + |sep|..] == rest;
    SplitWithoutSeparator(rest, sep);
  }

  /** Cutting at the first occurrence of the separator. */
  lemma SplitAtIndex(s: string, sep: string)
    requires sep != [] && Index(s, sep) != -1
    ensures Split(s, sep) == [s[..Index(s, sep)]] + Split(s[Index(s, sep) + |sep|..], sep)
  {
  }

  /** The separator first occurs right after `pre` in `pre + sep + rest`. */
  lemma FirstOccurrenceAfter(pre: string, sep: string, rest: string)
    requires sep != []
    requires forall j :: 0 <= j < |pre| ==> !OccursAt(pre + sep, sep, j)
    ensures Index(pre + sep + rest, sep) == |pre|
  {
    var s := pre + sep + rest;
    var m := |pre|;
    assert s[m..m + |sep|] == sep;
    assert OccursAt(s, sep, m);
    forall j | 0 <= j < m
      ensures !OccursAt(s, sep, j)
    {
      OccursInPrefixBack(pre + sep, rest, sep, j);
    }
    IndexFirst(s, sep);
  }

  /** An occurrence that ends inside `a` of `a + b` is an occurrence in `a`. */
  lemma OccursInPrefixBack(a: string, b: string, sub: string, j: int)
    requires 0 <= j && j + |sub| <= |a|
    ensures OccursAt(a + b, sub, j) <==> OccursAt(a, sub, j)
  {
    assert (a + b)[j..j + |sub|] == a[j..j + |sub|];
  }

  // ---------------------------------------------------------------------------
  // strings.Replace with n = -1, for a one-character old string

  /** `strings.Replace(s, old, new, -1)` for a one-character `old` (here `target`): every occurrence is replaced by `repl`. */
  function ReplaceAll(s: string, target: char, repl: string): (r: string)
    ensures target !in repl ==> target !in r
    ensures target !in s ==> r == s
  {
    if s == [] then []
    else (if s[0] == target then repl else [s[0]]) + ReplaceAll(s[1..], target, repl)
  }

  /** Replacement works piece by piece. */
  lemma {:induction false} ReplaceAllAppend(a: string, b: string, target: char, repl: string)
    ensures ReplaceAll(a + b, target, repl) == ReplaceAll(a, target, repl) + ReplaceAll(b, target, repl)
    decreases |a|
  {
    if a == [] {
      assert a + b == b;
    } else {
      assert (a + b)[0] == a[0];
      assert (a + b)[1..] == a[1..] + b;
      ReplaceAllAppend(a[1..], b, target, repl);
    }
  }

  // ---------------------------------------------------------------------------
  // Trimming: strings.TrimLeft, strings.TrimRight, strings.Trim, strings.TrimSpace

  /** Drop the leading characters that are in `cut`. */
  function TrimLeft(s: string, cut: char -> bool): (r: string)
    ensures |r| <= |s|
    ensures r == [] || !cut(r[0])
  {
    if s == [] || !cut(s[0]) then s else TrimLeft(s[1..], cut)
  }

  /** What `TrimLeft` drops is a prefix of cut characters, and it keeps the rest. */
  lemma {:induction false} TrimLeftDropsCutPrefix(s: string, cut: char -> bool)
    ensures TrimLeft(s, cut) == s[|s| - |TrimLeft(s, cut)|..]
    ensures forall i :: 0 <= i < |s| - |TrimLeft(s, cut)| ==> cut(s[i])
  {
    if s != [] && cut(s[0]) {
      TrimLeftDropsCutPrefix(s[1..], cut);
      assert forall i :: 1 <= i < |s| ==> s[i] == s[1..][i - 1];
    }
  }

  /** Drop the trailing characters that are in `cut`. */
  function TrimRight(s: string, cut: char -> bool): (r: string)
    ensures |r| <= |s|
    ensures r == [] || !cut(r[|r| - 1])
  {
    if s == [] || !cut(s[|s| - 1]) then s
    else TrimRight(s[..|s| - 1], cut)
  }

  /** What `TrimRight` drops is a suffix of cut characters, and it keeps the rest. */
  lemma {:induction false} TrimRightDropsCutSuffix(s: string, cut: char -> bool)
    ensures TrimRight(s, cut) == s[..|TrimRight(s, cut)|]
    ensures forall i :: |TrimRight(s, cut)| <= i < |s| ==> cut(s[i])
  {
    if s != [] && cut(s[|s| - 1]) {
      TrimRightDropsCutSuffix(s[..|s| - 1], cut);
    }
  }

  /** `strings.Trim(s, cutset)` with the cut set given as a predicate. */
  function Trim(s: string, cut: char -> bool): (r: string)
    ensures |r| <= |s|
    ensures r == [] || (!cut(r[0]) && !cut(r[|r| - 1]))
  {
    var t := TrimLeft(s, cut);
    TrimRightDropsCutSuffix(t, cut);
    TrimRight(t, cut)
  }

  /** `strings.TrimSpace`. */
  function TrimSpace(s: string): (r: string)
    ensures |r| <= |s|
    ensures r == [] || (!IsSpace(r[0]) && !IsSpace(r[|r| - 1]))
  {
    Trim(s, IsSpace)
  }

  /** Text that starts and ends with a non-space character is kept by `TrimSpace`. */
  lemma TrimSpaceKeeps(s: string)
    requires s != [] && !IsSpace(s[0]) && !IsSpace(s[|s| - 1])
    ensures TrimSpace(s) == s
  {
    assert TrimLeft(s, IsSpace) == s;
    assert TrimRight(s, IsSpace) == s;
  }

  /** The cut set `'"` used to strip quotes from a pattern. */
  predicate IsQuote(c: char) {
    c == '\'' || c == '"'
  }

  // ---------------------------------------------------------------------------
  // strings.Fields

  /** The longest prefix of `s` without white space. */
  function Word(s: string): (w: string)
    ensures |w| <= |s|
    ensures s != [] && !IsSpace(s[0]) ==> w != []
  {
    if s == [] || IsSpace(s[0]) then [] else [s[0]] + Word(s[1..])
  }

  /** No character of `w` is white space. */
  predicate SpaceFree(w: string) {
    forall i :: 0 <= i < |w| ==> !IsSpace(w[i])
  }

  /** `Word` is a space-free prefix, ended by white space or the end of the string. */
  lemma {:induction false} WordIsMaximalPrefix(s: string)
    ensures Word(s) == s[..|Word(s)|]
    ensures SpaceFree(Word(s))
    ensures |Word(s)| < |s| ==> IsSpace(s[|Word(s)|])
  {
    if s != [] && !IsSpace(s[0]) {
      var w := Word(s[1..]);
      WordIsMaximalPrefix(s[1..]);
      assert Word(s) == [s[0]] + w;
      assert forall i :: 1 <= i <= |w| ==> ([s[0]] + w)[i] == s[1..][i - 1];
    }
  }

  /** `strings.Fields`: the maximal runs of non-white-space characters, in order. */
  function Fields(s: string): (fs: seq<string>)
    decreases |s|
  {
    var t := TrimLeft(s, IsSpace);
    if t == [] then []
    else
      var w := Word(t);
      [w] + Fields(t[|w|..])
  }

  /** Every field is non-empty and free of white space. */
  lemma {:induction false} FieldsAreWords(s: string)
    ensures forall k :: 0 <= k < |Fields(s)| ==> Fields(s)[k] != [] && SpaceFree(Fields(s)[k])
    decreases |s|
  {
    var t := TrimLeft(s, IsSpace);
    if t != [] {
      var w := Word(t);
      WordIsMaximalPrefix(t);
      FieldsAreWords(t[|w|..]);
      assert Fields(s) == [w] + Fields(t[|w|..]);
    }
  }

  /** Leading white space does not change the fields. */
  lemma FieldsSkipsLeadingSpace(sp: string, s: string)
    requires forall i :: 0 <= i < |sp| ==> IsSpace(sp[i])
    ensures Fields(sp + s) == Fields(s)
  {
    TrimLeftSkipsCut(sp, s, IsSpace);
  }

  /** Trimming a prefix of cut characters first changes nothing. */
  lemma {:induction false} TrimLeftSkipsCut(sp: string, s: string, cut: char -> bool)
    requires forall i :: 0 <= i < |sp| ==> cut(sp[i])
    ensures TrimLeft(sp + s, cut) == TrimLeft(s, cut)
    decreases |sp|
  {
    if sp == [] {
      assert sp + s == s;
    } else {
      assert (sp + s)[0] == sp[0];
      assert (sp + s)[1..] == sp[1..] + s;
      TrimLeftSkipsCut(sp[1..], s, cut);
    }
  }

  /** A word followed by white space (or nothing) and more text: it is the first field. */
  lemma FieldsOfWord(w: string, rest: string)
    requires w != [] && SpaceFree(w)
    requires rest == [] || IsSpace(rest[0])
    ensures Fields(w + rest) == [w] + Fields(rest)
  {
    var s := w + rest;
    assert TrimLeft(s, IsSpace) == s;
    WordOfPrefix(w, rest);
    assert s[|w|..] == rest;
  }

  /** The first word of `w + rest` is `w` when `rest` starts with white space. */
  lemma {:induction false} WordOfPrefix(w: string, rest: string)
    requires SpaceFree(w)
    requires rest == [] || IsSpace(rest[0])
    ensures Word(w + rest) == w
    decreases |w|
  {
    if w != [] {
      assert (w + rest)[1..] == w[1..] + rest;
      WordOfPrefix(w[1..], rest);
    }
  }

  /** A space-free word alone is one field. */
  lemma SingleField(w: string)
    requires w != [] && SpaceFree(w)
    ensures Fields(w) == [w]
  {
    FieldsOfWord(w, "");
    assert w + "" == w;
    assert Fields("") == [];
  }

  /** Two space-free words separated by one space are two fields. */
  lemma TwoFields(a: string, b: string)
    requires a != [] && SpaceFree(a) && b != [] && SpaceFree(b)
    ensures Fields(a + (" " + b)) == [a, b]
  {
    FieldThenSpace(a, b);
    SingleField(b);
    ConsOfSingleton(a, Fields(b), b);
  }

  lemma ConsOfSingleton<T>(x: T, s: seq<T>, y: T)
    requires s == [y]
    ensures [x] + s == [x, y]
  {
  }

  /** A word, one space, and more text: the word is the first field. */
  lemma FieldThenSpace(w: string, rest: string)
    requires w != [] && SpaceFree(w)
    ensures Fields(w + (" " + rest)) == [w] + Fields(rest)
  {
    FieldThenSpaceRaw(w, rest);
    SpaceBeforeFields(rest);
  }

  lemma FieldThenSpaceRaw(w: string, rest: string)
    requires w != [] && SpaceFree(w)
    ensures Fields(w + (" " + rest)) == [w] + Fields(" " + rest)
  {
    FieldsOfWord(w, " " + rest);
  }

  lemma SpaceBeforeFields(rest: string)
    ensures Fields(" " + rest) == Fields(rest)
  {
    FieldsSkipsLeadingSpace(" ", rest);
  }

  // ---------------------------------------------------------------------------
  // strconv.Atoi

  const MinInt64: int := -0x8000_0000_0000_0000
  const MaxInt64: int := 0x7FFF_FFFF_FFFF_FFFF

  predicate IsDigit(c: char) {
    '0' <= c <= '9'
  }

  predicate AllDigits(s: string) {
    forall i :: 0 <= i < |s| ==> IsDigit(s[i])
  }

  /** The value of a string of decimal digits, most significant first. */
  function DigitsValue(s: string): (n: nat)
    requires AllDigits(s)
  {
    if s == [] then 0
    else 10 * DigitsValue(s[..|s| - 1]) + (s[|s| - 1] as int - '0' as int)
  }

  /**
   * `strconv.Atoi` on a 64-bit platform: an optional sign and at least one
   * decimal digit, nothing else, and a value within the range of `int`.
   */
  function Atoi(s: string): (r: Option<int>)
    ensures r.Some? ==> MinInt64 <= r.value <= MaxInt64
    ensures r.Some? ==> s != [] && (IsDigit(s[0]) || s[0] == '+' || s[0] == '-')
  {
    if s == [] then None
    else
      var negative := s[0] == '-';
      var digits := if s[0] == '+' || s[0] == '-' then s[1..] else s;
      if digits == [] || !AllDigits(digits) then None
      else
        var n: int := DigitsValue(digits);
        var v: int := if negative then -n else n;
        if v < MinInt64 || v > MaxInt64 then None else Some(v)
  }

  /** The decimal digits of a natural number (`strconv.Itoa` for n >= 0). */
  function NatToDigits(n: nat): (s: string)
    ensures s != [] && AllDigits(s)
  {
    var last := [('0' as int + n % 10) as char];
    if n < 10 then last else NatToDigits(n / 10) + last
  }

  /** `strconv.Itoa`. */
  function Itoa(n: int): string {
    if n < 0 then "-" + NatToDigits(-n) else NatToDigits(n)
  }

  lemma {:induction false} DigitsRoundTrip(n: nat)
    ensures DigitsValue(NatToDigits(n)) == n
  {
    var s := NatToDigits(n);
    if n >= 10 {
      DigitsRoundTrip(n / 10);
      assert s[..|s| - 1] == NatToDigits(n / 10);
    }
  }

  /** Atoi reads back every in-range integer that Itoa writes. */
  lemma AtoiItoa(n: int)
    requires MinInt64 <= n <= MaxInt64
    ensures Atoi(Itoa(n)) == Some(n)
  {
    if n < 0 {
      DigitsRoundTrip(-n);
      AtoiNegative(NatToDigits(-n));
    } else {
      DigitsRoundTrip(n);
      AtoiUnsigned(NatToDigits(n));
    }
  }

  lemma AtoiUnsigned(d: string)
    requires d != [] && AllDigits(d) && DigitsValue(d) <= MaxInt64
    ensures Atoi(d) == Some(DigitsValue(d))
  {
  }

  lemma AtoiNegative(d: string)
    requires d != [] && AllDigits(d) && MinInt64 <= -(DigitsValue(d) as int)
    ensures Atoi("-" + d) == Some(-(DigitsValue(d) as int))
  {
    assert ("-" + d)[0] == '-';
    assert ("-" + d)[1..] == d;
  }

  /** Itoa writes no white space, so its output is a single field. */
  lemma ItoaSpaceFree(n: int)
    ensures Itoa(n) != [] && SpaceFree(Itoa(n))
  {
    var d := NatToDigits(if n < 0 then -n else n);
    assert AllDigits(d);
  }
}
