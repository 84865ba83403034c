/**
 * The query compiler of windows/query.go: `ParseQuery` turns
 * `select ... from <connection> [where <clause> (and <clause>)*]` into a
 * `QueryCondition`, with the clause helpers `parseTTLCondition`,
 * `parseValueCondition`, `parseKeyCondition` and `extractPattern`.
 *
 * The Go helpers update a `*QueryCondition` in place; here they return the
 * updated record, which `ParseQuery` threads through its loop.
 */
module Query {
  import opened Wrappers
  import opened GoStrings
  import opened LikePattern

  /** The TTL comparison of a query; `NoTtl` is the empty operator string. */
  datatype TtlOperator = NoTtl | Greater | Less | Equal

  datatype QueryCondition = QueryCondition(
    ttlOperator: TtlOperator,
    ttlValue: int,          // milliseconds
    valuePattern: string,   // compiled LIKE pattern or raw regex; "" = no constraint
    keyPattern: string,     // compiled LIKE pattern or raw regex; "" = no constraint
    isRegexValue: bool,
    isRegexKey: bool,
    connectionName: string)

  datatype ParseError =
    | MissingFrom                  // "missing 'from' clause"
    | InvalidFormat                // "invalid query format"
    | InvalidTtlFormat             // "invalid TTL condition format"
    | InvalidTtlOperator(op: string)
    | InvalidTtlValue(text: string)
    | InvalidValueCondition
    | InvalidKeyCondition

  /** `&QueryCondition{}`: no constraint at all. */
  const Unconstrained := QueryCondition(NoTtl, 0, "", "", false, false, "")

  // ---------------------------------------------------------------------------
  // parseTTLCondition

  function OperatorOf(text: string): Option<TtlOperator> {
    if text == ">" then Some(Greater)
    else if text == "<" then Some(Less)
    else if text == "==" then Some(Equal)
    else None
  }

  function OperatorText(op: TtlOperator): string {
    match op
    case NoTtl => ""
    case Greater => ">"
    case Less => "<"
    case Equal => "=="
  }

  /**
   * `parseTTLCondition`: at least three fields, the second exactly `>`, `<` or
   * `==`, the third an integer. On success only the TTL operator and value change.
   */
  function ParseTtlCondition(clause: string, qc: QueryCondition): (r: Result<QueryCondition, ParseError>)
    ensures var f := Fields(clause);
      && (|f| < 3 ==> r == Failure(InvalidTtlFormat))
      && (|f| >= 3 && OperatorOf(f[1]).None? ==> r == Failure(InvalidTtlOperator(f[1])))
      && (|f| >= 3 && OperatorOf(f[1]).Some? && Atoi(f[2]).None? ==> r == Failure(InvalidTtlValue(f[2])))
      && (r.Success? <==> |f| >= 3 && OperatorOf(f[1]).Some? && Atoi(f[2]).Some?)
    ensures r.Success? ==> r.value.ttlOperator != NoTtl
    ensures r.Success? ==> r.value.ttlOperator == OperatorOf(Fields(clause)[1]).value
    ensures r.Success? ==> r.value.ttlValue == Atoi(Fields(clause)[2]).value
    ensures r.Success? ==> r.value == qc.(ttlOperator := r.value.ttlOperator, ttlValue := r.value.ttlValue)
  {
    var parts := Fields(clause);
    if |parts| < 3 then Failure(InvalidTtlFormat)
    else match OperatorOf(parts[1])
      case None => Failure(InvalidTtlOperator(parts[1]))
      case Some(op) =>
        match Atoi(parts[2])
        case None => Failure(InvalidTtlValue(parts[2]))
        case Some(n) => Success(qc.(ttlOperator := op, ttlValue := n))
  }

  /** `ttl <op> <n>` parses back to the operator and value it was written from. */
  lemma TtlClauseRoundTrip(op: TtlOperator, n: int, qc: QueryCondition)
    requires op != NoTtl && MinInt64 <= n <= MaxInt64
    ensures ParseTtlCondition("ttl " + OperatorText(op) + " " + Itoa(n), qc)
         == Success(qc.(ttlOperator := op, ttlValue := n))
  {
    OperatorRoundTrip(op);
    ItoaSpaceFree(n);
    TtlClauseFields(OperatorText(op), Itoa(n));
    AtoiItoa(n);
  }

  lemma OperatorRoundTrip(op: TtlOperator)
    requires op != NoTtl
    ensures OperatorOf(OperatorText(op)) == Some(op)
    ensures OperatorText(op) != [] && SpaceFree(OperatorText(op))
  {
  }

  /**
   * Any other operator word (`>=`, `>>`, `!=`, ...) is rejected with that word,
   * never read as a prefix of a valid operator.
   */
  lemma UnknownOperatorRejected(opText: string, value: string, qc: QueryCondition)
    requires opText != [] && SpaceFree(opText) && value != [] && SpaceFree(value)
    requires OperatorOf(opText).None?
    ensures ParseTtlCondition("ttl " + opText + " " + value, qc) == Failure(InvalidTtlOperator(opText))
  {
    TtlClauseFields(opText, value);
  }

  /** The fields of `ttl <op> <value>`. */
  lemma TtlClauseFields(opText: string, value: string)
    requires opText != [] && SpaceFree(opText) && value != [] && SpaceFree(value)
    ensures Fields("ttl " + opText + " " + value) == ["ttl", opText, value]
  {
    TtlWord();
    ThreeFields("ttl", opText, value);
    SpacedWords("ttl", opText, value);
    assert "ttl " == "ttl" + " ";
  }

  lemma TtlWord()
    ensures "ttl" != [] && SpaceFree("ttl")
  {
  }

  /** Three space-free words separated by single spaces are three fields. */
  lemma ThreeFields(a: string, b: string, c: string)
    requires a != [] && SpaceFree(a) && b != [] && SpaceFree(b) && c != [] && SpaceFree(c)
    ensures Fields(a + (" " + (b + (" " + c)))) == [a, b, c]
  {
    FieldThenSpace(a, b + (" " + c));
    TwoFields(b, c);
  }

  lemma SpacedWords(a: string, b: string, c: string)
    ensures a + " " + b + " " + c == a + (" " + (b + (" " + c)))
  {
  }

  // ---------------------------------------------------------------------------
  // extractPattern, parseValueCondition, parseKeyCondition

  /**
   * `extractPattern`: the text after the only occurrence of `keyword`, with
   * surrounding white space and then quotes removed; "" when `keyword` does
   * not occur exactly once.
   */
  function ExtractPattern(clause: string, keyword: string): (r: string)
    requires keyword != []
    ensures r == [] || (!IsQuote(r[0]) && !IsQuote(r[|r| - 1]))
    ensures |Split(clause, keyword)| != 2 ==> r == []
  {
    var parts := Split(clause, keyword);
    if |parts| != 2 then "" else Trim(TrimSpace(parts[1]), IsQuote)
  }

  /** `' p '` between quotes, with a space before: what follows the keyword in a clause. */
  function Quoted(p: string): string {
    " '" + p + "'"
  }

  /** `p` neither starts nor ends with a quote. */
  predicate QuoteFreeEnds(p: string) {
    p == [] || (!IsQuote(p[0]) && !IsQuote(p[|p| - 1]))
  }

  /** Trimming white space and then quotes from ` 'p'` leaves `p`. */
  lemma TrimQuoted(p: string)
    requires QuoteFreeEnds(p)
    ensures Trim(TrimSpace(Quoted(p)), IsQuote) == p
  {
    var q := "'" + p + "'";
    assert Quoted(p)[1..] == q;
    assert TrimLeft(Quoted(p), IsSpace) == q;
    assert TrimSpace(Quoted(p)) == q;
    assert q[1..] == p + "'";
    if p == [] {
      assert TrimLeft(q, IsQuote) == TrimLeft("'", IsQuote);
      assert "'"[1..] == [];
    } else {
      assert TrimLeft(q, IsQuote) == p + "'";
      assert (p + "'")[..|p|] == p;
      assert TrimRight(p + "'", IsQuote) == TrimRight(p, IsQuote) == p;
    }
  }

  /**
   * `extractPattern`: when the keyword occurs once, right after `pre`, and is
   * followed by a quoted pattern, the pattern between the quotes is extracted.
   */
  lemma ExtractQuotedPattern(pre: string, keyword: string, p: string)
    requires keyword != []
    requires forall j :: 0 <= j < |pre| ==> !OccursAt(pre + keyword, keyword, j)
    requires !Contains(Quoted(p), keyword)
    requires QuoteFreeEnds(p)
    ensures ExtractPattern(pre + keyword + Quoted(p), keyword) == p
  {
    SplitAtOnlyOccurrence(pre, keyword, Quoted(p));
    TrimQuoted(p);
  }

  /** The pattern of a `like` or `regex` clause, and whether it is a raw regex. */
  function PatternClause(clause: string): (r: Option<(string, bool)>)
    ensures r.None? <==> !Contains(clause, "like") && !Contains(clause, "regex")
    ensures r.Some? ==> (r.value.1 <==> !Contains(clause, "like"))
    ensures r.Some? && !r.value.1 ==> r.value.0 == SqlLikeToRegex(ExtractPattern(clause, "like"))
    ensures r.Some? && r.value.1 ==> !Contains(clause, "like") && r.value.0 == ExtractPattern(clause, "regex")
  {
    if Contains(clause, "like") then Some((SqlLikeToRegex(ExtractPattern(clause, "like")), false))
    else if Contains(clause, "regex") then Some((ExtractPattern(clause, "regex"), true))
    else None
  }

  /** `parseValueCondition`: only the value pattern and its regex flag change. */
  function ParseValueCondition(clause: string, qc: QueryCondition): (r: Result<QueryCondition, ParseError>)
    ensures r.Failure? <==> PatternClause(clause).None?
    ensures r.Failure? ==> r.error == InvalidValueCondition
    ensures r.Success? ==> r.value == qc.(valuePattern := r.value.valuePattern, isRegexValue := r.value.isRegexValue)
    ensures r.Success? ==> (r.value.valuePattern, r.value.isRegexValue) == PatternClause(clause).value
  {
    match PatternClause(clause)
    case None => Failure(InvalidValueCondition)
    case Some((pattern, isRegex)) => Success(qc.(valuePattern := pattern, isRegexValue := isRegex))
  }

  /** `parseKeyCondition`: only the key pattern and its regex flag change. */
  function ParseKeyCondition(clause: string, qc: QueryCondition): (r: Result<QueryCondition, ParseError>)
    ensures r.Failure? <==> PatternClause(clause).None?
    ensures r.Failure? ==> r.error == InvalidKeyCondition
    ensures r.Success? ==> r.value == qc.(keyPattern := r.value.keyPattern, isRegexKey := r.value.isRegexKey)
    ensures r.Success? ==> (r.value.keyPattern, r.value.isRegexKey) == PatternClause(clause).value
  {
    match PatternClause(clause)
    case None => Failure(InvalidKeyCondition)
    case Some((pattern, isRegex)) => Success(qc.(keyPattern := pattern, isRegexKey := isRegex))
  }

  // ---------------------------------------------------------------------------
  // Clause dispatch and the where-part

  /** Which helper a clause goes to: by substring, `ttl` before `value` before `key`. */
  datatype ClauseKind = TtlClause | ValueClause | KeyClause | Ignored

  function KindOf(part: string): ClauseKind {
    if Contains(part, "ttl") then TtlClause
    else if Contains(part, "value") then ValueClause
    else if Contains(part, "key") then KeyClause
    else Ignored
  }

  /** One trimmed clause applied to the condition built so far. */
  function ApplyClause(part: string, qc: QueryCondition): Result<QueryCondition, ParseError> {
    match KindOf(part)
    case TtlClause => ParseTtlCondition(part, qc)
    case ValueClause => ParseValueCondition(part, qc)
    case KeyClause => ParseKeyCondition(part, qc)
    case Ignored => Success(qc)
  }

  /** A part that mentions none of `ttl`, `value`, `key` is skipped. */
  /** The routing order in one statement: `ttl` before `value` before `key`, and nothing else. */
  lemma ClauseKindPriority(part: string)
    ensures KindOf(part) == TtlClause <==> Contains(part, "ttl")
    ensures KindOf(part) == ValueClause <==> !Contains(part, "ttl") && Contains(part, "value")
    ensures KindOf(part) == KeyClause <==> !Contains(part, "ttl") && !Contains(part, "value") && Contains(part, "key")
    ensures KindOf(part) == Ignored <==> !Contains(part, "ttl") && !Contains(part, "value") && !Contains(part, "key")
  {
  }

  lemma IgnoredClauseSkipped(part: string, qc: QueryCondition)
    requires !Contains(part, "ttl") && !Contains(part, "value") && !Contains(part, "key")
    ensures ApplyClause(part, qc) == Success(qc)
  {
  }

  lemma TtlRoute(part: string, qc: QueryCondition)
    requires Contains(part, "ttl")
    ensures ApplyClause(part, qc) == ParseTtlCondition(part, qc)
  {
  }

  lemma ValueRoute(part: string, qc: QueryCondition)
    requires !Contains(part, "ttl") && Contains(part, "value")
    ensures ApplyClause(part, qc) == ParseValueCondition(part, qc)
  {
  }

  lemma KeyRoute(part: string, qc: QueryCondition)
    requires !Contains(part, "ttl") && !Contains(part, "value") && Contains(part, "key")
    ensures ApplyClause(part, qc) == ParseKeyCondition(part, qc)
  {
  }

  /** The clauses in order; the first error stops the parse. */
  function ParseClauses(parts: seq<string>, qc: QueryCondition): Result<QueryCondition, ParseError> {
    if parts == [] then Success(qc)
    else match ApplyClause(TrimSpace(parts[0]), qc)
      case Failure(e) => Failure(e)
      case Success(next) => ParseClauses(parts[1..], next)
  }

  /** The query as the parser sees it: lower-cased, outer white space removed. */
  function Normalize(query: string): string {
    TrimSpace(ToLower(query))
  }

  /** What `ParseQuery` computes. */
  function Parse(query: string): Result<QueryCondition, ParseError> {
    ParseNormalized(Normalize(query))
  }

  /** The parse of an already lower-cased and trimmed query: everything from `from` on. */
  function ParseNormalized(q: string): Result<QueryCondition, ParseError> {
    var fromIndex := Index(q, "from");
    if fromIndex == -1 then Failure(MissingFrom) else ParseFrom(q[fromIndex..])
  }

  /** `from <connection> ...`: the second field names the connection. */
  function ParseFrom(rest: string): Result<QueryCondition, ParseError> {
    var fields := Fields(rest);
    if |fields| < 2 then Failure(InvalidFormat)
    else ParseWhere(rest, Unconstrained.(connectionName := fields[1]))
  }

  /** The `and`-separated clauses after the first `where`, if any. */
  function ParseWhere(rest: string, base: QueryCondition): Result<QueryCondition, ParseError> {
    var whereIndex := Index(rest, "where");
    if whereIndex == -1 then Success(base)
    else ParseClauses(Split(rest[whereIndex + 5..], "and"), base)
  }

  lemma ParseStartsAtFrom(query: string)
    requires Index(Normalize(query), "from") != -1
    ensures Parse(query) == ParseFrom(Normalize(query)[Index(Normalize(query), "from")..])
  {
  }

  lemma FromNamesConnection(rest: string)
    requires |Fields(rest)| >= 2
    ensures ParseFrom(rest) == ParseWhere(rest, Unconstrained.(connectionName := Fields(rest)[1]))
  {
  }

  lemma FromWithoutConnection(rest: string)
    requires |Fields(rest)| < 2
    ensures ParseFrom(rest) == Failure(InvalidFormat)
  {
  }

  lemma WhereAbsent(rest: string, base: QueryCondition)
    requires Index(rest, "where") == -1
    ensures ParseWhere(rest, base) == Success(base)
  {
  }

  lemma WhereStartsClauses(rest: string, base: QueryCondition)
    requires Index(rest, "where") != -1
    ensures ParseWhere(rest, base) == ParseClauses(Split(rest[Index(rest, "where") + 5..], "and"), base)
  {
  }

  /** Without `from` the query is rejected; no other failure reports a missing `from`. */
  lemma ParseMissingFrom(query: string)
    ensures Parse(query) == Failure(MissingFrom) <==> Index(Normalize(query), "from") == -1
  {
    var q := Normalize(query);
    if Index(q, "from") != -1 {
      var rest := q[Index(q, "from")..];
      ParseStartsAtFrom(query);
      if |Fields(rest)| >= 2 {
        FromNamesConnection(rest);
        WhereErrorsOnly(rest, Unconstrained.(connectionName := Fields(rest)[1]));
      }
    }
  }

  /** With `from` but no field after the one it starts, the query is malformed. */
  lemma ParseInvalidFormat(query: string)
    requires Index(Normalize(query), "from") != -1
    ensures Parse(query) == Failure(InvalidFormat)
        <== |Fields(Normalize(query)[Index(Normalize(query), "from")..])| < 2
  {
    ParseStartsAtFrom(query);
  }

  /**
   * A successful parse names the field after the one starting at `from` as the
   * connection, and without `where` sets nothing else.
   */
  lemma ParseConnection(query: string)
    requires Parse(query).Success?
    ensures Index(Normalize(query), "from") != -1
    ensures var rest := Normalize(query)[Index(Normalize(query), "from")..];
      && |Fields(rest)| >= 2
      && Parse(query).value.connectionName == Fields(rest)[1]
      && (Index(rest, "where") == -1 ==> Parse(query).value == Unconstrained.(connectionName := Fields(rest)[1]))
  {
    var q := Normalize(query);
    ParseStartsAtFrom(query);
    var rest := q[Index(q, "from")..];
    FromNamesConnection(rest);
    WhereKeepsConnection(rest, Unconstrained.(connectionName := Fields(rest)[1]));
  }

  lemma WhereKeepsConnection(rest: string, base: QueryCondition)
    ensures ParseWhere(rest, base).Success? ==> ParseWhere(rest, base).value.connectionName == base.connectionName
  {
    if Index(rest, "where") != -1 {
      WhereStartsClauses(rest, base);
      ClausesKeepConnection(Split(rest[Index(rest, "where") + 5..], "and"), base);
    }
  }

  lemma WhereErrorsOnly(rest: string, base: QueryCondition)
    ensures ParseWhere(rest, base).Failure? ==> IsClauseError(ParseWhere(rest, base).error)
  {
    if Index(rest, "where") != -1 {
      WhereStartsClauses(rest, base);
      ClauseErrorsOnly(Split(rest[Index(rest, "where") + 5..], "and"), base);
    }
  }

  /** The errors a clause can report. */
  predicate IsClauseError(e: ParseError) {
    !e.MissingFrom? && !e.InvalidFormat?
  }

  /** The where-part only ever reports clause errors. */
  lemma {:induction false} ClauseErrorsOnly(parts: seq<string>, qc: QueryCondition)
    ensures ParseClauses(parts, qc).Failure? ==> IsClauseError(ParseClauses(parts, qc).error)
  {
    if parts != [] {
      var r := ApplyClause(TrimSpace(parts[0]), qc);
      ClauseStep(parts, qc);
      ApplyClauseErrors(TrimSpace(parts[0]), qc);
      if r.Success? {
        ClauseErrorsOnly(parts[1..], r.value);
      }
    }
  }

  /** No clause touches the connection name. */
  lemma {:induction false} ClausesKeepConnection(parts: seq<string>, qc: QueryCondition)
    ensures ParseClauses(parts, qc).Success? ==> ParseClauses(parts, qc).value.connectionName == qc.connectionName
  {
    if parts != [] {
      var r := ApplyClause(TrimSpace(parts[0]), qc);
      ClauseStep(parts, qc);
      ApplyClauseKeepsConnection(TrimSpace(parts[0]), qc);
      if r.Success? {
        ClausesKeepConnection(parts[1..], r.value);
      }
    }
  }

  lemma ClauseStep(parts: seq<string>, qc: QueryCondition)
    requires parts != []
    ensures ApplyClause(TrimSpace(parts[0]), qc).Failure? ==>
      ParseClauses(parts, qc) == Failure(ApplyClause(TrimSpace(parts[0]), qc).error)
    ensures ApplyClause(TrimSpace(parts[0]), qc).Success? ==>
      ParseClauses(parts, qc) == ParseClauses(parts[1..], ApplyClause(TrimSpace(parts[0]), qc).value)
  {
  }

  lemma ApplyClauseErrors(part: string, qc: QueryCondition)
    ensures ApplyClause(part, qc).Failure? ==> IsClauseError(ApplyClause(part, qc).error)
  {
  }

  lemma ApplyClauseKeepsConnection(part: string, qc: QueryCondition)
    ensures ApplyClause(part, qc).Success? ==> ApplyClause(part, qc).value.connectionName == qc.connectionName
  {
  }

  /** `ParseQuery`: locate `from`, take the connection name, then parse the where-part. */
  method ParseQuery(query: string) returns (r: Result<QueryCondition, ParseError>)
    ensures r == Parse(query)
  {
    var q := Normalize(query);
    var fromIndex := Index(q, "from");
    if fromIndex == -1 {
      ParseMissingFrom(query);
      return Failure(MissingFrom);
    }
    var remaining := q[fromIndex..];
    ParseStartsAtFrom(query);
    var parts := Fields(remaining);
    if |parts| < 2 {
      FromWithoutConnection(remaining);
      return Failure(InvalidFormat);
    }
    var condition := Unconstrained.(connectionName := parts[1]);
    FromNamesConnection(remaining);
    r := ParseWherePart(remaining, condition);
  }

  /** The rest of `ParseQuery`: without `where` the condition stands. */
  method ParseWherePart(remaining: string, base: QueryCondition) returns (r: Result<QueryCondition, ParseError>)
    ensures r == ParseWhere(remaining, base)
  {
    var whereIndex := Index(remaining, "where");
    if whereIndex == -1 {
      WhereAbsent(remaining, base);
      return Success(base);
    }
    WhereStartsClauses(remaining, base);
    r := ParseConditions(Split(remaining[whereIndex + 5..], "and"), base);
  }

  /**
   * The loop of `ParseQuery` over the `and`-separated clauses: each is trimmed
   * and routed by substring; the first rejected clause ends the parse.
   */
  method ParseConditions(condParts: seq<string>, base: QueryCondition) returns (r: Result<QueryCondition, ParseError>)
    ensures r == ParseClauses(condParts, base)
  {
    var condition := base;
    var i := 0;
    while i < |condParts|
      invariant 0 <= i <= |condParts|
      invariant ParseClauses(condParts[i..], condition) == ParseClauses(condParts, base)
    {
      var part := TrimSpace(condParts[i]);
      ClauseStep(condParts[i..], condition);
      assert condParts[i..][0] == condParts[i] && condParts[i..][1..] == condParts[i + 1..];
      if Contains(part, "ttl") {
        var parsed := ParseTtlCondition(part, condition);
        TtlRoute(part, condition);
        if parsed.Failure? {
          return Failure(parsed.error);
        }
        condition := parsed.value;
      } else if Contains(part, "value") {
        var parsed := ParseValueCondition(part, condition);
        ValueRoute(part, condition);
        if parsed.Failure? {
          return Failure(parsed.error);
        }
        condition := parsed.value;
      } else if Contains(part, "key") {
        var parsed := ParseKeyCondition(part, condition);
        KeyRoute(part, condition);
        if parsed.Failure? {
          return Failure(parsed.error);
        }
        condition := parsed.value;
      } else {
        IgnoredClauseSkipped(part, condition);
      }
      i := i + 1;
    }
    assert condParts[i..] == [];
    return Success(condition);
  }

  // ---------------------------------------------------------------------------
  // Properties of the parser

  /** Keywords are case-insensitive: the query is lower-cased before anything else. */
  lemma ParseIgnoresCase(query: string)
    ensures Parse(ToLower(query)) == Parse(query)
  {
    ToLowerIdempotent(query);
    assert Normalize(ToLower(query)) == Normalize(query);
  }

  /** Whether a clause is rejected, and with which error, does not depend on the condition so far. */
  function ClauseError(part: string): Option<ParseError> {
    match ApplyClause(part, Unconstrained)
    case Failure(e) => Some(e)
    case Success(_) => None
  }

  lemma ClauseErrorIndependent(part: string, qc: QueryCondition)
    ensures ApplyClause(part, qc).Failure? <==> ClauseError(part).Some?
    ensures ApplyClause(part, qc).Failure? ==> ApplyClause(part, qc).error == ClauseError(part).value
  {
  }

  /** The error of the first rejected clause, judged clause by clause on its own. */
  function FirstClauseError(parts: seq<string>): Option<ParseError> {
    if parts == [] then None
    else match ClauseError(TrimSpace(parts[0]))
      case Some(e) => Some(e)
      case None => FirstClauseError(parts[1..])
  }

  /**
   * The where-part fails exactly when some clause is rejected on its own, and
   * then with the error of the first such clause, whatever the clauses before
   * it have set.
   */
  lemma {:induction false} ClausesFailOnFirstError(parts: seq<string>, qc: QueryCondition)
    ensures ParseClauses(parts, qc).Failure? <==> FirstClauseError(parts).Some?
    ensures ParseClauses(parts, qc).Failure? ==> ParseClauses(parts, qc).error == FirstClauseError(parts).value
  {
    if parts != [] {
      ClauseStep(parts, qc);
      ClauseErrorIndependent(TrimSpace(parts[0]), qc);
      var r := ApplyClause(TrimSpace(parts[0]), qc);
      if r.Success? {
        ClausesFailOnFirstError(parts[1..], r.value);
      }
    }
  }

  /** A string occurring somewhere is contained. */
  lemma OccursContained(s: string, sub: string, i: int)
    requires OccursAt(s, sub, i)
    ensures Contains(s, sub)
  {
    IndexFirst(s, sub);
  }

  /** `like` first occurs in `key like` at position 4. */
  lemma LikeAfterKey()
    ensures forall j :: 0 <= j < |"key "| ==> !OccursAt("key " + "like", "like", j)
  {
    var s := "key " + "like";
    assert s == "key like";
    forall j | 0 <= j < 4
      ensures !OccursAt(s, "like", j)
    {
      assert s[j] != 'l';
    }
  }

  /** `like` first occurs in `value like` at position 6. */
  lemma LikeAfterValue()
    ensures forall j :: 0 <= j < |"value "| ==> !OccursAt("value " + "like", "like", j)
  {
    var s := "value " + "like";
    assert s == "value like";
    forall j | 0 <= j < 6
      ensures !OccursAt(s, "like", j)
    {
      assert s[j] != 'l' || s[j + 1] != 'i';
    }
  }

  /**
   * `key like 'p'` sets the key pattern to the compiled `p` with the regex
   * flag off, when the clause mentions neither `ttl` nor `value` and `p`
   * holds no `like` of its own.
   */
  lemma KeyLikeClause(p: string, qc: QueryCondition)
    requires !Contains("key like" + Quoted(p), "ttl") && !Contains("key like" + Quoted(p), "value")
    requires !Contains(Quoted(p), "like") && QuoteFreeEnds(p)
    ensures ApplyClause("key like" + Quoted(p), qc)
         == Success(qc.(keyPattern := SqlLikeToRegex(p), isRegexKey := false))
  {
    var clause := "key like" + Quoted(p);
    assert clause == "key " + "like" + Quoted(p);
    assert clause[..3] == "key" && clause[4..8] == "like";
    OccursContained(clause, "key", 0);
    OccursContained(clause, "like", 4);
    LikeAfterKey();
    ExtractQuotedPattern("key ", "like", p);
    KeyRoute(clause, qc);
  }

  /**
   * `value like 'p'` sets the value pattern to the compiled `p` with the regex
   * flag off, when the clause does not mention `ttl` and `p` holds no `like`.
   */
  lemma ValueLikeClause(p: string, qc: QueryCondition)
    requires !Contains("value like" + Quoted(p), "ttl")
    requires !Contains(Quoted(p), "like") && QuoteFreeEnds(p)
    ensures ApplyClause("value like" + Quoted(p), qc)
         == Success(qc.(valuePattern := SqlLikeToRegex(p), isRegexValue := false))
  {
    var clause := "value like" + Quoted(p);
    assert clause == "value " + "like" + Quoted(p);
    assert clause[..5] == "value" && clause[6..10] == "like";
    OccursContained(clause, "value", 0);
    OccursContained(clause, "like", 6);
    LikeAfterValue();
    ExtractQuotedPattern("value ", "like", p);
    ValueRoute(clause, qc);
  }

  /**
   * `... where key like 'p'`, with `where` first occurring where shown and no
   * `and` after it: the one clause sets the key pattern on top of `base`.
   */
  lemma WhereKeyLike(pre: string, p: string, base: QueryCondition)
    requires forall j :: 0 <= j < |pre| ==> !OccursAt(pre + "where", "where", j)
    requires !Contains(" key like" + Quoted(p), "and")
    requires !Contains("key like" + Quoted(p), "ttl") && !Contains("key like" + Quoted(p), "value")
    requires !Contains(Quoted(p), "like") && QuoteFreeEnds(p)
    ensures ParseWhere(pre + "where" + (" key like" + Quoted(p)), base)
         == Success(base.(keyPattern := SqlLikeToRegex(p), isRegexKey := false))
  {
    var tail := " key like" + Quoted(p);
    WhereOnlyClause(pre, tail, base);
    KeyClauseTrimmed(p);
    KeyLikeClause(p, base);
  }

  /** With `where` first occurring after `pre` and no `and` after it, the rest is one clause. */
  lemma WhereOnlyClause(pre: string, tail: string, base: QueryCondition)
    requires forall j :: 0 <= j < |pre| ==> !OccursAt(pre + "where", "where", j)
    requires !Contains(tail, "and")
    ensures ParseWhere(pre + "where" + tail, base) == ApplyClause(TrimSpace(tail), base)
  {
    var rest := pre + "where" + tail;
    FirstOccurrenceAfter(pre, "where", tail);
    assert rest[|pre| + 5..] == tail;
    SplitWithoutSeparator(tail, "and");
    WhereStartsClauses(rest, base);
  }

  lemma KeyClauseTrimmed(p: string)
    ensures TrimSpace(" key like" + Quoted(p)) == "key like" + Quoted(p)
  {
    var clause := "key like" + Quoted(p);
    assert " key like" + Quoted(p) == " " + clause;
    TrimLeftSkipsCut(" ", clause, IsSpace);
    assert clause[0] == 'k' && clause[|clause| - 1] == '\'';
  }

  /**
   * `from <conn> where key like 'p'` names the connection `conn` and selects by
   * the compiled key pattern alone.
   */
  lemma FromKeyLike(conn: string, p: string)
    requires conn != [] && SpaceFree(conn)
    requires forall j :: 0 <= j < |"from " + conn + " "| ==> !OccursAt("from " + conn + " " + "where", "where", j)
    requires !Contains(" key like" + Quoted(p), "and")
    requires !Contains("key like" + Quoted(p), "ttl") && !Contains("key like" + Quoted(p), "value")
    requires !Contains(Quoted(p), "like") && QuoteFreeEnds(p)
    ensures ParseFrom("from " + conn + " where key like" + Quoted(p))
         == Success(Unconstrained.(connectionName := conn, keyPattern := SqlLikeToRegex(p), isRegexKey := false))
  {
    var tail := " key like" + Quoted(p);
    var rest := "from " + conn + " where key like" + Quoted(p);
    assert rest == "from " + conn + " " + "where" + tail;
    assert rest == "from" + (" " + (conn + (" " + ("where" + tail))));
    assert SpaceFree("from");
    FieldThenSpace("from", conn + (" " + ("where" + tail)));
    FieldThenSpace(conn, "where" + tail);
    FromNamesConnection(rest);
    WhereKeyLike("from " + conn + " ", p, Unconstrained.(connectionName := conn));
  }

  /**
   * The query `from <conn> where key like 'p'` as typed: parsing lower-cases it,
   * so the connection named and the pattern compiled are the lower-cased `conn`
   * and `p`.
   */
  lemma ParseKeyLike(conn: string, p: string)
    requires ToLower(conn) != [] && SpaceFree(ToLower(conn))
    requires forall j :: 0 <= j < |"from " + ToLower(conn) + " "| ==> !OccursAt("from " + ToLower(conn) + " " + "where", "where", j)
    requires !Contains(" key like" + Quoted(ToLower(p)), "and")
    requires !Contains("key like" + Quoted(ToLower(p)), "ttl") && !Contains("key like" + Quoted(ToLower(p)), "value")
    requires !Contains(Quoted(ToLower(p)), "like") && QuoteFreeEnds(ToLower(p))
    ensures Parse("from " + conn + " where key like" + Quoted(p))
         == Success(Unconstrained.(connectionName := ToLower(conn), keyPattern := SqlLikeToRegex(ToLower(p)), isRegexKey := false))
  {
    var q := "from " + ToLower(conn) + " where key like" + Quoted(ToLower(p));
    NormalizeKeyLike(conn, p);
    assert q[0..4] == "from";
    OccursContained(q, "from", 0);
    IndexFirst(q, "from");
    assert q[0..] == q;
    FromKeyLike(ToLower(conn), ToLower(p));
  }

  /** Normalising the query lower-cases the connection and the pattern and trims nothing else. */
  lemma NormalizeKeyLike(conn: string, p: string)
    ensures Normalize("from " + conn + " where key like" + Quoted(p))
         == "from " + ToLower(conn) + " where key like" + Quoted(ToLower(p))
  {
    ToLowerConcat("from " + conn + " where key like" + " '" + p, "'");
    ToLowerConcat("from " + conn + " where key like" + " '", p);
    ToLowerConcat("from " + conn + " where key like", " '");
    ToLowerConcat("from " + conn, " where key like");
    ToLowerConcat("from ", conn);
    ToLowerKeeps("from ");
    ToLowerKeeps(" where key like");
    ToLowerKeeps(" '");
    ToLowerKeeps("'");
    assert "from " + conn + " where key like" + Quoted(p) == "from " + conn + " where key like" + " '" + p + "'";
    var q := "from " + ToLower(conn) + " where key like" + Quoted(ToLower(p));
    assert q == "from " + ToLower(conn) + " where key like" + " '" + ToLower(p) + "'";
    assert q[0] == 'f' && q[|q| - 1] == '\'';
    TrimSpaceKeeps(q);
  }

  /** A later clause of the same kind overwrites what an earlier one set. */
  lemma LaterClauseOverwrites(first: string, second: string, qc: QueryCondition)
    requires KindOf(first) == KindOf(second) != Ignored
    requires ApplyClause(first, qc).Success?
    ensures ApplyClause(second, ApplyClause(first, qc).value) == ApplyClause(second, qc)
  {
  }
}
