/**
 * The scan-and-filter executor of windows/query.go (`ExecuteQuery`) over the
 * Redis accessor of utils/redis.go.
 *
 * The connection is a class whose fields stand for what the server would
 * answer: whether a client exists, the reply to `KEYS *`, and the `GET` and
 * `TTL` replies that succeed (a key missing from `values` or `ttls` is one
 * whose fetch fails). `regexp.MatchString` is the parameter `rx`; `None` is a
 * pattern that does not compile.
 */
module Execute {
  import opened Wrappers
  import opened GoStrings
  import opened LikePattern
  import opened Query

  /** `regexp.MatchString(pattern, s)`: None when `pattern` does not compile. */
  type Matcher = (string, string) -> Option<bool>

  datatype RedisError =
    | NotConnected     // "not connected to Redis"
    | CommandFailed    // an error reply or transport error from the server

  /** Nanoseconds in a millisecond (`time.Millisecond`). */
  const NanosPerMilli := 1_000_000

  /**
   * `int(ttl / time.Millisecond)` for a `time.Duration` in nanoseconds: Go's
   * integer division truncates toward zero.
   */
  function ToMillis(ttl: int): (ms: int)
    ensures ttl >= 0 ==> 0 <= ms && ms * NanosPerMilli <= ttl < (ms + 1) * NanosPerMilli
    ensures ttl < 0 ==> ms <= 0 && (ms - 1) * NanosPerMilli < ttl <= ms * NanosPerMilli
  {
    if ttl >= 0 then ttl / NanosPerMilli else -((-ttl) / NanosPerMilli)
  }

  /** A duration shorter than a millisecond either way, such as -1ns or -2ns, reads as 0 ms. */
  lemma SubMillisecondReadsAsZero(ttl: int)
    requires -NanosPerMilli < ttl < NanosPerMilli
    ensures ToMillis(ttl) == 0
  {
  }

  /** `RedisConnection`: a client, and the replies the server gives. */
  class RedisConnection {
    var connected: bool                  // client != nil
    var listing: Option<seq<string>>     // reply to KEYS *; None when it fails
    var values: map<string, string>      // GET replies that succeed
    var ttls: map<string, int>           // TTL replies that succeed, in nanoseconds

    constructor (connected: bool, listing: Option<seq<string>>, values: map<string, string>, ttls: map<string, int>)
      ensures this.connected == connected && this.listing == listing
      ensures this.values == values && this.ttls == ttls
    {
      this.connected := connected;
      this.listing := listing;
      this.values := values;
      this.ttls := ttls;
    }

    /** `IsConnected`: a client exists. */
    function IsConnected(): bool
      reads this
    {
      connected
    }

    /** `GetAllKeys`: fails without a client, otherwise the reply to `KEYS *`. */
    method GetAllKeys() returns (r: Result<seq<string>, RedisError>)
      ensures !connected ==> r == Failure(NotConnected)
      ensures connected ==> (r.Success? <==> listing.Some?)
      ensures connected && r.Success? ==> r.value == listing.value
      ensures connected && r.Failure? ==> r.error == CommandFailed
    {
      if !connected {
        return Failure(NotConnected);
      }
      match listing
      case Some(keys) => r := Success(keys);
      case None => r := Failure(CommandFailed);
    }

    /** `GetValue`: fails without a client or when `GET` fails. */
    method GetValue(key: string) returns (r: Result<string, RedisError>)
      ensures !connected ==> r == Failure(NotConnected)
      ensures connected ==> (r.Success? <==> key in values)
      ensures connected && r.Success? ==> r.value == values[key]
    {
      if !connected {
        return Failure(NotConnected);
      }
      if key in values {
        r := Success(values[key]);
      } else {
        r := Failure(CommandFailed);
      }
    }

    /** `GetTTL`: fails without a client or when `TTL` fails. */
    method GetTTL(key: string) returns (r: Result<int, RedisError>)
      ensures !connected ==> r == Failure(NotConnected)
      ensures connected ==> (r.Success? <==> key in ttls)
      ensures connected && r.Success? ==> r.value == ttls[key]
    {
      if !connected {
        return Failure(NotConnected);
      }
      if key in ttls {
        r := Success(ttls[key]);
      } else {
        r := Failure(CommandFailed);
      }
    }
  }

  // ---------------------------------------------------------------------------
  // Which keys a condition keeps

  /** The key test: no key pattern, or the pattern compiles and matches the key. */
  predicate KeyPasses(cond: QueryCondition, rx: Matcher, key: string) {
    cond.keyPattern == "" || rx(cond.keyPattern, key) == Some(true)
  }

  /** The TTL comparison: `>` and `<` are strict, `==` exact. */
  predicate TtlHolds(op: TtlOperator, ms: int, bound: int) {
    match op
    case NoTtl => true
    case Greater => ms > bound
    case Less => ms < bound
    case Equal => ms == bound
  }

  /** The TTL test: no operator, or the TTL is fetched and, in milliseconds, compares. */
  predicate TtlPasses(cond: QueryCondition, key: string, ttls: map<string, int>) {
    cond.ttlOperator == NoTtl
    || (key in ttls && TtlHolds(cond.ttlOperator, ToMillis(ttls[key]), cond.ttlValue))
  }

  /** The value test: the value is fetched and, with a value pattern, the pattern compiles and matches. */
  predicate ValuePasses(cond: QueryCondition, rx: Matcher, key: string, values: map<string, string>) {
    key in values && (cond.valuePattern == "" || rx(cond.valuePattern, values[key]) == Some(true))
  }

  /** A listed key is kept when it passes the key, TTL and value tests. */
  predicate Admits(cond: QueryCondition, rx: Matcher, key: string, values: map<string, string>, ttls: map<string, int>) {
    KeyPasses(cond, rx, key) && TtlPasses(cond, key, ttls) && ValuePasses(cond, rx, key, values)
  }

  /** The result map after scanning `keys` in order. */
  function Selection(cond: QueryCondition, rx: Matcher, keys: seq<string>,
                     values: map<string, string>, ttls: map<string, int>): map<string, string>
    decreases |keys|
  {
    if keys == [] then map[]
    else
      var before := Selection(cond, rx, keys[..|keys| - 1], values, ttls);
      var key := keys[|keys| - 1];
      if Admits(cond, rx, key, values, ttls) then before[key := values[key]] else before
  }

  // ---------------------------------------------------------------------------
  // ExecuteQuery

  /**
   * The body of the scan for one key: the key test, then (fetching the TTL
   * only if there is an operator) the TTL test, then the value fetch and test.
   * None is a key the scan skips.
   */
  method Examine(redis: RedisConnection, cond: QueryCondition, rx: Matcher, key: string)
      returns (entry: Option<string>)
    requires redis.connected
    ensures entry.Some? <==> Admits(cond, rx, key, redis.values, redis.ttls)
    ensures entry.Some? ==> entry.value == redis.values[key]
  {
    if cond.keyPattern != "" {
      var matched := rx(cond.keyPattern, key);
      if matched != Some(true) {
        return None;
      }
    }
    if cond.ttlOperator != NoTtl {
      var ttl := redis.GetTTL(key);
      if ttl.Failure? {
        return None;
      }
      var ttlMs := ToMillis(ttl.value);
      match cond.ttlOperator
      case Greater =>
        if ttlMs <= cond.ttlValue {
          return None;
        }
      case Less =>
        if ttlMs >= cond.ttlValue {
          return None;
        }
      case Equal =>
        if ttlMs != cond.ttlValue {
          return None;
        }
      case NoTtl =>
    }
    if cond.valuePattern != "" {
      var value := redis.GetValue(key);
      if value.Failure? {
        return None;
      }
      var matched := rx(cond.valuePattern, value.value);
      if matched != Some(true) {
        return None;
      }
      entry := Some(value.value);
    } else {
      var value := redis.GetValue(key);
      if value.Failure? {
        return None;
      }
      entry := Some(value.value);
    }
  }

  /**
   * `ExecuteQuery`: fails without a client, passes on the error of `KEYS *`,
   * and otherwise scans every listed key once, keeping those the condition admits.
   */
  method ExecuteQuery(redis: RedisConnection, cond: QueryCondition, rx: Matcher)
      returns (r: Result<map<string, string>, RedisError>)
    ensures !redis.connected ==> r == Failure(NotConnected)
    ensures redis.connected && redis.listing.None? ==> r == Failure(CommandFailed)
    ensures redis.connected && redis.listing.Some? ==>
      r == Success(Selection(cond, rx, redis.listing.value, redis.values, redis.ttls))
  {
    if !redis.IsConnected() {
      return Failure(NotConnected);
    }
    var listed := redis.GetAllKeys();
    if listed.Failure? {
      return Failure(listed.error);
    }
    var keys := listed.value;
    var results := map[];
    for i := 0 to |keys|
      invariant results == Selection(cond, rx, keys[..i], redis.values, redis.ttls)
    {
      var key := keys[i];
      var entry := Examine(redis, cond, rx, key);
      assert keys[..i + 1][..i] == keys[..i];
      if entry.Some? {
        results := results[key := entry.value];
      }
    }
    assert keys[..|keys|] == keys;
    return Success(results);
  }

  // ---------------------------------------------------------------------------
  // What the scan selects

  /**
   * A key is in the result exactly when it is listed and admitted, and its
   * value is what `GET` returns for it.
   */
  lemma {:induction false} SelectionMember(cond: QueryCondition, rx: Matcher, keys: seq<string>,
                                           values: map<string, string>, ttls: map<string, int>, k: string)
    ensures k in Selection(cond, rx, keys, values, ttls) <==> k in keys && Admits(cond, rx, k, values, ttls)
    ensures k in Selection(cond, rx, keys, values, ttls) ==> k in values && Selection(cond, rx, keys, values, ttls)[k] == values[k]
    decreases |keys|
  {
    if keys != [] {
      var init := keys[..|keys| - 1];
      SelectionMember(cond, rx, init, values, ttls, k);
      assert keys == init + [keys[|keys| - 1]];
    }
  }

  /** Without a where-part every listed key whose value can be fetched is selected. */
  lemma {:induction false} UnconstrainedSelectsFetchable(name: string, rx: Matcher, keys: seq<string>,
                                                         values: map<string, string>, ttls: map<string, int>, k: string)
    ensures k in Selection(Unconstrained.(connectionName := name), rx, keys, values, ttls) <==> k in keys && k in values
  {
    SelectionMember(Unconstrained.(connectionName := name), rx, keys, values, ttls, k);
  }

  /**
   * A TTL condition alone keeps the listed, fetchable keys whose TTL, truncated
   * to milliseconds, compares strictly (`>`, `<`) or exactly (`==`).
   */
  lemma {:induction false} TtlSelection(cond: QueryCondition, rx: Matcher, keys: seq<string>,
                                        values: map<string, string>, ttls: map<string, int>, k: string)
    requires cond.keyPattern == "" && cond.valuePattern == "" && cond.ttlOperator != NoTtl
    ensures k in Selection(cond, rx, keys, values, ttls) <==>
      k in keys && k in values && k in ttls &&
      match cond.ttlOperator
      case Greater => ToMillis(ttls[k]) > cond.ttlValue
      case Less => ToMillis(ttls[k]) < cond.ttlValue
      case Equal => ToMillis(ttls[k]) == cond.ttlValue
      case NoTtl => false
  {
    SelectionMember(cond, rx, keys, values, ttls, k);
  }

  /** A key whose pattern test fails, or whose pattern does not compile, is never selected. */
  lemma {:induction false} KeyMismatchExcluded(cond: QueryCondition, rx: Matcher, keys: seq<string>,
                                               values: map<string, string>, ttls: map<string, int>, k: string)
    requires cond.keyPattern != "" && rx(cond.keyPattern, k) != Some(true)
    ensures k !in Selection(cond, rx, keys, values, ttls)
  {
    SelectionMember(cond, rx, keys, values, ttls, k);
  }

  /** A key whose TTL cannot be fetched is never selected by a TTL condition. */
  lemma {:induction false} TtlFetchFailureExcluded(cond: QueryCondition, rx: Matcher, keys: seq<string>,
                                                   values: map<string, string>, ttls: map<string, int>, k: string)
    requires cond.ttlOperator != NoTtl && k !in ttls
    ensures k !in Selection(cond, rx, keys, values, ttls)
  {
    SelectionMember(cond, rx, keys, values, ttls, k);
  }

  /** A value that does not match the value pattern, or that cannot be fetched, excludes the key. */
  lemma {:induction false} ValueMismatchExcluded(cond: QueryCondition, rx: Matcher, keys: seq<string>,
                                                 values: map<string, string>, ttls: map<string, int>, k: string)
    requires k !in values || (cond.valuePattern != "" && rx(cond.valuePattern, values[k]) != Some(true))
    ensures k !in Selection(cond, rx, keys, values, ttls)
  {
    SelectionMember(cond, rx, keys, values, ttls, k);
  }

  /** The scan consults neither the connection name nor the regex flags of the condition. */
  lemma {:induction false} SelectionIgnoresNameAndFlags(cond: QueryCondition, rx: Matcher, keys: seq<string>,
                                                        values: map<string, string>, ttls: map<string, int>,
                                                        name: string, regexKey: bool, regexValue: bool)
    ensures Selection(cond.(connectionName := name, isRegexKey := regexKey, isRegexValue := regexValue), rx, keys, values, ttls)
         == Selection(cond, rx, keys, values, ttls)
    decreases |keys|
  {
    if keys != [] {
      SelectionIgnoresNameAndFlags(cond, rx, keys[..|keys| - 1], values, ttls, name, regexKey, regexValue);
    }
  }

  // ---------------------------------------------------------------------------
  // LIKE patterns in the scan

  /** `rx` is RE2 on every pattern in the fragment compiled LIKE patterns are written in. */
  ghost predicate ReadsFragment(rx: Matcher) {
    forall re, s :: ParseFragment(re).Some? ==> rx(re, s) == Some(Search(ParseFragment(re).value, s))
  }

  /** A compiled LIKE pattern, matched by RE2, is SQL LIKE on the whole string. */
  lemma CompiledLikeMatches(rx: Matcher, pattern: string, s: string)
    requires ReadsFragment(rx)
    ensures rx(SqlLikeToRegex(pattern), s) == Some(LikeMatch(pattern, s))
  {
    CompiledTokens(pattern);
    LikeSearch(pattern, s);
  }

  /**
   * `key like 'p'` alone selects exactly the listed, fetchable keys that are
   * LIKE `p` as a whole (not merely containing a match).
   */
  lemma KeyLikeSelection(cond: QueryCondition, rx: Matcher, pattern: string, keys: seq<string>,
                         values: map<string, string>, ttls: map<string, int>, k: string)
    requires ReadsFragment(rx)
    requires cond.keyPattern == SqlLikeToRegex(pattern) && cond.valuePattern == "" && cond.ttlOperator == NoTtl
    ensures k in Selection(cond, rx, keys, values, ttls) <==> k in keys && k in values && LikeMatch(pattern, k)
  {
    SelectionMember(cond, rx, keys, values, ttls, k);
    CompiledLikeMatches(rx, pattern, k);
  }

  /** `value like 'p'` alone selects exactly the listed keys whose fetched value is LIKE `p`. */
  lemma ValueLikeSelection(cond: QueryCondition, rx: Matcher, pattern: string, keys: seq<string>,
                           values: map<string, string>, ttls: map<string, int>, k: string)
    requires ReadsFragment(rx)
    requires cond.valuePattern == SqlLikeToRegex(pattern) && cond.keyPattern == "" && cond.ttlOperator == NoTtl
    ensures k in Selection(cond, rx, keys, values, ttls) <==> k in keys && k in values && LikeMatch(pattern, values[k])
  {
    SelectionMember(cond, rx, keys, values, ttls, k);
    if k in values {
      CompiledLikeMatches(rx, pattern, values[k]);
    }
  }

  /**
   * End to end: `from <conn> where key like 'p'` selects exactly the listed
   * keys with a fetched value whose name is LIKE `p`.
   */
  lemma FromKeyLikeSelection(conn: string, p: string, rx: Matcher, keys: seq<string>,
                             values: map<string, string>, ttls: map<string, int>, k: string)
    requires ReadsFragment(rx)
    requires conn != [] && SpaceFree(conn)
    requires forall j :: 0 <= j < |"from " + conn + " "| ==> !OccursAt("from " + conn + " " + "where", "where", j)
    requires !Contains(" key like" + Quoted(p), "and")
    requires !Contains("key like" + Quoted(p), "ttl") && !Contains("key like" + Quoted(p), "value")
    requires !Contains(Quoted(p), "like") && QuoteFreeEnds(p)
    ensures ParseFrom("from " + conn + " where key like" + Quoted(p)).Success?
    ensures var cond := ParseFrom("from " + conn + " where key like" + Quoted(p)).value;
      && cond.connectionName == conn
      && (k in Selection(cond, rx, keys, values, ttls) <==> k in keys && k in values && LikeMatch(p, k))
  {
    FromKeyLike(conn, p);
    var cond := ParseFrom("from " + conn + " where key like" + Quoted(p)).value;
    KeyLikeSelection(cond, rx, p, keys, values, ttls, k);
  }

  /**
   * End to end from the typed query: `from <conn> where key like 'p'` parses,
   * names the lower-cased `conn`, and selects exactly the listed keys with a
   * fetched value whose name is LIKE the lower-cased `p`.
   */
  lemma QueryKeyLikeSelection(conn: string, p: string, rx: Matcher, keys: seq<string>,
                              values: map<string, string>, ttls: map<string, int>, k: string)
    requires ReadsFragment(rx)
    requires ToLower(conn) != [] && SpaceFree(ToLower(conn))
    requires forall j :: 0 <= j < |"from " + ToLower(conn) + " "| ==> !OccursAt("from " + ToLower(conn) + " " + "where", "where", j)
    requires !Contains(" key like" + Quoted(ToLower(p)), "and")
    requires !Contains("key like" + Quoted(ToLower(p)), "ttl") && !Contains("key like" + Quoted(ToLower(p)), "value")
    requires !Contains(Quoted(ToLower(p)), "like") && QuoteFreeEnds(ToLower(p))
    ensures Parse("from " + conn + " where key like" + Quoted(p)).Success?
    ensures var cond := Parse("from " + conn + " where key like" + Quoted(p)).value;
      && cond.connectionName == ToLower(conn)
      && (k in Selection(cond, rx, keys, values, ttls) <==> k in keys && k in values && LikeMatch(ToLower(p), k))
  {
    ParseKeyLike(conn, p);
    var cond := Parse("from " + conn + " where key like" + Quoted(p)).value;
    KeyLikeSelection(cond, rx, ToLower(p), keys, values, ttls, k);
  }
}
