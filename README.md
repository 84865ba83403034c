# RediCLI query engine, connection registry and expiry statistics in Dafny

This project models three parts of RediCLI, a terminal client for Redis.

- **The query compiler and executor** (`windows/query.go`). `ParseQuery` lower-cases a
  `select … from <connection> [where <clause> (and <clause>)*]` statement and turns it
  into a `QueryCondition`. The condition holds a TTL operator and operand, key and value
  patterns, two raw-regex flags and the connection name. `sqlLikeToRegex` compiles SQL
  `LIKE` wildcards into anchored regular expressions. `ExecuteQuery` scans every key once.
  It keeps the keys that pass the key-pattern test, then the TTL test, then the value
  test, and returns them as a key→value map.
- **The saved-connection registry** (`windows/config.go`). It covers `saveConnection`,
  `GetConnections`, `FindConnectionByName` and `FormatConnectionsList`. It also covers
  the name check and the host/port defaults of the "Save & Connect" handler.
- **The expiry statistics** of `GetAnalytics` (`utils/webserver.go`). These are the
  `getBucket` TTL classifier and the loop that counts persistent keys, expiring keys and
  expiry buckets.

Modules:

- `Wrappers`: `Option` and `Result`.
- `GoStrings`: the parts of Go's `strings`, `unicode` and `strconv` that the parser
  uses. These are `ToLower`, `Index`/`Contains`, `Split`/`Join`, `Replace`, `Trim*`,
  `Fields`, `Atoi` and `Itoa`.
- `LikePattern`: `regexp.QuoteMeta` and `sqlLikeToRegex`. It also holds the token
  language the compiled patterns are written in (`^`, literals, `.`, `.*`, `$`), the
  RE2 meaning of those tokens, and a direct definition of SQL `LIKE`.
- `Query`: `ParseQuery` and its clause helpers.
- `Execute`: the Redis accessor as a class, and `ExecuteQuery`.
- `Config`: the connection registry as a class whose field is the connections file.
- `Analytics`: `getBucket` and the counting loop.

Modelling choices:

- `regexp.MatchString` is a parameter `rx: (string, string) -> Option<bool>`. `None`
  means the pattern does not compile. For compiled `LIKE` patterns the model assumes
  `rx` agrees with RE2 on the token language (`Execute.ReadsFragment`). In RE2, `.`
  never matches a newline, so neither `%` nor `_` covers one.
- The Go helpers update a `*QueryCondition` in place. Here they return the updated
  record, and `ParseQuery`'s loop threads it through.
- TTLs are `time.Duration` values in nanoseconds, as go-redis returns them. A key
  without expiry answers -1 ns and a missing key -2 ns. `ExecuteQuery` compares
  `int(ttl / time.Millisecond)`, which truncates toward zero. So both of those keys read
  as 0 ms (`Execute.SubMillisecondReadsAsZero`).
- The Redis connection is a class. Its fields hold whether a client exists, the reply
  to `KEYS *`, and the `GET` and `TTL` replies that succeed. A key absent from those
  maps is one whose fetch fails.
- The connections file `~/.redicli/connections.json` is a field of type `ConfigFile`.
  It is absent, unreadable, empty, undecodable, or a stored list of connections.

Data:

- `Query.QueryCondition` is the `QueryCondition` struct (windows/query.go:13-21). The
  TTL operator string is the datatype `Query.TtlOperator`, with `NoTtl` for the empty
  string. `Query.ParseError` holds the parser's error messages.
- `Config.ConnectionConfig` is the `ConnectionConfig` struct (windows/config.go:14-18).
- `Execute.RedisConnection` is the `RedisConnection` struct (utils/redis.go:11-14),
  seen through the replies of its client.
- `Analytics.TtlTally` holds the loop's `persistentCount`, `expiringCount` and
  `keyExpirations` (utils/webserver.go:183-184).

Behaviour of the code worth knowing, which the model keeps:

- The whole statement is lower-cased before anything else, so the connection name and
  every `LIKE` or `regex` pattern are lower-cased too. `key like 'User:%'` compiles to
  `^user:.*$`, which does not match the key `User:1` (`Execute.QueryKeyLikeSelection`).

- The connection name is not the token after a `from` keyword. It is the second
  whitespace field of the text that starts at the first occurrence of the substring
  `from`. Likewise, the where-part starts 5 characters after the first `where` substring.
- The where-part is cut at every occurrence of the substring `and`, including one
  inside a quoted pattern. For example, `key like 'brand:%'` is split into
  `key like 'br` and `:%'`.
- A raw `regex` pattern is not compiled while parsing. A pattern that does not compile
  silently excludes every key during the scan.
- The errors are the code's: "missing 'from' clause", "invalid query format", the
  three TTL errors, and "invalid value/key condition format".
- The value is always fetched, whether or not a value pattern is set.
- An empty connections file is saved onto as an empty list. `GetConnections` reports
  the same file as a decode error.

## Model

| member | source | states |
|---|---|---|
| `GoStrings.ToLower` | windows/query.go:25 | `strings.ToLower`, letter by letter and length-preserving, on ASCII letters |
| `GoStrings.ToLowerConcat` | windows/query.go:25 | lower-casing the whole statement lower-cases each part of it in place |
| `GoStrings.Index` | windows/query.go:29 | `strings.Index`: -1 or a position where the whole substring fits; `IndexFirst` proves it the first occurrence |
| `GoStrings.IndexFirst` | windows/query.go:29-32 | `strings.Index` is the first occurrence, and -1 exactly when there is none |
| `GoStrings.Split` | windows/query.go:50 | `strings.Split` with a non-empty separator: at least one piece; `SplitJoin` and `SplitPiecesLackSeparator` prove the pieces are the text between occurrences |
| `GoStrings.SplitJoin` | windows/query.go:50 | the pieces of `strings.Split` join back, with the separator, to the original text |
| `GoStrings.SplitPiecesLackSeparator` | windows/query.go:50 | no piece of the split where-part contains `and` |
| `GoStrings.SplitAtOnlyOccurrence` | windows/query.go:140-143 | a separator occurring once, right after `pre`, splits the text into exactly `pre` and the rest |
| `GoStrings.Fields` | windows/query.go:37 | `strings.Fields`: skips white space and takes the next maximal word, in order; `FieldsAreWords` and `WordIsMaximalPrefix` state the result |
| `GoStrings.FieldsAreWords` | windows/query.go:37 | every field of `strings.Fields` is non-empty and free of white space |
| `GoStrings.WordIsMaximalPrefix` | windows/query.go:37 | each field is a maximal run of non-space characters |
| `GoStrings.TrimSpace` | windows/query.go:53 | `strings.TrimSpace`: never longer than its input, and neither starts nor ends with white space |
| `GoStrings.TrimLeftDropsCutPrefix` | windows/query.go:144-146 | trimming removes only a prefix of cut characters and keeps the rest |
| `GoStrings.TrimRightDropsCutSuffix` | windows/query.go:144-146 | trimming removes only a suffix of cut characters and keeps the rest |
| `GoStrings.Atoi` | windows/query.go:99 | `strconv.Atoi`: an optional sign and decimal digits in the `int64` range, anything else an error; a success starts with a digit or a sign |
| `GoStrings.AtoiItoa` | windows/query.go:98-101 | `strconv.Atoi` reads back every in-range integer written in decimal |
| `GoStrings.ToLowerIdempotent` | windows/query.go:25 | lower-casing twice equals lower-casing once |
| `LikePattern.QuoteMeta` | windows/query.go:152 | `regexp.QuoteMeta`: a backslash before each metacharacter `IsMeta` names, every other character kept; `QuoteMetaIsLiteral` proves each quoted character reads back as itself |
| `LikePattern.SqlLikeToRegex` | windows/query.go:150-157 | the compiled pattern always starts with `^` and ends with `$` |
| `LikePattern.EmptyPatternCompiles` | windows/query.go:150-157 | the empty `LIKE` pattern compiles to `^$` |
| `LikePattern.CompiledTokens` | windows/query.go:150-157 | the compiled text is exactly the text of the pattern's tokens and reads back as them: metacharacters stay literals, and only `%` and `_` become wildcards |
| `LikePattern.ParseFragment` | windows/query.go:175 | the RE2 reading of a compiled pattern: `^`, escaped or plain literals, `.`, `.*`, `$`, and nothing else |
| `LikePattern.ParseRender` | windows/query.go:151-156 | the token text is unambiguous: rendering then reading gives back the tokens |
| `LikePattern.QuoteMetaIsLiteral` | windows/query.go:152 | `regexp.QuoteMeta` output reads as the literal characters of its input |
| `LikePattern.LikeMatch` | windows/query.go:150-157 | SQL `LIKE` defined directly: `%` any run and `_` one character, neither a newline, every other character itself; the reference the compiled pattern is proved against |
| `LikePattern.LikeSearch` | windows/query.go:150-157 | an unanchored RE2 search with a compiled `LIKE` pattern holds exactly when the whole string is `LIKE` the pattern |
| `LikePattern.EmptyPatternMatchesEmpty` | windows/query.go:150-157 | the empty pattern matches `""` and nothing else |
| `LikePattern.LiteralPattern` | windows/query.go:151-156 | a pattern without `%` or `_` matches exactly itself, not a string that merely contains it |
| `LikePattern.PrefixPercentSuffix` | windows/query.go:154 | `a%b` matches exactly the strings that start with `a` and end with `b`, without overlap and with no newline between |
| `LikePattern.PrefixUnderscoreSuffix` | windows/query.go:155 | in `a_b`, `_` consumes exactly one character, never a newline |
| `LikePattern.PercentStep` | windows/query.go:154 | `%` covers either nothing or one more non-newline character |
| `Query.ParseTtlCondition` | windows/query.go:83-107 | fewer than 3 fields, an operator other than exactly `>`, `<`, `==`, or a non-integer third field each fail with their own error; success sets the operator named by the second field and the integer the third field reads as, and changes nothing else |
| `Query.TtlClauseRoundTrip` | windows/query.go:83-107 | `ttl <op> <n>` parses back to that operator and value |
| `Query.UnknownOperatorRejected` | windows/query.go:91-96 | any other operator word, such as `>>`, is rejected with that word |
| `Query.ExtractPattern` | windows/query.go:139-148 | the result is `""` unless the keyword splits the clause in exactly two, and never starts or ends with a quote |
| `Query.TrimQuoted` | windows/query.go:144-146 | `'p'` after a space trims back to `p` when `p` neither starts nor ends with a quote |
| `Query.ExtractQuotedPattern` | windows/query.go:139-148 | for `pre keyword 'p'` with the keyword occurring only there, the pattern extracted is exactly `p` |
| `Query.PatternClause` | windows/query.go:109-137 | `like` wins over `regex`: the regex flag is set exactly when `like` is absent; a `like` clause yields the compiled pattern after `like`, a `regex` clause the raw text after `regex`, and only a clause with neither fails |
| `Query.KeyLikeClause` | windows/query.go:124-137 | the clause `key like 'p'` sets the key pattern to the compiled `p` with the flag off and changes nothing else |
| `Query.ValueLikeClause` | windows/query.go:109-122 | the clause `value like 'p'` sets the value pattern to the compiled `p` with the flag off and changes nothing else |
| `Query.WhereOnlyClause` | windows/query.go:44-53 | with one `where` and no `and` after it, the where-part is a single trimmed clause |
| `Query.WhereKeyLike` | windows/query.go:43-78 | `... where key like 'p'` parses to the base condition with the key pattern set to the compiled `p` |
| `Query.FromKeyLike` | windows/query.go:34-78 | the from-part `from <conn> where key like 'p'`, as it stands after lower-casing, names `conn` and sets only the compiled key pattern |
| `Query.NormalizeKeyLike` | windows/query.go:25 | normalising `from <conn> where key like 'p'` lower-cases `conn` and `p` and trims nothing |
| `Query.ParseKeyLike` | windows/query.go:24-78 | the typed query `from <conn> where key like 'p'` parses to the lower-cased `conn` and the compiled lower-cased `p` as key pattern, nothing else |
| `Query.ParseValueCondition` | windows/query.go:109-122 | fails exactly when neither `like` nor `regex` occurs; success changes only the value pattern and its flag |
| `Query.ParseKeyCondition` | windows/query.go:124-137 | fails exactly when neither `like` nor `regex` occurs; success changes only the key pattern and its flag |
| `Query.KindOf` | windows/query.go:55-77 | which helper a trimmed clause goes to, by substring: `ttl`, then `value`, then `key`, else none |
| `Query.ClauseKindPriority` | windows/query.go:55-77 | each helper is chosen exactly when its word occurs and no earlier-tested word does; a clause with none of the words is ignored |
| `Query.ApplyClause` | windows/query.go:55-77 | one clause applied to the condition so far, through the helper `KindOf` names; an ignored clause changes nothing |
| `Query.IgnoredClauseSkipped` | windows/query.go:52-78 | a part containing none of `ttl`, `value`, `key` is ignored |
| `Query.TtlRoute` | windows/query.go:56-62 | a part containing `ttl` goes to the TTL helper, whatever else it contains |
| `Query.ValueRoute` | windows/query.go:64-70 | a part with `value` and without `ttl` goes to the value helper |
| `Query.KeyRoute` | windows/query.go:72-78 | a part with `key` and neither `ttl` nor `value` goes to the key helper |
| `Query.ParseClauses` | windows/query.go:52-78 | the clauses applied in order, each trimmed, stopping at the first error |
| `Query.LaterClauseOverwrites` | windows/query.go:52-78 | a later clause of the same kind overwrites what an earlier one set |
| `Query.ClausesFailOnFirstError` | windows/query.go:52-78 | the where-part fails exactly when some clause is rejected, with the first such clause's error |
| `Query.ClauseErrorsOnly` | windows/query.go:52-78 | the where-part reports only clause errors |
| `Query.ClausesKeepConnection` | windows/query.go:52-78 | no clause changes the connection name |
| `Query.Normalize` | windows/query.go:25 | the statement lower-cased, then trimmed of outer white space |
| `Query.Parse` | windows/query.go:24-81 | what `ParseQuery` returns: the normalised statement parsed from its first `from`, or the missing-`from` error |
| `Query.ParseNormalized` | windows/query.go:29-34 | the first `from` in the normalised statement starts the part that is parsed |
| `Query.ParseFrom` | windows/query.go:37-41 | fewer than two fields is the format error; otherwise the second field names the connection |
| `Query.ParseWhere` | windows/query.go:44-50 | without `where` the condition is done; otherwise the clauses are the text 5 characters after it, cut at each `and` |
| `Query.ParseMissingFrom` | windows/query.go:29-32 | the parse fails with the missing-`from` error exactly when `from` does not occur in the lower-cased query |
| `Query.ParseInvalidFormat` | windows/query.go:37-40 | with `from` but fewer than two fields from it on, the query is malformed |
| `Query.ParseConnection` | windows/query.go:33-47 | a successful parse names the second field from `from` on as the connection; without `where` nothing else is set |
| `Query.ParseIgnoresCase` | windows/query.go:25 | the query is lower-cased first, so parsing does not depend on case |
| `Query.ParseQuery` | windows/query.go:24-81 | the method computes the parse: `from`, the connection name, then the where-part |
| `Query.ParseWherePart` | windows/query.go:44-50 | without `where` the condition stands; otherwise the clauses after it are parsed |
| `Query.ParseConditions` | windows/query.go:52-80 | the loop trims each `and`-separated part, routes it by priority and stops at the first error |
| `Execute.ToMillis` | windows/query.go:188 | the duration is truncated toward zero to whole milliseconds |
| `Execute.SubMillisecondReadsAsZero` | windows/query.go:188 | durations shorter than a millisecond either way, such as the -1 and -2 sentinels, read as 0 ms |
| `Execute.RedisConnection.IsConnected` | utils/redis.go:45-47 | whether a client exists |
| `Execute.RedisConnection.GetAllKeys` | utils/redis.go:49-55 | fails with not-connected without a client, otherwise returns the `KEYS *` reply or its error |
| `Execute.RedisConnection.GetValue` | utils/redis.go:57-63 | fails with not-connected without a client, otherwise returns the stored value or fails |
| `Execute.RedisConnection.GetTTL` | utils/redis.go:65-71 | fails with not-connected without a client, otherwise returns the TTL or fails |
| `Execute.KeyPasses` | windows/query.go:173-179 | no key pattern, or the pattern compiles and matches the key |
| `Execute.TtlPasses` | windows/query.go:181-203 | no TTL operator, or the TTL is fetched and its truncated milliseconds compare strictly (`>`, `<`) or exactly (`==`) |
| `Execute.ValuePasses` | windows/query.go:205-225 | the value is fetched and, with a value pattern, the pattern compiles and matches it |
| `Execute.Admits` | windows/query.go:172-225 | a listed key is kept when it passes the key, TTL and value tests in turn |
| `Execute.Selection` | windows/query.go:172-226 | the result map after scanning the keys in order: each admitted key mapped to its fetched value; `SelectionMember` states its membership |
| `Execute.Examine` | windows/query.go:172-225 | one key is kept exactly when it passes the key, TTL and value tests, with its fetched value |
| `Execute.ExecuteQuery` | windows/query.go:160-229 | not connected fails before scanning, a failed listing passes on its error, and otherwise the result is the selection over the listed keys |
| `Execute.SelectionMember` | windows/query.go:172-225 | a key is in the result exactly when it is listed and admitted, and its value is the fetched value |
| `Execute.UnconstrainedSelectsFetchable` | windows/query.go:44-47 | with no where-part every listed key whose value fetch succeeds is returned |
| `Execute.TtlSelection` | windows/query.go:182-203 | `>` and `<` are strict and `==` exact on the TTL truncated to milliseconds; a failed TTL fetch excludes the key |
| `Execute.KeyMismatchExcluded` | windows/query.go:173-179 | a key pattern that does not match, or does not compile, excludes the key |
| `Execute.TtlFetchFailureExcluded` | windows/query.go:183-186 | a key whose TTL fetch fails is excluded by a TTL condition |
| `Execute.ValueMismatchExcluded` | windows/query.go:206-216 | a failed value fetch, or a value pattern that does not match or compile, excludes the key |
| `Execute.SelectionIgnoresNameAndFlags` | windows/query.go:160-229 | the scan does not read the connection name or the regex flags |
| `Execute.CompiledLikeMatches` | windows/query.go:150-157 | a compiled `LIKE` pattern, matched by RE2, is `LIKE` on the whole string |
| `Execute.KeyLikeSelection` | windows/query.go:173-179 | `key like 'p'` alone selects exactly the listed, fetchable keys that are `LIKE` `p` |
| `Execute.ValueLikeSelection` | windows/query.go:206-217 | `value like 'p'` alone selects exactly the listed keys whose value is `LIKE` `p` |
| `Execute.FromKeyLikeSelection` | windows/query.go:34-179 | the from-part `from <conn> where key like 'p'`, as it stands after lower-casing, parses, names `conn`, and selects exactly the listed, fetchable keys that are `LIKE` `p` |
| `Execute.QueryKeyLikeSelection` | windows/query.go:24-229 | the typed query `from <conn> where key like 'p'` parses, names the lower-cased `conn`, and selects exactly the listed, fetchable keys that are `LIKE` the lower-cased `p` |
| `Config.ReadConnections` | windows/config.go:68-84 | an absent file is the empty list, a stored list is returned, and other read or decode errors propagate |
| `Config.ExistingConnections` | windows/config.go:36-47 | the save starts from no connections for an absent or empty file, and fails on other errors |
| `Config.EmptyFileReadsDiffer` | windows/config.go:44-46 | an empty file is saved onto but rejected by `GetConnections` |
| `Config.FirstNamed` | windows/config.go:92-96 | the position of the first entry with the name; no earlier entry has it |
| `Config.Lookup` | windows/config.go:92-98 | finds an entry exactly when one has the name, and the one found is the first with it |
| `Config.LookupFindsFirst` | windows/config.go:92-98 | the entry at the first position holding the name is the one found, whatever follows |
| `Config.SaveAppends` | windows/config.go:49-57 | a taken name is refused with the duplicate error; otherwise the old list is kept in order and the new entry follows it |
| `Config.SaveKeepsNamesUnique` | windows/config.go:49-57 | names unique before a save are unique after it |
| `Config.SaveThenFind` | windows/config.go:49-57 | after a save, looking the new name up finds the new entry |
| `Config.SaveKeepsOtherLookups` | windows/config.go:56 | a save does not change what any other name looks up to |
| `Config.SaveOutcome` | windows/config.go:28-66 | a failed directory creation comes first, then a read or decode error, then a taken name, then a failed write; only when none happens is the result the old list with the new entry appended |
| `Config.FormConfig` | windows/config.go:154-172 | an empty name is refused; an empty host becomes `localhost` and an empty port `6379`; given values are kept |
| `Config.FormDefaultsSettle` | windows/config.go:154-172 | submitting the defaulted fields again gives the same configuration |
| `Config.FormattedLineCount` | windows/config.go:101-112 | when no field holds a line break, the text has no line break for no connections, and otherwise one for the header plus one per connection |
| `Config.ListStartsWithFirst` | windows/config.go:107-110 | the lines start with the first connection's line, in list order |
| `Config.FormatConnectionsList` | windows/config.go:101-113 | the fixed "No saved connections found" line for an empty list, otherwise the header then one `• [green]name[white]: host:port` line per connection in order |
| `Config.ConnectionStore.GetConnections` | windows/config.go:68-84 | returns the read list, the empty list for an absent file, or the error |
| `Config.ConnectionStore.FindConnectionByName` | windows/config.go:86-99 | passes on a read error, returns the first entry with the name, or the not-found error |
| `Config.ConnectionStore.SaveConnection` | windows/config.go:28-66 | a directory, read, decode, duplicate or write failure is returned and leaves the file unchanged; otherwise the file holds the old list with the new entry appended |
| `Config.ConnectionStore.SubmitForm` | windows/config.go:154-179 | an empty name stops before the file is touched; otherwise the defaulted configuration is saved |
| `Analytics.GetBucket` | utils/webserver.go:264-271 | `< 1 min` exactly for ttl ≤ 1 minute, `1-10 min` exactly for 1 < ttl ≤ 10 minutes, `> 10 min` otherwise, and always one of the three |
| `Analytics.BucketMonotone` | utils/webserver.go:264-271 | a longer TTL never falls in an earlier bucket |
| `Analytics.Bump` | utils/webserver.go:201 | `keyExpirations[bucket]++` adds one to that bucket, reading 0 when absent, and changes no other |
| `Analytics.Count` | utils/webserver.go:196-203 | one key's TTL reply added to the counters: -1 persistent, positive expiring and its bucket, anything else nowhere |
| `Analytics.Tally` | utils/webserver.go:195-204 | the counters after all TTL replies in order, from zero; `TallyCounts` proves them equal to independent counts |
| `Analytics.PersistentStep` | utils/webserver.go:197-198 | a -1 TTL increments only the persistent count |
| `Analytics.ExpiringStep` | utils/webserver.go:199-202 | a positive TTL increments the expiring count and exactly the one bucket `getBucket` names |
| `Analytics.IgnoredStep` | utils/webserver.go:196-203 | a TTL that is neither -1 nor positive is counted nowhere |
| `Analytics.TallyCounts` | utils/webserver.go:183-214 | the counters equal the number of -1 replies, of positive replies, and of positive replies per bucket; no other bucket appears |
| `Analytics.BucketsSumToExpiring` | utils/webserver.go:183-214 | the bucket counts sum to the expiring count |
| `Analytics.CountedAtMostScanned` | utils/webserver.go:183-214 | persistent plus expiring keys are at most the keys scanned |
| `Analytics.CountExpirations` | utils/webserver.go:195-204 | the loop computes the counters of the reply sequence, key by key in order |

## Left out

- UPDATE and DELETE statements. No parser or executor for them exists in the source,
  so there is nothing to model.
- The terminal UI: the tview forms and panes, the Lua editor, command history,
  suggestions and focus cycling. It is widget plumbing.
- go-redis itself. It is the `RedisConnection` class, whose fields stand for the
  server's replies; `Connect`, `Close` and `ExecuteCommand` are not modelled.
- Full RE2. `regexp.MatchString` is the parameter `rx`. Only the token language of
  compiled `LIKE` patterns gets a concrete meaning; raw `regex` patterns stay abstract.
- `Execute.CompiledLikeMatches`: holds only for a matcher that agrees with RE2 on the
  `LIKE` token language (`Execute.ReadsFragment`), because RE2 is not modelled.
- `GoStrings.ToLower`: maps only ASCII letters. Go's Unicode case mapping of other
  letters is not modelled.
- `Config.ConnectionStore.SubmitForm`: stops after the save. The `redis.Connect` call
  and the log messages that follow it are network I/O and UI output.
- The JSON encoding and decoding of the connections file and the home-directory lookup.
  The file is the `ConfigFile` value; whether `os.MkdirAll` and `os.WriteFile` succeed
  are the fields `canCreateDir` and `canWrite` of `Config.ConnectionStore`.
- `Config.ConnectionStore.SaveConnection`: a failed write leaves the file as it was.
  `os.WriteFile` may have truncated or partly written it; that state is not modelled.
  A failing `json.MarshalIndent` is not modelled either, because a list of string
  records always encodes.
- The goroutines, mutex, wait group and context timeout of `GetAnalytics`, and the
  DB-size and memory-info queries. Only the sequential counting loop is kept.
- The Redis `SCAN` cursor. `Analytics.CountExpirations` takes the TTL replies of all
  pages laid end to end. A failed `TTL` call reads as the zero duration, which is
  counted nowhere.
- `Analytics.CountExpirations`: the counters are unbounded integers; the `int64`
  overflow of the source is not modelled, because it needs more than 2^63 keys.
- The HTTP and WebSocket server, `openBrowser`, the pub/sub monitor, CSV/XLSX import
  and export, and `fuzzy.Match`. These are I/O or foreign libraries.
- `windows/form.go`. It refers to an undefined type and redeclares `ConnectionForm`,
  so it cannot compile.
