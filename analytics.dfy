/**
 * The key-expiry statistics of `GetAnalytics` in utils/webserver.go: the TTL
 * classifier `getBucket` and the loop that tallies persistent keys, expiring
 * keys and expiry buckets over the TTL replies of a key scan.
 *
 * TTLs are `time.Duration` values in nanoseconds, as go-redis returns them:
 * a key without expiry answers the raw sentinel -1 (one nanosecond below
 * zero), a missing key -2, and a failed `TTL` call the zero duration.
 */
module Analytics {

  /** `time.Minute` in nanoseconds. */
  const Minute: int := 60 * 1_000_000_000

  /** The go-redis reply for a key that exists without an expiry. */
  const Persistent: int := -1

  const UnderOneMinute := "< 1 min"
  const OneToTenMinutes := "1-10 min"
  const OverTenMinutes := "> 10 min"

  /** The three bucket labels. */
  predicate IsLabel(b: string) {
    b == UnderOneMinute || b == OneToTenMinutes || b == OverTenMinutes
  }

  /**
   * `getBucket`: up to a minute, over a minute up to ten, or over ten minutes;
   * each bound belongs to the lower bucket.
   */
  function GetBucket(ttl: int): (b: string)
    ensures IsLabel(b)
    ensures b == UnderOneMinute <==> ttl <= Minute
    ensures b == OneToTenMinutes <==> Minute < ttl <= 10 * Minute
    ensures b == OverTenMinutes <==> ttl > 10 * Minute
  {
    if ttl <= Minute then UnderOneMinute
    else if ttl <= 10 * Minute then OneToTenMinutes
    else OverTenMinutes
  }

  /** The position of a label from shortest to longest remaining life. */
  function Rank(b: string): (n: nat)
    requires IsLabel(b)
    ensures n <= 2
  {
    if b == UnderOneMinute then 0 else if b == OneToTenMinutes then 1 else 2
  }

  /** A longer TTL never falls in an earlier bucket. */
  lemma BucketMonotone(ttl1: int, ttl2: int)
    requires ttl1 <= ttl2
    ensures Rank(GetBucket(ttl1)) <= Rank(GetBucket(ttl2))
  {
  }

  // ---------------------------------------------------------------------------
  // The counting loop

  /** `keyExpirations[bucket]`: a Go map reads 0 for an absent key. */
  function Get(m: map<string, int>, b: string): int {
    if b in m then m[b] else 0
  }

  /** `keyExpirations[bucket]++`. */
  function Bump(m: map<string, int>, b: string): (r: map<string, int>)
    ensures r.Keys == m.Keys + {b}
    ensures Get(r, b) == Get(m, b) + 1
    ensures forall x :: x != b ==> Get(r, x) == Get(m, x)
  {
    m[b := Get(m, b) + 1]
  }

  /** The three counters the loop keeps. */
  datatype TtlTally = TtlTally(persistent: int, expiring: int, buckets: map<string, int>)

  const NoKeys := TtlTally(0, 0, map[])

  /** One key's TTL reply added to the counters. */
  function Count(t: TtlTally, ttl: int): TtlTally {
    if ttl == Persistent then t.(persistent := t.persistent + 1)
    else if ttl > 0 then t.(expiring := t.expiring + 1, buckets := Bump(t.buckets, GetBucket(ttl)))
    else t
  }

  /** The counters after the keys with TTL replies `ttls`, taken in order. */
  function Tally(ttls: seq<int>): TtlTally
    decreases |ttls|
  {
    if ttls == [] then NoKeys else Count(Tally(ttls[..|ttls| - 1]), ttls[|ttls| - 1])
  }

  /** A persistent key moves only the persistent count. */
  lemma PersistentStep(t: TtlTally)
    ensures Count(t, Persistent) == t.(persistent := t.persistent + 1)
  {
  }

  /** An expiring key moves the expiring count and exactly one bucket, the one `getBucket` names. */
  lemma ExpiringStep(t: TtlTally, ttl: int)
    requires ttl > 0
    ensures Count(t, ttl).persistent == t.persistent
    ensures Count(t, ttl).expiring == t.expiring + 1
    ensures Get(Count(t, ttl).buckets, GetBucket(ttl)) == Get(t.buckets, GetBucket(ttl)) + 1
    ensures forall b :: b != GetBucket(ttl) ==> Get(Count(t, ttl).buckets, b) == Get(t.buckets, b)
  {
  }

  /** A reply that is neither -1 nor positive (-2, 0, other negatives) is counted nowhere. */
  lemma IgnoredStep(t: TtlTally, ttl: int)
    requires ttl != Persistent && ttl <= 0
    ensures Count(t, ttl) == t
  {
  }

  // ---------------------------------------------------------------------------
  // Reference counts

  /** How many replies are the persistent sentinel. */
  function PersistentCount(ttls: seq<int>): nat {
    |set i | 0 <= i < |ttls| && ttls[i] == Persistent|
  }

  /** How many replies are positive. */
  function ExpiringCount(ttls: seq<int>): nat {
    |set i | 0 <= i < |ttls| && ttls[i] > 0|
  }

  /** The positions of the positive replies that fall in bucket `b`. */
  function BucketIndices(ttls: seq<int>, b: string): set<int> {
    set i | 0 <= i < |ttls| && ttls[i] > 0 && GetBucket(ttls[i]) == b
  }

  /** How many replies are positive and fall in bucket `b`. */
  function BucketCount(ttls: seq<int>, b: string): nat {
    |BucketIndices(ttls, b)|
  }

  /** Extending a sequence by one element adds that position to an index set exactly when it qualifies. */
  lemma IndexSetSnoc(ttls: seq<int>, keep: int -> bool)
    requires ttls != []
    ensures var n := |ttls| - 1;
      (set i | 0 <= i < |ttls| && keep(ttls[i]))
      == (set i | 0 <= i < n && keep(ttls[..n][i])) + (if keep(ttls[n]) then {n} else {})
  {
    var n := |ttls| - 1;
    var whole := set i | 0 <= i < |ttls| && keep(ttls[i]);
    var init := set i | 0 <= i < n && keep(ttls[..n][i]);
    forall i | i in whole
      ensures i in init + (if keep(ttls[n]) then {n} else {})
    {
      if i < n {
        assert ttls[..n][i] == ttls[i];
      }
    }
  }

  lemma IndexSetSize(ttls: seq<int>, keep: int -> bool)
    requires ttls != []
    ensures var n := |ttls| - 1;
      |set i | 0 <= i < |ttls| && keep(ttls[i])|
      == |set i | 0 <= i < n && keep(ttls[..n][i])| + (if keep(ttls[n]) then 1 else 0)
  {
    var n := |ttls| - 1;
    IndexSetSnoc(ttls, keep);
    var init := set i | 0 <= i < n && keep(ttls[..n][i]);
    assert n !in init;
  }

  /** The persistent count is the number of -1 replies. */
  lemma {:induction false} PersistentCounted(ttls: seq<int>)
    ensures Tally(ttls).persistent == PersistentCount(ttls)
    decreases |ttls|
  {
    if ttls != [] {
      var n := |ttls| - 1;
      var init := ttls[..n];
      PersistentCounted(init);
      var isPersistent := x => x == Persistent;
      IndexSetSize(ttls, isPersistent);
      assert (set i | 0 <= i < |ttls| && isPersistent(ttls[i])) == (set i | 0 <= i < |ttls| && ttls[i] == Persistent);
      assert (set i | 0 <= i < n && isPersistent(init[i])) == (set i | 0 <= i < n && init[i] == Persistent);
    }
  }

  /** The expiring count is the number of positive replies. */
  lemma {:induction false} ExpiringCounted(ttls: seq<int>)
    ensures Tally(ttls).expiring == ExpiringCount(ttls)
    decreases |ttls|
  {
    if ttls != [] {
      var n := |ttls| - 1;
      var init := ttls[..n];
      ExpiringCounted(init);
      var isPositive := x => x > 0;
      IndexSetSize(ttls, isPositive);
      assert (set i | 0 <= i < |ttls| && isPositive(ttls[i])) == (set i | 0 <= i < |ttls| && ttls[i] > 0);
      assert (set i | 0 <= i < n && isPositive(init[i])) == (set i | 0 <= i < n && init[i] > 0);
    }
  }

  /** Each bucket holds the number of positive replies `getBucket` puts in it. */
  lemma {:induction false} BucketCounted(ttls: seq<int>, b: string)
    ensures Get(Tally(ttls).buckets, b) == BucketCount(ttls, b)
    decreases |ttls|
  {
    if ttls == [] {
      assert BucketIndices(ttls, b) == {};
    } else {
      var n := |ttls| - 1;
      var init := ttls[..n];
      BucketCounted(init, b);
      var inBucket := x => x > 0 && GetBucket(x) == b;
      IndexSetSize(ttls, inBucket);
      assert (set i | 0 <= i < |ttls| && inBucket(ttls[i])) == BucketIndices(ttls, b);
      assert (set i | 0 <= i < n && inBucket(init[i])) == BucketIndices(init, b);
    }
  }

  /** Only the three labels ever appear as buckets. */
  lemma {:induction false} BucketsAreLabels(ttls: seq<int>)
    ensures forall b :: b in Tally(ttls).buckets ==> IsLabel(b)
    decreases |ttls|
  {
    if ttls != [] {
      BucketsAreLabels(ttls[..|ttls| - 1]);
    }
  }

  /**
   * The loop's counters are the reference counts: persistent keys are the -1
   * replies, expiring keys the positive ones, each bucket the positive replies
   * `getBucket` puts in it, and no other bucket appears.
   */
  lemma TallyCounts(ttls: seq<int>)
    ensures Tally(ttls).persistent == PersistentCount(ttls)
    ensures Tally(ttls).expiring == ExpiringCount(ttls)
    ensures forall b :: Get(Tally(ttls).buckets, b) == BucketCount(ttls, b)
    ensures forall b :: b in Tally(ttls).buckets ==> IsLabel(b)
  {
    PersistentCounted(ttls);
    ExpiringCounted(ttls);
    forall b
      ensures Get(Tally(ttls).buckets, b) == BucketCount(ttls, b)
    {
      BucketCounted(ttls, b);
    }
    BucketsAreLabels(ttls);
  }

  /** The bucket entries add up to the expiring count. */
  function BucketTotal(m: map<string, int>): int {
    Get(m, UnderOneMinute) + Get(m, OneToTenMinutes) + Get(m, OverTenMinutes)
  }

  /** Each expiring reply is in exactly one bucket, so the buckets sum to the expiring count. */
  lemma {:induction false} BucketsSumToExpiring(ttls: seq<int>)
    ensures BucketTotal(Tally(ttls).buckets) == Tally(ttls).expiring
    decreases |ttls|
  {
    if ttls != [] {
      BucketsSumToExpiring(ttls[..|ttls| - 1]);
    }
  }

  /** No key is counted twice: persistent and expiring keys together are at most the keys scanned. */
  lemma {:induction false} CountedAtMostScanned(ttls: seq<int>)
    ensures 0 <= Tally(ttls).persistent && 0 <= Tally(ttls).expiring
    ensures Tally(ttls).persistent + Tally(ttls).expiring <= |ttls|
    decreases |ttls|
  {
    if ttls != [] {
      CountedAtMostScanned(ttls[..|ttls| - 1]);
    }
  }

  /**
   * The loop over the TTL replies of the scanned keys, with the scan's pages
   * laid end to end: it counts each key once into the persistent count, or the
   * expiring count and one bucket, or nowhere.
   */
  method CountExpirations(ttls: seq<int>) returns (persistentCount: int, expiringCount: int, keyExpirations: map<string, int>)
    ensures TtlTally(persistentCount, expiringCount, keyExpirations) == Tally(ttls)
  {
    persistentCount, expiringCount := 0, 0;
    keyExpirations := map[];
    var i := 0;
    while i < |ttls|
      invariant 0 <= i <= |ttls|
      invariant TtlTally(persistentCount, expiringCount, keyExpirations) == Tally(ttls[..i])
    {
      var ttl := ttls[i];
      assert ttls[..i + 1][..i] == ttls[..i];
      if ttl == Persistent {
        persistentCount := persistentCount + 1;
      } else if ttl > 0 {
        expiringCount := expiringCount + 1;
        var bucket := GetBucket(ttl);
        keyExpirations := keyExpirations[bucket := Get(keyExpirations, bucket) + 1];
      }
      i := i + 1;
    }
    assert ttls[..i] == ttls;
  }
}
