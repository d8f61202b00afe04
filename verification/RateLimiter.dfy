/** The in-process sliding-window rate limiter. */
module RateLimiter {

  const WINDOW := 60.0

  predicate Sorted(ts: seq<real>) {
    forall i, j :: 0 <= i <= j < |ts| ==> ts[i] <= ts[j]
  }

  /** How many of `ts` lie in the closed interval from `lo` to `hi`. */
  function CountIn(ts: seq<real>, lo: real, hi: real): nat {
    if ts == [] then 0
    else CountIn(ts[..|ts| - 1], lo, hi) + (if lo <= ts[|ts| - 1] <= hi then 1 else 0)
  }

  /** Any `limit + 1` consecutive times span more than the window. */
  predicate Spread(ts: seq<real>, limit: nat) {
    forall i :: 0 <= i && i + limit < |ts| ==> ts[i + limit] - ts[i] > WINDOW
  }

  /** `kept` is what is left of `all` when some times before `cutoff` were forgotten. */
  predicate Recent(kept: seq<real>, all: seq<real>, cutoff: real) {
    && |kept| <= |all|
    && kept == all[|all| - |kept|..]
    && forall i :: 0 <= i < |all| - |kept| ==> all[i] < cutoff
  }

  function TimesOf(hits: map<string, seq<real>>, key: string): seq<real> {
    if key in hits then hits[key] else []
  }

  /** One client: all its admissions are in order, spread out, not in the future, and the bucket forgot only old ones. */
  predicate ClientValid(bucket: seq<real>, all: seq<real>, clock: real, limit: nat) {
    && Sorted(all)
    && Spread(all, limit)
    && (forall i :: 0 <= i < |all| ==> all[i] <= clock)
    && Recent(bucket, all, clock - WINDOW)
  }

  /** The announced wait: the rest of the window of the oldest entry in whole seconds, at least one. */
  function RetryAfter(oldest: real, now: real): int {
    var left := WINDOW - (now - oldest);
    if left.Floor < 1 then 1 else left.Floor
  }

  class RateLimitMiddleware {
    const perMinute: nat
    var hits: map<string, seq<real>>
    ghost var admitted: map<string, seq<real>>  // every admission ever, per client
    ghost var clock: real                       // the latest time seen

    ghost predicate Valid()
      reads this
    {
      perMinute >= 1 && forall key :: ClientValid(TimesOf(hits, key), TimesOf(admitted, key), clock, perMinute)
    }

    constructor (limit: int, start: real)
      ensures Valid() && perMinute == (if limit < 1 then 1 else limit) && admitted == map[]
    {
      perMinute := if limit < 1 then 1 else limit;
      hits := map[];
      admitted := map[];
      clock := start;
    }

    /** Admits a request, or rejects it with the seconds to wait; exempt paths always pass, unrecorded. */
    method Dispatch(exempt: bool, key: string, now: real) returns (ok: bool, retryAfter: int)
      requires Valid() && clock <= now
      modifies this
      ensures Valid()
      ensures clock == if exempt then old(clock) else now
      ensures ok <==> exempt || CountIn(TimesOf(old(admitted), key), now - WINDOW, now) < perMinute
      ensures ok ==> retryAfter == 0
      ensures admitted == if ok && !exempt then old(admitted)[key := TimesOf(old(admitted), key) + [now]] else old(admitted)
      ensures !ok ==> var all := TimesOf(admitted, key);
                      && perMinute <= |all| && now - WINDOW <= all[|all| - perMinute] <= now
                      && retryAfter == RetryAfter(all[|all| - perMinute], now)
                      && var later := now + retryAfter as real;
                         (CountIn(all, later - WINDOW, later) < perMinute <==> WINDOW - (now - all[|all| - perMinute]) < 1.0)
    {
      hide ClientValid, CountIn;
      retryAfter := 0;
      if exempt {
        return true, 0;
      }
      ghost var all := TimesOf(admitted, key);
      var bucket := Expire(key, now);
      ghost var hits0, admitted0 := hits, admitted;
      forall k ensures ClientValid(TimesOf(hits0, k), TimesOf(admitted0, k), now, perMinute) {
        ClientLater(TimesOf(hits0, k), TimesOf(admitted0, k), clock, now, perMinute);
      }
      BucketCounts(bucket, all, now, perMinute);
      clock := now;
      if |bucket| >= perMinute {
        ok := false;
        retryAfter := RetryAfter(bucket[0], now);
        FullBucket(bucket, all, now, perMinute);
        AnnouncedWaitExactly(all, now, perMinute);
        hits := hits[key := bucket];
      } else {
        ok := true;
        AdmitKeepsValid(bucket, all, now, perMinute);
        hits := hits[key := bucket + [now]];
        admitted := admitted[key := all + [now]];
      }
      forall k ensures ClientValid(TimesOf(hits, k), TimesOf(admitted, k), now, perMinute) {
        if k != key {
          assert TimesOf(hits, k) == TimesOf(hits0, k) && TimesOf(admitted, k) == TimesOf(admitted0, k);
        }
      }
    }

    /** Whatever was requested since the start, no closed window of 60 seconds holds more than `perMinute` admissions. */
    lemma WindowsWithinLimit(key: string, hi: real)
      requires Valid()
      ensures CountIn(TimesOf(admitted, key), hi - WINDOW, hi) <= perMinute
    {
      hide CountIn;
      assert ClientValid(TimesOf(hits, key), TimesOf(admitted, key), clock, perMinute);
      NoWindowOverLimit(TimesOf(admitted, key), perMinute, hi);
    }

    /** The client's bucket without the times before the window. */
    method Expire(key: string, now: real) returns (bucket: seq<real>)
      requires Valid() && clock <= now
      ensures ClientValid(bucket, TimesOf(admitted, key), now, perMinute)
      ensures bucket != [] ==> bucket[0] >= now - WINDOW
    {
      ghost var all := TimesOf(admitted, key);
      bucket := TimesOf(hits, key);
      ClientLater(bucket, all, clock, now, perMinute);
      var cutoff := now - WINDOW;
      while bucket != [] && bucket[0] < cutoff
        invariant ClientValid(bucket, all, now, perMinute)
      {
        ghost var before := bucket;
        assert all[|all| - |before|] == before[0];
        bucket := bucket[1..];
      }
    }
  }

  lemma ClientLater(bucket: seq<real>, all: seq<real>, clock: real, now: real, limit: nat)
    requires ClientValid(bucket, all, clock, limit) && clock <= now
    ensures ClientValid(bucket, all, now, limit)
  {
  }

  lemma {:induction false} CountAppend(a: seq<real>, b: seq<real>, lo: real, hi: real)
    ensures CountIn(a + b, lo, hi) == CountIn(a, lo, hi) + CountIn(b, lo, hi)
  {
    if b == [] {
      assert a + b == a;
    } else {
      var n := |b| - 1;
      assert (a + b)[..|a + b| - 1] == a + b[..n];
      CountAppend(a, b[..n], lo, hi);
    }
  }

  lemma {:induction false} CountAll(ts: seq<real>, lo: real, hi: real)
    requires forall i :: 0 <= i < |ts| ==> lo <= ts[i] <= hi
    ensures CountIn(ts, lo, hi) == |ts|
  {
    if ts != [] {
      CountAll(ts[..|ts| - 1], lo, hi);
    }
  }

  lemma {:induction false} CountAtMost(ts: seq<real>, lo: real, hi: real)
    ensures CountIn(ts, lo, hi) <= |ts|
  {
    if ts != [] {
      CountAtMost(ts[..|ts| - 1], lo, hi);
    }
  }

  /** Times before the window do not count. */
  lemma {:induction false} CountSuffix(ts: seq<real>, n: nat, lo: real, hi: real)
    requires n <= |ts| && forall i :: 0 <= i < n ==> ts[i] < lo
    ensures CountIn(ts, lo, hi) == CountIn(ts[n..], lo, hi)
  {
    if n < |ts| {
      var m := |ts| - 1;
      assert ts[..m][n..] == ts[n..][..m - n];
      CountSuffix(ts[..m], n, lo, hi);
    } else if n > 0 {
      var m := |ts| - 1;
      assert ts[..m][m..] == [] && ts[n..] == [];
      CountSuffix(ts[..m], m, lo, hi);
    }
  }

  lemma SpreadAt(all: seq<real>, limit: nat, i: nat)
    requires Spread(all, limit)
    ensures i + limit < |all| ==> all[i + limit] - all[i] > WINDOW
  {
  }

  /** Once its old entries are gone, the bucket counts the admissions of the closed window. */
  lemma BucketCounts(bucket: seq<real>, all: seq<real>, now: real, limit: nat)
    requires ClientValid(bucket, all, now, limit)
    requires bucket != [] ==> bucket[0] >= now - WINDOW
    ensures CountIn(all, now - WINDOW, now) == |bucket|
    ensures |bucket| <= limit
    ensures forall i :: 0 <= i < |bucket| ==> now - WINDOW <= bucket[i] <= now
  {
    var n := |all| - |bucket|;
    forall i | 0 <= i < |bucket| ensures now - WINDOW <= bucket[i] <= now {
      assert bucket[i] == all[n + i] && bucket[0] == all[n];
      assert all[n] <= all[n + i];
    }
    CountSuffix(all, n, now - WINDOW, now);
    CountAll(bucket, now - WINDOW, now);
    SpreadAt(all, limit, n);
  }

  lemma FullBucket(bucket: seq<real>, all: seq<real>, now: real, limit: nat)
    requires ClientValid(bucket, all, now, limit) && 1 <= limit <= |bucket|
    requires bucket[0] >= now - WINDOW
    ensures |bucket| == limit <= |all| && Sorted(all) && all[|all| - 1] <= now
    ensures bucket[0] == all[|all| - limit] && now - WINDOW <= bucket[0] <= now
  {
    BucketCounts(bucket, all, now, limit);
  }

  /** With `limit` admissions from the `limit`-th last one on, the client is admissible once that one is out of the window. */
  lemma AdmissibleAfterOldest(all: seq<real>, later: real, limit: nat)
    requires Sorted(all) && 1 <= limit <= |all| && all[|all| - 1] <= later
    ensures CountIn(all, later - WINDOW, later) < limit <==> all[|all| - limit] < later - WINDOW
  {
    var n := |all| - limit;
    if all[n] < later - WINDOW {
      CountSuffix(all, n + 1, later - WINDOW, later);
      CountAtMost(all[n + 1..], later - WINDOW, later);
    } else {
      CountAppend(all[..n], all[n..], later - WINDOW, later);
      assert all[..n] + all[n..] == all;
      CountAll(all[n..], later - WINDOW, later);
    }
  }

  /** A client that waits as long as it was told is admissible exactly if less than a second was left to wait;
      one second later it always is. It is never told to wait for more than a second longer than necessary. */
  lemma AnnouncedWaitExactly(all: seq<real>, now: real, limit: nat)
    requires Sorted(all) && 1 <= limit <= |all| && all[|all| - 1] <= now
    requires now - WINDOW <= all[|all| - limit]
    ensures var oldest := all[|all| - limit];
            var later := now + RetryAfter(oldest, now) as real;
            && 1 <= RetryAfter(oldest, now) <= 60
            && (RetryAfter(oldest, now) == 1 || RetryAfter(oldest, now) as real <= WINDOW - (now - oldest))
            && (CountIn(all, later - WINDOW, later) < limit <==> WINDOW - (now - oldest) < 1.0)
            && CountIn(all, later + 1.0 - WINDOW, later + 1.0) < limit
  {
    var later := now + RetryAfter(all[|all| - limit], now) as real;
    AdmissibleAfterOldest(all, later, limit);
    AdmissibleAfterOldest(all, later + 1.0, limit);
  }

  /** One admission allowed, one given at 0.0: a request at 0.5 is told to wait 59 seconds, which is not enough. */
  lemma AnnouncedWaitTooShort()
    ensures RetryAfter(0.0, 0.5) == 59 && CountIn([0.0], 59.5 - WINDOW, 59.5) == 1
  {
    assert CountIn([0.0], 59.5 - WINDOW, 59.5) == CountIn([0.0][..0], 59.5 - WINDOW, 59.5) + 1;
  }

  lemma AdmitKeepsValid(bucket: seq<real>, all: seq<real>, now: real, limit: nat)
    requires ClientValid(bucket, all, now, limit) && |bucket| < limit
    ensures ClientValid(bucket + [now], all + [now], now, limit)
  {
    var n, more := |all| - |bucket|, all + [now];
    assert more[n..] == bucket + [now];
    forall i | 0 <= i && i + limit < |more| ensures more[i + limit] - more[i] > WINDOW {
      if i + limit == |all| {
        assert i < n;
      } else {
        assert all[i + limit] - all[i] > WINDOW;
      }
    }
  }

  /** Spread-out times: no closed window of 60 seconds holds more than `limit` of them. */
  lemma {:induction false} NoWindowOverLimit(all: seq<real>, limit: nat, hi: real)
    requires Sorted(all) && Spread(all, limit)
    ensures CountIn(all, hi - WINDOW, hi) <= limit
  {
    if all != [] {
      var n := |all| - 1;
      if !(hi - WINDOW <= all[n] <= hi) {
        NoWindowOverLimit(all[..n], limit, hi);
      } else if n < limit {
        CountAtMost(all, hi - WINDOW, hi);
      } else {
        var m := n - limit;
        assert all[m + limit] - all[m] > WINDOW;
        assert forall i :: 0 <= i <= m ==> all[i] <= all[m];
        CountSuffix(all, m + 1, hi - WINDOW, hi);
        CountAtMost(all[m + 1..], hi - WINDOW, hi);
      }
    }
  }
}
