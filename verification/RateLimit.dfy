/** The fixed-window limiter of the public booking routes
    (backend/api/ratelimit_booking.go). Times are nanoseconds. */
module RateLimit {
  import opened Options

  const SECOND: int := 1_000_000_000

  datatype Bucket = Bucket(count: int, windowEnd: int)

  /** lastSweep is None before the first request: long ago. */
  datatype Limiter = Limiter(limit: int, window: int, buckets: map<string, Bucket>, lastSweep: Option<int>)

  datatype Verdict = Verdict(allowed: bool, wait: int)

  datatype Request = Request(key: string, at: int)

  predicate Expired(l: Limiter, key: string, now: int) {
    key in l.buckets && now > l.buckets[key].windowEnd
  }

  /** The counting half of take, on whatever the limiter remembers. */
  function Judge(l: Limiter, key: string, now: int): Verdict {
    if key !in l.buckets || Expired(l, key, now) then Verdict(true, 0)
    else if l.buckets[key].count >= l.limit then Verdict(false, l.buckets[key].windowEnd - now)
    else Verdict(true, 0)
  }

  function Counted(l: Limiter, key: string, now: int): Limiter {
    if key !in l.buckets || Expired(l, key, now) then l.(buckets := l.buckets[key := Bucket(1, now + l.window)])
    else if l.buckets[key].count >= l.limit then l
    else l.(buckets := l.buckets[key := Bucket(l.buckets[key].count + 1, l.buckets[key].windowEnd)])
  }

  predicate SweepDue(l: Limiter, now: int) {
    l.lastSweep.None? || now - l.lastSweep.value >= l.window
  }

  /** The lazy sweep: at most once per window, expired buckets are dropped. */
  function Swept(l: Limiter, now: int): Limiter {
    if SweepDue(l, now) then
      l.(buckets := map k | k in l.buckets && !Expired(l, k, now) :: l.buckets[k], lastSweep := Some(now))
    else l
  }

  function Take(l: Limiter, r: Request): Limiter { Counted(Swept(l, r.at), r.key, r.at) }

  function TakeVerdict(l: Limiter, r: Request): Verdict { Judge(Swept(l, r.at), r.key, r.at) }

  /** The limiter of one route, behind its mutex. */
  class FixedWindowLimiter {
    const limit: int
    const window: int
    var buckets: map<string, Bucket>
    var lastSweep: Option<int>

    constructor (limit: int, window: int)
      ensures State() == Limiter(limit, window, map[], None)
    {
      this.limit, this.window, buckets, lastSweep := limit, window, map[], None;
    }

    function State(): Limiter
      reads this
    {
      Limiter(limit, window, buckets, lastSweep)
    }

    method TakeOne(key: string, now: int) returns (allowed: bool, wait: int)
      modifies this
      ensures State() == Take(old(State()), Request(key, now))
      ensures Verdict(allowed, wait) == TakeVerdict(old(State()), Request(key, now))
    {
      ghost var l := State();
      if lastSweep.None? || now - lastSweep.value >= window {
        var keys := buckets.Keys;
        while keys != {}
          invariant keys <= l.buckets.Keys
          invariant buckets == map k | k in l.buckets && (k in keys || !Expired(l, k, now)) :: l.buckets[k]
          invariant lastSweep == l.lastSweep
        {
          var k :| k in keys;
          if now > buckets[k].windowEnd {
            buckets := buckets - {k};
          }
          keys := keys - {k};
        }
        lastSweep := Some(now);
      }
      assert State() == Swept(l, now);
      if key !in buckets || now > buckets[key].windowEnd {
        buckets := buckets[key := Bucket(1, now + window)];
        return true, 0;
      }
      if buckets[key].count >= limit {
        return false, buckets[key].windowEnd - now;
      }
      buckets := buckets[key := Bucket(buckets[key].count + 1, buckets[key].windowEnd)];
      return true, 0;
    }
  }

  // ---- runs ----

  ghost predicate InOrder(reqs: seq<Request>) {
    forall i, j | 0 <= i < j < |reqs| :: reqs[i].at <= reqs[j].at
  }

  function After(l: Limiter, reqs: seq<Request>): Limiter {
    if reqs == [] then l else Take(After(l, reqs[..|reqs|-1]), reqs[|reqs|-1])
  }

  /** A limiter that never forgets: the same counting, no sweep. */
  function Unswept(l: Limiter, reqs: seq<Request>): Limiter {
    if reqs == [] then l
    else var r := reqs[|reqs|-1]; Counted(Unswept(l, reqs[..|reqs|-1]), r.key, r.at)
  }

  /** The swept limiter remembers what the other does, less some expired buckets. */
  ghost predicate Agree(swept: Limiter, full: Limiter, now: int) {
    && swept.limit == full.limit && swept.window == full.window
    && (forall k | k in swept.buckets :: k in full.buckets && full.buckets[k] == swept.buckets[k])
    && (forall k | k in full.buckets && k !in swept.buckets :: full.buckets[k].windowEnd < now)
  }

  lemma AgreeNext(swept: Limiter, full: Limiter, r: Request, now: int)
    requires Agree(swept, full, r.at) && r.at <= now
    ensures Agree(Take(swept, r), Counted(full, r.key, r.at), now)
  {
    var s := Swept(swept, r.at);
    assert Agree(s, full, r.at);
    assert Judge(s, r.key, r.at) == Judge(full, r.key, r.at);
  }

  lemma AgreeJudges(swept: Limiter, full: Limiter, r: Request)
    requires Agree(swept, full, r.at)
    ensures TakeVerdict(swept, r) == Judge(full, r.key, r.at)
  {
  }

  /** The lazy sweep is invisible: over every run in order, each answer is the
      one a limiter that never forgets would give. */
  lemma {:induction false} SweepInvisible(l: Limiter, reqs: seq<Request>, r: Request)
    requires InOrder(reqs) && (reqs != [] ==> reqs[|reqs|-1].at <= r.at)
    ensures Agree(After(l, reqs), Unswept(l, reqs), r.at)
    ensures TakeVerdict(After(l, reqs), r) == Judge(Unswept(l, reqs), r.key, r.at)
  {
    if reqs != [] {
      var init, last := reqs[..|reqs|-1], reqs[|reqs|-1];
      SweepInvisible(l, init, last);
      AgreeNext(After(l, init), Unswept(l, init), last, r.at);
    }
    AgreeJudges(After(l, reqs), Unswept(l, reqs), r);
  }

  /** How many of the key's requests from lo to hi were allowed. */
  ghost function Allowed(l: Limiter, reqs: seq<Request>, key: string, lo: int, hi: int): nat {
    if reqs == [] then 0
    else
      var init, r := reqs[..|reqs|-1], reqs[|reqs|-1];
      Allowed(l, init, key, lo, hi) +
      if r.key == key && lo <= r.at <= hi && TakeVerdict(After(l, init), r).allowed then 1 else 0
  }

  lemma {:induction false} AllowedSplit(l: Limiter, reqs: seq<Request>, key: string, lo: int, mid: int, hi: int)
    requires lo <= mid <= hi + 1
    ensures Allowed(l, reqs, key, lo, hi) == Allowed(l, reqs, key, lo, mid - 1) + Allowed(l, reqs, key, mid, hi)
  {
    if reqs != [] { AllowedSplit(l, reqs[..|reqs|-1], key, lo, mid, hi); }
  }

  /** What the never-forgetting limiter's bucket says about the past: it counts
      the key's allowed requests since its window began, all of them by its end,
      and the window length before it held at most the limit. */
  ghost predicate Accounts(l: Limiter, reqs: seq<Request>, key: string, b: Bucket, now: int) {
    && 1 <= b.count <= l.limit && b.windowEnd - l.window <= now
    && (forall lo, hi | lo == b.windowEnd - l.window && hi >= now :: Allowed(l, reqs, key, lo, hi) == b.count)
    && (forall lo, hi | lo > b.windowEnd :: Allowed(l, reqs, key, lo, hi) == 0)
    && (forall lo, hi | lo >= b.windowEnd - 2 * l.window && hi < b.windowEnd - l.window ::
          Allowed(l, reqs, key, lo, hi) <= l.limit)
  }

  ghost predicate Explains(l: Limiter, reqs: seq<Request>, key: string, now: int) {
    var full := Unswept(l, reqs);
    if key in full.buckets then Accounts(l, reqs, key, full.buckets[key], now)
    else forall lo, hi :: Allowed(l, reqs, key, lo, hi) == 0
  }

  ghost predicate Empty(l: Limiter) {
    l.buckets == map[] && l.limit >= 1 && l.window >= 0
  }

  function Front(reqs: seq<Request>): seq<Request>
    requires reqs != []
  {
    reqs[..|reqs|-1]
  }

  function Last(reqs: seq<Request>): Request
    requires reqs != []
  {
    reqs[|reqs|-1]
  }

  /** The last request adds one to the stretches it falls in, if allowed. */
  lemma AllowedLast(l: Limiter, reqs: seq<Request>, key: string, lo: int, hi: int)
    requires InOrder(reqs) && reqs != []
    ensures var r := Last(reqs);
      Allowed(l, reqs, key, lo, hi) == Allowed(l, Front(reqs), key, lo, hi) +
        if r.key == key && lo <= r.at <= hi && Judge(Unswept(l, Front(reqs)), key, r.at).allowed then 1 else 0
  {
    SweepInvisible(l, Front(reqs), Last(reqs));
  }

  lemma {:induction false} UnsweptKeeps(l: Limiter, reqs: seq<Request>)
    ensures Unswept(l, reqs).limit == l.limit && Unswept(l, reqs).window == l.window
  {
    if reqs != [] { UnsweptKeeps(l, reqs[..|reqs|-1]); }
  }

  /** Before a window that begins now, after one that has ended, the window
      length back held at most the limit. */
  lemma PreviousWindow(l: Limiter, init: seq<Request>, key: string, b: Bucket, was: int, now: int, lo: int, hi: int)
    requires Accounts(l, init, key, b, was) && was <= now && b.windowEnd < now
    requires lo >= now - l.window && hi < now
    ensures Allowed(l, init, key, lo, hi) <= l.limit
  {
    if lo <= hi {
      var top := if hi < was then was else hi;
      var began := b.windowEnd - l.window;
      AllowedSplit(l, init, key, began, lo, top);
      AllowedSplit(l, init, key, lo, hi + 1, top);
    } else {
      NoneInside(l, init, key, lo, hi);
    }
  }

  lemma SameAccount(l: Limiter, init: seq<Request>, reqs: seq<Request>, key: string, b: Bucket, was: int, now: int)
    requires forall lo, hi :: Allowed(l, reqs, key, lo, hi) == Allowed(l, init, key, lo, hi)
    requires Accounts(l, init, key, b, was) && was <= now
    ensures Accounts(l, reqs, key, b, now)
  {
  }

  /** An allowed request in a running window. */
  lemma AccountGrows(l: Limiter, init: seq<Request>, reqs: seq<Request>, key: string, b: Bucket, was: int, now: int)
    requires forall lo, hi ::
      Allowed(l, reqs, key, lo, hi) == Allowed(l, init, key, lo, hi) + if lo <= now <= hi then 1 else 0
    requires Accounts(l, init, key, b, was) && was <= now <= b.windowEnd && b.count < l.limit
    ensures Accounts(l, reqs, key, Bucket(b.count + 1, b.windowEnd), now)
  {
  }

  /** An allowed request that opens a window: the first, or one after an end. */
  lemma AccountOpens(l: Limiter, init: seq<Request>, reqs: seq<Request>, key: string, was: int, now: int)
    requires forall lo, hi ::
      Allowed(l, reqs, key, lo, hi) == Allowed(l, init, key, lo, hi) + if lo <= now <= hi then 1 else 0
    requires Empty(l) && Explains(l, init, key, was) && was <= now
    requires key in Unswept(l, init).buckets ==> Unswept(l, init).buckets[key].windowEnd < now
    ensures Accounts(l, reqs, key, Bucket(1, now + l.window), now)
  {
    forall lo, hi | lo >= now - l.window && hi < now ensures Allowed(l, init, key, lo, hi) <= l.limit {
      if key in Unswept(l, init).buckets {
        PreviousWindow(l, init, key, Unswept(l, init).buckets[key], was, now, lo, hi);
      }
    }
  }

  lemma ExplainsAllowed(l: Limiter, reqs: seq<Request>, key: string, was: int)
    requires Empty(l) && InOrder(reqs) && reqs != [] && was <= Last(reqs).at && Explains(l, Front(reqs), key, was)
    requires Last(reqs).key == key && Judge(Unswept(l, Front(reqs)), key, Last(reqs).at).allowed
    ensures Explains(l, reqs, key, Last(reqs).at)
  {
    var init, r := Front(reqs), Last(reqs);
    var full := Unswept(l, init);
    UnsweptKeeps(l, init);
    forall lo, hi
      ensures Allowed(l, reqs, key, lo, hi) == Allowed(l, init, key, lo, hi) + if lo <= r.at <= hi then 1 else 0
    {
      AllowedLast(l, reqs, key, lo, hi);
    }
    if key in full.buckets && !Expired(full, key, r.at) {
      AccountGrows(l, init, reqs, key, full.buckets[key], was, r.at);
    } else {
      AccountOpens(l, init, reqs, key, was, r.at);
    }
  }

  /** Each further request keeps the explanation. */
  lemma ExplainsNext(l: Limiter, reqs: seq<Request>, key: string, was: int)
    requires Empty(l) && InOrder(reqs) && reqs != [] && was <= Last(reqs).at && Explains(l, Front(reqs), key, was)
    ensures Explains(l, reqs, key, Last(reqs).at)
  {
    var init, r := Front(reqs), Last(reqs);
    var full := Unswept(l, init);
    if r.key == key && Judge(full, key, r.at).allowed {
      ExplainsAllowed(l, reqs, key, was);
    } else {
      UnsweptKeeps(l, init);
      forall lo, hi ensures Allowed(l, reqs, key, lo, hi) == Allowed(l, init, key, lo, hi) {
        AllowedLast(l, reqs, key, lo, hi);
      }
      if key in full.buckets {
        SameAccount(l, init, reqs, key, full.buckets[key], was, r.at);
      }
    }
  }

  lemma {:induction false} NoneInside(l: Limiter, reqs: seq<Request>, key: string, lo: int, hi: int)
    requires lo > hi
    ensures Allowed(l, reqs, key, lo, hi) == 0
  {
    if reqs != [] { NoneInside(l, reqs[..|reqs|-1], key, lo, hi); }
  }

  lemma {:induction false} RunExplained(l: Limiter, reqs: seq<Request>, key: string)
    requires Empty(l) && InOrder(reqs) && reqs != []
    ensures Explains(l, reqs, key, Last(reqs).at)
  {
    if |reqs| == 1 {
      ExplainsNext(l, reqs, key, Last(reqs).at);
    } else {
      RunExplained(l, Front(reqs), key);
      ExplainsNext(l, reqs, key, Last(Front(reqs)).at);
    }
  }

  /** A stretch that reaches past the last request holds at most twice the limit. */
  lemma LastStretch(l: Limiter, reqs: seq<Request>, key: string, now: int, x: int)
    requires Empty(l) && Explains(l, reqs, key, now) && x <= now <= x + l.window
    ensures Allowed(l, reqs, key, x, x + l.window) <= 2 * l.limit
  {
    var full := Unswept(l, reqs);
    if key in full.buckets {
      var began := full.buckets[key].windowEnd - l.window;
      if x < began {
        AllowedSplit(l, reqs, key, x, began, x + l.window);
      } else {
        AllowedSplit(l, reqs, key, began, x, x + l.window);
      }
    }
  }

  /** Over every run of a limiter from its start, with a clock that does not go
      back: at most the limit in a key's current window, and at most twice the
      limit in any stretch of one window length, its two ends included. */
  lemma {:induction false} TwiceTheLimit(l: Limiter, reqs: seq<Request>, key: string, x: int)
    requires Empty(l) && InOrder(reqs)
    ensures reqs != [] ==> Explains(l, reqs, key, reqs[|reqs|-1].at)
    ensures Allowed(l, reqs, key, x, x + l.window) <= 2 * l.limit
  {
    if reqs != [] {
      var init, now := reqs[..|reqs|-1], reqs[|reqs|-1].at;
      RunExplained(l, reqs, key);
      if x <= now <= x + l.window {
        LastStretch(l, reqs, key, now, x);
      } else {
        TwiceTheLimit(l, init, key, x);
      }
    }
  }

  // ---- nobody is refused early ----

  /** A refusal answers a full window: from lo, one window length back at most,
      the key was allowed exactly the limit, and the wait ends that window. */
  lemma RefusedAtLimit(l: Limiter, reqs: seq<Request>, r: Request) returns (lo: int)
    requires Empty(l) && InOrder(reqs) && (reqs != [] ==> Last(reqs).at <= r.at)
    requires !TakeVerdict(After(l, reqs), r).allowed
    ensures r.at - l.window <= lo <= r.at && Allowed(l, reqs, r.key, lo, r.at) == l.limit
    ensures TakeVerdict(After(l, reqs), r).wait == lo + l.window - r.at
  {
    SweepInvisible(l, reqs, r);
    UnsweptKeeps(l, reqs);
    var full := Unswept(l, reqs);
    assert reqs != [];
    RunExplained(l, reqs, r.key);
    lo := full.buckets[r.key].windowEnd - l.window;
  }

  lemma {:induction false} AllowedWider(l: Limiter, reqs: seq<Request>, key: string, lo: int, wide: int, hi: int)
    requires wide <= lo
    ensures Allowed(l, reqs, key, lo, hi) <= Allowed(l, reqs, key, wide, hi)
  {
    if reqs != [] { AllowedWider(l, reqs[..|reqs|-1], key, lo, wide, hi); }
  }

  /** So a key with fewer than the limit allowed in the window length up to now
      is never refused. */
  lemma AllowedBelowLimit(l: Limiter, reqs: seq<Request>, r: Request)
    requires Empty(l) && InOrder(reqs) && (reqs != [] ==> Last(reqs).at <= r.at)
    requires Allowed(l, reqs, r.key, r.at - l.window, r.at) < l.limit
    ensures TakeVerdict(After(l, reqs), r) == Verdict(true, 0)
  {
    if !TakeVerdict(After(l, reqs), r).allowed {
      var lo := RefusedAtLimit(l, reqs, r);
      AllowedWider(l, reqs, r.key, lo, r.at - l.window, r.at);
    }
  }

  // ---- what is remembered ----

  /** Every bucket outlives the last sweep. */
  ghost predicate Remembers(l: Limiter, now: int) {
    && (l.lastSweep.None? ==> l.buckets == map[])
    && (l.lastSweep.Some? ==> l.lastSweep.value <= now)
    && forall k | k in l.buckets :: l.lastSweep.value <= l.buckets[k].windowEnd <= now + l.window
  }

  lemma RemembersNext(l: Limiter, r: Request, now: int)
    requires Remembers(l, r.at) && l.window >= 0 && r.at <= now
    ensures Remembers(Take(l, r), now)
    ensures r.key in Take(l, r).buckets && Take(l, r).lastSweep.Some? && r.at - Take(l, r).lastSweep.value <= l.window
    ensures forall k | k in Take(l, r).buckets :: Take(l, r).buckets[k].windowEnd <= r.at + l.window
  {
    assert Remembers(Swept(l, r.at), r.at);
  }

  /** Buckets other than the asker's go only in a sweep, when their window is
      over, and sweeps are a window length apart. */
  lemma SweepsApart(l: Limiter, r: Request, key: string)
    requires key in l.buckets && key != r.key && l.lastSweep.Some?
    ensures var due := r.at >= l.lastSweep.value + l.window;
      && Take(l, r).lastSweep == Some(if due then r.at else l.lastSweep.value)
      && (key in Take(l, r).buckets <==> !(due && r.at > l.buckets[key].windowEnd))
      && (key in Take(l, r).buckets ==> Take(l, r).buckets[key] == l.buckets[key])
  {
    var s := Swept(l, r.at);
    assert key in s.buckets ==> s.buckets[key] == l.buckets[key];
  }

  /** After a request, every remembered bucket began within the last two windows. */
  lemma {:induction false} RememberedIsRecent(l: Limiter, reqs: seq<Request>, now: int, key: string)
    requires Empty(l) && l.lastSweep.None? && InOrder(reqs) && (reqs != [] ==> Last(reqs).at <= now)
    ensures Remembers(After(l, reqs), now) && After(l, reqs).window == l.window
    ensures reqs != [] && key in After(l, reqs).buckets ==>
      var began := After(l, reqs).buckets[key].windowEnd - l.window;
      Last(reqs).at - 2 * l.window <= began <= Last(reqs).at
  {
    if reqs != [] {
      RememberedIsRecent(l, Front(reqs), Last(reqs).at, key);
      RemembersNext(After(l, Front(reqs)), Last(reqs), now);
    }
  }

  // ---- retrying ----

  /** retryAfterSeconds. */
  function RetryAfter(wait: int, window: int): int {
    var secs := (wait + SECOND - 1) / SECOND;
    var capped := if secs > window / SECOND then window / SECOND else secs;
    if capped < 1 then 1 else capped
  }

  /** The wait fits in the whole seconds of the window, or the window is shorter
      than the one second Retry-After never goes below. */
  predicate WaitFits(wait: int, window: int) {
    wait <= window / SECOND * SECOND || window < SECOND
  }

  /** A refusal stands until its wait is over, if the key asks nothing in
      between. A retry strictly later than Retry-After is allowed exactly for
      the waits that fit: all of them when the window is whole seconds, and
      otherwise a retry when the wait is over comes later and is refused. */
  lemma {:induction false} RetryWorks(l: Limiter, refused: Request, others: seq<Request>, later: int)
    requires refused.key in l.buckets && l.buckets[refused.key].windowEnd <= refused.at + l.window
    requires !TakeVerdict(l, refused).allowed && refused.at <= later
    requires forall r | r in others :: r.key != refused.key && refused.at <= r.at <= later
    ensures var wait, l' := TakeVerdict(l, refused).wait, After(Take(l, refused), others);
      var told := refused.at + RetryAfter(wait, l.window) * SECOND;
      && (later <= refused.at + wait ==> !TakeVerdict(l', Request(refused.key, later)).allowed)
      && (WaitFits(wait, l.window) && later > told ==> TakeVerdict(l', Request(refused.key, later)).allowed)
      && (!WaitFits(wait, l.window) ==> told < refused.at + wait)
      && (l.window % SECOND == 0 ==> WaitFits(wait, l.window))
  {
    BucketStays(Take(l, refused), others, refused.key, later);
    RetryRounds(TakeVerdict(l, refused).wait, l.window);
  }

  /** Retry-After in whole seconds: at least one, no more than the window's,
      and no more than the wait rounded up; short of the wait only when one more
      second would pass the window. */
  lemma RetryIsTight(wait: int, window: int)
    requires 0 <= wait <= window
    ensures var secs := RetryAfter(wait, window);
      && secs >= 1
      && (secs > 1 ==> (secs - 1) * 1_000_000_000 < wait && secs * 1_000_000_000 <= window)
      && (secs * 1_000_000_000 < wait ==> window < (secs + 1) * 1_000_000_000)
  {
    var up, down := (wait + SECOND - 1) / SECOND, window / SECOND;
    assert wait <= up * SECOND < wait + SECOND;
    assert down * SECOND <= window < down * SECOND + SECOND;
  }

  lemma RetryRounds(wait: int, window: int)
    requires 0 <= wait <= window
    ensures wait <= RetryAfter(wait, window) * SECOND <==> WaitFits(wait, window)
  {
    var up, down := (wait + SECOND - 1) / SECOND, window / SECOND;
    assert wait <= up * SECOND < wait + SECOND;
    assert down * SECOND <= window < down * SECOND + SECOND;
  }

  lemma {:induction false} BucketStays(l: Limiter, others: seq<Request>, key: string, now: int)
    requires key in l.buckets && forall r | r in others :: r.key != key && r.at <= now
    ensures var l' := After(l, others);
      && l'.limit == l.limit && (key in l'.buckets ==> l'.buckets[key] == l.buckets[key])
      && (key !in l'.buckets ==> now > l.buckets[key].windowEnd)
  {
    if others != [] {
      assert others[|others|-1] in others;
      BucketStays(l, others[..|others|-1], key, now);
    }
  }

  /** A window that is not whole seconds breaks it: 1.5 s, full at once, and a
      retry 1.2 s later. */
  lemma HalfSecondsBreakRetry()
    ensures var l := Limiter(1, 1_500_000_000, map["a" := Bucket(1, 1_500_000_000)], Some(0));
      var v := TakeVerdict(l, Request("a", 0));
      !v.allowed && 1_200_000_000 > RetryAfter(v.wait, l.window) * SECOND
      && !TakeVerdict(Take(l, Request("a", 0)), Request("a", 1_200_000_000)).allowed
  {
  }
}
