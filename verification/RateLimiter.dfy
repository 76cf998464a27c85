// The Redis rate limiter of the gateway
// (internal/gateway/middleware/ratelimit_redis.go:64-162). Its script keeps a
// sorted set of requests and drops those a window old, but the key it keeps them
// under already names one fixed window.
module RateLimits {
  datatype Policy = Policy(windowSec: int, maxCount: int)
  {
    predicate Valid() { windowSec > 0 && maxCount >= 0 }
    function WindowMs(): int { windowSec * 1000 }
  }

  // getWindowStart, of a time in milliseconds.
  function WindowStart(now: int, p: Policy): int
    requires p.Valid()
  {
    now / 1000 / p.windowSec * p.windowSec
  }

  // calculateRetryAfter
  function RetryAfter(now: int, p: Policy): int
    requires p.Valid()
  {
    WindowStart(now, p) + p.windowSec - now / 1000
  }

  // ---- The fixed-window counter ----

  function CountWindow(ts: seq<int>, p: Policy, w: int): (n: nat)
    requires p.Valid()
  {
    if ts == [] then 0
    else CountWindow(ts[..|ts| - 1], p, w) + if WindowStart(ts[|ts| - 1], p) == w then 1 else 0
  }

  // The times at which one identity's requests were admitted, as a counter that
  // starts again with every window would have admitted them.
  ghost predicate FixedWindow(ts: seq<int>, p: Policy)
    requires p.Valid()
  {
    ts != [] ==>
      var pre, t := ts[..|ts| - 1], ts[|ts| - 1];
      && FixedWindow(pre, p) && CountWindow(pre, p, WindowStart(t, p)) < p.maxCount
      && t >= 0 && (pre != [] ==> pre[|pre| - 1] <= t)
  }

  function CountBetween(ts: seq<int>, lo: int, hi: int): (n: nat) {
    if ts == [] then 0
    else CountBetween(ts[..|ts| - 1], lo, hi) + if lo <= ts[|ts| - 1] < hi then 1 else 0
  }

  lemma {:induction false} WindowIsFull(ts: seq<int>, p: Policy, w: int)
    requires p.Valid() && FixedWindow(ts, p)
    ensures CountWindow(ts, p, w) <= p.maxCount
  {
    if ts != [] { WindowIsFull(ts[..|ts| - 1], p, w); }
  }

  // A stretch of one window's length meets at most two windows.
  lemma MeetsTwo(t: int, lo: int, p: Policy)
    requires p.Valid() && 0 <= lo <= t < lo + p.WindowMs()
    ensures WindowStart(t, p) == WindowStart(lo, p) || WindowStart(t, p) == WindowStart(lo, p) + p.windowSec
  {
    var w := p.windowSec;
    var a, b := lo / 1000, t / 1000;
    assert a <= b <= a + w;
    Quotients(a, b, w);
  }

  lemma Quotients(a: int, b: int, w: int)
    requires w > 0 && 0 <= a <= b <= a + w
    ensures b / w == a / w || b / w == a / w + 1
    ensures b / w * w == a / w * w || b / w * w == a / w * w + w
  {
    var q, r := a / w, a % w;
    assert a == q * w + r;
    if b < (q + 1) * w {
      SameQuotient(b, w, q);
    } else {
      SameQuotient(b, w, q + 1);
      assert (q + 1) * w == q * w + w;
    }
  }

  lemma SameQuotient(b: int, w: int, q: int)
    requires w > 0 && q * w <= b < (q + 1) * w
    ensures b / w == q
  {
    var x := b / w;
    assert x < q ==> (x + 1) * w <= q * w;
    assert x > q ==> (q + 1) * w <= x * w;
  }

  lemma {:induction false} BetweenIsTwoWindows(ts: seq<int>, p: Policy, lo: int, hi: int)
    requires p.Valid() && 0 <= lo && hi <= lo + p.WindowMs()
    ensures CountBetween(ts, lo, hi) <= CountWindow(ts, p, WindowStart(lo, p)) + CountWindow(ts, p, WindowStart(lo, p) + p.windowSec)
  {
    if ts != [] {
      BetweenIsTwoWindows(ts[..|ts| - 1], p, lo, hi);
      if lo <= ts[|ts| - 1] < hi { MeetsTwo(ts[|ts| - 1], lo, p); }
    }
  }

  // Any stretch of one window's length admits at most twice the maximum.
  lemma TwiceTheMaximum(ts: seq<int>, p: Policy, lo: int, hi: int)
    requires p.Valid() && FixedWindow(ts, p) && 0 <= lo && hi <= lo + p.WindowMs()
    ensures CountBetween(ts, lo, hi) <= 2 * p.maxCount
  {
    BetweenIsTwoWindows(ts, p, lo, hi);
    WindowIsFull(ts, p, WindowStart(lo, p));
    WindowIsFull(ts, p, WindowStart(lo, p) + p.windowSec);
  }

  // ---- How tight that is ----

  function Repeat(t: int, n: nat): (ts: seq<int>)
    ensures |ts| == n && forall k :: 0 <= k < n ==> ts[k] == t
  {
    seq(n, _ => t)
  }

  // n requests at time t after ts, whose last is no later, fill what is left of
  // their window.
  lemma {:induction false} ThenRepeat(ts: seq<int>, t: int, n: nat, p: Policy)
    requires p.Valid() && FixedWindow(ts, p) && t >= 0 && (ts != [] ==> ts[|ts| - 1] <= t)
    requires CountWindow(ts, p, WindowStart(t, p)) + n <= p.maxCount
    ensures FixedWindow(ts + Repeat(t, n), p)
    ensures forall w :: CountWindow(ts + Repeat(t, n), p, w) == CountWindow(ts, p, w) + if w == WindowStart(t, p) then n else 0
    ensures forall lo, hi :: CountBetween(ts + Repeat(t, n), lo, hi) == CountBetween(ts, lo, hi) + if lo <= t < hi then n else 0
  {
    hide WindowStart;
    if n == 0 {
      assert ts + Repeat(t, n) == ts;
    } else {
      ThenRepeat(ts, t, n - 1, p);
      var all := ts + Repeat(t, n);
      assert all[..|all| - 1] == ts + Repeat(t, n - 1);
      assert all[|all| - 1] == t;
    }
  }

  ghost predicate Exceeds(p: Policy, lo: int, hi: int)
    requires p.Valid()
  {
    exists ts :: FixedWindow(ts, p) && CountBetween(ts, lo, hi) > p.maxCount
  }

  // No burst past the maximum, as a sliding window would guarantee for every
  // stretch of one window's length, holds exactly of the stretches inside one
  // fixed window; across a boundary twice the maximum can be admitted.
  lemma SlidesWithinOneWindow(p: Policy, lo: int, hi: int)
    requires p.Valid() && 0 <= lo < hi
    ensures Exceeds(p, lo, hi) <==> p.maxCount > 0 && WindowStart(lo, p) != WindowStart(hi - 1, p)
    ensures p.maxCount > 0 && WindowStart(lo, p) != WindowStart(hi - 1, p) ==>
      exists ts :: FixedWindow(ts, p) && CountBetween(ts, lo, hi) == 2 * p.maxCount
  {
    hide WindowStart, FixedWindow, CountWindow, CountBetween;
    if WindowStart(lo, p) != WindowStart(hi - 1, p) {
      Nothing(p);
      ThenRepeat([], lo, p.maxCount, p);
      var first := [] + Repeat(lo, p.maxCount);
      ThenRepeat(first, hi - 1, p.maxCount, p);
      assert CountBetween(first + Repeat(hi - 1, p.maxCount), lo, hi) == 2 * p.maxCount;
      if p.maxCount == 0 { AdmitsNothing(p, lo, hi); }
    } else {
      forall ts | FixedWindow(ts, p) ensures CountBetween(ts, lo, hi) <= p.maxCount {
        BetweenIsOneWindow(ts, p, lo, hi);
        WindowIsFull(ts, p, WindowStart(lo, p));
      }
    }
  }

  lemma Nothing(p: Policy)
    requires p.Valid()
    ensures FixedWindow([], p) && forall w :: CountWindow([], p, w) == 0
    ensures forall lo, hi :: CountBetween([], lo, hi) == 0
  {
  }

  lemma AdmitsNothing(p: Policy, lo: int, hi: int)
    requires p.Valid() && p.maxCount == 0
    ensures !Exceeds(p, lo, hi)
  {
    forall ts | FixedWindow(ts, p) ensures ts == [] {}
  }

  lemma {:induction false} BetweenIsOneWindow(ts: seq<int>, p: Policy, lo: int, hi: int)
    requires p.Valid() && 0 <= lo < hi && WindowStart(lo, p) == WindowStart(hi - 1, p)
    ensures CountBetween(ts, lo, hi) <= CountWindow(ts, p, WindowStart(lo, p))
  {
    hide WindowStart;
    if ts != [] {
      BetweenIsOneWindow(ts[..|ts| - 1], p, lo, hi);
      var t := ts[|ts| - 1];
      if lo <= t < hi {
        StartsGrow(lo, t, p);
        StartsGrow(t, hi - 1, p);
      }
    }
  }

  lemma StartsGrow(a: int, b: int, p: Policy)
    requires p.Valid() && 0 <= a <= b
    ensures WindowStart(a, p) <= WindowStart(b, p)
  {
    QuotientsGrow(a / 1000, b / 1000, p.windowSec);
  }

  lemma QuotientsGrow(a: int, b: int, w: int)
    requires w > 0 && 0 <= a <= b
    ensures a / w <= b / w && a / w * w <= b / w * w
  {
    var x, y := a / w, b / w;
    assert x > y ==> (y + 1) * w <= x * w;
  }

  // A window starts at a multiple of its length and contains the time.
  lemma WindowIs(now: int, p: Policy)
    requires p.windowSec > 0 && p.maxCount >= 0 && now >= 0
    ensures WindowStart(now, p) % p.windowSec == 0
    ensures WindowStart(now, p) * 1000 <= now < (WindowStart(now, p) + p.windowSec) * 1000
  {
    var q, r := now / 1000 / p.windowSec, now / 1000 % p.windowSec;
    assert now / 1000 == q * p.windowSec + r;
    MultipleOf(q, p.windowSec);
  }

  lemma MultipleOf(q: int, w: int)
    requires w > 0
    ensures q * w % w == 0
  {
    SameQuotient(q * w, w, q);
  }

  // Waiting for RetryAfter leads to the next window, and no earlier.
  lemma RetryIsNextWindow(now: int, p: Policy)
    requires p.Valid() && now >= 0
    ensures 1 <= RetryAfter(now, p) <= p.windowSec
    ensures WindowStart(now + RetryAfter(now, p) * 1000, p) == WindowStart(now, p) + p.windowSec
    ensures forall s :: 0 <= s < RetryAfter(now, p) ==> WindowStart(now + s * 1000, p) == WindowStart(now, p)
  {
    var w, sec := p.windowSec, now / 1000;
    var q, r := sec / w, sec % w;
    assert sec == q * w + r;
    assert RetryAfter(now, p) == w - r;
    assert (now + (w - r) * 1000) / 1000 == sec + (w - r) == q * w + w;
    SameQuotient(q * w + w, w, q + 1);
    forall s | 0 <= s < w - r ensures WindowStart(now + s * 1000, p) == q * w {
      assert (now + s * 1000) / 1000 == sec + s;
      SameQuotient(sec + s, w, q);
    }
  }

  // ---- The store and the script ----

  // buildKey's key, and what Redis keeps there: request IDs by time, until the
  // key expires.
  datatype Key = Key(scope: string, identity: string, windowStart: int)

  datatype ZSet = ZSet(scores: map<string, int>, expiresAt: int)

  datatype Result = Result(allowed: bool, current: int, remaining: int, retryAfter: int)

  datatype Admission = Admission(scope: string, identity: string, at: int, id: string)

  class RedisRateLimiter {
    const policyOf: string -> Policy      // the policy of each scope
    var store: map<Key, ZSet>
    ghost var admitted: seq<Admission>    // every request admitted so far
    ghost var last: int                   // the time of the last request

    ghost predicate Ready() { forall s :: policyOf(s).Valid() }

    ghost function KeyOf(a: Admission): Key
      requires Ready()
    {
      Key(a.scope, a.identity, WindowStart(a.at, policyOf(a.scope)))
    }

    // The admitted requests under a key, by ID.
    ghost function Under(hist: seq<Admission>, k: Key): (m: map<string, int>)
      requires Ready()
    {
      if hist == [] then map[]
      else
        var pre, a := Under(hist[..|hist| - 1], k), hist[|hist| - 1];
        if KeyOf(a) == k then pre[a.id := a.at] else pre
    }

    static ghost function TimesOf(hist: seq<Admission>, scope: string, identity: string): seq<int> {
      if hist == [] then []
      else
        var a := hist[|hist| - 1];
        TimesOf(hist[..|hist| - 1], scope, identity) + if a.scope == scope && a.identity == identity then [a.at] else []
    }

    // A key whose window is not over.
    ghost predicate Current(k: Key, now: int)
      requires Ready()
    {
      now < (k.windowStart + policyOf(k.scope).windowSec) * 1000
    }

    static function ScoresIn(st: map<Key, ZSet>, k: Key): map<string, int> {
      if k in st then st[k].scores else map[]
    }

    // Under the key of a window that is not over at time t, a store holds exactly
    // what was admitted in it, and will outlive the window.
    ghost predicate Faithful(st: map<Key, ZSet>, hist: seq<Admission>, t: int, k: Key)
      requires Ready()
    {
      Current(k, t) ==>
        && ScoresIn(st, k) == Under(hist, k)
        && (k in st ==> st[k].expiresAt > (k.windowStart + policyOf(k.scope).windowSec) * 1000)
    }

    ghost predicate Valid()
      reads this
    {
      && Ready() && last >= 0
      && (forall k :: Faithful(store, admitted, last, k))
      && (forall i, j :: 0 <= i < j < |admitted| ==> admitted[i].id != admitted[j].id)
      && (forall i :: 0 <= i < |admitted| ==> 0 <= admitted[i].at <= last)
      && (forall scope, identity :: FixedWindow(TimesOf(admitted, scope, identity), policyOf(scope)))
    }

    constructor (policyOf: string -> Policy)
      requires forall s :: policyOf(s).Valid()
      ensures Valid() && admitted == [] && this.policyOf == policyOf
    {
      this.policyOf := policyOf;
      store, admitted, last := map[], [], 0;
    }

    // Redis drops expired keys whenever it likes.
    method Expire(keys: set<Key>, now: int)
      requires Valid() && now >= last && forall k :: k in keys && k in store ==> store[k].expiresAt <= now
      modifies this
      ensures Valid() && admitted == old(admitted) && last == now
    {
      forall k
        ensures Faithful(store - keys, admitted, now, k)
      {
        assert Faithful(store, admitted, last, k);
      }
      store := store - keys;
      last := now;
    }

    // An entry under a key was admitted in the key's window.
    lemma {:induction false} UnderIs(hist: seq<Admission>, k: Key, id: string)
      requires Ready() && id in Under(hist, k)
      ensures exists i :: 0 <= i < |hist| && hist[i].id == id && hist[i].at == Under(hist, k)[id] && KeyOf(hist[i]) == k
    {
      var pre, a := hist[..|hist| - 1], hist[|hist| - 1];
      if KeyOf(a) == k && a.id == id {
        assert hist[|hist| - 1] == a;
      } else {
        UnderIs(pre, k, id);
        var i :| 0 <= i < |pre| && pre[i].id == id && pre[i].at == Under(pre, k)[id] && KeyOf(pre[i]) == k;
        assert hist[i] == pre[i];
      }
    }

    // With distinct IDs, as many entries as the counter of that window says.
    lemma {:induction false} UnderCounts(hist: seq<Admission>, k: Key)
      requires Ready() && forall i, j :: 0 <= i < j < |hist| ==> hist[i].id != hist[j].id
      ensures |Under(hist, k)| == CountWindow(TimesOf(hist, k.scope, k.identity), policyOf(k.scope), k.windowStart)
    {
      hide WindowStart;
      if hist != [] {
        var pre, a := hist[..|hist| - 1], hist[|hist| - 1];
        UnderCounts(pre, k);
        if a.id in Under(pre, k) { UnderIs(pre, k, a.id); }
        var ts := TimesOf(pre, k.scope, k.identity);
        assert (ts + [a.at])[..|ts|] == ts && ts + [] == ts;
      }
    }

    // Within its own window a key loses nothing: neither to the script's
    // expiry, which looks one window back, nor to its time to live.
    lemma NothingExpires(key: Key, now: int)
      requires Valid() && now >= last && key.windowStart == WindowStart(now, policyOf(key.scope))
      ensures ScoresIn(store, key) == Under(admitted, key)
      ensures key in store ==> now < store[key].expiresAt
      ensures forall id :: id in ScoresIn(store, key) ==> ScoresIn(store, key)[id] > now - policyOf(key.scope).WindowMs()
    {
      hide WindowStart;
      var p := policyOf(key.scope);
      WindowIs(now, p);
      assert Current(key, now) && Current(key, last) && Faithful(store, admitted, last, key);
      forall id | id in ScoresIn(store, key)
        ensures ScoresIn(store, key)[id] > now - p.WindowMs()
      {
        UnderIs(admitted, key, id);
        var i :| 0 <= i < |admitted| && admitted[i].id == id && admitted[i].at == ScoresIn(store, key)[id] && KeyOf(admitted[i]) == key;
        WindowIs(admitted[i].at, p);
      }
    }

    // Check: the script, under the key of the current window. The ID is one no
    // request had before.
    method Check(scope: string, identity: string, now: int, requestId: string) returns (r: Result)
      requires Valid() && now >= last && forall i :: 0 <= i < |admitted| ==> admitted[i].id != requestId
      modifies this
      ensures Valid() && last == now
      ensures
        var p := policyOf(scope);
        var count := CountWindow(TimesOf(old(admitted), scope, identity), p, WindowStart(now, p));
        && r.allowed == (count < p.maxCount)
        && admitted == old(admitted) + (if r.allowed then [Admission(scope, identity, now, requestId)] else [])
        && r.current == count + (if r.allowed then 1 else 0)
        && (r.allowed ==> r.remaining == p.maxCount - r.current) && (!r.allowed ==> r.remaining == 0)
        && r.retryAfter == RetryAfter(now, p)
        && (r.allowed ==>
              var key := Key(scope, identity, WindowStart(now, p));
              && key in store && requestId in store[key].scores && store[key].scores[requestId] == now
              && store[key].expiresAt == now + (p.windowSec + 60) * 1000)
    {
      hide WindowStart, FixedWindow, CountWindow, RetryAfter;
      var p := policyOf(scope);
      var key := Key(scope, identity, WindowStart(now, p));
      NothingExpires(key, now);
      UnderCounts(admitted, key);
      var scores := if key in store && now < store[key].expiresAt then store[key].scores else map[];
      scores := map m | m in scores && scores[m] > now - p.WindowMs() :: scores[m];
      assert scores == Under(admitted, key);
      var count := |scores|;
      if count < p.maxCount {
        Admit(key, scores, now, requestId);
        r := Result(true, count + 1, p.maxCount - count - 1, RetryAfter(now, p));
      } else {
        if key in store {
          store := store[key := ZSet(scores, store[key].expiresAt)];
          assert store == old(store);
        }
        LaterFaithful(store, now);
        last := now;
        r := Result(false, count, 0, RetryAfter(now, p));
      }
    }

    // ZADD and EXPIRE.
    method Admit(key: Key, scores: map<string, int>, now: int, requestId: string)
      requires Valid() && now >= last && scores == ScoresIn(store, key) == Under(admitted, key)
      requires forall i :: 0 <= i < |admitted| ==> admitted[i].id != requestId
      requires key.windowStart == WindowStart(now, policyOf(key.scope))
      requires CountWindow(TimesOf(admitted, key.scope, key.identity), policyOf(key.scope), key.windowStart) < policyOf(key.scope).maxCount
      modifies this
      ensures Valid() && last == now && admitted == old(admitted) + [Admission(key.scope, key.identity, now, requestId)]
      ensures key in store && store[key] == ZSet(scores[requestId := now], now + (policyOf(key.scope).windowSec + 60) * 1000)
    {
      hide WindowStart, FixedWindow, CountWindow;
      var p := policyOf(key.scope);
      var a := Admission(key.scope, key.identity, now, requestId);
      WindowIs(now, p);
      StillFixed(a);
      AdmitFaithful(key, now, a, store[key := ZSet(scores[requestId := now], now + (p.windowSec + 60) * 1000)]);
      store := store[key := ZSet(scores[requestId := now], now + (p.windowSec + 60) * 1000)];
      last := now;
      admitted := admitted + [a];
    }

    lemma LaterFaithful(st: map<Key, ZSet>, now: int)
      requires Ready() && now >= last && forall k :: Faithful(st, admitted, last, k)
      ensures forall k :: Faithful(st, admitted, now, k)
    {
      forall k ensures Faithful(st, admitted, now, k) {
        assert Faithful(st, admitted, last, k);
      }
    }

    lemma AdmitFaithful(key: Key, now: int, a: Admission, st: map<Key, ZSet>)
      requires Valid() && now >= last && KeyOf(a) == key && a.at == now && WindowStart(now, policyOf(key.scope)) * 1000 <= now
      requires key.windowStart == WindowStart(now, policyOf(key.scope)) && ScoresIn(store, key) == Under(admitted, key)
      requires st == store[key := ZSet(ScoresIn(store, key)[a.id := now], now + (policyOf(key.scope).windowSec + 60) * 1000)]
      ensures forall k :: Faithful(st, admitted + [a], now, k)
    {
      hide WindowStart;
      var hist := admitted + [a];
      assert hist[..|admitted|] == admitted;
      forall k ensures Faithful(st, hist, now, k) {
        assert Faithful(store, admitted, last, k);
      }
    }

    lemma StillFixed(a: Admission)
      requires Valid() && a.at >= last
      requires
        var p := policyOf(a.scope);
        CountWindow(TimesOf(admitted, a.scope, a.identity), p, WindowStart(a.at, p)) < p.maxCount
      ensures forall scope, identity :: FixedWindow(TimesOf(admitted + [a], scope, identity), policyOf(scope))
    {
      hide WindowStart;
      assert (admitted + [a])[..|admitted|] == admitted;
      forall scope, identity
        ensures FixedWindow(TimesOf(admitted + [a], scope, identity), policyOf(scope))
      {
        var ts := TimesOf(admitted, scope, identity);
        TimesAreBefore(admitted, scope, identity, last);
        assert (ts + [a.at])[..|ts|] == ts && ts + [] == ts;
      }
    }

    static lemma {:induction false} TimesAreBefore(hist: seq<Admission>, scope: string, identity: string, t: int)
      requires forall i :: 0 <= i < |hist| ==> 0 <= hist[i].at <= t
      ensures forall i :: 0 <= i < |TimesOf(hist, scope, identity)| ==> 0 <= TimesOf(hist, scope, identity)[i] <= t
    {
      if hist != [] { TimesAreBefore(hist[..|hist| - 1], scope, identity, t); }
    }

    // In any stretch of one window's length an identity is admitted at most
    // twice the maximum.
    lemma AdmitsAtMostTwice(scope: string, identity: string, lo: int, hi: int)
      requires Valid() && 0 <= lo && hi <= lo + policyOf(scope).WindowMs()
      ensures CountBetween(TimesOf(admitted, scope, identity), lo, hi) <= 2 * policyOf(scope).maxCount
    {
      TwiceTheMaximum(TimesOf(admitted, scope, identity), policyOf(scope), lo, hi);
    }

    // A request that waits for RetryAfter finds the counter of the next window
    // at what was admitted in it during the wait, and at 0 if nothing was: none
    // of the present history counts any more.
    lemma RetryFindsRoom(scope: string, identity: string, more: seq<Admission>)
      requires Valid()
      ensures
        var p := policyOf(scope);
        var next := WindowStart(last + RetryAfter(last, p) * 1000, p);
        CountWindow(TimesOf(admitted + more, scope, identity), p, next) == CountWindow(TimesOf(more, scope, identity), p, next)
    {
      hide WindowStart, RetryAfter, CountWindow, FixedWindow, TimesOf;
      var p := policyOf(scope);
      var ts, next := TimesOf(admitted, scope, identity), WindowStart(last + RetryAfter(last, p) * 1000, p);
      RetryIsNextWindow(last, p);
      TimesAreBefore(admitted, scope, identity, last);
      LaterWindowIsEmpty(ts, p, last, next);
      TimesConcat(admitted, more, scope, identity);
      CountConcat(ts, TimesOf(more, scope, identity), p, next);
    }

    static lemma {:induction false} TimesConcat(a: seq<Admission>, b: seq<Admission>, scope: string, identity: string)
      ensures TimesOf(a + b, scope, identity) == TimesOf(a, scope, identity) + TimesOf(b, scope, identity)
    {
      if b == [] {
        assert a + b == a;
      } else {
        TimesConcat(a, b[..|b| - 1], scope, identity);
        assert (a + b)[..|a + b| - 1] == a + b[..|b| - 1];
      }
    }

    static lemma {:induction false} CountConcat(a: seq<int>, b: seq<int>, p: Policy, w: int)
      requires p.Valid()
      ensures CountWindow(a + b, p, w) == CountWindow(a, p, w) + CountWindow(b, p, w)
    {
      hide WindowStart;
      if b == [] {
        assert a + b == a;
      } else {
        CountConcat(a, b[..|b| - 1], p, w);
        assert (a + b)[..|a + b| - 1] == a + b[..|b| - 1];
      }
    }

    static lemma {:induction false} LaterWindowIsEmpty(ts: seq<int>, p: Policy, t: int, w: int)
      requires p.Valid() && (forall i :: 0 <= i < |ts| ==> 0 <= ts[i] <= t) && w > WindowStart(t, p)
      ensures CountWindow(ts, p, w) == 0
    {
      if ts != [] {
        LaterWindowIsEmpty(ts[..|ts| - 1], p, t, w);
        StartsGrow(ts[|ts| - 1], t, p);
      }
    }
  }
}
