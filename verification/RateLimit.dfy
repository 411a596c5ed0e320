/** The fixed-window rate limiter and its bound over arbitrary intervals. */
module RateLimit {

  /** A bucket whose start is 0 has not been used yet. */
  datatype Bucket = Bucket(count: nat, start: nat)

  datatype Settings = Settings(maxRequests: nat, window: int) {
    /** The first request of a window is always admitted. */
    function Capacity(): nat { if maxRequests == 0 then 1 else maxRequests }
  }

  datatype Decision = Decision(bucket: Bucket, limited: bool)

  function Decide(c: Settings, b: Bucket, now: nat): Decision {
    if b.start == 0 || now - b.start >= c.window then Decision(Bucket(1, now), false)
    else if b.count >= c.maxRequests then Decision(b, true)
    else Decision(b.(count := b.count + 1), false)
  }

  // ---- One key ----

  /** The bucket after requests at the given times. */
  function BucketAfter(c: Settings, times: seq<nat>): Bucket {
    if times == [] then Bucket(0, 0)
    else Decide(c, BucketAfter(c, times[..|times| - 1]), times[|times| - 1]).bucket
  }

  /** Would a request at `now` be admitted after requests at `times`? */
  predicate Admits(c: Settings, times: seq<nat>, now: nat) {
    !Decide(c, BucketAfter(c, times), now).limited
  }

  /** How many of the requests were admitted at a time from `lo` up to but excluding `hi`. */
  function Admitted(c: Settings, times: seq<nat>, lo: int, hi: int): nat {
    if times == [] then 0
    else
      var front, now := times[..|times| - 1], times[|times| - 1];
      Admitted(c, front, lo, hi) + if lo <= now < hi && Admits(c, front, now) then 1 else 0
  }

  /** A positive clock that never goes back. */
  ghost predicate Clock(times: seq<nat>) {
    && (forall i :: 0 <= i < |times| ==> times[i] > 0)
    && (forall i, j :: 0 <= i < j < |times| ==> times[i] <= times[j])
  }

  lemma {:induction false} AdmittedSplits(c: Settings, times: seq<nat>, lo: int, mid: int, hi: int)
    requires lo <= mid <= hi
    ensures Admitted(c, times, lo, hi) == Admitted(c, times, lo, mid) + Admitted(c, times, mid, hi)
    decreases |times|
  {
    if times != [] { AdmittedSplits(c, times[..|times| - 1], lo, mid, hi); }
  }

  lemma {:induction false} NoneAdmittedLater(c: Settings, times: seq<nat>, lo: int, hi: int)
    requires forall i :: 0 <= i < |times| ==> times[i] < lo
    ensures Admitted(c, times, lo, hi) == 0
    decreases |times|
  {
    if times != [] { NoneAdmittedLater(c, times[..|times| - 1], lo, hi); }
  }

  lemma {:induction false} AdmittedMonotone(c: Settings, times: seq<nat>, lo: int, lo': int, hi: int)
    requires lo <= lo' <= hi
    ensures Admitted(c, times, lo', hi) <= Admitted(c, times, lo, hi)
  {
    AdmittedSplits(c, times, lo, lo', hi);
  }

  /** Just past the last request. */
  function End(times: seq<nat>): nat {
    if times == [] then 0 else times[|times| - 1] + 1
  }

  /** Less than a window before `start`, all but one request at most are admitted. */
  ghost predicate ScarceBefore(c: Settings, times: seq<nat>, start: nat) {
    forall t :: start - c.window < t <= start ==> Admitted(c, times, t, start) <= c.Capacity() - 1
  }

  /**
   The state of the window: the bucket counts the requests admitted since its start, the first of
   them at the start itself, and few were admitted just before it.
   */
  ghost predicate WindowOk(c: Settings, times: seq<nat>) {
    var b, end := BucketAfter(c, times), End(times);
    times != [] ==>
      && 0 < b.start < end <= b.start + c.window && 1 <= b.count <= c.Capacity()
      && Admitted(c, times, b.start, end) == b.count
      && Admitted(c, times, b.start + 1, end) <= b.count - 1
      && ScarceBefore(c, times, b.start)
  }

  /** What a request past everything so far adds to a count. */
  lemma {:induction false} OneMore(c: Settings, front: seq<nat>, now: nat, lo: int, hi: int)
    ensures Admitted(c, front + [now], lo, hi) ==
            Admitted(c, front, lo, hi) + if lo <= now < hi && Admits(c, front, now) then 1 else 0
    ensures BucketAfter(c, front + [now]) == Decide(c, BucketAfter(c, front), now).bucket
    ensures End(front + [now]) == now + 1
  {
    var times := front + [now];
    assert times[..|times| - 1] == front;
  }

  lemma {:induction false} BeyondEnd(c: Settings, times: seq<nat>, lo: int, hi: int)
    requires Clock(times) && End(times) <= hi && lo <= End(times)
    ensures Admitted(c, times, lo, hi) == Admitted(c, times, lo, End(times))
  {
    AdmittedSplits(c, times, lo, End(times), hi);
    NoneAdmittedLater(c, times, End(times), hi);
  }

  lemma {:induction false} ClockFront(front: seq<nat>, now: nat)
    requires Clock(front + [now])
    ensures Clock(front) && now > 0 && End(front) <= now + 1
    ensures forall i :: 0 <= i < |front| ==> front[i] < End(front)
  {
    var times := front + [now];
    assert forall i :: 0 <= i < |front| ==> front[i] == times[i];
    assert times[|front|] == now;
  }

  /** Less than a window before a new window starts, only late requests of the old one can lie. */
  lemma {:induction false} BeforeNewWindow(c: Settings, front: seq<nat>, now: nat, t: int)
    requires c.window > 0 && Clock(front + [now]) && WindowOk(c, front)
    requires front == [] || now - BucketAfter(c, front).start >= c.window
    requires now - c.window < t <= now
    ensures Admitted(c, front, t, now) <= c.Capacity() - 1
  {
    ClockFront(front, now);
    if front != [] {
      if t <= End(front) {
        BeyondEnd(c, front, t, now);
        AdmittedMonotone(c, front, BucketAfter(c, front).start + 1, t, End(front));
      } else {
        NoneAdmittedLater(c, front, t, now);
      }
    }
  }

  /** The parts of the window's state, put together. */
  lemma {:induction false} WindowOf(c: Settings, times: seq<nat>, b: Bucket)
    requires times != [] && b == BucketAfter(c, times) && ScarceBefore(c, times, b.start)
    requires 0 < b.start < End(times) <= b.start + c.window && 1 <= b.count <= c.Capacity()
    requires Admitted(c, times, b.start, End(times)) == b.count
    requires Admitted(c, times, b.start + 1, End(times)) <= b.count - 1
    ensures WindowOk(c, times)
  {}

  // A request that opens a new window: it finds no request at its time, and few before it.

  lemma {:induction false} OpensWindow(c: Settings, front: seq<nat>, now: nat)
    requires c.window > 0 && Clock(front + [now]) && WindowOk(c, front)
    requires front == [] || now - BucketAfter(c, front).start >= c.window
    ensures now > 0 && (forall i :: 0 <= i < |front| ==> front[i] < now) && ScarceBefore(c, front + [now], now)
    ensures Decide(c, BucketAfter(c, front), now) == Decision(Bucket(1, now), false)
  {
    ClockFront(front, now);
    if front != [] {
      assert End(front) <= BucketAfter(c, front).start + c.window;
    }
    forall t | now - c.window < t <= now ensures Admitted(c, front + [now], t, now) <= c.Capacity() - 1 {
      OneMore(c, front, now, t, now);
      BeforeNewWindow(c, front, now, t);
    }
  }

  lemma {:induction false} NewWindow(c: Settings, front: seq<nat>, now: nat)
    requires c.window > 0 && now > 0 && forall i :: 0 <= i < |front| ==> front[i] < now
    requires ScarceBefore(c, front + [now], now)
    requires Decide(c, BucketAfter(c, front), now) == Decision(Bucket(1, now), false)
    ensures WindowOk(c, front + [now])
  {
    OneMore(c, front, now, now, now + 1);
    OneMore(c, front, now, now + 1, now + 1);
    NoneAdmittedLater(c, front, now, now + 1);
    NoneAdmittedLater(c, front, now + 1, now + 1);
    WindowOf(c, front + [now], Bucket(1, now));
  }

  // A request inside the current window: the counts go on from those of the earlier requests.

  lemma {:induction false} CountsGoOn(c: Settings, front: seq<nat>, now: nat, lo: nat)
    requires Clock(front + [now]) && lo <= End(front)
    ensures Admitted(c, front + [now], lo, now + 1) ==
            Admitted(c, front, lo, End(front)) + if lo <= now && Admits(c, front, now) then 1 else 0
  {
    ClockFront(front, now);
    OneMore(c, front, now, lo, now + 1);
    BeyondEnd(c, front, lo, now + 1);
  }

  lemma {:induction false} StillScarce(c: Settings, front: seq<nat>, now: nat, start: nat)
    requires ScarceBefore(c, front, start) && start <= now
    ensures ScarceBefore(c, front + [now], start)
  {
    forall t | start - c.window < t <= start ensures Admitted(c, front + [now], t, start) <= c.Capacity() - 1 {
      OneMore(c, front, now, t, start);
    }
  }

  lemma {:induction false} SameWindow(c: Settings, front: seq<nat>, now: nat)
    requires WindowOk(c, front) && front != [] && Clock(front + [now])
    requires now - BucketAfter(c, front).start < c.window
    ensures WindowOk(c, front + [now])
  {
    var b := BucketAfter(c, front);
    assert b.start <= now by { ClockFront(front, now); }
    OneMore(c, front, now, now, now);
    CountsGoOn(c, front, now, b.start);
    CountsGoOn(c, front, now, b.start + 1);
    StillScarce(c, front, now, b.start);
    WindowOf(c, front + [now], Decide(c, b, now).bucket);
  }

  lemma {:induction false} WindowInvariant(c: Settings, times: seq<nat>)
    requires c.window > 0 && Clock(times)
    ensures WindowOk(c, times)
    decreases |times|
  {
    if times != [] {
      var front, now := times[..|times| - 1], times[|times| - 1];
      assert times == front + [now];
      ClockFront(front, now);
      WindowInvariant(c, front);
      if front == [] || now - BucketAfter(c, front).start >= c.window {
        OpensWindow(c, front, now);
        NewWindow(c, front, now);
      } else {
        SameWindow(c, front, now);
      }
    }
  }

  /**
   The bound: over any run of the clock, at most `2 * capacity - 1` requests of a key are admitted
   in any half-open interval as long as the window, wherever it starts.
   */
  lemma {:induction false} IntervalBound(c: Settings, times: seq<nat>, t: int)
    requires Clock(times)
    ensures Admitted(c, times, t, t + c.window) <= 2 * c.Capacity() - 1
    decreases |times|
  {
    if times != [] {
      var front, now := times[..|times| - 1], times[|times| - 1];
      assert times == front + [now];
      ClockFront(front, now);
      IntervalBound(c, front, t);
      if t <= now < t + c.window {
        WindowInvariant(c, times);
        var s := BucketAfter(c, times).start;
        BeyondEnd(c, times, t, t + c.window);
        if t <= s {
          AdmittedSplits(c, times, t, s, now + 1);
        } else {
          AdmittedMonotone(c, times, s, t, now + 1);
        }
      }
    }
  }

  /** The current window started at a request already made, so a window of no length refuses nothing. */
  lemma {:induction false} StartIsPast(c: Settings, times: seq<nat>)
    requires Clock(times)
    ensures BucketAfter(c, times).start < End(times) || times == []
    decreases |times|
  {
    if times != [] {
      var front, now := times[..|times| - 1], times[|times| - 1];
      assert times == front + [now];
      ClockFront(front, now);
      StartIsPast(c, front);
    }
  }

  /** A refusal: the current window is open and has admitted at least `maxRequests` already. */
  lemma {:induction false} RefusalMeansFull(c: Settings, times: seq<nat>, now: nat)
    requires Clock(times + [now]) && !Admits(c, times, now)
    ensures var start := BucketAfter(c, times).start;
            && now < start + c.window
            && Admitted(c, times, start, now + 1) >= c.maxRequests
  {
    ClockFront(times, now);
    StartIsPast(c, times);
    WindowInvariant(c, times);
    var b := BucketAfter(c, times);
    BeyondEnd(c, times, b.start, now + 1);
  }

  // ---- The bound is reached ----

  function Repeat(x: nat, n: nat): seq<nat> { seq(n, _ => x) }

  /** `n` requests at one time inside the window, with room for all of them, are all admitted. */
  lemma {:induction false} BurstAdmitted(c: Settings, times: seq<nat>, x: nat, n: nat, lo: int, hi: int)
    requires var b := BucketAfter(c, times);
             b.start > 0 && x - b.start < c.window && b.count + n <= c.maxRequests && lo <= x < hi
    ensures BucketAfter(c, times + Repeat(x, n)) == BucketAfter(c, times).(count := BucketAfter(c, times).count + n)
    ensures Admitted(c, times + Repeat(x, n), lo, hi) == Admitted(c, times, lo, hi) + n
    decreases n
  {
    if n == 0 {
      assert times + Repeat(x, 0) == times;
    } else {
      BurstAdmitted(c, times, x, n - 1, lo, hi);
      assert times + Repeat(x, n) == times + Repeat(x, n - 1) + [x];
      OneMore(c, times + Repeat(x, n - 1), x, lo, hi);
    }
  }

  /** One request at 1, `k` at the end of its window, `n` at the start of the next. */
  function Bursts(w: nat, k: nat, n: nat): seq<nat> {
    [1] + Repeat(w, k) + [w + 1] + Repeat(w + 1, n)
  }

  lemma {:induction false} BurstsClock(w: nat, k: nat, n: nat)
    requires w >= 1
    ensures Clock(Bursts(w, k, n))
  {
    var times := Bursts(w, k, n);
    assert forall i :: 0 <= i < |times| ==> times[i] == if i == 0 then 1 else if i <= k then w else w + 1;
  }

  /**
   The bound is tight: one request, a burst at the end of its window and a burst at the start of
   the next put `2 * maxRequests - 1` into one interval.
   */
  lemma {:induction false} BoundIsReached(c: Settings)
    requires c.window >= 2 && c.maxRequests >= 1
    ensures var times := Bursts(c.window, c.maxRequests - 1, c.maxRequests - 1);
            Clock(times) && Admitted(c, times, 2, 2 + c.window) == 2 * c.Capacity() - 1
  {
    var n, w := c.maxRequests - 1, c.window;
    BurstsClock(w, n, n);
    var first := [1];
    assert BucketAfter(c, first) == Bucket(1, 1) && Admitted(c, first, 2, 2 + w) == 0 by {
      assert first == [] + [1];
      OneMore(c, [], 1, 2, 2 + w);
    }
    BurstAdmitted(c, first, w, n, 2, 2 + w);
    var late := first + Repeat(w, n);
    OneMore(c, late, w + 1, 2, 2 + w);
    BurstAdmitted(c, late + [w + 1], w + 1, n, 2, 2 + w);
  }

  // ---- When the window slides ----

  /** A sliding window: no interval as long as the window admits more than the capacity. */
  ghost predicate Slides(c: Settings) {
    forall times, t :: Clock(times) ==> WithinCapacity(c, times, t)
  }

  ghost predicate WithinCapacity(c: Settings, times: seq<nat>, t: int) {
    Admitted(c, times, t, t + c.window) <= c.Capacity()
  }

  /** A window of one time unit holds the requests of one moment only. */
  lemma {:induction false} OneMoment(c: Settings, times: seq<nat>, t: int)
    requires c.window <= 1 && Clock(times)
    ensures Admitted(c, times, t, t + c.window) <= c.Capacity()
    decreases |times|
  {
    if times != [] {
      var front, now := times[..|times| - 1], times[|times| - 1];
      assert times == front + [now];
      ClockFront(front, now);
      OneMoment(c, front, t);
      if t <= now < t + c.window {
        WindowInvariant(c, times);
        BeyondEnd(c, times, t, t + c.window);
      }
    }
  }

  /** The limiter is a sliding window if and only if it admits one request at a time, or its window is one time unit. */
  lemma {:induction false} SlidesExactly(c: Settings)
    ensures Slides(c) <==> c.maxRequests <= 1 || c.window <= 1
  {
    if c.maxRequests <= 1 || c.window <= 1 {
      forall times, t | Clock(times) ensures WithinCapacity(c, times, t) {
        if c.window <= 1 { OneMoment(c, times, t); } else { IntervalBound(c, times, t); }
      }
    } else {
      BoundIsReached(c);
      var times := Bursts(c.window, c.maxRequests - 1, c.maxRequests - 1);
      assert !WithinCapacity(c, times, 2);
    }
  }

  // ---- The limiter ----

  type Key = string

  datatype Request = Request(key: Key, time: nat)

  /** The times of the requests for `key`. */
  function TimesOf(history: seq<Request>, key: Key): seq<nat> {
    if history == [] then []
    else
      var front, last := TimesOf(history[..|history| - 1], key), history[|history| - 1];
      if last.key == key then front + [last.time] else front
  }

  class Limiter {
    const settings: Settings
    var buckets: map<Key, Bucket>
    ghost var history: seq<Request>

    /** Each key's bucket depends on that key's requests alone. */
    ghost predicate Valid()
      reads this
    {
      forall key :: (if key in buckets then buckets[key] else Bucket(0, 0)) ==
                    BucketAfter(settings, TimesOf(history, key))
    }

    constructor (settings: Settings)
      ensures Valid() && this.settings == settings && history == []
    {
      this.settings := settings;
      buckets, history := map[], [];
    }

    /** Decides a request and counts it; interleaved requests of other keys make no difference. */
    method IsLimited(key: Key, now: nat) returns (limited: bool)
      requires Valid()
      modifies this
      ensures Valid() && history == old(history) + [Request(key, now)]
      ensures limited <==> !Admits(settings, TimesOf(old(history), key), now)
    {
      var b := if key in buckets then buckets[key] else Bucket(0, 0);
      if b.start == 0 || now - b.start >= settings.window {
        buckets := buckets[key := Bucket(1, now)];
        limited := false;
      } else if b.count >= settings.maxRequests {
        buckets := buckets[key := b];
        limited := true;
      } else {
        buckets := buckets[key := b.(count := b.count + 1)];
        limited := false;
      }
      history := history + [Request(key, now)];
      forall k ensures (if k in buckets then buckets[k] else Bucket(0, 0)) ==
                       BucketAfter(settings, TimesOf(history, k))
      {
        assert history[..|history| - 1] == old(history);
        if k == key { OneMore(settings, TimesOf(old(history), key), now, 0, 0); }
      }
    }
  }
}
