/** The sheet adapter's sliding-window rate limiter. The clock is a parameter
    and sleeping is an advance of it: a call at time `now` that has to wait
    `sleep` seconds is made, and recorded, at `now + sleep`. */
module RateLimiter {

  /** `rate_limit.max_requests` and `rate_limit.per_seconds` as configured. */
  const MaxRequests: nat := 100
  const PerSeconds: nat := 60

  /** The `array_filter` step: the timestamps still inside the window that
      ends at `now`, in their original order. */
  function Retain(window: seq<int>, now: int): (kept: seq<int>)
    ensures |kept| <= |window|
    ensures forall t :: t in kept <==> t in window && t > now - PerSeconds
    decreases |window|
  {
    if |window| == 0 then []
    else (if window[0] > now - PerSeconds then [window[0]] else []) + Retain(window[1..], now)
  }

  /** What `checkRateLimit` decides: the window it keeps and how long it sleeps. */
  datatype Admission = Admission(window: seq<int>, sleep: nat)

  /** `checkRateLimit`: when the retained window is full, sleep until just
      after the newest retained timestamp (the array's last entry) leaves the
      window; the call then proceeds without checking again. */
  function CheckRateLimit(window: seq<int>, now: int): (a: Admission)
    ensures a.window == Retain(window, now)
    ensures a.sleep > 0 <==> |a.window| >= MaxRequests
    ensures a.sleep > 0 ==> a.sleep == a.window[|a.window| - 1] - (now - PerSeconds) + 1
  {
    var kept := Retain(window, now);
    if |kept| >= MaxRequests then
      assert kept[|kept| - 1] in kept;
      Admission(kept, kept[|kept| - 1] - (now - PerSeconds) + 1)
    else Admission(kept, 0)
  }

  /** The recorded timestamps are in call order and none lies in the future. */
  predicate WindowValid(window: seq<int>, now: int) {
    (forall i, j :: 0 <= i < j < |window| ==> window[i] <= window[j])
    && forall k :: 0 <= k < |window| ==> window[k] <= now
  }

  lemma {:induction false} RetainSubsequence(window: seq<int>, now: int)
    requires WindowValid(window, now)
    ensures WindowValid(Retain(window, now), now)
    decreases |window|
  {
    if |window| > 0 {
      RetainSubsequence(window[1..], now);
      var rest := Retain(window[1..], now);
      assert forall k :: 0 <= k < |rest| ==> rest[k] in window[1..];
    }
  }

  /** A sleep always lasts at least two seconds: the newest retained timestamp
      is strictly inside the window. */
  lemma SleepAtLeastTwo(window: seq<int>, now: int)
    requires CheckRateLimit(window, now).sleep > 0
    ensures CheckRateLimit(window, now).sleep >= 2
  {
    var kept := Retain(window, now);
    assert kept[|kept| - 1] in kept;
  }

  /** Retaining at a later time keeps no more than retaining earlier. */
  lemma {:induction false} RetainLater(window: seq<int>, now: int, later: int)
    requires now <= later
    ensures |Retain(window, later)| <= |Retain(window, now)|
    decreases |window|
  {
    if |window| > 0 {
      RetainLater(window[1..], now, later);
    }
  }

  /** Retaining is idempotent at a fixed time. */
  lemma {:induction false} RetainTwice(window: seq<int>, now: int)
    ensures Retain(Retain(window, now), now) == Retain(window, now)
    decreases |window|
  {
    if |window| > 0 {
      RetainTwice(window[1..], now);
      if window[0] > now - PerSeconds {
        var s := [window[0]] + Retain(window[1..], now);
        assert Retain(window, now) == s;
        assert s[0] == window[0] && s[1..] == Retain(window[1..], now);
        assert Retain(s, now) == [s[0]] + Retain(s[1..], now);
      } else {
        assert Retain(window, now) == Retain(window[1..], now);
      }
    }
  }

  /** Once the clock is past the window of the newest timestamp of an ordered
      window, nothing of it is retained. */
  lemma {:induction false} RetainNothingAfter(window: seq<int>, now: int, newest: int)
    requires forall k :: 0 <= k < |window| ==> window[k] <= newest
    requires newest <= now - PerSeconds
    ensures Retain(window, now) == []
    decreases |window|
  {
    if |window| > 0 {
      RetainNothingAfter(window[1..], now, newest);
    }
  }

  /** After the sleep, every timestamp that filled the window has left it. */
  lemma SleepEmptiesWindow(window: seq<int>, now: int)
    requires WindowValid(window, now)
    requires CheckRateLimit(window, now).sleep > 0
    ensures var a := CheckRateLimit(window, now);
            Retain(a.window, now + a.sleep) == []
  {
    var a := CheckRateLimit(window, now);
    RetainSubsequence(window, now);
    var newest := a.window[|a.window| - 1];
    RetainNothingAfter(a.window, now + a.sleep, newest);
  }

  /** The window after a call admitted at `now` and recorded at
      `now + sleep`. */
  function Record(window: seq<int>, now: int): (w: seq<int>)
    ensures |w| > 0 && w[|w| - 1] >= now
    ensures w[|w| - 1] > now <==> |Retain(window, now)| >= MaxRequests
    ensures forall t :: t in w[..|w| - 1] <==> t in window && t > now - PerSeconds
  {
    var a := CheckRateLimit(window, now);
    a.window + [now + a.sleep]
  }

  /** Recording keeps the window ordered and not in the future. */
  lemma RecordKeepsValid(window: seq<int>, now: int)
    requires WindowValid(window, now)
    ensures WindowValid(Record(window, now), now + CheckRateLimit(window, now).sleep)
  {
    RetainSubsequence(window, now);
  }

  /** The limiter's promise: after any admitted call, at no later time does
      the window hold more than `MaxRequests` recorded calls. */
  lemma RecordRespectsLimit(window: seq<int>, now: int, later: int)
    requires WindowValid(window, now)
    requires later >= now + CheckRateLimit(window, now).sleep
    ensures |Retain(Record(window, now), later)| <= MaxRequests
  {
    var a := CheckRateLimit(window, now);
    var t := now + a.sleep;
    RetainConcat(a.window, [t], later);
    RetainLater(a.window, now, later);
    RetainTwice(window, now);
    if a.sleep > 0 {
      SleepEmptiesWindow(window, now);
      RetainLater(a.window, t, later);
    }
  }

  lemma {:induction false} RetainConcat(a: seq<int>, b: seq<int>, now: int)
    ensures Retain(a + b, now) == Retain(a, now) + Retain(b, now)
    decreases |a|
  {
    if |a| > 0 {
      assert (a + b)[1..] == a[1..] + b;
      RetainConcat(a[1..], b, now);
    } else {
      assert a + b == b;
    }
  }
}
