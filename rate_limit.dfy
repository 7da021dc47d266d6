/**
 * The process-wide call-rate limiter of the loan-check endpoint.
 *
 * The limiter keeps the timestamps of the most recent admitted calls in a
 * deque bounded to `maxLen` entries (appending to a full deque drops its
 * oldest entry). A call is refused, and nothing is recorded, when the deque
 * is full and fewer than `seconds` whole seconds have passed since its
 * oldest entry; otherwise the call's time is appended and the call goes on.
 *
 * Times are Python `datetime` values, here an integer number of
 * microseconds since an arbitrary epoch; the clock is an input of each call.
 * The elapsed time is the `seconds` attribute of the difference: the whole
 * seconds of the normalised `timedelta`, whose whole days are kept apart
 * in `days` and are therefore not counted.
 */
module RateLimit {

  /** A point in time, in microseconds. */
  type Timestamp = int

  /** The limits the loan-check endpoint is decorated with. */
  const MAX_LEN: nat := 5
  const SECONDS: int := 30

  // -------------------------------------------------------------- timedelta

  /** A Python `timedelta`: days, seconds and microseconds. */
  datatype Timedelta = Timedelta(days: int, seconds: int, microseconds: int)

  /** The duration a `timedelta` stands for, in microseconds. */
  function TotalMicros(t: Timedelta): int {
    t.days * 86_400_000_000 + t.seconds * 1_000_000 + t.microseconds
  }

  /** Python keeps `0 <= seconds < 86400` and `0 <= microseconds < 10**6`; only `days` may be negative. */
  predicate Normalized(t: Timedelta) {
    0 <= t.seconds < 86_400 && 0 <= t.microseconds < 1_000_000
  }

  /** The difference of two datetimes `d` microseconds apart, normalised as Python does. */
  function FromMicros(d: int): (t: Timedelta)
    ensures Normalized(t)
    ensures TotalMicros(t) == d
  {
    var s := d / 1_000_000;   // floor division: the divisor is positive
    Timedelta(s / 86_400, s % 86_400, d % 1_000_000)
  }

  /** Division by 10^6 with a remainder in range gives that quotient and remainder. */
  lemma DivModMicros(d: int, q: int, r: int)
    requires 0 <= r < 1_000_000 && d == q * 1_000_000 + r
    ensures d / 1_000_000 == q && d % 1_000_000 == r
  {
  }

  /** Division by 86400 with a remainder in range gives that quotient and remainder. */
  lemma DivModDay(s: int, q: int, r: int)
    requires 0 <= r < 86_400 && s == q * 86_400 + r
    ensures s / 86_400 == q && s % 86_400 == r
  {
  }

  /** The normalised form is unique: it is the only representation with fields in range. */
  lemma FromMicrosUnique(t: Timedelta)
    requires Normalized(t)
    ensures FromMicros(TotalMicros(t)) == t
  {
    var d := TotalMicros(t);
    var s := t.days * 86_400 + t.seconds;
    DivModMicros(d, s, t.microseconds);
    DivModDay(s, t.days, t.seconds);
  }

  /** Within a day, the `seconds` of a non-negative difference are its whole seconds. */
  lemma SecondsWithinADay(d: int)
    requires 0 <= d < 86_400_000_000
    ensures FromMicros(d).seconds == d / 1_000_000
  {
    FromMicrosUnique(Timedelta(0, d / 1_000_000, d % 1_000_000));
  }

  // ------------------------------------------------------------ the deque

  /** The newest `n` entries of a history (all of it when it is shorter). */
  function Newest(h: seq<Timestamp>, n: nat): (r: seq<Timestamp>)
    ensures |r| == if |h| <= n then |h| else n
  {
    if |h| <= n then h else h[|h| - n..]
  }

  /** `deq.append(x)` on a `deque(maxlen=capacity)`: a full deque first drops its oldest entry. */
  function Appended(deq: seq<Timestamp>, capacity: nat, x: Timestamp): (r: seq<Timestamp>)
    requires |deq| <= capacity
    ensures |r| <= capacity
    ensures capacity == 0 ==> r == []
    ensures capacity > 0 ==> |r| > 0 && r[|r| - 1] == x
    ensures capacity > 0 && |deq| < capacity ==> r[..|r| - 1] == deq
    ensures capacity > 0 && |deq| == capacity ==> r[..|r| - 1] == deq[1..]
  {
    if capacity == 0 then []
    else if |deq| == capacity then deq[1..] + [x]
    else deq + [x]
  }

  /** A bounded deque fed with a history holds exactly the newest entries of that history. */
  lemma AppendedKeepsNewest(h: seq<Timestamp>, n: nat, x: Timestamp)
    ensures Appended(Newest(h, n), n, x) == Newest(h + [x], n)
  {
    var hx := h + [x];
    if n > 0 && |h| >= n {
      assert Newest(h, n) == h[|h| - n..];
      assert Newest(hx, n) == hx[|hx| - n..];
      assert h[|h| - n..][1..] == h[|h| - n + 1..];
      assert hx[|hx| - n..] == h[|h| - n + 1..] + [x];
    } else if n > 0 {
      assert Newest(hx, n) == hx;
    }
  }

  // ---------------------------------------------------------- the decision

  /**
   * The `seconds` of a difference are the whole seconds of what is left of
   * it after taking out whole days.
   */
  lemma SecondsOfDayRemainder(d: int)
    ensures FromMicros(d).seconds * 1_000_000 <= d % 86_400_000_000 < (FromMicros(d).seconds + 1) * 1_000_000
  {
    var m := d % 86_400_000_000;
    var q := d / 86_400_000_000;
    var a := m / 1_000_000;
    var b := m % 1_000_000;
    assert m == a * 1_000_000 + b;
    assert a < 86_400;
    DivModMicros(d, q * 86_400 + a, b);
    DivModDay(q * 86_400 + a, q, a);
  }

  /**
   * The wrapper's guard, as written: refuse when full and the oldest entry
   * is recent. Because `seconds` drops whole days, "recent" means that the
   * time elapsed, taken modulo a day, is under the window.
   */
  predicate Rejects(deq: seq<Timestamp>, maxlen: int, seconds: int, now: Timestamp): (r: bool)
    ensures r ==> |deq| == maxlen > 0
    ensures r <==> |deq| != 0 && |deq| == maxlen && (now - deq[0]) % 86_400_000_000 < seconds * 1_000_000
  {
    if |deq| == 0 then false
    else
      SecondsOfDayRemainder(now - deq[0]);
      |deq| == maxlen && FromMicros(now - deq[0]).seconds < seconds
  }

  /**
   * The comparison is strict: a call exactly `seconds` whole seconds after
   * the oldest entry is admitted, one a microsecond earlier is refused.
   */
  lemma BoundaryIsAdmitted(deq: seq<Timestamp>, seconds: int, now: Timestamp)
    requires |deq| > 0 && 0 < seconds < 86_400
    requires seconds * 1_000_000 <= now - deq[0] < (seconds + 1) * 1_000_000
    ensures !Rejects(deq, |deq|, seconds, now)
    ensures Rejects(deq, |deq|, seconds, deq[0] + seconds * 1_000_000 - 1)
  {
    var d := now - deq[0];
    SecondsWithinADay(d);
    DivModMicros(d, seconds, d - seconds * 1_000_000);
    var e := seconds * 1_000_000 - 1;
    SecondsWithinADay(e);
    DivModMicros(e, seconds - 1, 999_999);
  }

  /** Any `n + 1` consecutive admitted calls span at least `seconds` seconds. */
  ghost predicate Spaced(h: seq<Timestamp>, n: nat, seconds: int) {
    forall i :: 0 <= i && i + n < |h| ==> h[i + n] - h[i] >= seconds * 1_000_000
  }

  /** The clock never went back between admitted calls. */
  ghost predicate NonDecreasing(h: seq<Timestamp>) {
    forall i, j :: 0 <= i <= j < |h| ==> h[i] <= h[j]
  }

  /**
   * In a spaced history, two admitted calls `n` or more places apart are at
   * least `seconds` seconds apart: no stretch shorter than the window holds
   * more than `n` admitted calls.
   */
  lemma SpacedBoundsWindow(h: seq<Timestamp>, n: nat, seconds: int, i: nat, j: nat)
    requires Spaced(h, n, seconds) && NonDecreasing(h)
    requires i + n <= j < |h|
    ensures h[j] - h[i] >= seconds * 1_000_000
  {
    assert h[i + n] - h[i] >= seconds * 1_000_000;
    assert h[i + n] <= h[j];
  }

  /**
   * Sliding window by count: while the clock does not go back, admitting a
   * call keeps every `n + 1` consecutive admitted calls at least `seconds`
   * seconds apart.
   */
  lemma AdmittedCallKeepsSpacing(h: seq<Timestamp>, n: nat, seconds: int, now: Timestamp)
    requires n > 0 && Spaced(h, n, seconds)
    requires |h| > 0 ==> h[|h| - 1] <= now
    requires NonDecreasing(h)
    requires !Rejects(Newest(h, n), n, seconds, now)
    ensures Spaced(h + [now], n, seconds)
    ensures NonDecreasing(h + [now])
  {
    var hx := h + [now];
    forall i | 0 <= i && i + n < |hx| ensures hx[i + n] - hx[i] >= seconds * 1_000_000 {
      if i + n == |h| {
        var d := now - h[i];
        assert Newest(h, n)[0] == h[i];
        assert d >= 0 by {
          assert h[i] <= h[|h| - 1];
        }
        var t := FromMicros(d);
        assert t.seconds >= seconds;
        assert d / 1_000_000 >= t.seconds by {
          assert d / 1_000_000 == t.days * 86_400 + t.seconds by {
            DivModMicros(d, t.days * 86_400 + t.seconds, t.microseconds);
          }
          assert t.days >= 0;
        }
      }
    }
  }

  // ----------------------------------------------------- the intended guard

  /** The guard as evidently intended: compare the whole elapsed time with the window. */
  predicate RejectsIntended(deq: seq<Timestamp>, maxlen: int, seconds: int, now: Timestamp): (r: bool)
    ensures r ==> |deq| == maxlen > 0
    ensures r <==> |deq| != 0 && |deq| == maxlen && TotalMicros(FromMicros(now - deq[0])) < seconds * 1_000_000
  {
    |deq| != 0 && |deq| == maxlen && now - deq[0] < seconds * 1_000_000
  }

  /** Less than a day after the oldest entry, the written guard and the intended one agree. */
  lemma GuardsAgreeWithinADay(deq: seq<Timestamp>, maxlen: int, seconds: int, now: Timestamp)
    requires |deq| > 0 ==> 0 <= now - deq[0] < 86_400_000_000
    ensures Rejects(deq, maxlen, seconds, now) == RejectsIntended(deq, maxlen, seconds, now)
  {
    if |deq| > 0 {
      var d := now - deq[0];
      SecondsWithinADay(d);
    }
  }

  /**
   * The written guard counts only the seconds beside whole days: five calls
   * at time 0 refuse a call made a day and five seconds later, which the
   * intended guard admits.
   */
  lemma DayWrapRefusesIdleCaller()
    ensures Rejects([0, 0, 0, 0, 0], MAX_LEN, SECONDS, 86_405_000_000)
    ensures !RejectsIntended([0, 0, 0, 0, 0], MAX_LEN, SECONDS, 86_405_000_000)
  {
    FromMicrosUnique(Timedelta(1, 5, 0));
  }

  /** With the intended guard, admitting a call keeps the spacing whatever the clock does. */
  lemma IntendedCallKeepsSpacing(h: seq<Timestamp>, n: nat, seconds: int, now: Timestamp)
    requires n > 0 && Spaced(h, n, seconds)
    requires !RejectsIntended(Newest(h, n), n, seconds, now)
    ensures Spaced(h + [now], n, seconds)
  {
    var hx := h + [now];
    forall i | 0 <= i && i + n < |hx| ensures hx[i + n] - hx[i] >= seconds * 1_000_000 {
      if i + n == |h| {
        assert Newest(h, n)[0] == h[i];
      }
    }
  }

  // ------------------------------------------------------------ the limiter

  /** The global deque and the limits of the decorator that reads it. */
  class RateLimiter {
    const maxLen: nat
    const seconds: int
    var deq: seq<Timestamp>
    /** Every call admitted so far, oldest first. */
    ghost var accepted: seq<Timestamp>

    ghost predicate Valid()
      reads this
    {
      deq == Newest(accepted, maxLen)
    }

    /** The admitted calls are in clock order and every `maxLen + 1` of them span the window. */
    ghost predicate Paced()
      reads this
    {
      Spaced(accepted, maxLen, seconds) && NonDecreasing(accepted)
    }

    /** The clock reads no earlier than the last admitted call. */
    ghost predicate NotBefore(now: Timestamp)
      reads this
    {
      |accepted| > 0 ==> accepted[|accepted| - 1] <= now
    }

    constructor (maxLen: nat, seconds: int)
      ensures Valid()
      ensures this.maxLen == maxLen && this.seconds == seconds
      ensures deq == [] && accepted == []
    {
      this.maxLen := maxLen;
      this.seconds := seconds;
      deq := [];
      accepted := [];
    }

    /**
     * One call through the wrapper: `allowed` is false where the source
     * raises `RateLimitException`, in which case the wrapped endpoint is
     * not run and nothing is recorded.
     */
    method Call(now: Timestamp) returns (allowed: bool)
      requires Valid()
      modifies this
      ensures Valid()
      ensures |deq| <= maxLen
      ensures allowed <==> !Rejects(old(deq), maxLen, seconds, now)
      ensures |old(deq)| < maxLen ==> allowed
      ensures !allowed ==> deq == old(deq) && accepted == old(accepted)
      ensures allowed ==> deq == Appended(old(deq), maxLen, now) && accepted == old(accepted) + [now]
      ensures allowed && maxLen > 0 && |old(deq)| == maxLen ==> deq == old(deq)[1..] + [now]
      ensures maxLen > 0 && old(Paced()) && old(NotBefore(now)) ==> Paced()
    {
      if |deq| != 0 {
        if |deq| == maxLen && FromMicros(now - deq[0]).seconds < seconds {
          return false;
        }
      }
      if maxLen > 0 && Paced() && NotBefore(now) {
        AdmittedCallKeepsSpacing(accepted, maxLen, seconds, now);
      }
      AppendedKeepsNewest(accepted, maxLen, now);
      deq := Appended(deq, maxLen, now);
      accepted := accepted + [now];
      allowed := true;
    }

    /** `Call` with the intended guard: the spacing is kept whatever the clock does. */
    method CallIntended(now: Timestamp) returns (allowed: bool)
      requires Valid()
      modifies this
      ensures Valid()
      ensures allowed <==> !RejectsIntended(old(deq), maxLen, seconds, now)
      ensures !allowed ==> deq == old(deq) && accepted == old(accepted)
      ensures allowed ==> deq == Appended(old(deq), maxLen, now) && accepted == old(accepted) + [now]
      ensures maxLen > 0 && old(Spaced(accepted, maxLen, seconds)) ==> Spaced(accepted, maxLen, seconds)
    {
      if |deq| != 0 {
        if |deq| == maxLen && now - deq[0] < seconds * 1_000_000 {
          return false;
        }
      }
      if maxLen > 0 && Spaced(accepted, maxLen, seconds) {
        IntendedCallKeepsSpacing(accepted, maxLen, seconds, now);
      }
      AppendedKeepsNewest(accepted, maxLen, now);
      deq := Appended(deq, maxLen, now);
      accepted := accepted + [now];
      allowed := true;
    }
  }

  /** A fresh loan-check limiter after five calls a tenth of a second apart, all admitted. */
  method FillWindow(t0: Timestamp) returns (limiter: RateLimiter, verdicts: seq<bool>)
    ensures fresh(limiter) && limiter.Valid()
    ensures limiter.maxLen == MAX_LEN && limiter.seconds == SECONDS
    ensures limiter.deq == [t0, t0 + 100_000, t0 + 200_000, t0 + 300_000, t0 + 400_000]
    ensures verdicts == [true, true, true, true, true]
  {
    limiter := new RateLimiter(MAX_LEN, SECONDS);
    var a := limiter.Call(t0);
    var b := limiter.Call(t0 + 100_000);
    var c := limiter.Call(t0 + 200_000);
    var d := limiter.Call(t0 + 300_000);
    var e := limiter.Call(t0 + 400_000);
    verdicts := [a, b, c, d, e];
  }

  /**
   * Five calls within half a second pass, a sixth just under thirty seconds
   * after the first is refused, and one exactly thirty seconds after the
   * first is admitted again.
   */
  method LoanCheckBurst(t0: Timestamp) returns (verdicts: seq<bool>)
    ensures verdicts == [true, true, true, true, true, false, true]
  {
    var limiter, first := FillWindow(t0);
    SecondsWithinADay(29_999_999);
    var f := limiter.Call(t0 + 29_999_999);
    SecondsWithinADay(30_000_000);
    var g := limiter.Call(t0 + 30_000_000);
    verdicts := first + [f, g];
  }
}
