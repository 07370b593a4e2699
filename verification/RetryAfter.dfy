/**
 The Retry-After header (section 10.2.3 of RFC 9110) of an endpoint that lacks its database
 (server/handler.go), against what the updater published.
 */
module RetryAfter {
  import opened Wrappers
  import opened Schedule

  /** Go's division, which drops the fraction. */
  function Quotient(a: int, b: int): int
    requires b > 0
  {
    if a >= 0 then a / b else -(-a / b)
  }

  /** The time until the published time. An idle updater publishes the zero time, which is too
      long ago to count. */
  function Until(next: int64, now: int): int64 {
    if next == 0 then (-MAX_INT64 - 1) as int64 else Clamp(next as int - now)
  }

  /** The value of the header in seconds, none if it is not sent. */
  function Header(nextCheck: Option<int64>, now: int): Option<int> {
    if nextCheck == None then None else
      var wait := Until(nextCheck.value, now);
      if wait > 0 then Some(Quotient(Wrap(wait as int + SECOND - 1) as int, SECOND)) else None
  }

  /** In a wait the header is sent if and only if the check is not due yet and its time fits an
      int64. What it names is never before the check is due and less than a second after, if and
      only if the time left is not within a second of the greatest duration. */
  lemma WhileWaiting(interval: int64, w: Wait, now: int)
    requires ValidWait(interval, w) && 0 < w.set_ <= now
    ensures var header := Header(Some(w.next), now);
            && (header.Some? <==> now < Due(w) <= MAX_INT64)
            && (header.Some? ==>
                  (Due(w) <= now + header.value * SECOND < Due(w) + SECOND <==> Due(w) - now <= MAX_INT64 - SECOND + 1))
  {
    hide ValidWait, Quotient;
    var left := Due(w) - now;
    assert 0 < w.delay <= interval as int && w.next == Wrap(Due(w)) by {
      WaitIsPositive(interval, w);
    }
    if now < Due(w) <= MAX_INT64 {
      assert Until(w.next, now) as int == left;
      if left <= MAX_INT64 - SECOND + 1 {
        RoundedUp(left);
      } else {
        assert Wrap(left + SECOND - 1) as int < 0;
        QuotientOfNegative(Wrap(left + SECOND - 1) as int);
      }
    } else {
      assert w.next as int <= now;
    }
  }

  lemma WaitIsPositive(interval: int64, w: Wait)
    requires ValidWait(interval, w)
    ensures 0 < w.delay <= interval as int && w.next == Wrap(Due(w))
  {
  }

  lemma RoundedUp(left: int)
    requires 0 < left
    ensures left <= Quotient(left + SECOND - 1, SECOND) * SECOND < left + SECOND
  {
  }

  lemma QuotientOfNegative(a: int)
    requires a < 0
    ensures Quotient(a, SECOND) * SECOND <= 0
  {
  }

  /** While a check runs, the published time has passed, and nothing is sent. */
  lemma WhileChecking(interval: int64, waits: seq<Wait>, checks: seq<Check>, k: nat, now: int)
    requires ValidRun(interval, waits, checks) && k < |checks|
    requires waits[k].set_ > 0 && checks[k].start <= now
    ensures waits[k].next as int <= now && Header(Some(waits[k].next), now) == None
  {
    assert Follows(waits[k], checks[k], waits[k + 1]);
    WhileWaiting(interval, waits[k], now);
  }

  /** Nothing is sent without an updater or before and after its run. */
  lemma WhileIdle(now: int)
    ensures Header(None, now) == None && Header(Some(0), now) == None
  {
  }

  lemma {:induction false} WaitsInOrder(interval: int64, waits: seq<Wait>, checks: seq<Check>, k: nat)
    requires ValidRun(interval, waits, checks) && k < |waits|
    ensures waits[0].set_ <= waits[k].set_
  {
    if k == 0 {
    } else {
      WaitsInOrder(interval, waits, checks, k - 1);
      assert Follows(waits[k - 1], checks[k - 1], waits[k]);
      assert ValidWait(interval, waits[k - 1]);
    }
  }

  /** At every instant of a run, from idle before its first wait to idle after its last, with what
      is published at that instant: the header is sent if and only if the run is in a wait whose
      check is not due yet, at a time that fits an int64. It names a moment that is not before
      that check is due and less than a second after it, for every interval up to the 2562047
      hours that -u can mean. */
  lemma AtEveryInstant(interval: int64, waits: seq<Wait>, checks: seq<Check>, idle: int, k: nat, now: int)
    requires ValidRun(interval, waits, checks) && 0 < waits[0].set_
    requires var history := [Stamp(idle, 0)] + History(waits);
             k < |history| && history[k].at <= now && (k + 1 < |history| ==> now <= history[k + 1].at)
    ensures var header := Header(Some(([Stamp(idle, 0)] + History(waits))[k].next), now);
            && (header.Some? <==> 0 < k <= |waits| && now < Due(waits[k - 1]) <= MAX_INT64)
            && (header.Some? ==> waits[k - 1].stored <= now <= waits[k - 1].until)
            && (header.Some? && interval as int <= 2562047 * HOUR ==>
                  Due(waits[k - 1]) <= now + header.value * SECOND < Due(waits[k - 1]) + SECOND)
  {
    hide Header, Until;
    if k == 0 || k == |waits| + 1 {
      WhileIdle(now);
    } else {
      var w := waits[k - 1];
      assert ValidWait(interval, w);
      WaitsInOrder(interval, waits, checks, k - 1);
      WhileWaiting(interval, w, now);
      if k < |waits| {
        assert Follows(w, checks[k - 1], waits[k]);
      }
    }
  }
}
