/**
 When the updater checks next (maxmind/maxmind.go), and what that adds up to over a whole run: how
 often it checks, and what it publishes for Retry-After. Durations are int64 nanoseconds that
 wrap and saturate where Go's do.
 */
module Schedule {
  import opened Wrappers
  import opened Arithmetic

  const MAX_INT64: int := 0x7fff_ffff_ffff_ffff
  const TWO64: int := 0x1_0000_0000_0000_0000

  newtype int64 = x: int | -0x8000_0000_0000_0000 <= x < 0x8000_0000_0000_0000

  const SECOND: int := 1_000_000_000
  const HOUR: int := 3600 * SECOND

  const RETRY_INTERVAL: int64 := 1_800_000_000_000  // 30 minutes
  const MAX_RETRIES: int := 2

  /** Two's complement: what is left of x in 64 bits. */
  function Wrap(x: int): (r: int64)
    ensures -MAX_INT64 - 1 <= x <= MAX_INT64 ==> r as int == x
    ensures x > MAX_INT64 ==> (r as int) < x
    ensures (x - r as int) % 0x1_0000_0000_0000_0000 == 0
  {
    ((x + MAX_INT64 + 1) % TWO64 - MAX_INT64 - 1) as int64
  }

  /** A difference of two times, held at the ends of int64. */
  function Clamp(x: int): int64 {
    if x > MAX_INT64 then MAX_INT64 as int64
    else if x < -MAX_INT64 - 1 then (-MAX_INT64 - 1) as int64
    else x as int64
  }

  // ------------------------------------------------------------------ intervals

  /** The -u flag as a duration. */
  function UpdateInterval(hours: nat): int64 {
    Wrap(hours * HOUR)
  }

  /** Up to 2562047 hours, and no further, the flag means that many hours. */
  lemma IntervalIsExact(hours: nat)
    ensures UpdateInterval(hours) as int == hours * 3_600_000_000_000 <==> hours <= 2562047
    ensures (hours * 3_600_000_000_000 - UpdateInterval(hours) as int) % 0x1_0000_0000_0000_0000 == 0
  {
  }

  function RetryDelay(interval: int64): int64 {
    if interval <= RETRY_INTERVAL then interval else RETRY_INTERVAL
  }

  /** The age of a file with that modification time, zero at least; a missing file counts as
      as old as can be. */
  function Age(mtime: Option<int>, now: int): int64 {
    match mtime
    case None => MAX_INT64 as int64
    case Some(t) => if Clamp(now - t) > 0 then Clamp(now - t) else 0
  }

  /** The greatest age among files, each seen at its own moment. */
  function OldestAge(mtimes: seq<Option<int>>, seen: seq<int>): (oldest: int64)
    requires |mtimes| == |seen|
    ensures oldest >= 0
  {
    if mtimes == [] then 0 else
      var last := |mtimes| - 1;
      var before, age := OldestAge(mtimes[..last], seen[..last]), Age(mtimes[last], seen[last]);
      if age > before then age else before
  }

  lemma NoFiles()
    ensures OldestAge([], []) == 0
  {
  }

  lemma OneMoreFile(mtimes: seq<Option<int>>, seen: seq<int>, mtime: Option<int>, now: int)
    requires |mtimes| == |seen|
    ensures var before, age := OldestAge(mtimes, seen), Age(mtime, now);
            OldestAge(mtimes + [mtime], seen + [now]) == if age > before then age else before
  {
    assert (mtimes + [mtime])[..|mtimes|] == mtimes;
    assert (seen + [now])[..|seen|] == seen;
  }

  lemma {:induction false} MissingIsOldest(mtimes: seq<Option<int>>, seen: seq<int>)
    requires |mtimes| == |seen| && None in mtimes
    ensures OldestAge(mtimes, seen) as int == MAX_INT64
  {
    var last := |mtimes| - 1;
    if mtimes[last] == None {
    } else {
      assert mtimes == mtimes[..last] + [mtimes[last]];
      MissingIsOldest(mtimes[..last], seen[..last]);
    }
  }

  /** The age of a file is the time since it was written, kept within 0 and the greatest int64. */
  lemma AgeOfFile(mtime: int, now: int)
    ensures Age(Some(mtime), now) as int ==
            if now <= mtime then 0
            else if now - mtime > 0x7fff_ffff_ffff_ffff then 0x7fff_ffff_ffff_ffff
            else now - mtime
  {
  }

  /** Files written at t or later are no older than the time since t. */
  lemma {:induction false} WrittenSince(mtimes: seq<Option<int>>, seen: seq<int>, t: int, now: int)
    requires |mtimes| == |seen| && t <= now
    requires forall i | 0 <= i < |mtimes| :: mtimes[i].Some? && mtimes[i].value >= t && seen[i] <= now
    ensures OldestAge(mtimes, seen) as int <= now - t
  {
    if mtimes == [] {
    } else {
      var last := |mtimes| - 1;
      WrittenSince(mtimes[..last], seen[..last], t, now);
    }
  }

  /** The time until the greatest age reaches the interval, or a retry delay when it has. The
      subtraction stays in int64 for every age. */
  function NextRefresh(interval: int64, oldest: int64): (delay: int64)
    requires interval > 0 && oldest >= 0
    ensures 0 < delay <= interval
    ensures delay as int >= interval as int - oldest as int
  {
    var remaining := interval - oldest;
    if remaining > 0 then remaining else RetryDelay(interval)
  }

  /** No file is older than the oldest age, and one is as old. */
  lemma {:induction false} OldestIsGreatest(mtimes: seq<Option<int>>, seen: seq<int>)
    requires |mtimes| == |seen|
    ensures forall i | 0 <= i < |mtimes| :: Age(mtimes[i], seen[i]) <= OldestAge(mtimes, seen)
    ensures mtimes != [] ==> exists i | 0 <= i < |mtimes| :: Age(mtimes[i], seen[i]) == OldestAge(mtimes, seen)
  {
    if mtimes == [] {
    } else {
      var last := |mtimes| - 1;
      var before, ages := mtimes[..last], seen[..last];
      OldestIsGreatest(before, ages);
      assert forall i | 0 <= i < last :: Age(before[i], ages[i]) == Age(mtimes[i], seen[i]);
      if before != [] {
        var i :| 0 <= i < last && Age(before[i], ages[i]) == OldestAge(before, ages);
        assert Age(mtimes[i], seen[i]) == OldestAge(before, ages);
      }
      assert OldestAge(mtimes, seen) in {OldestAge(before, ages), Age(mtimes[last], seen[last])};
    }
  }

  /** When no database is stale, the next check is due at the very moment the first of them turns
      an interval old, however often the process restarted since. */
  lemma DueWithTheOldest(interval: int64, mtimes: seq<Option<int>>, now: int)
    requires interval > 0 && mtimes != []
    requires forall i | 0 <= i < |mtimes| :: mtimes[i].Some? && now - interval as int < mtimes[i].value <= now
    ensures var due := now + NextRefresh(interval, OldestAge(mtimes, seq(|mtimes|, _ => now))) as int;
            && (forall i | 0 <= i < |mtimes| :: due <= mtimes[i].value + interval as int)
            && (exists i | 0 <= i < |mtimes| :: due == mtimes[i].value + interval as int)
  {
    var seen := seq(|mtimes|, _ => now);
    OldestIsGreatest(mtimes, seen);
    assert forall i | 0 <= i < |mtimes| :: Age(mtimes[i], seen[i]) as int == now - mtimes[i].value;
    var i :| 0 <= i < |mtimes| && Age(mtimes[i], seen[i]) == OldestAge(mtimes, seen);
    assert now + NextRefresh(interval, OldestAge(mtimes, seen)) as int == mtimes[i].value + interval as int;
  }

  /** When a database is stale the next check is due after half an hour, or an interval if that is
      shorter. */
  lemma DueWhenStale(interval: int64, oldest: int64)
    requires 0 < interval <= oldest
    ensures NextRefresh(interval, oldest) as int == Min(interval as int, 1_800_000_000_000)
  {
  }

  /** 1 to MAX_RETRIES + 1, and then from 1 again. */
  function AfterFailure(failures: int): int {
    if failures > MAX_RETRIES then 1 else failures + 1
  }

  function Delay(interval: int64, failures: int, oldest: int64): (delay: int64)
    requires interval > 0 && oldest >= 0
    ensures 0 < delay <= interval
  {
    if failures == 0 then NextRefresh(interval, oldest)
    else if failures <= MAX_RETRIES then RetryDelay(interval)
    else interval
  }

  // ----------------------------------------------------------------------- runs

  /** A wait: the failures in a row it follows, the times of the files and when each was looked at,
      when it was set and for how long, what it published as the time of the next check and when,
      when its timer was set, and when it ended. */
  datatype Wait = Wait(failures: int, mtimes: seq<Option<int>>, seen: seq<int>, set_: int, delay: int, next: int64,
                       stored: int, timer: int, until: int)

  /** A check: when it ran, whether it was a success, the files it confirmed or replaced, in order,
      those it replaced, and whether it reloaded. */
  datatype Check = Check(start: int, end: int, ok: bool, confirmed: seq<string>, replaced: seq<string>,
                         reloaded: bool)

  /** The files that checks confirmed, in order. */
  function ConfirmedBy(checks: seq<Check>): seq<string> {
    if checks == [] then [] else ConfirmedBy(checks[..|checks| - 1]) + checks[|checks| - 1].confirmed
  }

  lemma NoChecks()
    ensures ConfirmedBy([]) == []
  {
  }

  lemma OneMoreCheck(checks: seq<Check>, c: Check)
    ensures ConfirmedBy(checks + [c]) == ConfirmedBy(checks) + c.confirmed
  {
    assert (checks + [c])[..|checks|] == checks;
  }

  function Due(w: Wait): int {
    w.set_ + w.delay
  }

  ghost predicate ValidWait(interval: int64, w: Wait) {
    && interval > 0 && 0 <= w.failures <= MAX_RETRIES + 1
    && |w.mtimes| == |w.seen| && (forall i | 0 <= i < |w.seen| :: w.seen[i] <= w.set_)
    && 0 < w.delay <= interval as int
    && w.next == Wrap(Due(w))
    && w.set_ <= w.stored <= w.timer <= w.until
    && (w.failures == 0 ==> w.delay == NextRefresh(interval, OldestAge(w.mtimes, w.seen)) as int)
    && (1 <= w.failures <= MAX_RETRIES ==> w.delay == RetryDelay(interval) as int)
    && (w.failures > MAX_RETRIES ==> w.delay == interval as int)
  }

  ghost predicate AllSince(mtimes: seq<Option<int>>, t: int) {
    forall i | 0 <= i < |mtimes| :: mtimes[i].Some? && mtimes[i].value >= t
  }

  /** The check starts when the timer has fired, and the next wait follows from how it went: after a
      success every file is at most as old as the check. */
  ghost predicate Follows(w: Wait, c: Check, v: Wait) {
    && w.timer + w.delay <= w.until == c.start <= c.end <= v.set_
    && v.failures == (if c.ok then 0 else AfterFailure(w.failures))
    && (c.ok ==> AllSince(v.mtimes, c.start))
  }

  /** After a success the next check is due an interval after the start of the last. */
  lemma DueAfterSuccess(interval: int64, w: Wait, c: Check, v: Wait)
    requires ValidWait(interval, w) && ValidWait(interval, v) && Follows(w, c, v)
    ensures v.failures == 0 ==> Due(v) >= c.start + interval as int
  {
    hide OldestAge, RetryDelay;
    if v.failures == 0 {
      WrittenSince(v.mtimes, v.seen, c.start, v.set_);
    }
  }

  /** A run: waits with a check between every two of them. */
  ghost predicate ValidRun(interval: int64, waits: seq<Wait>, checks: seq<Check>) {
    && interval > 0
    && |waits| == |checks| + 1
    && (forall k | 0 <= k < |waits| :: ValidWait(interval, waits[k]))
    && forall k {:trigger checks[k]} | 0 <= k < |checks| :: Follows(waits[k], checks[k], waits[k + 1])
  }

  /** A value published at a moment. */
  datatype Stamp = Stamp(at: int, next: int64)

  ghost function Stamps(waits: seq<Wait>): (stamps: seq<Stamp>)
    ensures |stamps| == |waits|
    ensures forall k | 0 <= k < |stamps| :: stamps[k] == Stamp(waits[k].stored, waits[k].next)
  {
    seq(|waits|, k requires 0 <= k < |waits| => Stamp(waits[k].stored, waits[k].next))
  }

  /** All that a run publishes: each wait its next check, and zero when it ends. */
  ghost function History(waits: seq<Wait>): seq<Stamp>
    requires waits != []
  {
    Stamps(waits) + [Stamp(waits[|waits| - 1].until, 0)]
  }

  /** When the timers of waits fire. */
  ghost function AlarmsOf(waits: seq<Wait>): (alarms: seq<int>)
    ensures |alarms| == |waits| && forall k | 0 <= k < |alarms| :: alarms[k] == waits[k].timer + waits[k].delay
  {
    seq(|waits|, k requires 0 <= k < |waits| => waits[k].timer + waits[k].delay)
  }

  lemma NextAlarm(waits: seq<Wait>, w: Wait)
    ensures AlarmsOf(waits + [w]) == AlarmsOf(waits) + [w.timer + w.delay]
  {
  }

  lemma NoAlarms()
    ensures AlarmsOf([]) == []
  {
  }

  lemma NextStamp(waits: seq<Wait>, w: Wait, until: int, v: Wait)
    ensures Stamps(waits + [w.(until := until)] + [v]) == Stamps(waits + [w]) + [Stamp(v.stored, v.next)]
  {
  }

  lemma EndOfHistory(waits: seq<Wait>, w: Wait, until: int)
    ensures History(waits + [w.(until := until)]) == Stamps(waits + [w]) + [Stamp(until, 0)]
  {
    assert Stamps(waits + [w.(until := until)]) == Stamps(waits + [w]);
  }

  lemma StartRun(interval: int64, w: Wait)
    requires interval > 0 && ValidWait(interval, w)
    ensures ValidRun(interval, [] + [w], [])
    ensures Stamps([] + [w]) == [Stamp(w.stored, w.next)]
  {
  }

  lemma LastWait(interval: int64, waits: seq<Wait>, w: Wait, checks: seq<Check>)
    requires ValidRun(interval, waits + [w], checks)
    ensures ValidWait(interval, w)
  {
    assert (waits + [w])[|waits|] == w;
  }

  /** A run goes on: the last wait ends, a check follows it and another wait the check. */
  lemma ExtendRun(interval: int64, waits: seq<Wait>, w: Wait, checks: seq<Check>, c: Check, v: Wait)
    requires ValidRun(interval, waits + [w], checks)
    requires w.timer <= c.start && Follows(w.(until := c.start), c, v) && ValidWait(interval, v)
    ensures ValidRun(interval, waits + [w.(until := c.start)] + [v], checks + [c])
  {
    var before, after := waits + [w], waits + [w.(until := c.start)] + [v];
    forall k | 0 <= k < |after| ensures ValidWait(interval, after[k]) {
      if k <= |waits| {
        assert ValidWait(interval, before[k]);
      }
    }
    forall k {:trigger (checks + [c])[k]} | 0 <= k < |checks + [c]|
      ensures Follows(after[k], (checks + [c])[k], after[k + 1])
    {
      if k < |checks| {
        assert Follows(before[k], checks[k], before[k + 1]);
      }
    }
  }

  /** A run ends when told to stop in its last wait. */
  lemma EndRun(interval: int64, waits: seq<Wait>, w: Wait, checks: seq<Check>, stop: int)
    requires ValidRun(interval, waits + [w], checks) && w.timer <= stop
    ensures ValidRun(interval, waits + [w.(until := stop)], checks)
  {
    var before, after := waits + [w], waits + [w.(until := stop)];
    forall k | 0 <= k < |after| ensures ValidWait(interval, after[k]) {
      assert ValidWait(interval, before[k]);
    }
    forall k {:trigger checks[k]} | 0 <= k < |checks| ensures Follows(after[k], checks[k], after[k + 1]) {
      assert Follows(before[k], checks[k], before[k + 1]);
    }
  }

  // -------------------------------------------------------------------- retries

  /** Failed checks in a row: after the first and the second of them the wait is half an hour, or
      an interval if that is shorter, after the third it is an interval, and so on in threes. A
      wait that begins with a failure on the count counts as the first. */
  lemma {:induction false} RetriesInThrees(interval: int64, waits: seq<Wait>, checks: seq<Check>, j: nat, n: nat)
    requires ValidRun(interval, waits, checks) && j + n < |waits| && waits[j].failures <= 1
    requires forall k | j <= k < j + n :: !checks[k].ok
    ensures var failed := waits[j].failures + n;
            && (failed > 0 ==> waits[j + n].failures == (failed - 1) % 3 + 1)
            && (failed > 0 ==>
                  waits[j + n].delay ==
                  if failed % 3 == 0 then interval as int else Min(interval as int, 1_800_000_000_000))
  {
    assert ValidWait(interval, waits[j + n]);
    if n == 0 {
    } else {
      RetriesInThrees(interval, waits, checks, j, n - 1);
      assert ValidWait(interval, waits[j]);
      assert Follows(waits[j + n - 1], checks[j + n - 1], waits[j + n]);
    }
  }

  /** So after a success and n failed checks, with no call to count them. */
  lemma RetriesAfterSuccess(interval: int64, waits: seq<Wait>, checks: seq<Check>, j: nat, n: nat)
    requires ValidRun(interval, waits, checks) && j < |checks| && checks[j].ok
    requires 0 < n && j + 1 + n < |waits| && forall k | j < k <= j + n :: !checks[k].ok
    ensures waits[j + 1 + n].delay ==
            if n % 3 == 0 then interval as int else Min(interval as int, 1_800_000_000_000)
  {
    assert Follows(waits[j], checks[j], waits[j + 1]);
    RetriesInThrees(interval, waits, checks, j + 1, n);
  }

  // ------------------------------------------------------------- checks per time

  /** The shortest time three checks in a row can take. */
  function Period(interval: int64): int {
    interval as int + 2 * RetryDelay(interval) as int
  }

  /** From the start of one check to that of the next is a retry delay at least, and a whole
      interval unless the first one failed and was not the last retry. */
  lemma Gap(interval: int64, waits: seq<Wait>, checks: seq<Check>, k: nat)
    requires ValidRun(interval, waits, checks) && k + 1 < |checks|
    ensures checks[k + 1].start - checks[k].start >= RetryDelay(interval) as int > 0
    ensures waits[k + 1].failures !in {1, 2} ==> checks[k + 1].start - checks[k].start >= interval as int
  {
    hide OldestAge;
    assert Follows(waits[k], checks[k], waits[k + 1]);
    assert Follows(waits[k + 1], checks[k + 1], waits[k + 2]);
    assert ValidWait(interval, waits[k]) && ValidWait(interval, waits[k + 1]);
    DueAfterSuccess(interval, waits[k], checks[k], waits[k + 1]);
  }

  /** Among three gaps in a row one is at least an interval. */
  lemma LongGapAmongThree(interval: int64, waits: seq<Wait>, checks: seq<Check>, k: nat)
    requires ValidRun(interval, waits, checks) && k + 3 < |checks|
    ensures exists j | k <= j < k + 3 :: checks[j + 1].start - checks[j].start >= interval as int
    ensures checks[k + 3].start - checks[k].start >= Period(interval)
  {
    hide OldestAge, NextRefresh, RetryDelay;
    Gap(interval, waits, checks, k);
    Gap(interval, waits, checks, k + 1);
    Gap(interval, waits, checks, k + 2);
    assert Follows(waits[k + 1], checks[k + 1], waits[k + 2]);
    assert Follows(waits[k + 2], checks[k + 2], waits[k + 3]);
    var j := if waits[k + 1].failures !in {1, 2} then k else if waits[k + 2].failures !in {1, 2} then k + 1 else k + 2;
    assert checks[j + 1].start - checks[j].start >= interval as int;
  }

  /** 3 m + 1 checks take m periods at least. */
  lemma {:induction false} PeriodsBetween(interval: int64, waits: seq<Wait>, checks: seq<Check>,
                                          lo: nat, hi: nat, m: nat)
    requires ValidRun(interval, waits, checks) && lo + 3 * m <= hi < |checks|
    ensures checks[hi].start - checks[lo].start >= m * Period(interval)
    decreases hi - lo
  {
    hide *;
    if m == 0 && lo == hi {
    } else if m > 0 {
      PeriodsBetween(interval, waits, checks, lo + 3, hi, m - 1);
      LongGapAmongThree(interval, waits, checks, lo);
      assert m * Period(interval) == (m - 1) * Period(interval) + Period(interval);
    } else {
      PeriodsBetween(interval, waits, checks, lo + 1, hi, 0);
      Gap(interval, waits, checks, lo);
    }
  }

  /** The checks that start in a span of time. */
  ghost function StartedIn(checks: seq<Check>, t: int, span: int): set<nat> {
    set k: nat | k < |checks| && t <= checks[k].start <= t + span
  }

  lemma {:induction false} Consecutive(s: set<nat>, lo: nat, hi: int)
    requires forall k | k in s :: lo <= k <= hi
    ensures |s| <= Max(0, hi - lo + 1)
    decreases hi - lo
  {
    if s == {} {
    } else {
      var k :| k in s;
      assert lo <= hi;
      Consecutive(s - {hi}, lo, hi - 1);
    }
  }

  /** In any span of time at most three checks start, and three more for every whole period the
      span holds. */
  lemma ChecksPerSpan(interval: int64, waits: seq<Wait>, checks: seq<Check>, t: int, span: int)
    requires ValidRun(interval, waits, checks) && span >= 0
    ensures |StartedIn(checks, t, span)| <= 3 * (span / Period(interval)) + 3
  {
    var s := StartedIn(checks, t, span);
    QuotientAtLeast(span, 0, Period(interval));
    if s != {} {
      var lo := Least(s);
      var hi := Greatest(s);
      var m, q := (hi - lo) / 3, span / Period(interval);
      PeriodsBetween(interval, waits, checks, lo, hi, m);
      QuotientAtLeast(span, m, Period(interval));
      Consecutive(s, lo, hi);
      assert |s| <= 3 * q + 3;
    }
  }

  lemma Least(s: set<nat>) returns (lo: nat)
    requires s != {}
    ensures lo in s && forall k | k in s :: lo <= k
    decreases s
  {
    var x :| x in s;
    if s == {x} {
      lo := x;
    } else {
      assert s - {x} != {};
      var y := Least(s - {x});
      lo := Min(x, y);
      forall k | k in s ensures lo <= k {
        assert k == x || k in s - {x};
      }
    }
  }

  lemma Greatest(s: set<nat>) returns (hi: nat)
    requires s != {}
    ensures hi in s && forall k | k in s :: k <= hi
    decreases s
  {
    var x :| x in s;
    if s == {x} {
      hi := x;
    } else {
      assert s - {x} != {};
      var y := Greatest(s - {x});
      hi := Max(x, y);
      forall k | k in s ensures k <= hi {
        assert k == x || k in s - {x};
      }
    }
  }
}
