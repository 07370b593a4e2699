/**
 The updater (maxmind/maxmind.go): one check of all databases, and the loop that runs checks until
 it is told to stop. The loop is proved to give a run as Schedule describes it, so what Schedule
 proves of such runs holds of it.
 */
module Updater {
  import opened Wrappers
  import opened Disk
  import Download
  import opened Archives
  import opened Schedule

  ghost function MtimesOf(files: Files, databases: map<string, Path>, editions: seq<string>): (mtimes: seq<Option<int>>)
    requires forall e | e in editions :: e in databases
    ensures |mtimes| == |editions|
    ensures forall i | 0 <= i < |mtimes| :: mtimes[i] == MtimeOf(files, databases[editions[i]])
  {
    seq(|editions|, i requires 0 <= i < |editions| => MtimeOf(files, databases[editions[i]]))
  }

  function MtimeOf(files: Files, path: Path): Option<int> {
    if path in files then Some(files[path].mtime) else None
  }

  /** Since c files on the first log and s on the second: what was not confirmed is as it was, and
      what is new beside that could not be removed. */
  ghost predicate OthersAsBefore(before: Files, now: Files, confirmed: seq<Path>, c: nat, stuck: seq<Path>, s: nat)
    requires c <= |confirmed| && s <= |stuck|
  {
    && (forall p | p in before :: p in now)
    && (forall p | p in before && p !in confirmed[c..] :: now[p] == before[p])
    && (forall p | p in now && p !in before && p !in confirmed[c..] :: p in stuck[s..])
  }

  /** The files on the log since c were written at t or later. */
  ghost predicate ConfirmedSince(files: Files, confirmed: seq<Path>, c: nat, t: int)
    requires c <= |confirmed|
  {
    forall p | p in confirmed[c..] :: p in files && files[p].mtime >= t
  }

  lemma StartOfUpdate(files: Files, confirmed: seq<Path>, stuck: seq<Path>, t: int)
    ensures OthersAsBefore(files, files, confirmed, |confirmed|, stuck, |stuck|)
    ensures ConfirmedSince(files, confirmed, |confirmed|, t)
  {
  }

  lemma ConfirmedEarlier(files: Files, confirmed: seq<Path>, c: nat, t: int, earlier: int)
    requires c <= |confirmed| && ConfirmedSince(files, confirmed, c, t) && earlier <= t
    ensures ConfirmedSince(files, confirmed, c, earlier)
  {
  }

  lemma OneMoreConfirmed(was: Files, now: Files, confirmed: seq<Path>, confirmed': seq<Path>, c: nat,
                         stuck: seq<Path>, s: nat, t: int)
    requires c <= |confirmed| && confirmed <= confirmed' && s <= |stuck|
    requires ConfirmedSince(was, confirmed, c, t) && ConfirmedSince(now, confirmed', |confirmed|, t)
    requires OthersAsBefore(was, now, confirmed', |confirmed|, stuck, s)
    ensures ConfirmedSince(now, confirmed', c, t)
  {
    assert confirmed'[c..] == confirmed[c..] + confirmed'[|confirmed|..];
  }

  lemma OneMoreUpdate(before: Files, was: Files, now: Files, confirmed: seq<Path>, confirmed': seq<Path>, c: nat,
                      stuck: seq<Path>, stuck': seq<Path>, s: nat)
    requires c <= |confirmed| && confirmed <= confirmed' && s <= |stuck| && stuck <= stuck'
    requires OthersAsBefore(before, was, confirmed, c, stuck, s)
    requires OthersAsBefore(was, now, confirmed', |confirmed|, stuck', |stuck|)
    ensures OthersAsBefore(before, now, confirmed', c, stuck', s)
  {
    assert confirmed'[c..] == confirmed[c..] + confirmed'[|confirmed|..];
    assert stuck'[s..] == stuck[s..] + stuck'[|stuck|..];
  }

  class Updater {
    const disk: Disk
    const hash: Bytes -> string
    const decode: Bytes -> seq<Event>
    const databases: map<string, Path>   // the file each edition is written to
    const editions: seq<string>          // its keys, in the order they are fetched
    const interval: int64
    var next: int64                      // when the wait under way is due, zero while idle
    ghost var published: seq<Stamp>      // every value of next, the last being the current one
    ghost var alarms: seq<int>           // every moment a timer was set to

    ghost predicate Valid()
      reads this, disk
    {
      && disk.Valid() && Streaming(decode)
      && (forall e | e in editions :: e in databases)
      && (forall e | e in databases :: e in editions)
      && published != [] && published[|published| - 1].next == next
    }

    constructor (disk: Disk, hash: Bytes -> string, decode: Bytes -> seq<Event>, editions: seq<string>,
                 databases: map<string, Path>, interval: int64)
      requires disk.Valid() && Streaming(decode) && (set e | e in editions) == databases.Keys
      ensures Valid() && next == 0 && published == [Stamp(disk.clock, 0)]
      ensures this.disk == disk && this.hash == hash && this.decode == decode && this.editions == editions
      ensures this.databases == databases && this.interval == interval
    {
      this.disk, this.hash, this.decode, this.editions := disk, hash, decode, editions;
      this.databases, this.interval := databases, interval;
      next, published := 0, [Stamp(disk.clock, 0)];
      new;
      assert forall e | e in editions :: e in databases.Keys;
      assert forall e | e in databases :: e in (set x | x in editions);
    }

    predicate Scheduled() {
      interval > 0 && databases != map[]
    }

    /** Every database is there and was confirmed or replaced at that time or later. */
    ghost predicate FreshSince(t: int)
      reads this, disk
      requires Valid()
    {
      forall e | e in editions :: databases[e] in disk.files && disk.files[databases[e]].mtime >= t
    }

    // ------------------------------------------------------------------ one check

    /** What is wrong with what was served for the i-th edition, none if it is to be taken. */
    function RefusalOf(files: Files, i: nat, served: Served): Option<Error>
      requires i < |editions| && editions[i] in databases
    {
      Refusal(hash, decode, editions[i], databases[editions[i]] in files, served)
    }

    /** The files of the first n editions. */
    ghost function Paths(n: nat): (paths: seq<Path>)
      requires n <= |editions| && forall e | e in editions :: e in databases
      ensures |paths| == n && forall i | 0 <= i < n :: paths[i] == databases[editions[i]]
    {
      seq(n, i requires 0 <= i < n => databases[editions[i]])
    }

    /** Among the first n editions an archive is served for one. */
    ghost predicate HasArchive(serve: string -> Served, n: nat)
      requires n <= |editions|
    {
      exists i | 0 <= i < n :: serve(editions[i]).answer.Archived?
    }

    /** None of the first n editions is refused. */
    ghost predicate NoneRefused(files: Files, serve: string -> Served, n: nat)
      requires n <= |editions| && forall e | e in editions :: e in databases
    {
      forall i | 0 <= i < n :: RefusalOf(files, i, serve(editions[i])) == None
    }

    /** Fetches one database from what the servers give for it, which may be anything. It confirms
        that file and no other, or fails and leaves it as it was. */
    method UpdateOne(i: nat, served: Served) returns (updated: bool, err: Option<Error>)
      requires Valid() && i < |editions|
      modifies disk
      ensures Valid() && disk.clock >= old(disk.clock) && disk.faults >= old(disk.faults)
      ensures old(disk.stuck) <= disk.stuck
      ensures var path := databases[editions[i]];
              && disk.confirmed == old(disk.confirmed) + (if err == None then [path] else [])
              && disk.renamed == old(disk.renamed) + (if updated && err == None then [path] else [])
              && (err == None ==> path in disk.files && disk.files[path].mtime >= old(disk.clock))
      ensures ConfirmedSince(disk.files, disk.confirmed, |old(disk.confirmed)|, old(disk.clock))
      ensures OthersAsBefore(old(disk.files), disk.files, disk.confirmed, |old(disk.confirmed)|,
                             disk.stuck, |old(disk.stuck)|)
      ensures updated <==> served.answer.Archived? && err in {None, Some(RenameFailed)}
      ensures err == None ==> RefusalOf(disk.files, i, served) == None
      ensures disk.faults == old(disk.faults) ==> err == RefusalOf(old(disk.files), i, served)
    {
      updated, err := Download.Download(disk, hash, decode, editions[i], databases[editions[i]], served);
      assert err == None ==> disk.confirmed[|old(disk.confirmed)|..] == [databases[editions[i]]];
    }

    /** The same, after the turns of other editions since the logs were c and s long. */
    method Turn(i: nat, serve: string -> Served, ghost before: Files, ghost c: nat, ghost s: nat, ghost start: int)
      returns (updated: bool, err: Option<Error>)
      requires Valid() && i < |editions| && c <= |disk.confirmed| && s <= |disk.stuck| && start <= disk.clock
      requires OthersAsBefore(before, disk.files, disk.confirmed, c, disk.stuck, s)
      requires ConfirmedSince(disk.files, disk.confirmed, c, start) && NoneRefused(disk.files, serve, i)
      modifies disk
      ensures Valid() && disk.clock >= old(disk.clock) && disk.faults >= old(disk.faults)
      ensures old(disk.stuck) <= disk.stuck
      ensures var path := databases[editions[i]];
              && disk.confirmed == old(disk.confirmed) + (if err == None then [path] else [])
              && disk.renamed == old(disk.renamed) + (if updated && err == None then [path] else [])
      ensures OthersAsBefore(before, disk.files, disk.confirmed, c, disk.stuck, s)
      ensures ConfirmedSince(disk.files, disk.confirmed, c, start)
      ensures err == None ==> NoneRefused(disk.files, serve, i + 1)
      ensures err == None ==> (updated <==> serve(editions[i]).answer.Archived?)
      ensures disk.faults == old(disk.faults) && err.Some? ==> err == RefusalOf(before, i, serve(editions[i]))
    {
      hide OthersAsBefore, ConfirmedSince, RefusalOf, NoneRefused;
      ghost var was, log, stuck, now := disk.files, disk.confirmed, disk.stuck, disk.clock;
      updated, err := UpdateOne(i, serve(editions[i]));
      NoMoreRefused(was, disk.files, disk.confirmed, |log|, disk.stuck, |stuck|, serve, i);
      OneMoreUpdate(before, was, disk.files, log, disk.confirmed, c, stuck, disk.stuck, s);
      ConfirmedEarlier(disk.files, disk.confirmed, |log|, now, start);
      OneMoreConfirmed(was, disk.files, log, disk.confirmed, c, disk.stuck, |stuck|, start);
      RefusedBefore(before, was, log, c, stuck, s, i, serve(editions[i]));
    }

    /** Fetches every database in turn, up to the first that fails. It has no error if and only if
        it confirmed or replaced the file of every edition, each in its turn, and then nothing that
        was served is to be refused; a file that it did not confirm is as it was. It reports a change
        exactly when it replaced a file, also when a later database or the rename itself failed.
        While the disk works, it fails only when it refused what was served last. */
    method Update(serve: string -> Served) returns (changed: bool, err: Option<Error>, ghost tried: nat)
      requires Valid()
      modifies disk
      ensures Valid() && disk.clock >= old(disk.clock) && disk.faults >= old(disk.faults)
      ensures tried <= |editions| && (err == None ==> tried == |editions|) && (err.Some? ==> tried > 0)
      ensures disk.confirmed == old(disk.confirmed) + Paths(if err == None then tried else tried - 1)
      ensures err == None <==> disk.confirmed == old(disk.confirmed) + Paths(|editions|)
      ensures old(disk.stuck) <= disk.stuck
      ensures OthersAsBefore(old(disk.files), disk.files, disk.confirmed, |old(disk.confirmed)|,
                             disk.stuck, |old(disk.stuck)|)
      ensures old(disk.renamed) <= disk.renamed
      ensures changed <==> |disk.renamed| > |old(disk.renamed)|
      ensures changed <==> HasArchive(serve, if err == None then tried else tried - 1)
      ensures err == None ==> FreshSince(old(disk.clock)) && NoneRefused(disk.files, serve, |editions|)
      ensures disk.faults == old(disk.faults) && err.Some? ==>
                err == RefusalOf(old(disk.files), tried - 1, serve(editions[tried - 1]))
    {
      hide OthersAsBefore, ConfirmedSince, HasArchive, RefusalOf, NoneRefused, Paths, Streaming;
      ghost var start, c, s := disk.clock, |disk.confirmed|, |disk.stuck|;
      changed, tried := false, 0;
      StartOfUpdate(disk.files, disk.confirmed, disk.stuck, start);
      NothingTried(disk.files, serve);
      for i := 0 to |editions|
        invariant Valid() && disk.clock >= start && disk.faults >= old(disk.faults)
        invariant tried == i && disk.confirmed == old(disk.confirmed) + Paths(i) && old(disk.stuck) <= disk.stuck
        invariant OthersAsBefore(old(disk.files), disk.files, disk.confirmed, c, disk.stuck, s)
        invariant ConfirmedSince(disk.files, disk.confirmed, c, start) && NoneRefused(disk.files, serve, i)
        invariant old(disk.renamed) <= disk.renamed
        invariant changed <==> |disk.renamed| > |old(disk.renamed)|
        invariant changed <==> HasArchive(serve, i)
      {
        var updated;
        updated, err := Turn(i, serve, old(disk.files), c, s, start);
        tried := i + 1;
        if err.Some? {
          return;
        }
        changed := changed || updated;
        OneMorePath(i);
        OneMoreServed(serve, i);
      }
      AllConfirmed(c, start);
      err := None;
    }

    lemma NothingTried(files: Files, serve: string -> Served)
      requires forall e | e in editions :: e in databases
      ensures Paths(0) == [] && !HasArchive(serve, 0) && NoneRefused(files, serve, 0)
    {
    }

    lemma OneMoreServed(serve: string -> Served, i: nat)
      requires i < |editions|
      ensures HasArchive(serve, i + 1) <==> HasArchive(serve, i) || serve(editions[i]).answer.Archived?
    {
    }

    /** What was not refused is not refused after another turn, since no file goes away. */
    lemma NoMoreRefused(was: Files, now: Files, confirmed: seq<Path>, c: nat, stuck: seq<Path>, s: nat,
                        serve: string -> Served, i: nat)
      requires c <= |confirmed| && s <= |stuck| && OthersAsBefore(was, now, confirmed, c, stuck, s)
      requires i < |editions| && (forall e | e in editions :: e in databases) && NoneRefused(was, serve, i)
      ensures RefusalOf(now, i, serve(editions[i])) == None ==> NoneRefused(now, serve, i + 1)
    {
    }

    /** What is refused now would have been refused before, since no file goes away. */
    lemma RefusedBefore(before: Files, was: Files, confirmed: seq<Path>, c: nat, stuck: seq<Path>, s: nat, i: nat,
                        served: Served)
      requires c <= |confirmed| && s <= |stuck| && OthersAsBefore(before, was, confirmed, c, stuck, s)
      requires i < |editions| && editions[i] in databases
      ensures RefusalOf(was, i, served).Some? ==> RefusalOf(before, i, served) == RefusalOf(was, i, served)
    {
    }

    lemma OneMorePath(i: nat)
      requires i < |editions| && forall e | e in editions :: e in databases
      ensures Paths(i + 1) == Paths(i) + [databases[editions[i]]]
    {
    }

    /** When the log since c has every edition's file, every database is fresh. */
    lemma AllConfirmed(c: nat, t: int)
      requires Valid() && c <= |disk.confirmed| && disk.confirmed[c..] == Paths(|editions|)
      requires ConfirmedSince(disk.files, disk.confirmed, c, t)
      ensures FreshSince(t)
    {
      forall e | e in editions ensures databases[e] in disk.confirmed[c..] {
        var i :| 0 <= i < |editions| && editions[i] == e;
        assert Paths(|editions|)[i] == databases[e];
      }
    }

    /** Reloads the databases, which may fail. */
    method OnUpdate(works: bool) returns (ok: bool)
      modifies disk`clock
      ensures disk.clock >= old(disk.clock) && ok == works
    {
      disk.Pass();
      ok := works;
    }

    /** One check. The databases are reloaded if and only if a file was replaced, and the check is a
        success if and only if the file of every edition was confirmed or replaced by this check and
        a reload, if there was one, worked. */
    method Refresh(serve: string -> Served, works: bool) returns (ok: bool, ghost reloaded: bool)
      requires Valid()
      modifies disk
      ensures Valid() && disk.clock >= old(disk.clock)
      ensures old(disk.renamed) <= disk.renamed && old(disk.confirmed) <= disk.confirmed
      ensures old(disk.stuck) <= disk.stuck && disk.faults >= old(disk.faults)
      ensures reloaded <==> |disk.renamed| > |old(disk.renamed)|
      ensures ok <==> disk.confirmed == old(disk.confirmed) + Paths(|editions|) && (reloaded ==> works)
      ensures OthersAsBefore(old(disk.files), disk.files, disk.confirmed, |old(disk.confirmed)|,
                             disk.stuck, |old(disk.stuck)|)
      ensures ok ==> FreshSince(old(disk.clock)) && NoneRefused(disk.files, serve, |editions|)
      ensures disk.faults == old(disk.faults) && works && !ok ==> !NoneRefused(old(disk.files), serve, |editions|)
    {
      hide OthersAsBefore, Paths, HasArchive, RefusalOf, Streaming;
      var changed, updateErr;
      ghost var tried;
      changed, updateErr, tried := Update(serve);
      reloaded := changed;
      if changed {
        var worked := OnUpdate(works);
        if !worked {
          return false, reloaded;
        }
      }
      ok := updateErr == None;
    }

    // ------------------------------------------------------------------- schedule

    ghost function Mtimes(): seq<Option<int>>
      requires Valid()
      reads this, disk
    {
      MtimesOf(disk.files, databases, editions)
    }

    /** The greatest age there is, each file's taken at some moment of the call. */
    method Oldest() returns (oldest: int64, ghost seen: seq<int>)
      requires Valid()
      modifies disk`clock
      ensures disk.clock >= old(disk.clock)
      ensures |seen| == |editions| && forall i | 0 <= i < |seen| :: old(disk.clock) <= seen[i] <= disk.clock
      ensures oldest == OldestAge(Mtimes(), seen)
    {
      hide OldestAge, Age, Clamp, Streaming;
      oldest, seen := 0, [];
      ghost var mtimes := Mtimes();
      NoFiles();
      for i := 0 to |editions|
        invariant disk.clock >= old(disk.clock)
        invariant |seen| == i && forall j | 0 <= j < i :: old(disk.clock) <= seen[j] <= disk.clock
        invariant oldest == OldestAge(mtimes[..i], seen)
      {
        var mtime := disk.Stat(databases[editions[i]]);
        var now := disk.clock;
        if mtime == None {
          seen := seen + seq(|editions| - i, _ => now);
          assert mtimes[i] == None;
          MissingIsOldest(mtimes, seen);
          return MAX_INT64 as int64, seen;
        }
        assert mtimes[..i + 1] == mtimes[..i] + [mtime];
        OneMoreFile(mtimes[..i], seen, mtime, now);
        seen := seen + [now];
        var age := Age(mtime, now);
        if age > oldest {
          oldest := age;
        }
      }
      assert mtimes[..|editions|] == mtimes;
    }

    /** Whether the greatest age has reached the interval. */
    method Stale() returns (stale: bool, ghost seen: seq<int>)
      requires Valid()
      modifies disk`clock
      ensures disk.clock >= old(disk.clock)
      ensures |seen| == |editions| && forall i | 0 <= i < |seen| :: old(disk.clock) <= seen[i] <= disk.clock
      ensures stale <==> OldestAge(Mtimes(), seen) >= interval
    {
      var oldest;
      oldest, seen := Oldest();
      stale := oldest >= interval;
    }

    /** The delay after that many failed checks in a row. With none, and every database written
        at t or later, it reaches an interval past t. */
    method NextDelay(failures: int) returns (delay: int64, ghost seen: seq<int>)
      requires Valid() && interval > 0
      modifies disk`clock
      ensures disk.clock >= old(disk.clock)
      ensures 0 < delay <= interval
      ensures |seen| == |editions| && forall i | 0 <= i < |seen| :: seen[i] <= disk.clock
      ensures (failures == 0 ==> delay == NextRefresh(interval, OldestAge(Mtimes(), seen)))
      ensures 1 <= failures <= MAX_RETRIES ==> delay == RetryDelay(interval)
      ensures failures > MAX_RETRIES ==> delay == interval
      ensures forall t | FreshSince(t) && t <= disk.clock ::
                failures == 0 ==> disk.clock + delay as int >= t + interval as int
    {
      var oldest := 0;
      ghost var now := disk.clock;
      seen := seq(|editions|, _ => now);
      if failures == 0 {
        oldest, seen := Oldest();
        forall t | FreshSince(t) && t <= disk.clock ensures oldest as int <= disk.clock - t {
          WrittenSince(Mtimes(), seen, t, disk.clock);
        }
      }
      delay := Delay(interval, failures, oldest);
    }

    /** Publishes a time, which is due that long after a moment of the call. */
    method Schedule(delay: int64) returns (ghost now: int)
      requires Valid()
      modifies this`next, this`published, disk`clock
      ensures Valid() && old(disk.clock) <= now <= published[|published| - 1].at <= disk.clock
      ensures next == Wrap(now + delay as int)
      ensures published == old(published) + [Stamp(published[|published| - 1].at, next)]
    {
      disk.Pass();
      now := disk.clock;
      var due := Wrap(disk.clock + delay as int);
      disk.Pass();
      next, published := due, published + [Stamp(disk.clock, due)];
      disk.Pass();
    }

    // ------------------------------------------------------------------------ run

    /** Waits for a timer. */
    method Sleep(fires: int)
      requires Valid()
      modifies this`alarms, disk`clock
      ensures Valid() && disk.clock >= old(disk.clock) && disk.clock >= fires
      ensures alarms == old(alarms) + [fires]
    {
      alarms := alarms + [fires];
      disk.SleepUntil(fires);
    }

    /** A check counts as a success if and only if it confirmed or replaced the file of every edition,
        in their order, and a reload, if there was one, worked; and it reloads if and only if it
        replaced a file. */
    ghost predicate TellsOutcome(c: Check, works: bool)
      requires forall e | e in editions :: e in databases
    {
      && (c.ok <==> c.confirmed == Paths(|editions|) && (c.reloaded ==> works))
      && (c.reloaded <==> c.replaced != [])
    }

    lemma FreshMtimes(t: int)
      requires Valid() && FreshSince(t)
      ensures AllSince(Mtimes(), t)
    {
    }

    lemma EditionsAreKnown()
      requires Valid()
      ensures forall e | e in editions :: e in databases
    {
    }

    /** The timer fires and a check runs. */
    method CheckOnce(fires: int, serve: string -> Served, works: bool) returns (ok: bool, ghost c: Check)
      requires Valid()
      modifies this`alarms, disk
      ensures Valid() && old(disk.clock) <= c.start && fires <= c.start <= c.end == disk.clock
      ensures alarms == old(alarms) + [fires]
      ensures c.ok == ok && (ok ==> AllSince(Mtimes(), c.start))
      ensures disk.confirmed == old(disk.confirmed) + c.confirmed && TellsOutcome(c, works)
    {
      hide OthersAsBefore, NoneRefused, Paths, Streaming, FreshSince, AllSince;
      Sleep(fires);
      ghost var start := disk.clock;
      ghost var reloaded;
      ok, reloaded := Refresh(serve, works);
      if ok {
        FreshMtimes(start);
      }
      c := Check(start, disk.clock, ok, disk.confirmed[|old(disk.confirmed)|..], disk.renamed[|old(disk.renamed)|..],
                 reloaded);
    }

    /** Sets the timer of the next wait, after that many failures, and publishes when it is due. */
    method SetTimer(failures: int) returns (fires: int, ghost v: Wait)
      requires Valid() && interval > 0 && 0 <= failures <= MAX_RETRIES + 1
      modifies this`next, this`published, disk`clock
      ensures Valid() && ValidWait(interval, v)
      ensures v.failures == failures && v.mtimes == Mtimes() == old(Mtimes())
      ensures old(disk.clock) <= v.set_ && v.timer <= disk.clock && fires == v.timer + v.delay
      ensures published == old(published) + [Stamp(v.stored, v.next)]
    {
      hide OldestAge, NextRefresh, RetryDelay, Streaming;
      var delay;
      ghost var seen;
      delay, seen := NextDelay(failures);
      ghost var set_ := Schedule(delay);
      fires := disk.clock + delay as int;
      ghost var stored := published[|published| - 1].at;
      v := Wait(failures, Mtimes(), seen, set_, delay as int, next, stored, disk.clock, disk.clock);
    }

    /** One round of the loop: the timer fires, a check runs, and the next one is set. The run goes
        on as Schedule says, the one value published is that of the new wait, and the one timer is
        that of the wait that ended. */
    method Round(failures: int, fires: int, serve: string -> Served, works: bool,
                 ghost waits: seq<Wait>, ghost w: Wait, ghost checks: seq<Check>)
      returns (failures': int, fires': int, ghost w': Wait, ghost v: Wait, ghost c: Check)
      requires Valid() && interval > 0
      requires ValidRun(interval, waits + [w], checks)
      requires w.failures == failures && w.timer <= disk.clock && fires == w.timer + w.delay
      modifies this`next, this`published, this`alarms, disk
      ensures Valid() && ValidRun(interval, waits + [w'] + [v], checks + [c])
      ensures v.failures == failures' && v.timer <= disk.clock && fires' == v.timer + v.delay
      ensures w' == w.(until := c.start) && v.mtimes == Mtimes()
      ensures published == old(published) + [Stamp(v.stored, v.next)]
      ensures alarms == old(alarms) + [w.timer + w.delay]
      ensures disk.confirmed == old(disk.confirmed) + c.confirmed && TellsOutcome(c, works)
    {
      hide ValidRun, OldestAge, NextRefresh, RetryDelay, Streaming, AllSince, Mtimes, Paths;
      var ok;
      ok, c := CheckOnce(fires, serve, works);
      failures' := if ok then 0 else AfterFailure(failures);
      LastWait(interval, waits, w, checks);
      fires', v := SetTimer(failures');
      w' := w.(until := c.start);
      ExtendRun(interval, waits, w, checks, c, v);
    }

    /** The first wait of a run. */
    method Begin() returns (failures: int, fires: int, ghost w: Wait, ghost seen: seq<int>)
      requires Valid() && interval > 0
      modifies this`next, this`published, disk`clock
      ensures Valid() && ValidRun(interval, [] + [w], [])
      ensures w.set_ >= old(disk.clock) && w.timer <= disk.clock && fires == w.timer + w.delay
      ensures published == old(published) + Stamps([] + [w])
      ensures |seen| == |editions| && forall i | 0 <= i < |seen| :: old(disk.clock) <= seen[i] <= w.set_
      ensures w.failures == failures == if OldestAge(old(Mtimes()), seen) >= interval then 1 else 0
      ensures w.mtimes == old(Mtimes())
    {
      hide OldestAge, NextRefresh, Streaming;
      failures := 0;
      var stale;
      stale, seen := Stale();
      if stale {
        failures := 1;
      }
      fires, w := SetTimer(failures);
      StartRun(interval, w);
    }

    /** Told to stop some time into a wait. */
    method Stop() returns (ghost now: int)
      requires Valid()
      modifies this`next, this`published, disk`clock
      ensures Valid() && old(disk.clock) <= now == disk.clock
      ensures next == 0 && published == old(published) + [Stamp(now, 0)]
    {
      disk.Pass();
      now := disk.clock;
      next, published := 0, published + [Stamp(now, 0)];
    }

    /** The loop, from its first wait on. */
    method Loop(rounds: nat, serve: nat -> string -> Served, works: nat -> bool, failures: int, fires: int,
                ghost first: Wait, ghost before: seq<Stamp>)
      returns (ghost waits: seq<Wait>, ghost checks: seq<Check>)
      requires Valid() && interval > 0
      requires ValidRun(interval, [] + [first], []) && published == before + Stamps([] + [first])
      requires first.failures == failures && first.timer <= disk.clock && fires == first.timer + first.delay
      modifies this`next, this`published, this`alarms, disk
      ensures Valid() && |checks| == rounds && ValidRun(interval, waits, checks)
      ensures |waits| == rounds + 1 && waits[0].(until := first.until) == first
      ensures next == 0 && published == before + History(waits)
      ensures alarms == old(alarms) + AlarmsOf(waits[..rounds])
      ensures disk.confirmed == old(disk.confirmed) + ConfirmedBy(checks)
      ensures forall k | 0 <= k < |checks| :: TellsOutcome(checks[k], works(k))
    {
      hide *;
      EditionsAreKnown();
      waits, checks := [], [];
      NoChecks();
      NoAlarms();
      ghost var w := first;
      var count, due := failures, fires;
      for i := 0 to rounds
        invariant Valid() && |checks| == |waits| == i && ValidRun(interval, waits + [w], checks)
        invariant (waits + [w])[0].(until := first.until) == first
        invariant w.failures == count && w.timer <= disk.clock && due == w.timer + w.delay
        invariant published == before + Stamps(waits + [w])
        invariant alarms == old(alarms) + AlarmsOf(waits)
        invariant disk.confirmed == old(disk.confirmed) + ConfirmedBy(checks)
        invariant forall k | 0 <= k < |checks| :: TellsOutcome(checks[k], works(k))
      {
        ghost var ended, c, v;
        count, due, ended, v, c := Round(count, due, serve(i), works(i), waits, w, checks);
        NextStamp(waits, w, c.start, v);
        NextAlarm(waits, ended);
        OneMoreCheck(checks, c);
        waits, w, checks := waits + [ended], v, checks + [c];
      }
      ghost var stop := Stop();
      EndRun(interval, waits, w, checks, stop);
      EndOfHistory(waits, w, stop);
      assert (waits + [w.(until := stop)])[..rounds] == waits;
      waits := waits + [w.(until := stop)];
    }

    /** Checks the databases until told to stop, which may happen in any wait: that is, after some
        number of checks. The servers and the reloads of each check may do anything. The checks and
        waits are those of a run as Schedule describes it. It begins with a failure on the count if
        and only if a database is stale; what next held over time is the history of those waits, one
        value for each and zero at the end; each check follows one timer; and how each check counted
        is what it did to the files and how the reload went. */
    method Run(rounds: nat, serve: nat -> string -> Served, works: nat -> bool)
      returns (ghost seen: seq<int>, ghost waits: seq<Wait>, ghost checks: seq<Check>)
      requires Valid()
      modifies this`next, this`published, this`alarms, disk
      ensures Valid()
      ensures interval <= 0 || databases == map[] ==> published == old(published) && waits == [] && checks == []
      ensures interval > 0 && databases != map[] ==>
                && |checks| == rounds && ValidRun(interval, waits, checks)
                && next == 0 && published == old(published) + History(waits)
                && alarms == old(alarms) + AlarmsOf(waits[..rounds])
                && disk.confirmed == old(disk.confirmed) + ConfirmedBy(checks)
                && (forall k | 0 <= k < |checks| :: TellsOutcome(checks[k], works(k)))
      ensures interval > 0 && databases != map[] ==>
                && waits[0].set_ >= old(disk.clock) && waits[0].mtimes == old(Mtimes())
                && |seen| == |editions| && (forall i | 0 <= i < |seen| :: old(disk.clock) <= seen[i] <= waits[0].set_)
                && waits[0].failures == if OldestAge(old(Mtimes()), seen) >= interval then 1 else 0
    {
      hide ValidRun, Stamps, OldestAge, History, TellsOutcome, ConfirmedBy, AlarmsOf, Mtimes;
      seen, waits, checks := [], [], [];
      if !Scheduled() {
        return;
      }
      var failures, fires;
      ghost var first;
      failures, fires, first, seen := Begin();
      waits, checks := Loop(rounds, serve, works, failures, fires, first, old(published));
    }
  }
}
