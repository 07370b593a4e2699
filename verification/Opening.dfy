/**
 What a failed open does to a reload, over every run of Reloading: its database keeps the reader
 it had, and the cache is not cleared.
 */
module Opening {
  import opened Wrappers
  import opened Recency
  import opened Geo
  import opened Reloading

  /** Which opens give a reader, and which count as failed: a database without a path is left out
      and has not failed, and a failed open may still hand back a reader. */
  lemma OpenedExactly(configured: bool, outcome: OpenOutcome, next: Handle)
    ensures var got := OpenResult(configured, outcome, next);
            && (got.Opened? <==> !configured || outcome.Opens?)
            && got.reader == if configured && !outcome.Fails? then Some(next) else None
  {
  }

  /** What a reload got for a database follows from how its file opened, at a step with that
      number for the next reader. */
  ghost predicate Got(configured: bool, outcome: OpenOutcome, next: Handle, got: Opened<Handle>) {
    && (got.Opened? <==> !configured || outcome.Opens?)
    && got.reader == if configured && !outcome.Fails? then Some(next) else None
  }

  /** The reload has tried to open the file of this database. */
  predicate HasTried(r: Reload, db: Db) {
    match r.pc
    case Opening(next) => next == ASN && db == City
    case _ => true
  }

  /** The i-th step is the one with which the reload tried to open the file of this database. */
  ghost predicate TriedAt(run: seq<State>, acts: seq<Action>, r: Tid, db: Db, i: nat, outcome: OpenOutcome) {
    i < |acts| && i < |run| && acts[i] == OpenFile(r, outcome) && ReloadAt(run[i], r, Opening(db))
  }

  lemma KeepsGot(configured: Pair<bool>, s: State, a: Action, r: Tid, db: Db)
    requires Enabled(s, a)
    requires var s' := Apply(configured, s, a); r in s'.reloads && HasTried(s'.reloads[r], db)
    ensures r in s.reloads
    ensures if HasTried(s.reloads[r], db)
            then Apply(configured, s, a).reloads[r].got.At(db) == s.reloads[r].got.At(db)
            else s.reloads[r].pc == Opening(db) && a.OpenFile? && a.t == r
                 && Apply(configured, s, a).reloads[r].got.At(db) == OpenResult(configured.At(db), a.outcome, s.next)
  {
    hide Read, Set, Resize, OpenResult, InUseAfter, ToClose;
  }

  /** What a reload holds of a database comes from the one step in which it opened its file. */
  lemma {:induction false} GotFromOpening(configured: Pair<bool>, run: seq<State>, acts: seq<Action>, r: Tid, db: Db,
                                          now: nat)
      returns (i: nat, outcome: OpenOutcome)
    requires IsRun(configured, run, acts) && now < |run|
    requires r in run[now].reloads && HasTried(run[now].reloads[r], db)
    ensures i < now && TriedAt(run, acts, r, db, i, outcome)
    ensures Got(configured.At(db), outcome, run[i].next, run[now].reloads[r].got.At(db))
    decreases now
  {
    assert now > 0;
    var s := run[now - 1];
    assert IsStep(configured, s, acts[now - 1], run[now]);
    KeepsGot(configured, s, acts[now - 1], r, db);
    if HasTried(s.reloads[r], db) {
      i, outcome := GotFromOpening(configured, run, acts, r, db, now - 1);
    } else {
      i, outcome := now - 1, acts[now - 1].outcome;
      OpenedExactly(configured.At(db), outcome, s.next);
    }
  }

  /** The readers in use after a swap: the one just opened, none for a database without a path,
      and the one from before where the open failed. */
  lemma SwapPutsInUse(configured: Pair<bool>, run: seq<State>, acts: seq<Action>, r: Tid, swap: nat, db: Db)
      returns (i: nat, outcome: OpenOutcome)
    requires IsRun(configured, run, acts) && swap < |acts| && acts[swap] == Swap(r)
    ensures i < swap && TriedAt(run, acts, r, db, i, outcome)
    ensures run[swap + 1].inUse.At(db) ==
            if !configured.At(db) then None
            else if outcome.Opens? then Some(run[i].next)
            else run[swap].inUse.At(db)
  {
    assert IsStep(configured, run[swap], acts[swap], run[swap + 1]);
    i, outcome := GotFromOpening(configured, run, acts, r, db, swap);
  }

  /** A reload that has come to clear the cache opened the file of every configured database. */
  lemma ClearsOnlyAfterOpening(configured: Pair<bool>, run: seq<State>, acts: seq<Action>, r: Tid, clear: nat, db: Db)
      returns (i: nat, outcome: OpenOutcome)
    requires IsRun(configured, run, acts) && clear < |acts| && acts[clear] == ClearCache(r)
    ensures i < clear && TriedAt(run, acts, r, db, i, outcome)
    ensures configured.At(db) ==> outcome == Opens
  {
    assert IsStep(configured, run[clear], acts[clear], run[clear + 1]);
    ClearingHasOpened(configured, run, acts, r, clear);
    i, outcome := GotFromOpening(configured, run, acts, r, db, clear);
  }

  lemma {:induction false} ClearingHasOpened(configured: Pair<bool>, run: seq<State>, acts: seq<Action>, r: Tid,
                                             now: nat)
    requires IsRun(configured, run, acts) && now < |run| && ReloadAt(run[now], r, Clearing)
    ensures run[now].reloads[r].got.city.Opened? && run[now].reloads[r].got.asn.Opened?
    decreases now
  {
    assert now > 0;
    var s := run[now - 1];
    assert IsStep(configured, s, acts[now - 1], run[now]);
    ComesToClear(configured, s, acts[now - 1], r);
    if ReloadAt(s, r, Clearing) {
      ClearingHasOpened(configured, run, acts, r, now - 1);
    }
  }

  lemma ComesToClear(configured: Pair<bool>, s: State, a: Action, r: Tid)
    requires Enabled(s, a) && ReloadAt(Apply(configured, s, a), r, Clearing)
    ensures r in s.reloads && Apply(configured, s, a).reloads[r].got == s.reloads[r].got
    ensures ReloadAt(s, r, Clearing) || (s.reloads[r].got.city.Opened? && s.reloads[r].got.asn.Opened?)
  {
    hide Read, Set, Resize, OpenResult, InUseAfter, ToClose;
  }
}
