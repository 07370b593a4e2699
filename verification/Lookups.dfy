/**
 Where a stored answer comes from, over every run of Reloading: its request had missed in the
 cache, and what it carries of each database was read there from the reader then in use.
 */
module Lookups {
  import opened Wrappers
  import opened Recency
  import opened Reloading
  import opened Staleness
  import ReloadSafety

  /** The request has missed in the cache and has not answered yet. */
  predicate HasMissed(q: Request) {
    !q.pc.ReadCache? && !q.pc.Answered?
  }

  lemma MissStep(configured: Pair<bool>, s: State, a: Action, t: Tid)
    requires Enabled(s, a)
    requires var s' := Apply(configured, s, a); t in s'.requests && HasMissed(s'.requests[t])
    ensures t in s.requests && Apply(configured, s, a).requests[t].addr == s.requests[t].addr
    ensures HasMissed(s.requests[t]) || (a == CacheGet(t) && !Has(s.cache.items, s.requests[t].addr))
  {
    hide Read, Set, Resize, Has, AfterOpen, AfterSwap, AfterClose;
    if !IsRequestStep(a) {
      OtherStepsKeepRequests(configured, s, a);
    }
  }

  /** A request that looks anything up, or stores, has missed in the cache before. */
  lemma {:induction false} MissedBefore(configured: Pair<bool>, run: seq<State>, acts: seq<Action>, now: nat, t: Tid)
      returns (i: nat)
    requires IsRun(configured, run, acts) && now < |run|
    requires t in run[now].requests && HasMissed(run[now].requests[t])
    ensures i < now && acts[i] == CacheGet(t) && !Has(run[i].cache.items, run[now].requests[t].addr)
    decreases now
  {
    assert now > 0;
    var s := run[now - 1];
    assert IsStep(configured, s, acts[now - 1], run[now]);
    MissStep(configured, s, acts[now - 1], t);
    if HasMissed(s.requests[t]) {
      i := MissedBefore(configured, run, acts, now - 1, t);
    } else {
      i := now - 1;
    }
  }

  lemma ReadStep(configured: Pair<bool>, s: State, a: Action, t: Tid, db: Db)
    requires Enabled(s, a)
    requires var s' := Apply(configured, s, a); t in s'.requests && InFlight(s'.requests[t], db)
    ensures t in s.requests
    ensures var q, q' := s.requests[t], Apply(configured, s, a).requests[t];
            if InFlight(q, db) then q'.origin.At(db) == q.origin.At(db) && q'.addr == q.addr
            else a == FinishLookup(t) && q.pc == LookingUp(db, q'.origin.At(db)) && q'.addr == q.addr
  {
    hide Read, Set, Resize, Has, AfterOpen, AfterSwap, AfterClose;
    if !IsRequestStep(a) {
      OtherStepsKeepRequests(configured, s, a);
    }
  }

  /** What a request carries of a database was read by a lookup of its own, which began and ended
      with that reader in use. */
  lemma {:induction false} ReadFrom(configured: Pair<bool>, run: seq<State>, acts: seq<Action>, now: nat,
                                    t: Tid, db: Db)
      returns (i: nat)
    requires IsRun(configured, run, acts) && now < |run|
    requires t in run[now].requests && InFlight(run[now].requests[t], db)
    ensures i < now && acts[i] == FinishLookup(t) && t in run[i].requests
    ensures var read := run[now].requests[t].origin.At(db);
            run[i].requests[t].pc == LookingUp(db, read) && run[i].inUse.At(db) == read
    ensures run[i].requests[t].addr == run[now].requests[t].addr
    decreases now
  {
    assert now > 0;
    var s := run[now - 1];
    assert IsStep(configured, s, acts[now - 1], run[now]);
    ReadStep(configured, s, acts[now - 1], t, db);
    if InFlight(s.requests[t], db) {
      i := ReadFrom(configured, run, acts, now - 1, t, db);
    } else {
      i := now - 1;
      ReloadSafety.InvHolds(configured, run, acts, i);
    }
  }

  /** A stored answer: its request is complete, missed in the cache, and read each database, with
      the reader then in use, before it stored what it read under its own address. */
  lemma StoredAnswer(configured: Pair<bool>, run: seq<State>, acts: seq<Action>, k: nat, t: Tid)
      returns (miss: nat, city: nat, asn: nat)
    requires IsRun(configured, run, acts) && k < |acts| && acts[k] == Store(t)
    ensures t in run[k].requests && run[k].requests[t].complete
    ensures var q := run[k].requests[t];
            && miss < k && acts[miss] == CacheGet(t) && !Has(run[miss].cache.items, q.addr)
            && city < k && acts[city] == FinishLookup(t) && run[city].inUse.city == q.origin.city
            && asn < k && acts[asn] == FinishLookup(t) && run[asn].inUse.asn == q.origin.asn
            && run[k + 1].cache == Set(run[k].cache, q.addr, q.origin)
  {
    assert IsStep(configured, run[k], acts[k], run[k + 1]);
    miss := MissedBefore(configured, run, acts, k, t);
    city := ReadFrom(configured, run, acts, k, t, City);
    asn := ReadFrom(configured, run, acts, k, t, ASN);
  }
}
