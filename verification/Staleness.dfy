/**
 How long an answer built from a replaced reader can live in the response cache. A reload clears
 the cache only after it swapped the readers, so an old answer survives the Clear only if its
 request had read it before the swap and stored it after the Clear.
 */
module Staleness {
  import opened Recency
  import opened Reloading
  import ReloadSafety

  /** The request has read from the database and may still store what it read. */
  predicate InFlight(q: Request, db: Db) {
    match q.pc
    case ReadCache => false
    case WantReadLock(next) => next == ASN && db == City
    case LookingUp(next, _) => next == ASN && db == City
    case Resolving => true
    case Storing => true
    case Answered => false
  }

  /** The request is about to store, or may come to store, what it read from a reader that is
      not the one in use. */
  predicate CarriesOld(s: State, t: Tid, db: Db) {
    t in s.requests && InFlight(s.requests[t], db) && s.requests[t].origin.At(db) != s.inUse.At(db)
  }

  /** From one state to the next the readers in use did not change. */
  ghost predicate SameReaders(run: seq<State>, i: nat, j: nat)
    requires i <= j < |run|
  {
    forall k | i <= k <= j :: run[k].inUse == run[i].inUse
  }

  predicate IsRequestStep(a: Action) {
    a.NewRequest? || a.CacheGet? || a.LockForLookup? || a.FinishLookup? || a.Resolved? || a.Store? || a.Skip?
  }

  lemma OtherStepsKeepRequests(configured: Pair<bool>, s: State, a: Action)
    requires Enabled(s, a) && !IsRequestStep(a)
    ensures Apply(configured, s, a).requests == s.requests
  {
  }

  /** While the readers stay, no lookup reads anything but what is in use, so a request that
      carries something else has carried it before. */
  lemma CarriedBefore(configured: Pair<bool>, s: State, a: Action, t: Tid, db: Db)
    requires ReloadSafety.LookupInv(s) && Enabled(s, a)
    requires var s' := Apply(configured, s, a); s'.inUse == s.inUse && CarriesOld(s', t, db)
    ensures CarriesOld(s, t, db)
    ensures var q, q' := s.requests[t], Apply(configured, s, a).requests[t];
            q.addr == q'.addr && q.complete == q'.complete && q.origin.At(db) == q'.origin.At(db)
  {
    if !IsRequestStep(a) {
      OtherStepsKeepRequests(configured, s, a);
    } else {
      hide Read, Set, Resize, AfterOpen, AfterSwap, AfterClose;
    }
  }

  lemma {:induction false} CarriedSince(configured: Pair<bool>, run: seq<State>, acts: seq<Action>,
                                        since: nat, now: nat, t: Tid, db: Db)
    requires IsRun(configured, run, acts) && since <= now < |run| && SameReaders(run, since, now)
    requires CarriesOld(run[now], t, db)
    ensures CarriesOld(run[since], t, db)
    ensures run[since].requests[t].addr == run[now].requests[t].addr
    ensures run[since].requests[t].complete == run[now].requests[t].complete
    ensures run[since].requests[t].origin.At(db) == run[now].requests[t].origin.At(db)
    decreases now
  {
    if since == now {
    } else {
      ReloadSafety.InvHolds(configured, run, acts, now - 1);
      CarriedBefore(configured, run[now - 1], acts[now - 1], t, db);
      CarriedSince(configured, run, acts, since, now - 1, t, db);
    }
  }

  // ------------------------------------------------------------ cache entries

  lemma SetMembers<K, V>(c: Lru<K, V>, a: K, response: V, e: Entry<K, V>)
    requires e in Set(c, a, response).items
    ensures e in c.items || e == Entry(a, response)
  {
  }

  lemma ReadMembers<K, V>(c: Lru<K, V>, a: K, e: Entry<K, V>)
    requires e in Read(c, a).items
    ensures e in c.items
  {
  }

  /** An entry that was not there before a step was stored by that step. */
  lemma NewEntryWasStored(configured: Pair<bool>, s: State, a: Action, s': State, e: Entry<Addr, Origin>)
    requires IsStep(configured, s, a, s') && e in s'.cache.items && e !in s.cache.items
    ensures a.Store? && RequestAt(s, a.t, Storing) && s.requests[a.t].complete
    ensures e == Entry(s.requests[a.t].addr, s.requests[a.t].origin)
    ensures s'.inUse == s.inUse
  {
    match a
    case CacheGet(t) => ReadMembers(s.cache, s.requests[t].addr, e);
    case Store(t) => SetMembers(s.cache, s.requests[t].addr, s.requests[t].origin, e);
    case _ =>
  }

  lemma ClearEmpties(configured: Pair<bool>, s: State, a: Action, s': State)
    requires IsStep(configured, s, a, s') && a.ClearCache?
    ensures s'.cache.items == []
  {
  }

  /** Since a Clear, while the readers stayed, an entry from another reader can only have been
      stored after the Clear by a request that carried it all the time. */
  lemma {:induction false} OldEntryWasCarried(configured: Pair<bool>, run: seq<State>, acts: seq<Action>,
                                              since: nat, clear: nat, now: nat, e: Entry<Addr, Origin>, db: Db)
      returns (k: nat, t: Tid)
    requires IsRun(configured, run, acts) && since <= clear < now < |run| && SameReaders(run, since, now)
    requires acts[clear].ClearCache?
    requires e in run[now].cache.items && e.response.At(db) != run[now].inUse.At(db)
    ensures clear < k < now && acts[k] == Store(t)
    ensures t in run[k].requests && e == Entry(run[k].requests[t].addr, run[k].requests[t].origin)
    ensures CarriesOld(run[since], t, db) && run[since].requests[t].complete
    ensures run[since].requests[t].addr == e.addr && run[since].requests[t].origin.At(db) == e.response.At(db)
    decreases now
  {
    if e in run[now - 1].cache.items {
      assert clear < now - 1 by {
        ClearEmpties(configured, run[clear], acts[clear], run[clear + 1]);
      }
      hide IsStep;
      k, t := OldEntryWasCarried(configured, run, acts, since, clear, now - 1, e, db);
    } else {
      NewEntryWasStored(configured, run[now - 1], acts[now - 1], run[now], e);
      hide IsStep;
      k, t := now - 1, acts[now - 1].t;
      assert k != clear;
      CarriedSince(configured, run, acts, since, k, t, db);
    }
  }

  // ----------------------------------------------------------------- theorems

  /** A request under way that may come to store something read from a reader not in use. Only one
      whose answer is complete ever stores. */
  predicate MayStoreOld(s: State, t: Tid) {
    t in s.requests && s.requests[t].complete && (CarriesOld(s, t, City) || CarriesOld(s, t, ASN))
  }

  ghost predicate NothingOldUnderWay(s: State) {
    forall t :: !MayStoreOld(s, t)
  }

  /** After a reload swapped the readers and, its error being nil, cleared the cache, and as long
      as no later swap changed the readers: an entry built from a replaced reader was stored after
      the Clear by a complete request for the same address that had read it before the swap. */
  lemma OldEntriesOutliveReload(configured: Pair<bool>, run: seq<State>, acts: seq<Action>, r: Tid,
                                swap: nat, clear: nat, now: nat, e: Entry<Addr, Origin>, db: Db)
      returns (k: nat, t: Tid)
    requires IsRun(configured, run, acts) && swap < clear < now < |run|
    requires acts[swap] == Swap(r) && acts[clear] == ClearCache(r)
    requires SameReaders(run, swap + 1, now)
    requires e in run[now].cache.items && e.response.At(db) != run[now].inUse.At(db)
    ensures clear < k < now && acts[k] == Store(t)
    ensures t in run[k].requests && e == Entry(run[k].requests[t].addr, run[k].requests[t].origin)
    ensures t in run[swap].requests && InFlight(run[swap].requests[t], db) && run[swap].requests[t].complete
    ensures run[swap].requests[t].addr == e.addr && run[swap].requests[t].origin.At(db) == e.response.At(db)
    ensures MayStoreOld(run[swap + 1], t)
  {
    k, t := OldEntryWasCarried(configured, run, acts, swap + 1, clear, now, e, db);
    assert IsStep(configured, run[swap], acts[swap], run[swap + 1]);
  }

  /** So when right after the swap no complete request under way carries anything from a replaced
      reader, every entry comes from the readers in use. */
  lemma CacheIsCurrent(configured: Pair<bool>, run: seq<State>, acts: seq<Action>, r: Tid,
                       swap: nat, clear: nat, now: nat, e: Entry<Addr, Origin>)
    requires IsRun(configured, run, acts) && swap < clear < now < |run|
    requires acts[swap] == Swap(r) && acts[clear] == ClearCache(r)
    requires SameReaders(run, swap + 1, now)
    requires NothingOldUnderWay(run[swap + 1])
    requires e in run[now].cache.items
    ensures e.response == run[now].inUse
  {
    if e.response.city != run[now].inUse.city {
      var k, t := OldEntriesOutliveReload(configured, run, acts, r, swap, clear, now, e, City);
    } else if e.response.asn != run[now].inUse.asn {
      var k, t := OldEntriesOutliveReload(configured, run, acts, r, swap, clear, now, e, ASN);
    }
  }

  // ------------------------------------------------- what a nil error means

  /** A reload past its swap. */
  predicate PastSwap(pc: ReloadPc) {
    pc.Swapped? || pc.Closing? || pc.Returning? || pc.Clearing? || pc.Finished?
  }

  lemma KeepsResult(configured: Pair<bool>, s: State, a: Action, s': State, r: Tid)
    requires IsStep(configured, s, a, s') && r in s.reloads && PastSwap(s.reloads[r].pc)
    ensures r in s'.reloads && PastSwap(s'.reloads[r].pc) && s'.reloads[r].got == s.reloads[r].got
    ensures s'.reloads[r].pc.Clearing? ==>
              s.reloads[r].pc.Clearing? || (s.reloads[r].got.city.Opened? && s.reloads[r].got.asn.Opened?)
  {
    hide Read, Set, Resize, OpenResult;
  }

  lemma {:induction false} ResultSinceSwap(configured: Pair<bool>, run: seq<State>, acts: seq<Action>, r: Tid,
                                           swap: nat, now: nat)
    requires IsRun(configured, run, acts) && swap < now < |run| && acts[swap] == Swap(r)
    ensures r in run[swap].reloads && r in run[now].reloads && PastSwap(run[now].reloads[r].pc)
    ensures var got := run[swap].reloads[r].got;
            run[now].reloads[r].got == got && (run[now].reloads[r].pc.Clearing? ==> got.city.Opened? && got.asn.Opened?)
    decreases now
  {
    if swap + 1 == now {
    } else {
      ResultSinceSwap(configured, run, acts, r, swap, now - 1);
      KeepsResult(configured, run[now - 1], acts[now - 1], run[now], r);
    }
  }

  /** A reload that clears the cache had opened both databases, and its swap put both in use. */
  lemma ClearingReplacedBoth(configured: Pair<bool>, run: seq<State>, acts: seq<Action>, r: Tid, swap: nat, clear: nat)
    requires IsRun(configured, run, acts) && swap < clear < |acts|
    requires acts[swap] == Swap(r) && acts[clear] == ClearCache(r)
    ensures r in run[swap].reloads
    ensures var got := run[swap].reloads[r].got;
            got.city.Opened? && got.asn.Opened? && run[swap + 1].inUse == Pair(got.city.reader, got.asn.reader)
  {
    ResultSinceSwap(configured, run, acts, r, swap, clear);
  }
}
