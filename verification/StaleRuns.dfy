/**
 When a reload that succeeds can leave an old answer in the cache: exactly when, right after its
 swap, a complete request under way carries something from a replaced reader. Staleness has one
 direction; here the run goes on until the old answer is stored.
 */
module StaleRuns {
  import opened Wrappers
  import opened Recency
  import opened Geo
  import opened Reloading
  import opened Staleness
  import RecencyPolicy

  // ------------------------------------------------------- playing actions

  /** The state after the actions, if each of them is enabled in its turn. */
  function Play(configured: Pair<bool>, s: State, acts: seq<Action>): Option<State>
    decreases acts
  {
    if acts == [] then Some(s)
    else if !Enabled(s, acts[0]) then None
    else Play(configured, Apply(configured, s, acts[0]), acts[1..])
  }

  lemma {:induction false} PlayConcat(configured: Pair<bool>, s: State, acts: seq<Action>, more: seq<Action>)
    requires Play(configured, s, acts).Some?
    ensures Play(configured, s, acts + more) == Play(configured, Play(configured, s, acts).value, more)
    decreases acts
  {
    if acts == [] {
      assert acts + more == more;
    } else {
      assert (acts + more)[1..] == acts[1..] + more;
      PlayConcat(configured, Apply(configured, s, acts[0]), acts[1..], more);
    }
  }

  lemma PlayThen(configured: Pair<bool>, s: State, acts: seq<Action>, s': State, more: seq<Action>, s'': State)
    requires Play(configured, s, acts) == Some(s') && Play(configured, s', more) == Some(s'')
    ensures Play(configured, s, acts + more) == Some(s'')
  {
    PlayConcat(configured, s, acts, more);
  }

  lemma PlayStep(configured: Pair<bool>, s: State, a: Action, s': State)
    requires IsStep(configured, s, a, s')
    ensures Play(configured, s, [a]) == Some(s')
  {
    assert [a][1..] == [];
    assert Play(configured, s', []) == Some(s');
  }

  /** A run goes on with actions that can be played from its last state. */
  lemma {:induction false} GoOn(configured: Pair<bool>, run: seq<State>, acts: seq<Action>, more: seq<Action>)
      returns (run': seq<State>)
    requires IsRun(configured, run, acts) && Play(configured, run[|acts|], more).Some?
    ensures IsRun(configured, run', acts + more) && run <= run'
    ensures Some(run'[|acts + more|]) == Play(configured, run[|acts|], more)
    decreases more
  {
    if more == [] {
      run' := run;
      assert acts + more == acts;
    } else {
      var s' := Apply(configured, run[|acts|], more[0]);
      var longer := run + [s'];
      assert IsStep(configured, run[|acts|], more[0], s');
      hide IsStep;
      forall i {:trigger (acts + [more[0]])[i]} | 0 <= i < |acts + [more[0]]|
        ensures IsStep(configured, longer[i], (acts + [more[0]])[i], longer[i + 1])
      {
        if i < |acts| {
          assert IsStep(configured, run[i], acts[i], run[i + 1]);
        }
      }
      assert longer[0] == run[0];
      run' := GoOn(configured, longer, acts + [more[0]], more[1..]);
      assert acts + [more[0]] + more[1..] == acts + more;
    }
  }

  // ------------------------------------------------------ finishing the reload

  /** What a reload does after its swap, when both files opened. */
  function ReloadEnd(r: Tid): seq<Action> {
    [Unlock(r)] + [CloseReplaced(r)] + [CloseReplaced(r)] + [Return(r)] + [ClearCache(r)]
  }

  function Closed(s: State, reader: Option<Handle>): State {
    match reader
    case None => s
    case Some(h) => s.(open := s.open - {h}, closes := s.closes + [h])
  }

  lemma CloseBoth(configured: Pair<bool>, s: State, r: Tid) returns (s': State)
    requires ReloadAt(s, r, Closing(City))
    ensures Play(configured, s, [CloseReplaced(r)] + [CloseReplaced(r)]) == Some(s')
    ensures var v := s.reloads[r];
            var closed := Closed(Closed(s, ToClose(v.was.city, v.got.city)), ToClose(v.was.asn, v.got.asn));
            s' == WithReload(closed, r, v.(pc := Returning))
  {
    hide AfterOpen, AfterSwap, AfterFinishLookup, Play, Read, Set, Resize;
    var s1 := AfterClose(s, r);
    PlayStep(configured, s, CloseReplaced(r), s1);
    s' := AfterClose(s1, r);
    PlayStep(configured, s1, CloseReplaced(r), s');
    PlayThen(configured, s, [CloseReplaced(r)], s1, [CloseReplaced(r)], s');
    assert s'.reloads == s.reloads[r := s'.reloads[r]];
  }

  lemma FinishReload(configured: Pair<bool>, s: State, r: Tid) returns (s': State)
    requires ReloadAt(s, r, Swapped) && s.reloads[r].got.city.Opened? && s.reloads[r].got.asn.Opened?
    ensures Play(configured, s, ReloadEnd(r)) == Some(s')
    ensures s'.writer == None && s'.readers == s.readers && s'.requests == s.requests && s'.inUse == s.inUse
    ensures s'.cache == Cleared(s.cache) && s'.next == s.next
    ensures s'.reloads.Keys == s.reloads.Keys
    ensures var closed := Closed(Closed(s, s.reloads[r].was.city), s.reloads[r].was.asn);
            s'.open == closed.open && s'.closes == closed.closes
  {
    hide AfterOpen, AfterSwap, AfterClose, AfterFinishLookup, Play, Read, Set, Resize, Cleared;
    var v := s.reloads[r];
    var close := [CloseReplaced(r)] + [CloseReplaced(r)];
    var s1 := WithReload(s, r, v.(pc := Closing(City))).(writer := None);
    PlayStep(configured, s, Unlock(r), s1);
    var s3 := CloseBoth(configured, s1, r);
    PlayThen(configured, s, [Unlock(r)], s1, close, s3);
    var s4 := WithReload(s3, r, v.(pc := Clearing));
    PlayStep(configured, s3, Return(r), s4);
    PlayThen(configured, s, [Unlock(r)] + close, s3, [Return(r)], s4);
    s' := WithReload(s4, r, v.(pc := Finished)).(cache := Cleared(s4.cache));
    PlayStep(configured, s4, ClearCache(r), s');
    PlayThen(configured, s, [Unlock(r)] + close + [Return(r)], s4, [ClearCache(r)], s');
    assert [Unlock(r)] + close + [Return(r)] + [ClearCache(r)] == ReloadEnd(r);
  }

  // ----------------------------------------------------- finishing the request

  /** The request carries something old and may store it; nothing keeps it from going on. */
  ghost predicate OnItsWay(s: State, t: Tid, db: Db) {
    CarriesOld(s, t, db) && s.requests[t].complete && s.writer == None && s.cache.capacity > 0
  }

  function NextOf(q: Request, t: Tid): Action {
    match q.pc
    case WantReadLock(_) => LockForLookup(t)
    case LookingUp(_, _) => FinishLookup(t)
    case Resolving => Resolved(t)
    case _ => Store(t)
  }

  /** How many steps a request has to take. */
  function StepsLeft(q: Request): nat {
    match q.pc
    case WantReadLock(_) => 4
    case LookingUp(_, _) => 3
    case Resolving => 2
    case _ => 1
  }

  lemma NextOnItsWay(configured: Pair<bool>, s: State, t: Tid, db: Db)
    requires OnItsWay(s, t, db) && !s.requests[t].pc.Storing?
    ensures Enabled(s, NextOf(s.requests[t], t))
    ensures var s' := Apply(configured, s, NextOf(s.requests[t], t));
            && OnItsWay(s', t, db) && StepsLeft(s'.requests[t]) < StepsLeft(s.requests[t])
            && KeepsAnswer(s, s', t, db)
            && s'.inUse == s.inUse && s'.open == s.open && s'.closes == s.closes
  {
    hide AfterOpen, AfterSwap, AfterClose, Read, Set, Resize;
  }

  predicate HasReadAll(q: Request) {
    q.pc.Resolving? || q.pc.Storing?
  }

  /** The address, and what was read from a database, stay. */
  ghost predicate KeepsAnswer(s: State, s': State, t: Tid, db: Db)
    requires t in s.requests && t in s'.requests
  {
    && s'.requests[t].addr == s.requests[t].addr
    && (HasReadAll(s.requests[t]) ==> HasReadAll(s'.requests[t]) && s'.requests[t].origin == s.requests[t].origin)
    && s'.requests[t].origin.At(db) == s.requests[t].origin.At(db)
  }

  /** The request goes on until it has stored what it carries. */
  lemma {:induction false} FinishRequest(configured: Pair<bool>, s: State, t: Tid, db: Db)
      returns (acts: seq<Action>, s': State, e: Entry<Addr, Origin>)
    requires OnItsWay(s, t, db)
    ensures Play(configured, s, acts) == Some(s') && NoneSwaps(acts) && NoneResizes(acts)
    ensures s'.inUse == s.inUse && s'.open == s.open && s'.closes == s.closes
    ensures e in s'.cache.items && e.addr == s.requests[t].addr
    ensures HasReadAll(s.requests[t]) ==> e.response == s.requests[t].origin
    ensures e.response.At(db) == s.requests[t].origin.At(db) != s'.inUse.At(db)
    decreases StepsLeft(s.requests[t])
  {
    var q := s.requests[t];
    if q.pc.Storing? {
      acts, s', e := [Store(t)], Apply(configured, s, Store(t)), Entry(q.addr, q.origin);
      PlayStep(configured, s, Store(t), s');
      SetItems(s.cache, q.addr, q.origin);
    } else {
      NextOnItsWay(configured, s, t, db);
      var a := NextOf(q, t);
      var next := Apply(configured, s, a);
      PlayStep(configured, s, a, next);
      hide OnItsWay, Apply, Enabled;
      acts, s', e := FinishRequest(configured, next, t, db);
      PlayThen(configured, s, [a], next, acts, s');
      acts := [a] + acts;
    }
  }

  lemma SetItems<K, V>(c: Lru<K, V>, a: K, response: V)
    requires c.capacity > 0
    ensures Entry(a, response) in Set(c, a, response).items
  {
    var rest := Without(c.items, a);
    SetInSteps(c, a, response);
    assert Set(c, a, response).items[|DropOldest(rest, |rest| - c.capacity + 1)|] == Entry(a, response);
  }

  ghost predicate NoneSwaps(acts: seq<Action>) {
    forall i | 0 <= i < |acts| :: !acts[i].Swap?
  }

  ghost predicate NoneResizes(acts: seq<Action>) {
    forall i | 0 <= i < |acts| :: !acts[i].ResizeCache?
  }

  // ----------------------------------------------------------------- theorem

  /** A run in which a reload cleared the cache after its swap, nothing was swapped later, and
      the cache holds an entry that does not come from the readers in use. */
  ghost predicate LeftStale(run: seq<State>, acts: seq<Action>, r: Tid, swap: nat) {
    && |run| == |acts| + 1 && swap < |acts| && acts[swap] == Swap(r)
    && NoneSwaps(acts[swap + 1..])
    && (exists clear | swap < clear < |acts| :: acts[clear] == ClearCache(r))
    && (exists e | e in run[|acts|].cache.items :: e.response != run[|acts|].inUse)
  }

  ghost predicate GoesOn(configured: Pair<bool>, run: seq<State>, acts: seq<Action>,
                         run': seq<State>, acts': seq<Action>)
  {
    IsRun(configured, run', acts') && run <= run' && acts <= acts'
  }

  lemma KeepsInUse(configured: Pair<bool>, s: State, a: Action)
    requires Enabled(s, a) && !a.Swap?
    ensures Apply(configured, s, a).inUse == s.inUse
  {
  }

  lemma {:induction false} NoSwapSameReaders(configured: Pair<bool>, run: seq<State>, acts: seq<Action>, i: nat, j: nat)
    requires IsRun(configured, run, acts) && i <= j <= |acts| && NoneSwaps(acts[i..])
    ensures SameReaders(run, i, j)
    decreases j
  {
    if i == j {
    } else {
      NoSwapSameReaders(configured, run, acts, i, j - 1);
      assert acts[i..][j - 1 - i] == acts[j - 1];
      assert IsStep(configured, run[j - 1], acts[j - 1], run[j]);
      KeepsInUse(configured, run[j - 1], acts[j - 1]);
    }
  }

  /** The reload finishes and clears the cache, then the request finishes and stores. A disabled
      cache is given room in between. */
  lemma LeavesStale(configured: Pair<bool>, s: State, r: Tid, t: Tid, db: Db)
      returns (acts: seq<Action>, s': State, e: Entry<Addr, Origin>)
    requires ReloadAt(s, r, Swapped) && s.reloads[r].got.city.Opened? && s.reloads[r].got.asn.Opened?
    requires CarriesOld(s, t, db) && s.requests[t].complete
    ensures Play(configured, s, acts) == Some(s') && NoneSwaps(acts)
    ensures s.cache.capacity > 0 ==> NoneResizes(acts)
    ensures |acts| >= 5 && acts[4] == ClearCache(r)
    ensures s'.inUse == s.inUse
    ensures var closed := Closed(Closed(s, s.reloads[r].was.city), s.reloads[r].was.asn);
            s'.open == closed.open && s'.closes == closed.closes
    ensures e in s'.cache.items && e.addr == s.requests[t].addr
    ensures HasReadAll(s.requests[t]) ==> e.response == s.requests[t].origin
    ensures e.response.At(db) == s.requests[t].origin.At(db) != s'.inUse.At(db)
  {
    hide Play, Apply, Closed;
    var s1 := FinishReload(configured, s, r);
    var room: seq<Action> := if s1.cache.capacity == 0 then [ResizeCache(1)] else [];
    var s2 := if s1.cache.capacity == 0 then s1.(cache := Resize(s1.cache, 1)) else s1;
    MakesRoom(configured, s1);
    PlayThen(configured, s, ReloadEnd(r), s1, room, s2);
    var finish;
    finish, s', e := FinishRequest(configured, s2, t, db);
    PlayThen(configured, s, ReloadEnd(r) + room, s2, finish, s');
    acts := ReloadEnd(r) + room + finish;
    assert forall i | 5 + |room| <= i < |acts| :: acts[i] == finish[i - 5 - |room|];
  }

  lemma MakesRoom(configured: Pair<bool>, s: State)
    ensures s.cache.capacity == 0 ==>
              Play(configured, s, [ResizeCache(1)]) == Some(s.(cache := Resize(s.cache, 1)))
    ensures Play(configured, s, []) == Some(s)
    ensures Resize(s.cache, 1).capacity == 1
  {
    PlayStep(configured, s, ResizeCache(1), s.(cache := Resize(s.cache, 1)));
  }

  /** Once a reload has swapped the readers: the run can go on, without another swap, to where
      this reload has cleared the cache and an entry from a replaced reader is in it, if and only
      if the reload opened both files and right after the swap a complete request under way
      carries something from a replaced reader. */
  lemma StaleExactly(configured: Pair<bool>, run: seq<State>, acts: seq<Action>, r: Tid)
    requires IsRun(configured, run, acts) && acts != [] && acts[|acts| - 1] == Swap(r)
    ensures r in run[|acts|].reloads
    ensures (exists run', acts' ::
               GoesOn(configured, run, acts, run', acts') && LeftStale(run', acts', r, |acts| - 1)) <==>
            && run[|acts|].reloads[r].got.city.Opened? && run[|acts|].reloads[r].got.asn.Opened?
            && !NothingOldUnderWay(run[|acts|])
  {
    var s, swap := run[|acts|], |acts| - 1;
    assert IsStep(configured, run[swap], acts[swap], s);
    assert ReloadAt(s, r, Swapped) && s.reloads[r].got == run[swap].reloads[r].got;
    hide GoesOn, LeftStale, IsRun, IsStep, MayStoreOld;
    if run', acts' :| GoesOn(configured, run, acts, run', acts') && LeftStale(run', acts', r, swap) {
      OnlyThen(configured, run, acts, run', acts', r);
    }
    if t :| MayStoreOld(s, t) && s.reloads[r].got.city.Opened? && s.reloads[r].got.asn.Opened? {
      var run', acts' := ThenIndeed(configured, run, acts, r, t);
    }
  }

  lemma ThenIndeed(configured: Pair<bool>, run: seq<State>, acts: seq<Action>, r: Tid, t: Tid)
      returns (run': seq<State>, acts': seq<Action>)
    requires IsRun(configured, run, acts) && acts != [] && acts[|acts| - 1] == Swap(r)
    requires var s := run[|acts|];
             && ReloadAt(s, r, Swapped) && s.reloads[r].got.city.Opened? && s.reloads[r].got.asn.Opened?
             && MayStoreOld(s, t)
    ensures GoesOn(configured, run, acts, run', acts') && LeftStale(run', acts', r, |acts| - 1)
    ensures run[|acts|].cache.capacity > 0 ==> NoneResizes(acts'[|acts|..])
  {
    hide IsStep, Play, NoneSwaps, NoneResizes;
    var s := run[|acts|];
    var db := if CarriesOld(s, t, City) then City else ASN;
    var more, s', e := LeavesStale(configured, s, r, t, db);
    run' := GoOn(configured, run, acts, more);
    acts' := acts + more;
    assert acts'[|acts| + 4] == ClearCache(r);
    assert acts'[|acts| - 1 + 1..] == more;
  }

  lemma OnlyThen(configured: Pair<bool>, run: seq<State>, acts: seq<Action>, run': seq<State>, acts': seq<Action>,
                 r: Tid)
    requires acts != [] && |run| == |acts| + 1 && GoesOn(configured, run, acts, run', acts')
    requires LeftStale(run', acts', r, |acts| - 1)
    requires r in run[|acts|].reloads && r in run[|acts| - 1].reloads
    requires run[|acts|].reloads[r].got == run[|acts| - 1].reloads[r].got
    ensures run[|acts|].reloads[r].got.city.Opened? && run[|acts|].reloads[r].got.asn.Opened?
    ensures !NothingOldUnderWay(run[|acts|])
  {
    var swap, now := |acts| - 1, |acts'|;
    var clear :| swap < clear < now && acts'[clear] == ClearCache(r);
    var e :| e in run'[now].cache.items && e.response != run'[now].inUse;
    ClearingReplacedBoth(configured, run', acts', r, swap, clear);
    NoSwapSameReaders(configured, run', acts', swap + 1, now);
    if NothingOldUnderWay(run'[swap + 1]) {
      CacheIsCurrent(configured, run', acts', r, swap, clear, now, e);
    }
  }

  // ------------------------------------------------------------ without resizes

  lemma StepIsBounded(configured: Pair<bool>, s: State, a: Action)
    requires Enabled(s, a) && |s.cache.items| <= s.cache.capacity
    ensures var c := Apply(configured, s, a).cache;
            |c.items| <= c.capacity && (!a.ResizeCache? ==> c.capacity == s.cache.capacity)
  {
    hide OpenResult, InUseAfter, ToClose, Read, Set, Resize;
    match a
    case CacheGet(t) => RecencyPolicy.ReadSize(s.cache, s.requests[t].addr);
    case Store(t) =>
      SetInSteps(s.cache, s.requests[t].addr, s.requests[t].origin);
      DisabledSet(s.cache, s.requests[t].addr, s.requests[t].origin);
      SetIsBounded(s.cache, s.requests[t].addr, s.requests[t].origin);
    case ResizeCache(n) => ResizeInSteps(s.cache, n);
    case _ =>
  }

  /** The cache never holds more than its capacity, which only a resize changes. */
  lemma {:induction false} CacheIsBounded(configured: Pair<bool>, run: seq<State>, acts: seq<Action>, i: nat, now: nat)
    requires IsRun(configured, run, acts) && i <= now <= |acts|
    ensures |run[now].cache.items| <= run[now].cache.capacity
    ensures NoneResizes(acts[i..]) ==> run[now].cache.capacity == run[i].cache.capacity
    decreases now
  {
    if now == 0 {
    } else {
      CacheIsBounded(configured, run, acts, if i == now then i - 1 else i, now - 1);
      assert IsStep(configured, run[now - 1], acts[now - 1], run[now]);
      StepIsBounded(configured, run[now - 1], acts[now - 1]);
      if i < now {
        assert acts[i..][now - 1 - i] == acts[now - 1];
      }
    }
  }

  /** Where nobody resizes the cache, it can go stale if and only if, besides, it is enabled. */
  lemma StaleWithoutResize(configured: Pair<bool>, run: seq<State>, acts: seq<Action>, r: Tid)
    requires IsRun(configured, run, acts) && acts != [] && acts[|acts| - 1] == Swap(r)
    ensures r in run[|acts|].reloads
    ensures (exists run', acts' ::
               && GoesOn(configured, run, acts, run', acts') && LeftStale(run', acts', r, |acts| - 1)
               && NoneResizes(acts'[|acts|..])) <==>
            && run[|acts|].reloads[r].got.city.Opened? && run[|acts|].reloads[r].got.asn.Opened?
            && !NothingOldUnderWay(run[|acts|]) && run[|acts|].cache.capacity > 0
  {
    hide IsRun, LeftStale, MayStoreOld, NoneResizes;
    AfterTheSwap(configured, run, acts, r);
    StaleExactly(configured, run, acts, r);
    var s := run[|acts|];
    if run', acts' :| GoesOn(configured, run, acts, run', acts') && LeftStale(run', acts', r, |acts| - 1)
                      && NoneResizes(acts'[|acts|..]) {
      HoldsAnEntry(run', acts', r, |acts| - 1);
      CacheIsBounded(configured, run', acts', |acts|, |acts'|);
    }
    if t :| MayStoreOld(s, t) && s.reloads[r].got.city.Opened? && s.reloads[r].got.asn.Opened? && s.cache.capacity > 0 {
      var run', acts' := ThenIndeed(configured, run, acts, r, t);
    }
  }

  lemma HoldsAnEntry(run: seq<State>, acts: seq<Action>, r: Tid, swap: nat)
    requires LeftStale(run, acts, r, swap)
    ensures |run| == |acts| + 1 && run[|acts|].cache.items != []
  {
  }

  lemma AfterTheSwap(configured: Pair<bool>, run: seq<State>, acts: seq<Action>, r: Tid)
    requires IsRun(configured, run, acts) && acts != [] && acts[|acts| - 1] == Swap(r)
    ensures |run| == |acts| + 1 && ReloadAt(run[|acts|], r, Swapped)
  {
    assert IsStep(configured, run[|acts| - 1], acts[|acts| - 1], run[|acts|]);
  }

  // ---------------------------------------------------------------- an example

  const BOTH := Pair(true, true)
  const ADDR: Addr := "192.0.2.1"

  /** What a reload does up to its swap, when both files open. */
  function ReloadStart(r: Tid): seq<Action> {
    [NewReload(r)] + [OpenFile(r, Opens)] + [OpenFile(r, Opens)] + [LockForSwap(r)] + [Swap(r)]
  }

  function NextReaders(s: State): Origin {
    Pair(Some(s.next), Some(s.next + 1))
  }

  /** A reload that is about to swap two readers opened by it. */
  ghost predicate HasOpenedBoth(s: State, s': State, r: Tid) {
    && ReloadAt(s', r, WantWriteLock) && s'.reloads.Keys == s.reloads.Keys + {r}
    && s'.reloads[r].got == Pair(Opened(Some(s.next)), Opened(Some(s.next + 1)))
    && s'.next == s.next + 2 && s'.open == s.open + {s.next} + {s.next + 1}
    && s'.writer == s.writer && s'.readers == s.readers && s'.inUse == s.inUse && s'.closes == s.closes
    && s'.requests == s.requests && s'.cache == s.cache
  }

  lemma OpenBoth(s: State, r: Tid) returns (s': State)
    requires r !in s.reloads
    ensures Play(BOTH, s, [NewReload(r)] + [OpenFile(r, Opens)] + [OpenFile(r, Opens)]) == Some(s')
    ensures HasOpenedBoth(s, s', r)
  {
    hide AfterSwap, AfterClose, AfterFinishLookup, Play, Read, Set, Resize;
    var s1 := WithReload(s, r, Reload(Opening(City), Pair(Opened(None), Opened(None)), Pair(None, None)));
    PlayStep(BOTH, s, NewReload(r), s1);
    var s2 := AfterOpen(s1, r, BOTH, Opens);
    PlayStep(BOTH, s1, OpenFile(r, Opens), s2);
    PlayThen(BOTH, s, [NewReload(r)], s1, [OpenFile(r, Opens)], s2);
    s' := AfterOpen(s2, r, BOTH, Opens);
    PlayStep(BOTH, s2, OpenFile(r, Opens), s');
    PlayThen(BOTH, s, [NewReload(r)] + [OpenFile(r, Opens)], s2, [OpenFile(r, Opens)], s');
  }

  /** A reload with nobody in its way puts two new readers in use. */
  lemma LoadBoth(s: State, r: Tid) returns (s': State)
    requires r !in s.reloads && s.writer == None && s.readers == {}
    ensures Play(BOTH, s, ReloadStart(r)) == Some(s')
    ensures ReloadAt(s', r, Swapped) && s'.reloads.Keys == s.reloads.Keys + {r}
    ensures var v := s'.reloads[r]; v.was == s.inUse && v.got == Pair(Opened(Some(s.next)), Opened(Some(s.next + 1)))
    ensures s'.inUse == NextReaders(s) && s'.next == s.next + 2
    ensures s'.open == s.open + {s.next} + {s.next + 1} && s'.closes == s.closes
    ensures s'.requests == s.requests && s'.cache == s.cache && s'.readers == {}
  {
    hide AfterOpen, AfterClose, AfterFinishLookup, Play, Read, Set, Resize;
    var s3 := OpenBoth(s, r);
    var s4 := WithReload(s3, r, s3.reloads[r].(pc := Swapping)).(writer := Some(r));
    PlayStep(BOTH, s3, LockForSwap(r), s4);
    PlayThen(BOTH, s, [NewReload(r)] + [OpenFile(r, Opens)] + [OpenFile(r, Opens)], s3, [LockForSwap(r)], s4);
    s' := AfterSwap(s4, r);
    PlayStep(BOTH, s4, Swap(r), s');
    PlayThen(BOTH, s, [NewReload(r)] + [OpenFile(r, Opens)] + [OpenFile(r, Opens)] + [LockForSwap(r)], s4,
             [Swap(r)], s');
  }

  /** What a request does up to its reverse lookup, when the cache does not have its address. */
  function RequestStart(t: Tid): seq<Action> {
    [NewRequest(t, ADDR, true)] + [CacheGet(t)]
    + [LockForLookup(t)] + [FinishLookup(t)] + [LockForLookup(t)] + [FinishLookup(t)]
  }

  function At(s: State, t: Tid, pc: RequestPc, origin: Origin): State {
    WithRequest(s, t, Request(ADDR, true, pc, origin))
  }

  /** A request with nobody in its way has read what is in use. */
  lemma ReadBoth(s: State, t: Tid) returns (s': State)
    requires t !in s.requests && s.writer == None && s.readers == {} && s.cache.items == []
    ensures Play(BOTH, s, RequestStart(t)) == Some(s')
    ensures s' == At(s, t, Resolving, s.inUse)
  {
    hide AfterOpen, AfterSwap, AfterClose, Play, Set, Resize;
    var none := Pair(None, None);
    var s1 := At(s, t, ReadCache, none);
    PlayStep(BOTH, s, NewRequest(t, ADDR, true), s1);
    var s2 := At(s, t, WantReadLock(City), none);
    assert s1.requests[t := s2.requests[t]] == s2.requests;
    PlayStep(BOTH, s1, CacheGet(t), s2);
    PlayThen(BOTH, s, [NewRequest(t, ADDR, true)], s1, [CacheGet(t)], s2);
    var s3 := LookUp(s, s2, t, City, none);
    PlayThen(BOTH, s, [NewRequest(t, ADDR, true)] + [CacheGet(t)], s2, [LockForLookup(t)] + [FinishLookup(t)], s3);
    s' := LookUp(s, s3, t, ASN, Pair(s.inUse.city, None));
    PlayThen(BOTH, s, [NewRequest(t, ADDR, true)] + [CacheGet(t)] + ([LockForLookup(t)] + [FinishLookup(t)]), s3,
             [LockForLookup(t)] + [FinishLookup(t)], s');
    assert [NewRequest(t, ADDR, true)] + [CacheGet(t)] + ([LockForLookup(t)] + [FinishLookup(t)])
           + ([LockForLookup(t)] + [FinishLookup(t)]) == RequestStart(t);
  }

  lemma LookUp(base: State, s: State, t: Tid, db: Db, origin: Origin) returns (s': State)
    requires base.writer == None && base.readers == {} && s == At(base, t, WantReadLock(db), origin)
    ensures Play(BOTH, s, [LockForLookup(t)] + [FinishLookup(t)]) == Some(s')
    ensures s' == At(base, t, if db == City then WantReadLock(ASN) else Resolving, origin.With(db, base.inUse.At(db)))
  {
    hide AfterOpen, AfterSwap, AfterClose, Play, Set, Read, Resize;
    var s1 := At(base, t, LookingUp(db, base.inUse.At(db)), origin).(readers := {t});
    assert s.requests[t := s1.requests[t]] == s1.requests;
    PlayStep(BOTH, s, LockForLookup(t), s1);
    s' := At(base, t, if db == City then WantReadLock(ASN) else Resolving, origin.With(db, base.inUse.At(db)));
    assert s1.requests[t := s'.requests[t]] == s'.requests;
    PlayStep(BOTH, s1, FinishLookup(t), s');
    PlayThen(BOTH, s, [LockForLookup(t)], s1, [FinishLookup(t)], s');
  }

  /** All actions up to the second swap. */
  function Beginning(): seq<Action> {
    ReloadStart(1) + ReloadEnd(1) + (RequestStart(0) + ReloadStart(2))
  }

  lemma PlayBeginning() returns (s: State)
    ensures Play(BOTH, Init(1), Beginning()) == Some(s)
    ensures ReloadAt(s, 2, Swapped) && s.inUse == Pair(Some(2), Some(3))
    ensures s.reloads[2] == Reload(Swapped, Pair(Opened(Some(2)), Opened(Some(3))), Pair(Some(0), Some(1)))
    ensures s.open == {0, 1, 2, 3} && s.closes == []
    ensures 0 in s.requests && s.requests[0] == Request(ADDR, true, Resolving, Pair(Some(0), Some(1)))
  {
    hide Play, Apply, ReloadStart, ReloadEnd, RequestStart;
    var s0 := Init(1);
    var s1 := LoadBoth(s0, 1);
    var s2 := FinishReload(BOTH, s1, 1);
    PlayThen(BOTH, s0, ReloadStart(1), s1, ReloadEnd(1), s2);
    var s3 := ReadBoth(s2, 0);
    s := LoadBoth(s3, 2);
    PlayThen(BOTH, s2, RequestStart(0), s3, ReloadStart(2), s);
    PlayThen(BOTH, s0, ReloadStart(1) + ReloadEnd(1), s2, RequestStart(0) + ReloadStart(2), s);
  }

  lemma BeginningActions()
    ensures |Beginning()| == 21 && Beginning()[9] == ClearCache(1) && Beginning()[20] == Swap(2)
    ensures forall i | 0 <= i < 10 :: !IsRequestStep(Beginning()[i])
  {
    assert |ReloadStart(1) + ReloadEnd(1)| == 10;
  }

  lemma PlayAll() returns (more: seq<Action>, s: State)
    ensures Play(BOTH, Init(1), Beginning() + more) == Some(s)
    ensures |more| >= 5 && more[4] == ClearCache(2) && NoneSwaps(more)
    ensures Entry(ADDR, Pair(Some(0), Some(1))) in s.cache.items
    ensures s.inUse == Pair(Some(2), Some(3)) && s.closes == [0, 1] && s.open == {2, 3}
  {
    hide Play, Apply, Beginning, NoneSwaps;
    var before := PlayBeginning();
    var e;
    more, s, e := LeavesStale(BOTH, before, 2, 0, City);
    PlayThen(BOTH, Init(1), Beginning(), before, more, s);
  }

  /** The databases are loaded before the first request. It reads from both, a second reload that
      opens both files replaces and closes those readers and clears the cache, and then the request
      stores: the cache ends with an answer from two readers that are closed. */
  lemma OldEntrySurvives() returns (run: seq<State>, acts: seq<Action>)
    ensures IsRun(BOTH, run, acts) && |acts| > 25
    ensures acts[9] == ClearCache(1) && forall i | 0 <= i < 10 :: !IsRequestStep(acts[i])
    ensures acts[20] == Swap(2) && acts[25] == ClearCache(2) && NoneSwaps(acts[21..])
    ensures var s := run[|acts|];
            && Entry(ADDR, Pair(Some(0), Some(1))) in s.cache.items
            && s.inUse == Pair(Some(2), Some(3)) && s.closes == [0, 1] && s.open == {2, 3}
  {
    var more, s := PlayAll();
    BeginningActions();
    assert IsRun(BOTH, [Init(1)], []);
    hide Play, Apply, Beginning, IsRequestStep, IsRun, Init, NoneSwaps;
    acts := Beginning() + more;
    run := GoOn(BOTH, [Init(1)], [], acts);
    assert [] + acts == acts;
    assert acts[21..] == more;
    assert forall i | 0 <= i < 21 :: acts[i] == Beginning()[i];
  }
}
