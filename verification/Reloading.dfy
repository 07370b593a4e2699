/**
 Requests and reloads of the GeoIP databases running at the same time: any number of each, in
 every interleaving of their steps. A request reads the cache, looks the address up in the city
 and then in the ASN database, each under its own read lock, and may store its answer; a reload
 opens both files, swaps the readers under the write lock, closes what it replaced after
 unlocking, and clears the cache only when both opens succeeded (server/response.go,
 iputil/geo/geo.go, cmd/echoip/main.go).
 */
module Reloading {
  import opened Wrappers
  import opened Recency
  import opened Geo

  type Addr = string
  type Tid = nat

  /** Readers are numbered in the order they are opened. */
  type Handle = nat

  datatype Db = City | ASN

  /** One value for each database. */
  datatype Pair<T> = Pair(city: T, asn: T) {
    function At(db: Db): T {
      match db
      case City => city
      case ASN => asn
    }

    function With(db: Db, x: T): Pair<T> {
      match db
      case City => Pair(x, asn)
      case ASN => Pair(city, x)
    }
  }

  /** The readers an answer was built from, none where no database was loaded. */
  type Origin = Pair<Option<Handle>>

  // ------------------------------------------------------------------ threads

  datatype RequestPc =
    | ReadCache
    | WantReadLock(db: Db)
    | LookingUp(db: Db, reader: Option<Handle>)  // holds the read lock
    | Resolving                                  // reverse lookup, then the check that the client is there
    | Storing
    | Answered

  /** complete: the answer lacks nothing, so it may be cached. */
  datatype Request = Request(addr: Addr, complete: bool, pc: RequestPc, origin: Origin)

  datatype ReloadPc =
    | Opening(db: Db)
    | WantWriteLock
    | Swapping                                   // holds the write lock
    | Swapped                                    // still holds it
    | Closing(db: Db)
    | Returning
    | Clearing                                   // the error was nil
    | Finished

  datatype Reload = Reload(pc: ReloadPc, got: Pair<Opened<Handle>>, was: Origin)

  // ------------------------------------------------------------------- states

  datatype State = State(
    readers: set<Tid>,             // requests holding the read lock
    writer: Option<Tid>,           // the reload holding the write lock
    inUse: Origin,                 // the readers lookups use
    open: set<Handle>,             // the readers that are open
    closes: seq<Handle>,           // every Close so far, in order
    next: Handle,                  // the next reader to be opened
    cache: Lru<Addr, Origin>,      // per address, what its cached answer was built from
    requests: map<Tid, Request>,
    reloads: map<Tid, Reload>)

  function Init(capacity: int): State {
    State({}, None, Pair(None, None), {}, [], 0, New(capacity), map[], map[])
  }

  datatype Action =
    | NewRequest(t: Tid, addr: Addr, complete: bool)
    | CacheGet(t: Tid)
    | LockForLookup(t: Tid)
    | FinishLookup(t: Tid)
    | Resolved(t: Tid)
    | Store(t: Tid)
    | Skip(t: Tid)
    | ResizeCache(capacity: int)
    | NewReload(t: Tid)
    | OpenFile(t: Tid, outcome: OpenOutcome)
    | LockForSwap(t: Tid)
    | Swap(t: Tid)
    | Unlock(t: Tid)
    | CloseReplaced(t: Tid)
    | Return(t: Tid)
    | ClearCache(t: Tid)

  predicate RequestAt(s: State, t: Tid, pc: RequestPc) {
    t in s.requests && s.requests[t].pc == pc
  }

  predicate ReloadAt(s: State, t: Tid, pc: ReloadPc) {
    t in s.reloads && s.reloads[t].pc == pc
  }

  /** Which steps a thread may take next. The lock admits readers or one writer. */
  predicate Enabled(s: State, a: Action) {
    match a
    case NewRequest(t, _, _) => t !in s.requests
    case CacheGet(t) => RequestAt(s, t, ReadCache)
    case LockForLookup(t) => t in s.requests && s.requests[t].pc.WantReadLock? && s.writer == None
    case FinishLookup(t) => t in s.requests && s.requests[t].pc.LookingUp?
    case Resolved(t) => RequestAt(s, t, Resolving)
    case Store(t) => RequestAt(s, t, Storing) && s.requests[t].complete
    case Skip(t) => RequestAt(s, t, Storing)
    case ResizeCache(_) => true
    case NewReload(t) => t !in s.reloads
    case OpenFile(t, _) => t in s.reloads && s.reloads[t].pc.Opening?
    case LockForSwap(t) => ReloadAt(s, t, WantWriteLock) && s.writer == None && s.readers == {}
    case Swap(t) => ReloadAt(s, t, Swapping)
    case Unlock(t) => ReloadAt(s, t, Swapped)
    case CloseReplaced(t) => t in s.reloads && s.reloads[t].pc.Closing?
    case Return(t) => ReloadAt(s, t, Returning)
    case ClearCache(t) => ReloadAt(s, t, Clearing)
  }

  function WithRequest(s: State, t: Tid, q: Request): State {
    s.(requests := s.requests[t := q])
  }

  function WithReload(s: State, t: Tid, r: Reload): State {
    s.(reloads := s.reloads[t := r])
  }

  /** What opening the file of a database gives, when it gets the next reader number. An empty
      path opens nothing and is no failure. */
  function OpenResult(configured: bool, outcome: OpenOutcome, next: Handle): Opened<Handle> {
    if !configured then Opened(None) else
      match outcome
      case Opens => Opened(Some(next))
      case Fails => Failed(None)
      case FailsWithReader => Failed(Some(next))
  }

  function AfterOpen(s: State, t: Tid, configured: Pair<bool>, outcome: OpenOutcome): State
    requires t in s.reloads && s.reloads[t].pc.Opening?
  {
    var r := s.reloads[t];
    var result := OpenResult(configured.At(r.pc.db), outcome, s.next);
    var step := if r.pc.db == City then Opening(ASN) else WantWriteLock;
    var s' := WithReload(s, t, r.(pc := step, got := r.got.With(r.pc.db, result)));
    if result.reader == None then s' else s'.(open := s.open + {s.next}, next := s.next + 1)
  }

  function AfterSwap(s: State, t: Tid): State
    requires t in s.reloads
  {
    var r := s.reloads[t];
    WithReload(s, t, r.(pc := Swapped, was := s.inUse)).(
      inUse := Pair(InUseAfter(s.inUse.city, r.got.city), InUseAfter(s.inUse.asn, r.got.asn)))
  }

  function AfterClose(s: State, t: Tid): State
    requires t in s.reloads && s.reloads[t].pc.Closing?
  {
    var r := s.reloads[t];
    var db := r.pc.db;
    var s' := WithReload(s, t, r.(pc := if db == City then Closing(ASN) else Returning));
    match ToClose(r.was.At(db), r.got.At(db))
    case None => s'
    case Some(h) => s'.(open := s.open - {h}, closes := s.closes + [h])
  }

  function AfterFinishLookup(s: State, t: Tid): State
    requires t in s.requests && s.requests[t].pc.LookingUp?
  {
    var q := s.requests[t];
    var step := if q.pc.db == City then WantReadLock(ASN) else Resolving;
    WithRequest(s, t, q.(pc := step, origin := q.origin.With(q.pc.db, q.pc.reader))).(readers := s.readers - {t})
  }

  function Apply(configured: Pair<bool>, s: State, a: Action): State
    requires Enabled(s, a)
  {
    match a
    case NewRequest(t, addr, complete) => WithRequest(s, t, Request(addr, complete, ReadCache, Pair(None, None)))
    case CacheGet(t) =>
      var q := s.requests[t];
      var step := if Has(s.cache.items, q.addr) then Answered else WantReadLock(City);
      WithRequest(s, t, q.(pc := step)).(cache := Read(s.cache, q.addr))
    case LockForLookup(t) =>
      var db := s.requests[t].pc.db;
      WithRequest(s, t, s.requests[t].(pc := LookingUp(db, s.inUse.At(db)))).(readers := s.readers + {t})
    case FinishLookup(t) => AfterFinishLookup(s, t)
    case Resolved(t) => WithRequest(s, t, s.requests[t].(pc := Storing))
    case Store(t) =>
      var q := s.requests[t];
      WithRequest(s, t, q.(pc := Answered)).(cache := Set(s.cache, q.addr, q.origin))
    case Skip(t) => WithRequest(s, t, s.requests[t].(pc := Answered))
    case ResizeCache(capacity) => s.(cache := Resize(s.cache, capacity))
    case NewReload(t) => WithReload(s, t, Reload(Opening(City), Pair(Opened(None), Opened(None)), Pair(None, None)))
    case OpenFile(t, outcome) => AfterOpen(s, t, configured, outcome)
    case LockForSwap(t) => WithReload(s, t, s.reloads[t].(pc := Swapping)).(writer := Some(t))
    case Swap(t) => AfterSwap(s, t)
    case Unlock(t) => WithReload(s, t, s.reloads[t].(pc := Closing(City))).(writer := None)
    case CloseReplaced(t) => AfterClose(s, t)
    case Return(t) =>
      var r := s.reloads[t];
      var nilError := r.got.city.Opened? && r.got.asn.Opened?;
      WithReload(s, t, r.(pc := if nilError then Clearing else Finished))
    case ClearCache(t) =>
      WithReload(s, t, s.reloads[t].(pc := Finished)).(cache := Cleared(s.cache))
  }

  // --------------------------------------------------------------------- runs

  ghost predicate IsStep(configured: Pair<bool>, s: State, a: Action, s': State) {
    Enabled(s, a) && s' == Apply(configured, s, a)
  }

  /** States joined by the actions taken between them, from the start of the server. */
  ghost predicate IsRun(configured: Pair<bool>, run: seq<State>, acts: seq<Action>) {
    && |run| == |acts| + 1
    && (exists capacity :: run[0] == Init(capacity))
    && forall i {:trigger acts[i]} | 0 <= i < |acts| :: IsStep(configured, run[i], acts[i], run[i + 1])
  }
}
