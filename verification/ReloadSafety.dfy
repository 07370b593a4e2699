/**
 What every interleaving of requests and reloads keeps: no lookup uses a closed reader, no
 reader is closed twice, and none is left open that nothing uses.
 */
module ReloadSafety {
  import opened Wrappers
  import opened Recency
  import opened Geo
  import opened Reloading

  // -------------------------------------------------- where a reader can be kept

  /** A reader is in use, or a reload keeps it: between opening and swapping it, or between
      replacing and closing it. */
  datatype Place = InUse(db: Db) | Kept(t: Tid, db: Db)

  function KeptBy(r: Reload, db: Db): Option<Handle> {
    match r.pc
    case Opening(next) => if next == ASN && db == City then r.got.city.reader else None
    case WantWriteLock => r.got.At(db).reader
    case Swapping => r.got.At(db).reader
    case Swapped => ToClose(r.was.At(db), r.got.At(db))
    case Closing(next) => if next == ASN && db == City then None else ToClose(r.was.At(db), r.got.At(db))
    case _ => None
  }

  function ReaderAt(s: State, p: Place): Option<Handle> {
    match p
    case InUse(db) => s.inUse.At(db)
    case Kept(t, db) => if t in s.reloads then KeptBy(s.reloads[t], db) else None
  }

  // --------------------------------------------------------------- invariants

  /** The lock admits any number of lookups or one swap. */
  ghost predicate LockInv(s: State) {
    && (s.writer.Some? ==> s.readers == {})
    && (forall t :: t in s.readers <==> t in s.requests && s.requests[t].pc.LookingUp?)
    && (forall t :: s.writer == Some(t) <==> t in s.reloads && s.reloads[t].pc in {Swapping, Swapped})
  }

  /** A lookup works on the reader that is in use as long as it lasts. */
  ghost predicate LookupInv(s: State) {
    forall t | t in s.requests && s.requests[t].pc.LookingUp? ::
      s.requests[t].pc.reader == s.inUse.At(s.requests[t].pc.db)
  }

  /** Every open reader is kept in exactly one place, and every reader kept is open. */
  ghost predicate PlaceInv(s: State) {
    && (forall p, q | ReaderAt(s, p).Some? && ReaderAt(s, p) == ReaderAt(s, q) :: p == q)
    && (forall p | ReaderAt(s, p).Some? :: ReaderAt(s, p).value in s.open)
    && (forall h | h in s.open :: exists p :: ReaderAt(s, p) == Some(h))
  }

  /** A closed reader was open once, is not open any more, and was closed once. */
  ghost predicate CloseInv(s: State) {
    && (forall h | h in s.open :: h < s.next)
    && (forall i | 0 <= i < |s.closes| :: s.closes[i] < s.next && s.closes[i] !in s.open)
    && (forall i, j | 0 <= i < j < |s.closes| :: s.closes[i] != s.closes[j])
  }

  ghost predicate Inv(s: State) {
    LockInv(s) && LookupInv(s) && PlaceInv(s) && CloseInv(s)
  }

  // -------------------------------------------------------------------- steps

  predicate IsReloadStep(a: Action) {
    || a.NewReload? || a.OpenFile? || a.LockForSwap? || a.Swap?
    || a.Unlock? || a.CloseReplaced? || a.Return? || a.ClearCache?
  }

  lemma LockReloadStep(configured: Pair<bool>, s: State, a: Action)
    requires LockInv(s) && Enabled(s, a) && IsReloadStep(a)
    ensures LockInv(Apply(configured, s, a))
  {
    hide Read, Set, Resize, OpenResult, InUseAfter, ToClose, AfterFinishLookup;
  }

  lemma LockOtherStep(configured: Pair<bool>, s: State, a: Action)
    requires LockInv(s) && Enabled(s, a) && !IsReloadStep(a)
    ensures LockInv(Apply(configured, s, a))
  {
    hide Read, Set, Resize, AfterOpen, AfterSwap, AfterClose;
  }

  lemma LockStep(configured: Pair<bool>, s: State, a: Action)
    requires LockInv(s) && Enabled(s, a)
    ensures LockInv(Apply(configured, s, a))
  {
    hide LockInv, Apply, Enabled;
    if IsReloadStep(a) {
      LockReloadStep(configured, s, a);
    } else {
      LockOtherStep(configured, s, a);
    }
  }

  lemma LookupStep(configured: Pair<bool>, s: State, a: Action)
    requires LockInv(s) && LookupInv(s) && Enabled(s, a)
    ensures LookupInv(Apply(configured, s, a))
  {
    hide Read, Set, Resize, OpenResult, InUseAfter, ToClose;
  }

  /** A step that keeps every reader where it is and neither opens nor closes one. */
  ghost predicate KeepsReaders(s: State, s': State) {
    && (forall p :: ReaderAt(s', p) == ReaderAt(s, p))
    && s'.open == s.open && s'.closes == s.closes && s'.next == s.next
  }

  lemma KeepsReadersStep(s: State, s': State)
    requires PlaceInv(s) && CloseInv(s) && KeepsReaders(s, s')
    ensures PlaceInv(s') && CloseInv(s')
  {
    forall h | h in s'.open ensures exists p :: ReaderAt(s', p) == Some(h) {
      var p :| ReaderAt(s, p) == Some(h);
      assert ReaderAt(s', p) == Some(h);
    }
  }

  lemma OpenStep(configured: Pair<bool>, s: State, t: Tid, outcome: OpenOutcome)
    requires PlaceInv(s) && CloseInv(s) && t in s.reloads && s.reloads[t].pc.Opening?
    ensures PlaceInv(AfterOpen(s, t, configured, outcome)) && CloseInv(AfterOpen(s, t, configured, outcome))
  {
    var s' := AfterOpen(s, t, configured, outcome);
    var home := Kept(t, s.reloads[t].pc.db);
    assert forall p | p != home :: ReaderAt(s', p) == ReaderAt(s, p);
    assert ReaderAt(s, home) == None;
    if s'.open == s.open {
      assert ReaderAt(s', home) == None;
      KeepsReadersStep(s, s');
    } else {
      assert ReaderAt(s', home) == Some(s.next);
      forall h | h in s'.open ensures exists p :: ReaderAt(s', p) == Some(h) {
        if h != s.next {
          var p :| ReaderAt(s, p) == Some(h);
          assert ReaderAt(s', p) == Some(h);
        }
      }
    }
  }

  /** The swap moves readers between the places of the reload and those in use. */
  function Exchanged(r: Reload, t: Tid, p: Place): Place {
    match p
    case InUse(db) => if r.got.At(db).Opened? then Kept(t, db) else p
    case Kept(u, db) => if u == t && r.got.At(db).Opened? then InUse(db) else p
  }

  lemma SwapStep(s: State, t: Tid)
    requires PlaceInv(s) && CloseInv(s) && ReloadAt(s, t, Swapping)
    ensures PlaceInv(AfterSwap(s, t)) && CloseInv(AfterSwap(s, t))
  {
    var s', r := AfterSwap(s, t), s.reloads[t];
    forall p ensures ReaderAt(s', p) == ReaderAt(s, Exchanged(r, t, p)) {
      if p.InUse? {
        assert s'.inUse.At(p.db) == InUseAfter(s.inUse.At(p.db), r.got.At(p.db));
      }
    }
    forall h | h in s'.open ensures exists p :: ReaderAt(s', p) == Some(h) {
      var p :| ReaderAt(s, p) == Some(h);
      assert Exchanged(r, t, Exchanged(r, t, p)) == p;
      assert ReaderAt(s', Exchanged(r, t, p)) == Some(h);
    }
    forall p, q | ReaderAt(s', p).Some? && ReaderAt(s', p) == ReaderAt(s', q) ensures p == q {
      assert Exchanged(r, t, p) == Exchanged(r, t, q);
      assert Exchanged(r, t, Exchanged(r, t, p)) == p && Exchanged(r, t, Exchanged(r, t, q)) == q;
    }
  }

  lemma CloseStep(s: State, t: Tid)
    requires PlaceInv(s) && CloseInv(s) && t in s.reloads && s.reloads[t].pc.Closing?
    ensures PlaceInv(AfterClose(s, t)) && CloseInv(AfterClose(s, t))
  {
    var s', home := AfterClose(s, t), Kept(t, s.reloads[t].pc.db);
    assert forall p | p != home :: ReaderAt(s', p) == ReaderAt(s, p);
    assert ReaderAt(s', home) == None;
    if ReaderAt(s, home) == None {
      KeepsReadersStep(s, s');
    } else {
      forall h | h in s'.open ensures exists p :: ReaderAt(s', p) == Some(h) {
        var p :| ReaderAt(s, p) == Some(h);
        assert ReaderAt(s', p) == Some(h);
      }
    }
  }

  /** Only opening, swapping and closing touch a reader. */
  lemma OtherSteps(configured: Pair<bool>, s: State, a: Action)
    requires Enabled(s, a) && !a.OpenFile? && !a.Swap? && !a.CloseReplaced?
    ensures KeepsReaders(s, Apply(configured, s, a))
  {
    hide Read, Set, Resize;
  }

  lemma ReaderStep(configured: Pair<bool>, s: State, a: Action)
    requires PlaceInv(s) && CloseInv(s) && Enabled(s, a)
    ensures PlaceInv(Apply(configured, s, a)) && CloseInv(Apply(configured, s, a))
  {
    match a
    case OpenFile(t, outcome) => OpenStep(configured, s, t, outcome);
    case Swap(t) => SwapStep(s, t);
    case CloseReplaced(t) => CloseStep(s, t);
    case _ =>
      OtherSteps(configured, s, a);
      KeepsReadersStep(s, Apply(configured, s, a));
  }

  /** The invariant holds in every state of every run. */
  lemma {:induction false} InvHolds(configured: Pair<bool>, run: seq<State>, acts: seq<Action>, i: nat)
    requires IsRun(configured, run, acts) && i < |run|
    ensures Inv(run[i])
  {
    if i == 0 {
    } else {
      InvHolds(configured, run, acts, i - 1);
      LockStep(configured, run[i - 1], acts[i - 1]);
      LookupStep(configured, run[i - 1], acts[i - 1]);
      ReaderStep(configured, run[i - 1], acts[i - 1]);
    }
  }

  // ----------------------------------------------------------------- theorems

  /** No lookup ever uses a closed reader, whatever reloads run beside it. */
  lemma LookupsUseOpenReaders(configured: Pair<bool>, run: seq<State>, acts: seq<Action>, i: nat, t: Tid)
    requires IsRun(configured, run, acts) && i < |run|
    requires t in run[i].requests && run[i].requests[t].pc.LookingUp?
    ensures var pc := run[i].requests[t].pc;
            pc.reader.Some? ==> pc.reader.value in run[i].open && pc.reader.value !in run[i].closes
  {
    InvHolds(configured, run, acts, i);
    var pc := run[i].requests[t].pc;
    assert ReaderAt(run[i], InUse(pc.db)) == pc.reader;
  }

  /** No reader is closed twice in a run, and what a step closes was open until then. */
  lemma ClosedOnce(configured: Pair<bool>, run: seq<State>, acts: seq<Action>, i: nat)
    requires IsRun(configured, run, acts) && i < |run|
    ensures forall j, k | 0 <= j < k < |run[i].closes| :: run[i].closes[j] != run[i].closes[k]
    ensures i < |acts| && run[i + 1].closes != run[i].closes ==>
              exists h :: h in run[i].open && run[i + 1].closes == run[i].closes + [h] && h !in run[i + 1].open
  {
    InvHolds(configured, run, acts, i);
    if i < |acts| && run[i + 1].closes != run[i].closes {
      var t := acts[i].t;
      var home := Kept(t, run[i].reloads[t].pc.db);
      assert ReaderAt(run[i], home).Some?;
      assert run[i + 1].closes == run[i].closes + [ReaderAt(run[i], home).value];
    }
  }

  /** No reload is under way: none holds readers between opening and closing. */
  ghost predicate NoReloadUnderWay(s: State) {
    forall t | t in s.reloads :: s.reloads[t].pc in {Opening(City), Returning, Clearing, Finished}
  }

  /** While no reload is under way the open readers are exactly the ones in use, whichever opens
      failed and whichever paths are empty: none has leaked. */
  lemma QuiescentReaders(configured: Pair<bool>, run: seq<State>, acts: seq<Action>, i: nat, h: Handle)
    requires IsRun(configured, run, acts) && i < |run| && NoReloadUnderWay(run[i])
    ensures h in run[i].open <==> run[i].inUse.city == Some(h) || run[i].inUse.asn == Some(h)
  {
    InvHolds(configured, run, acts, i);
    var s := run[i];
    if h in s.open {
      var p :| ReaderAt(s, p) == Some(h);
      assert p.InUse?;
    }
    assert ReaderAt(s, InUse(City)) == s.inUse.city && ReaderAt(s, InUse(ASN)) == s.inUse.asn;
  }
}
