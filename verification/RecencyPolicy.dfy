/**
 What the eviction policy of the response cache promises over every run of its operations:
 which addresses are kept and in which order, which answer a hit gives, and what the eviction
 counter counts.
 */
module RecencyPolicy {
  import opened Wrappers
  import opened Recency

  // ------------------------------------------------------------------- runs

  datatype Op<K, V> =
    | Put(addr: K, response: V)
    | Get(addr: K)
    | Clear
    | SetCapacity(capacity: int)

  function Apply<K(==), V>(c: Lru<K, V>, op: Op<K, V>): Lru<K, V> {
    match op
    case Put(a, response) => Set(c, a, response)
    case Get(a) => Read(c, a)
    case Clear => Cleared(c)
    case SetCapacity(n) => Resize(c, n)
  }

  /** The cache after a run, the oldest operation first. */
  function Run<K(==), V>(c: Lru<K, V>, ops: seq<Op<K, V>>): Lru<K, V> {
    if ops == [] then c else Apply(Run(c, ops[..|ops| - 1]), ops[|ops| - 1])
  }

  ghost predicate FixedCapacity<K, V>(ops: seq<Op<K, V>>) {
    forall i | 0 <= i < |ops| :: !ops[i].SetCapacity?
  }

  // ---------------------------------------------------------------- history

  /** Every address touched since the last Clear, in order and with repetitions. A touch is a
      write or a read that hits. */
  function Touches<K(==), V>(c: Lru<K, V>, ops: seq<Op<K, V>>): seq<K> {
    if ops == [] then [] else
      var before, op := ops[..|ops| - 1], ops[|ops| - 1];
      match op
      case Put(a, _) => Touches(c, before) + [a]
      case Get(a) => Touches(c, before) + if Has(Run(c, before).items, a) then [a] else []
      case Clear => []
      case SetCapacity(_) => Touches(c, before)
  }

  /** The response last written for each address since the last Clear. */
  function Written<K(==), V>(ops: seq<Op<K, V>>): map<K, V> {
    if ops == [] then map[] else
      var before, op := ops[..|ops| - 1], ops[|ops| - 1];
      match op
      case Put(a, response) => Written(before)[a := response]
      case Clear => map[]
      case _ => Written(before)
  }

  function Drop<K(==)>(s: seq<K>, a: K): seq<K> {
    if s == [] then [] else
      Drop(s[..|s| - 1], a) + if s[|s| - 1] == a then [] else [s[|s| - 1]]
  }

  /** The distinct addresses of a touch history, ordered by their last touch. */
  function ByLastTouch<K(==)>(touches: seq<K>): seq<K> {
    if touches == [] then [] else
      var a := touches[|touches| - 1];
      Drop(ByLastTouch(touches[..|touches| - 1]), a) + [a]
  }

  /** The distinct other addresses touched after the last touch of a. */
  function TouchedSince<K(==)>(touches: seq<K>, a: K): set<K> {
    if touches == [] || touches[|touches| - 1] == a then {} else
      TouchedSince(touches[..|touches| - 1], a) + {touches[|touches| - 1]}
  }

  function Addrs<K, V>(items: seq<Entry<K, V>>): (s: seq<K>)
    ensures |s| == |items|
    ensures forall i | 0 <= i < |s| :: s[i] == items[i].addr
  {
    seq(|items|, i requires 0 <= i < |items| => items[i].addr)
  }

  ghost predicate IsSuffix<T>(s: seq<T>, t: seq<T>) {
    |s| <= |t| && s == t[|t| - |s|..]
  }

  ghost predicate NoDuplicates<T>(s: seq<T>) {
    forall i, j | 0 <= i < j < |s| :: s[i] != s[j]
  }

  // ------------------------------------------------------- lists of addresses

  lemma DropLast<K>(s: seq<K>, x: K, a: K)
    ensures Drop(s + [x], a) == Drop(s, a) + (if x == a then [] else [x])
  {
    assert (s + [x])[..|s|] == s;
  }

  lemma DropNothing<K>(a: K)
    ensures Drop([], a) == []
  {
  }

  lemma {:induction false} DropConcat<K>(s: seq<K>, t: seq<K>, a: K)
    ensures Drop(s + t, a) == Drop(s, a) + Drop(t, a)
  {
    hide Drop;
    if t == [] {
      DropNothing(a);
      assert s + t == s;
    } else {
      var front, x := t[..|t| - 1], t[|t| - 1];
      DropConcat(s, front, a);
      assert t == front + [x] && s + t == (s + front) + [x];
      DropLast(front, x, a);
      DropLast(s + front, x, a);
    }
  }

  lemma {:induction false} DropAbsent<K>(s: seq<K>, a: K)
    requires a !in s
    ensures Drop(s, a) == s
  {
    if s == [] {
    } else {
      DropAbsent(s[..|s| - 1], a);
    }
  }

  lemma {:induction false} DropKeeps<K>(s: seq<K>, a: K)
    requires NoDuplicates(s)
    ensures NoDuplicates(Drop(s, a))
    ensures forall x :: x in Drop(s, a) <==> x in s && x != a
    ensures |Drop(s, a)| == if a in s then |s| - 1 else |s|
  {
    if s == [] {
    } else {
      var front, x := s[..|s| - 1], s[|s| - 1];
      assert s == front + [x];
      DropKeeps(front, a);
      assert x !in Drop(front, a);
    }
  }

  lemma {:induction false} LastTouchOrder<K>(touches: seq<K>)
    ensures NoDuplicates(ByLastTouch(touches))
    ensures forall x :: x in ByLastTouch(touches) <==> x in touches
  {
    if touches == [] {
    } else {
      var front, a := touches[..|touches| - 1], touches[|touches| - 1];
      assert touches == front + [a];
      LastTouchOrder(front);
      DropKeeps(ByLastTouch(front), a);
    }
  }

  lemma {:induction false} DropAt<K>(s: seq<K>, i: nat)
    requires NoDuplicates(s) && i < |s|
    ensures Drop(s, s[i]) == s[..i] + s[i + 1..]
  {
    var front, last := s[..|s| - 1], s[|s| - 1];
    if i == |s| - 1 {
      DropAbsent(front, last);
    } else {
      DropAt(front, i);
      assert front[i + 1..] + [last] == s[i + 1..];
    }
  }

  lemma AddrsAround<K, V>(items: seq<Entry<K, V>>, i: nat)
    requires i < |items|
    ensures Addrs(items[..i] + items[i + 1..]) == Addrs(items)[..i] + Addrs(items)[i + 1..]
  {
  }

  lemma AddrsWithout<K, V>(items: seq<Entry<K, V>>, a: K)
    requires Distinct(items)
    ensures Addrs(Without(items, a)) == Drop(Addrs(items), a)
  {
    hide Drop, Distinct, NoDuplicates;
    if Has(items, a) {
      var i := IndexOf(items, a);
      NoDuplicatesIsDistinct(items);
      DropAt(Addrs(items), i);
      AddrsAround(items, i);
    } else {
      DropAbsent(Addrs(items), a);
    }
  }

  lemma SuffixAfterTouch<K>(s: seq<K>, order: seq<K>, a: K, k: nat)
    requires IsSuffix(s, order) && k <= |Drop(s, a)|
    ensures IsSuffix(Drop(s, a)[k..] + [a], Drop(order, a) + [a])
  {
    var front := order[..|order| - |s|];
    assert order == front + s;
    DropConcat(front, s, a);
  }

  // ------------------------------------------------------------ single steps

  lemma AddrsAfterTouch<K, V>(rest: seq<Entry<K, V>>, k: nat, e: Entry<K, V>)
    requires k <= |rest|
    ensures Addrs(rest[k..] + [e]) == Addrs(rest)[k..] + [e.addr]
  {
  }

  lemma NoDuplicatesIsDistinct<K, V>(items: seq<Entry<K, V>>)
    ensures NoDuplicates(Addrs(items)) <==> Distinct(items)
  {
    if NoDuplicates(Addrs(items)) {
      forall i, j | 0 <= i < j < |items| ensures items[i].addr != items[j].addr {
        assert Addrs(items)[i] != Addrs(items)[j];
      }
    }
  }

  lemma HasAddr<K, V>(items: seq<Entry<K, V>>, a: K)
    ensures Has(items, a) <==> a in Addrs(items)
  {
    if i :| 0 <= i < |items| && items[i].addr == a {
      assert Addrs(items)[i] == a;
    }
  }

  /** A write drops the entry for the address, makes room for one more and appends: it evicts
      one entry when the cache is full and does not hold the address, and none otherwise. */
  lemma SetItems<K, V>(c: Lru<K, V>, a: K, response: V) returns (k: nat)
    requires |c.items| <= c.capacity && c.capacity > 0
    ensures k == if !Has(c.items, a) && |c.items| == c.capacity then 1 else 0
    ensures k <= |Without(c.items, a)| == if Has(c.items, a) then |c.items| - 1 else |c.items|
    ensures Set(c, a, response) ==
            Lru(c.capacity, Without(c.items, a)[k..] + [Entry(a, response)], CountUp(c.evictions, k))
  {
    var rest := Without(c.items, a);
    assert |rest| == if Has(c.items, a) then |c.items| - 1 else |c.items|;
    k := Evicted(rest, |rest| - c.capacity + 1);
  }

  // -------------------------------------------------------- order and answers

  /** The cache is bounded, holds each address once, keeps exactly the addresses touched last,
      in the order of their last touch, and answers with what was written last. */
  ghost predicate Faithful<K, V>(c: Lru<K, V>, touches: seq<K>, written: map<K, V>) {
    && |c.items| <= c.capacity
    && Distinct(c.items)
    && IsSuffix(Addrs(c.items), ByLastTouch(touches))
    && Coherent(c.items, written)
  }

  ghost predicate Coherent<K, V>(items: seq<Entry<K, V>>, written: map<K, V>) {
    forall i | 0 <= i < |items| :: items[i].addr in written && written[items[i].addr] == items[i].response
  }

  lemma FaithfulTouch<K, V>(items: seq<Entry<K, V>>, touches: seq<K>, k: nat, e: Entry<K, V>)
    requires Distinct(items) && IsSuffix(Addrs(items), ByLastTouch(touches))
    requires k <= |Without(items, e.addr)|
    ensures Distinct(Without(items, e.addr)[k..] + [e])
    ensures IsSuffix(Addrs(Without(items, e.addr)[k..] + [e]), ByLastTouch(touches + [e.addr]))
  {
    var a := e.addr;
    assert (touches + [a])[..|touches|] == touches;
    AddrsWithout(items, a);
    AddrsAfterTouch(Without(items, a), k, e);
    SuffixAfterTouch(Addrs(items), ByLastTouch(touches), a, k);
    LastTouchOrder(touches + [a]);
    NoDuplicatesIsDistinct(Without(items, a)[k..] + [e]);
  }

  lemma CoherentTouch<K, V>(items: seq<Entry<K, V>>, written: map<K, V>, k: nat, e: Entry<K, V>)
    requires Distinct(items) && Coherent(items, written)
    requires k <= |Without(items, e.addr)|
    ensures Coherent(Without(items, e.addr)[k..] + [e], written[e.addr := e.response])
  {
    var rest, i := Without(items, e.addr), IndexOf(items, e.addr);
    assert forall j | 0 <= j < |rest| :: rest[j] == items[if j < i then j else j + 1];
    hide Without;
    forall j | k <= j < |rest|
      ensures rest[j].addr != e.addr && rest[j].addr in written && written[rest[j].addr] == rest[j].response
    {
      assert rest[j] == items[if j < i then j else j + 1];
    }
  }

  lemma PutIsFaithful<K, V>(c: Lru<K, V>, touches: seq<K>, written: map<K, V>, a: K, response: V)
    requires Faithful(c, touches, written)
    ensures Faithful(Set(c, a, response), touches + [a], written[a := response])
  {
    if c.capacity > 0 {
      SetIsBounded(c, a, response);
      var k := SetItems(c, a, response);
      hide Set, Without;
      FaithfulTouch(c.items, touches, k, Entry(a, response));
      CoherentTouch(c.items, written, k, Entry(a, response));
    }
  }

  lemma GetIsFaithful<K, V>(c: Lru<K, V>, touches: seq<K>, written: map<K, V>, a: K)
    requires Faithful(c, touches, written) && Has(c.items, a)
    ensures Faithful(Read(c, a), touches + [a], written)
  {
    var e := c.items[IndexOf(c.items, a)];
    var rest := Without(c.items, a);
    assert rest[0..] == rest && |rest| == |c.items| - 1;
    assert written[a := e.response] == written;
    hide Without, IndexOf;
    FaithfulTouch(c.items, touches, 0, e);
    CoherentTouch(c.items, written, 0, e);
  }

  lemma ResizeIsFaithful<K, V>(c: Lru<K, V>, touches: seq<K>, written: map<K, V>, capacity: int)
    requires Faithful(c, touches, written)
    ensures Faithful(Resize(c, capacity), touches, written)
  {
    if capacity >= 0 {
      var k := Evicted(c.items, |c.items| - capacity);
      assert Addrs(c.items[k..]) == Addrs(c.items)[k..];
    }
  }

  /** Over every run from an empty cache, including resizes and clears: the entries are the
      last |items| addresses of the last-touch order, and each holds the response last written. */
  lemma {:induction false} RunIsFaithful<K, V>(capacity: int, ops: seq<Op<K, V>>)
    ensures Faithful(Run(New(capacity), ops), Touches(New(capacity), ops), Written(ops))
  {
    if ops == [] {
    } else {
      var before, op := ops[..|ops| - 1], ops[|ops| - 1];
      RunIsFaithful(capacity, before);
      var c, touches, written := Run(New(capacity), before), Touches(New(capacity), before), Written(before);
      match op
      case Put(a, response) => PutIsFaithful(c, touches, written, a, response);
      case Get(a) =>
        if Has(c.items, a) {
          GetIsFaithful(c, touches, written, a);
        } else {
          assert touches + [] == touches;
        }
      case Clear =>
      case SetCapacity(n) => ResizeIsFaithful(c, touches, written, n);
    }
  }

  // --------------------------------------------------------------- survival

  /** While the capacity stays fixed, the cache holds as many addresses as it may. */
  lemma {:induction false} FixedCapacityIsFilled<K, V>(capacity: int, ops: seq<Op<K, V>>)
    requires FixedCapacity(ops)
    ensures var c := Run(New(capacity), ops);
            && c.capacity == Max(0, capacity)
            && |c.items| == Min(c.capacity, |ByLastTouch(Touches(New(capacity), ops))|)
  {
    if ops == [] {
    } else {
      var before, op := ops[..|ops| - 1], ops[|ops| - 1];
      FixedCapacityIsFilled(capacity, before);
      RunIsFaithful(capacity, before);
      var c, touches := Run(New(capacity), before), Touches(New(capacity), before);
      match op
      case Put(a, response) => TouchKeepsFilled(c, touches, Entry(a, response));
      case Get(a) =>
        if Has(c.items, a) {
          TouchKeepsFilled(c, touches, c.items[IndexOf(c.items, a)]);
        } else {
          assert touches + [] == touches;
        }
      case Clear =>
    }
  }

  lemma LastTouchSize<K>(touches: seq<K>, a: K)
    ensures var order := ByLastTouch(touches);
            |ByLastTouch(touches + [a])| == if a in order then |order| else |order| + 1
  {
    assert (touches + [a])[..|touches|] == touches;
    LastTouchOrder(touches);
    DropKeeps(ByLastTouch(touches), a);
  }

  lemma HeldWasTouched<K, V>(items: seq<Entry<K, V>>, order: seq<K>, a: K)
    requires IsSuffix(Addrs(items), order)
    ensures Has(items, a) ==> a in order
    ensures |items| == |order| && a in order ==> Has(items, a)
  {
    HasAddr(items, a);
    SuffixMembers(Addrs(items), order, a);
  }

  lemma SetSize<K, V>(c: Lru<K, V>, a: K, response: V)
    requires |c.items| <= c.capacity
    ensures |Set(c, a, response).items| == Min(c.capacity, if Has(c.items, a) then |c.items| else |c.items| + 1)
  {
    if c.capacity > 0 {
      var k := SetItems(c, a, response);
    }
  }

  lemma TouchKeepsFilled<K, V>(c: Lru<K, V>, touches: seq<K>, e: Entry<K, V>)
    requires IsSuffix(Addrs(c.items), ByLastTouch(touches))
    requires |c.items| == Min(c.capacity, |ByLastTouch(touches)|)
    ensures |Set(c, e.addr, e.response).items| == Min(c.capacity, |ByLastTouch(touches + [e.addr])|)
    ensures Has(c.items, e.addr) ==> |Read(c, e.addr).items| == Min(c.capacity, |ByLastTouch(touches + [e.addr])|)
  {
    hide Set, Read, Without, ByLastTouch, IsSuffix, Addrs, IndexOf;
    LastTouchSize(touches, e.addr);
    HeldWasTouched(c.items, ByLastTouch(touches), e.addr);
    SetSize(c, e.addr, e.response);
    ReadSize(c, e.addr);
  }

  lemma SuffixMembers<K>(s: seq<K>, order: seq<K>, a: K)
    requires IsSuffix(s, order)
    ensures a in s ==> a in order
    ensures |s| == |order| ==> s == order
  {
  }

  lemma {:induction false} SizeOfNoDuplicates<K>(s: seq<K>)
    requires NoDuplicates(s)
    ensures |set x | x in s| == |s|
  {
    if s == [] {
    } else {
      var front, last := s[..|s| - 1], s[|s| - 1];
      assert s == front + [last];
      SizeOfNoDuplicates(front);
      assert (set x | x in s) == (set x | x in front) + {last};
    }
  }

  lemma DropAround<K>(older: seq<K>, a: K, newer: seq<K>, x: K)
    requires x != a
    ensures Drop(older + [a] + newer, x) == Drop(older, x) + [a] + Drop(newer, x)
  {
    DropConcat(older + [a], newer, x);
    DropConcat(older, [a], x);
    assert Drop([a], x) == [a];
  }

  lemma {:induction false} DropMembers<K>(s: seq<K>, a: K)
    ensures (set x | x in Drop(s, a)) == (set x | x in s) - {a}
  {
    if s == [] {
    } else {
      var front, last := s[..|s| - 1], s[|s| - 1];
      DropMembers(front, a);
      assert (set x | x in s) == (set x | x in front) + {last};
      assert (set x | x in Drop(s, a)) == (set x | x in Drop(front, a)) + if last == a then {} else {last};
    }
  }

  lemma MembersOfAppend<K>(s: seq<K>, x: K)
    ensures (set y | y in s + [x]) == (set y | y in s) + {x}
  {
  }

  /** What follows an address in the last-touch order is what was touched since. */
  lemma {:induction false} AfterLastTouch<K>(touches: seq<K>, a: K) returns (older: seq<K>, newer: seq<K>)
    requires a in touches
    ensures ByLastTouch(touches) == older + [a] + newer
    ensures (set x | x in newer) == TouchedSince(touches, a)
  {
    var front, x := touches[..|touches| - 1], touches[|touches| - 1];
    assert touches == front + [x];
    if x == a {
      older, newer := Drop(ByLastTouch(front), a), [];
    } else {
      var p, s := AfterLastTouch(front, a);
      DropAround(p, a, s, x);
      DropMembers(s, x);
      hide Drop;
      older, newer := Drop(p, x), Drop(s, x) + [x];
      MembersOfAppend(Drop(s, x), x);
    }
  }

  lemma SuffixFrom<K>(s: seq<K>, older: seq<K>, a: K, newer: seq<K>)
    requires NoDuplicates(older + [a] + newer) && IsSuffix(s, older + [a] + newer)
    ensures a in s <==> |newer| < |s|
    ensures NoDuplicates(newer)
  {
    var order := older + [a] + newer;
    var gone := |order| - |s|;
    assert order[|older|] == a;
    assert newer == order[|older| + 1..];
    if gone <= |older| {
      assert s[|older| - gone] == a;
    }
  }

  /** An address is resident if and only if it was touched and fewer distinct other addresses
      than the capacity were touched since. */
  lemma {:induction false} Survival<K, V>(capacity: int, ops: seq<Op<K, V>>, a: K)
    requires FixedCapacity(ops)
    ensures var touches := Touches(New(capacity), ops);
            Has(Run(New(capacity), ops).items, a) <==>
            a in touches && |TouchedSince(touches, a)| < capacity
  {
    var c, touches := Run(New(capacity), ops), Touches(New(capacity), ops);
    var order := ByLastTouch(touches);
    RunIsFaithful(capacity, ops);
    FixedCapacityIsFilled(capacity, ops);
    LastTouchOrder(touches);
    HasAddr(c.items, a);
    if a in touches {
      var older, newer := AfterLastTouch(touches, a);
      SuffixFrom(Addrs(c.items), older, a, newer);
      SizeOfNoDuplicates(newer);
    } else {
      SuffixMembers(Addrs(c.items), order, a);
    }
  }

  // ---------------------------------------------------------------- answers

  /** A read of the address hits if and only if it is held, and then it gives what was written. */
  ghost predicate Reads<K, V>(c: Lru<K, V>, written: map<K, V>, a: K) {
    && (Find(c, a).Some? <==> a in Addrs(c.items))
    && (Find(c, a).Some? ==> a in written && Find(c, a).value == written[a])
  }

  /** After every run, a read hits if and only if the address is held, and then it gives what was
      last written for it since the last Clear. */
  lemma {:induction false} ReadsLastWritten<K, V>(capacity: int, ops: seq<Op<K, V>>, a: K)
    ensures Reads(Run(New(capacity), ops), Written(ops), a)
  {
    RunIsFaithful(capacity, ops);
    HasAddr(Run(New(capacity), ops).items, a);
  }

  /** A read gives what was written if the address was touched, and fewer distinct others than the
      capacity since; otherwise it misses. */
  ghost predicate ReadsBy<K, V>(c: Lru<K, V>, touches: seq<K>, written: map<K, V>, capacity: int, a: K) {
    if a in touches && |TouchedSince(touches, a)| < capacity
    then a in written && Find(c, a) == Some(written[a])
    else Find(c, a) == None
  }

  /** While the capacity is fixed, a read hits if and only if the address was touched and fewer
      distinct others than the capacity since, and it gives what was last written for it. */
  lemma {:induction false} ReadsExactly<K, V>(capacity: int, ops: seq<Op<K, V>>, a: K)
    requires FixedCapacity(ops)
    ensures ReadsBy(Run(New(capacity), ops), Touches(New(capacity), ops), Written(ops), capacity, a)
  {
    hide Run, Touches, Written, Find, TouchedSince;
    Survival(capacity, ops, a);
    ReadsLastWritten(capacity, ops, a);
    HasAddr(Run(New(capacity), ops).items, a);
  }

  /** A change of capacity takes effect at once: the newest entries that fit stay, in their order,
      with what they hold, and the counter starts over. */
  lemma ResizeKeepsNewest<K, V>(c: Lru<K, V>, capacity: int)
    requires |c.items| <= c.capacity
    ensures var d := Apply(c, SetCapacity(capacity));
            if capacity < 0 then d == c
            else d.capacity == capacity && d.evictions == 0 && |d.items| == Min(|c.items|, capacity)
                 && IsSuffix(d.items, c.items)
  {
  }

  // -------------------------------------------------------------- evictions

  /** The entries the cache would hold had it evicted nothing since the last resize: its size
      right after that resize (or at the start), plus the addresses that were new when written
      since, minus the entries dropped by Clear since. */
  ghost function Owed<K, V>(c: Lru<K, V>, ops: seq<Op<K, V>>): int {
    if ops == [] then |c.items| else
      var before, op := ops[..|ops| - 1], ops[|ops| - 1];
      var was := Run(c, before);
      match op
      case Put(a, _) => Owed(c, before) + if was.capacity > 0 && !Has(was.items, a) then 1 else 0
      case Get(_) => Owed(c, before)
      case Clear => Owed(c, before) - |was.items|
      case SetCapacity(n) => if n < 0 then Owed(c, before) else |Run(c, ops).items|
  }

  /** The counter is what is owed minus what is held, as a uint64. */
  ghost predicate Balanced<K, V>(c: Lru<K, V>, owed: int) {
    owed >= |c.items| && c.evictions == (owed - |c.items|) % 0x1_0000_0000_0000_0000
  }

  /** The eviction counter balances over every run. Overwriting an entry and writing to a disabled
      cache count for nothing, nor does Clear count as eviction. */
  lemma {:induction false} EvictionAccount<K, V>(capacity: int, ops: seq<Op<K, V>>)
    ensures Balanced(Run(New(capacity), ops), Owed(New(capacity), ops))
  {
    hide Set, Without, IndexOf, Read, Touches, Written, ByLastTouch, Addrs, IsSuffix, Coherent, Distinct;
    if ops == [] {
    } else {
      var before, op := ops[..|ops| - 1], ops[|ops| - 1];
      EvictionAccount(capacity, before);
      RunIsFaithful(capacity, before);
      var c, owed := Run(New(capacity), before), Owed(New(capacity), before);
      match op
      case Put(a, response) =>
        PutAccount(c, owed, a, response);
      case Get(a) =>
        ReadSize(c, a);
      case Clear =>
      case SetCapacity(n) =>
    }
  }

  lemma ReadSize<K, V>(c: Lru<K, V>, a: K)
    ensures |Read(c, a).items| == |c.items| && Read(c, a).evictions == c.evictions && Read(c, a).capacity == c.capacity
  {
  }

  lemma PutAccount<K, V>(c: Lru<K, V>, owed: int, a: K, response: V)
    requires |c.items| <= c.capacity && Balanced(c, owed)
    ensures Balanced(Set(c, a, response), owed + if c.capacity > 0 && !Has(c.items, a) then 1 else 0)
  {
    if c.capacity > 0 {
      var k := SetItems(c, a, response);
      CountUpTwice(0, owed - |c.items|, k);
    }
  }
}
