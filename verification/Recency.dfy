/**
 The response cache as a value: a capacity, the entries from the one read longest ago to the
 one read last, and the eviction counter. server/cache.go keeps the same thing in a map and a
 linked list (see Cache); what the policy promises over whole runs is proved here.
 */
module Recency {
  import opened Wrappers

  /** The eviction counter is a uint64. */
  const UINT64: nat := 0x1_0000_0000_0000_0000

  datatype Entry<K, V> = Entry(addr: K, response: V)

  datatype Lru<K, V> = Lru(capacity: nat, items: seq<Entry<K, V>>, evictions: nat)

  // ---------------------------------------------------------------- entries

  ghost predicate Distinct<K, V>(items: seq<Entry<K, V>>) {
    forall i, j | 0 <= i < j < |items| :: items[i].addr != items[j].addr
  }

  /** The position of the first entry for a, the number of entries when there is none. */
  function IndexOf<K(==), V>(items: seq<Entry<K, V>>, a: K): (i: nat)
    ensures i <= |items|
    ensures i < |items| ==> items[i].addr == a
    ensures forall j | 0 <= j < i :: items[j].addr != a
  {
    if items == [] || items[0].addr == a then 0 else 1 + IndexOf(items[1..], a)
  }

  predicate Has<K(==), V>(items: seq<Entry<K, V>>, a: K) {
    IndexOf(items, a) < |items|
  }

  /** The entries without the one for a. */
  function Without<K(==), V>(items: seq<Entry<K, V>>, a: K): seq<Entry<K, V>> {
    if Has(items, a) then
      var i := IndexOf(items, a);
      items[..i] + items[i + 1..]
    else
      items
  }

  /** The entries after the n oldest are gone; n may be negative or more than there are. */
  function DropOldest<K, V>(items: seq<Entry<K, V>>, n: int): seq<Entry<K, V>> {
    items[Evicted(items, n)..]
  }

  /** How many entries dropping the n oldest drops. */
  function Evicted<K, V>(items: seq<Entry<K, V>>, n: int): (k: nat)
    ensures k <= |items|
  {
    Max(0, Min(n, |items|))
  }

  /** A uint64 counter after n more. */
  function CountUp(counter: nat, n: nat): (r: nat)
    ensures r < UINT64
  {
    (counter + n) % UINT64
  }

  lemma CountUpTwice(counter: nat, m: nat, n: nat)
    ensures CountUp(CountUp(counter, m), n) == CountUp(counter, m + n)
  {
  }

  // ------------------------------------------------------------- operations

  function New<K, V>(capacity: int): Lru<K, V> {
    Lru(Max(0, capacity), [], 0)
  }

  function EvictOldest<K, V>(c: Lru<K, V>, n: int): Lru<K, V> {
    c.(items := DropOldest(c.items, n), evictions := CountUp(c.evictions, Evicted(c.items, n)))
  }

  function Set<K(==), V>(c: Lru<K, V>, a: K, response: V): Lru<K, V> {
    if c.capacity == 0 then c else
      var rest := c.(items := Without(c.items, a));
      var room := EvictOldest(rest, |rest.items| - c.capacity + 1);
      room.(items := room.items + [Entry(a, response)])
  }

  lemma SetInSteps<K, V>(c: Lru<K, V>, a: K, response: V)
    ensures c.capacity > 0 ==>
            var rest := Without(c.items, a);
            var n := |rest| - c.capacity + 1;
            Set(c, a, response) ==
            Lru(c.capacity, DropOldest(rest, n) + [Entry(a, response)], CountUp(c.evictions, Evicted(rest, n)))
  {
  }

  lemma DisabledSet<K, V>(c: Lru<K, V>, a: K, response: V)
    ensures c.capacity == 0 ==> Set(c, a, response) == c
  {
  }

  lemma SetIsBounded<K, V>(c: Lru<K, V>, a: K, response: V)
    requires |c.items| <= c.capacity
    ensures |Set(c, a, response).items| <= c.capacity
  {
  }

  function Find<K(==), V>(c: Lru<K, V>, a: K): Option<V> {
    if Has(c.items, a) then Some(c.items[IndexOf(c.items, a)].response) else None
  }

  /** The cache after a read, where an entry that is hit comes last. */
  function Read<K(==), V>(c: Lru<K, V>, a: K): Lru<K, V> {
    if Has(c.items, a) then
      c.(items := Without(c.items, a) + [c.items[IndexOf(c.items, a)]])
    else
      c
  }

  function Cleared<K, V>(c: Lru<K, V>): Lru<K, V> {
    c.(items := [])
  }

  /** A negative capacity is refused and changes nothing. */
  function Resize<K, V>(c: Lru<K, V>, capacity: int): Lru<K, V> {
    if capacity < 0 then c else
      EvictOldest(c.(capacity := capacity), |c.items| - capacity).(evictions := 0)
  }

  lemma ResizeInSteps<K, V>(c: Lru<K, V>, capacity: int)
    ensures capacity < 0 ==> Resize(c, capacity) == c
    ensures capacity >= 0 ==>
            && Resize(c, capacity) == Lru(capacity, DropOldest(c.items, |c.items| - capacity), 0)
            && |DropOldest(c.items, |c.items| - capacity)| <= capacity && 0 < UINT64
  {
  }
}
