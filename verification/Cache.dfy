/**
 The response cache as server/cache.go keeps it: a map from address to list node, and a linked
 list of the entries from the one read longest ago to the one read last. Every method is proved
 against the abstract cache of Recency, so what RecencyPolicy and RecencyInclusion prove of that
 holds of this one. The lock makes each method one step, and none of them calls another that
 takes it.
 */
module Cache {
  import opened Wrappers
  import opened Recency
  import LinkedList
  import opened RecencyPolicy

  type Node<K, V> = LinkedList.Node<Option<Entry<K, V>>>

  // ------------------------------------------------- the map and the list, as values

  ghost function AddrOf<K, V>(node: Node<K, V>): Option<K> {
    match node.value
    case Some(e) => Some(e.addr)
    case None => None
  }

  /** The map and the list hold the same nodes, each under the address its entry carries. */
  ghost predicate InStep<K, V>(entries: map<K, Node<K, V>>, nodes: seq<Node<K, V>>) {
    && (forall i, j | 0 <= i < j < |nodes| :: nodes[i] != nodes[j])
    && (forall i | 0 <= i < |nodes| :: InMap(entries, nodes[i]))
    && (forall a | a in entries :: entries[a] in nodes && AddrOf(entries[a]) == Some(a))
  }

  ghost predicate InMap<K, V>(entries: map<K, Node<K, V>>, node: Node<K, V>) {
    node.value.Some? && node.value.value.addr in entries && entries[node.value.value.addr] == node
  }

  /** The entries of the nodes, in the same order. */
  ghost function ItemsOf<K, V>(nodes: seq<Node<K, V>>): (items: seq<Entry<K, V>>)
    requires HoldEntries(nodes)
    ensures |items| == |nodes|
    ensures forall i | 0 <= i < |items| :: items[i] == nodes[i].value.value
  {
    seq(|nodes|, i requires 0 <= i < |nodes| => nodes[i].value.value)
  }

  ghost predicate HoldEntries<K, V>(nodes: seq<Node<K, V>>) {
    forall i | 0 <= i < |nodes| :: nodes[i].value.Some?
  }

  lemma InStepHoldsEntries<K, V>(entries: map<K, Node<K, V>>, nodes: seq<Node<K, V>>)
    requires InStep(entries, nodes)
    ensures HoldEntries(nodes)
  {
    forall i | 0 <= i < |nodes| ensures nodes[i].value.Some? {
      assert InMap(entries, nodes[i]);
    }
  }

  lemma InStepIsDistinct<K, V>(entries: map<K, Node<K, V>>, nodes: seq<Node<K, V>>)
    requires InStep(entries, nodes)
    ensures Distinct(ItemsOf(nodes))
  {
    forall i, j | 0 <= i < j < |nodes| ensures ItemsOf(nodes)[i].addr != ItemsOf(nodes)[j].addr {
      assert InMap(entries, nodes[i]) && InMap(entries, nodes[j]);
    }
  }

  /** The map has as many addresses as the list has nodes. */
  lemma SizesAgree<K, V>(entries: map<K, Node<K, V>>, nodes: seq<Node<K, V>>)
    requires InStep(entries, nodes)
    ensures |entries| == |nodes|
  {
    var addrs := Addrs(ItemsOf(nodes));
    InStepIsDistinct(entries, nodes);
    NoDuplicatesIsDistinct(ItemsOf(nodes));
    SizeOfNoDuplicates(addrs);
    assert entries.Keys == set a | a in addrs by {
      forall a | a in entries ensures a in addrs {
        var i :| 0 <= i < |nodes| && nodes[i] == entries[a];
        assert addrs[i] == a;
      }
    }
  }

  /** The map finds the node that the list holds for an address. */
  lemma MapFindsNode<K, V>(entries: map<K, Node<K, V>>, nodes: seq<Node<K, V>>, a: K)
    requires InStep(entries, nodes)
    ensures Has(ItemsOf(nodes), a) <==> a in entries
    ensures a in entries ==> nodes[IndexOf(ItemsOf(nodes), a)] == entries[a]
  {
    if a in entries {
      var i :| 0 <= i < |nodes| && nodes[i] == entries[a];
      assert ItemsOf(nodes)[i].addr == a;
      var j := IndexOf(ItemsOf(nodes), a);
      assert InMap(entries, nodes[j]);
    }
    if i :| 0 <= i < |nodes| && ItemsOf(nodes)[i].addr == a {
      assert InMap(entries, nodes[i]);
    }
  }

  function RemoveAt<T>(s: seq<T>, i: nat): (rest: seq<T>)
    requires i < |s|
    ensures |rest| == |s| - 1
    ensures forall j | 0 <= j < |rest| :: rest[j] == s[if j < i then j else j + 1]
  {
    s[..i] + s[i + 1..]
  }

  lemma RemoveAtKeepsInStep<K, V>(entries: map<K, Node<K, V>>, nodes: seq<Node<K, V>>, i: nat)
    requires InStep(entries, nodes) && i < |nodes|
    ensures InStep(entries - {nodes[i].value.value.addr}, RemoveAt(nodes, i))
  {
    var rest, left := RemoveAt(nodes, i), entries - {nodes[i].value.value.addr};
    assert InMap(entries, nodes[i]);
    forall j | 0 <= j < |rest| ensures InMap(left, rest[j]) {
      var k := if j < i then j else j + 1;
      assert rest[j] == nodes[k] && InMap(entries, nodes[k]);
    }
    forall b | b in left ensures left[b] in rest {
      var k :| 0 <= k < |nodes| && nodes[k] == entries[b];
      assert rest[if k < i then k else k - 1] == nodes[k];
    }
  }

  lemma ItemsOfRemoveAt<K, V>(nodes: seq<Node<K, V>>, i: nat)
    requires i < |nodes| && HoldEntries(nodes)
    ensures ItemsOf(RemoveAt(nodes, i)) == RemoveAt(ItemsOf(nodes), i)
  {
  }

  lemma ItemsOfSuffix<K, V>(nodes: seq<Node<K, V>>, k: nat)
    requires k <= |nodes| && HoldEntries(nodes)
    ensures ItemsOf(nodes[k..]) == ItemsOf(nodes)[k..]
  {
  }

  lemma ReadMoves<K, V>(c: Lru<K, V>, a: K)
    requires Has(c.items, a)
    ensures var i := IndexOf(c.items, a);
            Read(c, a) == c.(items := RemoveAt(c.items, i) + [c.items[i]])
  {
  }

  lemma MoveKeepsInStep<K, V>(entries: map<K, Node<K, V>>, nodes: seq<Node<K, V>>, i: nat)
    requires InStep(entries, nodes) && HoldEntries(nodes) && i < |nodes|
    ensures var moved := RemoveAt(nodes, i) + [nodes[i]];
            && InStep(entries, moved) && HoldEntries(moved)
            && ItemsOf(moved) == RemoveAt(ItemsOf(nodes), i) + [ItemsOf(nodes)[i]]
  {
    var node, rest := nodes[i], RemoveAt(nodes, i);
    var left := entries - {node.value.value.addr};
    assert left[node.value.value.addr := node] == entries by {
      assert InMap(entries, node);
    }
    RemoveAtKeepsInStep(entries, nodes, i);
    ItemsOfRemoveAt(nodes, i);
    InStepHoldsEntries(left, rest);
    hide InStep;
    AppendKeepsInStep(left, rest, node);
  }

  lemma AppendKeepsInStep<K, V>(entries: map<K, Node<K, V>>, nodes: seq<Node<K, V>>, node: Node<K, V>)
    requires InStep(entries, nodes) && node !in nodes
    requires node.value.Some? && node.value.value.addr !in entries
    ensures InStep(entries[node.value.value.addr := node], nodes + [node])
    ensures ItemsOf(nodes + [node]) == ItemsOf(nodes) + [node.value.value]
  {
    forall i | 0 <= i < |nodes| ensures InMap(entries[node.value.value.addr := node], nodes[i]) {
      assert InMap(entries, nodes[i]);
    }
  }

  // ------------------------------------------------------------------ the cache

  class Cache<K(==), V> {
    var capacity: int
    var entries: map<K, Node<K, V>>
    const values: LinkedList.List<Option<Entry<K, V>>>
    var evictions: nat
    ghost var owned: set<Node<K, V>>   // every node that was in the list at some time

    /** Map and list hold the same entries, in nodes of this cache. */
    ghost predicate Consistent()
      reads this`entries, this`owned, values, values.root, values.elements
    {
      && values.Valid() && InStep(entries, values.elements) && HoldEntries(values.elements)
      && OwnsNodes()
    }

    ghost predicate OwnsNodes()
      reads this`owned, values
    {
      forall j | 0 <= j < |values.elements| :: values.elements[j] in owned
    }

    ghost predicate Valid()
      reads this, values, values.root, values.elements
    {
      Consistent() && |values.elements| <= capacity && evictions < UINT64
    }

    /** The entries in eviction order. */
    ghost function Items(): seq<Entry<K, V>>
      requires Consistent()
      reads this`entries, this`owned, values, values.root, values.elements
    {
      ItemsOf(values.elements)
    }

    ghost function Model(): Lru<K, V>
      requires Valid()
      reads this, values, values.root, values.elements
    {
      Lru(capacity, Items(), evictions)
    }

    lemma Unfolded()
      requires Valid()
      ensures Consistent() && |Items()| <= capacity && evictions < UINT64
      ensures Model() == Lru(capacity, Items(), evictions)
    {
    }

    lemma Folded()
      requires Consistent() && |Items()| <= capacity && evictions < UINT64
      ensures Valid() && Model() == Lru(capacity, Items(), evictions)
    {
    }

    /** The size of the map is that of the list. */
    lemma EntriesAreItems()
      requires Consistent()
      ensures |entries| == |Items()|
    {
      SizesAgree(entries, values.elements);
    }

    /** The empty abstract cache, whose capacity is never negative. */
    constructor (capacity: int)
      ensures Valid() && Model() == New(capacity)
      ensures fresh(values) && fresh(values.root) && owned == {}
    {
      this.capacity := if capacity < 0 then 0 else capacity;
      entries := map[];
      values := new LinkedList.List(None);
      evictions := 0;
      owned := {};
    }

    /** Takes one node out of both map and list; the others keep their order. */
    method Delete(node: Node<K, V>, ghost i: nat)
      requires Consistent()
      requires i < |values.elements| && values.elements[i] == node
      modifies this`entries, values, values.root, owned
      ensures Consistent()
      ensures values.elements == RemoveAt(old(values.elements), i)
      ensures Items() == RemoveAt(old(Items()), i)
      ensures entries == old(entries) - {node.value.value.addr}
    {
      RemoveAtKeepsInStep(entries, values.elements, i);
      ItemsOfRemoveAt(values.elements, i);
      InStepHoldsEntries(entries - {node.value.value.addr}, RemoveAt(values.elements, i));
      hide InStep, HoldEntries, ItemsOf, LinkedList.List.Valid;
      entries := entries - {node.value.value.addr};
      values.Remove(node, i);
    }

    /** The first node is gone from map and list, and the counter is one further. */
    method EvictFront(el: Node<K, V>)
      requires Consistent()
      requires values.elements != [] && el == values.elements[0]
      modifies this`entries, this`evictions, values, values.root, owned
      ensures Consistent() && values.elements == old(values.elements)[1..]
      ensures evictions == CountUp(old(evictions), 1)
      ensures forall a | a in entries :: a in old(entries)
    {
      hide InStep;
      evictions := CountUp(evictions, 1);
      Delete(el, 0);
    }

    /** Map and list lose the first n nodes, or all if there are fewer, and the counter goes up by as
        many, modulo 2^64. */
    method Evict(n: int)
      requires Consistent() && evictions < UINT64
      modifies this`entries, this`evictions, values, values.root, owned
      ensures Consistent()
      ensures values.elements == old(values.elements)[Evicted(old(Items()), n)..]
      ensures Items() == DropOldest(old(Items()), n)
      ensures evictions == CountUp(old(evictions), Evicted(old(Items()), n))
      ensures forall a | a in entries :: a in old(entries)
    {
      hide InStep;
      ghost var nodes, k := values.elements, 0;
      var left := n;
      var el := values.Front();
      while left > 0 && el != null
        invariant Consistent()
        invariant 0 <= k <= |nodes| && values.elements == nodes[k..]
        invariant left == n - k && (k > 0 ==> left >= 0)
        invariant el == if k == |nodes| then null else nodes[k]
        invariant evictions == CountUp(old(evictions), k)
        invariant forall a | a in entries :: a in old(entries)
        decreases left
      {
        var next := values.Next(el, 0);
        CountUpTwice(old(evictions), k, 1);
        EvictFront(el);
        el := next;
        left := left - 1;
        k := k + 1;
      }
      assert k == Evicted(ItemsOf(nodes), n);
      ItemsOfSuffix(nodes, k);
    }

    /** Puts an entry at the back for an address that has none. */
    method Append(addr: K, response: V)
      requires Consistent() && addr !in entries
      modifies this`entries, this`owned, values, values.root, owned
      ensures Consistent() && Items() == old(Items()) + [Entry(addr, response)]
      ensures fresh(owned - old(owned))
    {
      hide InStep;
      ghost var nodes := values.elements;
      var node := values.PushBack(Some(Entry(addr, response)));
      AppendKeepsInStep(entries, nodes, node);
      owned := owned + {node};
      entries := entries[addr := node];
    }

    /** Drops the entry for an address that has one. */
    method Forget(addr: K)
      requires Consistent()
      modifies this`entries, values, values.root, owned
      ensures Consistent() && Items() == Without(old(Items()), addr)
      ensures addr !in entries
    {
      hide InStep;
      MapFindsNode(entries, values.elements, addr);
      if addr in entries {
        var current := entries[addr];
        Delete(current, IndexOf(Items(), addr));
      }
    }

    /** Leaves room for an entry of that address: its own entry is gone, and so are as many of the
        oldest ones as do not fit beside a new one. */
    method MakeRoom(addr: K)
      requires Valid()
      modifies this`entries, this`evictions, values, values.root, owned
      ensures Consistent() && addr !in entries
      ensures var rest := Without(old(Items()), addr);
              var n := |rest| - capacity + 1;
              Items() == DropOldest(rest, n) && evictions == CountUp(old(evictions), Evicted(rest, n))
    {
      hide *;
      Unfolded();
      Forget(addr);
      EntriesAreItems();
      Evict(|entries| - capacity + 1);
    }

    /** What the abstract cache is after a response is stored, in terms of the fields. */
    lemma StoredModel(addr: K, response: V)
      requires Valid()
      ensures capacity == 0 ==> Recency.Set(Model(), addr, response) == Model()
      ensures capacity > 0 ==>
              var rest := Without(Items(), addr);
              var n := |rest| - capacity + 1;
              var items := DropOldest(rest, n) + [Entry(addr, response)];
              && Recency.Set(Model(), addr, response) == Lru(capacity, items, CountUp(evictions, Evicted(rest, n)))
              && |items| <= capacity
    {
      SetInSteps(Model(), addr, response);
      SetIsBounded(Model(), addr, response);
    }

    /** Stores a response as the abstract cache does, on the heap. */
    method Set(addr: K, response: V)
      requires Valid()
      modifies this, values, values.root, owned
      ensures Valid() && Model() == Recency.Set(old(Model()), addr, response)
      ensures fresh(owned - old(owned))
    {
      hide *;
      Unfolded();
      StoredModel(addr, response);
      if capacity == 0 {
        return;
      }
      MakeRoom(addr);
      Append(addr, response);
      Folded();
    }

    /** The abstract lookup, and the abstract cache after it; nothing new is owned. */
    method Get(addr: K) returns (response: Option<V>)
      requires Valid()
      modifies this, values, values.root, owned
      ensures response == Find(old(Model()), addr)
      ensures Valid() && Model() == Read(old(Model()), addr)
      ensures owned == old(owned)
    {
      hide InStep, Without, IndexOf;
      MapFindsNode(entries, values.elements, addr);
      if addr !in entries {
        return None;
      }
      var el := entries[addr];
      ghost var i := IndexOf(Items(), addr);
      MoveKeepsInStep(entries, values.elements, i);
      values.MoveToBack(el, i);
      response := Some(el.value.value.response);
      ReadMoves(old(Model()), addr);
    }

    /** The abstract cache without entries; capacity and counter stay. */
    method Clear()
      requires Valid()
      modifies this, values, values.root
      ensures Valid() && Model() == Cleared(old(Model()))
      ensures owned == old(owned)
    {
      entries := map[];
      values.Init();
    }

    /** The abstract resize, which does nothing exactly when it reports failure. */
    method Resize(capacity: int) returns (ok: bool)
      requires Valid()
      modifies this, values, values.root, owned
      ensures ok <==> capacity >= 0
      ensures Valid() && Model() == Recency.Resize(old(Model()), capacity)
      ensures owned == old(owned)
    {
      hide *;
      Unfolded();
      ResizeInSteps(Model(), capacity);
      if capacity < 0 {
        return false;
      }
      this.capacity := capacity;
      EntriesAreItems();
      Evict(|entries| - capacity);
      evictions := 0;
      Folded();
      ok := true;
    }

    /** The numbers of the abstract cache. The size comes from the map, the bound from the list. */
    method Stats() returns (size: int, limit: int, evicted: nat)
      requires Valid()
      ensures size == |Model().items| <= limit == Model().capacity
      ensures evicted == Model().evictions
    {
      SizesAgree(entries, values.elements);
      size, limit, evicted := |entries|, capacity, evictions;
    }
  }

  // ------------------------------------------------------------------------ runs

  /** One operation on the heap is one operation of the abstract cache. */
  method Step<K(==), V>(c: Cache<K, V>, op: Op<K, V>)
    requires c.Valid()
    modifies c, c.values, c.values.root, c.owned
    ensures c.Valid() && c.Model() == Apply(old(c.Model()), op)
    ensures fresh(c.owned - old(c.owned))
  {
    hide Recency.Set, Read, Recency.Resize;
    match op {
      case Put(a, response) => c.Set(a, response);
      case Get(a) => var found := c.Get(a);
      case Clear => c.Clear();
      case SetCapacity(n) => var ok := c.Resize(n);
    }
  }

  /** Any run of operations on the heap, from any cache, gives what the run of the abstract one
      gives. */
  method Execute<K(==), V>(c: Cache<K, V>, ops: seq<Op<K, V>>)
    requires c.Valid()
    modifies c, c.values, c.values.root, c.owned
    ensures c.Valid() && c.Model() == Run(old(c.Model()), ops)
    ensures fresh(c.owned - old(c.owned))
  {
    hide Apply;
    for i := 0 to |ops|
      invariant c.Valid() && c.Model() == Run(old(c.Model()), ops[..i])
      invariant fresh(c.owned - old(c.owned))
    {
      Step(c, ops[i]);
      assert ops[..i + 1][..i] == ops[..i];
    }
    assert ops[..|ops|] == ops;
  }

  /** After any run from a new cache: map and list are in bijection and bounded, and the list
      holds the last addresses of the last-touch order with the responses written last. */
  method ExecuteFromNew<K(==), V>(capacity: int, ops: seq<Op<K, V>>) returns (c: Cache<K, V>)
    ensures fresh(c) && fresh(c.values) && fresh(c.values.root) && fresh(c.owned)
    ensures c.Valid() && |c.entries| == |c.Model().items|
    ensures Faithful(c.Model(), Touches(New(capacity), ops), Written(ops))
    ensures c.Model() == Run(New(capacity), ops)
  {
    hide *;
    c := new Cache(capacity);
    Execute(c, ops);
    RunIsFaithful(capacity, ops);
    c.Unfolded();
    c.EntriesAreItems();
  }
}
