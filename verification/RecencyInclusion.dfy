/**
 Inclusion between capacities: fed the same operations, a larger response cache holds whatever
 a smaller one holds, in the same order, so a larger cache never turns a hit into a miss.
 */
module RecencyInclusion {
  import opened Recency
  import opened RecencyPolicy

  ghost predicate IsSubsequence<T>(s: seq<T>, t: seq<T>) {
    s == [] || (t != [] && ((s[0] == t[0] && IsSubsequence(s[1..], t[1..])) || IsSubsequence(s, t[1..])))
  }

  // ---------------------------------------------------------- subsequences

  lemma {:induction false} SubsequenceOfItself<T>(s: seq<T>)
    ensures IsSubsequence(s, s)
  {
    if s == [] {
    } else {
      SubsequenceOfItself(s[1..]);
    }
  }

  lemma {:induction false} SubsequenceMember<T>(s: seq<T>, t: seq<T>, x: T)
    requires IsSubsequence(s, t) && x in s
    ensures x in t
  {
    if s[0] == t[0] && IsSubsequence(s[1..], t[1..]) {
      if x != s[0] {
        SubsequenceMember(s[1..], t[1..], x);
      }
    } else {
      SubsequenceMember(s, t[1..], x);
    }
  }

  lemma {:induction false} SubsequenceTail<T>(s: seq<T>, t: seq<T>)
    requires IsSubsequence(s, t) && s != []
    ensures IsSubsequence(s[1..], t) && t != [] && IsSubsequence(s[1..], t[1..])
  {
    if !(s[0] == t[0] && IsSubsequence(s[1..], t[1..])) {
      SubsequenceTail(s, t[1..]);
    }
  }

  lemma {:induction false} SubsequenceAppend<T>(s: seq<T>, t: seq<T>, x: T)
    requires IsSubsequence(s, t)
    ensures IsSubsequence(s, t + [x]) && IsSubsequence(s + [x], t + [x])
  {
    if t == [] {
      assert s + [x] == [x] == t + [x];
    } else {
      assert (t + [x])[1..] == t[1..] + [x];
      if s == [] {
        SubsequenceAppend([], t[1..], x);
        assert [] + [x] == [x];
      } else if s[0] == t[0] && IsSubsequence(s[1..], t[1..]) {
        assert (s + [x])[1..] == s[1..] + [x];
        SubsequenceAppend(s[1..], t[1..], x);
      } else {
        SubsequenceAppend(s, t[1..], x);
      }
    }
  }

  lemma HasCons<K, V>(items: seq<Entry<K, V>>, a: K)
    requires items != []
    ensures Has(items, a) <==> items[0].addr == a || Has(items[1..], a)
  {
    if i :| 0 <= i < |items| && items[i].addr == a {
      assert i > 0 ==> items[1..][i - 1].addr == a;
    }
    if i :| 0 <= i < |items[1..]| && items[1..][i].addr == a {
      assert items[i + 1].addr == a;
    }
  }

  lemma WithoutCons<K, V>(items: seq<Entry<K, V>>, a: K)
    requires items != []
    ensures Without(items, a) == if items[0].addr == a then items[1..] else [items[0]] + Without(items[1..], a)
  {
    HasCons(items, a);
    if items[0].addr != a && Has(items, a) {
      var rest := items[1..];
      var i := IndexOf(rest, a);
      assert IndexOf(items, a) == i + 1;
      hide IndexOf, Has;
      assert items[..i + 1] == [items[0]] + rest[..i];
      assert items[i + 2..] == rest[i + 1..];
      calc {
        items[..i + 1] + items[i + 2..];
        ([items[0]] + rest[..i]) + rest[i + 1..];
        [items[0]] + (rest[..i] + rest[i + 1..]);
      }
    }
  }

  /** Dropping the entry for a from both: by cases on the first entries, one of which may be a's. */
  lemma {:induction false} SubsequenceWithout<K, V>(s: seq<Entry<K, V>>, t: seq<Entry<K, V>>, a: K)
    requires IsSubsequence(s, t) && Distinct(t)
    ensures IsSubsequence(Without(s, a), Without(t, a))
  {
    if s == [] {
      assert Without(s, a) == [];
    } else if s[0] == t[0] && IsSubsequence(s[1..], t[1..]) {
      SubsequenceWithout(s[1..], t[1..], a);
      WithoutCons(s, a);
      WithoutCons(t, a);
      SubsequenceCons(Without(s[1..], a), Without(t[1..], a), s[0]);
    } else {
      SubsequenceWithout(s, t[1..], a);
      WithoutCons(t, a);
      if t[0].addr == a {
        AbsentFromTail(s, t);
      } else {
        assert Without(t, a)[1..] == Without(t[1..], a);
      }
    }
  }

  lemma SubsequenceCons<T>(s: seq<T>, t: seq<T>, x: T)
    requires IsSubsequence(s, t)
    ensures IsSubsequence([x] + s, [x] + t)
  {
    assert ([x] + s)[1..] == s && ([x] + t)[1..] == t;
  }

  lemma AbsentFromTail<K, V>(s: seq<Entry<K, V>>, t: seq<Entry<K, V>>)
    requires t != [] && Distinct(t) && IsSubsequence(s, t[1..])
    ensures !Has(s, t[0].addr)
  {
    if i :| 0 <= i < |s| && s[i].addr == t[0].addr {
      SubsequenceMember(s, t[1..], s[i]);
    }
  }

  // ------------------------------------------------------------- inclusion

  /** The smaller cache holds a subsequence of the larger one, and as long as it has room left
      it has evicted nothing since the last Clear, so the two hold the same. */
  ghost predicate Nested<K, V>(small: Lru<K, V>, large: Lru<K, V>) {
    && Distinct(small.items) && |small.items| <= small.capacity
    && Distinct(large.items) && |large.items| <= large.capacity
    && small.capacity <= large.capacity
    && IsSubsequence(small.items, large.items)
    && (|small.items| < small.capacity ==> small.items == large.items)
  }

  lemma PutKeepsNested<K, V>(small: Lru<K, V>, large: Lru<K, V>, a: K, response: V)
    requires Nested(small, large)
    ensures IsSubsequence(Set(small, a, response).items, Set(large, a, response).items)
    ensures var s := Set(small, a, response);
            |s.items| < s.capacity ==> s.items == Set(large, a, response).items
  {
    if small.capacity > 0 {
      var k := SetItems(small, a, response);
      var l := SetItems(large, a, response);
      var s, t := Without(small.items, a), Without(large.items, a);
      SubsequenceWithout(small.items, large.items, a);
      SubsequenceHas(small.items, large.items, a);
      if k == 1 {
        SubsequenceTail(s, t);
      } else {
        assert l == 0;
        assert s[k..] == s && t[l..] == t;
      }
      assert IsSubsequence(s[k..], t[l..]);
      SubsequenceAppend(s[k..], t[l..], Entry(a, response));
    }
  }

  lemma SubsequenceHas<K, V>(s: seq<Entry<K, V>>, t: seq<Entry<K, V>>, a: K)
    requires IsSubsequence(s, t) && Distinct(t)
    ensures Has(s, a) ==> Has(t, a) && s[IndexOf(s, a)] == t[IndexOf(t, a)]
  {
    if Has(s, a) {
      SubsequenceMember(s, t, s[IndexOf(s, a)]);
    }
  }

  lemma GetKeepsNested<K, V>(small: Lru<K, V>, large: Lru<K, V>, a: K)
    requires Nested(small, large)
    ensures IsSubsequence(Read(small, a).items, Read(large, a).items)
    ensures var s := Read(small, a);
            |s.items| < s.capacity ==> s.items == Read(large, a).items
  {
    SubsequenceHas(small.items, large.items, a);
    if Has(large.items, a) {
      var e := large.items[IndexOf(large.items, a)];
      SubsequenceWithout(small.items, large.items, a);
      SubsequenceAppend(Without(small.items, a), Without(large.items, a), e);
    }
  }

  /** Fed the same writes, reads and clears, the smaller cache holds a subsequence of what the
      larger one holds, so every hit in the smaller one is a hit in the larger one with the same
      answer. A read that hits only in the larger cache reorders that one alone. */
  lemma {:induction false} Inclusion<K, V>(small: int, large: int, ops: seq<Op<K, V>>)
    requires small <= large && FixedCapacity(ops)
    ensures IsSubsequence(Run(New(small), ops).items, Run(New(large), ops).items)
    ensures forall a :: Find(Run(New(small), ops), a).Some? ==>
              Find(Run(New(large), ops), a) == Find(Run(New(small), ops), a)
    ensures Nested(Run(New(small), ops), Run(New(large), ops))
  {
    FixedCapacityIsFilled(small, ops);
    FixedCapacityIsFilled(large, ops);
    RunIsFaithful(small, ops);
    RunIsFaithful(large, ops);
    if ops == [] {
    } else {
      var before, op := ops[..|ops| - 1], ops[|ops| - 1];
      Inclusion(small, large, before);
      hide Set, Read, Without, IndexOf, IsSubsequence, Distinct;
      var c, d := Run(New(small), before), Run(New(large), before);
      match op
      case Put(a, response) => PutKeepsNested(c, d, a, response);
      case Get(a) => GetKeepsNested(c, d, a);
      case Clear =>
    }
    forall a | Find(Run(New(small), ops), a).Some?
      ensures Find(Run(New(large), ops), a) == Find(Run(New(small), ops), a)
    {
      SubsequenceHas(Run(New(small), ops).items, Run(New(large), ops).items, a);
    }
  }
}
