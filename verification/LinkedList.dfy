/**
 The doubly linked list the response cache keeps its entries in: a ring through a root node, as
 container/list builds it. Elements is the list's ghost contents from front to back.
 */
module LinkedList {

  class Node<T> {
    const value: T
    var next: Node?<T>
    var prev: Node?<T>

    constructor (value: T)
      ensures this.value == value
    {
      this.value := value;
      next, prev := null, null;
    }
  }

  class List<T> {
    const root: Node<T>
    ghost var elements: seq<Node<T>>

    /** The ring, with the root at both ends. */
    ghost function Ring(): seq<Node<T>>
      reads this
    {
      [root] + elements + [root]
    }

    ghost predicate Valid()
      reads this, root, elements
    {
      && (forall i, j | 0 <= i < j < |elements| :: elements[i] != elements[j])
      && root !in elements
      && forall i | 0 <= i <= |elements| :: Linked(i)
    }

    ghost predicate Linked(i: nat)
      requires i <= |elements|
      reads this, root, elements
    {
      Ring()[i].next == Ring()[i + 1] && Ring()[i + 1].prev == Ring()[i]
    }

    constructor (rootValue: T)
      ensures Valid() && elements == []
      ensures fresh(root)
    {
      root := new Node(rootValue);
      elements := [];
      new;
      root.next, root.prev := root, root;
    }

    /** The empty ring. The nodes from before keep their links, which no list follows any more. */
    method Init()
      modifies this, root
      ensures Valid() && elements == []
    {
      root.next, root.prev := root, root;
      elements := [];
    }

    method Front() returns (e: Node?<T>)
      requires Valid()
      ensures e == if elements == [] then null else elements[0]
    {
      assert Linked(0);
      e := if root.next == root then null else root.next;
    }

    /** The node after e, nothing after the last one. */
    method Next(e: Node<T>, ghost i: nat) returns (n: Node?<T>)
      requires Valid()
      requires i < |elements| && elements[i] == e
      ensures n == if i + 1 == |elements| then null else elements[i + 1]
    {
      assert Linked(i + 1);
      n := if e.next == root then null else e.next;
    }

    method PushBack(value: T) returns (e: Node<T>)
      requires Valid()
      modifies this, root, elements
      ensures Valid() && elements == old(elements) + [e]
      ensures fresh(e) && e.value == value
    {
      e := new Node(value);
      Link(e);
    }

    /** Puts a node that is in no list at the back. */
    method Link(e: Node<T>)
      requires Valid() && e != root && e !in elements
      modifies this, root, elements, e
      ensures Valid() && elements == old(elements) + [e]
    {
      ghost var n := |elements|;
      assert Linked(n);
      var last := root.prev;
      e.prev, e.next := last, root;
      last.next := e;
      root.prev := e;
      elements := elements + [e];
      forall i | 0 <= i <= n + 1 ensures Linked(i) {
        assert i < n ==> old(Linked(i));
      }
    }

    method Remove(e: Node<T>, ghost i: nat)
      requires Valid()
      requires i < |elements| && elements[i] == e
      modifies this, root, elements
      ensures Valid() && elements == old(elements)[..i] + old(elements)[i + 1..]
    {
      assert Linked(i) && Linked(i + 1);
      e.prev.next := e.next;
      e.next.prev := e.prev;
      e.next, e.prev := null, null;
      elements := elements[..i] + elements[i + 1..];
      forall j | 0 <= j <= |elements| ensures Linked(j) {
        assert j < i ==> old(Linked(j));
        assert j > i ==> old(Linked(j + 1));
      }
    }

    method MoveToBack(e: Node<T>, ghost i: nat)
      requires Valid()
      requires i < |elements| && elements[i] == e
      modifies this, root, elements
      ensures Valid() && elements == old(elements)[..i] + old(elements)[i + 1..] + [e]
    {
      if root.prev != e {
        Remove(e, i);
        Link(e);
      } else {
        assert Linked(|elements|);
      }
    }
  }
}
