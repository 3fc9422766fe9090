/**
 Intrusive singly linked lists (include/qoraal/common/lists.h and lists_inline.h). The
 objects carry their own `next` link; a ghost sequence says which objects a list holds.
 */
module Lists {
  import opened Common

  class Node<T> {
    var next: Node?<T>
    var data: T

    constructor (data: T)
      ensures this.data == data && next == null
    {
      this.data := data;
      next := null;
    }
  }

  /** The node that should follow the i-th one. */
  function NodeAt<T>(nodes: seq<Node<T>>, i: int): Node?<T> {
    if 0 <= i < |nodes| then nodes[i] else null
  }

  ghost predicate LinkAt<T>(nodes: seq<Node<T>>, i: nat)
    requires i < |nodes|
    reads {nodes[i]}`next
  {
    nodes[i].next == NodeAt(nodes, i + 1)
  }

  class Linked<T> {
    var head: Node?<T>
    var tail: Node?<T>
    ghost var nodes: seq<Node<T>>

    ghost predicate Valid()
      reads this, nodes`next
    {
      && Distinct(nodes)
      && head == NodeAt(nodes, 0) && tail == NodeAt(nodes, |nodes| - 1)
      && forall i :: 0 <= i < |nodes| ==> LinkAt(nodes, i)
    }

    /** `linked_init`. */
    constructor ()
      ensures Valid() && nodes == []
    {
      head, tail := null, null;
      nodes := [];
    }

    /** `linked_add_head`. */
    method AddHead(add: Node<T>)
      requires Valid() && add !in nodes
      modifies this, add`next
      ensures Valid() && nodes == [add] + old(nodes)
    {
      if head == null {
        tail := add;
        add.next := null;
      } else {
        add.next := head;
      }
      head := add;
      nodes := [add] + nodes;
      forall i | 0 <= i < |nodes| ensures LinkAt(nodes, i) {
        if i > 0 { assert old(LinkAt(nodes, i - 1)); }
      }
    }

    /** `linked_add_tail`. */
    method AddTail(add: Node<T>)
      requires Valid() && add !in nodes
      modifies this, add`next, nodes`next
      ensures Valid() && nodes == old(nodes) + [add]
    {
      add.next := null;
      if head == null {
        head, tail := add, add;
      } else {
        tail.next := add;
        tail := add;
      }
      nodes := nodes + [add];
      forall i | 0 <= i < |nodes| ensures LinkAt(nodes, i) {
        if i < |old(nodes)| { assert old(LinkAt(nodes, i)); }
      }
    }

    /** `linked_add_next`: add goes behind the k-th object. */
    method AddNext(obj: Node<T>, add: Node<T>, ghost k: nat)
      requires Valid() && add !in nodes && k < |nodes| && nodes[k] == obj
      modifies this, add`next, obj`next
      ensures Valid() && nodes == old(nodes[..k + 1] + [add] + nodes[k + 1..])
    {
      assert LinkAt(nodes, k);
      var last := obj.next;
      add.next := last;
      obj.next := add;
      if obj == tail {
        tail := add;
        add.next := null;
      }
      nodes := nodes[..k + 1] + [add] + nodes[k + 1..];
      forall i | 0 <= i < |nodes| ensures LinkAt(nodes, i) {
        if i <= k { assert old(LinkAt(nodes, i)); }
        if i > k + 1 { assert old(LinkAt(nodes, i - 1)); }
      }
    }

    /** `linked_remove_head`. */
    method RemoveHead()
      requires Valid()
      modifies this
      ensures Valid() && nodes == if old(nodes) == [] then [] else old(nodes)[1..]
    {
      if head != null {
        assert LinkAt(nodes, 0);
        head := head.next;
        nodes := nodes[1..];
      }
      if head == null {
        tail := null;
      }
      forall i | 0 <= i < |nodes| ensures LinkAt(nodes, i) {
        assert old(LinkAt(nodes, i + 1));
      }
    }

    /** `linked_remove_next`: the object behind the k-th one goes. */
    method RemoveNext(obj: Node<T>, ghost k: nat)
      requires Valid() && k < |nodes| && nodes[k] == obj
      modifies this, obj`next
      ensures Valid() && nodes == if k + 1 < |old(nodes)| then old(nodes[..k + 1] + nodes[k + 2..]) else old(nodes)
    {
      assert LinkAt(nodes, k);
      var next := obj.next;
      if next != null {
        assert LinkAt(nodes, k + 1);
        obj.next := next.next;
        if obj.next == null {
          tail := obj;
        }
        nodes := nodes[..k + 1] + nodes[k + 2..];
      }
      forall i | 0 <= i < |nodes| ensures LinkAt(nodes, i) {
        if i <= k || |nodes| == |old(nodes)| { assert old(LinkAt(nodes, i)); } else { assert old(LinkAt(nodes, i + 1)); }
      }
    }

    /** `linked_remove`: the object goes from wherever it is in the list, if it is there. */
    method Remove(obj: Node<T>) returns (found: bool)
      requires Valid()
      modifies this, nodes`next
      ensures Valid()
      ensures found == (obj in old(nodes)) && obj !in nodes
      ensures !found ==> nodes == old(nodes)
      ensures found ==> exists k: nat :: k < |old(nodes)| && old(nodes)[k] == obj && nodes == old(nodes)[..k] + old(nodes)[k + 1..]
    {
      var previous: Node?<T> := null;
      var start := head;
      ghost var k := 0;
      while start != null && start != obj
        invariant k <= |nodes| && start == NodeAt(nodes, k) && previous == NodeAt(nodes, k - 1)
        invariant obj !in nodes[..k]
        decreases |nodes| - k
      {
        assert LinkAt(nodes, k);
        assert nodes[..k + 1] == nodes[..k] + [nodes[k]];
        previous := start;
        start := start.next;
        k := k + 1;
      }
      if start == obj {
        if previous == null {
          RemoveHead();
        } else {
          RemoveNext(previous, k - 1);
        }
        return true;
      }
      assert nodes[..k] == nodes;
      return false;
    }
  }

  // ----- Several lists

  ghost function Objects<T>(lists: seq<Linked<T>>): (r: set<Node<T>>)
    reads lists
    ensures forall i, x :: 0 <= i < |lists| && x in lists[i].nodes ==> x in r
  {
    set i: nat, x | i < |lists| && x in lists[i].nodes :: x
  }

  ghost function Contents<T>(lists: seq<Linked<T>>): seq<seq<Node<T>>>
    reads lists
  {
    seq(|lists|, i requires 0 <= i < |lists| reads lists => lists[i].nodes)
  }

  ghost predicate NoneShared<T>(a: Linked<T>, b: Linked<T>)
    reads a, b
  {
    a != b && forall x :: x in a.nodes ==> x !in b.nodes
  }

  /** A family of lists that share no object. */
  ghost predicate Apart<T>(lists: seq<Linked<T>>)
    reads lists, Objects(lists)`next
  {
    && (forall i :: 0 <= i < |lists| ==> lists[i].Valid())
    && (forall i, j :: 0 <= i < j < |lists| ==> NoneShared(lists[i], lists[j]))
  }

  /** The object is in none of the lists. */
  ghost predicate Loose<T>(lists: seq<Linked<T>>, x: Node<T>)
    reads lists
  {
    forall i :: 0 <= i < |lists| ==> x !in lists[i].nodes
  }

  lemma ApartFrom<T>(lists: seq<Linked<T>>, j: nat)
    requires Apart(lists) && j < |lists|
    ensures forall i :: 0 <= i < |lists| && i != j ==> NoneShared(lists[i], lists[j])
  {
    forall i | 0 <= i < |lists| && i != j ensures NoneShared(lists[i], lists[j]) {
      assert NoneShared(lists[if i < j then i else j], lists[if i < j then j else i]);
    }
  }

  // The list j of a family changes: the others stay as they are.

  method AddTailOf<T>(ghost lists: seq<Linked<T>>, ghost j: nat, list: Linked<T>, add: Node<T>)
    requires Apart(lists) && j < |lists| && lists[j] == list && Loose(lists, add)
    modifies list, add`next, list.nodes`next
    ensures Apart(lists) && Contents(lists) == old(Contents(lists)[j := list.nodes + [add]])
    ensures Objects(lists) <= old(Objects(lists)) + {add}
  {
    ApartFrom(lists, j);
    ghost var before := list.nodes;
    list.AddTail(add);
    forall i | 0 <= i < |lists| && i != j ensures lists[i].Valid() {
      assert old(NoneShared(lists[i], lists[j]) && lists[i].Valid());
      var nodes := lists[i].nodes;
      forall k | 0 <= k < |nodes| ensures LinkAt(nodes, k) {
        assert old(LinkAt(nodes, k)) && nodes[k] in nodes;
        assert nodes[k] !in before && nodes[k] != add;
      }
    }
  }

  method AddHeadOf<T>(ghost lists: seq<Linked<T>>, ghost j: nat, list: Linked<T>, add: Node<T>)
    requires Apart(lists) && j < |lists| && lists[j] == list && Loose(lists, add)
    modifies list, add`next
    ensures Apart(lists) && Contents(lists) == old(Contents(lists)[j := [add] + list.nodes])
    ensures Objects(lists) <= old(Objects(lists)) + {add}
  {
    ApartFrom(lists, j);
    list.AddHead(add);
    forall i | 0 <= i < |lists| && i != j ensures lists[i].Valid() {
      assert old(NoneShared(lists[i], lists[j]) && lists[i].Valid());
    }
  }

  method AddNextOf<T>(ghost lists: seq<Linked<T>>, ghost j: nat, list: Linked<T>, obj: Node<T>, add: Node<T>, ghost k: nat)
    requires Apart(lists) && j < |lists| && lists[j] == list && Loose(lists, add) && k < |list.nodes| && list.nodes[k] == obj
    modifies list, add`next, obj`next
    ensures Apart(lists) && Contents(lists) == old(Contents(lists)[j := list.nodes[..k + 1] + [add] + list.nodes[k + 1..]])
    ensures Objects(lists) <= old(Objects(lists)) + {add}
  {
    ApartFrom(lists, j);
    ghost var before := list.nodes;
    list.AddNext(obj, add, k);
    forall i | 0 <= i < |lists| && i != j ensures lists[i].Valid() {
      assert old(NoneShared(lists[i], lists[j]) && lists[i].Valid());
      var nodes := lists[i].nodes;
      forall n | 0 <= n < |nodes| ensures LinkAt(nodes, n) {
        assert old(LinkAt(nodes, n)) && nodes[n] in nodes;
        assert nodes[n] !in before && nodes[n] != add;
      }
    }
  }

  method RemoveHeadOf<T>(ghost lists: seq<Linked<T>>, ghost j: nat, list: Linked<T>)
    requires Apart(lists) && j < |lists| && lists[j] == list && list.nodes != []
    modifies list
    ensures Apart(lists) && Contents(lists) == old(Contents(lists)[j := list.nodes[1..]])
    ensures Objects(lists) <= old(Objects(lists)) && Loose(lists, old(list.nodes[0]))
  {
    ApartFrom(lists, j);
    list.RemoveHead();
    forall i | 0 <= i < |lists| && i != j ensures lists[i].Valid() {
      assert old(NoneShared(lists[i], lists[j]) && lists[i].Valid());
    }
  }

  method RemoveOf<T>(ghost lists: seq<Linked<T>>, ghost j: nat, list: Linked<T>, obj: Node<T>) returns (found: bool)
    requires Apart(lists) && j < |lists| && lists[j] == list
    modifies list, list.nodes`next
    ensures Apart(lists) && found == (obj in old(list.nodes))
    ensures !found ==> Contents(lists) == old(Contents(lists))
    ensures found ==>
      exists k: nat :: k < |old(list.nodes)| && old(list.nodes)[k] == obj &&
                       Contents(lists) == old(Contents(lists))[j := old(list.nodes)[..k] + old(list.nodes)[k + 1..]]
    ensures Objects(lists) <= old(Objects(lists)) && (found ==> Loose(lists, obj))
  {
    ApartFrom(lists, j);
    ghost var before := list.nodes;
    found := list.Remove(obj);
    forall i | 0 <= i < |lists| && i != j ensures lists[i].Valid() {
      assert old(NoneShared(lists[i], lists[j]) && lists[i].Valid());
      var nodes := lists[i].nodes;
      forall k | 0 <= k < |nodes| ensures LinkAt(nodes, k) {
        assert old(LinkAt(nodes, k)) && nodes[k] in nodes;
        assert nodes[k] !in before;
      }
    }
    forall a, b | 0 <= a < b < |lists| ensures NoneShared(lists[a], lists[b]) {
      assert old(NoneShared(lists[a], lists[b]));
    }
  }
}
