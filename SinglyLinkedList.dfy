/**
 * The singly-linked list: a chain of nodes linked forward only, with a
 * reference to its first node (`start`). Operations at the back walk the
 * whole chain.
 */
module SinglyLinked {
  import opened ListSpec

  /** A node of the chain: one value and its link to the next node. */
  class Node<T> {
    var next: Node?<T>
    var value: T

    constructor (value: T, next: Node?<T>)
      ensures this.value == value && this.next == next
    {
      this.value := value;
      this.next := next;
    }
  }

  class SinglyLinkedList<T> {
    var start: Node?<T>

    /** The nodes of the chain, from `start` on. */
    ghost var Nodes: seq<Node<T>>
    /** The list: the values of `Nodes`, in order. */
    ghost var Contents: seq<T>
    /** The objects the list is made of. */
    ghost var Repr: set<object>

    /** The representation invariant: `start` is the first of `Nodes` (null
        when there is none), which are pairwise distinct, each node's `next`
        is its successor in `Nodes` (null for the last), and the values of
        `Nodes` are `Contents`. */
    ghost predicate Valid()
      reads this, Repr
    {
      this in Repr &&
      (forall i :: 0 <= i < |Nodes| ==> Nodes[i] in Repr) &&
      |Nodes| == |Contents| &&
      start == (if Nodes == [] then null else Nodes[0]) &&
      (forall i :: 0 <= i < |Nodes| ==> Nodes[i].value == Contents[i]) &&
      (forall i {:trigger Nodes[i].next} :: 0 <= i < |Nodes| ==>
         Nodes[i].next == if i == |Nodes| - 1 then null else Nodes[i + 1]) &&
      Distinct(Nodes)
    }

    /** The successor of the node at position `i`, read off `Valid()`. */
    lemma NextAt(i: int)
      requires Valid() && 0 <= i < |Nodes|
      ensures Nodes[i].next == if i == |Nodes| - 1 then null else Nodes[i + 1]
    {
    }

    /** A singly-linked list starts empty. */
    constructor ()
      ensures Valid() && fresh(Repr)
      ensures Contents == [] && start == null
    {
      start := null;
      Nodes := [];
      Contents := [];
      Repr := {this};
    }

    /** The node at position `index`, found by walking from `start`; a bad
        index when there is no such node. */
    method GetNode(index: int) returns (r: Outcome<Node<T>>)
      requires Valid()
      ensures r.Ok? <==> 0 <= index < |Nodes|
      ensures r.Ok? ==> r.value == Nodes[index]
      ensures !r.Ok? ==> r == BadIndex(index)
    {
      var at := 0;
      var n := start;
      while n != null
        invariant 0 <= at <= |Nodes|
        invariant n == if at < |Nodes| then Nodes[at] else null
        invariant index < 0 || at <= index
        decreases |Nodes| - at
      {
        if at == index {
          return Ok(n);
        }
        NextAt(at);
        at := at + 1;
        n := n.next;
      }
      return BadIndex(index);
    }

    method RemoveFront() returns (r: Outcome<T>)
      requires Valid()
      modifies this
      ensures Valid() && Repr == old(Repr)
      ensures old(Contents) == [] ==> r == EmptyList && unchanged(this)
      ensures old(Contents) != [] ==>
                r == Ok(old(Contents)[0]) && Contents == old(Contents)[1..]
    {
      var empty := IsEmpty();
      if empty {
        return EmptyList;
      }
      NextAt(0);
      var removed := start.value;
      start := start.next;
      DistinctSlice(Nodes, 1, |Nodes|);
      Nodes := Nodes[1..];
      Contents := Contents[1..];
      forall i | 0 <= i < |Nodes|
        ensures Nodes[i].next == if i == |Nodes| - 1 then null else Nodes[i + 1]
      {
        assert old(Nodes[i + 1].next) == old(if i + 1 == |Nodes| - 1 then null else Nodes[i + 2]);
      }
      return Ok(removed);
    }

    method RemoveBack() returns (r: Outcome<T>)
      requires Valid()
      modifies this, Repr
      ensures Valid() && Repr == old(Repr)
      ensures old(Contents) == [] ==> r == EmptyList && unchanged(old(Repr))
      ensures old(Contents) != [] ==>
                r == Ok(old(Contents)[|old(Contents)| - 1]) &&
                Contents == old(Contents)[..|old(Contents)| - 1]
      ensures old(|Contents|) == 1 ==> start == null
    {
      var empty := IsEmpty();
      if empty {
        return EmptyList;
      }
      var secondToLast: Node?<T> := null;
      var n := start;
      ghost var at := 0;
      while n.next != null
        invariant 0 <= at < |Nodes| && n == Nodes[at]
        invariant secondToLast == if at == 0 then null else Nodes[at - 1]
        decreases |Nodes| - at
        modifies {}
      {
        NextAt(at);
        secondToLast := n;
        n := n.next;
        at := at + 1;
      }
      NextAt(at);
      var removed;
      if secondToLast == null {
        removed := start.value;
        start := null;
      } else {
        removed := secondToLast.next.value;
        secondToLast.next := null;
      }
      DistinctSlice(Nodes, 0, |Nodes| - 1);
      Nodes := Nodes[..|Nodes| - 1];
      Contents := Contents[..|Contents| - 1];
      forall i | 0 <= i < |Nodes| - 1
        ensures Nodes[i].next == Nodes[i + 1]
      {
        assert old(Nodes[i].next) == old(Nodes)[i + 1];
      }
      return Ok(removed);
    }

    method RemoveIndex(index: int) returns (r: Outcome<T>)
      requires Valid() && (Contents != [] ==> index != |Contents|)
      modifies this, Repr
      ensures Valid() && Repr == old(Repr)
      ensures old(Contents) == [] ==> r == EmptyList && unchanged(old(Repr))
      ensures old(Contents) != [] && !(0 <= index < old(|Contents|)) ==>
                r == BadIndex(index - 1) && unchanged(old(Repr))
      ensures 0 <= index < old(|Contents|) ==>
                r == Ok(old(Contents)[index]) && Contents == RemoveAt(old(Contents), index)
    {
      var empty := IsEmpty();
      if empty {
        return EmptyList;
      }
      if index == 0 {
        r := RemoveFront();
        return;
      }
      var found := GetNode(index - 1);
      if !found.Ok? {
        return BadIndex(found.index);
      }
      var beforeIndex := found.value;
      NextAt(index - 1);
      NextAt(index);
      var removed := beforeIndex.next.value;
      label Splicing:
      Bypass(beforeIndex, index);
      BypassKeepsValid@Splicing(index);
      return Ok(removed);
    }

    method AddFront(item: T)
      requires Valid()
      modifies this
      ensures Valid() && fresh(Repr - old(Repr))
      ensures Contents == [item] + old(Contents)
    {
      start := new Node(item, start);
      DistinctEnds(Nodes, start);
      Nodes := [start] + Nodes;
      Contents := [item] + Contents;
      Repr := Repr + {start};
      forall i | 1 <= i < |Nodes|
        ensures Nodes[i].next == if i == |Nodes| - 1 then null else Nodes[i + 1]
      {
        assert old(Nodes[i - 1].next) == old(if i - 1 == |Nodes| - 1 then null else Nodes[i]);
      }
    }

    method AddBack(item: T)
      requires Valid()
      modifies this, Repr
      ensures Valid() && fresh(Repr - old(Repr))
      ensures Contents == old(Contents) + [item]
    {
      var lastNode: Node?<T> := null;
      var n := start;
      ghost var at := 0;
      while n != null
        invariant 0 <= at <= |Nodes|
        invariant n == if at < |Nodes| then Nodes[at] else null
        invariant lastNode == if at == 0 then null else Nodes[at - 1]
        decreases |Nodes| - at
        modifies {}
      {
        NextAt(at);
        lastNode := n;
        n := n.next;
        at := at + 1;
      }
      var node := new Node(item, null);
      if lastNode != null {
        lastNode.next := node;
      } else {
        start := node;
      }
      DistinctEnds(Nodes, node);
      Nodes := Nodes + [node];
      Contents := Contents + [item];
      Repr := Repr + {node};
      forall i | 0 <= i < |Nodes| - 2
        ensures Nodes[i].next == Nodes[i + 1]
      {
        assert old(Nodes[i].next) == old(Nodes)[i + 1];
      }
    }

    method AddIndex(index: int, item: T) returns (r: Outcome<()>)
      requires Valid()
      modifies this, Repr
      ensures Valid() && fresh(Repr - old(Repr))
      ensures r.Ok? <==> 0 <= index <= old(|Contents|)
      ensures !r.Ok? ==> r == BadIndex(index - 1) && unchanged(old(Repr))
      ensures r.Ok? ==> Contents == InsertAt(old(Contents), index, item)
    {
      if index == 0 {
        AddFront(item);
        return Ok(());
      }
      var found := GetNode(index - 1);
      if !found.Ok? {
        return BadIndex(found.index);
      }
      var beforeIndex := found.value;
      NextAt(index - 1);
      label Linking:
      LinkAfter(beforeIndex, index, item);
      LinkAfterKeepsValid@Linking(index);
      return Ok(());
    }

    /** The splice inside `RemoveIndex`: `prev`, the node at position
        `index - 1`, is linked past its successor. Only the nodes it touches
        matter here; `BypassKeepsValid` shows the result is a valid list. */
    method Bypass(prev: Node<T>, index: int)
      requires this in Repr && 0 < index < |Nodes| == |Contents|
      requires prev == Nodes[index - 1] && prev in Repr && prev.next == Nodes[index]
      requires Nodes[index].next == if index + 1 < |Nodes| then Nodes[index + 1] else null
      modifies this, prev
      ensures Bypassing(index)
    {
      ghost var nodes, contents := RemoveAt(Nodes, index), RemoveAt(Contents, index);
      prev.next := prev.next.next;
      Nodes, Contents := nodes, contents;
    }

    /** The state change `Bypass` makes: the node at position `index` leaves
        `Nodes` and its value leaves `Contents`, its predecessor links to its
        successor, and no other link and no value changes. */
    twostate predicate Bypassing(index: int)
      reads this, Repr
    {
      0 < index < old(|Nodes|) == old(|Contents|) &&
      var prev := old(Nodes)[index - 1];
      var next := if index + 1 < old(|Nodes|) then old(Nodes)[index + 1] else null;
      prev in old(Repr) && Repr == old(Repr) && start == old(start) &&
      Nodes == RemoveAt(old(Nodes), index) && Contents == RemoveAt(old(Contents), index) &&
      prev.next == next &&
      (forall o: Node<T> {:trigger o.next} | o in old(Repr) && o != prev :: o.next == old(o.next)) &&
      (forall o: Node<T> {:trigger o.value} | o in old(Repr) :: o.value == old(o.value))
    }

    /** After `Bypass` removed the node at position `p.0`, the node at
        position `p.1` links to its new successor. */
    twostate lemma BypassedAt(p: (int, int))
      requires old(Valid()) && Bypassing(p.0) && 0 <= p.1 < |Nodes|
      ensures var i := p.1; Nodes[i] in Repr && Nodes[i].value == Contents[i]
      ensures var i := p.1; Nodes[i].next == if i == |Nodes| - 1 then null else Nodes[i + 1]
    {
      var (index, i) := p;
      if i < index - 1 {
        assert Nodes[i] == old(Nodes)[i];
        assert old(Nodes[i].next) == old(Nodes)[i + 1];
      } else if i >= index {
        assert Nodes[i] == old(Nodes)[i + 1];
        assert old(Nodes[i + 1].next) == old(if i + 1 == |Nodes| - 1 then null else Nodes[i + 2]);
      }
    }

    /** What `Bypass` leaves behind is a valid list. */
    twostate lemma BypassKeepsValid(index: int)
      requires old(Valid()) && Bypassing(index)
      ensures Valid()
    {
      DistinctRemoveAt(old(Nodes), index);
      forall i | 0 <= i < |Nodes|
        ensures Nodes[i] in Repr && Nodes[i].value == Contents[i]
        ensures Nodes[i].next == if i == |Nodes| - 1 then null else Nodes[i + 1]
      {
        BypassedAt((index, i));
      }
    }

    /** The insertion inside `AddIndex`: a new node holding `item` is linked
        in after `prev`, the node at position `index - 1`. Only the nodes it
        touches matter here; `LinkAfterKeepsValid` shows the result is a
        valid list. */
    method LinkAfter(prev: Node<T>, index: int, item: T)
      requires this in Repr && 0 < index <= |Nodes| == |Contents|
      requires prev == Nodes[index - 1] && prev in Repr
      requires prev.next == if index < |Nodes| then Nodes[index] else null
      modifies this, prev
      ensures LinkingAfter(index) && fresh(Nodes[index]) && Nodes[index].value == item
    {
      var node := new Node(item, prev.next);
      prev.next := node;
      Nodes, Contents := InsertAt(Nodes, index, node), InsertAt(Contents, index, item);
      Repr := Repr + {node};
    }

    /** The state change `LinkAfter` makes: a node from outside the list
        enters `Nodes` at position `index` and its value enters `Contents`
        there, its predecessor links to it and it to the old successor, and
        no other link and no other value changes. */
    twostate predicate LinkingAfter(index: int)
      reads this, Repr
    {
      0 < index <= old(|Nodes|) == old(|Contents|) && |Nodes| == old(|Nodes|) + 1 &&
      var prev, node := old(Nodes)[index - 1], Nodes[index];
      var next := if index < old(|Nodes|) then old(Nodes)[index] else null;
      node !in old(Repr) && Repr == old(Repr) + {node} &&
      prev in old(Repr) && start == old(start) &&
      Nodes == InsertAt(old(Nodes), index, node) &&
      Contents == InsertAt(old(Contents), index, node.value) &&
      prev.next == node && node.next == next &&
      (forall o: Node<T> {:trigger o.next} | o in old(Repr) && o != prev :: o.next == old(o.next)) &&
      (forall o: Node<T> {:trigger o.value} | o in old(Repr) :: o.value == old(o.value))
    }

    /** After `LinkAfter` put a node at position `p.0`, the node at position
        `p.1` links to its new successor. */
    twostate lemma LinkedAfterAt(p: (int, int))
      requires old(Valid()) && LinkingAfter(p.0) && 0 <= p.1 < |Nodes|
      ensures var i := p.1; Nodes[i] in Repr && Nodes[i].value == Contents[i]
      ensures var i := p.1; Nodes[i].next == if i == |Nodes| - 1 then null else Nodes[i + 1]
    {
      var (index, i) := p;
      if i < index - 1 {
        assert Nodes[i] == old(Nodes)[i];
        assert old(Nodes[i].next) == old(Nodes)[i + 1];
      } else if i == index - 1 {
      } else if i == index {
        assert old(Nodes[i - 1].next) == old(if i == |Nodes| then null else Nodes[i]);
      } else {
        assert Nodes[i] == old(Nodes)[i - 1];
        assert old(Nodes[i - 1].next) == old(if i == |Nodes| then null else Nodes[i]);
      }
    }

    /** What `LinkAfter` leaves behind is a valid list. */
    twostate lemma LinkAfterKeepsValid(index: int)
      requires old(Valid()) && LinkingAfter(index)
      ensures Valid()
    {
      DistinctInsertAt(old(Nodes), index, Nodes[index]);
      forall i | 0 <= i < |Nodes|
        ensures Nodes[i] in Repr && Nodes[i].value == Contents[i]
        ensures Nodes[i].next == if i == |Nodes| - 1 then null else Nodes[i + 1]
      {
        LinkedAfterAt((index, i));
      }
    }

    method GetFront() returns (r: Outcome<T>)
      requires Valid()
      ensures r == if Contents == [] then EmptyList else Ok(Contents[0])
    {
      var empty := IsEmpty();
      if empty {
        return EmptyList;
      }
      return Ok(start.value);
    }

    method GetBack() returns (r: Outcome<T>)
      requires Valid()
      ensures r == if Contents == [] then EmptyList else Ok(Contents[|Contents| - 1])
    {
      var empty := IsEmpty();
      if empty {
        return EmptyList;
      }
      // The walk visits `start` first, so this first value is always replaced.
      var lastValue := start.value;
      var n := start;
      ghost var at := 0;
      while n != null
        invariant 0 <= at <= |Nodes|
        invariant n == if at < |Nodes| then Nodes[at] else null
        invariant 0 < at ==> lastValue == Contents[at - 1]
        decreases |Nodes| - at
      {
        NextAt(at);
        lastValue := n.value;
        n := n.next;
        at := at + 1;
      }
      return Ok(lastValue);
    }

    method GetIndex(index: int) returns (r: Outcome<T>)
      requires Valid()
      ensures Contents == [] ==> r == EmptyList
      ensures Contents != [] && !(0 <= index < |Contents|) ==> r == BadIndex(index)
      ensures 0 <= index < |Contents| ==> r == Ok(Contents[index])
    {
      var empty := IsEmpty();
      if empty {
        return EmptyList;
      }
      var found := GetNode(index);
      if !found.Ok? {
        return BadIndex(found.index);
      }
      return Ok(found.value.value);
    }

    method SetIndex(index: int, value: T) returns (r: Outcome<()>)
      requires Valid()
      modifies Repr
      ensures Valid() && Repr == old(Repr) && Nodes == old(Nodes)
      ensures old(Contents) == [] ==> r == EmptyList && unchanged(old(Repr))
      ensures old(Contents) != [] && !(0 <= index < old(|Contents|)) ==>
                r == BadIndex(index) && unchanged(old(Repr))
      ensures 0 <= index < old(|Contents|) ==>
                r == Ok(()) && Contents == old(Contents)[index := value]
    {
      var empty := IsEmpty();
      if empty {
        return EmptyList;
      }
      var found := GetNode(index);
      if !found.Ok? {
        return BadIndex(found.index);
      }
      found.value.value := value;
      Contents := Contents[index := value];
      forall i | 0 <= i < |Nodes|
        ensures Nodes[i].next == if i == |Nodes| - 1 then null else Nodes[i + 1]
      {
        assert old(Nodes[i].next) == old(if i == |Nodes| - 1 then null else Nodes[i + 1]);
      }
      return Ok(());
    }

    /** The number of nodes reachable from `start`. */
    method Size() returns (count: int)
      requires Valid()
      ensures count == |Contents|
    {
      count := 0;
      var n := start;
      while n != null
        invariant 0 <= count <= |Nodes|
        invariant n == if count < |Nodes| then Nodes[count] else null
        decreases |Nodes| - count
      {
        NextAt(count);
        count := count + 1;
        n := n.next;
      }
    }

    method IsEmpty() returns (empty: bool)
      requires Valid()
      ensures empty <==> Contents == []
      ensures empty <==> start == null
    {
      empty := start == null;
    }
  }
}
