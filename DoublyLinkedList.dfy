/**
 * The doubly-linked list: a chain of nodes linked both ways, with a
 * reference to its first node (`start`) and to its last node (`end`).
 */
module DoublyLinked {
  import opened ListSpec

  /** A node of the chain: one value and its links to the nodes before and
      after it. */
  class Node<T> {
    var before: Node?<T>
    var after: Node?<T>
    var value: T

    /** A node with no neighbours. */
    constructor (value: T)
      ensures this.value == value && before == null && after == null
    {
      this.value := value;
      before := null;
      after := null;
    }
  }

  class DoublyLinkedList<T> {
    var start: Node?<T>
    var end: Node?<T>

    /** The nodes of the chain, from `start` to `end`. */
    ghost var Nodes: seq<Node<T>>
    /** The list: the values of `Nodes`, in order. */
    ghost var Contents: seq<T>
    /** The objects the list is made of. */
    ghost var Repr: set<object>

    /** The representation invariant: `start` and `end` are the first and
        last of `Nodes`, which are pairwise distinct, each node's `before` and
        `after` are its neighbours in `Nodes` (null at either end), and the
        values of `Nodes` are `Contents`. */
    ghost predicate Valid()
      reads this, Repr
    {
      this in Repr &&
      (forall i :: 0 <= i < |Nodes| ==> Nodes[i] in Repr) &&
      |Nodes| == |Contents| &&
      (Nodes == [] ==> start == null && end == null) &&
      (Nodes != [] ==> start == Nodes[0] && end == Nodes[|Nodes| - 1]) &&
      (forall i :: 0 <= i < |Nodes| ==> Nodes[i].value == Contents[i]) &&
      (forall i {:trigger Nodes[i].before} :: 0 <= i < |Nodes| ==>
         Nodes[i].before == if i == 0 then null else Nodes[i - 1]) &&
      (forall i {:trigger Nodes[i].after} :: 0 <= i < |Nodes| ==>
         Nodes[i].after == if i == |Nodes| - 1 then null else Nodes[i + 1]) &&
      Distinct(Nodes)
    }

    /** The link invariant as the chain itself shows it: `start` is null
        exactly when `end` is, nothing comes before `start` or after `end`,
        and following `after` and then `before` leads back to the same node. */
    ghost predicate Linked()
      reads this, Repr
      requires Valid()
    {
      (start == null <==> end == null) &&
      (start != null ==> start.before == null) &&
      (end != null ==> end.after == null) &&
      forall i :: 0 <= i < |Nodes| && Nodes[i].after != null ==>
        Nodes[i].after in Repr && Nodes[i].after.before == Nodes[i]
    }

    /** Every valid list satisfies the link invariant, so every operation,
        which keeps `Valid()`, keeps the link invariant too. */
    lemma ValidIsLinked()
      requires Valid()
      ensures Linked()
    {
      if Nodes != [] {
        LinksAt(0);
        LinksAt(|Nodes| - 1);
      }
      forall i | 0 <= i < |Nodes| && Nodes[i].after != null
        ensures Nodes[i].after in Repr && Nodes[i].after.before == Nodes[i]
      {
        LinksAt(i);
        LinksAt(i + 1);
      }
    }

    /** The neighbours of the node at position `i`, read off `Valid()`. */
    lemma LinksAt(i: int)
      requires Valid() && 0 <= i < |Nodes|
      ensures Nodes[i].after == if i == |Nodes| - 1 then null else Nodes[i + 1]
      ensures Nodes[i].before == if i == 0 then null else Nodes[i - 1]
    {
    }

    /** A doubly-linked list starts empty. */
    constructor ()
      ensures Valid() && fresh(Repr)
      ensures Contents == [] && start == null && end == null
    {
      start := null;
      end := null;
      Nodes := [];
      Contents := [];
      Repr := {this};
    }

    method RemoveFront() returns (r: Outcome<T>)
      requires Valid()
      modifies Repr
      ensures Valid() && fresh(Repr - old(Repr))
      ensures old(Contents) == [] ==> r == EmptyList && unchanged(old(Repr))
      ensures old(Contents) != [] ==>
                r == Ok(old(Contents)[0]) && Contents == old(Contents)[1..]
      ensures old(|Contents|) == 1 ==> start == null && end == null
    {
      var empty := IsEmpty();
      if empty {
        return EmptyList;
      }
      LinksAt(0);
      var removed := start.value;
      var secondFront := start.after;
      if secondFront == null {
        assert |Nodes| == 1;
        start, end := null, null;
      } else {
        assert secondFront == Nodes[1];
        secondFront.before := null;
        start := secondFront;
      }
      DistinctSlice(Nodes, 1, |Nodes|);
      Nodes := Nodes[1..];
      Contents := Contents[1..];
      forall i | 0 <= i < |Nodes|
        ensures Nodes[i].before == if i == 0 then null else Nodes[i - 1]
      {
        assert Nodes[i] == old(Nodes)[i + 1];
        if i > 0 {
          assert old(Nodes[i + 1].before) == old(Nodes)[i];
        }
      }
      forall i | 0 <= i < |Nodes|
        ensures Nodes[i].after == if i == |Nodes| - 1 then null else Nodes[i + 1]
      {
        assert Nodes[i] == old(Nodes)[i + 1];
        assert old(Nodes[i + 1].after) == old(if i + 1 == |Nodes| - 1 then null else Nodes[i + 2]);
      }
      assert Valid();
      return Ok(removed);
    }

    method RemoveBack() returns (r: Outcome<T>)
      requires Valid()
      modifies Repr
      ensures Valid() && fresh(Repr - old(Repr))
      ensures old(Contents) == [] ==> r == EmptyList && unchanged(old(Repr))
      ensures old(Contents) != [] ==>
                r == Ok(old(Contents)[|old(Contents)| - 1]) &&
                Contents == old(Contents)[..|old(Contents)| - 1]
      ensures old(|Contents|) == 1 ==> start == null && end == null
    {
      var empty := IsEmpty();
      if empty {
        return EmptyList;
      }
      LinksAt(|Nodes| - 1);
      var removed := end.value;
      var secondLast := end.before;
      if secondLast == null {
        assert |Nodes| == 1;
        start, end := null, null;
      } else {
        assert secondLast == Nodes[|Nodes| - 2];
        secondLast.after := null;
        end := secondLast;
      }
      DistinctSlice(Nodes, 0, |Nodes| - 1);
      Nodes := Nodes[..|Nodes| - 1];
      Contents := Contents[..|Contents| - 1];
      forall i | 0 <= i < |Nodes|
        ensures Nodes[i].before == if i == 0 then null else Nodes[i - 1]
      {
        assert old(Nodes[i].before) == old(if i == 0 then null else Nodes[i - 1]);
      }
      forall i | 0 <= i < |Nodes|
        ensures Nodes[i].after == if i == |Nodes| - 1 then null else Nodes[i + 1]
      {
        if i < |Nodes| - 1 {
          assert old(Nodes[i].after) == old(Nodes)[i + 1];
        }
      }
      assert Valid();
      return Ok(removed);
    }

    method RemoveIndex(index: int) returns (r: Outcome<T>)
      requires Valid()
      modifies Repr
      ensures Valid() && fresh(Repr - old(Repr))
      ensures old(Contents) == [] ==> r == EmptyList && unchanged(old(Repr))
      ensures old(Contents) != [] && !(0 <= index < old(|Contents|)) ==>
                r == BadIndex(index) && unchanged(old(Repr))
      ensures 0 <= index < old(|Contents|) ==>
                r == Ok(old(Contents)[index]) && Contents == RemoveAt(old(Contents), index)
    {
      var empty := IsEmpty();
      if empty {
        return EmptyList;
      }
      if index == 0 {
        r := RemoveFront();
        return;
      }
      var at := 0;
      var n := start;
      while n != null
        invariant Valid() && unchanged(old(Repr))
        invariant 0 <= at <= |Nodes|
        invariant n == if at < |Nodes| then Nodes[at] else null
        decreases |Nodes| - at
        invariant index < 0 || at <= index
      {
        if at == index {
          var removed := n.value;
          Unlink(n, index);
          return Ok(removed);
        }
        LinksAt(at);
        at := at + 1;
        n := n.after;
      }
      return BadIndex(index);
    }

    method AddFront(item: T)
      requires Valid()
      modifies Repr
      ensures Valid() && fresh(Repr - old(Repr))
      ensures Contents == [item] + old(Contents)
      ensures old(Contents) == [] ==> start == end
    {
      assert Nodes != [] ==> Nodes[|Nodes| - 1].after == null;
      var node := new Node(item);
      if start == null {
        start, end := node, node;
      } else {
        var secondFront := start;
        start := node;
        start.after := secondFront;
        secondFront.before := start;
      }
      DistinctEnds(Nodes, node);
      Nodes := [node] + Nodes;
      Contents := [item] + Contents;
      Repr := Repr + {node};
      forall i | 1 <= i < |Nodes|
        ensures Nodes[i].before == Nodes[i - 1]
      {
        assert Nodes[i] == old(Nodes)[i - 1];
        if i > 1 {
          assert old(Nodes[i - 1].before) == old(Nodes)[i - 2];
        }
      }
      forall i | 1 <= i < |Nodes|
        ensures Nodes[i].after == if i == |Nodes| - 1 then null else Nodes[i + 1]
      {
        assert Nodes[i] == old(Nodes)[i - 1];
        if i < |Nodes| - 1 {
          assert old(Nodes[i - 1].after) == old(Nodes)[i];
        } else {
          assert old(Nodes[i - 1].after) == null;
        }
      }
      assert Valid();
    }

    method AddBack(item: T)
      requires Valid()
      modifies Repr
      ensures Valid() && fresh(Repr - old(Repr))
      ensures Contents == old(Contents) + [item]
      ensures old(Contents) == [] ==> start == end
    {
      var node := new Node(item);
      if end == null {
        start, end := node, node;
      } else {
        var secondLast := end;
        end := node;
        end.before := secondLast;
        secondLast.after := end;
      }
      DistinctEnds(Nodes, node);
      Nodes := Nodes + [node];
      Contents := Contents + [item];
      Repr := Repr + {node};
      forall i | 0 <= i < |Nodes| - 1
        ensures Nodes[i].before == if i == 0 then null else Nodes[i - 1]
      {
        assert Nodes[i] == old(Nodes)[i];
        assert old(Nodes[i].before) == old(if i == 0 then null else Nodes[i - 1]);
      }
      forall i | 0 <= i < |Nodes| - 1
        ensures Nodes[i].after == Nodes[i + 1]
      {
        assert Nodes[i] == old(Nodes)[i];
        assert old(Nodes[i].after) == old(if i == |Nodes| - 1 then null else Nodes[i + 1]);
      }
      assert Valid();
    }

    method AddIndex(index: int, item: T) returns (r: Outcome<()>)
      requires Valid()
      modifies Repr
      ensures Valid() && fresh(Repr - old(Repr))
      ensures r.Ok? <==> 0 <= index <= old(|Contents|)
      ensures !r.Ok? ==> r == BadIndex(index) && unchanged(old(Repr))
      ensures r.Ok? ==> Contents == InsertAt(old(Contents), index, item)
    {
      var toAdd := new Node(item);
      if index == 0 {
        AddFront(item);
        return Ok(());
      }
      var at := 0;
      var n := start;
      while n != null
        invariant 0 <= at <= |Nodes|
        invariant n == if at < |Nodes| then Nodes[at] else null
        invariant index < 0 || at < index
        decreases |Nodes| - at
        modifies {}
      {
        LinksAt(at);
        at := at + 1;
        if at == index {
          break;
        }
        n := n.after;
      }
      if n == null {
        return BadIndex(index);
      }
      label Linking:
      LinkAfter(n, index, toAdd);
      LinkAfterKeepsValid@Linking(index);
      return Ok(());
    }

    /** The splice inside `RemoveIndex`: the node `n` at position `index`,
        which is not the first, is bypassed by both of its neighbours. */
    method Unlink(n: Node<T>, index: int)
      requires Valid() && 0 < index < |Nodes| && n == Nodes[index]
      modifies Repr
      ensures Valid() && Repr == old(Repr)
      ensures Nodes == RemoveAt(old(Nodes), index)
      ensures Contents == RemoveAt(old(Contents), index)
    {
      LinksAt(index);
      ghost var nodes, contents := RemoveAt(Nodes, index), RemoveAt(Contents, index);
      n.before.after := n.after;
      if n.after == null {
        end := n.before;
      } else {
        n.after.before := n.before;
      }
      Nodes, Contents := nodes, contents;
      UnlinkKeepsValid(index);
    }

    /** The state change `Unlink` makes: the node at position `index` leaves
        `Nodes` and `Contents`, the node before it now leads to the node after
        it and back, `end` moves back if the last node went, and no other link
        and no value changes. */
    twostate predicate Unlinking(index: int)
      reads this, Repr
    {
      old(Valid()) && 0 < index < old(|Nodes|) &&
      var prev := old(Nodes)[index - 1];
      var next := if index + 1 < old(|Nodes|) then old(Nodes)[index + 1] else null;
      Nodes == RemoveAt(old(Nodes), index) && Contents == RemoveAt(old(Contents), index) &&
      Repr == old(Repr) && start == old(start) &&
      end == (if next == null then prev else old(end)) &&
      prev.after == next && (next != null ==> next.before == prev) &&
      (forall o: Node<T> {:trigger o.after} | o in old(Repr) && o != prev :: o.after == old(o.after)) &&
      (forall o: Node<T> {:trigger o.before} | o in old(Repr) && o != next :: o.before == old(o.before)) &&
      (forall o: Node<T> {:trigger o.value} | o in old(Repr) :: o.value == old(o.value))
    }

    /** After `Unlink` removed the node at position `p.0`, the node at
        position `p.1` links to its new neighbours. (One tuple parameter:
        the two positions travel together.) */
    twostate lemma UnlinkedAt(p: (int, int))
      requires Unlinking(p.0) && 0 <= p.1 < |Nodes|
      ensures var i := p.1; Nodes[i] in Repr && Nodes[i].value == Contents[i]
      ensures var i := p.1; Nodes[i].before == if i == 0 then null else Nodes[i - 1]
      ensures var i := p.1; Nodes[i].after == if i == |Nodes| - 1 then null else Nodes[i + 1]
    {
      var (index, i) := p;
      if i < index - 1 {
        assert Nodes[i] == old(Nodes)[i];
        assert old(Nodes[i].after) == old(Nodes)[i + 1];
        assert old(Nodes[i].before) == old(if i == 0 then null else Nodes[i - 1]);
      } else if i == index - 1 {
        assert old(Nodes[i].before) == old(if i == 0 then null else Nodes[i - 1]);
      } else if i == index {
        assert Nodes[i] == old(Nodes)[i + 1];
        assert old(Nodes[i + 1].after) == old(if i + 1 == |Nodes| - 1 then null else Nodes[i + 2]);
      } else {
        assert Nodes[i] == old(Nodes)[i + 1];
        assert old(Nodes[i + 1].after) == old(if i + 1 == |Nodes| - 1 then null else Nodes[i + 2]);
        assert old(Nodes[i + 1].before) == old(Nodes)[i];
      }
    }

    /** What `Unlink` leaves behind is a valid list. */
    twostate lemma UnlinkKeepsValid(index: int)
      requires Unlinking(index)
      ensures Valid()
    {
      DistinctRemoveAt(old(Nodes), index);
      forall i | 0 <= i < |Nodes|
        ensures Nodes[i] in Repr && Nodes[i].value == Contents[i]
        ensures Nodes[i].before == if i == 0 then null else Nodes[i - 1]
        ensures Nodes[i].after == if i == |Nodes| - 1 then null else Nodes[i + 1]
      {
        UnlinkedAt((index, i));
      }
    }

    /** The splice inside `AddIndex`: the new node `toAdd`, already pointing
        back to `n` (the node at position `index - 1`) and forward to its
        successor, is linked in between them. Only the nodes it touches
        matter here; `LinkAfterKeepsValid` shows the result is a valid list. */
    method LinkAfter(n: Node<T>, index: int, toAdd: Node<T>)
      requires this in Repr && 0 < index <= |Nodes| == |Contents|
      requires n == Nodes[index - 1] && n in Repr
      requires n.after == (if index < |Nodes| then Nodes[index] else null)
      requires n.after != null ==> n.after in Repr
      requires toAdd !in Repr
      modifies Repr, toAdd
      ensures LinkingAfter(index) && Nodes[index] == toAdd && toAdd.value == old(toAdd.value)
    {
      ghost var nodes, contents := InsertAt(Nodes, index, toAdd), InsertAt(Contents, index, toAdd.value);
      var atIndex := n.after;
      toAdd.before := n;
      toAdd.after := atIndex;
      n.after := toAdd;
      if atIndex == null {
        end := toAdd;
      } else {
        atIndex.before := toAdd;
      }
      Nodes, Contents := nodes, contents;
      Repr := Repr + {toAdd};
    }

    /** The state change `LinkAfter` makes: a node from outside the list
        enters `Nodes` at position `index` and its value enters `Contents`
        there, the nodes on either side of it link to it and it to them,
        `end` moves to it if it is the last, and no other link and no other
        value changes. */
    twostate predicate LinkingAfter(index: int)
      reads this, Repr
    {
      0 < index <= old(|Nodes|) == old(|Contents|) && |Nodes| == old(|Nodes|) + 1 &&
      var prev, node := old(Nodes)[index - 1], Nodes[index];
      var next := if index < old(|Nodes|) then old(Nodes)[index] else null;
      node !in old(Repr) && Repr == old(Repr) + {node} &&
      prev in old(Repr) && (next != null ==> next in old(Repr)) &&
      Nodes == InsertAt(old(Nodes), index, node) &&
      Contents == InsertAt(old(Contents), index, node.value) &&
      start == old(start) &&
      end == (if next == null then node else old(end)) &&
      prev.after == node && node.before == prev && node.after == next &&
      (next != null ==> next.before == node) &&
      (forall o: Node<T> {:trigger o.after} | o in old(Repr) && o != prev :: o.after == old(o.after)) &&
      (forall o: Node<T> {:trigger o.before} | o in old(Repr) && o != next :: o.before == old(o.before)) &&
      (forall o: Node<T> {:trigger o.value} | o in old(Repr) :: o.value == old(o.value))
    }

    /** After `LinkAfter` put a node at position `p.0`, the node at position
        `p.1` links to its new neighbours. */
    twostate lemma LinkedAfterAt(p: (int, int))
      requires old(Valid()) && LinkingAfter(p.0) && 0 <= p.1 < |Nodes|
      ensures var i := p.1; Nodes[i] in Repr && Nodes[i].value == Contents[i]
      ensures var i := p.1; Nodes[i].before == if i == 0 then null else Nodes[i - 1]
      ensures var i := p.1; Nodes[i].after == if i == |Nodes| - 1 then null else Nodes[i + 1]
    {
      var (index, i) := p;
      if i < index - 1 {
        assert Nodes[i] == old(Nodes)[i];
        assert old(Nodes[i].after) == old(Nodes)[i + 1];
        assert old(Nodes[i].before) == old(if i == 0 then null else Nodes[i - 1]);
      } else if i == index - 1 {
        assert old(Nodes[i].before) == old(if i == 0 then null else Nodes[i - 1]);
      } else if i == index {
        assert old(Nodes[i - 1].after) == old(if i == |Nodes| then null else Nodes[i]);
      } else if i == index + 1 {
        assert Nodes[i] == old(Nodes)[i - 1];
        assert old(Nodes[i - 1].after) == old(if i == |Nodes| then null else Nodes[i]);
      } else {
        assert Nodes[i] == old(Nodes)[i - 1];
        assert old(Nodes[i - 1].after) == old(if i == |Nodes| then null else Nodes[i]);
        assert old(Nodes[i - 1].before) == old(Nodes)[i - 2];
      }
    }

    /** What `LinkAfter` leaves behind is a valid list. */
    twostate lemma LinkAfterKeepsValid(index: int)
      requires old(Valid()) && LinkingAfter(index)
      ensures Valid()
    {
      DistinctInsertAt(old(Nodes), index, Nodes[index]);
      forall i | 0 <= i < |Nodes|
        ensures Nodes[i] in Repr && Nodes[i].value == Contents[i]
        ensures Nodes[i].before == if i == 0 then null else Nodes[i - 1]
        ensures Nodes[i].after == if i == |Nodes| - 1 then null else Nodes[i + 1]
      {
        LinkedAfterAt((index, i));
      }
    }

    method GetFront() returns (r: Outcome<T>)
      requires Valid()
      ensures r == if Contents == [] then EmptyList else Ok(Contents[0])
    {
      var empty := IsEmpty();
      if empty {
        return EmptyList;
      }
      return Ok(start.value);
    }

    method GetBack() returns (r: Outcome<T>)
      requires Valid()
      ensures r == if Contents == [] then EmptyList else Ok(Contents[|Contents| - 1])
    {
      var empty := IsEmpty();
      if empty {
        return EmptyList;
      }
      return Ok(end.value);
    }

    method GetIndex(index: int) returns (r: Outcome<T>)
      requires Valid()
      ensures Contents == [] ==> r == EmptyList
      ensures Contents != [] && !(0 <= index < |Contents|) ==> r == BadIndex(index)
      ensures 0 <= index < |Contents| ==> r == Ok(Contents[index])
    {
      var empty := IsEmpty();
      if empty {
        return EmptyList;
      }
      var at := 0;
      var n := start;
      while n != null
        invariant 0 <= at <= |Nodes|
        invariant n == if at < |Nodes| then Nodes[at] else null
        decreases |Nodes| - at
        invariant index < 0 || at <= index
      {
        if at == index {
          return Ok(n.value);
        }
        LinksAt(at);
        at := at + 1;
        n := n.after;
      }
      return BadIndex(index);
    }

    method SetIndex(index: int, value: T) returns (r: Outcome<()>)
      requires Valid()
      modifies Repr
      ensures Valid() && Repr == old(Repr) && Nodes == old(Nodes)
      ensures old(Contents) == [] ==> r == EmptyList && unchanged(old(Repr))
      ensures old(Contents) != [] && !(0 <= index < old(|Contents|)) ==>
                r == BadIndex(index) && unchanged(old(Repr))
      ensures 0 <= index < old(|Contents|) ==>
                r == Ok(()) && Contents == old(Contents)[index := value]
    {
      var empty := IsEmpty();
      if empty {
        return EmptyList;
      }
      var at := 0;
      var n := start;
      while n != null
        invariant Valid() && unchanged(old(Repr))
        invariant 0 <= at <= |Nodes|
        invariant n == if at < |Nodes| then Nodes[at] else null
        decreases |Nodes| - at
        invariant index < 0 || at <= index
      {
        if at == index {
          n.value := value;
          Contents := Contents[index := value];
          forall i | 0 <= i < |Nodes|
            ensures Nodes[i].before == if i == 0 then null else Nodes[i - 1]
            ensures Nodes[i].after == if i == |Nodes| - 1 then null else Nodes[i + 1]
          {
            assert old(Nodes[i].before) == old(if i == 0 then null else Nodes[i - 1]);
            assert old(Nodes[i].after) == old(if i == |Nodes| - 1 then null else Nodes[i + 1]);
          }
          assert Valid();
          return Ok(());
        }
        LinksAt(at);
        at := at + 1;
        n := n.after;
      }
      return BadIndex(index);
    }

    /** The number of nodes reachable from `start`. */
    method Size() returns (count: int)
      requires Valid()
      ensures count == |Contents|
    {
      count := 0;
      var n := start;
      while n != null
        invariant 0 <= count <= |Nodes|
        invariant n == if count < |Nodes| then Nodes[count] else null
        decreases |Nodes| - count
      {
        LinksAt(count);
        count := count + 1;
        n := n.after;
      }
    }

    method IsEmpty() returns (empty: bool)
      requires Valid()
      ensures empty <==> Contents == []
      ensures empty <==> start == null && end == null
    {
      empty := start == null && end == null;
    }
  }
}
