// Linked lists: `List` and `SortedList`. The items are thread identifiers.

module LinkedLists {
  import opened Sequences
  import opened Options

  /** Where a sorted insert puts an item of priority p: before the first item behind i
      that has a greater priority number, or at the end. */
  function InsertPos(prio: map<nat, int>, xs: seq<nat>, p: int, i: nat): (k: nat)
    requires i <= |xs| && forall x :: x in xs ==> x in prio
    ensures i <= k <= |xs|
    ensures forall j :: i <= j < k ==> prio[xs[j]] <= p
    ensures k < |xs| ==> p < prio[xs[k]]
    decreases |xs| - i
  {
    if i == |xs| || p < prio[xs[i]] then i else InsertPos(prio, xs, p, i + 1)
  }

  function Inserted(prio: map<nat, int>, xs: seq<nat>, t: nat): seq<nat>
    requires t in prio && forall x :: x in xs ==> x in prio
  {
    var k := InsertPos(prio, xs, prio[t], 0);
    xs[..k] + [t] + xs[k..]
  }

  class ListElement {
    var next: ListElement?
    const item: nat

    constructor (item: nat)
      ensures this.item == item && next == null
    {
      this.item := item;
      next := null;
    }
  }

  lemma DistinctInsert(ns: seq<ListElement>, e: ListElement, k: nat)
    requires Distinct(ns) && e !in ns && k <= |ns|
    ensures Distinct(ns[..k] + [e] + ns[k..])
  {
  }

  class SortedList {
    var first: ListElement?
    var last: ListElement?
    ghost var nodes: seq<ListElement>

    /** The elements are chained from `first` to `last`. */
    ghost predicate Valid()
      reads this, nodes
    {
      && Distinct(nodes)
      && (forall i, j :: 0 <= i < j < |nodes| && j == i + 1 ==> nodes[i].next == nodes[j])
      && (nodes != [] ==> nodes[|nodes| - 1].next == null)
      && first == (if nodes == [] then null else nodes[0])
      && last == (if nodes == [] then null else nodes[|nodes| - 1])
    }

    ghost function Contents(): (xs: seq<nat>)
      reads this
      ensures |xs| == |nodes|
    {
      seq(|nodes|, i requires 0 <= i < |nodes| reads this => nodes[i].item)
    }

    constructor ()
      ensures Valid() && Contents() == [] && nodes == []
    {
      first, last, nodes := null, null, [];
    }

    method Append(item: nat)
      requires Valid()
      modifies this, nodes
      ensures Valid() && Contents() == old(Contents()) + [item]
      ensures forall n :: n in nodes ==> n in old(nodes) || fresh(n)
    {
      var element := new ListElement(item);
      if first == null {
        first := element;
      } else {
        last.next := element;
      }
      last := element;
      nodes := nodes + [element];
    }

    method Remove() returns (thing: Option<nat>)
      requires Valid()
      modifies this
      ensures Valid()
      ensures thing == (if old(Contents()) == [] then None else Some(old(Contents())[0]))
      ensures Contents() == (if old(Contents()) == [] then [] else old(Contents())[1..])
      ensures forall n :: n in nodes ==> n in old(nodes)
    {
      if first == null {
        return None;
      }
      thing := Some(first.item);
      if first == last {
        assert nodes[0] == nodes[|nodes| - 1];
        first, last := null, null;
      } else {
        first := first.next;
      }
      ghost var ns := nodes;
      nodes := nodes[1..];
      assert forall i :: 0 <= i < |nodes| ==> nodes[i] == ns[i + 1];
    }

    method Prepend(item: nat)
      requires Valid()
      modifies this
      ensures Valid() && Contents() == [item] + old(Contents())
      ensures forall n :: n in nodes ==> n in old(nodes) || fresh(n)
    {
      var element := new ListElement(item);
      if first == null {
        last := element;
      } else {
        element.next := first;
      }
      first := element;
      ghost var ns := nodes;
      nodes := [element] + nodes;
      assert forall i :: 1 <= i < |nodes| ==> nodes[i] == ns[i - 1];
    }

    /** Links a new element behind `ptr`, which is not the last. */
    method InsertAfter(ptr: ListElement, item: nat, ghost i: nat)
      requires Valid() && i + 1 < |nodes| && ptr == nodes[i]
      modifies this, nodes
      ensures Valid() && Contents() == old(Contents())[..i + 1] + [item] + old(Contents())[i + 1..]
      ensures forall n :: n in nodes ==> n in old(nodes) || fresh(n)
    {
      ghost var ns, xs := nodes, Contents();
      var element := new ListElement(item);
      element.next := ptr.next;
      ptr.next := element;
      nodes := nodes[..i + 1] + [element] + nodes[i + 1..];
      DistinctInsert(ns, element, i + 1);
      forall j, k | 0 <= j < k < |nodes| && k == j + 1 ensures nodes[j].next == nodes[k] {
        assert ns[i].next == element && element.next == ns[i + 1];
        if j < i {
          assert nodes[j] == ns[j] && nodes[k] == ns[k];
        } else if j > i + 1 {
          assert nodes[j] == ns[j - 1] && nodes[k] == ns[k - 1];
        }
      }
      assert Contents() == xs[..i + 1] + [item] + xs[i + 1..];
    }

    /** Walks to the place behind all items that are not greater. */
    method Insert(item: nat, prio: map<nat, int>)
      requires Valid() && item in prio && forall x :: x in Contents() ==> x in prio
      modifies this, nodes
      ensures Valid() && Contents() == Inserted(prio, old(Contents()), item)
      ensures forall n :: n in nodes ==> n in old(nodes) || fresh(n)
    {
      ghost var xs, p := Contents(), prio[item];
      if first == null {
        Prepend(item);
        return;
      }
      assert first.item == xs[0] && xs[0] in xs;
      if prio[item] < prio[first.item] {
        Prepend(item);
        return;
      }
      var ptr := first;
      ghost var i := 0;
      while ptr.next != null
        invariant Valid() && nodes == old(nodes) && Contents() == xs
        invariant 0 <= i < |nodes| && ptr == nodes[i]
        invariant InsertPos(prio, xs, p, 0) == InsertPos(prio, xs, p, i + 1)
        decreases |nodes| - i
      {
        assert ptr.next == nodes[i + 1] && xs[i + 1] == nodes[i + 1].item && xs[i + 1] in xs;
        if prio[item] < prio[ptr.next.item] {
          InsertAfter(ptr, item, i);
          return;
        }
        ptr := ptr.next;
        i := i + 1;
      }
      Append(item);
    }
  }
}
