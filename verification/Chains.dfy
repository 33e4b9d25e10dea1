/** A singly linked list with removal while walking. src/conf.c. */
module Chains {
  /** The items that do not match. */
  function Kept<T>(items: seq<T>, del: T -> bool): seq<T> {
    if items == [] then []
    else if del(items[0]) then Kept(items[1..], del)
    else [items[0]] + Kept(items[1..], del)
  }

  /**
   What the removal loop leaves linked. It unlinks an item through the item before it, so matching
   items that stand at the very front stay in the list although they have been freed.
   */
  function Purged<T>(items: seq<T>, del: T -> bool): seq<T> {
    if items == [] then []
    else if del(items[0]) then [items[0]] + Purged(items[1..], del)
    else Kept(items, del)
  }

  lemma {:induction false} KeptClean<T>(items: seq<T>, del: T -> bool)
    ensures forall i :: 0 <= i < |Kept(items, del)| ==> !del(Kept(items, del)[i])
  {
    if items != [] {
      KeptClean(items[1..], del);
    }
  }

  /** What is left is what should be left exactly when no matching item stands at the front. */
  lemma PurgedExactly<T>(items: seq<T>, del: T -> bool)
    ensures Purged(items, del) == Kept(items, del) <==> items == [] || !del(items[0])
    ensures (forall i :: 0 <= i < |Purged(items, del)| ==> !del(Purged(items, del)[i])) <==>
      items == [] || !del(items[0])
  {
    KeptClean(items, del);
    if items != [] && del(items[0]) {
      assert Purged(items, del)[0] == items[0];
    }
  }

  /** What will be left of a list when the removal loop stands at position i. */
  function Left<T>(items: seq<T>, i: nat, leading: bool, del: T -> bool): seq<T>
    requires i <= |items|
  {
    items[..i] + if leading then Purged(items[i..], del) else Kept(items[i..], del)
  }

  lemma LeftDone<T>(items: seq<T>, leading: bool, del: T -> bool)
    ensures Left(items, |items|, leading, del) == items
  {
  }

  lemma LeftKeep<T>(items: seq<T>, i: nat, leading: bool, del: T -> bool)
    requires i < |items| && !del(items[i])
    ensures Left(items, i, leading, del) == Left(items, i + 1, false, del)
  {
    assert items[i..][1..] == items[i + 1..];
    assert items[..i + 1] == items[..i] + [items[i]];
  }

  lemma LeftLead<T>(items: seq<T>, i: nat, del: T -> bool)
    requires i < |items| && del(items[i])
    ensures Left(items, i, true, del) == Left(items, i + 1, true, del)
  {
    assert items[i..][1..] == items[i + 1..];
    assert items[..i + 1] == items[..i] + [items[i]];
  }

  lemma LeftDrop<T>(items: seq<T>, i: nat, del: T -> bool)
    requires i < |items| && del(items[i])
    ensures Left(items, i, false, del) == Left(Without(items, i), i, false, del)
  {
    assert items[i..][1..] == items[i + 1..];
    assert Without(items, i)[..i] == items[..i] && Without(items, i)[i..] == items[i + 1..];
  }

  function Without<T>(s: seq<T>, i: nat): seq<T>
    requires i < |s|
  {
    s[..i] + s[i + 1..]
  }

  /** Of the linked nodes, exactly the matching ones before position i have been freed. */
  ghost predicate FreedUpTo<T>(items: seq<T>, freed: seq<bool>, i: nat, del: T -> bool) {
    |items| == |freed| && forall k :: 0 <= k < |items| ==> (freed[k] <==> k < i && del(items[k]))
  }

  function NoneFreed(n: nat): seq<bool> {
    seq(n, _ => false)
  }

  lemma FreedExactly<T>(was: seq<T>, freed: seq<bool>, del: T -> bool)
    requires FreedUpTo(Purged(was, del), freed, |freed|, del)
    ensures true !in freed <==> was == [] || !del(was[0])
  {
    PurgedExactly(was, del);
  }

  class Node<T> {
    var item: T
    var next: Node?<T>

    constructor (item: T, next: Node?<T>)
      ensures this.item == item && this.next == next
    {
      this.item, this.next := item, next;
    }
  }

  /** The node at a position of the chain, or null past its end. */
  function At<T>(nodes: seq<Node<T>>, i: nat): Node?<T> {
    if i < |nodes| then nodes[i] else null
  }

  ghost predicate Linked<T>(nodes: seq<Node<T>>)
    reads nodes
  {
    && (forall i, j :: 0 <= i < j < |nodes| ==> nodes[i] != nodes[j] && (j == i + 1 ==> nodes[i].next == nodes[j]))
    && (nodes != [] ==> nodes[|nodes| - 1].next == null)
  }

  class Chain<T> {
    var head: Node?<T>
    ghost var nodes: seq<Node<T>>
    ghost var items: seq<T>
    ghost var repr: set<Node<T>>

    ghost predicate Valid()
      reads this, repr
    {
      && |items| == |nodes|
      && (forall i :: 0 <= i < |nodes| ==> nodes[i] in repr && nodes[i].item == items[i])
      && head == At(nodes, 0) && Linked(nodes)
    }

    constructor ()
      ensures Valid() && fresh(repr) && items == []
    {
      head, nodes, items, repr := null, [], [], {};
    }

    /** add_config_item. */
    method Prepend(item: T)
      requires Valid()
      modifies this
      ensures Valid() && fresh(repr - old(repr)) && items == [item] + old(items)
    {
      var node := new Node(item, head);
      head := node;
      nodes, items, repr := [node] + nodes, [item] + items, repr + {node};
    }

    /** Changes the item of one node. */
    method Set(cp: Node<T>, item: T, ghost i: nat)
      requires Valid() && i < |nodes| && cp == nodes[i]
      modifies this`items, cp`item
      ensures Valid() && items == old(items)[i := item]
    {
      cp.item := item;
      items := items[i := item];
    }

    /** Takes the node at position i out of the chain, through the node before it. */
    method Unlink(prev: Node<T>, cp: Node<T>, ghost i: nat)
      requires Valid() && 0 < i < |nodes| && prev == nodes[i - 1] && cp == nodes[i]
      modifies this`nodes, this`items, prev`next
      ensures Valid() && nodes == Without(old(nodes), i) && items == Without(old(items), i)
      ensures At(nodes, i) == cp.next
    {
      assert cp.next == At(nodes, i + 1);
      prev.next := cp.next;
      nodes, items := Without(nodes, i), Without(items, i);
    }

    /** The removal loop stands at position i and will leave the given items. */
    ghost predicate Scanning(prev: Node?<T>, cp: Node?<T>, i: nat, freed: seq<bool>, del: T -> bool, left: seq<T>)
      reads this, repr
    {
      && Valid() && i <= |nodes| && cp == At(nodes, i) && (prev != null ==> i > 0 && prev == nodes[i - 1])
      && Left(items, i, prev == null, del) == left && FreedUpTo(items, freed, i, del)
    }

    /** A turn of the removal loop that deletes. */
    method Drop(prev: Node?<T>, cp: Node<T>, ghost i: nat, ghost freed: seq<bool>, ghost del: T -> bool,
                ghost left: seq<T>)
      returns (ghost i': nat, ghost freed': seq<bool>)
      requires Scanning(prev, cp, i, freed, del, left) && del(cp.item)
      modifies this`nodes, this`items, if prev == null then {} else {prev}
      ensures Scanning(prev, cp.next, i', freed', del, left) && |nodes| - i' < old(|nodes|) - i
    {
      if prev != null {
        LeftDrop(items, i, del);
        Unlink(prev, cp, i);
        i', freed' := i, Without(freed, i);
      } else {
        LeftLead(items, i, del);
        i', freed' := i + 1, freed[i := true];
      }
    }

    /** A turn that does not delete. */
    lemma Pass(prev: Node?<T>, cp: Node<T>, i: nat, freed: seq<bool>, del: T -> bool, left: seq<T>)
      requires Scanning(prev, cp, i, freed, del, left) && !del(cp.item)
      ensures Scanning(cp, cp.next, i + 1, freed, del, left) && i < |nodes|
    {
      LeftKeep(items, i, prev == null, del);
    }

    /** The first loop of record_config_item. */
    method Sweep(del: T -> bool, ghost left: seq<T>) returns (ghost freed: seq<bool>)
      requires Scanning(null, head, 0, NoneFreed(|items|), del, left)
      modifies this, repr
      ensures Valid() && repr == old(repr) && items == left && FreedUpTo(items, freed, |freed|, del)
    {
      var cp, prev: Node?<T> := head, null;
      ghost var i: nat := 0;
      freed := NoneFreed(|items|);
      while cp != null
        invariant Scanning(prev, cp, i, freed, del, left) && repr == old(repr)
        decreases |nodes| - i
      {
        if del(cp.item) {
          i, freed := Drop(prev, cp, i, freed, del, left);
          cp := cp.next;
        } else {
          Pass(prev, cp, i, freed, del, left);
          prev := cp;
          cp := cp.next;
          i := i + 1;
        }
      }
      LeftDone(items, prev == null, del);
    }

    /** Frees the matching items and unlinks those it can. */
    method Remove(del: T -> bool) returns (ghost freed: seq<bool>)
      requires Valid()
      modifies this, repr
      ensures Valid() && repr == old(repr) && items == Purged(old(items), del) && |freed| == |items|
      ensures true !in freed <==> old(items) == [] || !del(old(items)[0])
    {
      freed := Sweep(del, Purged(items, del));
      FreedExactly(old(items), freed, del);
    }
  }
}
