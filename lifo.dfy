/** The intrusive singly-linked LIFO structures: `Stack` of
    intruder-alarm/src/stack/mod.rs and the singly-linked `List` of
    intruder_alarm/src/singly/mod.rs. Both keep a link to the first node
    (`top` for the stack, `head` for the list) and a length, and push and
    pop at that end with the same code; `LifoList` models either. The ghost
    sequence `nodes` lists the nodes from the first to the last pushed. */
module Lifo {
  import opened Results

  /** A node that is `Linked`: an item and a link to the next node, a null
      reference playing the part of an empty `Link`. */
  class SNode<T> {
    var next: SNode?<T>
    var item: T

    /** A fresh, unlinked node. */
    constructor (item: T)
      ensures this.item == item && next == null
    {
      this.item := item;
      next := null;
    }

    /** `Linked::take_next`: returns the node's next link and leaves the
        node unlinked. */
    method TakeNext() returns (link: SNode?<T>)
      modifies this
      ensures link == old(next) && next == null && item == old(item)
    {
      link := next;
      next := null;
    }
  }

  /** Node `k` links to node `k + 1`, the last node to nothing. */
  ghost predicate Follows<T>(ns: seq<SNode<T>>, k: nat)
    reads ns
    requires k < |ns|
  {
    ns[k].next == if k + 1 < |ns| then ns[k + 1] else null
  }

  /** Each node links to the one after it, and the last to nothing. */
  ghost predicate Chained<T>(ns: seq<SNode<T>>)
    reads ns
  {
    forall k {:trigger Follows(ns, k)} :: 0 <= k < |ns| ==> Follows(ns, k)
  }

  /** No node occurs twice. */
  ghost predicate Unique<A>(s: seq<A>)
  {
    forall i, j :: 0 <= i < j < |s| ==> s[i] != s[j]
  }

  /** The elements of `s` in reverse order. */
  function Reverse<A>(s: seq<A>): (r: seq<A>)
    ensures |r| == |s|
    ensures forall k :: 0 <= k < |s| ==> r[k] == s[|s| - 1 - k]
  {
    if s == [] then [] else Reverse(s[1..]) + [s[0]]
  }

  /** Reversing a concatenation reverses the order of the parts: pushing
      `a` and then `b` leaves `b`'s nodes on top of `a`'s. */
  lemma {:induction false} ReverseAppend<A>(a: seq<A>, b: seq<A>)
    ensures Reverse(a + b) == Reverse(b) + Reverse(a)
    decreases |a|
  {
    if a == [] {
      assert a + b == b;
    } else {
      assert (a + b)[1..] == a[1..] + b;
      ReverseAppend(a[1..], b);
    }
  }

  /** Reversing twice gives the sequence back: popping a stack built from
      an iterator yields the items in the reverse of the iteration order. */
  lemma {:induction false} ReverseInvolutive<A>(s: seq<A>)
    ensures Reverse(Reverse(s)) == s
    decreases |s|
  {
    if s != [] {
      ReverseAppend(Reverse(s[1..]), [s[0]]);
      ReverseInvolutive(s[1..]);
      assert Reverse([s[0]]) == [s[0]];
      assert [s[0]] + s[1..] == s;
    }
  }

  /** The stack, or the singly-linked list. */
  class LifoList<T> {
    var head: SNode?<T>
    var len: nat
    ghost var nodes: seq<SNode<T>>

    ghost predicate Valid()
      reads this, nodes
    {
      && len == |nodes|
      && head == (if nodes == [] then null else nodes[0])
      && Chained(nodes)
      && Unique(nodes)
    }

    /** `new`: no nodes and length 0. */
    constructor ()
      ensures Valid() && nodes == []
    {
      head := null;
      len := 0;
      nodes := [];
    }

    /** `len`: the number of nodes. */
    function Len(): (n: nat)
      reads this, nodes
      requires Valid()
      ensures n == |nodes|
    {
      len
    }

    /** `is_empty`: whether the length is 0, that is whether there are no
        nodes. */
    predicate IsEmpty()
      reads this, nodes
      requires Valid()
      ensures IsEmpty() <==> nodes == []
    {
      len == 0
    }

    /** `peek`: the first node, if any. */
    function Peek(): (r: Option<SNode<T>>)
      reads this, nodes
      requires Valid()
      ensures r.None? <==> nodes == []
      ensures r.Some? ==> r.value == nodes[0]
    {
      if head == null then None else Some(head)
    }

    /** `top` of the stack, `front` of the list: the first node's item, if
        any. */
    function Top(): (r: Option<T>)
      reads this, nodes
      requires Valid()
      ensures r.None? <==> nodes == []
      ensures r.Some? ==> r.value == nodes[0].item
    {
      if head == null then None else Some(head.item)
    }

    /** `push_node`: links the node in front of the first node, so it
        becomes the first, and adds 1 to the length. The node is owned by
        the caller, so it is in no list. */
    method PushNode(node: SNode<T>)
      requires Valid() && node !in nodes
      modifies this, node
      ensures Valid()
      ensures nodes == [node] + old(nodes) && len == old(len) + 1
      ensures node.item == old(node.item)
    {
      ghost var ns := nodes;
      node.next := head;
      head := node;
      len := len + 1;
      nodes := [node] + nodes;
      forall k | 0 <= k < |nodes|
        ensures Follows(nodes, k)
      {
        if 0 < k {
          assert old(Follows(ns, k - 1));
        }
      }
    }

    /** `pop_node`: unlinks the first node and returns it with its item, the
        rest moving up and the length dropping by 1; an empty list gives
        nothing and stays as it was. Only the popped node changes. */
    method PopNode() returns (r: Option<SNode<T>>)
      requires Valid()
      modifies this, head
      ensures Valid()
      ensures old(nodes) == [] ==> r.None? && nodes == [] && len == 0
      ensures old(nodes) != [] ==>
                && r == Some(old(nodes[0])) && r.value.next == null
                && r.value.item == old(r.value.item)
                && nodes == old(nodes[1..]) && len == old(len) - 1
    {
      if head == null {
        return None;
      }
      var node := head;
      ghost var ns := nodes;
      assert Follows(ns, 0);
      head := node.TakeNext();
      len := len - 1;
      nodes := nodes[1..];
      forall k | 0 <= k < |nodes|
        ensures Follows(nodes, k)
      {
        assert ns[k + 1] != ns[0];
        assert old(Follows(ns, k + 1));
      }
      r := Some(node);
    }

    /** `Extend`: pushes the nodes one after another in iteration order,
        so the last of them ends up first and the length grows by their
        number. The nodes are owned by the caller: none is in the list and
        none occurs twice. */
    method Extend(items: seq<SNode<T>>)
      requires Valid() && Unique(items)
      requires forall i :: 0 <= i < |items| ==> items[i] !in nodes
      modifies this, items
      ensures Valid()
      ensures nodes == Reverse(items) + old(nodes) && len == old(len) + |items|
      ensures forall i :: 0 <= i < |items| ==> items[i].item == old(items[i].item)
    {
      for i := 0 to |items|
        invariant Valid()
        invariant nodes == Reverse(items[..i]) + old(nodes)
        invariant forall j :: 0 <= j < |items| ==> items[j].item == old(items[j].item)
      {
        assert items[..i + 1] == items[..i] + [items[i]];
        ReverseAppend(items[..i], [items[i]]);
        label before:
        PushNode(items[i]);
        forall j | 0 <= j < |items|
          ensures items[j].item == old@before(items[j].item)
        {
          if j != i {
            assert items[j] != items[i];
          }
        }
      }
      assert items[..|items|] == items;
    }
  }

  /** `FromIterator`: a new list extended with the nodes, so its first node
      is the last one of the iteration. */
  method FromIter<T>(items: seq<SNode<T>>) returns (l: LifoList<T>)
    requires Unique(items)
    modifies items
    ensures fresh(l) && l.Valid()
    ensures l.nodes == Reverse(items) && l.len == |items|
    ensures forall i :: 0 <= i < |items| ==> items[i].item == old(items[i].item)
  {
    l := new LifoList();
    l.Extend(items);
  }
}
