/** `insert_node_before` and `insert_node_after` of
    intruder-alarm/src/list/mod.rs exactly as the source writes them. They
    differ from `IntrusiveList.CursorMut.InsertNodeBefore` and
    `IntrusiveList.CursorMut.InsertNodeAfter` in three situations, and in
    each the list they leave behind is no longer a list: the contracts here
    state what goes wrong. The ghost `nodes` and `items` are not updated,
    since no sequence of nodes describes the result. */
module ListAsWritten {
  import opened IntrusiveList

  /** `insert_node_before` as written. With the cursor on the tail of the
      list the new node becomes the tail although the old tail follows it,
      so the tail ends no chain of nodes. With the cursor off the end of a
      non-empty list the node is linked to nothing, yet the length grows:
      the chain from the head is unchanged and is one node shorter than
      the length says. */
  method InsertNodeBefore<T>(c: CursorMut<T>, node: Node<T>)
    requires c.Valid()
    requires node !in c.list.nodes
    modifies c, c.list, c.list.nodes, node
    ensures c.list.len == old(c.list.len) + 1 && c.current == node
    ensures old(c.index) + 1 == old(|c.list.nodes|) ==>
              && c.list.tail == node && node.next == old(c.current)
              && (forall ns :: Chain(ns) && ns != [] ==> ns[|ns| - 1] != c.list.tail)
    ensures old(c.index) == old(|c.list.nodes|) && old(c.list.nodes) != [] ==>
              && node.next == null && node.prev == null
              && c.list.head == old(c.list.head) && c.list.tail == old(c.list.tail)
              && (forall ns :: Chain(ns) && ns != [] && ns[0] == c.list.head ==> |ns| + 1 == c.list.len)
  {
    ghost var ns := c.list.nodes;
    ghost var i := c.index;
    if 0 < i < |ns| {
      ChainAt(ns, i - 1);
    }
    node.next := c.current;
    node.prev := if c.current != null then c.current.prev else null;
    if c.current != null {
      if c.current.prev != null {
        c.current.prev.next := node;
      }
      c.current.prev := node;
    }
    if c.list.head == c.current {
      c.list.head := node;
    }
    if c.list.tail == c.current {
      c.list.tail := node;
    }
    c.current := node;
    c.list.len := c.list.len + 1;
    if i + 1 == |ns| {
      forall ms: seq<Node<T>> | Chain(ms) && ms != []
        ensures ms[|ms| - 1] != c.list.tail
      {
        assert ms[|ms| - 1].next == null;
      }
    }
    if i == |ns| && ns != [] {
      ChainUnchanged(ns);
      forall ms | Chain(ms) && ms != [] && ms[0] == c.list.head
        ensures |ms| + 1 == c.list.len
      {
        ChainDeterminedByHead(ns, ms);
      }
    }
  }

  /** `insert_node_after` as written. On an empty list the node becomes
      the tail but never the head, so a list of length one has no head.
      With the cursor off the end of a non-empty list the node is linked
      to nothing, yet the length grows. */
  method InsertNodeAfter<T>(c: CursorMut<T>, node: Node<T>)
    requires c.Valid()
    requires node !in c.list.nodes
    modifies c, c.list, c.list.nodes, node
    ensures c.list.len == old(c.list.len) + 1 && c.current == old(c.current)
    ensures old(c.list.nodes) == [] ==>
              c.list.head == null && c.list.tail == node && c.list.len == 1
    ensures old(c.index) == old(|c.list.nodes|) && old(c.list.nodes) != [] ==>
              && node.next == null && node.prev == null
              && c.list.head == old(c.list.head) && c.list.tail == old(c.list.tail)
              && (forall ns :: Chain(ns) && ns != [] && ns[0] == c.list.head ==> |ns| + 1 == c.list.len)
  {
    ghost var ns := c.list.nodes;
    ghost var i := c.index;
    if i + 1 < |ns| {
      ChainAt(ns, i);
    }
    node.prev := c.current;
    node.next := if c.current != null then c.current.next else null;
    if c.current != null {
      if c.current.next != null {
        c.current.next.prev := node;
      }
      c.current.next := node;
    }
    if c.list.tail == c.current {
      c.list.tail := node;
    }
    c.list.len := c.list.len + 1;
    if i == |ns| && ns != [] {
      ChainUnchanged(ns);
      forall ms | Chain(ms) && ms != [] && ms[0] == c.list.head
        ensures |ms| + 1 == c.list.len
      {
        ChainDeterminedByHead(ns, ms);
      }
    }
  }
}
