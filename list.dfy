/** The intrusive doubly-linked list of intruder-alarm/src/list/mod.rs.
    Each element is a node object holding its own `next` and `prev` links;
    the list holds links to the head and the tail and a length. The ghost
    sequence `nodes` is the list in head-to-tail order. */
module IntrusiveList {
  import opened Results

  /** A list element: an item together with its `Links`. A null reference
      plays the part of an empty `Link`. */
  class Node<T> {
    var next: Node?<T>
    var prev: Node?<T>
    var item: T

    /** A fresh, unlinked node. */
    constructor (item: T)
      ensures this.item == item && next == null && prev == null
    {
      this.item := item;
      next := null;
      prev := null;
    }

    /** `Linked::take_links`: returns the node's links and leaves it
        unlinked. */
    method TakeLinks() returns (links: Links<T>)
      modifies this
      ensures links == Links(old(next), old(prev))
      ensures next == null && prev == null && item == old(item)
    {
      links := Links(next, prev);
      next := null;
      prev := null;
    }
  }

  /** A node's pair of links, as returned by `take_links`. */
  datatype Links<T> = Links(next: Node?<T>, prev: Node?<T>)
  {
    /** `Links::new`: an unlinked pair. */
    static function New(): (r: Links<T>)
      ensures r.next == null && r.prev == null
    {
      Links(null, null)
    }

    /** `Clone for Links`: a clone is unlinked, whatever it was cloned
        from, so that a type holding links can derive `Clone`. */
    function Clone(): (r: Links<T>)
      ensures r == New()
      ensures r.next == null && r.prev == null
    {
      Links(null, null)
    }
  }

  /** The nodes at positions `i` and `j` differ. */
  ghost predicate Apart<T>(ns: seq<Node<T>>, i: nat, j: nat)
    requires i < |ns| && j < |ns|
  {
    ns[i] != ns[j]
  }

  /** No node occurs twice. The quantifier fires only on `Apart` terms, so
      distinctness is used where a proof names two positions (see
      `DistinctAt`) and does not fire on every pair of nodes in view. */
  ghost predicate Distinct<T>(ns: seq<Node<T>>)
  {
    forall i, j {:trigger Apart(ns, i, j)} :: 0 <= i < j < |ns| ==> Apart(ns, i, j)
  }

  /** Distinct nodes sit at distinct positions. */
  lemma DistinctAt<T>(ns: seq<Node<T>>, a: nat, b: nat)
    requires Distinct(ns) && a < b < |ns|
    ensures ns[a] != ns[b]
  {
    assert Apart(ns, a, b);
  }

  /** The node at `i` occurs nowhere else. */
  lemma OnlyAt<T>(ns: seq<Node<T>>, i: nat)
    requires Distinct(ns) && i < |ns|
    ensures forall k :: 0 <= k < |ns| && k != i ==> ns[k] != ns[i]
  {
    forall k | 0 <= k < |ns| && k != i
      ensures ns[k] != ns[i]
    {
      if k < i {
        DistinctAt(ns, k, i);
      } else {
        DistinctAt(ns, i, k);
      }
    }
  }

  /** Distinct nodes sit at distinct positions, for every pair. */
  lemma DistinctPositions<T>(ns: seq<Node<T>>)
    requires Distinct(ns)
    ensures forall a, b :: 0 <= a < b < |ns| ==> ns[a] != ns[b]
  {
    forall a, b | 0 <= a < b < |ns|
      ensures ns[a] != ns[b]
    {
      DistinctAt(ns, a, b);
    }
  }

  /** Nodes at distinct positions are distinct. */
  lemma PositionsDistinct<T>(ns: seq<Node<T>>)
    requires forall a, b :: 0 <= a < b < |ns| ==> ns[a] != ns[b]
    ensures Distinct(ns)
  {
    forall a, b | 0 <= a < b < |ns|
      ensures Apart(ns, a, b)
    {
    }
  }

  /** The nodes are linked in order: each node's `next` is its successor
      and its successor's `prev` is the node; the first has no `prev` and
      the last no `next`. */
  ghost predicate Chain<T>(ns: seq<Node<T>>)
    reads ns
  {
    && (ns != [] ==> ns[0].prev == null && ns[|ns| - 1].next == null)
    && (forall k {:trigger Linked(ns, k)} :: 0 <= k < |ns| - 1 ==> Linked(ns, k))
  }

  /** The node at `k` and its successor point at each other. The chain's
      quantifier fires only on `Linked` terms (see `ChainAt`), not on every
      pair of positions in view. */
  ghost predicate Linked<T>(ns: seq<Node<T>>, k: nat)
    reads ns
    requires k + 1 < |ns|
  {
    ns[k].next == ns[k + 1] && ns[k + 1].prev == ns[k]
  }

  /** In a chain, the node at `k` and its successor point at each other. */
  lemma ChainAt<T>(ns: seq<Node<T>>, k: nat)
    requires Chain(ns) && k + 1 < |ns|
    ensures ns[k].next == ns[k + 1] && ns[k + 1].prev == ns[k]
  {
    assert Linked(ns, k);
  }

  /** Two chains that start at the same node agree up to `k`. */
  lemma {:induction false} ChainsAgree<T>(ns: seq<Node<T>>, ms: seq<Node<T>>, k: nat)
    requires Chain(ns) && Chain(ms) && ns != [] && ms != [] && ns[0] == ms[0]
    requires k < |ns| && k < |ms|
    ensures ns[k] == ms[k]
  {
    if k > 0 {
      ChainsAgree(ns, ms, k - 1);
      ChainAt(ns, k - 1);
      ChainAt(ms, k - 1);
    }
  }

  /** The links determine the list: two chains from the same first node
      are the same sequence of nodes, so `nodes`, and with it the length,
      follows from the head and the nodes' own links. */
  lemma ChainDeterminedByHead<T>(ns: seq<Node<T>>, ms: seq<Node<T>>)
    requires Chain(ns) && Chain(ms) && ns != [] && ms != [] && ns[0] == ms[0]
    ensures ns == ms
  {
    var n := if |ns| < |ms| then |ns| else |ms|;
    ChainsAgree(ns, ms, n - 1);
    LastIffNoNext(ns, n - 1);
    LastIffNoNext(ms, n - 1);
    forall k | 0 <= k < |ns|
      ensures ns[k] == ms[k]
    {
      ChainsAgree(ns, ms, k);
    }
  }

  /** In a chain, exactly the last node has no `next`. */
  lemma LastIffNoNext<T>(ns: seq<Node<T>>, k: nat)
    requires Chain(ns) && k < |ns|
    ensures ns[k].next == null <==> k == |ns| - 1
  {
    if k + 1 < |ns| {
      ChainAt(ns, k);
    }
  }

  /** In a chain, exactly the first node has no `prev`. */
  lemma FirstIffNoPrev<T>(ns: seq<Node<T>>, k: nat)
    requires Chain(ns) && k < |ns|
    ensures ns[k].prev == null <==> k == 0
  {
    if 0 < k {
      ChainAt(ns, k - 1);
    }
  }

  /** A chain whose links are untouched is still a chain. */
  twostate lemma ChainUnchanged<T>(ns: seq<Node<T>>)
    requires old(Chain(ns))
    requires forall o :: o in ns ==> o.next == old(o.next) && o.prev == old(o.prev)
    ensures Chain(ns)
  {
    if ns != [] {
      assert ns[0] in ns && ns[|ns| - 1] in ns;
    }
    forall k | 0 <= k < |ns| - 1
      ensures Linked(ns, k)
    {
      assert old(Linked(ns, k));
      assert ns[k] in ns && ns[k + 1] in ns;
    }
  }

  /** Removing a node keeps the others distinct. */
  lemma DistinctAfterRemove<T>(ns: seq<Node<T>>, i: nat)
    requires i < |ns| && Distinct(ns)
    ensures Distinct(ns[..i] + ns[i + 1..])
  {
    var ms := ns[..i] + ns[i + 1..];
    DistinctPositions(ns);
    forall a, b | 0 <= a < b < |ms|
      ensures ms[a] != ms[b]
    {
      var a' := if a < i then a else a + 1;
      var b' := if b < i then b else b + 1;
      assert ms[a] == ns[a'] && ms[b] == ns[b'];
    }
    PositionsDistinct(ms);
  }

  /** Inserting a node that is not in the list keeps the nodes distinct. */
  lemma DistinctAfterInsert<T>(ns: seq<Node<T>>, i: nat, node: Node<T>)
    requires i <= |ns| && Distinct(ns) && node !in ns
    ensures Distinct(ns[..i] + [node] + ns[i..])
  {
    var ms := ns[..i] + [node] + ns[i..];
    DistinctPositions(ns);
    forall a, b | 0 <= a < b < |ms|
      ensures ms[a] != ms[b]
    {
      if a < i {
        assert ms[a] == ns[a];
      } else if a > i {
        assert ms[a] == ns[a - 1];
      }
      if b < i {
        assert ms[b] == ns[b];
      } else if b > i {
        assert ms[b] == ns[b - 1];
      }
    }
    PositionsDistinct(ms);
  }

  /** Dropping the node at `i` and the item at `i` keeps nodes and items
      matched. */
  lemma ItemsAfterRemove<T>(ns: seq<Node<T>>, items: seq<T>, i: nat, ms: seq<Node<T>>, js: seq<T>)
    requires i < |ns| == |items|
    requires forall k :: 0 <= k < |ns| ==> ns[k].item == items[k]
    requires ms == ns[..i] + ns[i + 1..] && js == items[..i] + items[i + 1..]
    ensures |ms| == |js|
    ensures forall k :: 0 <= k < |ms| ==> ms[k].item == js[k]
  {
    forall k | 0 <= k < |ms|
      ensures ms[k].item == js[k]
    {
      if k < i {
        assert ms[k] == ns[k] && js[k] == items[k];
      } else {
        assert ms[k] == ns[k + 1] && js[k] == items[k + 1];
      }
    }
  }

  /** Inserting a node at `i` and its item at `i` keeps nodes and items
      matched. */
  lemma ItemsAfterInsert<T>(ns: seq<Node<T>>, items: seq<T>, i: nat, node: Node<T>, ms: seq<Node<T>>, js: seq<T>)
    requires i <= |ns| == |items|
    requires forall k :: 0 <= k < |ns| ==> ns[k].item == items[k]
    requires ms == ns[..i] + [node] + ns[i..] && js == items[..i] + [node.item] + items[i..]
    ensures |ms| == |js|
    ensures forall k :: 0 <= k < |ms| ==> ms[k].item == js[k]
  {
    forall k | 0 <= k < |ms|
      ensures ms[k].item == js[k]
    {
      if k < i {
        assert ms[k] == ns[k] && js[k] == items[k];
      } else if k == i {
        assert ms[k] == node && js[k] == node.item;
      } else {
        assert ms[k] == ns[k - 1] && js[k] == items[k - 1];
      }
    }
  }

  /** `List`: head, tail and length over nodes linked through their own
      fields. */
  class List<T> {
    var head: Node?<T>
    var tail: Node?<T>
    var len: nat
    ghost var nodes: seq<Node<T>>
    ghost var items: seq<T>

    /** The doubly-linked invariant: `nodes` are distinct, consecutive nodes
        point at each other, the head has no `prev`, the tail has no
        `next`, and `len` counts the nodes. */
    ghost predicate Valid()
      reads this, nodes
    {
      && len == |nodes|
      && Distinct(nodes)
      && Chain(nodes)
      && head == (if nodes == [] then null else nodes[0])
      && tail == (if nodes == [] then null else nodes[|nodes| - 1])
      && |items| == |nodes|
      && (forall k :: 0 <= k < |nodes| ==> nodes[k].item == items[k])
    }

    /** `List::new`: the empty list. */
    constructor ()
      ensures Valid() && nodes == [] && items == []
      ensures head == null && tail == null && len == 0
    {
      head := null;
      tail := null;
      len := 0;
      nodes := [];
      items := [];
    }

    /** `List::len`: the number of nodes. */
    function Len(): (r: nat)
      reads this, nodes
      requires Valid()
      ensures r == |nodes| == |items|
    {
      len
    }

    /** `List::is_empty`: holds exactly when the length is zero. */
    function IsEmpty(): (r: bool)
      reads this, nodes
      requires Valid()
      ensures r <==> Len() == 0
      ensures r <==> nodes == []
    {
      len == 0
    }

    /** `List::head`: the first node, none on an empty list. */
    function Head(): (r: Option<Node<T>>)
      reads this, nodes
      requires Valid()
      ensures r.None? <==> nodes == []
      ensures r.Some? ==> r.value == nodes[0]
    {
      if head == null then None else Some(head)
    }

    /** `List::tail`: the last node, none on an empty list. */
    function Tail(): (r: Option<Node<T>>)
      reads this, nodes
      requires Valid()
      ensures r.None? <==> nodes == []
      ensures r.Some? ==> r.value == nodes[|nodes| - 1]
    {
      if tail == null then None else Some(tail)
    }

    /** `List::front`: the first item. */
    function Front(): (r: Option<T>)
      reads this, nodes
      requires Valid()
      ensures r.None? <==> items == []
      ensures r.Some? ==> r.value == items[0]
    {
      if head == null then None else Some(head.item)
    }

    /** `List::back`: the last item. */
    function Back(): (r: Option<T>)
      reads this, nodes
      requires Valid()
      ensures r.None? <==> items == []
      ensures r.Some? ==> r.value == items[|items| - 1]
    {
      if tail == null then None else Some(tail.item)
    }

    /** `push_front_node`: the node becomes the head; on an empty list it
        is also the tail, otherwise the tail is unchanged. */
    method PushFrontNode(node: Node<T>)
      requires Valid()
      requires node !in nodes
      modifies this, nodes, node
      ensures Valid()
      ensures nodes == [node] + old(nodes)
      ensures items == [old(node.item)] + old(items)
      ensures head == node && len == old(len) + 1
      ensures tail == if old(nodes) == [] then node else old(tail)
    {
      ghost var ns := nodes;
      DistinctPositions(ns);
      var next := head;
      node.next := next;
      node.prev := null;
      if next == null {
        tail := node;
      } else {
        next.prev := node;
      }
      head := node;
      len := len + 1;
      nodes := [node] + nodes;
      items := [node.item] + items;
      assert nodes == ns[..0] + [node] + ns[0..];
      InsertKeepsValid(this, 0, node, null, next);
    }

    /** `push_back_node`: the node becomes the tail; on an empty list it is
        also the head, otherwise the head is unchanged. */
    method PushBackNode(node: Node<T>)
      requires Valid()
      requires node !in nodes
      modifies this, nodes, node
      ensures Valid()
      ensures nodes == old(nodes) + [node]
      ensures items == old(items) + [old(node.item)]
      ensures tail == node && len == old(len) + 1
      ensures head == if old(nodes) == [] then node else old(head)
    {
      ghost var ns := nodes;
      DistinctPositions(ns);
      var prev := tail;
      node.next := null;
      node.prev := prev;
      if prev == null {
        head := node;
      } else {
        prev.next := node;
      }
      tail := node;
      len := len + 1;
      nodes := nodes + [node];
      items := items + [node.item];
      assert nodes == ns[..|ns|] + [node] + ns[|ns|..];
      InsertKeepsValid(this, |ns|, node, prev, null);
    }

    /** `pop_front_node`: removes and returns the head, unlinked; none on an
        empty list, which is left as it was. */
    method PopFrontNode() returns (r: Option<Node<T>>)
      requires Valid()
      modifies this, nodes
      ensures Valid()
      ensures old(nodes) == [] ==> r.None? && nodes == []
      ensures old(nodes) != [] ==>
                && r == Some(old(nodes[0]))
                && nodes == old(nodes[1..])
                && items == old(items[1..])
                && r.value.next == null && r.value.prev == null
                && r.value.item == old(r.value.item)
                && len == old(len) - 1
    {
      if head == null {
        return None;
      }
      var node := head;
      ghost var ns := nodes;
      if 1 < |nodes| {
        ChainAt(nodes, 0);
      }
      DistinctPositions(ns);
      var links := node.TakeLinks();
      head := links.next;
      if head == null {
        tail := null;
      } else {
        head.prev := null;
      }
      len := len - 1;
      nodes := nodes[1..];
      items := items[1..];
      r := Some(node);
      assert nodes == ns[..0] + ns[1..] && items == old(items[..0] + items[1..]);
      RemoveKeepsValid(this, 0, null, links.next);
    }

    /** `pop_back_node`: removes and returns the tail, unlinked; none on an
        empty list, which is left as it was. */
    method PopBackNode() returns (r: Option<Node<T>>)
      requires Valid()
      modifies this, nodes
      ensures Valid()
      ensures old(nodes) == [] ==> r.None? && nodes == []
      ensures old(nodes) != [] ==>
                && r == Some(old(nodes[|nodes| - 1]))
                && nodes == old(nodes[..|nodes| - 1])
                && items == old(items[..|nodes| - 1])
                && r.value.next == null && r.value.prev == null
                && r.value.item == old(r.value.item)
                && len == old(len) - 1
    {
      if tail == null {
        return None;
      }
      var node := tail;
      ghost var ns := nodes;
      if 1 < |nodes| {
        ChainAt(nodes, |nodes| - 2);
      }
      DistinctPositions(ns);
      var links := node.TakeLinks();
      tail := links.prev;
      if tail == null {
        head := null;
      } else {
        tail.next := null;
      }
      len := len - 1;
      nodes := nodes[..|nodes| - 1];
      items := items[..|items| - 1];
      r := Some(node);
      assert nodes == ns[..|ns| - 1] + ns[|ns|..] && items == old(items[..|ns| - 1] + items[|ns|..]);
      RemoveKeepsValid(this, |ns| - 1, links.prev, null);
    }

    /** `List::cursor`: a read-only cursor on the head. */
    method OpenCursor() returns (c: Cursor<T>)
      requires Valid()
      ensures fresh(c) && c.Valid() && c.list == this && c.index == 0
    {
      c := new Cursor(this);
    }

    /** `List::cursor_mut`: a mutable cursor on the head. */
    method OpenCursorMut() returns (c: CursorMut<T>)
      requires Valid()
      ensures fresh(c) && c.Valid() && c.list == this && c.index == 0
    {
      c := new CursorMut(this);
    }
  }

  /** The list invariant, assembled from its parts. */
  lemma ListValid<T>(l: List<T>)
    requires l.len == |l.nodes|
    requires |l.items| == |l.nodes|
    requires Distinct(l.nodes)
    requires Chain(l.nodes)
    requires l.head == (if l.nodes == [] then null else l.nodes[0])
    requires l.tail == (if l.nodes == [] then null else l.nodes[|l.nodes| - 1])
    requires forall k :: 0 <= k < |l.nodes| ==> l.nodes[k].item == l.items[k]
    ensures l.Valid()
  {
  }

  /* The two lemmas below take the list and an index only, and name the
     old nodes `old(l.nodes)`; the index, a plain number, is declared `new`
     so that only the list is required to exist in the old state. */

  /** Unlinking the node at `i` from `l` and pointing its neighbours
      `prev` and `next` at each other keeps `l` a valid list of the other
      nodes. */
  twostate lemma RemoveKeepsValid<T>(l: List<T>, new i: nat, new prev: Node?<T>, new next: Node?<T>)
    requires old(l.Valid()) && i < old(|l.nodes|)
    requires prev == (if 0 < i then old(l.nodes[i - 1]) else null)
    requires next == (if i + 1 < old(|l.nodes|) then old(l.nodes[i + 1]) else null)
    requires l.nodes == old(l.nodes[..i] + l.nodes[i + 1..])
    requires l.items == old(l.items[..i] + l.items[i + 1..])
    requires l.len == old(l.len) - 1
    requires l.head == if i == 0 then next else old(l.head)
    requires l.tail == if i + 1 == old(|l.nodes|) then prev else old(l.tail)
    requires forall o :: o in old(l.nodes) ==> o.item == old(o.item)
    requires forall o :: o in old(l.nodes) && o != old(l.nodes[i]) && o != prev && o != next ==>
               o.next == old(o.next) && o.prev == old(o.prev)
    requires prev != null ==> prev.next == next && prev.prev == old(prev.prev)
    requires next != null ==> next.prev == prev && next.next == old(next.next)
    ensures l.Valid()
  {
    var ns := old(l.nodes);
    ItemsAfterRemove(ns, old(l.items), i, l.nodes, l.items);
    DistinctAfterRemove(ns, i);
    DistinctPositions(ns);
    forall k | 0 <= k < |l.nodes| - 1
      ensures Linked(l.nodes, k)
    {
      if k + 1 < i {
        assert old(Linked(ns, k));
        assert l.nodes[k] == ns[k] && l.nodes[k + 1] == ns[k + 1];
      } else if k + 1 == i {
        assert l.nodes[k] == prev && l.nodes[k + 1] == next;
      } else {
        assert old(Linked(ns, k + 1));
        assert l.nodes[k] == ns[k + 1] && l.nodes[k + 1] == ns[k + 2];
      }
    }
    ListValid(l);
  }

  /** Linking `node` into `l` at `i`, between its new neighbours `prev`
      and `next`, keeps `l` a valid list with the node at `i`. */
  twostate lemma InsertKeepsValid<T>(l: List<T>, new i: nat, new node: Node<T>, new prev: Node?<T>, new next: Node?<T>)
    requires old(l.Valid()) && i <= old(|l.nodes|)
    requires prev == (if 0 < i then old(l.nodes[i - 1]) else null)
    requires next == (if i < old(|l.nodes|) then old(l.nodes[i]) else null)
    requires node !in old(l.nodes)
    requires l.nodes == old(l.nodes[..i]) + [node] + old(l.nodes[i..])
    requires l.items == old(l.items[..i]) + [node.item] + old(l.items[i..])
    requires l.len == old(l.len) + 1
    requires l.head == if i == 0 then node else old(l.head)
    requires l.tail == if i == old(|l.nodes|) then node else old(l.tail)
    requires forall o :: o in old(l.nodes) ==> o.item == old(o.item)
    requires forall o :: o in old(l.nodes) && o != prev && o != next ==> o.next == old(o.next) && o.prev == old(o.prev)
    requires node.next == next && node.prev == prev
    requires prev != null ==> prev.next == node && prev.prev == old(prev.prev)
    requires next != null ==> next.prev == node && next.next == old(next.next)
    ensures l.Valid()
  {
    var ns := old(l.nodes);
    ItemsAfterInsert(ns, old(l.items), i, node, l.nodes, l.items);
    DistinctAfterInsert(ns, i, node);
    DistinctPositions(ns);
    forall k | 0 <= k < |l.nodes| - 1
      ensures Linked(l.nodes, k)
    {
      if k + 1 < i {
        assert old(Linked(ns, k));
        assert l.nodes[k] == ns[k] && l.nodes[k + 1] == ns[k + 1];
      } else if k + 1 == i {
        assert l.nodes[k] == prev && l.nodes[k + 1] == node;
      } else if k == i {
        assert l.nodes[k] == node && l.nodes[k + 1] == next;
      } else {
        assert old(Linked(ns, k - 1));
        assert l.nodes[k] == ns[k - 1] && l.nodes[k + 1] == ns[k];
      }
    }
    ListValid(l);
  }

  /** Cursor positions are indices into the list's nodes, where the index
      equal to the length stands for "no element" (a null `current`). Moving
      forward from the last element, or from no element, gives no element. */
  function Forward(index: nat, n: nat): (r: nat)
    requires index <= n
    ensures r <= n
    ensures index < n ==> r == index + 1
    ensures index == n ==> r == n
  {
    if index < n then index + 1 else n
  }

  /** Moving back from the first element, or from no element, gives no
      element. */
  function Back(index: nat, n: nat): (r: nat)
    requires index <= n
    ensures r <= n
    ensures 0 < index < n ==> r == index - 1
    ensures (index == 0 || index == n) ==> r == n
  {
    if 0 < index < n then index - 1 else n
  }

  /** The item at a cursor position, none off the list. */
  ghost function ItemAt<T>(items: seq<T>, index: nat): (r: Option<T>)
    ensures r.Some? <==> index < |items|
    ensures r.Some? ==> r.value == items[index]
  {
    if index < |items| then Some(items[index]) else None
  }

  /** `list::Cursor`: a read-only cursor, a possibly-null reference to the
      current node. */
  class Cursor<T> {
    var current: Node?<T>
    const list: List<T>
    ghost var index: nat

    ghost predicate Valid()
      reads this, list, list.nodes
    {
      && list.Valid()
      && index <= |list.nodes|
      && current == (if index < |list.nodes| then list.nodes[index] else null)
    }

    constructor (list: List<T>)
      requires list.Valid()
      ensures Valid() && this.list == list && index == 0
    {
      this.list := list;
      current := list.head;
      index := 0;
    }

    /** `move_forward`: to the current node's `next`. */
    method MoveForward()
      requires Valid()
      modifies this
      ensures Valid()
      ensures index == Forward(old(index), |list.nodes|)
    {
      if current != null {
        if index + 1 < |list.nodes| {
          ChainAt(list.nodes, index);
        }
        current := current.next;
      }
      index := Forward(index, |list.nodes|);
    }

    /** `move_back`: to the current node's `prev`. */
    method MoveBack()
      requires Valid()
      modifies this
      ensures Valid()
      ensures index == Back(old(index), |list.nodes|)
    {
      if current != null {
        if 0 < index {
          ChainAt(list.nodes, index - 1);
        }
        current := current.prev;
      }
      index := Back(index, |list.nodes|);
    }

    /** `get`: the item under the cursor. */
    function Get(): (r: Option<T>)
      reads this, list, list.nodes
      requires Valid()
      ensures r == ItemAt(list.items, index)
    {
      if current == null then None else Some(current.item)
    }

    /** `peek_next`: the item after the cursor, none at the tail or off the
        list. */
    function PeekNext(): (r: Option<T>)
      reads this, list, list.nodes
      requires Valid()
      ensures r == if index < |list.nodes| then ItemAt(list.items, index + 1) else None
    {
      if current == null then None
      else if current.next == null then
        LastIffNoNext(list.nodes, index);
        None
      else
        ChainAt(list.nodes, index);
        Some(current.next.item)
    }

    /** `peek_back`: the item before the cursor, none at the head or off the
        list. */
    function PeekBack(): (r: Option<T>)
      reads this, list, list.nodes
      requires Valid()
      ensures r == if 0 < index < |list.nodes| then Some(list.items[index - 1]) else None
    {
      if current == null then None
      else if current.prev == null then
        FirstIffNoPrev(list.nodes, index);
        None
      else
        ChainAt(list.nodes, index - 1);
        Some(current.prev.item)
    }

    /** `Iterator::next`: yields the item under the cursor, then moves
        forward. */
    method Next() returns (r: Option<T>)
      requires Valid()
      modifies this
      ensures Valid()
      ensures r == ItemAt(list.items, old(index))
      ensures index == Forward(old(index), |list.nodes|)
    {
      r := if current == null then None else Some(current.item);
      MoveForward();
    }

    /** `DoubleEndedIterator::next_back`: moves back, then yields the item
        under the cursor. */
    method NextBack() returns (r: Option<T>)
      requires Valid()
      modifies this
      ensures Valid()
      ensures index == Back(old(index), |list.nodes|)
      ensures r == ItemAt(list.items, index)
    {
      MoveBack();
      r := if current == null then None else Some(current.item);
    }

    /** Draining the iterator with `Iterator::collect`, as the list's own
        tests read a list back: yields exactly the items from the cursor to
        the tail, in order, and leaves the cursor off the list so that
        further calls yield none. */
    method Collect() returns (items: seq<T>)
      requires Valid()
      modifies this
      ensures Valid()
      ensures items == old(list.items[index..])
      ensures index == |list.nodes|
    {
      items := [];
      while true
        invariant Valid()
        invariant old(index) <= index <= |list.nodes|
        invariant items == list.items[old(index)..index]
        decreases |list.nodes| - index
      {
        var x := Next();
        if x.None? {
          return;
        }
        items := items + [x.value];
      }
    }
  }

  /** `list::CursorMut`: a cursor that can unlink the node under it and
      link new nodes around it. */
  class CursorMut<T> {
    var current: Node?<T>
    const list: List<T>
    ghost var index: nat

    ghost predicate Valid()
      reads this, list, list.nodes
    {
      && list.Valid()
      && index <= |list.nodes|
      && current == (if index < |list.nodes| then list.nodes[index] else null)
    }

    constructor (list: List<T>)
      requires list.Valid()
      ensures Valid() && this.list == list && index == 0
    {
      this.list := list;
      current := list.head;
      index := 0;
    }

    /** `move_forward`: to the current node's `next`. */
    method MoveForward()
      requires Valid()
      modifies this
      ensures Valid()
      ensures index == Forward(old(index), |list.nodes|)
    {
      if current != null {
        if index + 1 < |list.nodes| {
          ChainAt(list.nodes, index);
        }
        current := current.next;
      }
      index := Forward(index, |list.nodes|);
    }

    /** `move_back`: to the current node's `prev`. */
    method MoveBack()
      requires Valid()
      modifies this
      ensures Valid()
      ensures index == Back(old(index), |list.nodes|)
    {
      if current != null {
        if 0 < index {
          ChainAt(list.nodes, index - 1);
        }
        current := current.prev;
      }
      index := Back(index, |list.nodes|);
    }

    /** `get`: the item under the cursor. */
    function Get(): (r: Option<T>)
      reads this, list, list.nodes
      requires Valid()
      ensures r == ItemAt(list.items, index)
    {
      if current == null then None else Some(current.item)
    }

    /** `peek_next`: the item after the cursor. */
    function PeekNext(): (r: Option<T>)
      reads this, list, list.nodes
      requires Valid()
      ensures r == if index < |list.nodes| then ItemAt(list.items, index + 1) else None
    {
      if current == null then None
      else if current.next == null then
        LastIffNoNext(list.nodes, index);
        None
      else
        ChainAt(list.nodes, index);
        Some(current.next.item)
    }

    /** `peek_back`: the item before the cursor. */
    function PeekBack(): (r: Option<T>)
      reads this, list, list.nodes
      requires Valid()
      ensures r == if 0 < index < |list.nodes| then Some(list.items[index - 1]) else None
    {
      if current == null then None
      else if current.prev == null then
        FirstIffNoPrev(list.nodes, index);
        None
      else
        ChainAt(list.nodes, index - 1);
        Some(current.prev.item)
    }

    /** `remove_node`: unlinks the node under the cursor and returns it
        with its links cleared; the other nodes keep their order, the head
        and tail follow if the node was an end, and the cursor moves to the
        old `next` (the same index). Off the list, nothing happens. */
    method RemoveNode() returns (r: Option<Node<T>>)
      requires Valid()
      modifies this, list, list.nodes
      ensures Valid() && index == old(index)
      ensures old(index) == old(|list.nodes|) ==> r.None? && list.nodes == old(list.nodes)
      ensures old(index) < old(|list.nodes|) ==>
                && r == Some(old(list.nodes[index]))
                && list.nodes == old(list.nodes[..index] + list.nodes[index + 1..])
                && list.items == old(list.items[..index] + list.items[index + 1..])
                && r.value.next == null && r.value.prev == null
                && r.value.item == old(r.value.item)
                && list.len == old(list.len) - 1
    {
      if current == null {
        return None;
      }
      var node := current;
      ghost var i := index;
      ghost var ns := list.nodes;
      if i + 1 < |ns| {
        ChainAt(ns, i);
      }
      if 0 < i {
        ChainAt(ns, i - 1);
      }
      DistinctPositions(ns);
      var links := node.TakeLinks();
      var next := links.next;
      var prev := links.prev;
      if next != null {
        next.prev := prev;
      }
      if prev != null {
        prev.next := next;
      }
      list.len := list.len - 1;
      if list.head == node {
        list.head := next;
      }
      if list.tail == node {
        list.tail := prev;
      }
      current := next;
      list.nodes, list.items := ns[..i] + ns[i + 1..], list.items[..i] + list.items[i + 1..];
      r := Some(node);
      RemoveKeepsValid(list, i, prev, next);
    }

    /** `insert_node_before`: the node is linked in at the cursor's
        position, which the cursor then holds. Off the end of the list the
        node is appended (on an empty list it becomes head and tail). The
        source also makes the node the tail when the cursor is on the tail,
        and leaves it unlinked when the cursor is off the end of a
        non-empty list (see `ListAsWritten`); here the tail moves only when
        the node is appended. */
    method InsertNodeBefore(node: Node<T>)
      requires Valid()
      requires node !in list.nodes
      modifies this, list, list.nodes, node
      ensures Valid()
      ensures index == old(index) && current == node
      ensures list.nodes == old(list.nodes[..index]) + [node] + old(list.nodes[index..])
      ensures list.items == old(list.items[..index]) + [old(node.item)] + old(list.items[index..])
      ensures list.head == if old(index) == 0 then node else old(list.head)
      ensures list.tail == if old(index) == old(|list.nodes|) then node else old(list.tail)
      ensures list.len == old(list.len) + 1
    {
      ghost var i := index;
      ghost var ns := list.nodes;
      if 0 < i < |ns| {
        ChainAt(ns, i - 1);
      }
      if 0 < i < |ns| {
        DistinctAt(ns, i - 1, i);
      }
      var prev := if current != null then current.prev else list.tail;
      var next := current;
      node.next := current;
      node.prev := prev;
      if prev != null {
        prev.next := node;
      }
      if current != null {
        current.prev := node;
      }
      if list.head == current {
        list.head := node;
      }
      if current == null {
        list.tail := node;
      }
      current := node;
      list.len := list.len + 1;
      list.nodes := ns[..i] + [node] + ns[i..];
      list.items := list.items[..i] + [node.item] + list.items[i..];
      InsertKeepsValid(list, i, node, prev, next);
    }

    /** `insert_node_after`: the node is linked in after the cursor's
        position and becomes the tail if the cursor was on the tail; off
        the end of the list the node is prepended (on an empty list it
        becomes head and tail). The cursor stays on its element, or off the
        end. The source never sets the head, so off the end it leaves the
        node unlinked from the head (see `ListAsWritten`). */
    method InsertNodeAfter(node: Node<T>)
      requires Valid()
      requires node !in list.nodes
      modifies this, list, list.nodes, node
      ensures Valid()
      ensures current == old(current)
      ensures old(index) == old(|list.nodes|) ==>
                && index == old(index) + 1
                && list.nodes == [node] + old(list.nodes)
                && list.items == [old(node.item)] + old(list.items)
                && list.head == node
      ensures old(index) < old(|list.nodes|) ==>
                && index == old(index)
                && list.nodes == old(list.nodes[..index + 1]) + [node] + old(list.nodes[index + 1..])
                && list.items == old(list.items[..index + 1]) + [old(node.item)] + old(list.items[index + 1..])
                && list.head == old(list.head)
      ensures list.tail == if old(index) + 1 == old(|list.nodes|) || old(list.nodes) == [] then node else old(list.tail)
      ensures list.len == old(list.len) + 1
    {
      ghost var i := index;
      ghost var ns := list.nodes;
      ghost var at := if i < |ns| then i + 1 else 0;
      if i + 1 < |ns| {
        ChainAt(ns, i);
      }
      if at < |ns| && i < |ns| {
        DistinctAt(ns, i, at);
      }
      var next := if current != null then current.next else list.head;
      node.prev := current;
      node.next := next;
      if next != null {
        next.prev := node;
      }
      if current != null {
        current.next := node;
      }
      if list.tail == current {
        list.tail := node;
      }
      if current == null {
        list.head := node;
        index := index + 1;
      }
      list.len := list.len + 1;
      list.nodes := ns[..at] + [node] + ns[at..];
      list.items := list.items[..at] + [node.item] + list.items[at..];
      InsertKeepsValid(list, at, node, current, next);
      assert at == 0 ==> list.nodes == [node] + ns;
    }
  }
}
