/** The default methods of the `Cursor` and `CursorMut` traits of
    intruder-alarm/src/cursor.rs, built from the primitive cursor
    operations of `IntrusiveList.CursorMut`: seeking by several positions,
    moving and reading in one step, and the scans that remove or rewrite
    the elements from the cursor to the end of the list. */
module CursorOps {
  import opened Results
  import opened IntrusiveList

  /** The position reached by `n` calls of `move_forward`. */
  function ForwardN(index: nat, len: nat, n: nat): (r: nat)
    requires index <= len
    ensures r <= len
  {
    if n == 0 then index else Forward(ForwardN(index, len, n - 1), len)
  }

  /** The position reached by `n` calls of `move_back`. */
  function BackN(index: nat, len: nat, n: nat): (r: nat)
    requires index <= len
    ensures r <= len
  {
    if n == 0 then index else Back(BackN(index, len, n - 1), len)
  }

  /** `n` steps forward go `n` places, but stop off the end of the list. */
  lemma {:induction false} ForwardNClosedForm(index: nat, len: nat, n: nat)
    requires index <= len
    ensures ForwardN(index, len, n) == if index + n <= len then index + n else len
  {
    if n > 0 {
      ForwardNClosedForm(index, len, n - 1);
    }
  }

  /** `n` steps back from an element go `n` places if there are that many
      elements before it; otherwise the cursor falls off the front and is
      off the list, where it then stays. */
  lemma {:induction false} BackNClosedForm(index: nat, len: nat, n: nat)
    requires index <= len
    ensures BackN(index, len, n) == if index < len && n <= index then index - n else len
  {
    if n > 0 {
      BackNClosedForm(index, len, n - 1);
    }
  }

  /** `seek_forward`: `n` calls of `move_forward`. */
  method SeekForward<T>(c: CursorMut<T>, n: nat)
    requires c.Valid()
    modifies c
    ensures c.Valid()
    ensures c.index == ForwardN(old(c.index), |c.list.nodes|, n)
    ensures c.index == if old(c.index) + n <= |c.list.nodes| then old(c.index) + n else |c.list.nodes|
  {
    ghost var i0 := c.index;
    for k := 0 to n
      invariant c.Valid()
      invariant c.index == ForwardN(i0, |c.list.nodes|, k)
    {
      c.MoveForward();
    }
    ForwardNClosedForm(i0, |c.list.nodes|, n);
  }

  /** `seek_back`: `n` calls of `move_back`. */
  method SeekBack<T>(c: CursorMut<T>, n: nat)
    requires c.Valid()
    modifies c
    ensures c.Valid()
    ensures c.index == BackN(old(c.index), |c.list.nodes|, n)
    ensures c.index == if old(c.index) < |c.list.nodes| && n <= old(c.index) then old(c.index) - n else |c.list.nodes|
  {
    ghost var i0 := c.index;
    for k := 0 to n
      invariant c.Valid()
      invariant c.index == BackN(i0, |c.list.nodes|, k)
    {
      c.MoveBack();
    }
    BackNClosedForm(i0, |c.list.nodes|, n);
  }

  /** `next_item`: moves forward, then returns the item now under the
      cursor, which is the item after the old position, if any. */
  method NextItem<T>(c: CursorMut<T>) returns (r: Option<T>)
    requires c.Valid()
    modifies c
    ensures c.Valid()
    ensures c.index == Forward(old(c.index), |c.list.nodes|)
    ensures r.Some? <==> old(c.index) + 1 < |c.list.nodes|
    ensures r.Some? ==> r.value == c.list.items[old(c.index) + 1]
  {
    c.MoveForward();
    r := c.Get();
  }

  /** `prev_item`: moves back, then returns the item now under the cursor,
      which is the item before the old position, if any. */
  method PrevItem<T>(c: CursorMut<T>) returns (r: Option<T>)
    requires c.Valid()
    modifies c
    ensures c.Valid()
    ensures c.index == Back(old(c.index), |c.list.nodes|)
    ensures r.Some? <==> 0 < old(c.index) < |c.list.nodes|
    ensures r.Some? ==> r.value == c.list.items[old(c.index) - 1]
  {
    c.MoveBack();
    r := c.Get();
  }

  /** The position of the first item at or after `from` that satisfies
      `p`, or the length when there is none. */
  function FirstMatch<T>(items: seq<T>, from: nat, p: T -> bool): (m: nat)
    requires from <= |items|
    ensures from <= m <= |items|
    ensures m < |items| ==> p(items[m])
    decreases |items| - from
  {
    if from == |items| || p(items[from]) then from else FirstMatch(items, from + 1, p)
  }

  /** No item between `from` and the first match satisfies `p`. */
  lemma {:induction false} FirstMatchIsFirst<T>(items: seq<T>, from: nat, p: T -> bool)
    requires from <= |items|
    ensures forall t :: from <= t < FirstMatch(items, from, p) ==> !p(items[t])
    decreases |items| - from
  {
    if from < |items| && !p(items[from]) {
      FirstMatchIsFirst(items, from + 1, p);
    }
  }

  /** The elements of `xs` whose keys, at the same positions in `keys`,
      satisfy `p` when `want` holds and fail it otherwise, in order. */
  function Pick<A, T>(xs: seq<A>, keys: seq<T>, p: T -> bool, want: bool): (r: seq<A>)
    requires |xs| == |keys|
    ensures |r| <= |xs|
    decreases |xs|
  {
    if xs == [] then []
    else (if p(keys[0]) == want then [xs[0]] else []) + Pick(xs[1..], keys[1..], p, want)
  }

  /** Every element is picked exactly once: by `p` or by its negation. */
  lemma {:induction false} PickPartition<A, T>(xs: seq<A>, keys: seq<T>, p: T -> bool)
    requires |xs| == |keys|
    ensures |Pick(xs, keys, p, true)| + |Pick(xs, keys, p, false)| == |xs|
    decreases |xs|
  {
    if xs != [] {
      PickPartition(xs[1..], keys[1..], p);
    }
  }

  /** The items picked with `want` are exactly those on which `p` is
      `want`: nothing else is picked and nothing is lost. */
  lemma {:induction false} PickExact<T>(items: seq<T>, p: T -> bool, want: bool)
    ensures forall x :: x in Pick(items, items, p, want) <==> x in items && p(x) == want
    decreases |items|
  {
    if items != [] {
      PickExact(items[1..], p, want);
      assert items == [items[0]] + items[1..];
    }
  }

  /** With no key satisfying `p`, nothing is picked and everything is
      rejected. */
  lemma {:induction false} PickNoMatch<A, T>(xs: seq<A>, keys: seq<T>, p: T -> bool)
    requires |xs| == |keys|
    requires forall t :: 0 <= t < |keys| ==> !p(keys[t])
    ensures Pick(xs, keys, p, true) == [] && Pick(xs, keys, p, false) == xs
    decreases |xs|
  {
    if xs != [] {
      PickNoMatch(xs[1..], keys[1..], p);
    }
  }

  /** Everything picked is an element of `xs`. */
  lemma {:induction false} PickWithin<A, T>(xs: seq<A>, keys: seq<T>, p: T -> bool, want: bool)
    requires |xs| == |keys|
    ensures forall k :: 0 <= k < |Pick(xs, keys, p, want)| ==> Pick(xs, keys, p, want)[k] in xs
    decreases |xs|
  {
    if xs != [] {
      PickWithin(xs[1..], keys[1..], p, want);
    }
  }

  /** When the first key satisfying `p` is at `m`, the picked elements are
      the one at `m` followed by those picked after it, and the rejected
      ones are everything before `m` followed by those rejected after it. */
  lemma {:induction false} PickFirstMatch<A, T>(xs: seq<A>, keys: seq<T>, p: T -> bool, m: nat)
    requires |xs| == |keys| && m < |xs|
    requires forall t :: 0 <= t < m ==> !p(keys[t])
    requires p(keys[m])
    ensures Pick(xs, keys, p, true) == [xs[m]] + Pick(xs[m + 1..], keys[m + 1..], p, true)
    ensures Pick(xs, keys, p, false) == xs[..m] + Pick(xs[m + 1..], keys[m + 1..], p, false)
    decreases m
  {
    if m > 0 {
      PickFirstMatch(xs[1..], keys[1..], p, m - 1);
      assert xs[1..][m..] == xs[m + 1..] && keys[1..][m..] == keys[m + 1..];
      assert xs[..m] == [xs[0]] + xs[1..][..m - 1];
    }
  }

  /** What one round of `remove_all_nodes` leaves behind, given what
      `remove_first_node` promises: the scan goes on with the removed node
      appended, or, with no match left, it is complete. */
  lemma RoundOutcome<T>(nodes: seq<Node<T>>, items: seq<T>, i0: nat, p: T -> bool, removed: seq<Node<T>>,
                        ns: seq<Node<T>>, js: seq<T>, idx: nat,
                        r: Option<Node<T>>, ms: seq<Node<T>>, ks: seq<T>, m: nat)
    requires Scanning(nodes, items, i0, p, removed, ns, js, idx)
    requires forall k :: 0 <= k < |ns| ==> ns[k] in nodes
    requires m == FirstMatch(js, idx, p)
    requires m == |ns| ==> r.None? && ms == ns && ks == js
    requires m < |ns| ==> r == Some(ns[m]) && ms == ns[..m] + ns[m + 1..] && ks == js[..m] + js[m + 1..]
    ensures forall k :: 0 <= k < |ms| ==> ms[k] in nodes
    ensures r.Some? ==> && Scanning(nodes, items, i0, p, removed + [r.value], ms, ks, m)
                        && |ms| - m < |ns| - idx
    ensures r.None? ==> && m == |ms|
                        && removed == Pick(nodes[i0..], items[i0..], p, true)
                        && ms == nodes[..i0] + Pick(nodes[i0..], items[i0..], p, false)
                        && ks == items[..i0] + Pick(items[i0..], items[i0..], p, false)
  {
    if m < |ns| {
      RoundKeepsScanning(nodes, items, i0, p, removed, ns, js, idx, m, ns[m], ms, ks);
      StaysWithin(nodes, ns, m, ms);
    } else {
      ScanDone(nodes, items, i0, p, removed, ns, js, idx);
    }
  }

  /** One round of `remove_all_nodes` on the sequence `xs` with parallel
      `keys`: removing the first match `m` at or after `idx`, which leaves
      `ys` and `ks`, moves it from what remains to be scanned to what was
      picked, and leaves the rejected elements where they were. */
  lemma RemoveRound<A, T>(xs: seq<A>, keys: seq<T>, p: T -> bool, idx: nat, m: nat, ys: seq<A>, ks: seq<T>)
    requires |xs| == |keys| && idx <= m < |xs|
    requires forall t :: idx <= t < m ==> !p(keys[t])
    requires p(keys[m])
    requires ys == xs[..m] + xs[m + 1..] && ks == keys[..m] + keys[m + 1..]
    ensures Pick(xs[idx..], keys[idx..], p, true) == [xs[m]] + Pick(ys[m..], ks[m..], p, true)
    ensures xs[..idx] + Pick(xs[idx..], keys[idx..], p, false) == ys[..m] + Pick(ys[m..], ks[m..], p, false)
  {
    PickFirstMatch(xs[idx..], keys[idx..], p, m - idx);
    assert xs[idx..][m - idx + 1..] == ys[m..];
    assert keys[idx..][m - idx + 1..] == ks[m..];
    assert xs[..idx] + xs[idx..][..m - idx] == ys[..m];
  }

  /** The state of `remove_all_nodes` after some rounds, against the
      original nodes `ns0` and items `js0` from position `i0`: the nodes
      `removed` so far, followed by those still to be picked from the
      cursor's position `idx` in the current nodes `ns` and items `js`, are
      what the whole scan picks, and the same holds for what it keeps. */
  ghost predicate Scanning<T>(ns0: seq<Node<T>>, js0: seq<T>, i0: nat, p: T -> bool,
                              removed: seq<Node<T>>, ns: seq<Node<T>>, js: seq<T>, idx: nat)
  {
    && |ns0| == |js0| && i0 <= |ns0| && |ns| == |js| && idx <= |ns|
    && removed + Pick(ns[idx..], js[idx..], p, true) == Pick(ns0[i0..], js0[i0..], p, true)
    && ns[..idx] + Pick(ns[idx..], js[idx..], p, false) == ns0[..i0] + Pick(ns0[i0..], js0[i0..], p, false)
    && js[..idx] + Pick(js[idx..], js[idx..], p, false) == js0[..i0] + Pick(js0[i0..], js0[i0..], p, false)
  }

  /** Removing one element of `ns` keeps every remaining element among
      those of `ns0`. */
  lemma StaysWithin<A>(ns0: seq<A>, ns: seq<A>, m: nat, ms: seq<A>)
    requires m < |ns| && ms == ns[..m] + ns[m + 1..]
    requires forall k :: 0 <= k < |ns| ==> ns[k] in ns0
    ensures forall k :: 0 <= k < |ms| ==> ms[k] in ns0
  {
    assert forall k :: 0 <= k < |ms| ==> ms[k] == ns[if k < m then k else k + 1];
  }

  /** A round that removes the first match `m` at or after `idx` keeps the
      scan's state, with the removed node appended. */
  lemma RoundKeepsScanning<T>(ns0: seq<Node<T>>, js0: seq<T>, i0: nat, p: T -> bool,
                              removed: seq<Node<T>>, ns: seq<Node<T>>, js: seq<T>, idx: nat,
                              m: nat, x: Node<T>, ms: seq<Node<T>>, ks: seq<T>)
    requires Scanning(ns0, js0, i0, p, removed, ns, js, idx)
    requires m == FirstMatch(js, idx, p) && m < |ns|
    requires x == ns[m] && ms == ns[..m] + ns[m + 1..] && ks == js[..m] + js[m + 1..]
    ensures Scanning(ns0, js0, i0, p, removed + [x], ms, ks, m)
  {
    FirstMatchIsFirst(js, idx, p);
    RemoveRound(ns, js, p, idx, m, ms, ks);
    RemoveRound(js, js, p, idx, m, ks, ks);
    assert removed + ([ns[m]] + Pick(ms[m..], ks[m..], p, true)) == removed + [ns[m]] + Pick(ms[m..], ks[m..], p, true);
  }

  /** The last round of `remove_all_nodes`: with no match at or after
      `idx`, nothing more is picked and the whole sequence is kept. */
  lemma RemoveDone<A, T>(xs: seq<A>, keys: seq<T>, p: T -> bool, idx: nat)
    requires |xs| == |keys| && idx <= |xs|
    requires FirstMatch(keys, idx, p) == |keys|
    ensures Pick(xs[idx..], keys[idx..], p, true) == []
    ensures xs[..idx] + Pick(xs[idx..], keys[idx..], p, false) == xs
  {
    FirstMatchIsFirst(keys, idx, p);
    PickNoMatch(xs[idx..], keys[idx..], p);
    assert xs[..idx] + xs[idx..] == xs;
  }

  /** The scan of `remove_first_node`: moves the cursor forward until the
      item under it satisfies `p`, or off the end of the list. */
  method SeekMatch<T>(c: CursorMut<T>, p: T -> bool)
    requires c.Valid()
    modifies c
    ensures c.Valid()
    ensures c.index == FirstMatch(c.list.items, old(c.index), p)
  {
    ghost var i0 := c.index;
    while true
      invariant c.Valid()
      invariant i0 <= c.index <= FirstMatch(c.list.items, i0, p)
      decreases |c.list.nodes| - c.index
    {
      FirstMatchIsFirst(c.list.items, i0, p);
      var item := c.Get();
      if item.None? || p(item.value) {
        return;
      }
      c.MoveForward();
    }
  }

  /** `remove_first_node`: scans forward from the cursor for the first item
      satisfying `p` and removes its node, leaving the cursor where the
      node was; with no match the cursor ends off the end of the list and
      the list is unchanged. */
  method RemoveFirstNode<T>(c: CursorMut<T>, p: T -> bool) returns (r: Option<Node<T>>)
    requires c.Valid()
    modifies c, c.list, c.list.nodes
    ensures c.Valid()
    ensures c.index == FirstMatch(old(c.list.items), old(c.index), p)
    ensures c.index == old(|c.list.nodes|) ==>
              r.None? && c.list.nodes == old(c.list.nodes) && c.list.items == old(c.list.items)
    ensures c.index < old(|c.list.nodes|) ==>
              && r == Some(old(c.list.nodes)[c.index])
              && c.list.nodes == old(c.list.nodes)[..c.index] + old(c.list.nodes)[c.index + 1..]
              && c.list.items == old(c.list.items)[..c.index] + old(c.list.items)[c.index + 1..]
              && r.value.next == null && r.value.prev == null
              && r.value.item == old(c.list.items)[c.index]
    ensures forall n :: n in old(c.list.nodes) ==> n.item == old(n.item)
  {
    SeekMatch(c, p);
    if c.current == null {
      return None;
    }
    ghost var ns, i := c.list.nodes, c.index;
    r := c.RemoveNode();
    forall n | n in ns
      ensures n.item == old(n.item)
    {
      var j :| 0 <= j < |ns| && ns[j] == n;
      if j < i {
        assert c.list.nodes[j] == n;
      } else if i < j {
        assert c.list.nodes[j - 1] == n;
      }
    }
  }

  /** The end of `remove_all_nodes`: with no match left after `idx`, the
      scan has picked exactly the matching nodes and kept the others. */
  lemma ScanDone<T>(ns0: seq<Node<T>>, js0: seq<T>, i0: nat, p: T -> bool,
                    removed: seq<Node<T>>, ns: seq<Node<T>>, js: seq<T>, idx: nat)
    requires Scanning(ns0, js0, i0, p, removed, ns, js, idx)
    requires FirstMatch(js, idx, p) == |js|
    ensures removed == Pick(ns0[i0..], js0[i0..], p, true)
    ensures ns == ns0[..i0] + Pick(ns0[i0..], js0[i0..], p, false)
    ensures js == js0[..i0] + Pick(js0[i0..], js0[i0..], p, false)
  {
    RemoveDone(ns, js, p, idx);
    RemoveDone(js, js, p, idx);
  }

  /** One round of `remove_all_nodes`: removes the next matching node, if
      any, and keeps the scan's state with that node appended; with none
      left, the scan is complete. */
  method RemoveAllRound<T>(c: CursorMut<T>, p: T -> bool, ghost nodes: seq<Node<T>>, ghost items: seq<T>,
                           ghost i0: nat, ghost removed: seq<Node<T>>) returns (r: Option<Node<T>>)
    requires c.Valid() && i0 <= c.index
    requires forall k :: 0 <= k < |c.list.nodes| ==> c.list.nodes[k] in nodes
    requires Scanning(nodes, items, i0, p, removed, c.list.nodes, c.list.items, c.index)
    modifies c, c.list, c.list.nodes
    ensures c.Valid() && i0 <= c.index
    ensures forall k :: 0 <= k < |c.list.nodes| ==> c.list.nodes[k] in nodes
    ensures r.Some? ==> && Scanning(nodes, items, i0, p, removed + [r.value], c.list.nodes, c.list.items, c.index)
                        && |c.list.nodes| - c.index < old(|c.list.nodes| - c.index)
    ensures r.None? ==> && c.index == |c.list.nodes|
                        && removed == Pick(nodes[i0..], items[i0..], p, true)
                        && c.list.nodes == nodes[..i0] + Pick(nodes[i0..], items[i0..], p, false)
                        && c.list.items == items[..i0] + Pick(items[i0..], items[i0..], p, false)
    ensures forall n :: n in old(c.list.nodes) ==> n.item == old(n.item)
  {
    ghost var ns := c.list.nodes;
    ghost var js := c.list.items;
    ghost var idx := c.index;
    r := RemoveFirstNode(c, p);
    RoundOutcome(nodes, items, i0, p, removed, ns, js, idx, r, c.list.nodes, c.list.items, c.index);
  }

  /** `remove_all_nodes`: removes every node from the cursor to the end
      whose item satisfies `p` and returns them in list order; the list
      keeps the other nodes in their order, and the cursor ends off the
      end of the list. */
  method RemoveAllNodes<T>(c: CursorMut<T>, p: T -> bool) returns (removed: seq<Node<T>>)
    requires c.Valid()
    modifies c, c.list, c.list.nodes
    ensures c.Valid() && c.index == |c.list.nodes|
    ensures removed == Pick(old(c.list.nodes[c.index..]), old(c.list.items[c.index..]), p, true)
    ensures c.list.nodes
            == old(c.list.nodes[..c.index]) + Pick(old(c.list.nodes[c.index..]), old(c.list.items[c.index..]), p, false)
    ensures c.list.items
            == old(c.list.items[..c.index]) + Pick(old(c.list.items[c.index..]), old(c.list.items[c.index..]), p, false)
    ensures forall n :: n in old(c.list.nodes) ==> n.item == old(n.item)
    ensures forall k :: 0 <= k < |removed| ==> removed[k] in old(c.list.nodes) && removed[k].item == old(removed[k].item)
  {
    ghost var i0 := c.index;
    ghost var nodes := c.list.nodes;
    ghost var items := c.list.items;
    removed := [];
    while true
      invariant c.Valid() && i0 <= c.index
      invariant forall k :: 0 <= k < |c.list.nodes| ==> c.list.nodes[k] in nodes
      invariant Scanning(nodes, items, i0, p, removed, c.list.nodes, c.list.items, c.index)
      invariant forall k :: 0 <= k < |nodes| ==> nodes[k].item == items[k]
      decreases |c.list.nodes| - c.index
    {
      var r := RemoveAllRound(c, p, nodes, items, i0, removed);
      if r.None? {
        break;
      }
      removed := removed + [r.value];
    }
    PickWithin(nodes[i0..], items[i0..], p, true);
  }

  /** `f` applied to each item of `s`, in order. */
  function Map<A, B>(f: A -> B, s: seq<A>): (r: seq<B>)
    ensures |r| == |s|
    ensures forall k :: 0 <= k < |s| ==> r[k] == f(s[k])
    decreases |s|
  {
    if s == [] then [] else [f(s[0])] + Map(f, s[1..])
  }

  /** Rewriting the item of the node at `i`, and the matching entry of the
      list's items, keeps the list valid. */
  twostate lemma ItemUpdateKeepsValid<T>(l: List<T>, new i: nat)
    requires old(l.Valid()) && i < old(|l.nodes|)
    requires l.nodes == old(l.nodes) && l.len == old(l.len)
    requires l.head == old(l.head) && l.tail == old(l.tail)
    requires forall o :: o in l.nodes ==> o.next == old(o.next) && o.prev == old(o.prev)
    requires forall o :: o in l.nodes && o != l.nodes[i] ==> o.item == old(o.item)
    requires l.items == old(l.items)[i := l.nodes[i].item]
    ensures l.Valid()
  {
    OnlyAt(l.nodes, i);
    ChainUnchanged(l.nodes);
  }

  /** One step of `map_in_place`: rewrites the current node's item with
      `f` and moves the cursor to the next node. */
  method MapStep<T>(c: CursorMut<T>, f: T -> T)
    requires c.Valid() && c.current != null
    modifies c, c.list, c.current
    ensures c.Valid() && c.list.nodes == old(c.list.nodes) && c.index == old(c.index) + 1
    ensures c.list.items == old(c.list.items[c.index := f(c.list.items[c.index])])
  {
    var node := c.current;
    label before:
    node.item := f(node.item);
    c.list.items := c.list.items[c.index := node.item];
    ItemUpdateKeepsValid@before(c.list, c.index);
    c.MoveForward();
  }

  /** The end of `map_in_place`: with every entry from `i0` on rewritten,
      the items are the untouched prefix followed by the mapped suffix. */
  lemma MapDone<T>(items: seq<T>, js: seq<T>, f: T -> T, i0: nat)
    requires i0 <= |items| == |js|
    requires forall k :: 0 <= k < |items| ==> js[k] == if i0 <= k then f(items[k]) else items[k]
    ensures js == items[..i0] + Map(f, items[i0..])
  {
  }

  /** `map_in_place`: rewrites the item of every node from the cursor to
      the end with `f`, in place; the nodes, their order and the items
      before the cursor stay as they were, and the cursor ends off the end
      of the list. */
  method MapInPlace<T>(c: CursorMut<T>, f: T -> T)
    requires c.Valid()
    modifies c, c.list, c.list.nodes
    ensures c.Valid() && c.index == |c.list.nodes|
    ensures c.list.nodes == old(c.list.nodes)
    ensures c.list.items == old(c.list.items[..c.index]) + Map(f, old(c.list.items[c.index..]))
  {
    ghost var i0 := c.index;
    ghost var nodes := c.list.nodes;
    ghost var items := c.list.items;
    while true
      invariant c.Valid() && c.list.nodes == nodes && i0 <= c.index
      invariant |c.list.items| == |items|
      invariant forall k :: 0 <= k < |items| ==>
                  c.list.items[k] == if i0 <= k < c.index then f(items[k]) else items[k]
      decreases |nodes| - c.index
    {
      if c.current == null {
        break;
      }
      MapStep(c, f);
    }
    MapDone(items, c.list.items, f, i0);
  }
}
