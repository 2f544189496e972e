/** The intrusive circular doubly linked list of `double_list.h`, and the timer manager's use of it. */
module DoubleList {

  class Node {
    var prev: Node?
    var next: Node?

    constructor ()
      ensures prev == next == null
    {
      prev, next := null, null;
    }
  }

  ghost predicate Distinct(s: seq<Node>) {
    forall i, j :: 0 <= i < j < |s| ==> s[i] != s[j]
  }

  /** The node after position i of the ring, the first one again after the last. */
  ghost function After(ring: seq<Node>, i: nat): Node
    requires i < |ring|
  {
    if i + 1 < |ring| then ring[i + 1] else ring[0]
  }

  /** The node before position i of the ring, the last one before the first. */
  ghost function Before(ring: seq<Node>, i: nat): Node
    requires i < |ring|
  {
    if i > 0 then ring[i - 1] else ring[|ring| - 1]
  }

  lemma Neighbours(ring: seq<Node>, i: nat)
    requires i < |ring|
    ensures After(ring, i) in ring && Before(ring, i) in ring
  {
  }

  /** Only the last node has the first one after it. */
  lemma AtHead(ring: seq<Node>, i: nat)
    requires i < |ring| && Distinct(ring) && After(ring, i) == ring[0]
    ensures i == |ring| - 1
  {
  }

  lemma DistinctInsert(a: seq<Node>, node: Node, b: seq<Node>)
    requires Distinct(a + b) && node !in a + b
    ensures Distinct(a + [node] + b)
  {
    var old', new' := a + b, a + [node] + b;
    forall i, j | 0 <= i < j < |new'| ensures new'[i] != new'[j] {
      var i', j' := if i < |a| then i else i - 1, if j < |a| then j else j - 1;
      assert i != |a| ==> new'[i] == old'[i'];
      assert j != |a| ==> new'[j] == old'[j'];
    }
  }

  lemma DistinctDrop(r: seq<Node>, k: nat)
    requires Distinct(r) && k < |r|
    ensures Distinct(r[..k] + r[k + 1..])
  {
  }

  ghost predicate LinkedAt(ring: seq<Node>, i: nat)
    requires i < |ring|
    reads ring
  {
    ring[i].next == After(ring, i) && ring[i].prev == Before(ring, i)
  }

  /** Both chains of links run round exactly this ring of distinct nodes. */
  ghost predicate Linked(ring: seq<Node>)
    reads ring
  {
    Distinct(ring) && forall i :: 0 <= i < |ring| ==> LinkedAt(ring, i)
  }

  /** The list with this head holds these nodes, in this order. */
  ghost predicate IsList(head: Node, s: seq<Node>)
    reads head, s
  {
    Linked([head] + s)
  }

  /** DOUBLE_LIST_INIT. */
  method Init(head: Node)
    modifies head
    ensures IsList(head, [])
  {
    head.next := head;
    head.prev := head;
  }

  /** DOUBLE_LIST_INSERT_HEAD. */
  method InsertHead(head: Node, node: Node, ghost s: seq<Node>)
    requires IsList(head, s) && node !in [head] + s
    modifies head, node, After([head] + s, 0)
    ensures IsList(head, [node] + s)
  {
    ghost var ring, ring' := [head] + s, [head] + ([node] + s);
    DistinctInsert([head], node, s);
    assert ring' == [head] + [node] + s;
    assert LinkedAt(ring, 0);
    node.next := head.next;
    node.next.prev := node;
    node.prev := head;
    head.next := node;
    forall i | 0 <= i < |ring'|
      ensures LinkedAt(ring', i)
    {
      if i >= 2 { assert old(LinkedAt(ring, i - 1)) && ring'[i] == ring[i - 1]; }
    }
  }

  /** DOUBLE_LIST_INSERT_TAIL. */
  method InsertTail(head: Node, node: Node, ghost s: seq<Node>)
    requires IsList(head, s) && node !in [head] + s
    modifies head, node, Before([head] + s, 0)
    ensures IsList(head, s + [node])
  {
    ghost var ring, ring' := [head] + s, [head] + (s + [node]);
    assert ring + [] == ring;
    DistinctInsert(ring, node, []);
    assert ring' == ring + [node] + [];
    assert LinkedAt(ring, 0);
    node.prev := head.prev;
    node.next := head;
    node.prev.next := node;
    head.prev := node;
    forall i | 0 <= i < |ring'|
      ensures LinkedAt(ring', i)
    {
      if i < |ring| { assert old(LinkedAt(ring, i)) && ring'[i] == ring[i]; }
    }
  }

  /** DOUBLE_LIST_REMOVE: only the neighbours are written; the node keeps its stale links. */
  method Remove(node: Node, ghost head: Node, ghost s: seq<Node>, ghost k: nat)
    requires IsList(head, s) && k < |s| && s[k] == node
    modifies Before([head] + s, k + 1), After([head] + s, k + 1)
    ensures IsList(head, s[..k] + s[k + 1..])
    ensures node.next == old(node.next) && node.prev == old(node.prev)
  {
    ghost var ring, ring' := [head] + s, [head] + (s[..k] + s[k + 1..]);
    DistinctDrop(ring, k + 1);
    assert ring' == ring[..k + 1] + ring[k + 2..];
    assert LinkedAt(ring, k + 1);
    assert ring[k + 1] == node && ring[k] != node && After(ring, k + 1) != node;
    node.next.prev := node.prev;
    node.prev.next := node.next;
    forall i | 0 <= i < |ring'|
      ensures LinkedAt(ring', i)
    {
      ghost var j := if i <= k then i else i + 1;
      assert old(LinkedAt(ring, j)) && ring'[i] == ring[j];
    }
  }

  /** DOUBLE_LIST_FIRST; the head itself when the list is empty. */
  method First(head: Node, ghost s: seq<Node>) returns (node: Node)
    requires IsList(head, s)
    ensures node == if s == [] then head else s[0]
  {
    assert LinkedAt([head] + s, 0);
    node := head.next;
  }

  /** Following DOUBLE_LIST_FIRST and DOUBLE_LIST_NEXT until the head comes round again visits exactly
      the listed nodes, in order. */
  method Traverse(head: Node, ghost s: seq<Node>) returns (visited: seq<Node>)
    requires IsList(head, s)
    ensures visited == s
  {
    ghost var ring := [head] + s;
    visited := [];
    var node := First(head, s);
    while node != head
      invariant |visited| <= |s| && visited == s[..|visited|]
      invariant node == After(ring, |visited|)
      decreases |s| - |visited|
    {
      assert LinkedAt(ring, |visited| + 1);
      visited := visited + [node];
      node := node.next;
    }
    AtHead(ring, |visited|);
  }

  ghost function Reverse(s: seq<Node>): seq<Node> {
    if s == [] then [] else Reverse(s[1..]) + [s[0]]
  }

  lemma {:induction false} ReverseLast(s: seq<Node>)
    requires s != []
    ensures Reverse(s) == [s[|s| - 1]] + Reverse(s[..|s| - 1])
  {
    if |s| > 1 {
      ReverseLast(s[1..]);
      assert s[1..][..|s| - 2] == s[..|s| - 1][1..];
    }
  }

  /** Following the backward links visits them in reverse. */
  method TraverseBack(head: Node, ghost s: seq<Node>) returns (visited: seq<Node>)
    requires IsList(head, s)
    ensures visited == Reverse(s)
  {
    ghost var ring, left := [head] + s, |s|;
    assert LinkedAt(ring, 0);
    visited := [];
    var node := head.prev;
    assert s[..|s|] == s;
    while node != head
      invariant 0 <= left <= |s| && node == ring[left]
      invariant Reverse(s) == visited + Reverse(s[..left])
      decreases left
    {
      assert LinkedAt(ring, left);
      ReverseLast(s[..left]);
      assert s[..left][..left - 1] == s[..left - 1];
      visited := visited + [node];
      node := node.prev;
      left := left - 1;
    }
    assert left == 0 && s[..0] == [] && visited + [] == visited;
  }

  /** The links determine the list: a head holds one sequence of nodes only. */
  lemma OneList(head: Node, s: seq<Node>, s': seq<Node>)
    requires IsList(head, s) && IsList(head, s')
    ensures s == s'
  {
    if |s| <= |s'| {
      PrefixOf(head, s, s');
    } else {
      PrefixOf(head, s', s);
    }
  }

  lemma PrefixOf(head: Node, s: seq<Node>, s': seq<Node>)
    requires IsList(head, s) && IsList(head, s') && |s| <= |s'|
    ensures s == s'
  {
    var r, r' := [head] + s, [head] + s';
    SamePrefix(r, r', |s|);
    assert LinkedAt(r, |s|) && LinkedAt(r', |s|);
    AtHead(r', |s|);
    assert forall i :: 0 <= i < |s| ==> s[i] == r[i + 1] == r'[i + 1] == s'[i];
  }

  lemma {:induction false} SamePrefix(r: seq<Node>, r': seq<Node>, k: nat)
    requires Linked(r) && Linked(r') && k < |r| && k < |r'| && r[0] == r'[0]
    ensures forall i :: 0 <= i <= k ==> r[i] == r'[i]
  {
    if k > 0 {
      SamePrefix(r, r', k - 1);
      assert LinkedAt(r, k - 1) && LinkedAt(r', k - 1);
    }
  }

  // ---------- The timer manager's two lists ----------

  /** Remove from one list, insert at the head of another: how the manager passes nodes about. */
  method Move(node: Node, ghost from: Node, to: Node, ghost fs: seq<Node>, ghost ts: seq<Node>, ghost k: nat)
    requires IsList(from, fs) && IsList(to, ts) && k < |fs| && fs[k] == node
    requires Distinct(([from] + fs) + ([to] + ts))
    modifies [from] + fs, [to] + ts
    ensures IsList(from, fs[..k] + fs[k + 1..]) && IsList(to, [node] + ts)
  {
    hide Distinct, After, Before;
    ghost var f, t, f' := [from] + fs, [to] + ts, [from] + (fs[..k] + fs[k + 1..]);
    Apart(f, t);
    Neighbours(f, k + 1);
    Neighbours(t, 0);
    DroppedApart(f, t, k + 1);
    assert f' == f[..k + 1] + f[k + 2..];
    assert node == f[k + 1] && to == t[0];
    assert Before(f, k + 1) !in t && After(f, k + 1) !in t;
    Remove(node, from, fs, k);
    assert node !in t;
    assert node !in f';
    assert to in t && After(t, 0) in t;
    assert forall x :: x in f' ==> x in f && x !in t;
    label L:
    assert Linked(f');
    InsertHead(to, node, ts);
    forall i | 0 <= i < |f'|
      ensures LinkedAt(f', i)
    {
      assert f'[i] in f';
      assert f'[i] != to && f'[i] != node && f'[i] != After(t, 0);
      assert unchanged@L(f'[i]);
      assert old@L(LinkedAt(f', i));
    }
  }

  lemma Apart(a: seq<Node>, b: seq<Node>)
    requires Distinct(a + b)
    ensures forall x :: x in a ==> x !in b
  {
    forall i, j | 0 <= i < |a| && 0 <= j < |b| ensures a[i] != b[j] {
      assert (a + b)[i] == a[i] && (a + b)[|a| + j] == b[j];
    }
  }

  lemma DroppedApart(r: seq<Node>, t: seq<Node>, k: nat)
    requires Distinct(r + t) && k < |r|
    ensures r[k] !in r[..k] + r[k + 1..]
    ensures forall x :: x in r[..k] + r[k + 1..] ==> x in r
  {
    forall i, j | 0 <= i < j < |r| ensures r[i] != r[j] {
      assert (r + t)[i] == r[i] && (r + t)[j] == r[j];
    }
  }

  lemma HeadNotListed(head: Node, s: seq<Node>)
    requires IsList(head, s)
    ensures head !in s
  {
    forall i | 0 <= i < |s| ensures s[i] != head {
      assert ([head] + s)[i + 1] != ([head] + s)[0];
    }
  }

  /** `tm_alloc_timer`: the first free node moves to the allocated list; null when none is free. No node
      is lost or shared. */
  method AllocTimer(free: Node, alloc: Node, ghost fs: seq<Node>, ghost als: seq<Node>) returns (node: Node?)
    requires IsList(free, fs) && IsList(alloc, als)
    requires Distinct(([free] + fs) + ([alloc] + als))
    modifies [free] + fs, [alloc] + als
    ensures node == null <==> fs == []
    ensures fs == [] ==> IsList(free, fs) && IsList(alloc, als)
    ensures fs != [] ==> node == fs[0] && IsList(free, fs[1..]) && IsList(alloc, [fs[0]] + als)
  {
    var first := First(free, fs);
    HeadNotListed(free, fs);
    if first == free {
      return null;
    }
    hide IsList, Distinct;
    Move(first, free, alloc, fs, als, 0);
    assert fs[..0] + fs[1..] == fs[1..];
    return first;
  }

  /** `tm_delete_timer`: an allocated node goes back to the head of the free list. */
  method DeleteTimer(node: Node, free: Node, alloc: Node, ghost fs: seq<Node>, ghost als: seq<Node>, ghost k: nat)
    requires IsList(free, fs) && IsList(alloc, als) && k < |als| && als[k] == node
    requires Distinct(([alloc] + als) + ([free] + fs))
    modifies [free] + fs, [alloc] + als
    ensures IsList(alloc, als[..k] + als[k + 1..]) && IsList(free, [node] + fs)
  {
    Move(node, alloc, free, als, fs, k);
  }
}
