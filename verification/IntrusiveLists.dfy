/** The kernel's intrusive doubly linked lists, with a sentinel at either end. */
module IntrusiveLists {
  import opened Lists

  class Node {
    var prev: Node?
    var next: Node?
    const key: int

    constructor (k: int)
      ensures prev == null && next == null && key == k
    {
      prev, next, key := null, null, k;
    }
  }

  ghost predicate Joined(a: Node, b: Node)
    reads a, b
  {
    a.next == b && b.prev == a
  }

  /** Consecutive nodes point at each other, and the ends point nowhere. */
  ghost predicate Chained(c: seq<Node>)
    reads c
  {
    && |c| >= 2 && NoDup(c) && c[0].prev == null && c[|c| - 1].next == null
    && forall i :: 0 <= i < |c| - 1 ==> Joined(c[i], c[i + 1])
  }

  lemma InsertedNoDup(s: seq<Node>, k: nat, n: Node)
    requires k <= |s| && NoDup(s) && n !in s
    ensures NoDup(Inserted(s, k, n))
  {
    InsertedAt(s, k, n);
    hide Inserted;
  }

  lemma InsertedEnds(s: seq<Node>, n: Node)
    ensures Inserted(s, 0, n) == [n] + s && Inserted(s, |s|, n) == s + [n]
  {}

  lemma CutNoDup(s: seq<Node>, k: nat)
    requires k < |s| && NoDup(s)
    ensures NoDup(Cut(s, k)) && s[k] !in Cut(s, k)
  {
    CutAt(s, k);
    hide Cut;
  }

  /** `list_insert_before`, next to node `k` of the chain. */
  method LinkBefore(anchor: Node, node: Node, ghost c: seq<Node>, ghost k: nat)
    requires Chained(c) && 0 < k < |c| && c[k] == anchor && node !in c
    modifies c, node
    ensures Chained(Inserted(c, k, node))
  {
    InsertedAt(c, k, node);
    InsertedNoDup(c, k, node);
    assert Joined(c[k - 1], c[k]);
    node.prev := anchor.prev;
    node.next := anchor;
    anchor.prev.next := node;
    anchor.prev := node;
    ghost var d := Inserted(c, k, node);
    hide Inserted;
    forall i | 0 <= i < |d| - 1 ensures Joined(d[i], d[i + 1]) {
      if i < k - 1 {
        assert old(Joined(c[i], c[i + 1]));
      } else if i > k {
        assert old(Joined(c[i - 1], c[i]));
      }
    }
  }

  /** `list_insert_after`. */
  method LinkAfter(anchor: Node, node: Node, ghost c: seq<Node>, ghost k: nat)
    requires Chained(c) && k < |c| - 1 && c[k] == anchor && node !in c
    modifies c, node
    ensures Chained(Inserted(c, k + 1, node))
  {
    InsertedAt(c, k + 1, node);
    InsertedNoDup(c, k + 1, node);
    assert Joined(c[k], c[k + 1]);
    node.prev := anchor;
    node.next := anchor.next;
    anchor.next.prev := node;
    anchor.next := node;
    ghost var d := Inserted(c, k + 1, node);
    hide Inserted;
    forall i | 0 <= i < |d| - 1 ensures Joined(d[i], d[i + 1]) {
      if i < k {
        assert old(Joined(c[i], c[i + 1]));
      } else if i > k + 1 {
        assert old(Joined(c[i - 1], c[i]));
      }
    }
  }

  /** `list_remove`: its asserts hold for a node that is in a list. */
  method Unlink(node: Node, ghost c: seq<Node>, ghost k: nat)
    requires Chained(c) && 0 < k < |c| - 1 && c[k] == node
    modifies c
    ensures Chained(Cut(c, k)) && node.prev == null && node.next == null
  {
    CutAt(c, k);
    CutNoDup(c, k);
    assert Joined(c[k - 1], c[k]) && Joined(c[k], c[k + 1]);
    assert node.prev != null && node.next != null;
    node.prev.next := node.next;
    node.next.prev := node.prev;
    node.next := null;
    node.prev := null;
    ghost var d := Cut(c, k);
    hide Cut;
    forall i | 0 <= i < |d| - 1 ensures Joined(d[i], d[i + 1]) {
      if i < k - 1 {
        assert old(Joined(c[i], c[i + 1]));
      } else if i > k - 1 {
        assert old(Joined(c[i + 1], c[i + 2]));
      }
    }
  }

  class List {
    const head: Node
    const tail: Node
    ghost var nodes: seq<Node>

    ghost function Chain(): seq<Node>
      reads this
    {
      [head] + nodes + [tail]
    }

    ghost predicate Valid()
      reads this, Chain()
    {
      Chained(Chain())
    }

    /** `list_init`. */
    constructor ()
      ensures Valid() && nodes == [] && fresh(head) && fresh(tail)
    {
      var h := new Node(0);
      var t := new Node(0);
      h.next := t;
      t.prev := h;
      head, tail, nodes := h, t, [];
    }

    lemma ChainAt()
      ensures |Chain()| == |nodes| + 2 && Chain()[0] == head && Chain()[|nodes| + 1] == tail
      ensures forall i :: 0 <= i < |nodes| ==> Chain()[i + 1] == nodes[i]
    {}

    /** `list_empty`. */
    method Empty() returns (empty: bool)
      requires Valid()
      ensures empty <==> nodes == []
    {
      ChainAt();
      assert Joined(Chain()[0], Chain()[1]);
      empty := head.next == tail;
    }

    /** `list_search`. */
    method Search(node: Node) returns (found: bool)
      requires Valid()
      ensures found <==> node in nodes
    {
      ChainAt();
      ghost var i := 0;
      assert Joined(Chain()[0], Chain()[1]);
      var next := head.next;
      while next != tail
        invariant 0 <= i <= |nodes| && next == Chain()[i + 1] && node !in nodes[..i]
        decreases |nodes| - i
      {
        assert Joined(Chain()[i + 1], Chain()[i + 2]);
        if next == node {
          return true;
        }
        next := next.next;
        i := i + 1;
      }
      found := false;
    }

    /** `list_size`. */
    method Size() returns (size: nat)
      requires Valid()
      ensures size == |nodes|
    {
      ChainAt();
      assert Joined(Chain()[0], Chain()[1]);
      var next := head.next;
      size := 0;
      while next != tail
        invariant size <= |nodes| && next == Chain()[size + 1]
        decreases |nodes| - size
      {
        assert Joined(Chain()[size + 1], Chain()[size + 2]);
        next := next.next;
        size := size + 1;
      }
    }

    lemma PushedInside(node: Node)
      ensures |Chain()| == |nodes| + 2 && Chain()[0] == head && Chain()[|nodes| + 1] == tail
      ensures Inserted(Chain(), 1, node) == [head] + ([node] + nodes) + [tail]
      ensures Inserted(Chain(), |nodes| + 1, node) == [head] + (nodes + [node]) + [tail]
    {
      InsertedInside(0, node);
      InsertedInside(|nodes|, node);
      InsertedEnds(nodes, node);
    }

    /** `list_push`; its assert asks that the node is not in the list. */
    method Push(node: Node)
      requires Valid() && node !in Chain()
      modifies this, Chain(), node
      ensures Valid() && nodes == [node] + old(nodes)
    {
      PushedInside(node);
      hide Inserted, Chained;
      LinkAfter(head, node, Chain(), 0);
      nodes := [node] + nodes;
    }

    /** `list_pushback`. */
    method PushBack(node: Node)
      requires Valid() && node !in Chain()
      modifies this, Chain(), node
      ensures Valid() && nodes == old(nodes) + [node]
    {
      PushedInside(node);
      hide Inserted, Chained;
      LinkBefore(tail, node, Chain(), |nodes| + 1);
      nodes := nodes + [node];
    }

    /** `list_remove`, of a node of this list. */
    method Remove(node: Node)
      requires Valid() && node in nodes
      modifies this, Chain()
      ensures Valid() && nodes == Without(old(nodes), node) && node !in nodes && node.prev == null && node.next == null
    {
      ghost var k :| 0 <= k < |nodes| && nodes[k] == node;
      RemoveAt(node, k);
    }

    method RemoveAt(node: Node, ghost k: nat)
      requires Valid() && k < |nodes| && nodes[k] == node
      modifies this, Chain()
      ensures Valid() && nodes == Without(old(nodes), node) == old(nodes)[..k] + old(nodes)[k + 1..] && node !in nodes
      ensures node.prev == null && node.next == null
    {
      ChainAt();
      NodesNoDup(k);
      WithoutSplits(nodes[..k], node, nodes[k + 1..]);
      assert nodes == nodes[..k] + [node] + nodes[k + 1..];
      CutNoDup(Chain(), k + 1);
      ghost var rest := nodes[..k] + nodes[k + 1..];
      assert Cut(Chain(), k + 1) == [head] + rest + [tail];
      Unlink(node, Chain(), k + 1);
      nodes := rest;
    }

    lemma NodesNoDup(k: nat)
      requires NoDup(Chain()) && k < |nodes|
      ensures nodes[k] !in nodes[..k] && nodes[k] !in nodes[k + 1..]
    {
      ChainAt();
      forall i | 0 <= i < |nodes| && i != k ensures nodes[i] != nodes[k] {
        assert Chain()[i + 1] != Chain()[k + 1];
      }
    }

    /** `list_pop`. */
    method Pop() returns (node: Node)
      requires Valid() && nodes != []
      modifies this, Chain()
      ensures Valid() && [node] + nodes == old(nodes) && node.prev == null && node.next == null
    {
      ChainAt();
      assert Joined(Chain()[0], Chain()[1]);
      node := head.next;
      RemoveAt(node, 0);
    }

    /** `list_popback`. */
    method PopBack() returns (node: Node)
      requires Valid() && nodes != []
      modifies this, Chain()
      ensures Valid() && nodes + [node] == old(nodes) && node.prev == null && node.next == null
    {
      ChainAt();
      assert Joined(Chain()[|nodes|], Chain()[|nodes| + 1]);
      node := tail.prev;
      RemoveAt(node, |nodes| - 1);
    }

    /** `list_insert_sort`: before the first node with a larger key. */
    method InsertSort(node: Node) returns (ghost k: nat)
      requires Valid() && node !in Chain()
      modifies this, Chain(), node
      ensures Valid() && k <= |old(nodes)| && nodes == Inserted(old(nodes), k, node)
      ensures forall i :: 0 <= i < k ==> old(nodes)[i].key <= node.key
      ensures k < |old(nodes)| ==> old(nodes)[k].key > node.key
    {
      var anchor;
      anchor, k := FindAnchor(node.key);
      InsertAt(anchor, node, k);
    }

    /** The loop of `list_insert_sort`: the first node with a larger key, else the tail. */
    method FindAnchor(key: int) returns (anchor: Node, ghost k: nat)
      requires Valid()
      ensures k <= |nodes| && anchor == Chain()[k + 1]
      ensures forall i :: 0 <= i < k ==> nodes[i].key <= key
      ensures k < |nodes| ==> nodes[k].key > key
    {
      ChainAt();
      k := 0;
      assert Joined(Chain()[0], Chain()[1]);
      anchor := head.next;
      while anchor != tail
        invariant k <= |nodes| && anchor == Chain()[k + 1] && forall i :: 0 <= i < k ==> nodes[i].key <= key
        decreases |nodes| - k
      {
        assert Joined(Chain()[k + 1], Chain()[k + 2]);
        if anchor.key > key {
          break;
        }
        anchor := anchor.next;
        k := k + 1;
      }
    }

    method InsertAt(anchor: Node, node: Node, ghost k: nat)
      requires Valid() && node !in Chain() && k <= |nodes| && anchor == Chain()[k + 1]
      modifies this, Chain(), node
      ensures Valid() && nodes == Inserted(old(nodes), k, node)
    {
      ChainAt();
      LinkBefore(anchor, node, Chain(), k + 1);
      InsertedInside(k, node);
      hide Inserted, Chained;
      nodes := Inserted(nodes, k, node);
    }

    lemma InsertedInside(k: nat, node: Node)
      requires k <= |nodes| && |Chain()| == |nodes| + 2
      ensures Inserted(Chain(), k + 1, node) == [head] + Inserted(nodes, k, node) + [tail]
    {
      assert Chain()[..k + 1] == [head] + nodes[..k] && Chain()[k + 1..] == nodes[k..] + [tail];
    }
  }

  ghost predicate Ascending(s: seq<Node>) { forall i, j :: 0 <= i < j < |s| ==> s[i].key <= s[j].key }

  /** Insertion keeps an ascending list ascending. */
  lemma InsertSortKeepsOrder(s: seq<Node>, k: nat, n: Node)
    requires Ascending(s) && k <= |s| && (forall i :: 0 <= i < k ==> s[i].key <= n.key) && (k < |s| ==> s[k].key > n.key)
    ensures Ascending(Inserted(s, k, n))
  {
    InsertedAt(s, k, n);
    hide Inserted;
  }
}
