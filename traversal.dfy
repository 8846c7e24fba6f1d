/** The node iterator of the link selector. Its deque receives the root with
    `push` (at the head); every step `pop`s the head and appends the popped
    node's children at the tail with `addAll`. The deque is therefore a FIFO
    queue and the nodes come out level by level, siblings left to right,
    which is not document pre-order. */
module Traversal {
  import opened Dom

  /** The deque after one step of the iterator: the head is popped and its
      children are appended at the tail. */
  function Drain(q: seq<Item>): seq<Item>
    requires q != []
  {
    q[1..] + ChildItems(q[0])
  }

  /** The stack after one step of a pre-order walk: the head is popped and
      its children are put back in front, in their original order. */
  function Unstack(q: seq<Item>): seq<Item>
    requires q != []
  {
    ChildItems(q[0]) + q[1..]
  }

  /** Either step removes exactly one node from the trees still to visit. */
  lemma DrainStep(q: seq<Item>)
    requires q != []
    ensures QueueSize(Drain(q)) == QueueSize(q) - 1
    ensures QueueSize(Unstack(q)) == QueueSize(q) - 1
  {
    QueueSizeAppend(q[1..], ChildItems(q[0]));
    QueueSizeAppend(ChildItems(q[0]), q[1..]);
    QueueSizeChildItems(q[0]);
  }

  /** The nodes in the order the iterator yields them, from a deque
      holding `q`. */
  function Bfs(q: seq<Item>): seq<Item>
    decreases QueueSize(q)
  {
    if q == [] then []
    else
      DrainStep(q);
      [q[0]] + Bfs(Drain(q))
  }

  /** Reference order: document pre-order, from a stack holding `q`. */
  function Dfs(q: seq<Item>): seq<Item>
    decreases QueueSize(q)
  {
    if q == [] then []
    else
      DrainStep(q);
      [q[0]] + Dfs(Unstack(q))
  }

  /** The children of every node of `q`, in the order of `q`: the next level. */
  function AllChildren(q: seq<Item>): seq<Item>
  {
    if q == [] then [] else ChildItems(q[0]) + AllChildren(q[1..])
  }

  lemma {:induction false} QueueSizeAllChildren(q: seq<Item>)
    ensures QueueSize(AllChildren(q)) == QueueSize(q) - |q|
  {
    if q != [] {
      QueueSizeAllChildren(q[1..]);
      QueueSizeAppend(ChildItems(q[0]), AllChildren(q[1..]));
      QueueSizeChildItems(q[0]);
    }
  }

  /** Reference order: level order, one whole level after the other. */
  function LevelOrder(q: seq<Item>): seq<Item>
    decreases QueueSize(q)
  {
    if q == [] then []
    else
      QueueSizeAllChildren(q);
      q + LevelOrder(AllChildren(q))
  }

  lemma UnstackAppend(p: seq<Item>, q: seq<Item>)
    requires p != []
    ensures Unstack(p + q) == Unstack(p) + q
  {
    HeadTailAppend(p, q);
    AppendAssoc(ChildItems(p[0]), p[1..], q);
  }

  /** Whatever is already queued comes out first, in queue order, and its
      children are queued behind everything else. */
  lemma {:induction false} BfsAppend(p: seq<Item>, q: seq<Item>)
    ensures Bfs(p + q) == p + Bfs(q + AllChildren(p))
    decreases |p|
  {
    if p == [] {
      assert p + q == q;
      assert q + AllChildren(p) == q;
    } else {
      var x, p', kids := p[0], p[1..], ChildItems(p[0]);
      HeadTailAppend(p, q);
      AppendAssoc(p', q, kids);
      assert Bfs(p + q) == [x] + Bfs(p' + (q + kids));
      BfsAppend(p', q + kids);
      AppendAssoc(q, kids, AllChildren(p'));
      AppendAssoc([x], p', Bfs(q + AllChildren(p)));
    }
  }

  /** One step of the iterator from a deque whose head is `x`. */
  lemma BfsCons(x: Item, rest: seq<Item>)
    ensures Bfs([x] + rest) == [x] + Bfs(rest + ChildItems(x))
  {
    HeadTailAppend([x], rest);
  }

  /** One step of pre-order from a stack whose top is `x`. */
  lemma DfsCons(x: Item, rest: seq<Item>)
    ensures Dfs([x] + rest) == [x] + Dfs(ChildItems(x) + rest)
  {
    HeadTailAppend([x], rest);
  }

  /** A whole level comes out before the next one is started. */
  lemma BfsUnroll(q: seq<Item>)
    ensures Bfs(q) == q + Bfs(AllChildren(q))
  {
    BfsAppend(q, []);
    assert q + [] == q;
    assert [] + AllChildren(q) == AllChildren(q);
  }

  /** The iterator's order is level order. */
  lemma {:induction false} BfsIsLevelOrder(q: seq<Item>)
    ensures Bfs(q) == LevelOrder(q)
    decreases QueueSize(q)
  {
    if q != [] {
      BfsUnroll(q);
      QueueSizeAllChildren(q);
      BfsIsLevelOrder(AllChildren(q));
    }
  }

  /** Pre-order finishes the first queue's trees before the second's. */
  lemma {:induction false} DfsAppend(a: seq<Item>, b: seq<Item>)
    ensures Dfs(a + b) == Dfs(a) + Dfs(b)
    decreases QueueSize(a)
  {
    if a == [] {
      assert a + b == b;
    } else {
      UnstackAppend(a, b);
      assert (a + b)[0] == a[0];
      DrainStep(a);
      DfsAppend(Unstack(a), b);
    }
  }

  lemma {:induction false} DfsLength(q: seq<Item>)
    ensures |Dfs(q)| == QueueSize(q)
    decreases QueueSize(q)
  {
    if q != [] {
      DrainStep(q);
      DfsLength(Unstack(q));
    }
  }

  /** The iterator yields the same nodes as pre-order, each as often. */
  lemma {:induction false} BfsPermutesDfs(q: seq<Item>)
    ensures multiset(Bfs(q)) == multiset(Dfs(q))
    decreases QueueSize(q)
  {
    if q != [] {
      var x, rest, kids := q[0], q[1..], ChildItems(q[0]);
      DrainStep(q);
      BfsPermutesDfs(Drain(q));
      DfsAppend(rest, kids);
      DfsAppend(kids, rest);
      calc {
        multiset(Bfs(q));
        multiset([x]) + multiset(Bfs(rest + kids));
        multiset([x]) + multiset(Dfs(rest)) + multiset(Dfs(kids));
        multiset([x] + Dfs(kids + rest));
        multiset(Dfs(q));
      }
    }
  }

  /** Iterating a tree yields its root first and then every node of it,
      each exactly once (as pre-order does), in level order. */
  lemma BfsVisitsEveryNodeOnce(root: Item)
    ensures Bfs([root])[0] == root
    ensures |Bfs([root])| == Size(root.node)
    ensures multiset(Bfs([root])) == multiset(Dfs([root]))
    ensures Bfs([root]) == LevelOrder([root])
  {
    BfsPermutesDfs([root]);
    DfsLength([root]);
    assert |Bfs([root])| == |multiset(Bfs([root]))|;
    assert |Dfs([root])| == |multiset(Dfs([root]))|;
    BfsIsLevelOrder([root]);
  }

  /** The iterator over the nodes of a tree; `nodeStack` is the deque. */
  class WPIterator {
    var nodeStack: seq<Item>

    /** The nodes still to be yielded, in order. */
    ghost function Remaining(): seq<Item>
      reads this
    {
      Bfs(nodeStack)
    }

    constructor (root: Item)
      ensures nodeStack == [root]
      ensures Remaining() == Bfs([root])
    {
      nodeStack := [root];
    }

    method HasNext() returns (b: bool)
      ensures b <==> Remaining() != []
      ensures b <==> nodeStack != []
    {
      b := nodeStack != [];
    }

    method Next() returns (ret: Item)
      requires Remaining() != []
      modifies this
      ensures [ret] + Remaining() == old(Remaining())
      ensures nodeStack == old(nodeStack)[1..] + ChildItems(ret)
    {
      ret := nodeStack[0];
      HeadTailAppend([ret], nodeStack[1..]);
      BfsCons(ret, nodeStack[1..]);
      nodeStack := nodeStack[1..] + ChildItems(ret);
    }
  }

  /** The iterable wrapper that hands out a fresh iterator over `root`. */
  class WPIterable {
    var root: Item

    constructor (root: Item)
      ensures this.root == root
    {
      this.root := root;
    }

    method Iterator() returns (it: WPIterator)
      ensures fresh(it)
      ensures it.Remaining() == Bfs([root])
    {
      it := new WPIterator(root);
    }
  }
}
