/**
  * The order in which the element search of lib/AXElements/Element.rb:103-127 dequeues
  * nodes: a FIFO queue seeded with the root's children, each dequeued node appending its
  * own children at the back. The walk is stated over any children function whose tree is
  * finite; `ElementSearch` instantiates it with the children the search reads.
  */
module BreadthFirst {
  import opened Binding

  /** Every child lies strictly lower than its parent: the tree is finite and acyclic. */
  ghost predicate Descending(kids: NodeId -> seq<NodeId>, height: NodeId -> nat)
  {
    forall n: NodeId, c: NodeId :: c in kids(n) ==> height(c) < height(n)
  }

  /** One more than the greatest height in the queue; 0 for the empty queue. */
  ghost function MaxHeight(height: NodeId -> nat, q: seq<NodeId>): nat
  {
    if q == [] then 0
    else
      var rest := MaxHeight(height, q[1..]);
      if height(q[0]) + 1 > rest then height(q[0]) + 1 else rest
  }

  lemma {:induction false} MaxHeightBound(height: NodeId -> nat, q: seq<NodeId>, bound: nat)
    requires forall c :: c in q ==> height(c) < bound
    ensures MaxHeight(height, q) <= bound
  {
    if q != [] {
      MaxHeightBound(height, q[1..], bound);
    }
  }

  /** The number of nodes the walk will dequeue from this queue. */
  ghost function QueueSize(kids: NodeId -> seq<NodeId>, height: NodeId -> nat, q: seq<NodeId>): nat
    requires Descending(kids, height)
    decreases MaxHeight(height, q), 1, |q|
  {
    if q == [] then 0 else NodeSize(kids, height, q[0]) + QueueSize(kids, height, q[1..])
  }

  /** The number of nodes in the subtree of `n`, `n` included. */
  ghost function NodeSize(kids: NodeId -> seq<NodeId>, height: NodeId -> nat, n: NodeId): nat
    requires Descending(kids, height)
    decreases height(n) + 1, 0, 0
  {
    MaxHeightBound(height, kids(n), height(n));
    1 + QueueSize(kids, height, kids(n))
  }

  lemma {:induction false} QueueSizeAppend(kids: NodeId -> seq<NodeId>, height: NodeId -> nat,
                                           a: seq<NodeId>, b: seq<NodeId>)
    requires Descending(kids, height)
    ensures QueueSize(kids, height, a + b) == QueueSize(kids, height, a) + QueueSize(kids, height, b)
  {
    if a == [] {
      assert a + b == b;
    } else {
      assert (a + b)[0] == a[0] && (a + b)[1..] == a[1..] + b;
      QueueSizeAppend(kids, height, a[1..], b);
    }
  }

  /** One step of the walk: dequeue the head and enqueue its children. */
  function Step(kids: NodeId -> seq<NodeId>, q: seq<NodeId>): seq<NodeId>
    requires q != []
  {
    q[1..] + kids(q[0])
  }

  /** Every step leaves fewer nodes to dequeue, so the walk ends. */
  lemma StepShrinks(kids: NodeId -> seq<NodeId>, height: NodeId -> nat, q: seq<NodeId>)
    requires Descending(kids, height)
    requires q != []
    ensures QueueSize(kids, height, Step(kids, q)) < QueueSize(kids, height, q)
  {
    QueueSizeAppend(kids, height, q[1..], kids(q[0]));
  }

  /** Every node dequeued from `q` until the queue is empty, in dequeue order. */
  function Walk(kids: NodeId -> seq<NodeId>, ghost height: NodeId -> nat, q: seq<NodeId>): seq<NodeId>
    requires Descending(kids, height)
    decreases QueueSize(kids, height, q)
  {
    if q == [] then []
    else
      StepShrinks(kids, height, q);
      [q[0]] + Walk(kids, height, Step(kids, q))
  }

  /** The walk starts with the queue it was given, in queue order. */
  lemma {:induction false} WalkStartsWithQueue(kids: NodeId -> seq<NodeId>, height: NodeId -> nat, q: seq<NodeId>)
    requires Descending(kids, height)
    ensures |q| <= |Walk(kids, height, q)| && Walk(kids, height, q)[..|q|] == q
    decreases QueueSize(kids, height, q)
  {
    if q != [] {
      StepShrinks(kids, height, q);
      var next := Step(kids, q);
      WalkStartsWithQueue(kids, height, next);
      var rest := Walk(kids, height, next);
      assert next[..|q| - 1] == q[1..];
      assert rest[..|q| - 1] == q[1..];
      assert ([q[0]] + rest)[..|q|] == [q[0]] + rest[..|q| - 1];
    }
  }

  /** The children of every node of `level`, in order. */
  function KidsOf(kids: NodeId -> seq<NodeId>, level: seq<NodeId>): seq<NodeId>
  {
    if level == [] then [] else kids(level[0]) + KidsOf(kids, level[1..])
  }

  /**
    * Walking `front + back` visits `front`, and then walks what was left in the queue
    * followed by the children of `front`.
    */
  lemma {:induction false} WalkAppend(kids: NodeId -> seq<NodeId>, height: NodeId -> nat,
                                      front: seq<NodeId>, back: seq<NodeId>)
    requires Descending(kids, height)
    ensures Walk(kids, height, front + back) == front + Walk(kids, height, back + KidsOf(kids, front))
    decreases |front|
  {
    if front == [] {
      assert front + back == back && back + KidsOf(kids, front) == back;
    } else {
      var next := front[1..] + (back + kids(front[0]));
      assert Walk(kids, height, front + back) == [front[0]] + Walk(kids, height, next) by {
        var q := front + back;
        assert q[0] == front[0] && q[1..] == front[1..] + back;
        assert Step(kids, q) == next;
      }
      var later := back + KidsOf(kids, front);
      assert back + kids(front[0]) + KidsOf(kids, front[1..]) == later;
      WalkAppend(kids, height, front[1..], back + kids(front[0]));
      var rest := Walk(kids, height, later);
      Reassociate(front, rest);
    }
  }

  lemma Reassociate(front: seq<NodeId>, rest: seq<NodeId>)
    requires front != []
    ensures [front[0]] + (front[1..] + rest) == front + rest
  {
    assert [front[0]] + front[1..] == front;
  }

  /** Breadth first: a whole level is visited before any node of the next one. */
  lemma LevelOrder(kids: NodeId -> seq<NodeId>, height: NodeId -> nat, level: seq<NodeId>)
    requires Descending(kids, height)
    ensures Walk(kids, height, level) == level + Walk(kids, height, KidsOf(kids, level))
  {
    WalkAppend(kids, height, level, []);
    assert level + [] == level && [] + KidsOf(kids, level) == KidsOf(kids, level);
  }

  /**
    * Siblings before nephews: when `a` has the one child `c` and `b` has none, the walk
    * of [a, b] is [a, b, c].
    */
  lemma SiblingBeforeNephew(kids: NodeId -> seq<NodeId>, height: NodeId -> nat, a: NodeId, b: NodeId, c: NodeId)
    requires Descending(kids, height)
    requires kids(a) == [c] && kids(b) == [] && kids(c) == []
    ensures Walk(kids, height, [a, b]) == [a, b, c]
  {
    assert Step(kids, [a, b]) == [b, c];
    assert Step(kids, [b, c]) == [c];
    assert Step(kids, [c]) == [];
    assert Walk(kids, height, [c]) == [c];
    assert Walk(kids, height, [b, c]) == [b, c];
  }

  /** Nothing the walk visits lies above the queue it started from. */
  lemma {:induction false} WalkBelow(kids: NodeId -> seq<NodeId>, height: NodeId -> nat, q: seq<NodeId>, bound: nat)
    requires Descending(kids, height)
    requires forall c :: c in q ==> height(c) < bound
    ensures forall c :: c in Walk(kids, height, q) ==> height(c) < bound
    decreases QueueSize(kids, height, q)
  {
    if q != [] {
      StepShrinks(kids, height, q);
      WalkBelow(kids, height, Step(kids, q), bound);
    }
  }
}
