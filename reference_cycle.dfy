/**
 * Singly linked nodes and Floyd's "tortoise and hare" cycle detector.
 *
 * A `Node` is a heap object whose `next` link may be reassigned after
 * construction, so lists may loop back on themselves. `HasCycle` walks such a
 * list with two cursors and decides whether following `next` from the head
 * ever runs off the end.
 *
 * Reachability is stated over a finite set of nodes closed under `next` (the
 * nodes allocated so far); this is what makes the termination argument on a
 * cyclic list possible.
 */
module ReferenceCycle {

  class Node<T> {
    var value: T
    var next: Node?<T>

    /** A new node holds `value` and links to nothing. */
    constructor (value: T)
      ensures this.value == value
      ensures next == null
    {
      this.value := value;
      next := null;
    }
  }

  // ---------------------------------------------------------------------------
  // Specification: walks over a region of the heap
  // ---------------------------------------------------------------------------

  /** Every link leaving `nodes` lands back in `nodes` (or is null). */
  ghost predicate Closed<T>(nodes: set<Node<T>>)
    reads nodes
  {
    forall n :: n in nodes && n.next != null ==> n.next in nodes
  }

  /** `n` is the end of a list or one of `nodes`. */
  ghost predicate InRegion<T>(nodes: set<Node<T>>, n: Node?<T>)
  {
    n == null || n in nodes
  }

  /** The node reached from `n` by following `k` links; null once the list has ended. */
  ghost function Walk<T>(nodes: set<Node<T>>, n: Node?<T>, k: nat): (r: Node?<T>)
    requires Closed(nodes) && InRegion(nodes, n)
    reads nodes
    ensures InRegion(nodes, r)
    decreases k
  {
    if k == 0 then n
    else
      var p := Walk(nodes, n, k - 1);
      if p == null then null else p.next
  }

  /** Following `next` from `head` eventually reaches the end of the list. */
  ghost predicate ReachesEnd<T>(nodes: set<Node<T>>, head: Node?<T>)
    requires Closed(nodes) && InRegion(nodes, head)
    reads nodes
  {
    exists k: nat :: Walk(nodes, head, k) == null
  }

  /** The walk from `head` visits one node at two different steps: the list contains a cycle. */
  ghost predicate HasLoop<T>(nodes: set<Node<T>>, head: Node?<T>)
    requires Closed(nodes) && InRegion(nodes, head)
    reads nodes
  {
    exists i: nat, j: nat :: i < j && Walk(nodes, head, i) != null && Walk(nodes, head, i) == Walk(nodes, head, j)
  }

  // ---------------------------------------------------------------------------
  // Lemmas about walks
  // ---------------------------------------------------------------------------

  /** Walking `a` links and then `b` more is walking `a + b` links. */
  lemma {:induction false} WalkAdd<T>(nodes: set<Node<T>>, n: Node?<T>, a: nat, b: nat)
    requires Closed(nodes) && InRegion(nodes, n)
    ensures Walk(nodes, n, a + b) == Walk(nodes, Walk(nodes, n, a), b)
    decreases b
  {
    if b > 0 {
      WalkAdd(nodes, n, a, b - 1);
      assert a + b - 1 == a + (b - 1);
    }
  }

  /** Once a walk has ended it stays ended. */
  lemma {:induction false} NullStays<T>(nodes: set<Node<T>>, n: Node?<T>, i: nat, j: nat)
    requires Closed(nodes) && InRegion(nodes, n)
    requires i <= j && Walk(nodes, n, i) == null
    ensures Walk(nodes, n, j) == null
    decreases j - i
  {
    if i < j {
      NullStays(nodes, n, i, j - 1);
    }
  }

  /** A node seen at steps `mu` and `mu + lam` makes the walk repeat with period `lam` from `mu` on. */
  lemma {:induction false} Periodic<T>(nodes: set<Node<T>>, head: Node?<T>, mu: nat, lam: nat, k: nat)
    requires Closed(nodes) && InRegion(nodes, head)
    requires Walk(nodes, head, mu + lam) == Walk(nodes, head, mu)
    requires mu <= k
    ensures Walk(nodes, head, k + lam) == Walk(nodes, head, k)
  {
    var d := k - mu;
    WalkAdd(nodes, head, mu + lam, d);
    WalkAdd(nodes, head, mu, d);
    assert mu + lam + d == k + lam;
  }

  /** Repeating the period `m` times comes back to the same node. */
  lemma {:induction false} PeriodicMany<T>(nodes: set<Node<T>>, head: Node?<T>, mu: nat, lam: nat, k: nat, m: nat)
    requires Closed(nodes) && InRegion(nodes, head)
    requires Walk(nodes, head, mu + lam) == Walk(nodes, head, mu)
    requires mu <= k
    ensures Walk(nodes, head, k + m * lam) == Walk(nodes, head, k)
    decreases m
  {
    if m > 0 {
      PeriodicMany(nodes, head, mu, lam, k, m - 1);
      Periodic(nodes, head, mu, lam, k + (m - 1) * lam);
      assert k + (m - 1) * lam + lam == k + m * lam;
    }
  }

  /** A walk that repeats a non-null node never ends. */
  lemma {:induction false} LoopNeverEnds<T>(nodes: set<Node<T>>, head: Node?<T>, mu: nat, lam: nat, k: nat)
    requires Closed(nodes) && InRegion(nodes, head)
    requires 0 < lam && Walk(nodes, head, mu) != null
    requires Walk(nodes, head, mu + lam) == Walk(nodes, head, mu)
    ensures Walk(nodes, head, k) != null
    decreases k
  {
    if k <= mu + lam {
      if Walk(nodes, head, k) == null {
        NullStays(nodes, head, k, mu + lam);
      }
    } else {
      Periodic(nodes, head, mu, lam, k - lam);
      LoopNeverEnds(nodes, head, mu, lam, k - lam);
    }
  }

  /** A sequence longer than the set holding its elements repeats an element. */
  lemma {:induction false} Pigeonhole<X>(s: seq<X>, S: set<X>)
    requires forall i :: 0 <= i < |s| ==> s[i] in S
    requires |S| < |s|
    ensures exists i, j :: 0 <= i < j < |s| && s[i] == s[j]
    decreases |s|
  {
    var last := s[|s| - 1];
    var init := s[..|s| - 1];
    if last in init {
      var i :| 0 <= i < |init| && init[i] == last;
      assert s[i] == s[|s| - 1];
    } else {
      assert |S - {last}| == |S| - 1;
      Pigeonhole(init, S - {last});
      var i, j :| 0 <= i < j < |init| && init[i] == init[j];
      assert s[i] == s[j];
    }
  }

  /** The first `len` nodes of a walk that has not ended within them. */
  ghost function Trace<T>(nodes: set<Node<T>>, head: Node?<T>, len: nat): (s: seq<Node<T>>)
    requires Closed(nodes) && InRegion(nodes, head)
    requires forall k: nat :: k < len ==> Walk(nodes, head, k) != null
    reads nodes
    ensures |s| == len
    ensures forall k :: 0 <= k < len ==> s[k] == Walk(nodes, head, k) && s[k] in nodes
  {
    if len == 0 then []
    else
      var w: Node<T> := Walk(nodes, head, len - 1);
      Trace(nodes, head, len - 1) + [w]
  }

  /** On a finite, closed heap region, a list is cyclic exactly when it never ends. */
  lemma LoopIffEndless<T>(nodes: set<Node<T>>, head: Node?<T>)
    requires Closed(nodes) && InRegion(nodes, head)
    ensures HasLoop(nodes, head) <==> !ReachesEnd(nodes, head)
  {
    if HasLoop(nodes, head) {
      var i: nat, j: nat :| i < j && Walk(nodes, head, i) != null && Walk(nodes, head, i) == Walk(nodes, head, j);
      forall k: nat ensures Walk(nodes, head, k) != null {
        LoopNeverEnds(nodes, head, i, j - i, k);
      }
    }
    if !ReachesEnd(nodes, head) {
      var s := Trace(nodes, head, |nodes| + 1);
      Pigeonhole(s, nodes);
      var i, j :| 0 <= i < j < |s| && s[i] == s[j];
      assert Walk(nodes, head, i) == Walk(nodes, head, j);
    }
  }

  /** On a cyclic list the two cursors meet: some step `b >= 1` reaches the same node as step `2 * b`. */
  lemma MeetingPoint<T>(nodes: set<Node<T>>, head: Node?<T>) returns (b: nat)
    requires Closed(nodes) && InRegion(nodes, head)
    requires HasLoop(nodes, head)
    ensures 1 <= b && Walk(nodes, head, b) != null
    ensures Walk(nodes, head, 2 * b) == Walk(nodes, head, b)
  {
    var i: nat, j: nat :| i < j && Walk(nodes, head, i) != null && Walk(nodes, head, i) == Walk(nodes, head, j);
    var lam := j - i;
    var m := i + 1;
    b := m * lam;
    assert b >= m by {
      assert m * lam == m * (lam - 1) + m;
    }
    assert i + lam == j;
    PeriodicMany(nodes, head, i, lam, b, m);
    assert 2 * b == b + m * lam;
    LoopNeverEnds(nodes, head, i, lam, b);
  }

  // ---------------------------------------------------------------------------
  // The detector
  // ---------------------------------------------------------------------------

  /**
   * Floyd's cycle detection: `slow` moves one link per iteration, `fast` two;
   * the list is cyclic exactly when they land on the same node before `fast`
   * runs off the end. `nodes` is the heap region the list lives in; the method
   * reads it and changes nothing.
   */
  method HasCycle<T>(ghost nodes: set<Node<T>>, head: Node?<T>) returns (r: bool)
    requires Closed(nodes) && InRegion(nodes, head)
    ensures r <==> !ReachesEnd(nodes, head)
    ensures r <==> HasLoop(nodes, head)
    ensures head == null ==> !r
    ensures r ==> exists i: nat :: 1 <= i && Walk(nodes, head, i) != null && Walk(nodes, head, i) == Walk(nodes, head, 2 * i)
  {
    LoopIffEndless(nodes, head);
    // A step count by which the loop is certain to have stopped.
    ghost var bound: nat;
    ghost var ends := ReachesEnd(nodes, head);
    if ends {
      var k: nat :| Walk(nodes, head, k) == null;
      NullStays(nodes, head, k, 2 * k);
      bound := k;
    } else {
      bound := MeetingPoint(nodes, head);
    }

    var slow := head;
    var fast := head;
    ghost var i: nat := 0;
    while fast != null && fast.next != null
      invariant slow == Walk(nodes, head, i) && fast == Walk(nodes, head, 2 * i)
      invariant i <= bound
      invariant ends ==> Walk(nodes, head, 2 * bound) == null
      invariant !ends ==> i < bound && Walk(nodes, head, 2 * bound) == Walk(nodes, head, bound)
      decreases bound - i
    {
      // Slow trails fast, so neither it nor its successor has run off the end.
      if Walk(nodes, head, i + 1) == null {
        NullStays(nodes, head, i + 1, 2 * i + 1);
      }
      slow := slow.next;
      fast := fast.next.next;
      i := i + 1;
      assert 2 * i == 2 * (i - 1) + 1 + 1;
      assert slow == Walk(nodes, head, i) && fast == Walk(nodes, head, 2 * i);
      if slow == fast {
        assert i < 2 * i && Walk(nodes, head, i) != null;
        assert HasLoop(nodes, head);
        return true;
      }
    }
    if fast == null {
      assert Walk(nodes, head, 2 * i) == null;
    } else {
      assert Walk(nodes, head, 2 * i + 1) == null;
    }
    return false;
  }

  /** The two-node cycle built at module level: `node1 -> node2 -> node1`. Detection reports it. */
  method TwoNodeCycle() returns (r: bool)
    ensures r
  {
    var node1 := new Node<int>(1);
    var node2 := new Node<int>(2);
    node1.next := node2;
    node2.next := node1;
    ghost var nodes := {node1, node2};
    r := HasCycle(nodes, node1);
    assert Walk(nodes, node1, 1) == node2;
    assert Walk(nodes, node1, 2) == node1;
  }
}
