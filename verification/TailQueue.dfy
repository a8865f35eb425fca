/** The TAILQ macros of `queue.h`: a doubly linked list whose back links are not pointers to elements
    but addresses of the `next` field in front, which may be the head's `first` field. */
module TailQueue {
  import opened Sequences

  /** The address of a pointer to an element (`struct type **`). */
  datatype Address = Wild | FirstOf(head: Head) | NextOf(node: Node)

  class Node {
    var next: Node?
    var prev: Address

    constructor ()
      ensures next == null
    {
      next, prev := null, Wild;
    }
  }

  /** The object an address points into. */
  function Target(a: Address): set<object> {
    match a
    case Wild => {}
    case FirstOf(h) => {h}
    case NextOf(n) => {n}
  }

  /** `*a` */
  function Deref(a: Address): Node?
    requires !a.Wild?
    reads Target(a)
  {
    match a
    case FirstOf(h) => h.first
    case NextOf(n) => n.next
  }

  /** `((struct headname *) a)->tqh_last`: the word after the one `a` points to, which is `last` in a
      head and `prev` in an element. */
  function SecondWord(a: Address): Address
    requires !a.Wild?
    reads Target(a)
  {
    match a
    case FirstOf(h) => h.last
    case NextOf(n) => n.prev
  }

  /** `*a = v` */
  method Store(a: Address, v: Node?)
    requires !a.Wild?
    modifies Target(a)
    ensures Deref(a) == v
    ensures SecondWord(a) == old(SecondWord(a))
    ensures a.FirstOf? ==> a.head.nodes == old(a.head.nodes)
  {
    match a
    case FirstOf(h) => h.first := v;
    case NextOf(n) => n.next := v;
  }

  class Head {
    var first: Node?
    var last: Address
    /** The elements, first to last. */
    ghost var nodes: seq<Node>

    /** Where the link to the `i`-th element is stored; for `i == |ns|`, the final NULL link. */
    function Link(ns: seq<Node>, i: nat): (a: Address)
      requires i <= |ns|
      ensures !a.Wild?
    {
      if i == 0 then FirstOf(this) else NextOf(ns[i - 1])
    }

    /** The `i`-th link leads to the `i`-th element. */
    ghost predicate Forward(ns: seq<Node>, i: nat)
      requires i <= |ns|
      reads this, ns
    {
      Deref(Link(ns, i)) == At<Node?>(ns, i, null)
    }

    /** The `i`-th element knows where the link to it is stored. */
    ghost predicate Back(ns: seq<Node>, i: nat)
      requires i < |ns|
      reads ns
    {
      ns[i].prev == Link(ns, i)
    }

    /** First to last, the links lead through distinct elements to NULL, every element holds the
        address of the link to it, and `last` is the address of the final link. */
    ghost predicate Valid()
      reads this, nodes
    {
      && Distinct(nodes)
      && (forall i :: 0 <= i <= |nodes| ==> Forward(nodes, i))
      && (forall i :: 0 <= i < |nodes| ==> Back(nodes, i))
      && last == Link(nodes, |nodes|)
    }

    constructor ()
      ensures Valid() && nodes == []
    {
      first, nodes := null, [];
      new;
      last := FirstOf(this);
    }

    /** TAILQ_INIT */
    method Init()
      modifies this
      ensures Valid() && nodes == []
    {
      first := null;
      last := FirstOf(this);
      nodes := [];
    }

    /** What every insertion must have done to the links around position `p`. */
    lemma Inserted(ns: seq<Node>, p: nat, elm: Node)
      requires Distinct(ns) && elm !in ns && p <= |ns| && nodes == Insert(ns, p, elm)
      requires forall k :: 0 <= k <= |ns| && k != p ==> Forward(ns, k)
      requires forall k :: 0 <= k < |ns| && k != p ==> Back(ns, k)
      requires Deref(Link(ns, p)) == elm && elm.prev == Link(ns, p) && elm.next == At<Node?>(ns, p, null)
      requires p < |ns| ==> ns[p].prev == NextOf(elm)
      requires last == if p < |ns| then Link(ns, |ns|) else NextOf(elm)
      ensures Valid()
    {
      forall k | 0 <= k <= |nodes|
        ensures Forward(nodes, k)
      {
        if k != p && k != p + 1 {
          assert Forward(ns, if k < p then k else k - 1);
        }
      }
      forall k | 0 <= k < |nodes|
        ensures Back(nodes, k)
      {
        if k != p && k != p + 1 {
          assert Back(ns, if k < p then k else k - 1);
        }
      }
    }

    /** What a removal must have done to the links around position `p`. */
    lemma Removed(ns: seq<Node>, p: nat)
      requires Distinct(ns) && p < |ns| && nodes == Without(ns, p)
      requires forall k :: 0 <= k <= |ns| && k != p && k != p + 1 ==> Forward(ns, k)
      requires forall k :: 0 <= k < |ns| && k != p && k != p + 1 ==> Back(ns, k)
      requires Deref(Link(ns, p)) == At<Node?>(ns, p + 1, null)
      requires p + 1 < |ns| ==> ns[p + 1].prev == Link(ns, p)
      requires last == if p + 1 < |ns| then Link(ns, |ns|) else Link(ns, p)
      ensures Valid()
    {
      forall k | 0 <= k <= |nodes|
        ensures Forward(nodes, k)
      {
        if k != p {
          assert Forward(ns, if k < p then k else k + 1);
        }
      }
      forall k | 0 <= k < |nodes|
        ensures Back(nodes, k)
      {
        if k != p {
          assert Back(ns, if k < p then k else k + 1);
        }
      }
    }

    /** TAILQ_INSERT_HEAD */
    method InsertHead(elm: Node)
      requires Valid() && elm !in nodes
      modifies this, elm, nodes
      ensures Valid() && nodes == [elm] + old(nodes)
    {
      ghost var ns := nodes;
      assert Forward(ns, 0) && (ns != [] ==> Back(ns, 0));
      elm.next := first;
      if elm.next != null {
        first.prev := NextOf(elm);
      } else {
        last := NextOf(elm);
      }
      first := elm;
      elm.prev := FirstOf(this);
      nodes := Insert(nodes, 0, elm);
      forall k | 0 <= k <= |ns| && k != 0
        ensures Forward(ns, k) && (k < |ns| ==> Back(ns, k))
      {
        assert old(Forward(ns, k)) && (k < |ns| ==> old(Back(ns, k)));
      }
      Inserted(ns, 0, elm);
    }

    /** TAILQ_INSERT_TAIL */
    method InsertTail(elm: Node)
      requires Valid() && elm !in nodes
      modifies this, elm, nodes
      ensures Valid() && nodes == old(nodes) + [elm]
    {
      ghost var ns := nodes;
      elm.next := null;
      elm.prev := last;
      Store(last, elm);
      last := NextOf(elm);
      nodes := Insert(nodes, |nodes|, elm);
      forall k | 0 <= k <= |ns| && k != |ns|
        ensures Forward(ns, k) && (k < |ns| ==> Back(ns, k))
      {
        assert old(Forward(ns, k)) && (k < |ns| ==> old(Back(ns, k)));
      }
      Inserted(ns, |ns|, elm);
    }

    /** TAILQ_INSERT_AFTER, `listelm` being the `i`-th element */
    method InsertAfter(listelm: Node, elm: Node, ghost i: nat)
      requires Valid() && elm !in nodes && i < |nodes| && nodes[i] == listelm
      modifies this, elm, nodes
      ensures Valid() && nodes == Insert(old(nodes), i + 1, elm)
    {
      ghost var ns := nodes;
      assert Forward(ns, i + 1) && (i + 1 < |ns| ==> Back(ns, i + 1));
      elm.next := listelm.next;
      if elm.next != null {
        elm.next.prev := NextOf(elm);
      } else {
        last := NextOf(elm);
      }
      listelm.next := elm;
      elm.prev := NextOf(listelm);
      nodes := Insert(nodes, i + 1, elm);
      forall k | 0 <= k <= |ns| && k != i + 1
        ensures Forward(ns, k) && (k < |ns| ==> Back(ns, k))
      {
        assert old(Forward(ns, k)) && (k < |ns| ==> old(Back(ns, k)));
      }
      Inserted(ns, i + 1, elm);
    }

    /** TAILQ_INSERT_BEFORE, `listelm` being the `i`-th element */
    method InsertBefore(listelm: Node, elm: Node, ghost i: nat)
      requires Valid() && elm !in nodes && i < |nodes| && nodes[i] == listelm
      modifies this, elm, nodes
      ensures Valid() && nodes == Insert(old(nodes), i, elm)
    {
      ghost var ns := nodes;
      assert Forward(ns, i) && Back(ns, i);
      elm.prev := listelm.prev;
      elm.next := listelm;
      Store(listelm.prev, elm);
      listelm.prev := NextOf(elm);
      nodes := Insert(nodes, i, elm);
      forall k | 0 <= k <= |ns| && k != i
        ensures Forward(ns, k) && (k < |ns| ==> Back(ns, k))
      {
        assert old(Forward(ns, k)) && (k < |ns| ==> old(Back(ns, k)));
      }
      Inserted(ns, i, elm);
    }

    /** TAILQ_REMOVE of the `i`-th element, which keeps its own links */
    method Remove(elm: Node, ghost i: nat)
      requires Valid() && i < |nodes| && nodes[i] == elm
      modifies this, nodes
      ensures Valid() && nodes == Without(old(nodes), i)
      ensures elm.next == old(elm.next) && elm.prev == old(elm.prev)
    {
      ghost var ns := nodes;
      assert Forward(ns, i) && Back(ns, i) && Forward(ns, i + 1) && (i + 1 < |ns| ==> Back(ns, i + 1));
      if elm.next != null {
        elm.next.prev := elm.prev;
      } else {
        last := elm.prev;
      }
      Store(elm.prev, elm.next);
      nodes := Without(nodes, i);
      forall k | 0 <= k <= |ns| && k != i
        ensures Forward(ns, k) && (k < |ns| && k != i + 1 ==> Back(ns, k))
      {
        assert old(Forward(ns, k)) && (k < |ns| ==> old(Back(ns, k)));
      }
      Removed(ns, i);
    }

    /** TAILQ_CONCAT */
    method Concat(head2: Head)
      requires Valid() && head2.Valid() && this != head2
      requires Apart(nodes, head2.nodes)
      modifies this, nodes, head2, head2.nodes
      ensures Valid() && nodes == old(nodes) + old(head2.nodes)
      ensures head2.Valid() && head2.nodes == []
    {
      ghost var ns, ms := nodes, head2.nodes;
      assert Forward(ns, |ns|) && head2.Forward(ms, 0) && (ms != [] ==> head2.Back(ms, 0));
      if head2.first != null {
        Store(last, head2.first);
        head2.first.prev := last;
        last := head2.last;
        nodes := nodes + head2.nodes;
        forall k | 0 <= k <= |ns| && k != |ns|
          ensures Forward(ns, k) && (k < |ns| ==> Back(ns, k))
        {
          assert old(Forward(ns, k)) && (k < |ns| ==> old(Back(ns, k)));
        }
        forall k | 0 < k <= |ms|
          ensures head2.Forward(ms, k) && (k < |ms| ==> head2.Back(ms, k))
        {
          assert old(head2.Forward(ms, k)) && (k < |ms| ==> old(head2.Back(ms, k)));
        }
        Joined(ns, head2, ms);
        head2.Init();
      }
    }

    /** What a concatenation must have done to the links of both lists. */
    lemma Joined(ns: seq<Node>, head2: Head, ms: seq<Node>)
      requires Distinct(ns) && Distinct(ms) && Apart(ns, ms)
      requires ms != [] && nodes == ns + ms
      requires forall k :: 0 <= k < |ns| ==> Forward(ns, k) && Back(ns, k)
      requires Deref(Link(ns, |ns|)) == ms[0] && ms[0].prev == Link(ns, |ns|)
      requires forall k :: 0 < k <= |ms| ==> head2.Forward(ms, k) && (k < |ms| ==> head2.Back(ms, k))
      requires last == Link(ms, |ms|)
      ensures Valid()
    {
      forall k | 0 <= k <= |nodes|
        ensures Forward(nodes, k) && (k < |nodes| ==> Back(nodes, k))
      {
        if k < |ns| {
          assert Forward(ns, k) && Back(ns, k);
        } else if k > |ns| {
          assert head2.Forward(ms, k - |ns|) && (k < |nodes| ==> head2.Back(ms, k - |ns|));
        }
      }
    }

    /** TAILQ_SWAP */
    method Swap(head2: Head)
      requires Valid() && head2.Valid()
      requires this != head2 ==> Apart(nodes, head2.nodes)
      modifies this, nodes, head2, head2.nodes
      ensures Valid() && nodes == old(head2.nodes)
      ensures head2.Valid() && head2.nodes == old(nodes)
    {
      ghost var ns, ms := nodes, head2.nodes;
      assert Forward(ns, 0) && head2.Forward(ms, 0);
      var swapFirst, swapLast := first, last;
      first := head2.first;
      last := head2.last;
      head2.first := swapFirst;
      head2.last := swapLast;
      nodes, head2.nodes := ms, ns;
      if first != null {
        first.prev := FirstOf(this);
      } else {
        last := FirstOf(this);
      }
      if head2.first != null {
        head2.first.prev := FirstOf(head2);
      } else {
        head2.last := FirstOf(head2);
      }
      forall k | 0 <= k <= |ms|
        ensures Forward(ms, k) && (k < |ms| ==> Back(ms, k))
      {
        assert old(head2.Forward(ms, k)) && (k < |ms| ==> old(head2.Back(ms, k)));
      }
      forall k | 0 <= k <= |ns|
        ensures head2.Forward(ns, k) && (k < |ns| ==> head2.Back(ns, k))
      {
        assert old(Forward(ns, k)) && (k < |ns| ==> old(Back(ns, k)));
      }
    }

    /** TAILQ_LAST: from the final link one word on, to the link to the last element. */
    method Last() returns (elm: Node?)
      requires Valid()
      ensures elm == if nodes == [] then null else nodes[|nodes| - 1]
    {
      if nodes != [] {
        assert Back(nodes, |nodes| - 1) && Forward(nodes, |nodes| - 1);
      } else {
        assert Forward(nodes, 0);
      }
      elm := Deref(SecondWord(last));
    }

    /** TAILQ_PREV: from the link to the element one word on, to the link to the one before. */
    method Prev(elm: Node, ghost i: nat) returns (prev: Node?)
      requires Valid() && i < |nodes| && nodes[i] == elm
      ensures prev == if i == 0 then null else nodes[i - 1]
    {
      assert Back(nodes, i);
      if i > 0 {
        assert Back(nodes, i - 1) && Forward(nodes, i - 1);
      } else {
        assert Forward(nodes, |nodes|);
      }
      prev := Deref(SecondWord(elm.prev));
    }

    /** TAILQ_FOREACH_REVERSE: what the loop visits. */
    method ForeachReverse() returns (visited: seq<Node>)
      requires Valid()
      ensures |visited| == |nodes| && forall k :: 0 <= k < |visited| ==> visited[k] == nodes[|nodes| - 1 - k]
    {
      visited := [];
      var elm := Last();
      ghost var i := |nodes|;
      while elm != null
        invariant 0 <= i <= |nodes| && |visited| == |nodes| - i
        invariant elm == if i == 0 then null else nodes[i - 1]
        invariant forall k :: 0 <= k < |visited| ==> visited[k] == nodes[|nodes| - 1 - k]
        decreases i
      {
        visited := visited + [elm];
        i := i - 1;
        elm := Prev(elm, i);
      }
    }
  }
}
