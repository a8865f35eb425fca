/** The STAILQ macros of `queue.h`: a singly linked list whose head also holds the address of the final
    `next` field, or of its own `first` field when it is empty. */
module SingleTailQueue {
  import opened Sequences

  /** The address of a pointer to an element (`struct type **`). */
  datatype Address = Wild | FirstOf(head: Head) | NextOf(node: Node)

  class Node {
    var next: Node?

    constructor ()
      ensures next == null
    {
      next := null;
    }
  }

  function Target(a: Address): set<object> {
    match a
    case Wild => {}
    case FirstOf(h) => {h}
    case NextOf(n) => {n}
  }

  /** `*a` */
  function Deref(a: Address): Node?
    requires !a.Wild?
    reads Target(a)
  {
    match a
    case FirstOf(h) => h.first
    case NextOf(n) => n.next
  }

  /** `*a = v` */
  method Store(a: Address, v: Node?)
    requires !a.Wild?
    modifies Target(a)
    ensures Deref(a) == v
    ensures a.FirstOf? ==> a.head.nodes == old(a.head.nodes) && a.head.last == old(a.head.last)
  {
    match a
    case FirstOf(h) => h.first := v;
    case NextOf(n) => n.next := v;
  }

  class Head {
    var first: Node?
    var last: Address
    /** The elements, first to last. */
    ghost var nodes: seq<Node>

    /** Where the link to the `i`-th element is stored; for `i == |ns|`, the final NULL link. */
    function Link(ns: seq<Node>, i: nat): (a: Address)
      requires i <= |ns|
      ensures !a.Wild?
    {
      if i == 0 then FirstOf(this) else NextOf(ns[i - 1])
    }

    /** The `i`-th link leads to the `i`-th element. */
    ghost predicate Forward(ns: seq<Node>, i: nat)
      requires i <= |ns|
      reads this, ns
    {
      Deref(Link(ns, i)) == At<Node?>(ns, i, null)
    }

    /** First to last, the links lead through distinct elements to NULL, and `last` is the address of
        the final link. */
    ghost predicate Valid()
      reads this, nodes
    {
      && Distinct(nodes)
      && (forall i :: 0 <= i <= |nodes| ==> Forward(nodes, i))
      && last == Link(nodes, |nodes|)
    }

    constructor ()
      ensures Valid() && nodes == []
    {
      first, nodes := null, [];
      new;
      last := FirstOf(this);
    }

    /** STAILQ_INIT */
    method Init()
      modifies this
      ensures Valid() && nodes == []
    {
      first := null;
      last := FirstOf(this);
      nodes := [];
    }

    /** What every insertion must have done to the links around position `p`. */
    lemma Inserted(ns: seq<Node>, p: nat, elm: Node)
      requires Distinct(ns) && elm !in ns && p <= |ns| && nodes == Insert(ns, p, elm)
      requires forall k :: 0 <= k <= |ns| && k != p ==> Forward(ns, k)
      requires Deref(Link(ns, p)) == elm && elm.next == At<Node?>(ns, p, null)
      requires last == if p < |ns| then Link(ns, |ns|) else NextOf(elm)
      ensures Valid()
    {
      forall k | 0 <= k <= |nodes|
        ensures Forward(nodes, k)
      {
        if k != p && k != p + 1 {
          assert Forward(ns, if k < p then k else k - 1);
        }
      }
    }

    /** What a removal must have done to the links around position `p`. */
    lemma Removed(ns: seq<Node>, p: nat)
      requires Distinct(ns) && p < |ns| && nodes == Without(ns, p)
      requires forall k :: 0 <= k <= |ns| && k != p && k != p + 1 ==> Forward(ns, k)
      requires Deref(Link(ns, p)) == At<Node?>(ns, p + 1, null)
      requires last == if p + 1 < |ns| then Link(ns, |ns|) else Link(ns, p)
      ensures Valid()
    {
      forall k | 0 <= k <= |nodes|
        ensures Forward(nodes, k)
      {
        if k != p {
          assert Forward(ns, if k < p then k else k + 1);
        }
      }
    }

    /** STAILQ_INSERT_HEAD */
    method InsertHead(elm: Node)
      requires Valid() && elm !in nodes
      modifies this, elm
      ensures Valid() && nodes == [elm] + old(nodes)
    {
      ghost var ns := nodes;
      assert Forward(ns, 0);
      elm.next := first;
      if elm.next == null {
        last := NextOf(elm);
      }
      first := elm;
      nodes := Insert(nodes, 0, elm);
      forall k | 0 <= k <= |ns| && k != 0
        ensures Forward(ns, k)
      {
        assert old(Forward(ns, k));
      }
      Inserted(ns, 0, elm);
    }

    /** STAILQ_INSERT_TAIL */
    method InsertTail(elm: Node)
      requires Valid() && elm !in nodes
      modifies this, elm, nodes
      ensures Valid() && nodes == old(nodes) + [elm]
    {
      ghost var ns := nodes;
      elm.next := null;
      Store(last, elm);
      last := NextOf(elm);
      nodes := Insert(nodes, |nodes|, elm);
      forall k | 0 <= k <= |ns| && k != |ns|
        ensures Forward(ns, k)
      {
        assert old(Forward(ns, k));
      }
      Inserted(ns, |ns|, elm);
    }

    /** STAILQ_INSERT_AFTER, `tqelm` being the `i`-th element */
    method InsertAfter(tqelm: Node, elm: Node, ghost i: nat)
      requires Valid() && elm !in nodes && i < |nodes| && nodes[i] == tqelm
      modifies this, elm, tqelm
      ensures Valid() && nodes == Insert(old(nodes), i + 1, elm)
    {
      ghost var ns := nodes;
      assert Forward(ns, i + 1);
      elm.next := tqelm.next;
      if elm.next == null {
        last := NextOf(elm);
      }
      tqelm.next := elm;
      nodes := Insert(nodes, i + 1, elm);
      forall k | 0 <= k <= |ns| && k != i + 1
        ensures Forward(ns, k)
      {
        assert old(Forward(ns, k));
      }
      Inserted(ns, i + 1, elm);
    }

    /** STAILQ_REMOVE_HEAD */
    method RemoveHead()
      requires Valid() && nodes != []
      modifies this
      ensures Valid() && nodes == old(nodes)[1..]
    {
      ghost var ns := nodes;
      assert Forward(ns, 0) && Forward(ns, 1);
      first := first.next;
      if first == null {
        last := FirstOf(this);
      }
      nodes := Without(nodes, 0);
      forall k | 0 <= k <= |ns| && k != 0
        ensures Forward(ns, k)
      {
        assert old(Forward(ns, k));
      }
      Removed(ns, 0);
    }

    /** STAILQ_REMOVE_AFTER, `elm` being the `i`-th element and not the last */
    method RemoveAfter(elm: Node, ghost i: nat)
      requires Valid() && i + 1 < |nodes| && nodes[i] == elm
      modifies this, elm
      ensures Valid() && nodes == Without(old(nodes), i + 1)
    {
      ghost var ns := nodes;
      assert Forward(ns, i + 1) && Forward(ns, i + 2);
      elm.next := elm.next.next;
      if elm.next == null {
        last := NextOf(elm);
      }
      nodes := Without(nodes, i + 1);
      forall k | 0 <= k <= |ns| && k != i + 1
        ensures Forward(ns, k)
      {
        assert old(Forward(ns, k));
      }
      Removed(ns, i + 1);
    }

    /** STAILQ_REMOVE of the `i`-th element: a walk to the one before it. */
    method Remove(elm: Node, ghost i: nat)
      requires Valid() && i < |nodes| && nodes[i] == elm
      modifies this, nodes
      ensures Valid() && nodes == Without(old(nodes), i)
    {
      assert Forward(nodes, 0);
      if first == elm {
        RemoveHead();
      } else {
        var curelm := first;
        ghost var j := 0;
        assert Forward(nodes, 1);
        while curelm.next != elm
          invariant j < i && curelm == nodes[j] && Forward(nodes, j + 1)
          decreases i - j
        {
          j := j + 1;
          curelm := curelm.next;
          assert Forward(nodes, j + 1);
        }
        RemoveAfter(curelm, j);
      }
    }

    /** STAILQ_LAST: the element that `last` points into. */
    method Last() returns (elm: Node?)
      requires Valid()
      ensures elm == if nodes == [] then null else nodes[|nodes| - 1]
    {
      assert Forward(nodes, 0);
      elm := if first == null then null else last.node;
    }

    /** STAILQ_CONCAT */
    method Concat(head2: Head)
      requires Valid() && head2.Valid() && this != head2
      requires Apart(nodes, head2.nodes)
      modifies this, nodes, head2
      ensures Valid() && nodes == old(nodes) + old(head2.nodes)
      ensures head2.Valid() && head2.nodes == []
    {
      ghost var ns, ms := nodes, head2.nodes;
      assert Forward(ns, |ns|) && head2.Forward(ms, 0);
      if head2.first != null {
        Store(last, head2.first);
        last := head2.last;
        nodes := nodes + head2.nodes;
        forall k | 0 <= k <= |ns| && k != |ns|
          ensures Forward(ns, k)
        {
          assert old(Forward(ns, k));
        }
        forall k | 0 < k <= |ms|
          ensures head2.Forward(ms, k)
        {
          assert old(head2.Forward(ms, k));
        }
        Joined(ns, head2, ms);
        head2.Init();
      }
    }

    /** What a concatenation must have done to the links of both lists. */
    lemma Joined(ns: seq<Node>, head2: Head, ms: seq<Node>)
      requires Distinct(ns) && Distinct(ms) && Apart(ns, ms)
      requires ms != [] && nodes == ns + ms
      requires forall k :: 0 <= k < |ns| ==> Forward(ns, k)
      requires Deref(Link(ns, |ns|)) == ms[0]
      requires forall k :: 0 < k <= |ms| ==> head2.Forward(ms, k)
      requires last == Link(ms, |ms|)
      ensures Valid()
    {
      forall k | 0 <= k <= |nodes|
        ensures Forward(nodes, k)
      {
        if k < |ns| {
          assert Forward(ns, k);
        } else if k > |ns| {
          assert head2.Forward(ms, k - |ns|);
        }
      }
    }

    /** STAILQ_SWAP */
    method Swap(head2: Head)
      requires Valid() && head2.Valid()
      modifies this, head2
      ensures Valid() && nodes == old(head2.nodes)
      ensures head2.Valid() && head2.nodes == old(nodes)
    {
      ghost var ns, ms := nodes, head2.nodes;
      assert Forward(ns, 0) && head2.Forward(ms, 0);
      var swapFirst, swapLast := first, last;
      first := head2.first;
      last := head2.last;
      head2.first := swapFirst;
      head2.last := swapLast;
      nodes, head2.nodes := ms, ns;
      if first == null {
        last := FirstOf(this);
      }
      if head2.first == null {
        head2.last := FirstOf(head2);
      }
      forall k | 0 <= k <= |ms|
        ensures Forward(ms, k)
      {
        assert old(head2.Forward(ms, k));
      }
      forall k | 0 <= k <= |ns|
        ensures head2.Forward(ns, k)
      {
        assert old(Forward(ns, k));
      }
    }
  }
}
