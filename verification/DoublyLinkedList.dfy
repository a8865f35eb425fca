/** The LIST macros of `queue.h`: a doubly linked list like TAILQ's, but with nothing to mark its end,
    so that a concatenation has to walk to it. */
module DoublyLinkedList {
  import opened Sequences

  /** The address of a pointer to an element (`struct type **`). */
  datatype Address = Wild | FirstOf(head: Head) | NextOf(node: Node)

  class Node {
    var next: Node?
    var prev: Address

    constructor ()
      ensures next == null
    {
      next, prev := null, Wild;
    }
  }

  /** The object an address points into. */
  function Target(a: Address): set<object> {
    match a
    case Wild => {}
    case FirstOf(h) => {h}
    case NextOf(n) => {n}
  }

  /** `*a` */
  function Deref(a: Address): Node?
    requires !a.Wild?
    reads Target(a)
  {
    match a
    case FirstOf(h) => h.first
    case NextOf(n) => n.next
  }

  /** `*a = v` */
  method Store(a: Address, v: Node?)
    requires !a.Wild?
    modifies Target(a)
    ensures Deref(a) == v
    ensures a.FirstOf? ==> a.head.nodes == old(a.head.nodes)
    ensures a.NextOf? ==> a.node.prev == old(a.node.prev)
  {
    match a
    case FirstOf(h) => h.first := v;
    case NextOf(n) => n.next := v;
  }

  class Head {
    var first: Node?
    /** The elements, first to last. */
    ghost var nodes: seq<Node>

    /** Where the link to the `i`-th element is stored; for `i == |ns|`, the final NULL link. */
    function Link(ns: seq<Node>, i: nat): (a: Address)
      requires i <= |ns|
      ensures !a.Wild?
    {
      if i == 0 then FirstOf(this) else NextOf(ns[i - 1])
    }

    /** The `i`-th link leads to the `i`-th element. */
    ghost predicate Forward(ns: seq<Node>, i: nat)
      requires i <= |ns|
      reads this, ns
    {
      Deref(Link(ns, i)) == At<Node?>(ns, i, null)
    }

    /** The `i`-th element knows where the link to it is stored. */
    ghost predicate Back(ns: seq<Node>, i: nat)
      requires i < |ns|
      reads ns
    {
      ns[i].prev == Link(ns, i)
    }

    /** First to last, the links lead through distinct elements to NULL, and every element holds
        the address of the link to it. */
    ghost predicate Valid()
      reads this, nodes
    {
      && Distinct(nodes)
      && (forall i :: 0 <= i <= |nodes| ==> Forward(nodes, i))
      && (forall i :: 0 <= i < |nodes| ==> Back(nodes, i))
    }

    constructor ()
      ensures Valid() && nodes == []
    {
      first, nodes := null, [];
    }

    /** LIST_INIT */
    method Init()
      modifies this
      ensures Valid() && nodes == []
    {
      first := null;
      nodes := [];
    }

    /** What every insertion must have done to the links around position `p`. */
    lemma Inserted(ns: seq<Node>, p: nat, elm: Node)
      requires Distinct(ns) && elm !in ns && p <= |ns| && nodes == Insert(ns, p, elm)
      requires forall k :: 0 <= k <= |ns| && k != p ==> Forward(ns, k)
      requires forall k :: 0 <= k < |ns| && k != p ==> Back(ns, k)
      requires Deref(Link(ns, p)) == elm && elm.prev == Link(ns, p) && elm.next == At<Node?>(ns, p, null)
      requires p < |ns| ==> ns[p].prev == NextOf(elm)
      ensures Valid()
    {
      forall k | 0 <= k <= |nodes|
        ensures Forward(nodes, k)
      {
        if k != p && k != p + 1 {
          assert Forward(ns, if k < p then k else k - 1);
        }
      }
      forall k | 0 <= k < |nodes|
        ensures Back(nodes, k)
      {
        if k != p && k != p + 1 {
          assert Back(ns, if k < p then k else k - 1);
        }
      }
    }

    /** What a removal must have done to the links around position `p`. */
    lemma Removed(ns: seq<Node>, p: nat)
      requires Distinct(ns) && p < |ns| && nodes == Without(ns, p)
      requires forall k :: 0 <= k <= |ns| && k != p && k != p + 1 ==> Forward(ns, k)
      requires forall k :: 0 <= k < |ns| && k != p && k != p + 1 ==> Back(ns, k)
      requires Deref(Link(ns, p)) == At<Node?>(ns, p + 1, null)
      requires p + 1 < |ns| ==> ns[p + 1].prev == Link(ns, p)
      ensures Valid()
    {
      forall k | 0 <= k <= |nodes|
        ensures Forward(nodes, k)
      {
        if k != p {
          assert Forward(ns, if k < p then k else k + 1);
        }
      }
      forall k | 0 <= k < |nodes|
        ensures Back(nodes, k)
      {
        if k != p {
          assert Back(ns, if k < p then k else k + 1);
        }
      }
    }

    /** LIST_INSERT_HEAD */
    method InsertHead(elm: Node)
      requires Valid() && elm !in nodes
      modifies this, elm, nodes
      ensures Valid() && nodes == [elm] + old(nodes)
    {
      ghost var ns := nodes;
      assert Forward(ns, 0) && (ns != [] ==> Back(ns, 0));
      elm.next := first;
      if elm.next != null {
        first.prev := NextOf(elm);
      }
      first := elm;
      elm.prev := FirstOf(this);
      nodes := Insert(nodes, 0, elm);
      forall k | 1 <= k <= |ns|
        ensures Forward(ns, k) && (k < |ns| ==> Back(ns, k))
      {
        assert old(Forward(ns, k)) && (k < |ns| ==> old(Back(ns, k)));
      }
      Inserted(ns, 0, elm);
    }

    /** LIST_INSERT_AFTER, `listelm` being the `i`-th element */
    method InsertAfter(listelm: Node, elm: Node, ghost i: nat)
      requires Valid() && elm !in nodes && i < |nodes| && nodes[i] == listelm
      modifies this, elm, nodes
      ensures Valid() && nodes == Insert(old(nodes), i + 1, elm)
    {
      ghost var ns := nodes;
      assert Forward(ns, i + 1) && (i + 1 < |ns| ==> Back(ns, i + 1));
      elm.next := listelm.next;
      if elm.next != null {
        elm.next.prev := NextOf(elm);
      }
      listelm.next := elm;
      elm.prev := NextOf(listelm);
      nodes := Insert(nodes, i + 1, elm);
      forall k | 0 <= k <= |ns| && k != i + 1
        ensures Forward(ns, k) && (k < |ns| ==> Back(ns, k))
      {
        assert old(Forward(ns, k)) && (k < |ns| ==> old(Back(ns, k)));
      }
      Inserted(ns, i + 1, elm);
    }

    /** LIST_INSERT_BEFORE, `listelm` being the `i`-th element */
    method InsertBefore(listelm: Node, elm: Node, ghost i: nat)
      requires Valid() && elm !in nodes && i < |nodes| && nodes[i] == listelm
      modifies this, elm, nodes
      ensures Valid() && nodes == Insert(old(nodes), i, elm)
    {
      ghost var ns := nodes;
      assert Forward(ns, i) && Back(ns, i);
      elm.prev := listelm.prev;
      elm.next := listelm;
      Store(listelm.prev, elm);
      listelm.prev := NextOf(elm);
      nodes := Insert(nodes, i, elm);
      forall k | 0 <= k <= |ns| && k != i
        ensures Forward(ns, k) && (k < |ns| ==> Back(ns, k))
      {
        assert old(Forward(ns, k)) && (k < |ns| ==> old(Back(ns, k)));
      }
      Inserted(ns, i, elm);
    }

    /** LIST_REMOVE of the `i`-th element, which keeps its own links */
    method Remove(elm: Node, ghost i: nat)
      requires Valid() && i < |nodes| && nodes[i] == elm
      modifies this, nodes
      ensures Valid() && nodes == Without(old(nodes), i)
      ensures elm.next == old(elm.next) && elm.prev == old(elm.prev)
    {
      ghost var ns := nodes;
      assert Forward(ns, i) && Back(ns, i) && Forward(ns, i + 1) && (i + 1 < |ns| ==> Back(ns, i + 1));
      if elm.next != null {
        elm.next.prev := elm.prev;
      }
      Store(elm.prev, elm.next);
      nodes := Without(nodes, i);
      forall k | 0 <= k <= |ns| && k != i
        ensures Forward(ns, k) && (k < |ns| && k != i + 1 ==> Back(ns, k))
      {
        assert old(Forward(ns, k)) && (k < |ns| ==> old(Back(ns, k)));
      }
      Removed(ns, i);
    }

    /** LIST_CONCAT */
    method Concat(head2: Head)
      requires Valid() && head2.Valid() && this != head2
      requires Apart(nodes, head2.nodes)
      modifies this, nodes, head2, head2.nodes
      ensures Valid() && nodes == old(nodes) + old(head2.nodes)
      ensures head2.Valid() && head2.nodes == []
    {
      hide Apart;
      assert Forward(nodes, 0) && head2.Forward(head2.nodes, 0);
      var curelm := first;
      if curelm == null {
        TakeOver(head2);
      } else if head2.first != null {
        curelm := FindLast();
        Append(curelm, head2);
        head2.Init();
      }
    }

    /** The second list becomes this one. */
    method TakeOver(head2: Head)
      requires Valid() && head2.Valid() && this != head2 && nodes == []
      modifies this, head2, head2.nodes
      ensures Valid() && nodes == old(head2.nodes)
      ensures head2.Valid() && head2.nodes == []
    {
      ghost var ms := head2.nodes;
      assert head2.Forward(ms, 0) && (ms != [] ==> head2.Back(ms, 0));
      first := head2.first;
      if first != null {
        head2.first.prev := FirstOf(this);
        nodes := ms;
        forall k | 0 < k <= |ms|
          ensures head2.Forward(ms, k) && (k < |ms| ==> head2.Back(ms, k))
        {
          assert old(head2.Forward(ms, k)) && (k < |ms| ==> old(head2.Back(ms, k)));
        }
        Joined([], head2, ms);
        head2.Init();
      }
    }

    /** The second list's elements go behind the last one, `curelm`. */
    method Append(curelm: Node, head2: Head)
      requires Valid() && head2.Valid() && this != head2
      requires Apart(nodes, head2.nodes) && head2.nodes != []
      requires nodes != [] && curelm == nodes[|nodes| - 1]
      modifies this`nodes, curelm, head2.nodes[0]
      ensures Valid() && nodes == old(nodes) + head2.nodes
    {
      ghost var ns, ms := nodes, head2.nodes;
      assert Forward(ns, 0) && head2.Forward(ms, 0) && head2.Back(ms, 0);
      curelm.next := head2.first;
      head2.first.prev := NextOf(curelm);
      nodes := nodes + ms;
      forall k | 0 <= k < |ns|
        ensures Forward(ns, k) && Back(ns, k)
      {
        assert old(Forward(ns, k)) && old(Back(ns, k));
      }
      forall k | 0 < k <= |ms|
        ensures head2.Forward(ms, k) && (k < |ms| ==> head2.Back(ms, k))
      {
        assert old(head2.Forward(ms, k)) && (k < |ms| ==> old(head2.Back(ms, k)));
      }
      Joined(ns, head2, ms);
    }

    /** The walk to the end of a list that has one. */
    method FindLast() returns (curelm: Node)
      requires Valid() && nodes != []
      ensures curelm == nodes[|nodes| - 1]
    {
      assert Forward(nodes, 0) && Forward(nodes, 1);
      curelm := first;
      ghost var i := 0;
      while curelm.next != null
        invariant i < |nodes| && curelm == nodes[i] && Forward(nodes, i + 1)
        decreases |nodes| - i
      {
        curelm := curelm.next;
        i := i + 1;
        assert Forward(nodes, i + 1);
      }
    }

    /** What a concatenation must have done to the links of both lists. */
    lemma Joined(ns: seq<Node>, head2: Head, ms: seq<Node>)
      requires Distinct(ns) && Distinct(ms) && Apart(ns, ms)
      requires ms != [] && nodes == ns + ms
      requires forall k :: 0 <= k < |ns| ==> Forward(ns, k) && Back(ns, k)
      requires Deref(Link(ns, |ns|)) == ms[0] && ms[0].prev == Link(ns, |ns|)
      requires forall k :: 0 < k <= |ms| ==> head2.Forward(ms, k) && (k < |ms| ==> head2.Back(ms, k))
      ensures Valid()
    {
      forall k | 0 <= k <= |nodes|
        ensures Forward(nodes, k) && (k < |nodes| ==> Back(nodes, k))
      {
        if k < |ns| {
          assert Forward(ns, k) && Back(ns, k);
        } else if k > |ns| {
          assert head2.Forward(ms, k - |ns|) && (k < |nodes| ==> head2.Back(ms, k - |ns|));
        }
      }
    }

    /** LIST_SWAP */
    method Swap(head2: Head)
      requires Valid() && head2.Valid()
      requires this != head2 ==> Apart(nodes, head2.nodes)
      modifies this, nodes, head2, head2.nodes
      ensures Valid() && nodes == old(head2.nodes)
      ensures head2.Valid() && head2.nodes == old(nodes)
    {
      ghost var ns, ms := nodes, head2.nodes;
      assert Forward(ns, 0) && head2.Forward(ms, 0);
      var swapTmp := first;
      first := head2.first;
      head2.first := swapTmp;
      nodes, head2.nodes := ms, ns;
      if first != null {
        first.prev := FirstOf(this);
      }
      if head2.first != null {
        head2.first.prev := FirstOf(head2);
      }
      forall k | 0 <= k <= |ms|
        ensures Forward(ms, k) && (k < |ms| ==> Back(ms, k))
      {
        assert old(head2.Forward(ms, k)) && (k < |ms| ==> old(head2.Back(ms, k)));
      }
      forall k | 0 <= k <= |ns|
        ensures head2.Forward(ns, k) && (k < |ns| ==> head2.Back(ns, k))
      {
        assert old(Forward(ns, k)) && (k < |ns| ==> old(Back(ns, k)));
      }
    }

    /** LIST_PREV: NULL if the link to the element is the head's, else the element the link is in. */
    method Prev(elm: Node, ghost i: nat) returns (prev: Node?)
      requires Valid() && i < |nodes| && nodes[i] == elm
      ensures prev == if i == 0 then null else nodes[i - 1]
    {
      assert Back(nodes, i);
      prev := if elm.prev == FirstOf(this) then null else elm.prev.node;
    }
  }
}
