/** The server's list of worker threads: the SLIST macros it uses, and the loops that remove entries
    while they walk the list. */
module ThreadList {
  import opened Sequences

  class ThreadEntry {
    var next: ThreadEntry?

    constructor ()
      ensures next == null
    {
      next := null;
    }
  }

  /** How often `want` was observed. */
  function Count(observed: seq<bool>, want: bool): nat {
    if observed == [] then 0
    else Count(observed[..|observed| - 1], want) + if observed[|observed| - 1] == want then 1 else 0
  }

  /** The entries for which `want` was observed, in list order. */
  function Keep<T>(ns: seq<T>, observed: seq<bool>, want: bool): seq<T>
    requires |observed| == |ns|
  {
    if ns == [] then []
    else
      var m := |ns| - 1;
      Keep(ns[..m], observed[..m], want) + if observed[m] == want then [ns[m]] else []
  }

  lemma {:induction false} KeepLength<T>(ns: seq<T>, observed: seq<bool>, want: bool)
    requires |observed| == |ns|
    ensures |Keep(ns, observed, want)| == Count(observed, want)
  {
    if ns != [] {
      KeepLength(ns[..|ns| - 1], observed[..|ns| - 1], want);
    }
  }

  /** Exactly the wanted entries are kept, and in the order they had: the `i`-th entry, if wanted,
      comes after as many as there were wanted before it. */
  lemma {:induction false} KeepAt<T>(ns: seq<T>, observed: seq<bool>, want: bool, i: nat)
    requires |observed| == |ns| && i < |ns| && observed[i] == want
    ensures Count(observed[..i], want) < |Keep(ns, observed, want)|
    ensures Keep(ns, observed, want)[Count(observed[..i], want)] == ns[i]
  {
    var m := |ns| - 1;
    KeepLength(ns[..m], observed[..m], want);
    if i < m {
      assert observed[..m][..i] == observed[..i];
      KeepAt(ns[..m], observed[..m], want, i);
    }
  }

  /** Kept and dropped entries together are all of them. */
  lemma {:induction false} KeepPartition<T>(ns: seq<T>, observed: seq<bool>)
    requires |observed| == |ns|
    ensures multiset(Keep(ns, observed, true)) + multiset(Keep(ns, observed, false)) == multiset(ns)
  {
    if ns != [] {
      var m := |ns| - 1;
      KeepPartition(ns[..m], observed[..m]);
      assert ns == ns[..m] + [ns[m]];
    }
  }

  lemma KeepNext<T>(ns: seq<T>, observed: seq<bool>, want: bool, i: nat)
    requires |observed| == |ns| && i < |ns|
    ensures Keep(ns[..i + 1], observed[..i + 1], want)
         == Keep(ns[..i], observed[..i], want) + if observed[i] == want then [ns[i]] else []
  {
    assert ns[..i + 1][..i] == ns[..i];
    assert observed[..i + 1][..i] == observed[..i];
  }

  /** The list halfway through a reap pass: what was kept of the first `i` entries, then the rest. */
  function Halfway<T>(ns: seq<T>, observed: seq<bool>, i: nat): seq<T>
    requires |observed| == |ns| && i <= |ns|
  {
    Keep(ns[..i], observed[..i], false) + ns[i..]
  }

  lemma WithoutMiddle<T>(a: seq<T>, x: T, b: seq<T>)
    ensures Without(a + [x] + b, |a|) == a + b
  {
  }

  /** The next entry's place in the half-reaped list, and what becomes of the list either way. */
  lemma HalfwayNext<T>(ns: seq<T>, observed: seq<bool>, i: nat)
    requires |observed| == |ns| && i < |ns|
    ensures var now, p := Halfway(ns, observed, i), |Keep(ns[..i], observed[..i], false)|;
            && |now| == p + |ns| - i && now[p] == ns[i] && (i + 1 < |ns| ==> now[p + 1] == ns[i + 1])
            && Halfway(ns, observed, i + 1) == if observed[i] then Without(now, p) else now
  {
    hide Keep, Without;
    KeepNext(ns, observed, false, i);
    var kept := Keep(ns[..i], observed[..i], false);
    assert kept + [ns[i]] + ns[i + 1..] == kept + ns[i..];
    WithoutMiddle(kept, ns[i], ns[i + 1..]);
  }

  lemma HalfwayEnds<T>(ns: seq<T>, observed: seq<bool>)
    requires |observed| == |ns|
    ensures Halfway(ns, observed, 0) == ns && Keep(ns[..0], observed[..0], true) == []
    ensures Halfway(ns, observed, |ns|) == Keep(ns, observed, false)
  {
    assert ns[..|ns|] == ns && observed[..|ns|] == observed;
  }

  lemma {:induction false} KeepWithin<T>(ns: seq<T>, observed: seq<bool>, want: bool)
    requires |observed| == |ns|
    ensures forall n :: n in Keep(ns, observed, want) ==> n in ns
  {
    if ns != [] {
      KeepWithin(ns[..|ns| - 1], observed[..|ns| - 1], want);
    }
  }

  /** Halfway through, the list holds entries of the original one only. */
  lemma HalfwayWithin<T>(ns: seq<T>, observed: seq<bool>, i: nat)
    requires |observed| == |ns| && i <= |ns|
    ensures forall k :: 0 <= k < |Halfway(ns, observed, i)| ==> Halfway(ns, observed, i)[k] in ns
  {
    hide Keep;
    KeepWithin(ns[..i], observed[..i], false);
    var kept := Keep(ns[..i], observed[..i], false);
    forall k | 0 <= k < |kept| + (|ns| - i)
      ensures (kept + ns[i..])[k] in ns
    {
      if k < |kept| {
        assert kept[k] in ns[..i];
      }
    }
  }

  /** The next entry is none of those joined so far. */
  lemma NextNotJoined<T>(ns: seq<T>, observed: seq<bool>, i: nat)
    requires |observed| == |ns| && i < |ns| && Distinct(ns)
    ensures ns[i] !in Keep(ns[..i], observed[..i], true)
  {
    KeepWithin(ns[..i], observed[..i], true);
  }

  lemma PrefixNext<T>(ns: seq<T>, i: nat)
    requires i < |ns|
    ensures ns[..i + 1] == ns[..i] + [ns[i]]
  {
  }

  class ThreadHead {
    var first: ThreadEntry?
    /** The entries, first to last. */
    ghost var nodes: seq<ThreadEntry>

    /** The link to the `i`-th entry, read from the head or from the entry in front. */
    function Link(ns: seq<ThreadEntry>, i: nat): ThreadEntry?
      requires i <= |ns|
      reads this, ns
    {
      if i == 0 then first else ns[i - 1].next
    }

    ghost predicate Forward(ns: seq<ThreadEntry>, i: nat)
      requires i <= |ns|
      reads this, ns
    {
      Link(ns, i) == At<ThreadEntry?>(ns, i, null)
    }

    /** First to last, the links lead through distinct entries to NULL. */
    ghost predicate Valid()
      reads this, nodes
    {
      && Distinct(nodes)
      && (forall i :: 0 <= i <= |nodes| ==> Forward(nodes, i))
    }

    /** SLIST_INIT */
    constructor ()
      ensures Valid() && nodes == []
    {
      first, nodes := null, [];
    }

    /** SLIST_INSERT_HEAD */
    method InsertHead(elm: ThreadEntry)
      requires Valid() && elm !in nodes
      modifies this, elm
      ensures Valid() && nodes == [elm] + old(nodes)
    {
      ghost var ns := nodes;
      elm.next := first;
      first := elm;
      nodes := [elm] + nodes;
      forall k | 0 <= k <= |nodes|
        ensures Forward(nodes, k)
      {
        if k > 0 {
          assert old(Forward(ns, k - 1));
        }
      }
    }

    /** What a removal must have done to the links around position `p`. */
    lemma Removed(ns: seq<ThreadEntry>, p: nat)
      requires Distinct(ns) && p < |ns| && nodes == Without(ns, p)
      requires forall k :: 0 <= k <= |ns| && k != p && k != p + 1 ==> Forward(ns, k)
      requires Link(ns, p) == At<ThreadEntry?>(ns, p + 1, null)
      ensures Valid()
    {
      forall k | 0 <= k <= |nodes|
        ensures Forward(nodes, k)
      {
        if k != p {
          assert Forward(ns, if k < p then k else k + 1);
        }
      }
    }

    /** SLIST_REMOVE_HEAD */
    method RemoveHead()
      requires Valid() && nodes != []
      modifies this
      ensures Valid() && nodes == old(nodes)[1..]
    {
      ghost var ns := nodes;
      assert Forward(ns, 0) && Forward(ns, 1);
      first := first.next;
      nodes := Without(nodes, 0);
      forall k | 0 <= k <= |ns| && k != 0
        ensures Forward(ns, k)
      {
        assert old(Forward(ns, k));
      }
      Removed(ns, 0);
    }

    /** SLIST_REMOVE_AFTER, `elm` being the `i`-th entry and not the last */
    method RemoveAfter(elm: ThreadEntry, ghost i: nat)
      requires Valid() && i + 1 < |nodes| && nodes[i] == elm
      modifies this, elm
      ensures Valid() && nodes == Without(old(nodes), i + 1)
    {
      ghost var ns := nodes;
      assert Forward(ns, i + 1) && Forward(ns, i + 2);
      elm.next := elm.next.next;
      nodes := Without(nodes, i + 1);
      forall k | 0 <= k <= |ns| && k != i + 1
        ensures Forward(ns, k)
      {
        assert old(Forward(ns, k));
      }
      Removed(ns, i + 1);
    }

    /** SLIST_REMOVE of the `i`-th entry: by the head's link, or by a walk to the entry in front.  It
        follows only links of entries in the list. */
    method Remove(elm: ThreadEntry, ghost i: nat)
      requires Valid() && i < |nodes| && nodes[i] == elm
      modifies this, nodes
      ensures Valid() && nodes == Without(old(nodes), i)
    {
      assert Forward(nodes, 0);
      if first == elm {
        RemoveHead();
      } else {
        var curelm := first;
        ghost var j := 0;
        assert Forward(nodes, 1);
        while curelm.next != elm
          invariant j < i && curelm == nodes[j] && Forward(nodes, j + 1)
          decreases i - j
        {
          j := j + 1;
          curelm := curelm.next;
          assert Forward(nodes, j + 1);
        }
        RemoveAfter(curelm, j);
      }
    }

    lemma LinksAround(p: nat)
      requires Valid() && p <= |nodes|
      ensures Distinct(nodes) && first == At<ThreadEntry?>(nodes, 0, null)
      ensures p < |nodes| ==> nodes[p].next == At<ThreadEntry?>(nodes, p + 1, null)
    {
      assert Forward(nodes, 0);
      if p < |nodes| {
        assert Forward(nodes, p + 1);
      }
    }

    /** The reap pass of the accept loop.  `observed[i]` is what the check of the `i`-th entry's
        `is_done` finds: a worker may set it at any time, so it is not ours to say.  Every entry is
        looked at once, in list order and before it is freed; the entries observed done are joined,
        unlinked and freed, in that order, and the others stay, in theirs. */
    method Reap(observed: seq<bool>) returns (joined: seq<ThreadEntry>, visited: seq<ThreadEntry>)
      requires Valid() && |observed| == |nodes|
      modifies this, nodes
      ensures Valid() && nodes == Keep(old(nodes), observed, false)
      ensures joined == Keep(old(nodes), observed, true)
      ensures visited == old(nodes)
    {
      hide Keep, Halfway, Valid, Without, Distinct;
      ghost var ns := nodes;
      LinksAround(0);
      var entry, i := first, 0;
      joined, visited := [], [];
      HalfwayEnds(ns, observed);
      while entry != null
        invariant i <= |ns| && entry == At<ThreadEntry?>(ns, i, null) && visited == ns[..i]
        invariant Valid() && nodes == Halfway(ns, observed, i)
        invariant joined == Keep(ns[..i], observed[..i], true)
        decreases |ns| - i
      {
        ghost var p := |Keep(ns[..i], observed[..i], false)|;
        HalfwayNext(ns, observed, i);
        HalfwayWithin(ns, observed, i);
        NextNotJoined(ns, observed, i);
        KeepNext(ns, observed, true, i);
        PrefixNext(ns, i);
        LinksAround(p);
        assert entry !in joined;
        var temp := entry.next;
        visited := visited + [entry];
        if observed[i] {
          joined := joined + [entry];
          Remove(entry, p);
        }
        entry, i := temp, i + 1;
      }
      assert ns[..i] == ns && observed[..i] == observed;
    }

    /** The loop after the accept loop: every entry is joined, unlinked and freed. */
    method ReapAll() returns (joined: seq<ThreadEntry>)
      requires Valid()
      modifies this, nodes
      ensures Valid() && nodes == []
      ensures joined == old(nodes)
    {
      ghost var ns := nodes;
      assert Forward(ns, 0);
      var entry := first;
      joined := [];
      ghost var i := 0;
      while entry != null
        invariant i <= |ns| && entry == At<ThreadEntry?>(ns, i, null)
        invariant Valid() && nodes == ns[i..]
        invariant joined == ns[..i]
        decreases |ns| - i
      {
        assert nodes[0] == entry && Forward(nodes, 1);
        assert entry !in joined;
        var temp := entry.next;
        joined := joined + [entry];
        Remove(entry, 0);
        entry, i := temp, i + 1;
      }
    }
  }
}
