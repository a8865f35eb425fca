/** `kmalloc`, `krealloc` and `kfree`, with the bookkeeping needed to say who owns what. */
module KernelHeaps {
  import opened Options
  import opened Framing

  class KernelHeap {
    /** Allocated and not yet freed. */
    ghost var live: set<array<Byte>>
    /** Freed so far, with how often. */
    ghost var freed: multiset<array<Byte>>

    /** Nothing was freed twice and nothing freed is live. */
    ghost predicate Valid()
      reads this
    {
      forall p :: p in freed ==> freed[p] == 1 && p !in live
    }

    constructor ()
      ensures Valid() && live == {} && freed == multiset{}
    {
      live, freed := {}, multiset{};
    }

    /** At least `n` bytes of unknown contents, or NULL. */
    method Kmalloc(n: nat, ok: bool) returns (p: array?<Byte>)
      requires Valid()
      modifies this
      ensures Valid() && freed == old(freed)
      ensures !ok ==> p == null && live == old(live)
      ensures ok ==> p != null && fresh(p) && n <= p.Length && p !in old(live) && live == old(live) + {p}
    {
      if !ok {
        return null;
      }
      var length :| n <= length;
      var q := new Byte[length];
      p := q;
      live := live + {q};
    }

    /** Freeing is only allowed for live memory, so never twice. */
    method Kfree(p: array<Byte>)
      requires Valid() && p in live
      modifies this
      ensures Valid() && live == old(live) - {p} && freed == old(freed) + multiset{p}
    {
      assert p !in freed;
      live, freed := live - {p}, freed + multiset{p};
    }

    /** At least `n` bytes that start like the old ones: the same memory when it is big enough and
        need not move, otherwise new memory, the old being freed.  NULL leaves the old in place. */
    method Krealloc(p: array<Byte>, n: nat, ok: bool) returns (q: array?<Byte>)
      requires Valid() && p in live
      modifies this
      ensures Valid()
      ensures !ok ==> q == null && live == old(live) && freed == old(freed)
      ensures ok ==> q != null && n <= q.Length && forall i :: 0 <= i < Min(n, p.Length) ==> q[i] == old(p[i])
      ensures ok && q == p ==> live == old(live) && freed == old(freed)
      ensures ok && q != p ==> fresh(q) && live == old(live) - {p} + {q} && freed == old(freed) + multiset{p}
    {
      var stays: bool := *;
      if ok && stays && n <= p.Length {
        return p;
      }
      q := Kmalloc(n, ok);
      if q != null {
        forall i | 0 <= i < Min(n, p.Length) {
          q[i] := p[i];
        }
        Kfree(p);
      }
    }
  }
}
