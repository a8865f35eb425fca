/** The sequences the linked lists of `queue.h` stand for, and what the macros do to them. */
module Sequences {

  ghost predicate Distinct<T>(s: seq<T>) {
    forall i, j :: 0 <= i < j < |s| ==> s[i] != s[j]
  }

  ghost predicate Apart<T>(s: seq<T>, t: seq<T>) {
    forall i, j :: 0 <= i < |s| && 0 <= j < |t| ==> s[i] != t[j]
  }

  /** The `i`-th element, or `end` (NULL, in the lists) at the end. */
  function At<T>(s: seq<T>, i: nat, end: T): T
    requires i <= |s|
  {
    if i < |s| then s[i] else end
  }

  function Insert<T>(s: seq<T>, p: nat, x: T): seq<T>
    requires p <= |s|
  {
    s[..p] + [x] + s[p..]
  }

  function Without<T>(s: seq<T>, p: nat): seq<T>
    requires p < |s|
  {
    s[..p] + s[p + 1..]
  }

  /** Insertion and removal at one place undo each other. */
  lemma InsertWithout<T>(s: seq<T>, p: nat, x: T)
    ensures p <= |s| ==> Insert(s, p, x)[p] == x && Without(Insert(s, p, x), p) == s
    ensures p < |s| ==> Insert(Without(s, p), p, s[p]) == s
  {
    if p < |s| {
      assert Without(s, p)[..p] == s[..p] && Without(s, p)[p..] == s[p + 1..];
    }
    if p <= |s| {
      var t := Insert(s, p, x);
      assert t[..p] == s[..p] && t[p + 1..] == s[p..];
    }
  }
}
