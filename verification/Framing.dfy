/** Byte streams and their division into newline-terminated commands. */
module Framing {

  type Byte = b: int | 0 <= b < 256

  const NEWLINE: Byte := 10

  /** What `memchr(s, '\n', |s|)` finds: the index of the first newline, or `|s|` for NULL. */
  function IndexOfNewline(s: seq<Byte>): (k: nat)
    ensures k <= |s|
    ensures k < |s| ==> s[k] == NEWLINE
    ensures forall i :: 0 <= i < k ==> s[i] != NEWLINE
  {
    if s == [] || s[0] == NEWLINE then 0 else 1 + IndexOfNewline(s[1..])
  }

  /** A complete command: exactly one newline, at the end. */
  predicate IsLine(l: seq<Byte>) {
    |l| > 0 && l[|l| - 1] == NEWLINE && forall i :: 0 <= i < |l| - 1 ==> l[i] != NEWLINE
  }

  predicate AllLines(ls: seq<seq<Byte>>) {
    forall i :: 0 <= i < |ls| ==> IsLine(ls[i])
  }

  /** The commands laid end to end. */
  function Flat(ls: seq<seq<Byte>>): seq<Byte> {
    if ls == [] then [] else ls[0] + Flat(ls[1..])
  }

  /** The complete lines of a byte stream. */
  function Lines(s: seq<Byte>): seq<seq<Byte>>
    decreases |s|
  {
    var k := IndexOfNewline(s);
    if k == |s| then [] else [s[..k + 1]] + Lines(s[k + 1..])
  }

  /** What follows the last newline of a byte stream. */
  function Tail(s: seq<Byte>): seq<Byte>
    decreases |s|
  {
    var k := IndexOfNewline(s);
    if k == |s| then s else Tail(s[k + 1..])
  }

  lemma {:induction false} FlatCons(l: seq<Byte>, ls: seq<seq<Byte>>)
    ensures Flat([l] + ls) == l + Flat(ls)
  {
    assert ([l] + ls)[1..] == ls;
  }

  lemma {:induction false} FlatAppend(a: seq<seq<Byte>>, b: seq<seq<Byte>>)
    ensures Flat(a + b) == Flat(a) + Flat(b)
  {
    if a == [] {
      assert a + b == b;
    } else {
      FlatAppend(a[1..], b);
      FlatAppendFirst(a[0], a[1..], b);
      assert a == [a[0]] + a[1..];
    }
  }

  lemma {:induction false} FlatAppendFirst(l: seq<Byte>, a: seq<seq<Byte>>, b: seq<seq<Byte>>)
    requires Flat(a + b) == Flat(a) + Flat(b)
    ensures Flat([l] + a + b) == Flat([l] + a) + Flat(b)
  {
    hide Flat;
    FlatCons(l, a);
    FlatCons(l, a + b);
    assert [l] + a + b == [l] + (a + b);
    assert l + (Flat(a) + Flat(b)) == l + Flat(a) + Flat(b);
  }

  lemma FlatOne(l: seq<Byte>)
    ensures Flat([l]) == l
  {
    assert [l][1..] == [];
  }

  lemma ConsLine(l: seq<Byte>, ls: seq<seq<Byte>>, t: seq<Byte>)
    ensures Flat([l] + ls) + t == l + (Flat(ls) + t)
    ensures IsLine(l) && AllLines(ls) ==> AllLines([l] + ls)
  {
    FlatCons(l, ls);
    assert l + Flat(ls) + t == l + (Flat(ls) + t);
  }

  /** The first newline of a stream cuts off its first line. */
  lemma {:induction false} SplitFirst(s: seq<Byte>)
    ensures var k := IndexOfNewline(s);
            && k <= |s|
            && (k == |s| ==> Lines(s) == [] && Tail(s) == s && NEWLINE !in s)
            && (k < |s| ==>
                  && IsLine(s[..k + 1])
                  && Lines(s) == [s[..k + 1]] + Lines(s[k + 1..])
                  && Tail(s) == Tail(s[k + 1..]))
  {
  }

  /** Splitting loses nothing, its lines are lines, and its tail holds no newline. */
  lemma {:induction false} SplitConserves(s: seq<Byte>)
    ensures Flat(Lines(s)) + Tail(s) == s
    ensures AllLines(Lines(s))
    ensures NEWLINE !in Tail(s)
    decreases |s|
  {
    hide Lines, Tail, IndexOfNewline, IsLine;
    SplitFirst(s);
    var k := IndexOfNewline(s);
    if k < |s| {
      hide AllLines, Flat;
      var line, rest := s[..k + 1], s[k + 1..];
      SplitConserves(rest);
      ConsLine(line, Lines(rest), Tail(rest));
      assert s == line + rest;
    }
  }

  /** A line in front of anything is what the first newline cuts off. */
  lemma {:induction false} FirstLine(l: seq<Byte>, rest: seq<Byte>)
    requires IsLine(l)
    ensures Lines(l + rest) == [l] + Lines(rest)
    ensures Tail(l + rest) == Tail(rest)
  {
    hide Lines, Tail, IndexOfNewline;
    var s := l + rest;
    SplitFirst(s);
    assert s[|l| - 1] == NEWLINE;
    assert forall i :: 0 <= i < |l| - 1 ==> s[i] == l[i] != NEWLINE;
    assert IndexOfNewline(s) == |l| - 1;
    assert s[..|l|] == l && s[|l|..] == rest;
  }

  /** Splitting is the only way to read a stream as complete lines and an unfinished tail. */
  lemma {:induction false} SplitUnique(ls: seq<seq<Byte>>, t: seq<Byte>)
    requires AllLines(ls)
    requires NEWLINE !in t
    ensures Lines(Flat(ls) + t) == ls
    ensures Tail(Flat(ls) + t) == t
  {
    hide Lines, Tail, IsLine;
    var s := Flat(ls) + t;
    if ls == [] {
      assert s == t;
      SplitFirst(s);
    } else {
      var l, rest := ls[0], Flat(ls[1..]) + t;
      assert s == l + rest;
      FirstLine(l, rest);
      SplitUnique(ls[1..], t);
    }
  }

  lemma Rejoin(la: seq<seq<Byte>>, ta: seq<Byte>, b: seq<Byte>, lc: seq<seq<Byte>>, tc: seq<Byte>)
    requires Flat(lc) + tc == ta + b
    ensures Flat(la + lc) + tc == Flat(la) + ta + b
  {
    FlatAppend(la, lc);
    assert Flat(la) + Flat(lc) + tc == Flat(la) + (Flat(lc) + tc);
    assert Flat(la) + (ta + b) == Flat(la) + ta + b;
  }

  /** Taking the first `k` lines off a stream leaves the others and the tail. */
  lemma SplitAt(s: seq<Byte>, k: nat)
    requires k <= |Lines(s)|
    ensures Flat(Lines(s)[..k]) + (Flat(Lines(s)[k..]) + Tail(s)) == s
  {
    hide Lines, Tail, Flat;
    var ls, t := Lines(s), Tail(s);
    SplitConserves(s);
    FlatAppend(ls[..k], ls[k..]);
    assert ls[..k] + ls[k..] == ls;
    assert Flat(ls[..k]) + (Flat(ls[k..]) + t) == Flat(ls[..k]) + Flat(ls[k..]) + t;
  }

  /** A stream may be split piece by piece: only the unfinished tail carries over. */
  lemma SplitAppend(a: seq<Byte>, b: seq<Byte>)
    ensures Lines(a + b) == Lines(a) + Lines(Tail(a) + b)
    ensures Tail(a + b) == Tail(Tail(a) + b)
  {
    var la, ta := Lines(a), Tail(a);
    var lc, tc := Lines(ta + b), Tail(ta + b);
    SplitConserves(a);
    SplitConserves(ta + b);
    Rejoin(la, ta, b, lc, tc);
    SplitUnique(la + lc, tc);
  }

  /** Complete lines in front of anything are read back one for one. */
  lemma SplitPrefix(ls: seq<seq<Byte>>, t: seq<Byte>)
    requires AllLines(ls)
    ensures Lines(Flat(ls) + t) == ls + Lines(t)
    ensures Tail(Flat(ls) + t) == Tail(t)
  {
    SplitUnique(ls, []);
    assert Flat(ls) + [] == Flat(ls);
    SplitAppend(Flat(ls), t);
    assert [] + t == t;
  }
}
