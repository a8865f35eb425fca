/** The two addressing schemes of the ring: a flat byte position, and a (command, offset) pair.
    Both are stated on the sizes of the stored commands, oldest first. */
module Positions {
  import opened Options
  import opened Framing

  function Sum(sizes: seq<nat>): nat {
    if sizes == [] then 0 else sizes[0] + Sum(sizes[1..])
  }

  function Sizes(ls: seq<seq<Byte>>): (r: seq<nat>)
    ensures |r| == |ls|
  {
    seq(|ls|, i requires 0 <= i < |ls| => |ls[i]|)
  }

  datatype Place = Place(cmd: nat, offset: nat)

  /** `p` names a byte that is stored. */
  predicate Stored(sizes: seq<nat>, p: Place) {
    p.cmd < |sizes| && p.offset < sizes[p.cmd]
  }

  /** The flat position of a place: everything before its command, plus the offset. */
  function Position(sizes: seq<nat>, p: Place): nat
    requires p.cmd < |sizes|
  {
    Sum(sizes[..p.cmd]) + p.offset
  }

  /** The place of a flat position, scanning from the oldest command. */
  function Locate(sizes: seq<nat>, pos: nat): Option<Place> {
    if sizes == [] then None
    else if pos < sizes[0] then Some(Place(0, pos))
    else match Locate(sizes[1..], pos - sizes[0])
      case None => None
      case Some(p) => Some(Place(p.cmd + 1, p.offset))
  }

  lemma {:induction false} SumAppend(a: seq<nat>, b: seq<nat>)
    ensures Sum(a + b) == Sum(a) + Sum(b)
  {
    if a == [] {
      assert a + b == b;
    } else {
      assert (a + b)[1..] == a[1..] + b;
      SumAppend(a[1..], b);
    }
  }

  lemma SumSplit(sizes: seq<nat>, k: nat)
    requires k <= |sizes|
    ensures Sum(sizes) == Sum(sizes[..k]) + Sum(sizes[k..])
  {
    assert sizes == sizes[..k] + sizes[k..];
    SumAppend(sizes[..k], sizes[k..]);
  }

  lemma SumNext(sizes: seq<nat>, k: nat)
    requires k < |sizes|
    ensures Sum(sizes[..k + 1]) == Sum(sizes[..k]) + sizes[k]
    ensures Sum(sizes[k..]) == sizes[k] + Sum(sizes[k + 1..])
  {
    assert sizes[..k + 1] == sizes[..k] + [sizes[k]];
    SumAppend(sizes[..k], [sizes[k]]);
    assert Sum([sizes[k]]) == sizes[k] + Sum([]);
    assert sizes[k..][1..] == sizes[k + 1..];
  }

  /** Slots that hold nothing contribute nothing. */
  lemma {:induction false} SumZeros(zs: seq<nat>)
    requires forall i :: 0 <= i < |zs| ==> zs[i] == 0
    ensures Sum(zs) == 0
  {
    if zs != [] {
      SumZeros(zs[1..]);
    }
  }

  /** The total does not depend on where the ring's oldest command sits. */
  lemma {:induction false} SumRotation(sizes: seq<nat>, k: nat)
    requires k <= |sizes|
    ensures Sum(sizes[k..] + sizes[..k]) == Sum(sizes)
  {
    SumAppend(sizes[k..], sizes[..k]);
    SumSplit(sizes, k);
  }

  lemma {:induction false} FlatLength(ls: seq<seq<Byte>>)
    ensures |Flat(ls)| == Sum(Sizes(ls))
  {
    if ls != [] {
      FlatLength(ls[1..]);
      assert Sizes(ls)[1..] == Sizes(ls[1..]);
    }
  }

  /** A flat position is nowhere exactly when it is at or past the total; otherwise it names a
      stored byte whose flat position it is. */
  lemma {:induction false} LocateSound(sizes: seq<nat>, pos: nat)
    ensures Locate(sizes, pos).None? <==> Sum(sizes) <= pos
    ensures Locate(sizes, pos).Some? ==>
              var p := Locate(sizes, pos).value;
              Stored(sizes, p) && Position(sizes, p) == pos
  {
    if sizes != [] && sizes[0] <= pos {
      LocateSound(sizes[1..], pos - sizes[0]);
      var r := Locate(sizes[1..], pos - sizes[0]);
      if r.Some? {
        assert sizes[..r.value.cmd + 1][1..] == sizes[1..][..r.value.cmd];
      }
    }
  }

  /** Seeking to a place and locating the position reached gives back that place. */
  lemma {:induction false} LocatePosition(sizes: seq<nat>, p: Place)
    requires Stored(sizes, p)
    ensures Position(sizes, p) < Sum(sizes)
    ensures Locate(sizes, Position(sizes, p)) == Some(p)
  {
    if p.cmd == 0 {
      assert sizes[..0] == [];
    } else {
      var q := Place(p.cmd - 1, p.offset);
      assert sizes[..p.cmd][1..] == sizes[1..][..q.cmd];
      assert Position(sizes, p) == sizes[0] + Position(sizes[1..], q);
      LocatePosition(sizes[1..], q);
    }
  }

  /** Every position below the total is the position of exactly one stored place. */
  lemma PositionBijective(sizes: seq<nat>, pos: nat)
    ensures pos < Sum(sizes) <==> exists p :: Stored(sizes, p) && Position(sizes, p) == pos
    ensures forall p, q :: Stored(sizes, p) && Stored(sizes, q) && Position(sizes, p) == Position(sizes, q) ==> p == q
  {
    LocateSound(sizes, pos);
    if pos < Sum(sizes) {
      var p := Locate(sizes, pos).value;
      assert Stored(sizes, p) && Position(sizes, p) == pos;
    }
    forall p | Stored(sizes, p)
      ensures Position(sizes, p) < Sum(sizes) && Locate(sizes, Position(sizes, p)) == Some(p)
    {
      LocatePosition(sizes, p);
    }
  }

  /** Command `c` sits in the flat contents right after everything before it. */
  lemma FlatAround(ls: seq<seq<Byte>>, c: nat)
    requires c < |ls|
    ensures Flat(ls) == Flat(ls[..c]) + ls[c] + Flat(ls[c + 1..])
    ensures |Flat(ls[..c])| == Sum(Sizes(ls)[..c])
  {
    var before, rest := ls[..c], ls[c..];
    assert ls == before + rest;
    FlatAppend(before, rest);
    assert rest[1..] == ls[c + 1..];
    assert Flat(before) + (ls[c] + Flat(ls[c + 1..])) == Flat(before) + ls[c] + Flat(ls[c + 1..]);
    FlatLength(before);
    assert Sizes(ls)[..c] == Sizes(before);
  }

  lemma SliceOfMiddle(a: seq<Byte>, b: seq<Byte>, c: seq<Byte>, from: nat, n: nat)
    requires from + n <= |b|
    ensures (a + b + c)[|a| + from..][..n] == b[from..from + n]
  {
  }

  /** The bytes of a command, from an offset on, are the flat contents from its position on. */
  lemma FlatSlice(ls: seq<seq<Byte>>, p: Place, n: nat)
    requires p.cmd < |ls| && p.offset + n <= |ls[p.cmd]|
    ensures Position(Sizes(ls), p) + n <= |Flat(ls)|
    ensures Flat(ls)[Position(Sizes(ls), p)..][..n] == ls[p.cmd][p.offset..p.offset + n]
  {
    FlatAround(ls, p.cmd);
    SliceOfMiddle(Flat(ls[..p.cmd]), ls[p.cmd], Flat(ls[p.cmd + 1..]), p.offset, n);
  }
}
