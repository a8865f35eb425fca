/** The ring discipline of `aesd-circular-buffer.c` on values: ten slots, two wrapping indices and a
    flag, whatever the slots hold. */
module Rings {
  import opened Options
  import opened Positions
  import opened DeviceLog

  /** `i % AESDCHAR_MAX_WRITE_OPERATIONS_SUPPORTED`. */
  function Wrap(i: nat): (r: nat)
    ensures r < CAPACITY
    ensures i < CAPACITY ==> r == i
    ensures CAPACITY <= i < 2 * CAPACITY ==> r == i - CAPACITY
  {
    i % 10
  }

  lemma WrapAdd(i: nat, j: nat)
    ensures Wrap(Wrap(i) + j) == Wrap(i + j)
  {
  }

  /** Ten consecutive positions fall in ten different slots. */
  lemma WrapInjective(i: nat, j: nat)
    requires i <= j < i + CAPACITY
    ensures Wrap(i) == Wrap(j) ==> i == j
  {
  }

  datatype Ring<T> = Ring(slots: seq<T>, inOffs: nat, outOffs: nat, full: bool)

  /** A ring that let go of `gone` entries and holds `contents`, its other slots being `empty`. */
  ghost predicate Shape<T>(r: Ring<T>, empty: T, gone: nat, contents: seq<T>) {
    && |r.slots| == CAPACITY
    && |contents| <= CAPACITY
    && (gone > 0 ==> r.full)
    && r.inOffs == Wrap(gone + |contents|)
    && r.outOffs == Wrap(gone)
    && (r.full <==> |contents| == CAPACITY)
    && (forall c :: 0 <= c < |contents| ==> r.slots[Wrap(gone + c)] == contents[c])
    && (forall i :: |contents| <= i < CAPACITY ==> r.slots[i] == empty)
  }

  /** The ring after an entry was added. */
  function Add<T>(r: Ring<T>, x: T): Ring<T>
    requires r.inOffs < |r.slots|
  {
    var outOffs := if r.full then Wrap(r.outOffs + 1) else r.outOffs;
    var inOffs := Wrap(r.inOffs + 1);
    Ring(r.slots[r.inOffs := x], inOffs, outOffs, r.full || inOffs == outOffs)
  }

  lemma ShapeFacts<T>(r: Ring<T>, empty: T, gone: nat, contents: seq<T>)
    requires Shape(r, empty, gone, contents)
    ensures |r.slots| == CAPACITY && |contents| <= CAPACITY && r.inOffs < CAPACITY && r.outOffs < CAPACITY
    ensures r.full <==> |contents| == CAPACITY
    ensures r.full ==> r.inOffs == r.outOffs
    ensures !r.full ==> gone == 0 && r.outOffs == 0 && r.inOffs == |contents|
  {
  }

  /** The `c`-th oldest entry is `c` slots after `outOffs`. */
  lemma EntryAt<T>(r: Ring<T>, empty: T, gone: nat, contents: seq<T>, c: nat)
    requires Shape(r, empty, gone, contents) && c < |contents|
    ensures |r.slots| == CAPACITY && r.slots[Wrap(r.outOffs + c)] == contents[c]
  {
    WrapAdd(gone, c);
  }

  /** Which entry, counted from the oldest, slot `i` is for. */
  function Age(outOffs: nat, i: nat): nat
    requires outOffs < CAPACITY
  {
    Wrap(i + CAPACITY - outOffs)
  }

  /** The first `|contents|` physical slots are the occupied ones; the others are empty. */
  lemma SlotHolds<T>(r: Ring<T>, empty: T, gone: nat, contents: seq<T>, i: nat)
    requires Shape(r, empty, gone, contents) && i < CAPACITY
    ensures |r.slots| == CAPACITY && r.outOffs < CAPACITY
    ensures Wrap(r.outOffs + Age(r.outOffs, i)) == i
    ensures i < |contents| ==> Age(r.outOffs, i) < |contents| && r.slots[i] == contents[Age(r.outOffs, i)]
    ensures i >= |contents| ==> r.slots[i] == empty
  {
    WrapAdd(i + CAPACITY - r.outOffs, r.outOffs);
    if i < |contents| {
      ShapeFacts(r, empty, gone, contents);
      EntryAt(r, empty, gone, contents, Age(r.outOffs, i));
    }
  }

  /** Adding slides the contents by one; in a full ring the oldest entry's slot, which `outOffs` is at,
      becomes the newest's. */
  lemma ShapeAdd<T>(r: Ring<T>, empty: T, gone: nat, contents: seq<T>, x: T)
    requires Shape(r, empty, gone, contents)
    ensures r.inOffs < |r.slots| == CAPACITY && (r.full ==> contents != [] && r.slots[r.outOffs] == contents[0])
    ensures Shape(Add(r, x), empty, if r.full then gone + 1 else 0, Slide(contents, r.full, x))
  {
    if r.full {
      ShapeTurn(r, empty, gone, contents, x);
    }
  }

  lemma ShapeTurn<T>(r: Ring<T>, empty: T, gone: nat, contents: seq<T>, x: T)
    requires Shape(r, empty, gone, contents) && r.full
    ensures r.inOffs == r.outOffs < CAPACITY && r.slots[r.outOffs] == contents[0]
    ensures Shape(Add(r, x), empty, gone + 1, contents[1..] + [x])
  {
    ShapeFacts(r, empty, gone, contents);
    EntryAt(r, empty, gone, contents, 0);
    WrapAdd(gone, 1);
    WrapAdd(gone + CAPACITY, 1);
    forall c | 0 <= c < CAPACITY
      ensures Add(r, x).slots[Wrap(gone + 1 + c)] == (contents[1..] + [x])[c]
    {
      TurnedSlot(r, empty, gone, contents, x, c);
    }
  }

  lemma TurnedSlot<T>(r: Ring<T>, empty: T, gone: nat, contents: seq<T>, x: T, c: nat)
    requires Shape(r, empty, gone, contents) && r.full && c < CAPACITY
    ensures r.inOffs < |r.slots| == |contents| == CAPACITY
    ensures Add(r, x).slots[Wrap(gone + 1 + c)] == (contents[1..] + [x])[c]
  {
    if c < CAPACITY - 1 {
      WrapInjective(gone, gone + 1 + c);
      assert r.slots[Wrap(gone + (1 + c))] == contents[1 + c];
    }
  }

  // ----- rings of sizes

  /** The ring search for `pos` has passed the first `count` slots from `outOffs` on without finding it,
      and is at slot `index`, which starts at `offset`.  The ring that was never written is scanned to
      the end. */
  predicate Scanning(r: Ring<nat>, sizes: seq<nat>, pos: nat, index: nat, offset: nat, count: nat) {
    && count < CAPACITY && index == Wrap(r.outOffs + count)
    && (count < |sizes| || sizes == [])
    && offset == Sum(sizes[..Min(count, |sizes|)]) <= pos
  }

  /** When the search gives up after slot `index`, the `count`-th it looked at. */
  predicate ScanEnds<T>(r: Ring<T>, index: nat, count: nat) {
    (!r.full && Wrap(index + 1) == r.inOffs) || count + 1 == CAPACITY
  }

  lemma ScanStarts(r: Ring<nat>, gone: nat, sizes: seq<nat>, pos: nat)
    requires Shape(r, 0, gone, sizes)
    ensures Scanning(r, sizes, pos, r.outOffs, 0, 0)
  {
    ShapeFacts(r, 0, gone, sizes);
    assert sizes[..0] == [];
  }

  /** One turn of the search: the byte is in this slot, or it is nowhere, or the search goes on. */
  lemma ScanStep(r: Ring<nat>, gone: nat, sizes: seq<nat>, pos: nat, index: nat, offset: nat, count: nat)
    requires Shape(r, 0, gone, sizes) && Scanning(r, sizes, pos, index, offset, count)
    ensures index < |r.slots| == CAPACITY
    ensures pos < offset + r.slots[index] ==> Locate(sizes, pos) == Some(Place(count, pos - offset))
    ensures pos >= offset + r.slots[index] && ScanEnds(r, index, count) ==> Locate(sizes, pos) == None
    ensures pos >= offset + r.slots[index] && !ScanEnds(r, index, count) ==>
              Scanning(r, sizes, pos, Wrap(index + 1), offset + r.slots[index], count + 1)
  {
    hide Locate, Sum, Shape;
    ShapeFacts(r, 0, gone, sizes);
    WrapAdd(r.outOffs + count, 1);
    if sizes == [] {
      SlotHolds(r, 0, gone, sizes, index);
      LocateSound(sizes, pos);
    } else {
      EntryAt(r, 0, gone, sizes, count);
      SumNext(sizes, count);
      if pos < offset + r.slots[index] {
        LocatePosition(sizes, Place(count, pos - offset));
      } else if count + 1 == |sizes| {
        assert sizes[..|sizes|] == sizes;
        LocateSound(sizes, pos);
      }
    }
  }

  /** The sum over the physical slots is the sum over the entries held, whatever the rotation. */
  lemma PhysicalSum(r: Ring<nat>, gone: nat, sizes: seq<nat>)
    requires Shape(r, 0, gone, sizes)
    ensures Sum(r.slots) == Sum(sizes)
  {
    hide Sum, Shape;
    ShapeFacts(r, 0, gone, sizes);
    if r.full {
      var k := Wrap(CAPACITY - r.outOffs);
      forall i | 0 <= i < CAPACITY
        ensures r.slots[i] == (sizes[k..] + sizes[..k])[i]
      {
        SlotHolds(r, 0, gone, sizes, i);
      }
      assert r.slots == sizes[k..] + sizes[..k];
      SumRotation(sizes, k);
    } else {
      forall i | 0 <= i < CAPACITY
        ensures r.slots[i] == if i < |sizes| then sizes[i] else 0
      {
        SlotHolds(r, 0, gone, sizes, i);
      }
      var zeros := r.slots[|sizes|..];
      assert r.slots == sizes + zeros;
      SumAppend(sizes, zeros);
      SumZeros(zeros);
    }
  }
}
