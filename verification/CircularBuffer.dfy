/** The ten-slot ring of `aesd-circular-buffer.c`, slots, indices and flag as in the source. */
module CircularBuffers {
  import opened Options
  import opened Framing
  import opened Positions
  import opened DeviceLog
  import opened Rings

  datatype Entry = Entry(buffptr: array?<Byte>, size: nat)

  const NO_ENTRY := Entry(null, 0)

  function EntrySizes(es: seq<Entry>): (r: seq<nat>)
    ensures |r| == |es|
  {
    seq(|es|, i requires 0 <= i < |es| => es[i].size)
  }

  lemma LastTenOfBoth<T>(gone: seq<T>, contents: seq<T>)
    requires |contents| <= CAPACITY && (gone != [] ==> |contents| == CAPACITY)
    ensures LastTen(gone + contents) == contents && AllButLastTen(gone + contents) == gone
  {
  }

  class CircularBuffer {
    const entry: array<Entry>
    var inOffs: nat
    var outOffs: nat
    var full: bool
    /** Every entry that left the ring, oldest first. */
    ghost var gone: seq<Entry>
    /** The entries the ring holds, oldest first. */
    ghost var contents: seq<Entry>

    ghost function View(): Ring<Entry>
      reads this, entry
    {
      Ring(entry[..], inOffs, outOffs, full)
    }

    /** The slots, indices and flag are those of a ring that held `gone` and now holds `contents`. */
    ghost predicate Valid()
      reads this, entry
    {
      entry.Length == CAPACITY && Shape(View(), NO_ENTRY, |gone|, contents)
    }

    /** Slot of the `c`-th oldest entry. */
    function Slot(c: nat): nat
      reads this
    {
      Wrap(outOffs + c)
    }

    constructor ()
      ensures Valid() && gone == [] && contents == [] && fresh(entry)
    {
      entry := new Entry[CAPACITY](_ => NO_ENTRY);
      inOffs, outOffs, full := 0, 0, false;
      gone, contents := [], [];
    }

    /** Make the struct all zeroes again. */
    method Init()
      requires entry.Length == CAPACITY
      modifies this, entry
      ensures Valid() && gone == [] && contents == []
    {
      forall i | 0 <= i < entry.Length {
        entry[i] := NO_ENTRY;
      }
      inOffs, outOffs, full := 0, 0, false;
      gone, contents := [], [];
    }

    /** Where the entries of the ring sit: the `c`-th oldest is in slot `Slot(c)`. */
    lemma SlotsOfContents()
      requires Valid()
      ensures |contents| <= CAPACITY && (full <==> |contents| == CAPACITY)
      ensures forall c :: 0 <= c < |contents| ==> entry[Slot(c)] == contents[c]
      ensures outOffs < CAPACITY && (!full ==> outOffs == 0 && inOffs == |contents|)
      ensures full ==> inOffs == outOffs
    {
      ShapeFacts(View(), NO_ENTRY, |gone|, contents);
      forall c | 0 <= c < |contents|
        ensures entry[Slot(c)] == contents[c]
      {
        EntryAt(View(), NO_ENTRY, |gone|, contents, c);
      }
    }

    /** The first `|contents|` physical slots are the occupied ones, each with the entry of its age; the
        others are all zero. */
    lemma SlotHolds(i: nat)
      requires Valid() && i < CAPACITY
      ensures outOffs < CAPACITY && Slot(Age(outOffs, i)) == i
      ensures i < |contents| ==> Age(outOffs, i) < |contents| && entry[i] == contents[Age(outOffs, i)]
      ensures i >= |contents| ==> entry[i] == NO_ENTRY
    {
      Rings.SlotHolds(View(), NO_ENTRY, |gone|, contents, i);
    }

    /** The closed form after `n` adds. */
    lemma ClosedForm()
      requires Valid()
      ensures var added := gone + contents;
              var n := |added|;
              && inOffs == n % 10
              && outOffs == Max(0, n - 10) % 10
              && (full <==> n >= 10)
              && contents == LastTen(added) && gone == AllButLastTen(added)
              && (forall j :: Max(0, n - 10) <= j < n ==> entry[Wrap(j)] == added[j])
              && (forall i :: n <= i < 10 ==> entry[i] == NO_ENTRY)
    {
      hide LastTen, AllButLastTen;
      ShapeFacts(View(), NO_ENTRY, |gone|, contents);
      IndicesClosed();
      var added := gone + contents;
      var n := |added|;
      LastTenOfBoth(gone, contents);
      forall j | Max(0, n - 10) <= j < n
        ensures entry[Wrap(j)] == added[j]
      {
        assert View().slots[Wrap(|gone| + (j - |gone|))] == contents[j - |gone|];
      }
      forall i | n <= i < 10
        ensures entry[i] == NO_ENTRY
      {
        assert View().slots[i] == NO_ENTRY;
      }
    }

    lemma IndicesClosed()
      requires Valid()
      ensures var n := |gone| + |contents|;
              inOffs == n % 10 && outOffs == Max(0, n - 10) % 10 && (full <==> n >= 10)
    {
      hide LastTen, AllButLastTen;
    }

    /** The new entry takes the next slot; a full ring lets go of its oldest entry, whose buffer is
        returned. */
    method AddEntry(e: Entry) returns (overwritten: array?<Byte>)
      requires Valid()
      modifies this, entry
      ensures Valid() && old(full) == (|old(contents)| == CAPACITY)
      ensures contents == Slide(old(contents), old(full), e)
      ensures gone == if old(full) then old(gone) + [old(contents)[0]] else []
      ensures overwritten == if old(full) then old(contents)[0].buffptr else null
    {
      hide Shape, Slide;
      ShapeAdd(View(), NO_ENTRY, |gone|, contents, e);
      ShapeFacts(View(), NO_ENTRY, |gone|, contents);
      ghost var after := Add(View(), e);
      ghost var gone' := if full then gone + [contents[0]] else [];
      ghost var contents' := Slide(contents, full, e);
      overwritten := null;
      if full {
        overwritten := entry[outOffs].buffptr;
        outOffs := Wrap(outOffs + 1);
      }
      entry[inOffs] := e;
      inOffs := Wrap(inOffs + 1);
      if inOffs == outOffs {
        full := true;
      }
      assert View() == after;
      gone, contents := gone', contents';
    }

    /** The slot and in-slot offset of the byte at `charOffset`, or nothing. */
    ghost function Found(charOffset: nat): Option<(nat, nat)>
      reads this
    {
      match Locate(EntrySizes(contents), charOffset)
      case None => None
      case Some(p) => Some((Slot(p.cmd), p.offset))
    }

    /** The sizes in front of the `c`-th oldest entry, and the offset in that entry, add up to the
        position. */
    ghost predicate IsAt(charOffset: nat, slot: nat, offset: nat, c: nat)
      reads this, entry
    {
      && c < |contents| && slot == Slot(c) < entry.Length
      && offset < entry[slot].size
      && Sum(EntrySizes(contents)[..c]) + offset == charOffset
    }

    /** Nothing is found exactly at or past the total size; otherwise what is found is at the position. */
    lemma FoundIs(charOffset: nat)
      requires Valid()
      ensures Found(charOffset) == None <==> Sum(EntrySizes(contents)) <= charOffset
      ensures Found(charOffset).Some? ==>
                IsAt(charOffset, Found(charOffset).value.0, Found(charOffset).value.1,
                     Locate(EntrySizes(contents), charOffset).value.cmd)
    {
      hide Sum, Locate;
      SlotsOfContents();
      LocateSound(EntrySizes(contents), charOffset);
      match Locate(EntrySizes(contents), charOffset)
      case None =>
      case Some(_) =>
    }

    /** The search from the oldest entry on. */
    method FindEntryOffsetForFpos(charOffset: nat) returns (found: Option<(nat, nat)>)
      requires Valid()
      ensures found == Found(charOffset)
      ensures found == None <==> Sum(EntrySizes(contents)) <= charOffset
      ensures found.Some? ==> exists c :: IsAt(charOffset, found.value.0, found.value.1, c)
    {
      hide Locate, Shape, Scanning, IsAt;
      FoundIs(charOffset);
      var currentIndex: nat := outOffs;
      var currentOffset: nat := 0;
      var entryCount: nat := 0;
      ghost var sizes := EntrySizes(contents);
      SizeShape();
      ScanStarts(SizeView(), |gone|, sizes, charOffset);
      while entryCount < CAPACITY
        invariant entryCount < CAPACITY ==>
                    Scanning(SizeView(), sizes, charOffset, currentIndex, currentOffset, entryCount)
        invariant entryCount >= CAPACITY ==> Locate(sizes, charOffset) == None
      {
        ScanStep(SizeView(), |gone|, sizes, charOffset, currentIndex, currentOffset, entryCount);
        ScanSlotOf(charOffset, currentIndex, currentOffset, entryCount);
        if charOffset < currentOffset + entry[currentIndex].size {
          assert IsAt(charOffset, Found(charOffset).value.0, Found(charOffset).value.1, entryCount);
          return Some((currentIndex, charOffset - currentOffset));
        }
        currentOffset := currentOffset + entry[currentIndex].size;
        currentIndex := Wrap(currentIndex + 1);
        entryCount := entryCount + 1;
        if !full && currentIndex == inOffs {
          break;
        }
      }
      return None;
    }

    lemma ScanSlotOf(charOffset: nat, currentIndex: nat, currentOffset: nat, entryCount: nat)
      requires Scanning(SizeView(), EntrySizes(contents), charOffset, currentIndex, currentOffset, entryCount)
      ensures currentIndex == Slot(entryCount)
    {
    }

    ghost function SizeView(): Ring<nat>
      reads this, entry
    {
      Ring(EntrySizes(entry[..]), inOffs, outOffs, full)
    }

    /** Its sizes alone form a ring as well. */
    lemma SizeShape()
      requires Valid()
      ensures Shape(SizeView(), 0, |gone|, EntrySizes(contents))
    {
    }

    /** The sum over the physical slots is the sum over the entries held, whatever the rotation. */
    lemma PhysicalSum()
      requires Valid()
      ensures Sum(EntrySizes(entry[..])) == Sum(EntrySizes(contents))
    {
      SizeShape();
      Rings.PhysicalSum(SizeView(), |gone|, EntrySizes(contents));
    }
  }
}
