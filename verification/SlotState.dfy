/** The device's memory as plain values: ten slots that hold a command or NULL, the two indices and the
    flag, and the bytes of the partial buffer. */
module SlotState {
  import opened Options
  import opened Framing
  import opened Positions
  import opened DeviceLog
  import opened Rings

  type Slot = Option<seq<Byte>>

  datatype Dev = Dev(ring: Ring<Slot>, partial: seq<Byte>)

  const EMPTY_DEV := Dev(Ring(seq(CAPACITY, _ => None), 0, 0, false), [])

  function SlotSize(s: Slot): nat {
    match s
    case None => 0
    case Some(line) => |line|
  }

  function SlotSizes(slots: seq<Slot>): (r: seq<nat>)
    ensures |r| == |slots|
  {
    seq(|slots|, i requires 0 <= i < |slots| => SlotSize(slots[i]))
  }

  function SizeRing(r: Ring<Slot>): Ring<nat> {
    Ring(SlotSizes(r.slots), r.inOffs, r.outOffs, r.full)
  }

  function Somes(ls: seq<seq<Byte>>): (r: seq<Slot>)
    ensures |r| == |ls|
  {
    seq(|ls|, i requires 0 <= i < |ls| => Some(ls[i]))
  }

  /** The slots hold the last ten commands of the log in ring order, and the partial buffer its tail. */
  ghost predicate Represents(d: Dev, log: Log) {
    && Shape(d.ring, None, |Evicted(log)|, Somes(Window(log)))
    && d.partial == log.partial
  }

  lemma EmptyRepresents()
    ensures Represents(EMPTY_DEV, EMPTY_LOG)
  {
  }

  lemma SizeRingShape(d: Dev, log: Log)
    requires Represents(d, log)
    ensures Shape(SizeRing(d.ring), 0, |Evicted(log)|, WindowSizes(log))
  {
    var gone, ws := |Evicted(log)|, Window(log);
    forall c | 0 <= c < |ws|
      ensures SizeRing(d.ring).slots[Wrap(gone + c)] == WindowSizes(log)[c]
    {
      assert d.ring.slots[Wrap(gone + c)] == Somes(ws)[c];
    }
  }

  /** Adding a command to the ring and taking it off the front of the partial buffer completes it in the
      log. */
  lemma CommitRepresents(d: Dev, log: Log, line: seq<Byte>, rest: seq<Byte>)
    requires Represents(d, log)
    ensures d.ring.inOffs < |d.ring.slots|
    ensures Represents(Dev(Add(d.ring, Some(line)), rest), Log(log.committed + [line], rest))
  {
    hide Shape, Window, Evicted;
    RingAndLog(d, log);
    ShapeFacts(d.ring, None, |Evicted(log)|, Somes(Window(log)));
    ShapeAdd(d.ring, None, |Evicted(log)|, Somes(Window(log)), Some(line));
    WindowNext(log, line, rest);
    var full, ws := d.ring.full, Window(log);
    assert Somes(Slide(ws, full, line)) == Slide(Somes(ws), full, Some(line));
  }

  lemma RingAndLog(d: Dev, log: Log)
    requires Represents(d, log)
    ensures d.ring.full <==> |log.committed| >= CAPACITY
  {
  }

  lemma WindowNext(log: Log, line: seq<Byte>, rest: seq<Byte>)
    ensures var full, log' := |log.committed| >= CAPACITY, Log(log.committed + [line], rest);
            && (full ==> Window(log) != [])
            && Window(log') == Slide(Window(log), full, line)
            && |Evicted(log')| == if full then |Evicted(log)| + 1 else 0
  {
    LastTenSlides(log.committed, line);
  }

  /** The slot of the `c`-th oldest command. */
  lemma CommandAt(d: Dev, log: Log, c: nat)
    requires Represents(d, log) && c < |Window(log)|
    ensures |d.ring.slots| == CAPACITY && d.ring.slots[Wrap(d.ring.outOffs + c)] == Some(Window(log)[c])
  {
    EntryAt(d.ring, None, |Evicted(log)|, Somes(Window(log)), c);
  }

  /** The slots that are not NULL are the first ones, as many as there are commands. */
  lemma SlotInUse(d: Dev, log: Log, i: nat)
    requires Represents(d, log) && i < CAPACITY
    ensures |d.ring.slots| == CAPACITY && (d.ring.slots[i].Some? <==> i < |Window(log)|)
  {
    SlotHolds(d.ring, None, |Evicted(log)|, Somes(Window(log)), i);
  }

  lemma WindowFits(d: Dev, log: Log)
    requires Represents(d, log)
    ensures |Window(log)| <= CAPACITY == |d.ring.slots| && d.ring.outOffs < CAPACITY
  {
  }
}
