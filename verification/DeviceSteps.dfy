/** The device's memory and the steps of a call are about the same slots: every method of the device
    leaves its memory exactly as the steps of the call, run without interruption, leave theirs. */
module DeviceSteps {
  import opened Options
  import opened Framing
  import opened Positions
  import opened DeviceLog
  import opened Rings
  import opened CircularBuffers
  import opened CharDevice
  import opened DeviceRuns
  import opened SlotState
  import opened CallSteps

  ghost function InSlot(e: Entry): Slot
    reads if e.buffptr == null then {} else {e.buffptr}
  {
    if e.buffptr == null then None else Some(e.buffptr[..Min(e.size, e.buffptr.Length)])
  }

  ghost function InSlots(es: seq<Entry>): (r: seq<Slot>)
    reads Buffers(es)
    ensures |r| == |es|
    ensures forall i :: 0 <= i < |es| ==> r[i] == InSlot(es[i])
  {
    seq(|es|, i requires 0 <= i < |es| reads Buffers(es) => InSlot(es[i]))
  }

  ghost function InPartial(p: array?<Byte>, n: nat): seq<Byte>
    reads if p == null then {} else {p}
  {
    if p == null then [] else p[..Min(n, p.Length)]
  }

  /** What the slots point at, the indices and the flag, and the stored bytes of the partial buffer. */
  ghost function Memory(dev: Device): Dev
    reads dev, dev.buff, dev.buff.entry, Buffers(dev.buff.entry[..])
    reads if dev.partialWriteBuff == null then {} else {dev.partialWriteBuff}
  {
    Dev(Ring(InSlots(dev.buff.entry[..]), dev.buff.inOffs, dev.buff.outOffs, dev.buff.full),
        InPartial(dev.partialWriteBuff, dev.bytesStored))
  }

  lemma InSlotIs(e: Entry, line: seq<Byte>)
    requires HoldsLine(e, line)
    ensures InSlot(e) == Some(line)
  {
    assert e.buffptr[..e.size] == line;
  }

  lemma PartialFacts(dev: Device)
    requires dev.Valid()
    ensures InPartial(dev.partialWriteBuff, dev.bytesStored) == dev.log.partial
  {
  }

  lemma RingFacts(dev: Device)
    requires dev.Valid()
    ensures dev.buff.Valid() && |Evicted(dev.log)| == |dev.buff.gone|
    ensures HoldLines(dev.buff.contents, Window(dev.log))
  {
  }

  lemma SlotsShape(r: Ring<Entry>, gone: nat, contents: seq<Entry>, lines: seq<seq<Byte>>)
    requires Shape(r, NO_ENTRY, gone, contents) && HoldLines(contents, lines)
    ensures Shape(Ring(InSlots(r.slots), r.inOffs, r.outOffs, r.full), None, gone, Somes(lines))
  {
    hide InSlot, HoldsLine;
    EmptySlot();
    forall c | 0 <= c < |lines|
      ensures InSlot(r.slots[Wrap(gone + c)]) == Somes(lines)[c]
    {
      assert HoldsLine(contents[c], lines[c]);
      InSlotIs(contents[c], lines[c]);
    }
  }

  lemma EmptySlot()
    ensures InSlot(NO_ENTRY) == None
  {
  }

  lemma MemoryRepresents(dev: Device)
    requires dev.Valid()
    ensures Represents(Memory(dev), dev.log)
  {
    RingFacts(dev);
    PartialFacts(dev);
    hide Device.Valid, InPartial, Evicted, Window, Shape, HoldLines, InSlots;
    SlotsShape(dev.buff.View(), |dev.buff.gone|, dev.buff.contents, Window(dev.log));
  }

  /** The log leaves no choice in what the memory holds. */
  lemma RepresentsUnique(d: Dev, d': Dev, log: Log)
    requires Represents(d, log) && Represents(d', log)
    ensures d == d'
  {
    hide Window, Evicted;
    var gone, contents := |Evicted(log)|, Somes(Window(log));
    forall i | 0 <= i < CAPACITY
      ensures d.ring.slots[i] == d'.ring.slots[i]
    {
      SlotHolds(d.ring, None, gone, contents, i);
      SlotHolds(d'.ring, None, gone, contents, i);
    }
  }

  /** The steps of a call from `step` on with nobody in between, to the end. */
  ghost function Alone(d: Dev, log: Log, fPos: nat, step: Step): (Dev, nat, Reply)
    requires Represents(d, log) && StepOk(d, log, fPos, step)
    decreases Work(d, step)
  {
    TurnKeepsFinish(d, log, fPos, step);
    TurnWorks(d, log, fPos, step);
    var p := Turn(d, fPos, step);
    match p
    case Go(d', _, next, _) => Alone(d', LogAfter(log, p), fPos, next)
    case Return(f, reply, _) => (d, f, reply)
  }

  lemma {:induction false} AloneFinishes(d: Dev, log: Log, fPos: nat, step: Step)
    requires Represents(d, log) && StepOk(d, log, fPos, step)
    ensures var r, o := Alone(d, log, fPos, step), Finish(log, fPos, step);
            Represents(r.0, o.log) && r.1 == o.fPos && r.2 == o.reply
    decreases Work(d, step)
  {
    hide Represents, StepOk, Finish, Turn, LogAfter, Work;
    TurnKeepsFinish(d, log, fPos, step);
    TurnWorks(d, log, fPos, step);
    var p := Turn(d, fPos, step);
    if p.Go? {
      AloneFinishes(p.dev, LogAfter(log, p), fPos, p.step);
    }
  }

  /** A call on the device does to its memory, its caller's position and its reply what the steps do. */
  method PerformIsSteps(dev: Device, filp: File, call: Call) returns (reply: Reply)
    requires dev.Valid() && !dev.buffLock.held && NeedsLock(call)
    modifies dev, dev.mem, dev.buff, dev.buff.entry, dev.partialWriteBuff, dev.buffLock, filp
    ensures dev.Valid() && !dev.buffLock.held
    ensures Represents(old(Memory(dev)), old(dev.log))
         && StepOk(old(Memory(dev)), old(dev.log), old(filp.fPos), FirstStep(call))
         && (Memory(dev), filp.fPos, reply)
            == Alone(old(Memory(dev)), old(dev.log), old(filp.fPos), FirstStep(call))
  {
    hide Device.Valid, Represents, StepOk, Alone, Apply, Finish;
    ghost var d, log, fPos, step := Memory(dev), dev.log, filp.fPos, FirstStep(call);
    MemoryRepresents(dev);
    FirstStepFinish(d, log, fPos, call);
    AloneFinishes(d, log, fPos, step);
    reply := Perform(dev, filp, call);
    MemoryRepresents(dev);
    RepresentsUnique(Memory(dev), Alone(d, log, fPos, step).0, dev.log);
  }
}
