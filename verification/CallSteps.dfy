/** One call of the driver as a sequence of steps on the ring's slots, with the lock: what each step
    does, and that the steps of a call add up to the call. */
module CallSteps {
  import opened Options
  import opened Framing
  import opened Positions
  import opened DeviceLog
  import opened Rings
  import opened SlotState

  /** Where a call is inside the lock, and what it remembers; only the last step is after it.
      A write grows its buffer, copies, and cuts off lines; a read starts its search, looks at slot after
      slot, and copies out; an ioctl counts the slots in use and adds up sizes from the oldest on; an
      llseek adds up all slots and, the lock given back, moves the position. */
  datatype Step =
    | Growing(bytes: seq<Byte>, fate: WriteFate)
    | Copying(bytes: seq<Byte>, fate: WriteFate)
    | Cutting(written: nat, commandBuffers: nat)
    | Opening(want: nat, copyOk: bool)
    | Searching(index: nat, offset: nat, count: nat, want: nat, copyOk: bool)
    | CopyingOut(index: nat, offset: nat, want: nat, copyOk: bool)
    | Counting(target: Place, i: nat, entries: nat)
    | Adding(target: Place, index: nat, i: nat, sum: nat)
    | Totalling(move: int, whence: int, i: nat, sum: nat)
    | Seeking(move: int, whence: int, total: nat)

  /** An ioctl for another command, or whose argument cannot be read, returns without the lock. */
  predicate NeedsLock(call: Call) {
    call.Ioctl? ==> call.cmd == IOCSEEKTO && call.argOk
  }

  /** The first step inside the lock. */
  function FirstStep(call: Call): Step {
    match call
    case Write(bytes, fate) => Growing(bytes, fate)
    case Read(count, copyOk) => Opening(count, copyOk)
    case Ioctl(cmd, argOk, wc, wo) => Counting(Place(wc, wo), 0, 0)
    case Llseek(move, whence) => Totalling(move, whence, 0, 0)
  }

  /** What one step does: go on, having completed the commands `stored` (none or one), or return with a
      new position and a reply; and whether it gives the lock back. */
  datatype Progress =
    | Go(dev: Dev, stored: seq<seq<Byte>>, step: Step, unlock: bool)
    | Return(fPos: nat, reply: Reply, unlock: bool)

  /** `mutex_unlock` and `return -1`. */
  function Fail(fPos: nat): Progress { Return(fPos, Reply(-1, []), true) }

  // The accessors below are total for the sake of the step function only: every step keeps its index
  // in range and its offset within its slot (`StepOk`).

  function SizeAt(r: Ring<Slot>, i: nat): nat {
    if i < |r.slots| then SlotSize(r.slots[i]) else 0
  }

  function DataAt(r: Ring<Slot>, i: nat): seq<Byte> {
    if i < |r.slots| && r.slots[i].Some? then r.slots[i].value else []
  }

  function Part(data: seq<Byte>, offset: nat, want: nat): seq<Byte> {
    if offset <= |data| then data[offset..offset + Min(want, |data| - offset)] else []
  }

  function AddTo(r: Ring<Slot>, line: seq<Byte>): Ring<Slot> {
    if r.inOffs < |r.slots| then Add(r, Some(line)) else r
  }

  /** One step of a call on device `d`, the caller's position being `fPos`. */
  function Turn(d: Dev, fPos: nat, step: Step): Progress {
    match step
    case Growing(bytes, fate) =>
      if fate.bufferOk then Go(d, [], Copying(bytes, fate), false) else Fail(fPos)
    case Copying(bytes, fate) =>
      if |bytes| <= fate.copied
      then Go(d.(partial := d.partial + bytes), [], Cutting(|bytes|, fate.commandBuffers), false)
      else Fail(fPos)
    case Cutting(written, commandBuffers) =>
      var k := IndexOfNewline(d.partial);
      if k == |d.partial| then Return(fPos + written, Reply(written, []), true)
      else if commandBuffers == 0 then Fail(fPos)
      else
        var line, rest := d.partial[..k + 1], d.partial[k + 1..];
        Go(Dev(AddTo(d.ring, line), rest), [line], Cutting(written, commandBuffers - 1), false)
    case Opening(want, copyOk) =>
      Go(d, [], Searching(d.ring.outOffs, 0, 0, want, copyOk), false)
    case Searching(index, offset, count, want, copyOk) =>
      var size := SizeAt(d.ring, index);
      if fPos < offset + size then Go(d, [], CopyingOut(index, Max(0, fPos - offset), want, copyOk), false)
      else if ScanEnds(d.ring, index, count) then Return(fPos, Reply(0, []), true)
      else Go(d, [], Searching(Wrap(index + 1), offset + size, count + 1, want, copyOk), false)
    case CopyingOut(index, offset, want, copyOk) =>
      if !copyOk then Fail(fPos)
      else
        var data := Part(DataAt(d.ring, index), offset, want);
        Return(fPos + |data|, Reply(|data|, data), true)
    case Counting(target, i, entries) =>
      if i < CAPACITY then
        var one := if i < |d.ring.slots| && d.ring.slots[i].Some? then 1 else 0;
        Go(d, [], Counting(target, i + 1, entries + one), false)
      else if target.cmd >= entries then Fail(fPos)
      else if target.offset >= SizeAt(d.ring, Wrap(d.ring.outOffs + target.cmd)) then Fail(fPos)
      else Go(d, [], Adding(target, d.ring.outOffs, 0, 0), false)
    case Adding(target, index, i, sum) =>
      if i < target.cmd then Go(d, [], Adding(target, Wrap(index + 1), i + 1, sum + SizeAt(d.ring, index)), false)
      else Return(sum + target.offset, Reply(0, []), true)
    case Totalling(move, whence, i, sum) =>
      if i < CAPACITY then Go(d, [], Totalling(move, whence, i + 1, sum + SizeAt(d.ring, i)), false)
      else Go(d, [], Seeking(move, whence, sum), true)
    case Seeking(move, whence, total) =>
      var ret := FixedSizeLlseek(fPos, move, whence, total);
      Return(if 0 <= ret then ret else fPos, Reply(ret, []), false)
  }

  /** The log follows the device; no step looks at it. */
  function LogAfter(log: Log, p: Progress): Log {
    if p.Go? then Log(log.committed + p.stored, p.dev.partial) else log
  }

  /** What the steps done so far have established. */
  predicate StepOk(d: Dev, log: Log, fPos: nat, step: Step) {
    var sizes := WindowSizes(log);
    match step
    case Searching(index, offset, count, _, _) => Scanning(SizeRing(d.ring), sizes, fPos, index, offset, count)
    case CopyingOut(index, offset, _, _) =>
      var at := Locate(sizes, fPos);
      at.Some? && index == Wrap(d.ring.outOffs + at.value.cmd) && offset == at.value.offset
    case Counting(target, i, entries) => i <= CAPACITY && entries == Min(i, |sizes|)
    case Adding(target, index, i, sum) =>
      Stored(sizes, target) && i <= target.cmd && index == Wrap(d.ring.outOffs + i) && sum == Sum(sizes[..i])
    case Totalling(_, _, i, sum) =>
      i <= CAPACITY == |d.ring.slots| && sum == Sum(SlotSizes(d.ring.slots)[..i])
    case _ => true
  }

  /** What the remaining steps will do, if nobody interferes. */
  function Finish(log: Log, fPos: nat, step: Step): Outcome {
    match step
    case Growing(bytes, fate) => WriteOutcome(log, fPos, bytes, fate)
    case Copying(bytes, fate) => WriteOutcome(log, fPos, bytes, fate.(bufferOk := true))
    case Cutting(written, n) =>
      if |Lines(log.partial)| <= n then Outcome(Commit(log, n), fPos + written, Reply(written, []))
      else Outcome(Commit(log, n), fPos, Reply(-1, []))
    case Opening(want, copyOk) => ReadOutcome(log, fPos, want, copyOk)
    case Searching(_, _, _, want, copyOk) => ReadOutcome(log, fPos, want, copyOk)
    case CopyingOut(_, _, want, copyOk) => ReadOutcome(log, fPos, want, copyOk)
    case Counting(target, _, _) => IoctlOutcome(log, fPos, IOCSEEKTO, true, target)
    case Adding(target, _, _, _) => IoctlOutcome(log, fPos, IOCSEEKTO, true, target)
    case Totalling(move, whence, _, _) => LlseekOutcome(log, fPos, move, whence, Sum(WindowSizes(log)))
    case Seeking(move, whence, total) => LlseekOutcome(log, fPos, move, whence, total)
  }

  /** A step keeps the slots in step with the log, keeps what the call will do in the end and what
      earlier steps established; a step that returns does what was left to do; and the lock is given
      back by exactly the steps that return, or, in an llseek, by the one before. */
  ghost predicate TurnOk(d: Dev, log: Log, fPos: nat, step: Step) {
    var p := Turn(d, fPos, step);
    match p
    case Go(d', _, next, unlock) =>
      && Represents(d', LogAfter(log, p))
      && StepOk(d', LogAfter(log, p), fPos, next)
      && Finish(LogAfter(log, p), fPos, next) == Finish(log, fPos, step)
      && !step.Seeking? && (unlock <==> next.Seeking?)
      && (next.Seeking? ==> LogAfter(log, p) == log)
    case Return(f, reply, unlock) =>
      Finish(log, fPos, step) == Outcome(log, f, reply) && (unlock <==> !step.Seeking?)
  }

  lemma LogKept(d: Dev, log: Log, step: Step)
    requires Represents(d, log)
    ensures LogAfter(log, Go(d, [], step, false)) == log && LogAfter(log, Go(d, [], step, true)) == log
  {
  }

  lemma WritingTurn(d: Dev, log: Log, fPos: nat, step: Step)
    requires Represents(d, log) && (step.Growing? || step.Copying?)
    ensures TurnOk(d, log, fPos, step)
  {
    hide Shape;
    LogKept(d, log, step);
  }

  lemma CuttingTurn(d: Dev, log: Log, fPos: nat, step: Step)
    requires Represents(d, log) && step.Cutting?
    ensures TurnOk(d, log, fPos, step)
  {
    hide Shape, Lines, IndexOfNewline, Commit, LastTen;
    PartialIs(d, log);
    LinesStep(log.partial);
    var k := IndexOfNewline(log.partial);
    if k == |log.partial| || step.commandBuffers == 0 {
      CommitStop(log, step.commandBuffers);
    } else {
      CommitStep(log, step.commandBuffers);
      CommitRepresents(d, log, log.partial[..k + 1], log.partial[k + 1..]);
    }
  }

  lemma PartialIs(d: Dev, log: Log)
    requires Represents(d, log)
    ensures d.partial == log.partial
  {
  }

  lemma SearchingTurn(d: Dev, log: Log, fPos: nat, step: Step)
    requires Represents(d, log) && (step.Opening? || step.Searching?) && StepOk(d, log, fPos, step)
    ensures TurnOk(d, log, fPos, step)
  {
    hide Shape, Represents, Scanning, Locate, ScanEnds;
    LogKept(d, log, step);
    SizeRingShape(d, log);
    var r, gone, sizes := SizeRing(d.ring), |Evicted(log)|, WindowSizes(log);
    LocateSound(sizes, fPos);
    match step
    case Opening(_, _) =>
      ScanStarts(r, gone, sizes, fPos);
    case Searching(index, offset, count, _, _) =>
      ScanStep(r, gone, sizes, fPos, index, offset, count);
      SameEnd(d.ring, index, count);
      ScanIndex(r, sizes, fPos, index, offset, count);
  }

  lemma SameEnd(r: Ring<Slot>, index: nat, count: nat)
    ensures ScanEnds(r, index, count) == ScanEnds(SizeRing(r), index, count)
    ensures index < |r.slots| ==> SizeAt(r, index) == SizeRing(r).slots[index]
  {
  }

  lemma ScanIndex(r: Ring<nat>, sizes: seq<nat>, pos: nat, index: nat, offset: nat, count: nat)
    requires Scanning(r, sizes, pos, index, offset, count)
    ensures index == Wrap(r.outOffs + count) && offset <= pos
  {
  }

  lemma CopyingOutTurn(d: Dev, log: Log, fPos: nat, step: Step)
    requires Represents(d, log) && step.CopyingOut? && StepOk(d, log, fPos, step)
    ensures TurnOk(d, log, fPos, step)
  {
    hide Represents, Locate, ReadAt, Sum;
    var at := Locate(WindowSizes(log), fPos).value;
    LocateSound(WindowSizes(log), fPos);
    ReadAtPlace(Window(log), fPos, step.want);
    CommandAt(d, log, at.cmd);
  }

  lemma CountingTurn(d: Dev, log: Log, fPos: nat, step: Step)
    requires Represents(d, log) && step.Counting? && StepOk(d, log, fPos, step)
    ensures TurnOk(d, log, fPos, step)
  {
    hide Represents, Sum;
    LogKept(d, log, step);
    WindowFits(d, log);
    if step.i < CAPACITY {
      SlotInUse(d, log, step.i);
    } else if step.target.cmd < step.entries {
      CommandAt(d, log, step.target.cmd);
      SumNone(WindowSizes(log));
    }
  }

  lemma SumNone(sizes: seq<nat>)
    ensures Sum(sizes[..0]) == 0
  {
  }

  lemma AddingTurn(d: Dev, log: Log, fPos: nat, step: Step)
    requires Represents(d, log) && step.Adding? && StepOk(d, log, fPos, step)
    ensures TurnOk(d, log, fPos, step)
  {
    hide Represents, Sum;
    LogKept(d, log, step);
    if step.i < step.target.cmd {
      CommandAt(d, log, step.i);
      WrapAdd(d.ring.outOffs + step.i, 1);
      SumNext(WindowSizes(log), step.i);
    }
  }

  lemma TotallingTurn(d: Dev, log: Log, fPos: nat, step: Step)
    requires Represents(d, log) && step.Totalling? && StepOk(d, log, fPos, step)
    ensures TurnOk(d, log, fPos, step)
  {
    hide Represents, Shape, Sum;
    LogKept(d, log, step);
    var phys := SlotSizes(d.ring.slots);
    if step.i < CAPACITY {
      SumNext(phys, step.i);
    } else {
      assert phys[..step.i] == phys;
      SizeRingShape(d, log);
      PhysicalSum(SizeRing(d.ring), |Evicted(log)|, WindowSizes(log));
    }
  }

  /** The steps of a call add up to the call. */
  lemma TurnKeepsFinish(d: Dev, log: Log, fPos: nat, step: Step)
    requires Represents(d, log) && StepOk(d, log, fPos, step)
    ensures TurnOk(d, log, fPos, step)
  {
    hide TurnOk, Represents, StepOk;
    match step
    case Growing(_, _) => WritingTurn(d, log, fPos, step);
    case Copying(_, _) => WritingTurn(d, log, fPos, step);
    case Cutting(_, _) => CuttingTurn(d, log, fPos, step);
    case Opening(_, _) => SearchingTurn(d, log, fPos, step);
    case Searching(_, _, _, _, _) => SearchingTurn(d, log, fPos, step);
    case CopyingOut(_, _, _, _) => CopyingOutTurn(d, log, fPos, step);
    case Counting(_, _, _) => CountingTurn(d, log, fPos, step);
    case Adding(_, _, _, _) => AddingTurn(d, log, fPos, step);
    case Totalling(_, _, _, _) => TotallingTurn(d, log, fPos, step);
    case Seeking(_, _, _) => SeekingTurn(d, log, fPos, step);
  }

  lemma SeekingTurn(d: Dev, log: Log, fPos: nat, step: Step)
    requires step.Seeking?
    ensures TurnOk(d, log, fPos, step)
  {
  }

  lemma FirstStepFinish(d: Dev, log: Log, fPos: nat, call: Call)
    requires Represents(d, log) && NeedsLock(call)
    ensures StepOk(d, log, fPos, FirstStep(call)) && !FirstStep(call).Seeking?
    ensures Finish(log, fPos, FirstStep(call)) == Apply(log, fPos, call)
  {
    WindowFits(d, log);
    SumNone(SlotSizes(d.ring.slots));
  }

  /** A bound on the steps a running call has left. */
  function Work(d: Dev, step: Step): nat {
    match step
    case Growing(bytes, _) => |d.partial| + |bytes| + 3
    case Copying(bytes, _) => |d.partial| + |bytes| + 2
    case Cutting(_, _) => |d.partial| + 1
    case Opening(_, _) => CAPACITY + 3
    case Searching(_, _, count, _, _) => Max(0, CAPACITY - count) + 2
    case CopyingOut(_, _, _, _) => 1
    case Counting(target, i, _) => Max(0, CAPACITY - i) + target.cmd + 2
    case Adding(target, _, i, _) => Max(0, target.cmd - i) + 1
    case Totalling(_, _, i, _) => Max(0, CAPACITY - i) + 2
    case Seeking(_, _, _) => 1
  }

  lemma TurnWorks(d: Dev, log: Log, fPos: nat, step: Step)
    requires StepOk(d, log, fPos, step)
    ensures match Turn(d, fPos, step)
            case Go(d', _, next, _) => Work(d', next) < Work(d, step)
            case Return(_, _, _) => true
  {
  }
}
