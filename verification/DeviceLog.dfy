/** The device as a reader of its documentation sees it: an ever-growing log of complete commands,
    of which only the last ten can be read, and an unfinished tail.  Each driver call is a function
    on this log; the class in CharDevice.dfy is proved to compute these functions. */
module DeviceLog {
  import opened Options
  import opened Framing
  import opened Positions

  const CAPACITY: nat := 10

  type Uint32 = n: int | 0 <= n < 0x1_0000_0000

  /** `committed` is every command ever completed, `partial` the bytes accepted after them. */
  datatype Log = Log(committed: seq<seq<Byte>>, partial: seq<Byte>)

  const EMPTY_LOG := Log([], [])

  function LastTen<T>(s: seq<T>): seq<T> {
    if |s| <= CAPACITY then s else s[|s| - CAPACITY..]
  }

  function AllButLastTen<T>(s: seq<T>): seq<T> {
    if |s| <= CAPACITY then [] else s[..|s| - CAPACITY]
  }

  /** A sliding window takes in `x`, letting go of its oldest element if it is full. */
  function Slide<T>(s: seq<T>, full: bool, x: T): seq<T>
    requires full ==> s != []
  {
    (if full then s[1..] else s) + [x]
  }

  lemma LastTenSlides<T>(s: seq<T>, x: T)
    ensures LastTen(s + [x]) == Slide(LastTen(s), |s| >= CAPACITY, x)
    ensures AllButLastTen(s + [x]) == if |s| < CAPACITY then [] else AllButLastTen(s) + [LastTen(s)[0]]
  {
  }

  /** What can be read, oldest first. */
  function Window(log: Log): seq<seq<Byte>> { LastTen(log.committed) }

  function Evicted(log: Log): seq<seq<Byte>> { AllButLastTen(log.committed) }

  function Contents(log: Log): seq<Byte> { Flat(Window(log)) }

  function WindowSizes(log: Log): seq<nat> { Sizes(Window(log)) }

  /** The environment's part in one write: whether `partial_write_buff` could be (re)allocated,
      how many bytes `copy_from_user` brought over before faulting, and how many command buffers
      could be allocated before an allocation failed.  A write returns on the first failure, so
      this covers every pattern of failures. */
  datatype WriteFate = WriteFate(bufferOk: bool, copied: nat, commandBuffers: nat)

  datatype Call =
    | Write(bytes: seq<Byte>, fate: WriteFate)
    | Read(count: nat, copyOk: bool)
    | Ioctl(cmd: Uint32, argOk: bool, writeCmd: Uint32, writeCmdOffset: Uint32)
    | Llseek(offset: int, whence: int)

  /** A call's return value, and the bytes a read delivered. */
  datatype Reply = Reply(ret: int, data: seq<Byte>)

  /** The log and the caller's file position after a call, and what the call returned. */
  datatype Outcome = Outcome(log: Log, fPos: nat, reply: Reply)

  // ----- aesd_write

  /** The written bytes passed `copy_from_user` and became part of the stream. */
  predicate Accepts(bytes: seq<Byte>, fate: WriteFate) {
    fate.bufferOk && |bytes| <= fate.copied
  }

  /** Move the first `n` lines of the partial buffer, or as many as it has, to the log. */
  function Commit(log: Log, n: nat): Log {
    var ls := Lines(log.partial);
    var k := Min(|ls|, n);
    Log(log.committed + ls[..k], Flat(ls[k..]) + Tail(log.partial))
  }

  function AfterWrite(log: Log, bytes: seq<Byte>, fate: WriteFate): Log {
    if Accepts(bytes, fate) then Commit(log.(partial := log.partial + bytes), fate.commandBuffers) else log
  }

  predicate WriteSucceeds(log: Log, bytes: seq<Byte>, fate: WriteFate) {
    Accepts(bytes, fate) && |Lines(log.partial + bytes)| <= fate.commandBuffers
  }

  function WriteOutcome(log: Log, fPos: nat, bytes: seq<Byte>, fate: WriteFate): Outcome {
    var log' := AfterWrite(log, bytes, fate);
    if WriteSucceeds(log, bytes, fate) then Outcome(log', fPos + |bytes|, Reply(|bytes|, []))
    else Outcome(log', fPos, Reply(-1, []))
  }

  // ----- aesd_read

  /** A read stays within the command its position falls in. */
  function ReadAt(lines: seq<seq<Byte>>, pos: nat, count: nat): seq<Byte> {
    match Locate(Sizes(lines), pos)
    case None => []
    case Some(p) =>
      LocateSound(Sizes(lines), pos);
      lines[p.cmd][p.offset..p.offset + Min(count, |lines[p.cmd]| - p.offset)]
  }

  lemma ReadAtPlace(lines: seq<seq<Byte>>, pos: nat, count: nat)
    ensures match Locate(Sizes(lines), pos)
            case None => ReadAt(lines, pos, count) == []
            case Some(p) =>
              && Stored(Sizes(lines), p)
              && ReadAt(lines, pos, count) == lines[p.cmd][p.offset..p.offset + Min(count, |lines[p.cmd]| - p.offset)]
  {
    LocateSound(Sizes(lines), pos);
  }

  function ReadOutcome(log: Log, fPos: nat, count: nat, copyOk: bool): Outcome {
    var data := ReadAt(Window(log), fPos, count);
    if Sum(WindowSizes(log)) <= fPos then Outcome(log, fPos, Reply(0, []))
    else if !copyOk then Outcome(log, fPos, Reply(-1, []))
    else Outcome(log, fPos + |data|, Reply(|data|, data))
  }

  // ----- aesd_ioctl

  /** `_IOWR(0x16, 1, struct aesd_seekto)`: direction 3, size 8, type 0x16, number 1. */
  const IOCSEEKTO: Uint32 := 0xC008_1601

  /** What the source tests before it moves the position. */
  predicate SeekAccepted(log: Log, cmd: Uint32, argOk: bool, p: Place) {
    cmd == IOCSEEKTO && argOk && Stored(WindowSizes(log), p)
  }

  function IoctlOutcome(log: Log, fPos: nat, cmd: Uint32, argOk: bool, p: Place): Outcome {
    if SeekAccepted(log, cmd, argOk, p) then Outcome(log, Position(WindowSizes(log), p), Reply(0, []))
    else Outcome(log, fPos, Reply(-1, []))
  }

  // ----- aesd_llseek

  const SEEK_SET: int := 0
  const SEEK_CUR: int := 1
  const SEEK_END: int := 2
  const EINVAL: int := 22

  /** The contract assumed of the kernel's `fixed_size_llseek`: the new position, or an error. */
  function FixedSizeLlseek(fPos: nat, offset: int, whence: int, size: nat): (ret: int) {
    if whence == SEEK_CUR && offset == 0 then fPos
    else
      var target := if whence == SEEK_END then size + offset
                    else if whence == SEEK_CUR then fPos + offset
                    else offset;
      if SEEK_SET <= whence <= SEEK_END && 0 <= target <= size then target else -EINVAL
  }

  function LlseekOutcome(log: Log, fPos: nat, offset: int, whence: int, size: nat): Outcome {
    var ret := FixedSizeLlseek(fPos, offset, whence, size);
    Outcome(log, if 0 <= ret then ret else fPos, Reply(ret, []))
  }

  // ----- one call

  function Apply(log: Log, fPos: nat, call: Call): Outcome {
    match call
    case Write(bytes, fate) => WriteOutcome(log, fPos, bytes, fate)
    case Read(count, copyOk) => ReadOutcome(log, fPos, count, copyOk)
    case Ioctl(cmd, argOk, wc, wo) => IoctlOutcome(log, fPos, cmd, argOk, Place(wc, wo))
    case Llseek(offset, whence) => LlseekOutcome(log, fPos, offset, whence, Sum(WindowSizes(log)))
  }

  // ----- what a write keeps

  /** Every accepted byte, in order: nothing lost, nothing duplicated. */
  function Stream(log: Log): seq<Byte> { Flat(log.committed) + log.partial }

  lemma CommitKeepsStream(log: Log, n: nat)
    requires AllLines(log.committed)
    ensures Stream(Commit(log, n)) == Stream(log)
    ensures AllLines(Commit(log, n).committed)
    ensures n >= |Lines(log.partial)| ==> NEWLINE !in Commit(log, n).partial
  {
    var ls := Lines(log.partial);
    var k := Min(|ls|, n);
    SplitConserves(log.partial);
    SplitAt(log.partial, k);
    Rejoin(log.committed, log.partial, [], ls[..k], Flat(ls[k..]) + Tail(log.partial));
    assert Stream(log) + [] == Stream(log);
    if k == |ls| {
      assert Flat([]) + Tail(log.partial) == Tail(log.partial);
    }
  }

  /** A newline is left in the tail exactly if there were fewer buffers than lines. */
  lemma CommitCleanIff(log: Log, n: nat)
    ensures NEWLINE !in Commit(log, n).partial <==> |Lines(log.partial)| <= n
  {
    var ls := Lines(log.partial);
    SplitConserves(log.partial);
    if n < |ls| {
      var rest := ls[n..];
      assert Flat(rest) == ls[n] + Flat(rest[1..]);
      assert IsLine(ls[n]);
      assert Commit(log, n).partial[|ls[n]| - 1] == NEWLINE;
    } else {
      assert ls[|ls|..] == [];
      assert Flat([]) + Tail(log.partial) == Tail(log.partial);
    }
  }

  /** A write adds exactly the bytes it accepted to the stream, whatever fails afterwards, and
      completes only proper lines; when it succeeds the tail holds no newline. */
  lemma WriteKeepsStream(log: Log, bytes: seq<Byte>, fate: WriteFate)
    requires AllLines(log.committed)
    ensures Stream(AfterWrite(log, bytes, fate)) == Stream(log) + (if Accepts(bytes, fate) then bytes else [])
    ensures AllLines(AfterWrite(log, bytes, fate).committed)
    ensures log.committed <= AfterWrite(log, bytes, fate).committed
    ensures WriteSucceeds(log, bytes, fate) ==> NEWLINE !in AfterWrite(log, bytes, fate).partial
  {
    if Accepts(bytes, fate) {
      var log1 := log.(partial := log.partial + bytes);
      CommitKeepsStream(log1, fate.commandBuffers);
      assert Stream(log1) == Stream(log) + bytes;
    } else {
      assert Stream(log) + [] == Stream(log);
    }
  }

  /** Committing the first line of the buffer is one turn of the framing loop. */
  lemma CommitStep(log: Log, n: nat)
    requires n > 0
    requires IndexOfNewline(log.partial) < |log.partial|
    ensures var k := IndexOfNewline(log.partial);
            Commit(log, n) == Commit(Log(log.committed + [log.partial[..k + 1]], log.partial[k + 1..]), n - 1)
  {
    var k := IndexOfNewline(log.partial);
    var rest := Lines(log.partial[k + 1..]);
    var ls := Lines(log.partial);
    assert ls == [log.partial[..k + 1]] + rest;
    var m := Min(|rest|, n - 1);
    assert ls[..m + 1] == [log.partial[..k + 1]] + rest[..m];
    assert ls[m + 1..] == rest[m..];
    assert log.committed + ls[..m + 1] == log.committed + [log.partial[..k + 1]] + rest[..m];
  }

  lemma LinesStep(s: seq<Byte>)
    ensures var k := IndexOfNewline(s);
            && k <= |s|
            && |Lines(s)| == if k == |s| then 0 else 1 + |Lines(s[k + 1..])|
  {
  }

  /** The framing loop stops when no newline is left or no command buffer can be had. */
  lemma CommitStop(log: Log, n: nat)
    requires n == 0 || IndexOfNewline(log.partial) == |log.partial|
    ensures Commit(log, n) == log
  {
    var ls := Lines(log.partial);
    SplitConserves(log.partial);
    assert ls[0..] == ls;
    assert Min(|ls|, n) == 0;
    assert log.committed + ls[..0] == log.committed;
  }

  /** Stream positions: the window's contents start after everything evicted. */
  lemma StreamSplit(log: Log)
    ensures Flat(log.committed) == Flat(Evicted(log)) + Contents(log)
    ensures Stream(log) == Flat(Evicted(log)) + Contents(log) + log.partial
  {
    assert log.committed == Evicted(log) + Window(log);
    FlatAppend(Evicted(log), Window(log));
  }

  /** A log whose tail holds no newline is its stream's lines and tail. */
  lemma CaughtUp(log: Log)
    requires AllLines(log.committed) && NEWLINE !in log.partial
    ensures log == Log(Lines(Stream(log)), Tail(Stream(log)))
    ensures Contents(log) == Flat(LastTen(Lines(Stream(log))))
  {
    SplitUnique(log.committed, log.partial);
  }

  // ----- what a read delivers

  /** A read delivers the contents from its position on: nothing exactly when it is asked for
      nothing or the position is at or past the end, and never more than asked for. */
  lemma ReadAtSlice(lines: seq<seq<Byte>>, pos: nat, count: nat)
    ensures var d := ReadAt(lines, pos, count);
            && |d| <= count
            && (d == [] <==> count == 0 || |Flat(lines)| <= pos)
            && (d != [] ==> pos + |d| <= |Flat(lines)| && d == Flat(lines)[pos..][..|d|])
  {
    hide Flat, Locate, ReadAt, Sum;
    FlatLength(lines);
    ReadAtPlace(lines, pos, count);
    LocateSound(Sizes(lines), pos);
    match Locate(Sizes(lines), pos)
    case None =>
    case Some(p) =>
      FlatSlice(lines, p, Min(count, |lines[p.cmd]| - p.offset));
  }
}
