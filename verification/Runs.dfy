/** What holds after every run of calls on the device, whatever fails in between. */
module Runs {
  import opened Options
  import opened Framing
  import opened Positions
  import opened DeviceLog

  /** The log after a run of calls on a freshly loaded device.  Only writes change it, so it does
      not matter which file a call was made on. */
  function RunLog(calls: seq<Call>): Log {
    if calls == [] then EMPTY_LOG
    else
      var log := RunLog(calls[..|calls| - 1]);
      match calls[|calls| - 1]
      case Write(bytes, fate) => AfterWrite(log, bytes, fate)
      case _ => log
  }

  /** The bytes that passed `copy_from_user` in a run, in order. */
  function AcceptedBytes(calls: seq<Call>): seq<Byte> {
    if calls == [] then []
    else
      AcceptedBytes(calls[..|calls| - 1]) +
      match calls[|calls| - 1]
      case Write(bytes, fate) => if Accepts(bytes, fate) then bytes else []
      case _ => []
  }

  /** Run and single-call specification agree on the log. */
  lemma RunLogApplies(calls: seq<Call>, call: Call, fPos: nat)
    ensures RunLog(calls + [call]) == Apply(RunLog(calls), fPos, call).log
  {
    assert (calls + [call])[..|calls|] == calls;
  }

  // ----- conservation

  /** Evicted commands, then the readable ones, then the tail: together exactly the accepted bytes. */
  lemma {:induction false} RunConserves(calls: seq<Call>)
    ensures var log := RunLog(calls);
            Flat(Evicted(log)) + Contents(log) + log.partial == AcceptedBytes(calls)
    ensures AllLines(RunLog(calls).committed)
  {
    var log := RunLog(calls);
    if calls != [] {
      var before := calls[..|calls| - 1];
      RunConserves(before);
      StreamSplit(RunLog(before));
      match calls[|calls| - 1]
      case Write(bytes, fate) => WriteKeepsStream(RunLog(before), bytes, fate);
      case _ =>
    }
    StreamSplit(log);
  }

  /** Splitting the readable bytes recovers the stored commands one for one, in every reachable
      state, including after a write that failed half-way. */
  lemma ContentsRoundTrip(calls: seq<Call>)
    ensures Lines(Contents(RunLog(calls))) == Window(RunLog(calls))
    ensures Tail(Contents(RunLog(calls))) == []
  {
    RunConserves(calls);
    var ls := Window(RunLog(calls));
    SplitUnique(ls, []);
    assert Flat(ls) + [] == Flat(ls);
  }

  // ----- independence of chunking and failures

  /** The log is always the front of the accepted bytes' lines; it has caught up with all of them
      exactly when the tail holds no newline. */
  lemma RunIsPrefix(calls: seq<Call>)
    ensures var log, all := RunLog(calls), AcceptedBytes(calls);
            && Lines(all) == log.committed + Lines(log.partial)
            && Tail(all) == Tail(log.partial)
            && (log == Log(Lines(all), Tail(all)) <==> NEWLINE !in log.partial)
  {
    var log, all := RunLog(calls), AcceptedBytes(calls);
    RunConserves(calls);
    StreamSplit(log);
    SplitPrefix(log.committed, log.partial);
    SplitConserves(log.partial);
    if NEWLINE !in log.partial {
      SplitUnique([], log.partial);
      assert Flat([]) + log.partial == log.partial;
    }
  }

  /** The last write whose bytes were accepted had a buffer for every line it completed, or no bytes
      were ever accepted.  Reads, seeks, and writes that failed before accepting anything may follow. */
  predicate LastAcceptedSucceeded(calls: seq<Call>) {
    if calls == [] then true
    else
      var before := calls[..|calls| - 1];
      match calls[|calls| - 1]
      case Write(bytes, fate) =>
        if Accepts(bytes, fate) then WriteSucceeds(RunLog(before), bytes, fate) else LastAcceptedSucceeded(before)
      case _ => LastAcceptedSucceeded(before)
  }

  /** The tail is newline-free exactly if the last write that accepted bytes succeeded. */
  lemma {:induction false} TailCleanIff(calls: seq<Call>)
    ensures NEWLINE !in RunLog(calls).partial <==> LastAcceptedSucceeded(calls)
  {
    if calls != [] {
      var before := calls[..|calls| - 1];
      TailCleanIff(before);
      match calls[|calls| - 1]
      case Write(bytes, fate) =>
        var log := RunLog(before);
        CommitCleanIff(log.(partial := log.partial + bytes), fate.commandBuffers);
      case _ =>
    }
  }

  /** The device is what its input says, the last ten lines of the accepted bytes and their
      newline-free tail, exactly if the last write that accepted bytes succeeded. */
  lemma CaughtUpIff(calls: seq<Call>)
    ensures var all := AcceptedBytes(calls);
            RunLog(calls) == Log(Lines(all), Tail(all)) <==> LastAcceptedSucceeded(calls)
    ensures LastAcceptedSucceeded(calls) ==>
              Contents(RunLog(calls)) == Flat(LastTen(Lines(AcceptedBytes(calls))))
  {
    RunIsPrefix(calls);
    TailCleanIff(calls);
  }

  /** However the bytes were cut into writes, and whichever earlier calls failed, the same accepted
      bytes leave the same commands and the same tail. */
  lemma ChunkingAndFailureIndependence(a: seq<Call>, b: seq<Call>)
    requires LastAcceptedSucceeded(a) && LastAcceptedSucceeded(b)
    requires AcceptedBytes(a) == AcceptedBytes(b)
    ensures RunLog(a) == RunLog(b)
    ensures Window(RunLog(a)) == Window(RunLog(b))
    ensures NEWLINE !in RunLog(a).partial
  {
    CaughtUpIff(a);
    CaughtUpIff(b);
    TailCleanIff(a);
  }

  /** A run that accepted the same bytes as one that has caught up differs from it exactly if its own
      last accepted write failed. */
  lemma IndependenceIff(a: seq<Call>, b: seq<Call>)
    requires LastAcceptedSucceeded(a)
    requires AcceptedBytes(a) == AcceptedBytes(b)
    ensures RunLog(a) == RunLog(b) <==> LastAcceptedSucceeded(b)
  {
    CaughtUpIff(a);
    CaughtUpIff(b);
  }

  /** Whatever failed, and in both runs: the same accepted bytes give logs that differ in nothing but
      how many of the bytes' lines are completed yet. */
  lemma SameBytesDifferInCount(a: seq<Call>, b: seq<Call>)
    requires AcceptedBytes(a) == AcceptedBytes(b)
    ensures var la, lb := RunLog(a), RunLog(b);
            && (|la.committed| <= |lb.committed| ==> la.committed <= lb.committed)
            && (la == lb <==> |la.committed| == |lb.committed|)
  {
    hide RunLog, AcceptedBytes, Lines, Tail, Flat;
    CommittedFront(a);
    CommittedFront(b);
    var la, lb := RunLog(a), RunLog(b);
    if la.committed == lb.committed {
      var front := Flat(la.committed);
      assert (front + la.partial)[|front|..] == la.partial && (front + lb.partial)[|front|..] == lb.partial;
    }
  }

  lemma CommittedFront(calls: seq<Call>)
    ensures var log, all := RunLog(calls), AcceptedBytes(calls);
            log.committed <= Lines(all) && Flat(log.committed) + log.partial == all
  {
    RunConserves(calls);
    RunIsPrefix(calls);
    StreamSplit(RunLog(calls));
  }

  /** When the last accepted write failed the promise fails: the same byte, accepted once with and once
      without a command buffer to be had, leaves different commands. */
  lemma FailedWriteBreaksIndependence()
    ensures var a, b := [Write([NEWLINE], WriteFate(true, 1, 1))], [Write([NEWLINE], WriteFate(true, 1, 0))];
            && AcceptedBytes(a) == AcceptedBytes(b)
            && LastAcceptedSucceeded(a) && !LastAcceptedSucceeded(b)
            && Window(RunLog(a)) == [[NEWLINE]] && Window(RunLog(b)) == []
            && RunLog(b).partial == [NEWLINE]
  {
    OneLineRun([NEWLINE]);
    NoBufferRun([NEWLINE]);
    OneWrite([NEWLINE], 0);
    OneWrite([NEWLINE], 1);
  }

  /** One write of one line to a fresh device, with no command buffer to be had. */
  lemma NoBufferRun(line: seq<Byte>)
    requires IsLine(line)
    ensures RunLog([Write(line, WriteFate(true, |line|, 0))]) == Log([], line)
    ensures Lines(line) == [line]
  {
    hide Commit, Lines;
    var calls := [Write(line, WriteFate(true, |line|, 0))];
    assert calls[..0] == [] && EMPTY_LOG.partial + line == line;
    CommitStop(Log([], line), 0);
    FlatOne(line);
    SplitUnique([line], []);
    assert Flat([line]) + [] == line;
  }

  /** What such a run accepts, and whether its last write succeeded. */
  lemma OneWrite(line: seq<Byte>, buffers: nat)
    requires IsLine(line)
    ensures var calls := [Write(line, WriteFate(true, |line|, buffers))];
            AcceptedBytes(calls) == line && (LastAcceptedSucceeded(calls) <==> buffers > 0)
  {
    hide Lines;
    var calls := [Write(line, WriteFate(true, |line|, buffers))];
    assert calls[..0] == [] && EMPTY_LOG.partial + line == line;
    NoBufferRun(line);
  }

  /** A successful write of one line to a device that has caught up completes exactly one command,
      the old tail in front of it, and slides the window by one. */
  lemma LineWriteSlides(log: Log, packet: seq<Byte>, fate: WriteFate)
    requires AllLines(log.committed) && NEWLINE !in log.partial && IsLine(packet)
    requires WriteSucceeds(log, packet, fate)
    ensures AfterWrite(log, packet, fate) == Log(log.committed + [log.partial + packet], [])
    ensures Window(AfterWrite(log, packet, fate))
         == Slide(Window(log), |log.committed| >= CAPACITY, log.partial + packet)
  {
    var line := log.partial + packet;
    assert IsLine(line);
    FlatOne(line);
    SplitUnique([line], []);
    assert Flat([line]) + [] == line;
    assert Lines(line)[..1] == [line] && Lines(line)[1..] == [];
    LastTenSlides(log.committed, line);
  }

  // ----- a reader among writers

  /** What happens on the device while one file is being read. */
  datatype Event = Others(call: Call) | MyRead(count: nat, copyOk: bool)

  /** What one read delivered: the bytes, where they are in the stream of all commands ever completed,
      and how many bytes of that stream had been evicted by then. */
  datatype Piece = Piece(at: nat, evicted: nat, bytes: seq<Byte>)

  datatype Reader = Reader(log: Log, fPos: nat, pieces: seq<Piece>)

  /** All a reader got, in order. */
  function Got(pieces: seq<Piece>): seq<Byte> {
    if pieces == [] then [] else Got(pieces[..|pieces| - 1]) + pieces[|pieces| - 1].bytes
  }

  function EvictedBytes(log: Log): nat { |Flat(Evicted(log))| }

  function Observe(r: Reader, e: Event): Reader {
    match e
    case Others(call) => r.(log := Apply(r.log, 0, call).log)
    case MyRead(count, copyOk) =>
      var o := ReadOutcome(r.log, r.fPos, count, copyOk);
      var piece := Piece(StreamPosition(r.log, r.fPos), EvictedBytes(r.log), o.reply.data);
      Reader(o.log, o.fPos, if o.reply.data == [] then r.pieces else r.pieces + [piece])
  }

  function ObserveAll(r: Reader, es: seq<Event>): Reader {
    if es == [] then r else Observe(ObserveAll(r, es[..|es| - 1]), es[|es| - 1])
  }

  /** Where in the stream of all commands ever completed a file position points. */
  function StreamPosition(log: Log, fPos: nat): nat { EvictedBytes(log) + fPos }

  /** Every read delivers the stream of completed commands from its stream position on. */
  lemma ReadFollowsStream(log: Log, fPos: nat, count: nat, copyOk: bool)
    ensures var o := ReadOutcome(log, fPos, count, copyOk);
            var at := StreamPosition(log, fPos);
            && o.fPos == fPos + |o.reply.data|
            && (o.reply.ret > 0 ==> |o.reply.data| == o.reply.ret)
            && (o.reply.data != [] ==>
                  at + |o.reply.data| <= |Flat(log.committed)|
                  && o.reply.data == Flat(log.committed)[at..][..|o.reply.data|])
  {
    hide ReadAt, Flat, Sum, Evicted, Window;
    ReadAtSlice(Window(log), fPos, count);
    StreamSplit(log);
    FlatLength(Window(log));
    var o, before, c := ReadOutcome(log, fPos, count, copyOk), Flat(Evicted(log)), Contents(log);
    if o.reply.data != [] {
      assert (before + c)[|before| + fPos..][..|o.reply.data|] == c[fPos..][..|o.reply.data|];
    }
  }

  lemma EvictedGrows(log: Log, call: Call)
    ensures log.committed <= Apply(log, 0, call).log.committed
    ensures Evicted(log) <= Evicted(Apply(log, 0, call).log)
  {
  }

  lemma SliceGrows(c: seq<Byte>, a: nat, b: nat, d: seq<Byte>)
    requires a <= b && b + |d| <= |c|
    requires d == c[b..][..|d|]
    ensures c[a..b] + d == c[a..b + |d|]
  {
  }

  /** A piece is what the stream has at its place. */
  predicate IsSlice(p: Piece, stream: seq<Byte>) {
    p.at + |p.bytes| <= |stream| && p.bytes == stream[p.at..][..|p.bytes|]
  }

  /** The pieces are slices of the stream of completed commands, one after the other: each starts where
      the one before ended, plus exactly the bytes evicted in between, which are the ones lost. */
  predicate Chained(log: Log, fPos: nat, r: Reader) {
    var ps, n := r.pieces, |r.pieces|;
    && (forall i :: 0 <= i < n ==> IsSlice(ps[i], Flat(r.log.committed)))
    && (forall i :: 0 < i < n ==>
          && ps[i - 1].evicted <= ps[i].evicted
          && ps[i].at == ps[i - 1].at + |ps[i - 1].bytes| + (ps[i].evicted - ps[i - 1].evicted))
    && (n > 0 ==>
          && EvictedBytes(log) <= ps[0].evicted && ps[0].at == ps[0].evicted + fPos
          && ps[n - 1].evicted <= EvictedBytes(r.log)
          && ps[n - 1].at + |ps[n - 1].bytes| == ps[n - 1].evicted + r.fPos)
    && (n == 0 ==> r.fPos == fPos)
  }

  /** The reader has come from `(log, fPos)` to `r`.  Besides the chain of pieces: its position advanced
      by exactly the bytes it got, and if nothing was evicted, they are one contiguous slice of the
      contents, starting where it started. */
  predicate Followed(log: Log, fPos: nat, r: Reader) {
    && log.committed <= r.log.committed
    && Evicted(log) <= Evicted(r.log)
    && Chained(log, fPos, r)
    && r.fPos == fPos + |Got(r.pieces)|
    && (Evicted(r.log) == Evicted(log) && Got(r.pieces) != [] ==>
          r.fPos <= |Contents(r.log)| && Got(r.pieces) == Contents(r.log)[fPos..r.fPos])
  }

  lemma FlatPrefix(a: seq<seq<Byte>>, b: seq<seq<Byte>>)
    requires a <= b
    ensures Flat(a) <= Flat(b)
  {
    assert b == a + b[|a|..];
    FlatAppend(a, b[|a|..]);
  }

  lemma OthersKeepChained(log: Log, fPos: nat, r: Reader, log': Log)
    requires Chained(log, fPos, r)
    requires r.log.committed <= log'.committed && Evicted(r.log) <= Evicted(log')
    ensures Chained(log, fPos, r.(log := log'))
  {
    hide Flat, Evicted;
    FlatPrefix(r.log.committed, log'.committed);
    FlatPrefix(Evicted(r.log), Evicted(log'));
    forall i | 0 <= i < |r.pieces|
      ensures IsSlice(r.pieces[i], Flat(log'.committed))
    {
      assert IsSlice(r.pieces[i], Flat(r.log.committed));
    }
  }

  lemma OthersKeepFollowed(log: Log, fPos: nat, r: Reader, call: Call)
    requires Followed(log, fPos, r)
    ensures Followed(log, fPos, Observe(r, Others(call)))
  {
    hide Apply, Contents, Chained, Got;
    var log' := Apply(r.log, 0, call).log;
    EvictedGrows(r.log, call);
    OthersKeepChained(log, fPos, r, log');
    if Evicted(log') == Evicted(log) {
      PrefixContents(r.log, log');
    }
  }

  /** A read that delivers something adds a piece that starts where the last one ended, plus what was
      evicted since. */
  lemma ReadKeepsChained(log: Log, fPos: nat, r: Reader, d: seq<Byte>)
    requires Evicted(log) <= Evicted(r.log) && Chained(log, fPos, r)
    requires IsSlice(Piece(StreamPosition(r.log, r.fPos), EvictedBytes(r.log), d), Flat(r.log.committed))
    ensures Chained(log, fPos, Reader(r.log, r.fPos + |d|,
                    r.pieces + [Piece(StreamPosition(r.log, r.fPos), EvictedBytes(r.log), d)]))
  {
    hide Flat, Evicted, IsSlice;
    FlatPrefix(Evicted(log), Evicted(r.log));
  }

  lemma GotNext(pieces: seq<Piece>, p: Piece)
    ensures Got(pieces + [p]) == Got(pieces) + p.bytes
  {
    assert (pieces + [p])[..|pieces|] == pieces;
  }

  lemma ReadKeepsFollowed(log: Log, fPos: nat, r: Reader, count: nat, copyOk: bool)
    requires Followed(log, fPos, r)
    ensures Followed(log, fPos, Observe(r, MyRead(count, copyOk)))
  {
    hide Contents, ReadOutcome, Evicted, Chained, Got, StreamPosition, EvictedBytes;
    var o := ReadOutcome(r.log, r.fPos, count, copyOk);
    var d := o.reply.data;
    ReadFollowsStream(r.log, r.fPos, count, copyOk);
    ReadWithinContents(r.log, r.fPos, count, copyOk);
    if d != [] {
      ReadKeepsChained(log, fPos, r, d);
      GotNext(r.pieces, Piece(StreamPosition(r.log, r.fPos), EvictedBytes(r.log), d));
      if Evicted(r.log) == Evicted(log) {
        assert Got(r.pieces) == Contents(r.log)[fPos..r.fPos];
        SliceGrows(Contents(r.log), fPos, r.fPos, d);
      }
    }
  }

  lemma ReadWithinContents(log: Log, fPos: nat, count: nat, copyOk: bool)
    ensures var o := ReadOutcome(log, fPos, count, copyOk);
            && o.log == log
            && (o.reply.data != [] ==>
                  fPos + |o.reply.data| <= |Contents(log)| && o.reply.data == Contents(log)[fPos..][..|o.reply.data|])
  {
    ReadAtSlice(Window(log), fPos, count);
  }

  /** A reader's whole trace, among any calls of others, failed or not. */
  lemma {:induction false} ReaderTrace(log: Log, fPos: nat, es: seq<Event>)
    ensures Followed(log, fPos, ObserveAll(Reader(log, fPos, []), es))
  {
    hide Followed, Observe;
    if es == [] {
      ReaderStarts(log, fPos);
    } else {
      var before, e := es[..|es| - 1], es[|es| - 1];
      ReaderTrace(log, fPos, before);
      var r := ObserveAll(Reader(log, fPos, []), before);
      match e
      case Others(call) => OthersKeepFollowed(log, fPos, r, call);
      case MyRead(count, copyOk) => ReadKeepsFollowed(log, fPos, r, count, copyOk);
    }
  }

  lemma ReaderStarts(log: Log, fPos: nat)
    ensures Followed(log, fPos, Reader(log, fPos, []))
  {
  }

  /** Along a chain no two pieces overlap: later ones lie further on in the stream. */
  lemma {:induction false} PiecesDoNotOverlap(log: Log, fPos: nat, r: Reader, i: nat, j: nat)
    requires Chained(log, fPos, r) && i < j < |r.pieces|
    ensures r.pieces[i].at + |r.pieces[i].bytes| <= r.pieces[j].at
    decreases j
  {
    if i < j - 1 {
      PiecesDoNotOverlap(log, fPos, r, i, j - 1);
    }
  }

  lemma PrefixContents(a: Log, b: Log)
    requires a.committed <= b.committed
    requires Evicted(a) == Evicted(b)
    ensures Contents(a) <= Contents(b)
  {
    var more := b.committed[|a.committed|..];
    assert b.committed == a.committed + more;
    assert Window(b) == Window(a) + more;
    FlatAppend(Window(a), more);
  }

  // ----- seeking and draining

  /** The bytes delivered by successive reads of the given sizes. */
  function Drain(lines: seq<seq<Byte>>, pos: nat, counts: seq<nat>): seq<Byte>
    decreases |counts|
  {
    if counts == [] then []
    else
      var d := ReadAt(lines, pos, counts[0]);
      d + Drain(lines, pos + |d|, counts[1..])
  }

  lemma Prepend(c: seq<Byte>, pos: nat, d: seq<Byte>, rest: seq<Byte>)
    requires pos + |d| <= |c| && d == c[pos..][..|d|]
    requires rest <= c[pos + |d|..]
    ensures d + rest <= c[pos..]
    ensures rest == c[pos + |d|..] ==> d + rest == c[pos..]
  {
    assert c[pos..] == d + c[pos + |d|..];
  }

  /** Reads of any positive sizes deliver the contents from the position on, in order and without
      gaps; no more of them are needed than there are bytes, and then the next one finds nothing. */
  lemma {:induction false} DrainDelivers(lines: seq<seq<Byte>>, pos: nat, counts: seq<nat>)
    requires pos <= |Flat(lines)|
    requires forall i :: 0 <= i < |counts| ==> counts[i] > 0
    ensures Drain(lines, pos, counts) <= Flat(lines)[pos..]
    ensures |counts| >= |Flat(lines)| - pos ==> Drain(lines, pos, counts) == Flat(lines)[pos..]
    decreases |counts|
  {
    hide ReadAt, Flat;
    if counts != [] {
      var d := ReadAt(lines, pos, counts[0]);
      ReadAtSlice(lines, pos, counts[0]);
      if d == [] {
        assert Flat(lines)[pos..] == [];
        DrainDelivers(lines, pos, counts[1..]);
      } else {
        DrainDelivers(lines, pos + |d|, counts[1..]);
        Prepend(Flat(lines), pos, d, Drain(lines, pos + |d|, counts[1..]));
      }
    }
  }

  /** An accepted seek followed by reads until nothing is left yields the rest of the chosen command
      and every later command. */
  lemma {:induction false} SeekThenDrain(log: Log, fPos: nat, p: Place, counts: seq<nat>)
    requires SeekAccepted(log, IOCSEEKTO, true, p)
    requires forall i :: 0 <= i < |counts| ==> counts[i] > 0
    requires |counts| >= |Contents(log)|
    ensures var at := IoctlOutcome(log, fPos, IOCSEEKTO, true, p).fPos;
            && Drain(Window(log), at, counts) == Window(log)[p.cmd][p.offset..] + Flat(Window(log)[p.cmd + 1..])
            && ReadAt(Window(log), at + |Drain(Window(log), at, counts)|, 1) == []
  {
    hide Drain, ReadAt, Locate, Sum, Window;
    var ls := Window(log);
    var at := Position(WindowSizes(log), p);
    FlatLength(ls);
    LocatePosition(WindowSizes(log), p);
    DrainDelivers(ls, at, counts);
    SuffixFrom(ls, p);
    ReadAtSlice(ls, |Flat(ls)|, 1);
  }

  lemma SuffixFrom(ls: seq<seq<Byte>>, p: Place)
    requires Stored(Sizes(ls), p)
    ensures Position(Sizes(ls), p) <= |Flat(ls)|
    ensures Flat(ls)[Position(Sizes(ls), p)..] == ls[p.cmd][p.offset..] + Flat(ls[p.cmd + 1..])
  {
    FlatAround(ls, p.cmd);
  }

  /** The file position an accepted seek leaves. */
  function SeekPosition(log: Log, writeCmd: Uint32, writeCmdOffset: Uint32): nat {
    Apply(log, 0, Ioctl(IOCSEEKTO, true, writeCmd, writeCmdOffset)).fPos
  }

  predicate Accepted(log: Log, writeCmd: Uint32, writeCmdOffset: Uint32) {
    Apply(log, 0, Ioctl(IOCSEEKTO, true, writeCmd, writeCmdOffset)).reply.ret == 0
  }

  /** The ring search undoes every accepted seek, so no two accepted seeks reach the same byte. */
  lemma FindUndoesSeek(log: Log, c: Uint32, o: Uint32)
    ensures Accepted(log, c, o) <==> c < |Window(log)| && o < |Window(log)[c]|
    ensures Accepted(log, c, o) ==>
              && SeekPosition(log, c, o) < |Contents(log)|
              && Locate(WindowSizes(log), SeekPosition(log, c, o)) == Some(Place(c, o))
  {
    FlatLength(Window(log));
    if Accepted(log, c, o) {
      LocatePosition(WindowSizes(log), Place(c, o));
    }
  }

  lemma AcceptedSeeksAreDistinct(log: Log, c: Uint32, o: Uint32, c': Uint32, o': Uint32)
    requires Accepted(log, c, o) && Accepted(log, c', o')
    requires SeekPosition(log, c, o) == SeekPosition(log, c', o')
    ensures c == c' && o == o'
  {
    FindUndoesSeek(log, c, o);
    FindUndoesSeek(log, c', o');
  }

  /** Which bytes a seek can reach: every stored byte whose offset in its command fits the 32-bit
      `write_cmd_offset`. */
  lemma SeekReaches(log: Log, pos: nat)
    ensures (exists c: Uint32, o: Uint32 :: Accepted(log, c, o) && SeekPosition(log, c, o) == pos)
            <==>
            pos < |Contents(log)| && Locate(WindowSizes(log), pos).Some?
            && Locate(WindowSizes(log), pos).value.offset < 0x1_0000_0000
  {
    FlatLength(Window(log));
    LocateSound(WindowSizes(log), pos);
    forall c: Uint32, o: Uint32
      ensures Accepted(log, c, o) ==> Locate(WindowSizes(log), SeekPosition(log, c, o)) == Some(Place(c, o))
    {
      FindUndoesSeek(log, c, o);
    }
    if exists c: Uint32, o: Uint32 :: Accepted(log, c, o) && SeekPosition(log, c, o) == pos {
      var c: Uint32, o: Uint32 :| Accepted(log, c, o) && SeekPosition(log, c, o) == pos;
      FindUndoesSeek(log, c, o);
    }
    if pos < |Contents(log)| && Locate(WindowSizes(log), pos).value.offset < 0x1_0000_0000 {
      var p := Locate(WindowSizes(log), pos).value;
      assert Accepted(log, p.cmd, p.offset) && SeekPosition(log, p.cmd, p.offset) == pos;
    }
  }

  /** If no stored command is longer than 4 GiB, every byte is reached by exactly one accepted seek. */
  lemma SeekReachesAll(log: Log, pos: nat)
    requires forall i :: 0 <= i < |Window(log)| ==> |Window(log)[i]| <= 0x1_0000_0000
    ensures pos < |Contents(log)|
            <==> exists c: Uint32, o: Uint32 :: Accepted(log, c, o) && SeekPosition(log, c, o) == pos
    ensures forall c: Uint32, o: Uint32, c': Uint32, o': Uint32 ::
              Accepted(log, c, o) && SeekPosition(log, c, o) == pos
              && Accepted(log, c', o') && SeekPosition(log, c', o') == pos
              ==> c == c' && o == o'
  {
    SeekReaches(log, pos);
    FlatLength(Window(log));
    LocateSound(WindowSizes(log), pos);
    forall c: Uint32, o: Uint32, c': Uint32, o': Uint32 |
      Accepted(log, c, o) && SeekPosition(log, c, o) == pos && Accepted(log, c', o') && SeekPosition(log, c', o') == pos
      ensures c == c' && o == o'
    {
      AcceptedSeeksAreDistinct(log, c, o, c', o');
    }
  }

  /** One successful write of one line to a fresh device. */
  lemma OneLineRun(line: seq<Byte>)
    requires IsLine(line)
    ensures RunLog([Write(line, WriteFate(true, |line|, 1))]) == Log([line], [])
  {
    var calls := [Write(line, WriteFate(true, |line|, 1))];
    assert calls[..0] == [] && EMPTY_LOG.partial + line == line;
    FlatOne(line);
    SplitUnique([line], []);
    assert Flat([line]) + [] == line;
    LineWriteSlides(EMPTY_LOG, line, calls[0].fate);
    assert [] + [line] == [line];
  }

  /** Without that bound it fails of the model, whose allocator has no largest size: one write of a
      longer line, with a buffer for it, leaves a byte that can be read but not sought. */
  lemma LongCommandOutOfReach()
    ensures var line: seq<Byte> := seq(0x1_0000_0000, _ => 65) + [NEWLINE];
            var log := RunLog([Write(line, WriteFate(true, |line|, 1))]);
            && Window(log) == [line] && 0x1_0000_0000 < |Contents(log)|
            && !exists c: Uint32, o: Uint32 :: Accepted(log, c, o) && SeekPosition(log, c, o) == 0x1_0000_0000
  {
    var line: seq<Byte> := seq(0x1_0000_0000, _ => 65) + [NEWLINE];
    var log := RunLog([Write(line, WriteFate(true, |line|, 1))]);
    OneLineRun(line);
    FlatOne(line);
    assert WindowSizes(log) == [|line|];
    SeekReaches(log, 0x1_0000_0000);
  }
}
