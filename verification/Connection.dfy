/** The server's reply paths of `handle_connection`, on the character device: from a complete packet
    on, with the device to itself. */
module Connection {
  import opened Options
  import opened Framing
  import opened Positions
  import opened DeviceLog
  import opened CharDevice
  import opened Runs

  /** `INITIAL_BUFFER_SIZE`, the size of every read. */
  const BUFFER_SIZE: nat := 512

  /** What the environment allows while a reply is sent: how many reads can copy their bytes out, and
      how many sends succeed, before one fails. */
  datatype ReplyFate = ReplyFate(goodReads: nat, goodSends: nat)

  /** What is left to read from a position. */
  function Rest(log: Log, pos: nat): seq<Byte> {
    if pos <= |Contents(log)| then Contents(log)[pos..] else []
  }

  /** Neither a read nor a send fails within as many of them as there are bytes. */
  predicate Smooth(fate: ReplyFate, bytes: seq<Byte>) {
    |bytes| < fate.goodReads && |bytes| <= fate.goodSends
  }

  /** What `n` reads of the buffer's size deliver from a position on. */
  function Chunks(log: Log, pos: nat, n: nat): seq<Byte> {
    Drain(Window(log), pos, seq(n, _ => BUFFER_SIZE))
  }

  lemma ChunksNext(log: Log, pos: nat, n: nat)
    ensures Chunks(log, pos, 0) == []
    ensures n > 0 ==>
              var d := ReadAt(Window(log), pos, BUFFER_SIZE);
              Chunks(log, pos, n) == d + Chunks(log, pos + |d|, n - 1)
  {
    if n > 0 {
      assert seq(n, _ => BUFFER_SIZE)[1..] == seq(n - 1, _ => BUFFER_SIZE);
    }
  }

  lemma {:induction false} ChunksEnd(log: Log, pos: nat, n: nat)
    requires Rest(log, pos) == []
    ensures Chunks(log, pos, n) == []
  {
    hide Chunks, ReadAt, Flat;
    ReadAtSlice(Window(log), pos, BUFFER_SIZE);
    ChunksNext(log, pos, n);
    if n > 0 {
      ChunksEnd(log, pos, n - 1);
    }
  }

  lemma ReadTakesRest(log: Log, pos: nat, copyOk: bool)
    ensures var o := Apply(log, pos, Call.Read(BUFFER_SIZE, copyOk));
            && o.log == log && (o.reply.ret > 0 ==> o.reply.ret == |o.reply.data|)
            && (o.reply.ret == 0 <==> Rest(log, pos) == [])
            && (o.reply.ret > 0 ==>
                  && copyOk && o.reply.data == ReadAt(Window(log), pos, BUFFER_SIZE) != []
                  && o.fPos == pos + |o.reply.data|
                  && Rest(log, pos) == o.reply.data + Rest(log, o.fPos))
            && (o.reply.ret < 0 ==> !copyOk)
  {
    FlatLength(Window(log));
    ReadAtSlice(Window(log), pos, BUFFER_SIZE);
  }

  /** The read-and-send loop.  It sends what reads of the buffer's size deliver until the first read or
      send fails, which is a front of what there is to read; the last read returns 0 exactly if that is
      all of it, and without failures it does. */
  method SendRest(dev: Device, filp: File, fate: ReplyFate) returns (sent: seq<Byte>, last: int)
    requires dev.Valid() && !dev.buffLock.held
    modifies dev.buffLock, filp
    ensures dev.Valid() && !dev.buffLock.held
    ensures sent == Chunks(dev.log, old(filp.fPos), Min(fate.goodReads, fate.goodSends))
    ensures var rest := Rest(dev.log, old(filp.fPos));
            && sent <= rest
            && (last == 0 <==> sent == rest)
            && (Smooth(fate, rest) ==> last == 0)
  {
    hide Device.Valid, Apply, Rest, Contents, Chunks, ReadAt;
    sent := [];
    ghost var log: Log, at: nat := dev.log, filp.fPos;
    ghost var rest, all := Rest(log, at), Chunks(log, at, Min(fate.goodReads, fate.goodSends));
    var readsLeft: nat, sendsLeft: nat := fate.goodReads, fate.goodSends;
    ReadTakesRest(log, at, readsLeft > 0);
    var data;
    last, data := dev.Read(filp, BUFFER_SIZE, readsLeft > 0);
    while last > 0
      invariant dev.Valid() && !dev.buffLock.held
      invariant rest == sent + Rest(log, at) && (last == 0 <==> Rest(log, at) == [])
      invariant all == sent + Chunks(log, at, Min(readsLeft, sendsLeft))
      invariant last > 0 ==>
                  && readsLeft > 0 && last == |data| && data == ReadAt(Window(log), at, BUFFER_SIZE) != []
                  && filp.fPos == at + |data| && Rest(log, at) == data + Rest(log, filp.fPos)
      invariant last < 0 ==> readsLeft == 0
      invariant fate.goodReads - readsLeft <= |sent| && fate.goodSends - sendsLeft <= |sent|
      decreases |rest| - |sent|, last
    {
      ChunksNext(log, at, Min(readsLeft, sendsLeft));
      if sendsLeft == 0 {
        return;
      }
      sent := sent + data;
      sendsLeft, readsLeft := sendsLeft - 1, readsLeft - 1;
      at := filp.fPos;
      ReadTakesRest(log, at, readsLeft > 0);
      last, data := dev.Read(filp, BUFFER_SIZE, readsLeft > 0);
    }
    ChunksNext(log, at, Min(readsLeft, sendsLeft));
    if last == 0 {
      ChunksEnd(log, at, Min(readsLeft, sendsLeft));
    }
  }

  /** The last ten complete lines of everything accepted, in order. */
  function LastTenLines(accepted: seq<Byte>): seq<Byte> {
    Flat(LastTen(Lines(accepted)))
  }

  lemma WriteReturns(log: Log, fPos: nat, bytes: seq<Byte>, fate: WriteFate)
    ensures var o := Apply(log, fPos, Call.Write(bytes, fate));
            && o.log == AfterWrite(log, bytes, fate)
            && (o.reply.ret == |bytes| <==> WriteSucceeds(log, bytes, fate))
  {
  }

  /** The standard reply: the packet is written, and everything readable is sent back through a file
      opened for it.  If the write succeeds, what is sent is the front of the last ten complete lines
      of all bytes ever accepted, the packet's included: what as many reads deliver as can be made and sent
      before one fails, all of it when nothing fails on the way out; if it does not, nothing is sent. */
  method ReplyToPacket(dev: Device, writeMutex: Mutex, writer: File, packet: seq<Byte>, write: WriteFate,
                       opens: bool, fate: ReplyFate)
    returns (sent: seq<Byte>, complete: bool)
    requires dev.Valid() && !dev.buffLock.held && !writeMutex.held && dev.buffLock != writeMutex
    modifies dev, dev.mem, dev.buff, dev.buff.entry, dev.partialWriteBuff, dev.buffLock, writeMutex, writer
    ensures dev.Valid() && !dev.buffLock.held && !writeMutex.held
    ensures dev.log == AfterWrite(old(dev.log), packet, write)
    ensures dev.accepted == old(dev.accepted) + if Accepts(packet, write) then packet else []
    ensures if WriteSucceeds(old(dev.log), packet, write) && opens
            then
              && sent == Chunks(dev.log, 0, Min(fate.goodReads, fate.goodSends)) <= LastTenLines(dev.accepted)
              && (complete <==> sent == LastTenLines(dev.accepted))
              && (Smooth(fate, LastTenLines(dev.accepted)) ==> complete)
            else sent == [] && !complete
  {
    hide Device.Valid, AfterWrite, WriteSucceeds, Stream, LastTen, Window;
    dev.LogFacts();
    writeMutex.Lock();
    dev.ValidKept();
    WriteKeepsStream(dev.log, packet, write);
    WriteReturns(dev.log, writer.fPos, packet, write);
    var ret := dev.Write(writer, packet, write);
    label Written:
    if ret != |packet| {
      writeMutex.Unlock();
      dev.ValidKept@Written();
      return [], false;
    }
    writeMutex.Unlock();
    dev.ValidKept@Written();
    if !opens {
      return [], false;
    }
    dev.LogFacts();
    CaughtUp(dev.log);
    var reader := new File();
    dev.ValidKept@Written();
    var last;
    sent, last := SendRest(dev, reader, fate);
    complete := last == 0;
  }

  lemma SeekLeaves(log: Log, fPos: nat, argOk: bool, c: Uint32, o: Uint32)
    ensures var out := Apply(log, fPos, Call.Ioctl(IOCSEEKTO, argOk, c, o));
            if argOk && c < |Window(log)| && o < |Window(log)[c]|
            then
              && out.reply.ret == 0 && out.fPos == SeekPosition(log, c, o)
              && Rest(log, out.fPos) == Window(log)[c][o..] + Flat(Window(log)[c + 1..])
            else out.reply.ret == -1
  {
    if argOk && c < |Window(log)| && o < |Window(log)[c]| {
      SuffixFrom(Window(log), Place(c, o));
    }
  }

  /** The seek reply: after an accepted seek, the rest of the chosen command and every later one. */
  method ReplyToSeek(dev: Device, filp: File, writeCmd: Uint32, writeCmdOffset: Uint32, argOk: bool, fate: ReplyFate)
    returns (sent: seq<Byte>, complete: bool)
    requires dev.Valid() && !dev.buffLock.held
    modifies dev.buffLock, filp
    ensures dev.Valid() && !dev.buffLock.held
    ensures var ls := Window(dev.log);
            if argOk && writeCmd < |ls| && writeCmdOffset < |ls[writeCmd]|
            then
              var wanted := ls[writeCmd][writeCmdOffset..] + Flat(ls[writeCmd + 1..]);
              var at := SeekPosition(dev.log, writeCmd, writeCmdOffset);
              && sent == Chunks(dev.log, at, Min(fate.goodReads, fate.goodSends))
              && sent <= wanted && (complete <==> sent == wanted) && (Smooth(fate, wanted) ==> complete)
            else sent == [] && !complete
  {
    hide Device.Valid, Apply, Window;
    SeekLeaves(dev.log, filp.fPos, argOk, writeCmd, writeCmdOffset);
    var ret := dev.Ioctl(filp, IOCSEEKTO, argOk, writeCmd, writeCmdOffset);
    if ret < 0 {
      return [], false;
    }
    var last;
    sent, last := SendRest(dev, filp, fate);
    complete := last == 0;
  }
}
