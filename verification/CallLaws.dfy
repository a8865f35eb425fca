/** What each driver call does, said in bytes of the contents and of the stream: laws of `Apply` that
    any correct device meets, and what follows for a file used over many calls. */
module CallLaws {
  import opened Options
  import opened Framing
  import opened Positions
  import opened DeviceLog
  import opened Runs

  // ----- aesd_write

  /** A stream has as many lines as newlines. */
  lemma {:induction false} LinesCounted(s: seq<Byte>)
    ensures |Lines(s)| == multiset(s)[NEWLINE]
    decreases |s|
  {
    hide Lines, Tail, IndexOfNewline;
    SplitFirst(s);
    var k := IndexOfNewline(s);
    if k < |s| {
      var line, rest := s[..k + 1], s[k + 1..];
      LinesCounted(rest);
      assert s == line + rest && line == line[..k] + [NEWLINE];
      assert NEWLINE !in line[..k];
    }
  }

  /** The written bytes reached the device: the buffer was there and the copy complete. */
  predicate Taken(call: Call)
    requires call.Write?
  {
    call.fate.bufferOk && |call.bytes| <= call.fate.copied
  }

  /** A write takes all its bytes or none, and completes as many lines as it has newlines and command
      buffers for.  It succeeds, returns the number of bytes and moves the position past them exactly
      if it took them and completed every line; otherwise it returns -1 and the position stays. */
  lemma WriteLaw(log: Log, fPos: nat, call: Call)
    requires AllLines(log.committed) && call.Write?
    ensures var o := Apply(log, fPos, call);
            var newlines := multiset(log.partial + call.bytes)[NEWLINE];
            && Stream(o.log) == Stream(log) + (if Taken(call) then call.bytes else [])
            && AllLines(o.log.committed) && log.committed <= o.log.committed
            && |o.log.committed|
               == |log.committed| + (if Taken(call) then Min(newlines, call.fate.commandBuffers) else 0)
            && o.reply == Reply(if Taken(call) && newlines <= call.fate.commandBuffers then |call.bytes| else -1, [])
            && o.fPos == fPos + Max(0, o.reply.ret)
  {
    hide Lines, Tail;
    LinesCounted(log.partial + call.bytes);
    WriteKeepsStream(log, call.bytes, call.fate);
  }

  /** Nothing else does: stream and number of completed lines determine the log. */
  lemma LogDetermined(a: Log, b: Log)
    requires AllLines(a.committed) && AllLines(b.committed)
    requires Stream(a) == Stream(b) && |a.committed| == |b.committed|
    ensures a == b
  {
    hide Lines, Tail, Flat;
    SplitPrefix(a.committed, a.partial);
    SplitPrefix(b.committed, b.partial);
    var ls, n := Lines(Stream(a)), |a.committed|;
    assert a.committed == ls[..n] == b.committed;
    var front := Flat(a.committed);
    assert (front + a.partial)[|front|..] == a.partial && (front + b.partial)[|front|..] == b.partial;
  }

  // ----- aesd_read

  /** A read fails exactly if there is something to read and it cannot be copied out; it returns 0
      exactly at or past the end, or when asked for nothing.  Otherwise it delivers the contents from
      its position on, up to the first newline, that newline included, or as many bytes as it was asked
      for, whichever comes first.  The position moves by what was returned. */
  lemma ReadLaw(log: Log, fPos: nat, count: nat, copyOk: bool)
    requires AllLines(log.committed)
    ensures var o, c := Apply(log, fPos, Read(count, copyOk)), Contents(log);
            var ret, d := o.reply.ret, o.reply.data;
            && o.log == log && o.fPos == fPos + Max(0, ret) && |d| == Max(0, ret) && -1 <= ret
            && (ret < 0 <==> fPos < |c| && !copyOk)
            && (ret == 0 <==> |c| <= fPos || (copyOk && count == 0))
            && (ret > 0 ==>
                  && fPos + ret <= |c| && d == c[fPos..fPos + ret]
                  && ret <= count && NEWLINE !in d[..ret - 1] && (ret == count || d[ret - 1] == NEWLINE))
  {
    hide Locate, Sum, Flat;
    var ls := Window(log);
    FlatLength(ls);
    LocateSound(Sizes(ls), fPos);
    ReadAtSlice(ls, fPos, count);
    ReadAtPlace(ls, fPos, count);
    if Locate(Sizes(ls), fPos).Some? {
      var p := Locate(Sizes(ls), fPos).value;
      assert IsLine(ls[p.cmd]);
    }
  }

  // ----- aesd_ioctl

  /** A seek lands on the byte it names, or returns -1 and leaves the position; it is accepted exactly if
      command and argument are good and the byte is stored. */
  lemma SeekLaw(log: Log, fPos: nat, call: Call)
    requires call.Ioctl?
    ensures var o, ls, c, i := Apply(log, fPos, call), Window(log), call.writeCmd, call.writeCmdOffset;
            && o.log == log && o.reply.data == []
            && (o.reply.ret == 0 <==> call.cmd == IOCSEEKTO && call.argOk && c < |ls| && i < |ls[c]|)
            && (o.reply.ret == 0 ==>
                  o.fPos == |Flat(ls[..c])| + i < |Contents(log)| && Contents(log)[o.fPos] == ls[c][i])
            && (o.reply.ret != 0 ==> o.reply.ret == -1 && o.fPos == fPos)
  {
    var ls, c := Window(log), call.writeCmd;
    if c < |ls| {
      FlatAround(ls, c);
    }
  }

  // ----- aesd_llseek

  /** Where an llseek wants to go. */
  function Target(fPos: nat, offset: int, whence: int, end: nat): int {
    offset + if whence == SEEK_SET then 0 else if whence == SEEK_CUR then fPos else end
  }

  /** An llseek lands on its target, counted from the start, the position or the end of the contents.
      It refuses exactly the targets outside the contents and unknown origins, and then leaves the
      position; asking for the position always gives it, even past the end. */
  lemma LlseekLaw(log: Log, fPos: nat, offset: int, whence: int)
    ensures var o, end := Apply(log, fPos, Llseek(offset, whence)), |Contents(log)|;
            var target := Target(fPos, offset, whence, end);
            && o.log == log && o.reply.data == []
            && (0 <= o.reply.ret <==>
                  whence in {SEEK_SET, SEEK_CUR, SEEK_END}
                  && (0 <= target <= end || (whence == SEEK_CUR && offset == 0)))
            && (0 <= o.reply.ret ==> o.fPos == o.reply.ret == target)
            && (o.reply.ret < 0 ==> o.fPos == fPos && o.reply.ret == -EINVAL)
  {
    FlatLength(Window(log));
  }

  /** SEEK_END with offset 0 returns, and lands on, the least position at which a read of positive size
      returns 0. */
  lemma SeekEndIsLeastEmpty(log: Log, fPos: nat, count: nat)
    requires AllLines(log.committed) && count > 0
    ensures var o := Apply(log, fPos, Llseek(0, SEEK_END));
            && o.reply.ret == o.fPos
            && forall pos: nat :: Apply(log, pos, Read(count, true)).reply.ret == 0 <==> o.fPos <= pos
  {
    hide Apply;
    LlseekLaw(log, fPos, 0, SEEK_END);
    forall pos: nat
      ensures Apply(log, pos, Read(count, true)).reply.ret == 0 <==> |Contents(log)| <= pos
    {
      ReadLaw(log, pos, count, true);
    }
  }

  // ----- all calls

  /** A call that fails leaves the position; it leaves the log as well, unless it is a write that failed
      after it took its bytes. */
  lemma FailureLeaves(log: Log, fPos: nat, call: Call)
    requires AllLines(log.committed)
    ensures var o := Apply(log, fPos, call);
            o.reply.ret < 0 ==> o.fPos == fPos && (o.log == log || (call.Write? && Taken(call)))
  {
    hide Apply;
    match call
    case Write(_, _) =>
      WriteLaw(log, fPos, call);
      if !Taken(call) {
        assert Stream(log) + [] == Stream(log);
        LogDetermined(Apply(log, fPos, call).log, log);
      }
    case Read(count, copyOk) => ReadLaw(log, fPos, count, copyOk);
    case Ioctl(_, _, _, _) => SeekLaw(log, fPos, call);
    case Llseek(offset, whence) => LlseekLaw(log, fPos, offset, whence);
  }

  // ----- one file over many calls

  /** Calls through one file, among calls through others. */
  datatype FileEvent = Mine(call: Call) | Other(call: Call)

  /** The log, the file's position, and what its own calls returned. */
  datatype Session = Session(log: Log, fPos: nat, rets: seq<int>)

  function After(log: Log, fPos: nat, es: seq<FileEvent>): Session {
    if es == [] then Session(log, fPos, [])
    else
      var s := After(log, fPos, es[..|es| - 1]);
      match es[|es| - 1]
      case Mine(call) =>
        var o := Apply(s.log, s.fPos, call);
        Session(o.log, o.fPos, s.rets + [o.reply.ret])
      case Other(call) => s.(log := Apply(s.log, 0, call).log)
  }

  /** The sum of the positive returns. */
  function Gains(rets: seq<int>): nat {
    if rets == [] then 0 else Gains(rets[..|rets| - 1]) + Max(0, rets[|rets| - 1])
  }

  lemma GainsNext(rets: seq<int>, ret: int)
    ensures Gains(rets + [ret]) == Gains(rets) + Max(0, ret)
  {
    assert (rets + [ret])[..|rets|] == rets;
  }

  lemma ApplyKeepsLines(log: Log, fPos: nat, call: Call)
    requires AllLines(log.committed)
    ensures AllLines(Apply(log, fPos, call).log.committed)
  {
    if call.Write? {
      WriteLaw(log, fPos, call);
    }
  }

  lemma {:induction false} AfterKeepsLines(log: Log, fPos: nat, es: seq<FileEvent>)
    requires AllLines(log.committed)
    ensures AllLines(After(log, fPos, es).log.committed)
  {
    hide Apply, AllLines;
    if es != [] {
      AfterKeepsLines(log, fPos, es[..|es| - 1]);
      var s := After(log, fPos, es[..|es| - 1]);
      match es[|es| - 1]
      case Mine(call) => ApplyKeepsLines(s.log, s.fPos, call);
      case Other(call) => ApplyKeepsLines(s.log, 0, call);
    }
  }

  /** Position and replies agree: a file that is only read and written has moved by exactly the sum of
      its positive returns, whatever failed and whatever others did. */
  lemma {:induction false} PositionIsGains(log: Log, fPos: nat, es: seq<FileEvent>)
    requires AllLines(log.committed)
    requires forall i :: 0 <= i < |es| && es[i].Mine? ==> es[i].call.Write? || es[i].call.Read?
    ensures After(log, fPos, es).fPos == fPos + Gains(After(log, fPos, es).rets)
  {
    hide Apply, AllLines;
    if es != [] {
      var before := es[..|es| - 1];
      var s := After(log, fPos, before);
      PositionIsGains(log, fPos, before);
      AfterKeepsLines(log, fPos, before);
      match es[|es| - 1]
      case Mine(call) =>
        GainsNext(s.rets, Apply(s.log, s.fPos, call).reply.ret);
        if call.Write? {
          WriteLaw(s.log, s.fPos, call);
        } else {
          ReadLaw(s.log, s.fPos, call.count, call.copyOk);
        }
      case Other(_) =>
    }
  }

  /** What a file wrote it does not read back: starting at or past the end of the stream, and after any
      writes of its own that all succeeded, it is there again, so that a read through it finds nothing,
      whatever was evicted; and if nothing was, it has not moved relative to the end. */
  lemma {:induction false} WritesNotReadBack(log: Log, fPos: nat, es: seq<FileEvent>, count: nat, copyOk: bool)
    requires AllLines(log.committed) && |Stream(log)| <= StreamPosition(log, fPos)
    requires forall i :: 0 <= i < |es| ==> es[i].Mine? && es[i].call.Write?
    requires forall i :: 0 <= i < |After(log, fPos, es).rets| ==> 0 <= After(log, fPos, es).rets[i]
    ensures var s := After(log, fPos, es);
            && |Stream(s.log)| <= StreamPosition(s.log, s.fPos)
            && Apply(s.log, s.fPos, Read(count, copyOk)) == Outcome(s.log, s.fPos, Reply(0, []))
            && (Evicted(s.log) == Evicted(log) ==>
                  s.fPos - |Contents(s.log)| - |s.log.partial| == fPos - |Contents(log)| - |log.partial|)
  {
    hide Apply, AllLines, Evicted, Contents;
    WritesKeepEnd(log, fPos, es);
    AfterKeepsLines(log, fPos, es);
    var s := After(log, fPos, es);
    StreamSplit(log);
    StreamSplit(s.log);
    ReadLaw(s.log, s.fPos, count, copyOk);
  }

  lemma {:induction false} WritesKeepEnd(log: Log, fPos: nat, es: seq<FileEvent>)
    requires AllLines(log.committed)
    requires forall i :: 0 <= i < |es| ==> es[i].Mine? && es[i].call.Write?
    requires forall i :: 0 <= i < |After(log, fPos, es).rets| ==> 0 <= After(log, fPos, es).rets[i]
    ensures var s := After(log, fPos, es);
            && |Stream(s.log)| - s.fPos == |Stream(log)| - fPos
            && EvictedBytes(log) <= EvictedBytes(s.log)
  {
    hide Apply, AllLines, EvictedBytes;
    if es != [] {
      var before, call := es[..|es| - 1], es[|es| - 1].call;
      var s := After(log, fPos, before);
      var ret := Apply(s.log, s.fPos, call).reply.ret;
      assert After(log, fPos, es).rets == s.rets + [ret];
      assert After(log, fPos, es).rets[|s.rets|] == ret;
      assert forall i :: 0 <= i < |s.rets| ==> s.rets[i] == After(log, fPos, es).rets[i];
      WritesKeepEnd(log, fPos, before);
      AfterKeepsLines(log, fPos, before);
      WriteLaw(s.log, s.fPos, call);
      EvictedMore(s.log, s.fPos, call);
    }
  }

  lemma EvictedMore(log: Log, fPos: nat, call: Call)
    ensures EvictedBytes(log) <= EvictedBytes(Apply(log, fPos, call).log)
  {
    hide Flat;
    FlatPrefix(Evicted(log), Evicted(Apply(log, fPos, call).log));
  }
}
