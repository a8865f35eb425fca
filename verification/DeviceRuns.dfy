/** The life of a device: loaded, called any number of times, unloaded. */
module DeviceRuns {
  import opened Options
  import opened Framing
  import opened Positions
  import opened DeviceLog
  import opened Runs
  import opened CircularBuffers
  import opened KernelHeaps
  import opened CharDevice

  /** Some write got as far as allocating the partial buffer. */
  predicate PartialAllocated(calls: seq<Call>) {
    exists i :: 0 <= i < |calls| && calls[i].Write? && calls[i].fate.bufferOk
  }

  /** One call on the device. */
  method Perform(dev: Device, filp: File, call: Call) returns (reply: Reply)
    requires dev.Valid() && !dev.buffLock.held
    modifies dev, dev.mem, dev.buff, dev.buff.entry, dev.partialWriteBuff, dev.buffLock, filp
    ensures dev.Valid() && !dev.buffLock.held
    ensures Outcome(dev.log, filp.fPos, reply) == Apply(old(dev.log), old(filp.fPos), call)
    ensures dev.accepted == old(dev.accepted) + if call.Write? && Accepts(call.bytes, call.fate) then call.bytes else []
    ensures dev.partialWriteBuff != null <==> old(dev.partialWriteBuff) != null || (call.Write? && call.fate.bufferOk)
    ensures dev.partialWriteBuff != null ==>
              dev.partialWriteBuff == old(dev.partialWriteBuff) || fresh(dev.partialWriteBuff)
  {
    hide Device.Valid, Apply;
    match call
    case Write(bytes, fate) =>
      var ret := dev.Write(filp, bytes, fate);
      reply := Reply(ret, []);
    case Read(count, copyOk) =>
      var ret, data := dev.Read(filp, count, copyOk);
      reply := Reply(ret, data);
    case Ioctl(cmd, argOk, writeCmd, writeCmdOffset) =>
      var ret := dev.Ioctl(filp, cmd, argOk, writeCmd, writeCmdOffset);
      reply := Reply(ret, []);
    case Llseek(offset, whence) =>
      var ret := dev.Llseek(filp, offset, whence);
      reply := Reply(ret, []);
  }

  /** Over every run, with whatever failures: the device's log and accepted bytes are those of the run,
      every command buffer has been freed exactly once by the end, and memory is left allocated exactly
      if some write got as far as allocating the partial buffer, which is then all that is left. */
  method LoadRunUnload(calls: seq<Call>) returns (dev: Device)
    ensures fresh(dev) && fresh(dev.mem) && fresh(dev.buff)
    ensures dev.log == RunLog(calls) && dev.accepted == AcceptedBytes(calls)
    ensures dev.mem.live == {} <==> !PartialAllocated(calls)
    ensures |dev.mem.live| <= 1
    ensures |dev.buff.gone + dev.buff.contents| == |RunLog(calls).committed|
    ensures FreedOnce(dev.buff.gone + dev.buff.contents, dev.mem.freed)
  {
    hide Device.Valid, Apply, RunLog, AcceptedBytes, Accepts;
    var filp := new File();
    dev := new Device();
    RunStarts();
    for n := 0 to |calls|
      invariant dev.Valid() && !dev.buffLock.held
      invariant fresh(dev) && fresh(dev.mem) && fresh(dev.buff) && fresh(dev.buff.entry) && fresh(dev.buffLock)
      invariant fresh(filp) && (dev.partialWriteBuff != null ==> fresh(dev.partialWriteBuff))
      invariant dev.log == RunLog(calls[..n]) && dev.accepted == AcceptedBytes(calls[..n])
      invariant dev.partialWriteBuff != null <==> PartialAllocated(calls[..n])
    {
      assert calls[..n + 1] == calls[..n] + [calls[n]];
      RunNext(calls[..n], calls[n], filp.fPos);
      var reply := Perform(dev, filp, calls[n]);
    }
    assert calls[..|calls|] == calls;
    dev.EntriesCounted();
    dev.Cleanup();
  }

  lemma RunStarts()
    ensures RunLog([]) == EMPTY_LOG && AcceptedBytes([]) == []
  {
  }

  lemma RunNext(calls: seq<Call>, call: Call, fPos: nat)
    ensures RunLog(calls + [call]) == Apply(RunLog(calls), fPos, call).log
    ensures AcceptedBytes(calls + [call])
         == AcceptedBytes(calls) + if call.Write? && Accepts(call.bytes, call.fate) then call.bytes else []
    ensures PartialAllocated(calls + [call]) <==> PartialAllocated(calls) || (call.Write? && call.fate.bufferOk)
  {
    var more := calls + [call];
    assert more[..|calls|] == calls;
    if PartialAllocated(calls) {
      var i :| 0 <= i < |calls| && calls[i].Write? && calls[i].fate.bufferOk;
      assert more[i] == calls[i];
    }
    assert more[|calls|] == call;
  }
}
