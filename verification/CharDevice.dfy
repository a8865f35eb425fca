/** The driver of `main.c`: one device with its ring, its partial write buffer and its lock. */
module CharDevice {
  import opened Options
  import opened Framing
  import opened Positions
  import opened DeviceLog
  import opened Rings
  import opened CircularBuffers
  import opened KernelHeaps
  import opened Runs

  class Mutex {
    var held: bool

    constructor ()
      ensures !held
    {
      held := false;
    }

    method Lock()
      requires !held
      modifies this
      ensures held
    {
      held := true;
    }

    method Unlock()
      requires held
      modifies this
      ensures !held
    {
      held := false;
    }
  }

  /** An open file: all the driver uses of it is its position. */
  class File {
    var fPos: nat

    constructor ()
      ensures fPos == 0
    {
      fPos := 0;
    }
  }

  /** The buffers a sequence of entries points to. */
  ghost function Buffers(es: seq<Entry>): set<array<Byte>> {
    set e | e in es && e.buffptr != null :: e.buffptr
  }

  ghost predicate Distinct(es: seq<Entry>) {
    forall i, j :: 0 <= i < j < |es| ==> es[i].buffptr != es[j].buffptr
  }

  lemma BuffersAppend(es: seq<Entry>, e: Entry)
    requires e.buffptr != null
    ensures Buffers(es + [e]) == Buffers(es) + {e.buffptr}
  {
    assert e in es + [e];
    assert forall x :: x in es ==> x in es + [e];
  }

  lemma BuffersDropFirst(es: seq<Entry>)
    requires es != [] && es[0].buffptr != null && Distinct(es)
    ensures Buffers(es[1..]) == Buffers(es) - {es[0].buffptr}
  {
    forall e | e in es[1..]
      ensures e in es && e.buffptr != es[0].buffptr
    {
      var i :| 0 <= i < |es[1..]| && es[1..][i] == e;
      assert e == es[i + 1];
    }
    forall e | e in es && e.buffptr != es[0].buffptr
      ensures e in es[1..]
    {
      var i :| 0 <= i < |es| && es[i] == e;
      assert e == es[1..][i - 1];
    }
  }

  lemma BuffersNone()
    ensures Buffers([]) == {}
  {
  }

  /** One more slot, in use or not: of `es` the first `n` have distinct buffers, the others none. */
  lemma BuffersNext(es: seq<Entry>, i: nat, n: nat)
    requires i < |es| && n <= |es|
    requires forall j :: n <= j < |es| ==> es[j].buffptr == null
    requires forall j, k :: 0 <= j < k < n ==> es[j].buffptr != es[k].buffptr
    ensures es[i].buffptr == null ==> Buffers(es[..i + 1]) == Buffers(es[..i])
    ensures es[i].buffptr != null ==>
              && Buffers(es[..i + 1]) == Buffers(es[..i]) + {es[i].buffptr}
              && es[i].buffptr !in Buffers(es[..i])
  {
    assert es[..i + 1] == es[..i] + [es[i]];
    if es[i].buffptr != null {
      BuffersAppend(es[..i], es[i]);
    }
  }

  lemma BufferSlot(es: seq<Entry>, contents: seq<Entry>, e: Entry) returns (i: nat)
    requires Buffers(es) == Buffers(contents) && e in contents && e.buffptr != null
    ensures i < |es| && es[i].buffptr == e.buffptr
  {
    assert e.buffptr in Buffers(es);
    var e' :| e' in es && e'.buffptr == e.buffptr;
    i :| 0 <= i < |es| && es[i] == e';
  }

  /** Each buffer has one owner, a slot or the partial buffer, and nothing else is live. */
  ghost predicate Owns(contents: seq<Entry>, partial: array?<Byte>, live: set<array<Byte>>) {
    && Distinct(contents)
    && (forall e :: e in contents ==> e.buffptr != null && e.buffptr != partial)
    && live == Buffers(contents) + (if partial == null then {} else {partial})
  }

  /** The buffers of the entries that left the ring were freed, each exactly once. */
  ghost predicate FreedOnce(gone: seq<Entry>, freed: multiset<array<Byte>>) {
    forall e :: e in gone ==> e.buffptr != null && freed[e.buffptr] == 1
  }

  /** Entry for entry, the buffers hold the given commands. */
  ghost predicate HoldLines(contents: seq<Entry>, lines: seq<seq<Byte>>)
    reads Buffers(contents)
  {
    && |contents| == |lines|
    && forall i :: 0 <= i < |contents| ==> HoldsLine(contents[i], lines[i])
  }

  /** The memory at `p` starts with `bytes`. */
  ghost predicate Starts(p: array<Byte>, bytes: seq<Byte>)
    reads p
  {
    |bytes| <= p.Length && forall j :: 0 <= j < |bytes| ==> p[j] == bytes[j]
  }

  ghost predicate HoldsLine(e: Entry, line: seq<Byte>)
    reads if e.buffptr == null then {} else {e.buffptr}
  {
    e.buffptr != null && e.size == |line| && Starts(e.buffptr, line)
  }

  /** The partial buffer may move. */
  lemma OwnsMoved(contents: seq<Entry>, p: array?<Byte>, q: array<Byte>, live: set<array<Byte>>)
    requires Owns(contents, p, live)
    requires q == p || q !in live
    ensures Owns(contents, q, live - (if p == null then {} else {p}) + {q})
  {
    forall e | e in contents
      ensures e.buffptr != q
    {
      assert e.buffptr in Buffers(contents);
    }
  }

  lemma FreedMore(gone: seq<Entry>, freed: multiset<array<Byte>>, p: array<Byte>)
    requires FreedOnce(gone, freed) && p !in freed
    ensures FreedOnce(gone, freed + multiset{p})
  {
  }

  /** A new buffer's owner is its slot. */
  lemma OwnsAppend(es: seq<Entry>, e: Entry, partial: array?<Byte>, live: set<array<Byte>>)
    requires Owns(es, partial, live)
    requires e.buffptr != null && e.buffptr !in live && e.buffptr != partial
    ensures Owns(es + [e], partial, live + {e.buffptr})
  {
    BuffersAppend(es, e);
    forall i | 0 <= i < |es|
      ensures es[i].buffptr != e.buffptr
    {
      assert es[i] in es && es[i].buffptr in Buffers(es);
    }
  }

  /** The buffer of the oldest entry has no owner once the entry is gone. */
  lemma OwnsDrop(es: seq<Entry>, partial: array?<Byte>, live: set<array<Byte>>)
    requires Owns(es, partial, live) && es != []
    ensures es[0].buffptr != null && es[0].buffptr in live
    ensures Owns(es[1..], partial, live - {es[0].buffptr})
  {
    assert es[0] in es && es[0].buffptr in Buffers(es);
    BuffersDropFirst(es);
    assert forall x :: x in es[1..] ==> x in es;
  }

  lemma FreedAppend(gone: seq<Entry>, freed: multiset<array<Byte>>, e: Entry)
    requires FreedOnce(gone, freed) && e.buffptr != null && e.buffptr !in freed
    ensures FreedOnce(gone + [e], freed + multiset{e.buffptr})
  {
  }

  lemma HoldLinesAppend(es: seq<Entry>, lines: seq<seq<Byte>>, e: Entry, line: seq<Byte>)
    requires HoldLines(es, lines) && HoldsLine(e, line)
    ensures HoldLines(es + [e], lines + [line])
  {
  }

  lemma HoldLinesDrop(es: seq<Entry>, lines: seq<seq<Byte>>)
    requires HoldLines(es, lines) && es != []
    ensures HoldLines(es[1..], lines[1..])
  {
    assert forall i :: 0 <= i < |es| ==> HoldsLine(es[i], lines[i]);
  }

  /** The memory side of one push: owners, freed buffers and held commands all slide together. */
  lemma PushStep(es: seq<Entry>, e: Entry, partial: array?<Byte>, live: set<array<Byte>>,
                 gone: seq<Entry>, freed: multiset<array<Byte>>,
                 lines: seq<seq<Byte>>, line: seq<Byte>, full: bool)
    requires full ==> es != []
    requires Owns(es, partial, live) && FreedOnce(gone, freed) && HoldLines(es, lines) && HoldsLine(e, line)
    requires e.buffptr !in live && e.buffptr != partial
    requires forall p :: p in live ==> p !in freed
    ensures HoldLines(Slide(es, full, e), Slide(lines, full, line))
    ensures full ==>
              && es[0].buffptr != null && es[0].buffptr in live
              && Owns(Slide(es, full, e), partial, live + {e.buffptr} - {es[0].buffptr})
              && FreedOnce(gone + [es[0]], freed + multiset{es[0].buffptr})
    ensures !full ==> Owns(Slide(es, full, e), partial, live + {e.buffptr}) && FreedOnce([], freed)
  {
    if full {
      OwnsDrop(es, partial, live);
      OwnsAppend(es[1..], e, partial, live - {es[0].buffptr});
      assert live - {es[0].buffptr} + {e.buffptr} == live + {e.buffptr} - {es[0].buffptr};
      FreedAppend(gone, freed, es[0]);
      HoldLinesDrop(es, lines);
      HoldLinesAppend(es[1..], lines[1..], e, line);
    } else {
      OwnsAppend(es, e, partial, live);
      HoldLinesAppend(es, lines, e, line);
    }
  }

  class Device {
    const mem: KernelHeap
    const buff: CircularBuffer
    const buffLock: Mutex
    var partialWriteBuff: array?<Byte>
    var bytesStored: nat
    /** The log this device's memory stands for. */
    ghost var log: Log
    /** Every byte that passed `copy_from_user`. */
    ghost var accepted: seq<Byte>

    /** The first `bytesStored` bytes of the partial buffer are `bytes`. */
    ghost predicate PartialHolds(bytes: seq<Byte>)
      reads this, partialWriteBuff
    {
      if partialWriteBuff == null then bytesStored == 0 && bytes == []
      else bytesStored == |bytes| && Starts(partialWriteBuff, bytes)
    }

    /** Slot for slot, the ring holds the last ten commands of the log. */
    ghost predicate RingHolds()
      reads this`log, buff, buff.entry, Buffers(buff.contents)
    {
      && buff.Valid()
      && |buff.gone| + |buff.contents| == |log.committed|
      && HoldLines(buff.contents, Window(log))
      && AllLines(log.committed)
    }

    /** Everything about the ring and the memory, with `extra` being live memory not owned yet. */
    ghost predicate RingValid(extra: set<array<Byte>>)
      reads this, buff, buff.entry, mem, Buffers(buff.contents)
    {
      && RingHolds()
      && mem.Valid()
      && extra <= mem.live
      && Owns(buff.contents, partialWriteBuff, mem.live - extra)
      && FreedOnce(buff.gone, mem.freed)
    }

    ghost predicate Valid()
      reads this, buff, buff.entry, mem, Buffers(buff.contents), partialWriteBuff
    {
      && RingValid({})
      && PartialHolds(log.partial)
      && Stream(log) == accepted
    }

    constructor ()
      ensures Valid() && !buffLock.held
      ensures log == EMPTY_LOG && accepted == []
      ensures fresh(mem) && fresh(buff) && fresh(buff.entry) && fresh(buffLock) && partialWriteBuff == null
    {
      mem := new KernelHeap();
      buff := new CircularBuffer();
      buffLock := new Mutex();
      partialWriteBuff := null;
      bytesStored := 0;
      log, accepted := EMPTY_LOG, [];
    }

    /** What the ring holds does not depend on the partial buffer or on other memory. */
    twostate lemma RingUntouched()
      requires old(RingHolds()) && log.committed == old(log.committed)
      requires unchanged(buff) && unchanged(buff.entry)
      requires forall b :: b in old(Buffers(buff.contents)) ==> unchanged(b)
      ensures RingHolds()
      ensures buff.contents == old(buff.contents)
    {
      var es := buff.contents;
      forall i | 0 <= i < |es|
        ensures HoldsLine(es[i], Window(log)[i])
      {
        assert old(HoldsLine(es[i], Window(log)[i]));
        assert es[i].buffptr in Buffers(es);
      }
    }

    /** The log is made of lines, and its stream is what was accepted. */
    lemma LogFacts()
      requires Valid()
      ensures AllLines(log.committed) && Stream(log) == accepted
    {
    }

    /** The ring has seen as many entries as commands were completed. */
    lemma EntriesCounted()
      requires Valid()
      ensures |buff.gone + buff.contents| == |log.committed|
    {
    }

    /** Nothing about the device depends on the lock or on open files. */
    twostate lemma ValidKept()
      requires old(Valid())
      requires unchanged(this) && unchanged(buff) && unchanged(buff.entry) && unchanged(mem)
      requires partialWriteBuff != null ==> unchanged(partialWriteBuff)
      requires forall b :: b in old(Buffers(buff.contents)) ==> unchanged(b)
      ensures Valid()
    {
      RingUntouched();
    }

    // ----- aesd_write

    /** Allocate the partial buffer, or make room for `count` more bytes. */
    method Grow(count: nat, ok: bool) returns (grown: bool)
      requires Valid()
      modifies this`partialWriteBuff, this`bytesStored, mem
      ensures Valid() && grown == ok
      ensures ok ==> partialWriteBuff != null && bytesStored + count <= partialWriteBuff.Length
      ensures ok ==> partialWriteBuff == old(partialWriteBuff) || fresh(partialWriteBuff)
      ensures !ok ==> partialWriteBuff == old(partialWriteBuff) && bytesStored == old(bytesStored)
      ensures !ok ==> mem.live == old(mem.live) && mem.freed == old(mem.freed)
    {
      if partialWriteBuff == null {
        grown := Allocate(count, ok);
      } else {
        grown := Reallocate(count, ok);
      }
    }

    method Allocate(count: nat, ok: bool) returns (grown: bool)
      requires Valid() && partialWriteBuff == null
      modifies this`partialWriteBuff, this`bytesStored, mem
      ensures Valid() && grown == ok
      ensures ok ==> partialWriteBuff != null && fresh(partialWriteBuff)
      ensures ok ==> bytesStored + count <= partialWriteBuff.Length
      ensures !ok ==> partialWriteBuff == null && bytesStored == old(bytesStored)
      ensures !ok ==> mem.live == old(mem.live) && mem.freed == old(mem.freed)
    {
      var p := mem.Kmalloc(count, ok);
      if p == null {
        RingUntouched();
        return false;
      }
      OwnsMoved(buff.contents, null, p, old(mem.live));
      partialWriteBuff := p;
      bytesStored := 0;
      RingUntouched();
      return true;
    }

    method Reallocate(count: nat, ok: bool) returns (grown: bool)
      requires Valid() && partialWriteBuff != null
      modifies this`partialWriteBuff, mem
      ensures Valid() && grown == ok
      ensures partialWriteBuff != null && (ok ==> bytesStored + count <= partialWriteBuff.Length)
      ensures partialWriteBuff == old(partialWriteBuff) || (ok && fresh(partialWriteBuff))
      ensures !ok ==> mem.live == old(mem.live) && mem.freed == old(mem.freed)
    {
      ghost var was := partialWriteBuff;
      var temp := mem.Krealloc(partialWriteBuff, bytesStored + count, ok);
      if temp == null {
        RingUntouched();
        return false;
      }
      OwnsMoved(buff.contents, was, temp, old(mem.live));
      if temp != was {
        FreedMore(buff.gone, old(mem.freed), was);
      }
      partialWriteBuff := temp;
      RingUntouched();
      return true;
    }

    /** `copy_from_user`: the first `copied` bytes arrive, and it fails unless that is all of them. */
    method CopyFromUser(bytes: seq<Byte>, copied: nat) returns (ok: bool)
      requires Valid() && partialWriteBuff != null
      requires bytesStored + |bytes| <= partialWriteBuff.Length
      modifies partialWriteBuff
      ensures Valid()
      ensures ok <==> |bytes| <= copied
      ensures ok ==> Starts(partialWriteBuff, log.partial + bytes)
    {
      var n := Min(copied, |bytes|);
      forall i | 0 <= i < n {
        partialWriteBuff[bytesStored + i] := bytes[i];
      }
      RingUntouched();
      ok := |bytes| <= copied;
    }

    /** A buffer of its own for the command at the front of the partial buffer. */
    method CopyCommand(length: nat, ok: bool) returns (command: array?<Byte>)
      requires Valid() && partialWriteBuff != null && length <= bytesStored
      modifies mem
      ensures !ok ==> command == null && Valid()
      ensures ok ==> command != null && fresh(command) && RingValid({command}) && PartialHolds(log.partial)
      ensures ok ==> command != partialWriteBuff && command !in Buffers(buff.contents)
      ensures ok ==> Starts(command, log.partial[..length])
    {
      command := mem.Kmalloc(length, ok);
      if command != null {
        forall i | 0 <= i < length {
          command[i] := partialWriteBuff[i];
        }
        assert mem.live - {command} == old(mem.live);
      }
      RingUntouched();
    }

    /** Add an entry and free the buffer it displaces; no buffer's bytes are written. */
    method Replace(e: Entry, ghost es: seq<Entry>, ghost ls: seq<seq<Byte>>)
      requires buff.Valid() && mem.Valid() && HoldLines(es, ls)
      requires buff.full ==> buff.contents != [] && buff.contents[0].buffptr != null
      requires buff.full ==> buff.contents[0].buffptr in mem.live
      modifies mem, buff, buff.entry
      ensures buff.Valid() && mem.Valid() && HoldLines(es, ls)
      ensures buff.contents == Slide(old(buff.contents), old(buff.full), e)
      ensures |buff.gone| + |buff.contents| == old(|buff.gone| + |buff.contents|) + 1
      ensures buff.gone == if old(buff.full) then old(buff.gone) + [old(buff.contents)[0]] else []
      ensures !old(buff.full) ==> mem.live == old(mem.live) && mem.freed == old(mem.freed)
      ensures old(buff.full) ==>
                var first := old(buff.contents)[0].buffptr;
                mem.live == old(mem.live) - {first} && mem.freed == old(mem.freed) + multiset{first}
    {
      var overwritten := buff.AddEntry(e);
      if overwritten != null {
        mem.Kfree(overwritten);
      }
    }

    /** Into the ring with a command; the buffer it displaces is freed. */
    method Push(command: array<Byte>, ghost line: seq<Byte>, length: nat)
      requires length == |line| && IsLine(line) && Starts(command, line)
      requires RingValid({command}) && command != partialWriteBuff && command !in Buffers(buff.contents)
      modifies mem, buff, buff.entry, this`log
      ensures RingValid({})
      ensures log == old(log).(committed := old(log).committed + [line])
    {
      hide HoldLines, Starts, Buffers, FreedOnce, Owns, Slide, LastTen, Shape;
      var e := Entry(command, length);
      RingAndLogAgree();
      ghost var es, ls := Slide(buff.contents, buff.full, e), Slide(Window(log), buff.full, line);
      PushStep(buff.contents, e, partialWriteBuff, mem.live - {command}, buff.gone, mem.freed,
               Window(log), line, buff.full);
      LastTenSlides(log.committed, line);
      Replace(e, es, ls);
      log := log.(committed := log.committed + [line]);
      assert old(mem.live) - {command} + {command} == old(mem.live);
      assert mem.live - {} == mem.live;
    }

    /** The ring is full exactly when ten commands have been completed. */
    lemma RingAndLogAgree()
      requires RingHolds()
      ensures buff.full <==> |log.committed| >= CAPACITY
      ensures buff.full ==> buff.contents != [] && Window(log) != []
    {
      buff.SlotsOfContents();
    }

    /** One turn of the framing loop: the command that ends at the newline at `k` moves to a buffer
        of its own and into the ring, and the rest of the partial buffer moves down. */
    method StoreCommand(k: nat, ok: bool) returns (stored: bool)
      requires Valid() && partialWriteBuff != null
      requires k == IndexOfNewline(log.partial) < |log.partial|
      modifies this`bytesStored, this`log, mem, buff, buff.entry, partialWriteBuff
      ensures Valid() && stored == ok
      ensures !ok ==> log == old(log) && bytesStored == old(bytesStored)
      ensures ok ==> log == Log(old(log).committed + [old(log).partial[..k + 1]], old(log).partial[k + 1..])
    {
      hide RingHolds, Owns, FreedOnce, Buffers, Flat;
      var length := k + 1;
      var command := CopyCommand(length, ok);
      if command == null {
        return false;
      }
      ghost var line, rest := log.partial[..length], log.partial[length..];
      Push(command, line, length);
      MoveDown(length, rest);
      StreamMoves(old(log), line, rest);
      return true;
    }

    lemma StreamMoves(was: Log, line: seq<Byte>, rest: seq<Byte>)
      requires was.partial == line + rest
      ensures Stream(Log(was.committed + [line], rest)) == Stream(was)
    {
      FlatAppend(was.committed, [line]);
      FlatOne(line);
      assert Flat(was.committed) + line + rest == Flat(was.committed) + (line + rest);
    }

    /** `memmove` the rest of the partial buffer to its front. */
    method MoveDown(length: nat, ghost rest: seq<Byte>)
      requires RingValid({}) && PartialHolds(log.partial)
      requires partialWriteBuff != null && length <= bytesStored && rest == log.partial[length..]
      modifies this`bytesStored, this`log, partialWriteBuff
      ensures RingValid({}) && PartialHolds(rest)
      ensures log == old(log).(partial := rest)
    {
      var remaining := bytesStored - length;
      forall i | 0 <= i < remaining {
        partialWriteBuff[i] := partialWriteBuff[length + i];
      }
      bytesStored := remaining;
      RingUntouched();
      log := log.(partial := rest);
    }

    /** The framing loop: command after command leaves the partial buffer until no newline is left
        or a command buffer cannot be had. */
    method Frame(commandBuffers: nat) returns (ok: bool)
      requires Valid() && partialWriteBuff != null
      modifies this`bytesStored, this`log, mem, buff, buff.entry, partialWriteBuff
      ensures Valid()
      ensures log == Commit(old(log), commandBuffers)
      ensures ok <==> |Lines(old(log).partial)| <= commandBuffers
    {
      hide Valid, Commit, Lines, IndexOfNewline;
      var left := commandBuffers;
      StoredBytes();
      var nextNewline := IndexOfNewline(partialWriteBuff[..bytesStored]);
      while nextNewline < bytesStored
        invariant Valid() && partialWriteBuff != null
        invariant nextNewline == IndexOfNewline(log.partial) && bytesStored == |log.partial|
        invariant Commit(log, left) == Commit(old(log), commandBuffers)
        invariant |Lines(log.partial)| - left == |Lines(old(log).partial)| - commandBuffers
        decreases bytesStored
      {
        LinesStep(log.partial);
        CommitStop(log, 0);
        if left > 0 {
          CommitStep(log, left);
        }
        var stored := StoreCommand(nextNewline, left > 0);
        if !stored {
          return false;
        }
        left := left - 1;
        StoredBytes();
        nextNewline := IndexOfNewline(partialWriteBuff[..bytesStored]);
      }
      LinesStep(log.partial);
      CommitStop(log, left);
      return true;
    }

    /** The stored bytes are the log's tail. */
    lemma StoredBytes()
      requires Valid() && partialWriteBuff != null
      ensures bytesStored == |log.partial| <= partialWriteBuff.Length
      ensures partialWriteBuff[..bytesStored] == log.partial
    {
    }

    method Write(filp: File, bytes: seq<Byte>, fate: WriteFate) returns (ret: int)
      requires Valid() && !buffLock.held
      modifies this, mem, buff, buff.entry, partialWriteBuff, buffLock, filp
      ensures Valid() && !buffLock.held
      ensures Outcome(log, filp.fPos, Reply(ret, [])) == Apply(old(log), old(filp.fPos), Call.Write(bytes, fate))
      ensures accepted == old(accepted) + if Accepts(bytes, fate) then bytes else []
      ensures partialWriteBuff != null <==> old(partialWriteBuff) != null || fate.bufferOk
      ensures partialWriteBuff != null ==> partialWriteBuff == old(partialWriteBuff) || fresh(partialWriteBuff)
    {
      hide Valid, Commit, Lines, Starts;
      buffLock.Lock();
      ValidKept();
      var ok := Grow(|bytes|, fate.bufferOk);
      label Grown:
      if !ok {
        buffLock.Unlock();
        ValidKept@Grown();
        return -1;
      }
      ok := CopyFromUser(bytes, fate.copied);
      label Copied:
      if !ok {
        buffLock.Unlock();
        ValidKept@Copied();
        return -1;
      }
      Accept(bytes);
      ok := Frame(fate.commandBuffers);
      label Framed:
      if !ok {
        buffLock.Unlock();
        ValidKept@Framed();
        return -1;
      }
      filp.fPos := filp.fPos + |bytes|;
      buffLock.Unlock();
      ValidKept@Framed();
      return |bytes|;
    }

    /** The copied bytes now count as stored. */
    method Accept(bytes: seq<Byte>)
      requires Valid() && partialWriteBuff != null && Starts(partialWriteBuff, log.partial + bytes)
      modifies this`bytesStored, this`log, this`accepted
      ensures Valid()
      ensures log == old(log).(partial := old(log).partial + bytes)
      ensures accepted == old(accepted) + bytes
    {
      bytesStored := bytesStored + |bytes|;
      log := log.(partial := log.partial + bytes);
      accepted := accepted + bytes;
      RingUntouched();
    }

    // ----- aesd_read

    /** The ring's entries and the log's window agree in size. */
    lemma SizesAgree()
      requires Valid()
      ensures buff.Valid()
      ensures EntrySizes(buff.contents) == WindowSizes(log)
      ensures |buff.contents| == |Window(log)|
    {
      assert forall i :: 0 <= i < |buff.contents| ==> HoldsLine(buff.contents[i], Window(log)[i]);
    }

    /** A slot in use points to live memory that holds its command. */
    lemma SlotInUse(c: nat)
      requires Valid() && c < |buff.contents|
      ensures buff.entry.Length == CAPACITY && |buff.contents| == |Window(log)|
      ensures buff.entry[buff.Slot(c)] == buff.contents[c]
      ensures var e := buff.contents[c];
              && e.buffptr != null && e.buffptr in mem.live
              && e.size == |Window(log)[c]| <= e.buffptr.Length
              && e.buffptr[..e.size] == Window(log)[c]
    {
      buff.SlotsOfContents();
      var e := buff.contents[c];
      assert HoldsLine(e, Window(log)[c]);
      assert e in buff.contents && e.buffptr in Buffers(buff.contents);
    }

    /** What the ring search finds is the contents' byte at that position; it finds nothing exactly at or
        past their end. */
    lemma FoundIsByte(pos: nat)
      requires Valid()
      ensures buff.entry.Length == CAPACITY
      ensures match buff.Found(pos)
              case None => |Contents(log)| <= pos
              case Some((slot, offset)) =>
                && slot < CAPACITY && pos < |Contents(log)|
                && buff.entry[slot].buffptr != null && buff.entry[slot].buffptr in mem.live
                && offset < buff.entry[slot].size <= buff.entry[slot].buffptr.Length
                && buff.entry[slot].buffptr[offset] == Contents(log)[pos]
    {
      hide Valid, Locate, Sum, Flat;
      var ls := Window(log);
      SizesAgree();
      SlotCount();
      FlatLength(ls);
      LocateSound(Sizes(ls), pos);
      if Locate(Sizes(ls), pos).Some? {
        var p := Locate(Sizes(ls), pos).value;
        SlotInUse(p.cmd);
        FlatSlice(ls, p, 1);
        assert buff.entry[buff.Slot(p.cmd)].buffptr[..|ls[p.cmd]|][p.offset] == ls[p.cmd][p.offset];
        assert Contents(log)[pos..][..1][0] == ls[p.cmd][p.offset..p.offset + 1][0];
      }
    }

    /** At the position an accepted seek leaves, the ring search finds the slot `write_cmd` slots after
        the oldest, and the sought offset in it. */
    lemma SeekIsFound(writeCmd: Uint32, writeCmdOffset: Uint32)
      requires Valid() && Accepted(log, writeCmd, writeCmdOffset)
      ensures buff.Found(SeekPosition(log, writeCmd, writeCmdOffset))
           == Some((Wrap(buff.outOffs + writeCmd), writeCmdOffset))
    {
      SizesAgree();
      FindUndoesSeek(log, writeCmd, writeCmdOffset);
    }

    method Read(filp: File, count: nat, copyOk: bool) returns (ret: int, data: seq<Byte>)
      requires Valid() && !buffLock.held
      modifies buffLock, filp
      ensures Valid() && !buffLock.held
      ensures Outcome(log, filp.fPos, Reply(ret, data)) == Apply(log, old(filp.fPos), Call.Read(count, copyOk))
    {
      hide Valid, ReadAt, Locate, Sum, Shape, LastTen, CircularBuffer.IsAt;
      ReadAtPlace(Window(log), filp.fPos, count);
      SizesAgree();
      LocateSound(WindowSizes(log), filp.fPos);
      ghost var place := Locate(WindowSizes(log), filp.fPos);
      if place.Some? {
        SlotInUse(place.value.cmd);
      }
      buffLock.Lock();
      var found := buff.FindEntryOffsetForFpos(filp.fPos);
      if found == None {
        buffLock.Unlock();
        ValidKept();
        return 0, [];
      }
      var (slot, offset) := found.value;
      var readEntry := buff.entry[slot];
      var totalBytes := readEntry.size - offset;
      var copyBytes := if count < totalBytes then count else totalBytes;
      if !copyOk {
        buffLock.Unlock();
        ValidKept();
        return -1, [];
      }
      assert readEntry.buffptr in mem.live;
      data := readEntry.buffptr[offset..offset + copyBytes];
      filp.fPos := filp.fPos + copyBytes;
      buffLock.Unlock();
      ValidKept();
      ret := copyBytes;
    }

    // ----- aesd_ioctl

    method Ioctl(filp: File, cmd: Uint32, argOk: bool, writeCmd: Uint32, writeCmdOffset: Uint32) returns (ret: int)
      requires Valid() && !buffLock.held
      modifies buffLock, filp
      ensures Valid() && !buffLock.held
      ensures Outcome(log, filp.fPos, Reply(ret, []))
           == Apply(log, old(filp.fPos), Call.Ioctl(cmd, argOk, writeCmd, writeCmdOffset))
    {
      hide Valid, Sum, Shape, LastTen;
      if cmd != IOCSEEKTO {
        return -1;
      }
      if !argOk {
        return -1;
      }
      SizesAgree();
      ghost var sizes := WindowSizes(log);
      buffLock.Lock();
      ValidKept();
      var entryCount := CountEntries();
      if writeCmd >= entryCount {
        buffLock.Unlock();
        ValidKept();
        return -1;
      }
      SlotInUse(writeCmd);
      var startingIndex := Wrap(buff.outOffs + writeCmd);
      if writeCmdOffset >= buff.entry[startingIndex].size {
        buffLock.Unlock();
        ValidKept();
        return -1;
      }
      var retoffset := SumBefore(writeCmd);
      filp.fPos := retoffset + writeCmdOffset;
      buffLock.Unlock();
      ValidKept();
      ret := 0;
    }

    /** The number of slots in use. */
    method CountEntries() returns (entryCount: nat)
      requires Valid()
      ensures entryCount == |buff.contents|
    {
      buff.SlotsOfContents();
      entryCount := 0;
      for i := 0 to CAPACITY
        invariant entryCount == Min(i, |buff.contents|)
      {
        buff.SlotHolds(i);
        if i < |buff.contents| {
          SlotInUse(Age(buff.outOffs, i));
        }
        if buff.entry[i].buffptr != null {
          entryCount := entryCount + 1;
        }
      }
    }

    /** The bytes in front of the `targetCmd`-th oldest command. */
    method SumBefore(targetCmd: nat) returns (retoffset: nat)
      requires Valid() && targetCmd <= |buff.contents|
      ensures retoffset == Sum(EntrySizes(buff.contents)[..targetCmd])
    {
      var currentIndex := buff.outOffs;
      retoffset := 0;
      for i := 0 to targetCmd
        invariant currentIndex == buff.Slot(i)
        invariant retoffset == Sum(EntrySizes(buff.contents)[..i])
      {
        SlotInUse(i);
        SumNext(EntrySizes(buff.contents), i);
        WrapAdd(buff.outOffs + i, 1);
        retoffset := retoffset + buff.entry[currentIndex].size;
        currentIndex := Wrap(currentIndex + 1);
      }
    }

    // ----- aesd_llseek

    method Llseek(filp: File, offset: int, whence: int) returns (retpos: int)
      requires Valid() && !buffLock.held
      modifies buffLock, filp
      ensures Valid() && !buffLock.held
      ensures Outcome(log, filp.fPos, Reply(retpos, [])) == Apply(log, old(filp.fPos), Call.Llseek(offset, whence))
    {
      hide Valid;
      SizesAgree();
      buffLock.Lock();
      ValidKept();
      var totalSize := SumSlots();
      buffLock.Unlock();
      retpos := FixedSizeLlseek(filp.fPos, offset, whence, totalSize);
      if retpos >= 0 {
        filp.fPos := retpos;
      }
      ValidKept();
    }

    /** The bytes in all slots, in whatever order the slots are. */
    method SumSlots() returns (totalSize: nat)
      requires Valid()
      ensures totalSize == Sum(EntrySizes(buff.contents))
    {
      buff.PhysicalSum();
      totalSize := 0;
      ghost var sizes := EntrySizes(buff.entry[..]);
      for i := 0 to CAPACITY
        invariant totalSize == Sum(sizes[..i])
      {
        SumNext(sizes, i);
        buff.SlotHolds(i);
        if i < |buff.contents| {
          SlotInUse(Age(buff.outOffs, i));
        }
        if buff.entry[i].buffptr != null {
          totalSize := totalSize + buff.entry[i].size;
        }
      }
      assert sizes[..CAPACITY] == sizes;
    }

    // ----- aesd_cleanup_module

    /** Physical slot `i` is in use exactly if it is among the first `|contents|`; it then holds a live
        buffer of an entry of the ring. */
    lemma SlotOwns(i: nat)
      requires Valid() && i < CAPACITY
      ensures buff.entry.Length == CAPACITY
      ensures i >= |buff.contents| ==> buff.entry[i].buffptr == null
      ensures i < |buff.contents| ==>
                && buff.outOffs < CAPACITY && Age(buff.outOffs, i) < |buff.contents|
                && buff.Slot(Age(buff.outOffs, i)) == i
                && buff.entry[i] == buff.contents[Age(buff.outOffs, i)] && buff.entry[i] in buff.contents
                && buff.entry[i].buffptr != null && buff.entry[i].buffptr in mem.live
    {
      buff.SlotHolds(i);
      if i < |buff.contents| {
        SlotInUse(Age(buff.outOffs, i));
      }
    }

    lemma SlotsDistinct(i: nat, j: nat)
      requires Valid() && i < j < |buff.contents| <= CAPACITY == buff.entry.Length
      ensures buff.entry[i].buffptr != buff.entry[j].buffptr
    {
      hide Valid;
      SlotOwns(i);
      SlotOwns(j);
      EntriesDistinct(Age(buff.outOffs, i), Age(buff.outOffs, j));
    }

    lemma EntriesDistinct(a: nat, b: nat)
      requires Valid() && a < |buff.contents| && b < |buff.contents| && a != b
      ensures buff.contents[a].buffptr != buff.contents[b].buffptr
    {
      assert buff.contents[if a < b then a else b].buffptr != buff.contents[if a < b then b else a].buffptr;
    }

    /** The occupied slots own distinct buffers, together those of the entries held. */
    lemma SlotsOwnBuffers()
      requires Valid()
      ensures buff.entry.Length == CAPACITY && |buff.contents| <= CAPACITY
      ensures forall i :: |buff.contents| <= i < CAPACITY ==> buff.entry[i].buffptr == null
      ensures forall i :: 0 <= i < |buff.contents| ==>
                buff.entry[i].buffptr != null && buff.entry[i].buffptr in mem.live
      ensures forall i, j :: 0 <= i < j < |buff.contents| ==> buff.entry[i].buffptr != buff.entry[j].buffptr
      ensures Buffers(buff.entry[..]) == Buffers(buff.contents)
    {
      hide Valid, Shape;
      SlotCount();
      forall i | 0 <= i < CAPACITY
        ensures i < |buff.contents| ==> buff.entry[i] in buff.contents
        ensures i < |buff.contents| ==> buff.entry[i].buffptr != null && buff.entry[i].buffptr in mem.live
        ensures i >= |buff.contents| ==> buff.entry[i].buffptr == null
      {
        SlotOwns(i);
      }
      forall i, j | 0 <= i < j < |buff.contents|
        ensures buff.entry[i].buffptr != buff.entry[j].buffptr
      {
        SlotsDistinct(i, j);
      }
      forall e | e in buff.contents
        ensures e in buff.entry[..]
      {
        var c :| 0 <= c < |buff.contents| && buff.contents[c] == e;
        SlotInUse(c);
        assert buff.entry[..][buff.Slot(c)] == e;
      }
    }

    lemma SlotCount()
      requires Valid()
      ensures buff.entry.Length == CAPACITY && |buff.contents| <= CAPACITY
    {
      buff.SlotsOfContents();
    }

    /** Who owns what, spelled out. */
    lemma OwnershipFacts()
      requires Valid()
      ensures mem.Valid() && FreedOnce(buff.gone, mem.freed)
      ensures mem.live == Buffers(buff.contents) + if partialWriteBuff == null then {} else {partialWriteBuff}
      ensures partialWriteBuff != null ==> partialWriteBuff !in Buffers(buff.contents)
      ensures forall e :: e in buff.contents ==> e.buffptr != null
    {
    }

    /** Unloading frees every slot's buffer, each once.  What stays allocated is exactly the partial
        buffer, so unloading leaks nothing if and only if no write ever got as far as allocating it. */
    method Cleanup()
      requires Valid()
      modifies mem
      ensures mem.Valid()
      ensures mem.live == if partialWriteBuff == null then {} else {partialWriteBuff}
      ensures FreedOnce(buff.gone + buff.contents, mem.freed)
    {
      hide Valid, Owns, Buffers;
      OwnershipFacts();
      SlotsOwnBuffers();
      ghost var es := buff.entry[..];
      assert es[..0] == [] && es[..CAPACITY] == es;
      BuffersNone();
      for i := 0 to CAPACITY
        invariant mem.Valid()
        invariant mem.live == old(mem.live) - Buffers(es[..i])
        invariant FreedOnce(buff.gone, mem.freed)
        invariant forall j :: 0 <= j < Min(i, |buff.contents|) ==> mem.freed[es[j].buffptr] == 1
      {
        BuffersNext(es, i, |buff.contents|);
        if buff.entry[i].buffptr != null {
          FreedMore(buff.gone, mem.freed, buff.entry[i].buffptr);
          mem.Kfree(buff.entry[i].buffptr);
        }
      }
      forall e | e in buff.contents
        ensures e.buffptr != null && mem.freed[e.buffptr] == 1
      {
        var i := BufferSlot(es, buff.contents, e);
      }
    }
  }
}
