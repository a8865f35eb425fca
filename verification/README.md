# Verified model of the aesdchar driver and its server

A Dafny model of the character device in `aesd-char-driver/` and of the parts of the socket server in
`server/` that depend on it or that manage its threads.

The device takes bytes, cuts them after each newline into commands, keeps the last ten complete commands
and an unfinished tail, and lets readers see the commands as one flat byte stream or seek by (command,
offset). The code does this with a ten-slot ring with wrapping indices and a `full` flag, a partial
buffer that is reallocated and moved down in place, one heap buffer per command, and an early return on
every allocation or copy failure. The model has two levels:

- **Memory level**, in the form of the source: `CircularBuffer.dfy` (the ring), `KernelHeap.dfy` (the
  allocator, with what is live and what was freed), `CharDevice.dfy` (write, read, ioctl, llseek, unload),
  `Connection.dfy` (the server's reply loops), `TailQueue.dfy`, `DoublyLinkedList.dfy`,
  `SingleTailQueue.dfy` and `ThreadList.dfy` (the `queue.h` macros and the reap loops, on the sequences of
  `Sequences.dfy`), `DeviceRuns.dfy` (a device loaded, called any number of times and unloaded). Classes
  with mutable fields and arrays; loops where the source has loops.
- **Specification level**: `Framing.dfy` (lines and tail of a stream), `Positions.dfy` (the two addressing
  schemes), `Rings.dfy` (the ring discipline on values), `DeviceLog.dfy` (each driver call as a function on
  a log of commands), `CallLaws.dfy` (what each call does, in bytes of the contents and of the stream),
  `Runs.dfy` (what holds after every run), `SlotState.dfy` and `CallSteps.dfy` (the ten slots as values,
  and each call as steps on them), `Interleaving.dfy` (callers interleaved step by step),
  `ThreadProtocol.dfy` (main and its workers interleaved step by step), `ReapPass.dfy` (what one pass over
  the list does meanwhile), `Shutdown.dfy` (that the server stops).

Every method of the device is proved to compute its specification function on the log its memory stands
for, so that what `Runs.dfy` proves of all runs is about that code. `DeviceSteps.dfy` ties the same methods
to the steps of `CallSteps.dfy`, slot for slot, so that what `Interleaving.dfy` proves is about it too.
`Device.Valid` also keeps, after every call: conservation (the log's stream is exactly the bytes that
passed `copy_from_user`), ownership (live memory is exactly the distinct slot buffers and the partial
buffer), and that every buffer that left the ring was freed exactly once.

What the environment decides is a parameter: whether the partial buffer can be allocated, how many bytes
a copy brings over before it faults, how many command buffers can be had, which reads and sends fail, what
a check of `is_done` finds, and in which order threads step. Results hold for all of them. A write returns
at its first failure, so a count of allocations that succeed first covers every pattern of failures.

Findings stated as theorems:

- A write that returns -1 may have accepted its bytes and completed commands. After a run the tail holds no
  newline, and the device has caught up with its input, if and only if the last write whose bytes were
  accepted had a command buffer for every line, or there was none (`TailCleanIff`, `CaughtUpIff`). Another
  run with the same accepted bytes then leaves the same log exactly if its own last accepted write succeeded
  too (`IndependenceIff`, `FailedWriteBreaksIndependence`); any two runs with the same accepted bytes differ
  in nothing but how many lines are completed (`SameBytesDifferInCount`).
- Unloading frees the slot buffers and not the partial buffer: it leaves nothing allocated if and only if
  no write of the run got as far as allocating the partial buffer (`LoadRunUnload`).
- `write_cmd_offset` has 32 bits. While no command is longer than 4 GiB every readable byte is reached by
  exactly one accepted seek (`SeekReachesAll`). A longer command, which only the model's allocator without
  a largest size can hold, has bytes that can be read but not sought (`LongCommandOutOfReach`).
- The comment at `aesd-char-driver/aesd-circular-buffer.c:73` says the overwritten entry is freed there;
  the code returns its buffer and leaves freeing to the caller, and the model follows the code.

## Model

| member | source | states |
|---|---|---|
| `Framing.SplitConserves` | aesd-char-driver/main.c:260-295 | Cutting a byte stream after each newline loses nothing, yields proper lines only, and leaves a newline-free tail |
| `Framing.SplitUnique` | aesd-char-driver/main.c:260-295 | There is no other way to read a stream as complete lines and a newline-free tail, so the cut does not depend on how it is computed |
| `Framing.SplitAppend` | aesd-char-driver/main.c:229-295 | The cut can be made piece by piece with only the tail carried over, which is what makes writes independent of chunking |
| `DeviceLog.CommitStep` | aesd-char-driver/main.c:262-295 | One turn of the framing loop, then the rest of the loop, commits what the loop as a whole commits |
| `DeviceLog.CommitKeepsStream` | aesd-char-driver/main.c:262-295 | However many command buffers can be had, committing lines neither loses nor reorders a byte, and with enough of them no newline is left behind |
| `DeviceLog.CommitCleanIff` | aesd-char-driver/main.c:262-295 | The framing loop leaves no newline behind if and only if there is a command buffer for every line |
| `DeviceLog.WriteKeepsStream` | aesd-char-driver/main.c:227-303 | A write adds exactly the bytes it accepted to the stream, also when it fails after accepting them; completed commands stay completed |
| `DeviceLog.CaughtUp` | aesd-char-driver/main.c:262-295 | A log whose tail has no newline is the lines and tail of its stream, and what can be read is the last ten lines |
| `Positions.LocateSound` | aesd-char-driver/aesd-circular-buffer.c:34-58 | A flat position is nowhere exactly when it is at or past the total size; otherwise it names a stored byte whose position it is |
| `Positions.LocatePosition` | aesd-char-driver/main.c:108-128 | Locating the position of a stored (command, offset) pair gives back that pair |
| `Positions.PositionBijective` | aesd-char-driver/main.c:108-128 | Positions below the total and stored pairs correspond one to one |
| `Positions.SumRotation` | aesd-char-driver/main.c:46-50 | The total size does not depend on the slot the oldest command is in |
| `Positions.FlatSlice` | aesd-char-driver/main.c:189-199 | Part of a command is the same part of the concatenated contents, found at its flat position |
| `CircularBuffers.CircularBuffer.Init` | aesd-char-driver/aesd-circular-buffer.c:93-96 | Zeroing the struct leaves the ring with nothing held and nothing gone |
| `CircularBuffers.CircularBuffer.AddEntry` | aesd-char-driver/aesd-circular-buffer.c:68-88 | The contents slide by one: the new entry is newest; a full ring lets go of its oldest entry and returns that entry's buffer, any other ring returns NULL |
| `CircularBuffers.CircularBuffer.ClosedForm` | aesd-char-driver/aesd-circular-buffer.c:68-96 | After n adds: in_offs is n mod 10, out_offs is max(0, n-10) mod 10, full iff n >= 10, the ring holds the last ten added, entry j in slot j mod 10, and unused slots are zero |
| `CircularBuffers.CircularBuffer.FindEntryOffsetForFpos` | aesd-char-driver/aesd-circular-buffer.c:30-59 | The search returns NULL exactly at or past the total size, the never-written ring included; otherwise the slot and in-slot offset that, with the entries in front, add up to the position |
| `CharDevice.Device.FoundIsByte` | aesd-char-driver/main.c:178-196 | What the search finds is, in memory, the contents' byte at that position |
| `CircularBuffers.CircularBuffer.SlotHolds` | aesd-char-driver/aesd-circular-buffer.c:68-88 | The occupied physical slots are the first ones, each with the entry of its age; the others are zero |
| `CircularBuffers.CircularBuffer.PhysicalSum` | aesd-char-driver/main.c:46-50 | Summing sizes over physical slots gives the size of the logical contents for every rotation |
| `DeviceLog.ReadAtSlice` | aesd-char-driver/main.c:178-196 | A read delivers the contents from its position on, at most what was asked for, and nothing exactly when asked for nothing or at or past the end |
| `CallLaws.LinesCounted` | aesd-char-driver/main.c:260-295 | A byte stream has as many complete lines as newlines |
| `CallLaws.WriteLaw` | aesd-char-driver/main.c:227-303 | A write takes all its bytes or none, completes as many lines as there are newlines and command buffers for, and returns its length and moves the position by it exactly if it took the bytes and completed every line; otherwise -1, position unchanged |
| `CallLaws.LogDetermined` | aesd-char-driver/main.c:262-295 | The stream and the number of completed lines determine the log, so the write law leaves no choice |
| `CallLaws.ReadLaw` | aesd-char-driver/main.c:178-209 | A read delivers the contents from its position up to the first newline, that one included, or as many bytes as asked for, whichever is less, and moves by that; 0 exactly at or past the end or when asked for nothing, -1 exactly if what is there cannot be copied out |
| `CallLaws.SeekLaw` | aesd-char-driver/main.c:67-133 | An accepted seek lands on the byte it names, which is stored; any other returns -1 and leaves the position |
| `CallLaws.LlseekLaw` | aesd-char-driver/main.c:34-62 | SEEK_SET, SEEK_CUR and SEEK_END land on their target within the contents and refuse exactly the targets outside; a refused call leaves the position, and SEEK_CUR with 0 always returns it |
| `CallLaws.SeekEndIsLeastEmpty` | aesd-char-driver/main.c:46-56 | The call with SEEK_END and offset 0 returns, and lands on, the least position at which a read of a positive size returns 0 |
| `CallLaws.FailureLeaves` | aesd-char-driver/main.c:67-299 | A call that fails leaves the position, and the log too unless it is a write that had taken its bytes |
| `CallLaws.PositionIsGains` | aesd-char-driver/main.c:196-297 | A file that is only read and written has moved by exactly the sum of its positive returns, whatever failed and whatever others did |
| `CallLaws.WritesNotReadBack` | server/aesdsocket.c:141-161 | After successful writes through a file that was at the end of the stream, a read through it finds nothing, whatever was evicted |
| `DeviceLog.StreamSplit` | aesd-char-driver/main.c:178-209 | The stream is what was evicted, then what can be read, then the tail |
| `Runs.RunLogApplies` | aesd-char-driver/main.c:160-304 | The run specification and the single-call specification agree on the log |
| `Runs.RunConserves` | aesd-char-driver/main.c:229-304 | Over every run with any failures: evicted commands, readable commands and tail together are exactly the accepted bytes, in order, and every command is a line |
| `Runs.ContentsRoundTrip` | aesd-char-driver/main.c:260-295 | In every reachable state, after a mid-loop failure too, cutting the readable bytes at newlines gives back the stored commands one for one |
| `Runs.RunIsPrefix` | aesd-char-driver/main.c:262-295 | The log is always a front of the accepted bytes' lines, and has caught up with all of them if and only if the tail holds no newline |
| `Runs.TailCleanIff` | aesd-char-driver/main.c:262-295 | After a run the tail holds no newline if and only if the last write whose bytes were accepted had a command buffer for every line, or no write's bytes were accepted |
| `Runs.CaughtUpIff` | aesd-char-driver/main.c:256-303 | On exactly those runs the device holds the lines and the newline-free tail of all accepted bytes, and the last ten of those lines can be read |
| `Runs.ChunkingAndFailureIndependence` | aesd-char-driver/main.c:256-295 | Two runs that accepted the same bytes, and in each of which the last accepted write succeeded, leave the same commands and the same tail, however the bytes were cut and whatever failed before or after |
| `Runs.IndependenceIff` | aesd-char-driver/main.c:256-295 | A run that accepted the same bytes as one whose last accepted write succeeded leaves the same log if and only if its own did |
| `Runs.SameBytesDifferInCount` | aesd-char-driver/main.c:262-295 | Whatever failed in either run, the same accepted bytes give logs that differ in nothing but how many lines are completed yet |
| `Runs.FailedWriteBreaksIndependence` | aesd-char-driver/main.c:273-277 | When the last accepted write failed this is false: one accepted newline, with and without a command buffer, leaves different commands |
| `Runs.LineWriteSlides` | aesd-char-driver/main.c:262-295 | A successful write of one line to a device that has caught up completes one command, the old tail in front, and slides the window by one |
| `Runs.ReadFollowsStream` | aesd-char-driver/main.c:178-209 | Every read delivers the stream of completed commands from evicted bytes plus position on |
| `Runs.ReaderTrace` | aesd-char-driver/main.c:178-209 | Among any calls of others, what a reader gets are slices of the committed stream, each starting where the last one ended plus exactly the bytes evicted in between; its position advances by exactly the bytes it got |
| `Runs.PiecesDoNotOverlap` | aesd-char-driver/main.c:178-209 | No byte of the stream is delivered to a reader twice: later slices lie further on |
| `Runs.DrainDelivers` | server/aesdsocket.c:141-146 | Reads of any positive sizes deliver the contents from the position on without gaps, and as many reads as there are bytes deliver all of them |
| `Runs.SeekThenDrain` | aesd-char-driver/main.c:101-128 | After an accepted seek, reading until nothing is left yields the rest of the chosen command and every later one |
| `Runs.FindUndoesSeek` | aesd-char-driver/main.c:94-128 | A seek is accepted exactly for a stored pair, and the ring search at the resulting position gives back that pair |
| `CharDevice.Device.SeekIsFound` | aesd-char-driver/main.c:101-128 | At the position an accepted seek leaves, the ring search finds slot (out_offs + write_cmd) mod 10 and that offset |
| `Runs.AcceptedSeeksAreDistinct` | aesd-char-driver/main.c:94-128 | No two accepted seeks reach the same position |
| `Runs.SeekReaches` | aesd-char-driver/main.c:101-128 | A position is reached by some accepted seek if and only if it is below the total and its offset within its command fits the 32-bit write_cmd_offset |
| `Runs.SeekReachesAll` | aesd-char-driver/aesd_ioctl.h:25-34 | If no stored command is longer than 4 GiB, the positions below the total are exactly those reached by an accepted seek, each by one pair only |
| `Runs.LongCommandOutOfReach` | aesd-char-driver/aesd_ioctl.h:25-34 | Without that condition, and with an allocator that has no largest size, one write of a longer line leaves a byte that can be read but not sought |
| `KernelHeaps.KernelHeap.Kmalloc` | aesd-char-driver/main.c:231-236 | Assumed contract: fresh memory of at least the size asked for, or NULL |
| `KernelHeaps.KernelHeap.Krealloc` | aesd-char-driver/main.c:240-247 | Assumed contract: the old bytes in memory of at least the size asked for, moved or not; NULL leaves the old memory alone |
| `KernelHeaps.KernelHeap.Kfree` | aesd-char-driver/main.c:284-287 | Only live memory may be freed, so nothing is freed twice |
| `CharDevice.Device.constructor` | aesd-char-driver/main.c:343-349 | A loaded device is valid: empty ring, no partial buffer, lock free |
| `CharDevice.Device.Write` | aesd-char-driver/main.c:214-304 | The whole write computes the write specification on the device's memory for every pattern of failures, keeps ownership, contents and conservation, and gives the lock back on every return; afterwards there is a partial buffer exactly if there was one or it could be allocated |
| `CharDevice.Device.Grow` | aesd-char-driver/main.c:229-248 | The partial buffer has room for the stored bytes and the new ones, also when krealloc asks for less than an earlier capacity; failure changes neither the buffer, nor what is stored, nor what is live or freed |
| `CharDevice.Device.CopyFromUser` | aesd-char-driver/main.c:250-255 | The copied bytes follow the stored ones; a copy that faults half-way leaves the stored bytes as they were |
| `CharDevice.Device.CopyCommand` | aesd-char-driver/main.c:271-278 | The command at the front is copied to a buffer of its own, live and not yet owned by a slot |
| `CharDevice.Device.Push` | aesd-char-driver/main.c:280-287 | Ring, owners and freed buffers move on together: the new buffer belongs to its slot, the displaced one is freed once and owned by nobody |
| `CharDevice.Device.MoveDown` | aesd-char-driver/main.c:289-291 | The overlapping move leaves exactly the rest of the stored bytes at the front |
| `CharDevice.Device.StoreCommand` | aesd-char-driver/main.c:262-295 | One turn of the loop moves the first line of the partial buffer to the log and keeps everything the device owns and holds; without a buffer it changes nothing |
| `CharDevice.Device.Frame` | aesd-char-driver/main.c:260-295 | The loop over memory commits as many lines as there are buffers for, succeeds iff there are enough, and terminates with bytes_stored as measure |
| `CharDevice.Device.Read` | aesd-char-driver/main.c:160-212 | The read computes the read specification from live memory only, and gives the lock back on every return |
| `CharDevice.Device.Ioctl` | aesd-char-driver/main.c:67-133 | The ioctl moves the position to the pair's flat position exactly when command, argument and pair are good, otherwise returns -1 with nothing changed, lock given back |
| `CharDevice.Device.CountEntries` | aesd-char-driver/main.c:94-99 | Counting non-null slots gives the number of commands held |
| `CharDevice.Device.SumBefore` | aesd-char-driver/main.c:116-123 | The wrapping walk from out_offs sums the sizes of the commands in front of the target |
| `CharDevice.Device.Llseek` | aesd-char-driver/main.c:34-62 | llseek works on a snapshot of the total taken under the lock |
| `CharDevice.Device.SumSlots` | aesd-char-driver/main.c:46-50 | The loop over physical slots computes the size of the logical contents |
| `CharDevice.Device.Cleanup` | aesd-char-driver/main.c:366-371 | Unloading frees every slot's buffer once; what stays allocated is exactly the partial buffer, if there is one |
| `DeviceRuns.Perform` | aesd-char-driver/main.c:306-313 | Each call on the device does to log, position and reply what its specification says, whichever call it is |
| `DeviceRuns.LoadRunUnload` | aesd-char-driver/main.c:343-379 | Over every run, failures included, the device ends with the log and accepted bytes of the run; after unloading every command's buffer was freed exactly once, and something stays allocated, at most one buffer, exactly if some write could allocate the partial buffer |
| `DeviceSteps.MemoryRepresents` | aesd-char-driver/main.c:220-299 | A valid device's ten slots, indices, flag and stored bytes are those that stand for its log in the step model |
| `DeviceSteps.RepresentsUnique` | aesd-char-driver/aesd-circular-buffer.c:68-88 | The log determines them: slots, indices, flag and partial bytes |
| `DeviceSteps.AloneFinishes` | aesd-char-driver/main.c:92-131 | The steps of a call, run without interruption, end with the reply, position and slots of the call's specification |
| `DeviceSteps.PerformIsSteps` | aesd-char-driver/main.c:67-304 | Every call that takes the lock leaves slots, indices, flag, stored bytes, position and reply exactly as its steps do |
| `Rings.SlotHolds` | aesd-char-driver/aesd-circular-buffer.c:68-88 | In a ring of any kind of entry each physical slot holds the entry of its age or is empty |
| `Rings.ShapeAdd` | aesd-char-driver/aesd-circular-buffer.c:68-88 | Adding to such a ring slides its contents by one; in a full ring the slot at out_offs held the oldest entry |
| `Rings.ScanStep` | aesd-char-driver/aesd-circular-buffer.c:40-57 | One turn of the search settles that the byte is in this slot, or nowhere, or keeps what the search has established |
| `Rings.PhysicalSum` | aesd-char-driver/main.c:46-50 | Summing sizes over physical slots gives the sum over the entries held |
| `SlotState.CommitRepresents` | aesd-char-driver/main.c:280-291 | Adding a command to the ten slots and taking it off the partial buffer completes it in the log |
| `CallSteps.TurnKeepsFinish` | aesd-char-driver/main.c:92-131 | No step of a call, on the slots, changes what the call will do in the end; the last does what was left; and the lock is given back by exactly the steps that return, or in an llseek by the one before |
| `Interleaving.Linearizable` | aesd-char-driver/main.c:44-56 | In every interleaving of any number of callers stepping through the slots, replies, slots, partial buffer and positions are those of the calls run one by one in lock order, and the lock is held exactly inside critical parts |
| `Interleaving.OrderRespectsRealTime` | aesd-char-driver/main.c:92-131 | The order only grows and replies never change, so a call that returned before another was made is ordered before it |
| `Interleaving.LockComesFree` | aesd-char-driver/main.c:227-299 | Whoever holds the lock gives it back within a bounded number of its own steps, whatever state it is in |
| `Interleaving.RunningReturns` | aesd-char-driver/main.c:44-56 | From every reachable state a running call's own steps, a bounded number, bring it to its return with its reply recorded and the lock given back, moving nobody else |
| `Interleaving.WaitingCallReturns` | aesd-char-driver/main.c:92-131 | From every reachable state a waiting call returns after bounded steps of the lock's holder, none if the lock is free, and of its own: it is next in the order and replies what it returns after the calls before it |
| `Interleaving.EveryCallReturns` | aesd-char-driver/main.c:175-211 | Every call that is made can be run to that return, whatever everybody else is in the middle of |
| `Connection.SendRest` | server/aesdsocket.c:141-150 | The read-and-send loop sends exactly what reads of 512 bytes deliver until the first read or send fails, a front of what there is to read; its last read returns 0 exactly if that is all of it, and without failures it does |
| `Connection.ReplyToPacket` | server/aesdsocket.c:158-197 | After a successful packet write the reply is the last ten complete lines of everything ever accepted, the packet included, or exactly the reads of it that could be made and sent before one failed; after a failed write nothing is sent |
| `Connection.ReplyToSeek` | server/aesdsocket.c:130-155 | After an accepted seek the reply is the rest of the chosen command and every later one, or exactly the reads of it that could be made and sent before one failed; after a refused one nothing is sent |
| `Sequences.InsertWithout` | server/queue.h:696-768 | Inserting an element and removing it at the same place undo each other, both ways |
| `TailQueue.Head.InsertHead` | server/queue.h:721-732 | Puts the element first; links, back links and end stay well formed |
| `TailQueue.Head.InsertTail` | server/queue.h:734-742 | Puts the element last, through the address of the final link |
| `TailQueue.Head.InsertAfter` | server/queue.h:696-709 | Puts the element right after the given one, wherever that is |
| `TailQueue.Head.InsertBefore` | server/queue.h:711-719 | Puts the element right before the given one without knowing the head |
| `TailQueue.Head.Remove` | server/queue.h:752-768 | Takes out exactly the given element, which keeps its own links |
| `TailQueue.Head.Concat` | server/queue.h:635-644 | Appends the second list's elements in order and empties the second list |
| `TailQueue.Head.Swap` | server/queue.h:770-785 | Exchanges the two lists, empty ones and a list with itself included |
| `TailQueue.Head.Last` | server/queue.h:744-745 | The cast through the word behind the final link finds the last element, or NULL |
| `TailQueue.Head.Prev` | server/queue.h:749-750 | The cast through the word behind an element's link finds the element before it, or NULL |
| `TailQueue.Head.ForeachReverse` | server/queue.h:670-673 | The backward loop visits every element once, last to first |
| `DoublyLinkedList.Head.InsertHead` | server/queue.h:529-535 | Puts the element first; links and back links stay well formed |
| `DoublyLinkedList.Head.InsertAfter` | server/queue.h:512-519 | Puts the element right after the given one |
| `DoublyLinkedList.Head.InsertBefore` | server/queue.h:521-527 | Puts the element right before the given one without knowing the head |
| `DoublyLinkedList.Head.Remove` | server/queue.h:544-555 | Takes out exactly the given element, which keeps its own links |
| `DoublyLinkedList.Head.Concat` | server/queue.h:467-482 | Walks to the end of the first list, appends the second in order and empties it |
| `DoublyLinkedList.Head.Swap` | server/queue.h:557-565 | Exchanges the two lists, with every first back link pointing to its new head |
| `DoublyLinkedList.Head.Prev` | server/queue.h:539-542 | NULL for the first element, otherwise the element before |
| `SingleTailQueue.Head.InsertHead` | server/queue.h:351-355 | Puts the element first and keeps the address of the final link right |
| `SingleTailQueue.Head.InsertTail` | server/queue.h:357-361 | Puts the element last, through the address of the final link |
| `SingleTailQueue.Head.InsertAfter` | server/queue.h:345-349 | Puts the element right after the given one |
| `SingleTailQueue.Head.RemoveHead` | server/queue.h:390-394 | Takes out the first element; an emptied list ends at its head again |
| `SingleTailQueue.Head.RemoveAfter` | server/queue.h:384-388 | Takes out the element after the given one |
| `SingleTailQueue.Head.Remove` | server/queue.h:370-382 | Finds and takes out exactly the given element |
| `SingleTailQueue.Head.Last` | server/queue.h:363-366 | The last element, or NULL |
| `SingleTailQueue.Head.Concat` | server/queue.h:308-314 | Appends the second list's elements in order and empties the second list |
| `SingleTailQueue.Head.Swap` | server/queue.h:396-407 | Exchanges the two lists, an empty one ending at its own head |
| `ThreadList.ThreadHead.InsertHead` | server/queue.h:241-244 | Puts the entry first |
| `ThreadList.ThreadHead.Remove` | server/queue.h:248-260 | Takes out exactly the given entry, following links of listed entries only |
| `ThreadList.KeepAt` | server/aesdsocket.c:453-459 | The entries kept (or joined) are exactly those observed so, in list order: each comes after as many as were so observed before it |
| `ThreadList.KeepPartition` | server/aesdsocket.c:453-459 | Every entry is either kept or joined, none both and none twice |
| `ThreadList.ThreadHead.Reap` | server/aesdsocket.c:453-459 | The reap pass looks at every entry once, joins and removes exactly those seen done, keeps the others in order, and terminates although it removes while it walks |
| `ThreadList.ThreadHead.ReapAll` | server/aesdsocket.c:465-476 | The final loop joins every entry once, in list order, and empties the list |
| `ThreadProtocol.RunInv` | server/aesdsocket.c:411-476 | What every interleaving of main and its workers keeps: who is live, listed, joined and exited, where main's pointers may point, that is_done is set for exactly the workers that have served, and that before the final loop only entries found done are joined, unlinked and freed |
| `ThreadProtocol.ReapJoinsOnlyDone` | server/aesdsocket.c:454-455 | Before the final loop main only waits for a thread that has announced that it is done, never for a client still being served |
| `ThreadProtocol.NewestFirst` | server/aesdsocket.c:438 | In every run the list has the newest connection first |
| `ThreadProtocol.EndingIff` | server/aesdsocket.c:411-445 | Main leaves the accept loop exactly if the exit flag was set at its top, or an allocation or an accept failed; a thread that could not be created does not end it |
| `ReapPass.PassReapsDone` | server/aesdsocket.c:451-459 | Whenever a pass is over or main is ready to accept, main has looked at every entry there was when the latest thread was started, once and in order, while workers set flags under it; exactly those found done are joined, in order, unlinked and freed |
| `Shutdown.EveryStepUsesUp` | server/aesdsocket.c:411-476 | With the exit flag set every step of main and of each worker uses up some of one bound |
| `Shutdown.NoLongerThan` | server/aesdsocket.c:411-476 | So no schedule of steps after the signal is longer than the bound |
| `Shutdown.ServerStops` | server/aesdsocket.c:411-480 | From every reachable state with the exit flag set there are steps to the end of main, within the bound |
| `Shutdown.WorkerTakesAllSteps` | server/aesdsocket.c:222-228 | A worker has exited after exactly four steps of its own, serving first, and is_done is set from the second on |
| `ThreadProtocol.NoUseAfterFree` | server/aesdsocket.c:222-228 | In every interleaving neither main nor a worker uses a freed entry, and main frees none twice |
| `ThreadProtocol.FreedAfterExit` | server/aesdsocket.c:455-457 | A started thread's entry is freed only after the thread exited and was joined |
| `ThreadProtocol.FinishedCleanly` | server/aesdsocket.c:465-476 | When main is done every thread ever started was joined exactly once and every entry ever allocated was freed |
| `ThreadProtocol.NoDeadlock` | server/aesdsocket.c:411-476 | Until main is done it can step, or it waits to join a thread that can |
| `ThreadProtocol.EndingEnds` | server/aesdsocket.c:465-476 | Once in the final loop main never leaves it except to finish, and each of its steps uses up a bound no worker changes |

## Left out

- Kernel plumbing: cdev registration, open and release, debug output, user-pointer checks. `kmalloc`, `krealloc`, `kfree`, `copy_from_user` and `copy_to_user` are modelled by their contracts.
- KernelHeaps.KernelHeap.Kmalloc: an allocation of zero bytes is an allocation like any other; that Linux hands out one shared constant for it is not modelled, nor is the largest size `kmalloc` can be asked for.
- `fixed_size_llseek` is not part of the repository; its contract is assumed as `FixedSizeLlseek`, for SEEK_SET, SEEK_CUR and SEEK_END, every other `whence` being refused.
- Wrap-around of `size_t` and `loff_t`: sums of sizes of live allocations and file positions are natural numbers. The 32-bit fields of the seek request are modelled with their width.
- CharDevice.Device.Write: nothing is claimed about the position after a write marking the end of the data, because the source only adds the count to it.
- Interleaving.Linearizable: each caller has an open file of its own, as each connection of the server does; when a position shared by several threads is copied in and out around a call is decided by kernel code outside the repository, so threads racing on one open file are not modelled.
- Connection.ReplyToPacket: starts from a complete packet and has the device to itself; a send either sends all its bytes or fails. Receiving, growing the packet buffer and parsing the seek request are not modelled, nor is the server's behaviour after a seek request that does not parse.
- ThreadProtocol.FinishedCleanly: is about joining, unlinking and freeing; which descriptors are closed, and how often, is not modelled. Serving a connection is one step of a worker that is assumed to come to an end, and thread ids are taken to be non-zero once a thread was created.
- ThreadList.ThreadHead.Reap: what each check of `is_done` finds is an input, since a worker may set the flag between any two checks.
- Sockets, signals beyond the exit flag, daemon mode, logging, the timestamp timer and the regular-file build.
- The SLIST macros the server does not use, forward traversals, the tracing and panic checks of `server/queue.h`.
- The other programs of the repository (`finder-app`, `examples`, scripts): not modelled.
