/** The server's main thread and its workers, interleaved step by step: entries are allocated, put on
    the list, handed to a thread, and later joined, unlinked and freed by main, while workers go on
    using their own entry after they have announced that they are done. */
module ThreadProtocol {
  import opened Options
  import opened Sequences

  /** Where a worker is in `thread_connection_wrapper`.  The first three steps use its entry: reading
      the client to serve, setting `is_done`, and reading the client once more to close it. */
  datatype Worker = Starting | Serving | Flagged | Closed | Exited

  /** Where main is.  The two walks over the list share their steps; `final` tells the loop after the
      accept loop from the reap pass inside it.  `next` is what SLIST_FOREACH_SAFE saved. */
  datatype Main =
    | Top
    | Accepting(e: nat)
    | Creating(e: nat)
    | Walk(final: bool, at: Option<nat>)
    | Check(v: nat, next: Option<nat>)
    | Join(final: bool, v: nat, next: Option<nat>)
    | Unlink(final: bool, v: nat, next: Option<nat>)
    | Free(final: bool, v: nat, next: Option<nat>)
    | Finished

  /** Entries are named by the allocation that made them, so a name is never used twice.  `workers`
      has a worker for every thread ever started, `joined` the threads joined, in order. */
  datatype State = State(
    main: Main, list: seq<nat>, live: set<nat>, isDone: set<nat>,
    workers: map<nat, Worker>, joined: seq<nat>, nextEntry: nat, exitFlag: bool)

  const START := State(Top, [], {}, {}, map[], [], 0, false)

  /** `ok` says whether the allocation, accept or thread creation main is at succeeds. */
  datatype Label = MainStep(ok: bool) | WorkerStep(w: nat) | Signal

  function First(list: seq<nat>): Option<nat> {
    if list == [] then None else Some(list[0])
  }

  /** The entry after `v`. */
  function Successor(list: seq<nat>, v: nat): Option<nat> {
    if list == [] then None
    else if list[0] == v then First(list[1..])
    else Successor(list[1..], v)
  }

  function Removing(list: seq<nat>, v: nat): seq<nat> {
    if list == [] then []
    else if list[0] == v then list[1..]
    else [list[0]] + Removing(list[1..], v)
  }

  /** Only a join can have to wait, for its thread to exit. */
  predicate Enabled(s: State, l: Label) {
    match l
    case MainStep(_) => !s.main.Finished? && (s.main.Join? ==> s.main.v in s.workers && s.workers[s.main.v].Exited?)
    case WorkerStep(w) => w in s.workers && !s.workers[w].Exited?
    case Signal => true
  }

  function MainNext(s: State, ok: bool): State {
    match s.main
    case Top =>
      if s.exitFlag || !ok then s.(main := Walk(true, First(s.list)))
      else s.(main := Accepting(s.nextEntry), live := s.live + {s.nextEntry}, nextEntry := s.nextEntry + 1)
    case Accepting(e) =>
      if ok then s.(main := Creating(e), list := [e] + s.list)
      else s.(main := Walk(true, First(s.list)), live := s.live - {e})
    case Creating(e) =>
      if ok then s.(main := Walk(false, First(s.list)), workers := s.workers[e := Starting])
      else s.(main := Top, list := Removing(s.list, e), live := s.live - {e})
    case Walk(final, None) =>
      s.(main := if final then Finished else Top)
    case Walk(final, Some(v)) =>
      s.(main := if final then Join(true, v, Successor(s.list, v)) else Check(v, Successor(s.list, v)))
    case Check(v, next) =>
      s.(main := if v in s.isDone then Join(false, v, next) else Walk(false, next))
    case Join(final, v, next) =>
      s.(main := Unlink(final, v, next), joined := s.joined + [v])
    case Unlink(final, v, next) =>
      s.(main := Free(final, v, next), list := Removing(s.list, v))
    case Free(final, v, next) =>
      s.(main := Walk(final, next), live := s.live - {v})
    case Finished => s
  }

  function WorkerNext(s: State, w: nat): State
    requires w in s.workers
  {
    match s.workers[w]
    case Starting => s.(workers := s.workers[w := Serving])
    case Serving => s.(workers := s.workers[w := Flagged], isDone := s.isDone + {w})
    case Flagged => s.(workers := s.workers[w := Closed])
    case Closed => s.(workers := s.workers[w := Exited])
    case Exited => s
  }

  /** One step; a step that is not possible changes nothing. */
  function Exec(s: State, l: Label): State {
    if !Enabled(s, l) then s
    else match l
      case MainStep(ok) => MainNext(s, ok)
      case WorkerStep(w) => WorkerNext(s, w)
      case Signal => s.(exitFlag := true)
  }

  function Run(labels: seq<Label>): State {
    if labels == [] then START else Exec(Run(labels[..|labels| - 1]), labels[|labels| - 1])
  }

  // ----- who touches what

  /** The entries main's next step reads, writes or frees; unlinking may walk the whole list. */
  function MainUses(s: State): set<nat> {
    match s.main
    case Accepting(e) => {e}
    case Creating(e) => {e} + set x | x in s.list
    case Walk(_, Some(v)) => {v}
    case Check(v, _) => {v}
    case Join(_, v, _) => {v}
    case Unlink(_, v, _) => {v} + set x | x in s.list
    case Free(_, v, _) => {v}
    case _ => {}
  }

  /** Whether a worker's next step uses its entry. */
  predicate UsesEntry(w: Worker) { w.Starting? || w.Serving? || w.Flagged? }

  // ----- the invariant

  /** Live entries are those on the list, and the one main is about to add or free. */
  ghost predicate LiveOk(s: State) {
    && Distinct(s.list)
    && (forall x :: x in s.list ==> x in s.live)
    && (forall x :: x in s.live ==> x in s.list || s.main == Accepting(x) || (s.main.Free? && s.main.v == x))
    && (s.main.Accepting? ==> s.main.e in s.live && s.main.e !in s.list && s.main.e !in s.workers)
    && (s.main.Free? ==> s.main.v in s.live && s.main.v !in s.list)
    && (forall x :: x in s.live || x in s.workers ==> x < s.nextEntry)
  }

  /** A started thread is joined once it is off the list, and joined only after it exited. */
  ghost predicate JoinOk(s: State) {
    && Distinct(s.joined)
    && (forall x :: x in s.joined ==> x in s.workers && s.workers[x].Exited?)
    && (forall x :: x in s.workers ==> (x in s.joined <==> x !in s.list || (s.main.Unlink? && s.main.v == x)))
    && (forall x :: x in s.list ==> x in s.workers || s.main == Creating(x))
    && (s.main.Creating? ==> s.main.e in s.list && s.main.e !in s.workers)
  }

  /** Main's pointers into the list, the saved one included, point at entries on it; in the final
      loop at its front. */
  ghost predicate WalkOk(s: State) {
    match s.main
    case Walk(final, at) => if final then at == First(s.list) else at.Some? ==> at.value in s.list
    case Check(v, next) => v in s.list && next == Successor(s.list, v)
    case Join(final, v, next) => v in s.list && next == Successor(s.list, v) && (final ==> v == s.list[0])
    case Unlink(final, v, next) => v in s.list && next == Successor(s.list, v) && (final ==> v == s.list[0])
    case Free(final, v, next) => if final then next == First(s.list) else next.Some? ==> next.value in s.list
    case Finished => s.list == []
    case _ => true
  }

  /** The worker has set `is_done`. */
  predicate Announced(w: Worker) { w.Flagged? || w.Closed? || w.Exited? }

  /** `is_done` is set for exactly the workers that have served their client, and before the final loop
      main joins, unlinks and frees only entries it found it set for. */
  ghost predicate DoneOk(s: State) {
    && (forall x :: x in s.isDone <==> x in s.workers && Announced(s.workers[x]))
    && match s.main
       case Join(final, v, _) => final || v in s.isDone
       case Unlink(final, v, _) => final || v in s.isDone
       case Free(final, v, _) => final || v in s.isDone
       case _ => true
  }

  ghost predicate Inv(s: State) {
    LiveOk(s) && JoinOk(s) && WalkOk(s) && DoneOk(s)
  }

  // ----- lists

  lemma {:induction false} SuccessorIn(list: seq<nat>, v: nat)
    requires Distinct(list)
    ensures Successor(list, v).Some? ==> Successor(list, v).value in Removing(list, v)
  {
    if list != [] && list[0] != v {
      SuccessorIn(list[1..], v);
    }
  }

  lemma ConsKeepsDistinct(x: nat, s: seq<nat>)
    requires Distinct(s) && x !in s
    ensures Distinct([x] + s)
  {
  }

  lemma {:induction false} RemovingIs(list: seq<nat>, v: nat)
    requires Distinct(list)
    ensures Distinct(Removing(list, v))
    ensures forall x :: x in Removing(list, v) <==> x in list && x != v
    ensures |Removing(list, v)| == if v in list then |list| - 1 else |list|
  {
    if list != [] && list[0] != v {
      RemovingIs(list[1..], v);
      ConsKeepsDistinct(list[0], Removing(list[1..], v));
    }
  }

  // ----- every step keeps it

  lemma WorkerKeepsInv(s: State, w: nat)
    requires Inv(s) && Enabled(s, WorkerStep(w))
    ensures Inv(WorkerNext(s, w))
  {
    hide LiveOk, JoinOk, DoneOk;
    WorkerKeepsLive(s, w);
    WorkerKeepsJoin(s, w);
    WorkerKeepsDone(s, w);
  }

  lemma WorkerKeepsLive(s: State, w: nat)
    requires LiveOk(s) && Enabled(s, WorkerStep(w))
    ensures LiveOk(WorkerNext(s, w))
  {
  }

  lemma WorkerKeepsJoin(s: State, w: nat)
    requires JoinOk(s) && Enabled(s, WorkerStep(w))
    ensures JoinOk(WorkerNext(s, w))
  {
  }

  lemma WorkerKeepsDone(s: State, w: nat)
    requires DoneOk(s) && Enabled(s, WorkerStep(w))
    ensures DoneOk(WorkerNext(s, w))
  {
  }

  /** Taking an entry off the list: it is main's alone, and main's saved pointer is still good. */
  lemma UnlinkKeepsInv(s: State)
    requires Inv(s) && s.main.Unlink?
    ensures Inv(MainNext(s, true))
  {
    var list' := Removing(s.list, s.main.v);
    SuccessorIn(s.list, s.main.v);
    RemovingIs(s.list, s.main.v);
    if s.main.final {
      assert list' == s.list[1..];
    }
  }

  lemma UndoKeepsInv(s: State)
    requires Inv(s) && s.main.Creating?
    ensures Inv(MainNext(s, false))
  {
    RemovingIs(s.list, s.main.e);
  }

  lemma WalkKeepsInv(s: State, ok: bool)
    requires Inv(s) && s.main.Walk?
    ensures Inv(MainNext(s, ok))
  {
  }

  lemma JoinKeepsInv(s: State, ok: bool)
    requires Inv(s) && s.main.Join? && Enabled(s, MainStep(ok))
    ensures Inv(MainNext(s, ok))
  {
  }

  lemma FreeKeepsInv(s: State, ok: bool)
    requires Inv(s) && s.main.Free?
    ensures Inv(MainNext(s, ok))
  {
  }

  lemma CheckKeepsInv(s: State, ok: bool)
    requires Inv(s) && s.main.Check?
    ensures Inv(MainNext(s, ok))
  {
    SuccessorIn(s.list, s.main.v);
    RemovingIs(s.list, s.main.v);
  }

  lemma AcceptingKeepsInv(s: State, ok: bool)
    requires Inv(s)
    requires s.main.Top? || s.main.Accepting? || (s.main.Creating? && ok)
    ensures Inv(MainNext(s, ok))
  {
  }

  lemma MainKeepsInv(s: State, ok: bool)
    requires Inv(s) && Enabled(s, MainStep(ok))
    ensures Inv(MainNext(s, ok))
  {
    hide Inv;
    if s.main.Unlink? {
      UnlinkKeepsInv(s);
    } else if s.main.Creating? && !ok {
      UndoKeepsInv(s);
    } else if s.main.Top? || s.main.Accepting? || s.main.Creating? {
      AcceptingKeepsInv(s, ok);
    } else if s.main.Check? {
      CheckKeepsInv(s, ok);
    } else if s.main.Walk? {
      WalkKeepsInv(s, ok);
    } else if s.main.Join? {
      JoinKeepsInv(s, ok);
    } else {
      FreeKeepsInv(s, ok);
    }
  }

  lemma {:induction false} RunInv(labels: seq<Label>)
    ensures Inv(Run(labels))
  {
    if labels != [] {
      var s, l := Run(labels[..|labels| - 1]), labels[|labels| - 1];
      RunInv(labels[..|labels| - 1]);
      match l
      case MainStep(ok) => if Enabled(s, l) { MainKeepsInv(s, ok); }
      case WorkerStep(w) => if Enabled(s, l) { WorkerKeepsInv(s, w); }
      case Signal =>
    }
  }

  // ----- what holds in every run

  /** Nobody uses a freed entry: neither main, which also frees nothing twice, nor any worker, even
      though workers use their entry after announcing that they are done. */
  lemma NoUseAfterFree(labels: seq<Label>)
    ensures var s := Run(labels);
            && MainUses(s) <= s.live
            && (forall w :: w in s.workers && UsesEntry(s.workers[w]) ==> w in s.live)
  {
    RunInv(labels);
  }

  /** Before the final loop main only ever joins a thread that has announced that it is done, so that it
      never waits there for a client still being served. */
  lemma ReapJoinsOnlyDone(labels: seq<Label>)
    requires Run(labels).main.Join? && !Run(labels).main.final
    ensures var s := Run(labels);
            && s.main.v in s.isDone && s.main.v in s.workers
            && (Enabled(s, MainStep(true)) || s.workers[s.main.v].Flagged? || s.workers[s.main.v].Closed?)
  {
    RunInv(labels);
  }

  /** A thread's entry is freed only after the thread exited and was joined. */
  lemma FreedAfterExit(labels: seq<Label>, e: nat)
    requires e in Run(labels).workers && e !in Run(labels).live
    ensures Run(labels).workers[e].Exited? && e in Run(labels).joined
  {
    RunInv(labels);
  }

  /** When main is finished, every thread ever started has been joined exactly once, and every entry
      ever allocated has been freed. */
  lemma FinishedCleanly(labels: seq<Label>)
    requires Run(labels).main.Finished?
    ensures var s := Run(labels);
            && Distinct(s.joined)
            && (set x | x in s.joined) == s.workers.Keys
            && (forall w :: w in s.workers ==> s.workers[w].Exited?)
            && s.list == [] && s.live == {}
  {
    RunInv(labels);
  }

  /** Nothing gets stuck: until main is finished it can step, or it is waiting to join a thread that
      can. */
  lemma NoDeadlock(labels: seq<Label>)
    ensures var s := Run(labels);
            || s.main.Finished?
            || Enabled(s, MainStep(true))
            || (s.main.Join? && Enabled(s, WorkerStep(s.main.v)))
  {
    RunInv(labels);
  }

  /** Entries are named in the order they were allocated. */
  predicate Falling(list: seq<nat>) {
    forall i, j :: 0 <= i < j < |list| ==> list[j] < list[i]
  }

  lemma {:induction false} RemovingFalls(list: seq<nat>, v: nat)
    requires Falling(list)
    ensures Falling(Removing(list, v))
    ensures forall x :: x in Removing(list, v) ==> x in list
  {
    if list != [] && list[0] != v {
      RemovingFalls(list[1..], v);
      ConsFalls(list[0], Removing(list[1..], v));
    }
  }

  lemma ConsFalls(x: nat, list: seq<nat>)
    requires Falling(list) && forall y :: y in list ==> y < x
    ensures Falling([x] + list)
  {
    forall i, j | 0 <= i < j < |[x] + list|
      ensures ([x] + list)[j] < ([x] + list)[i]
    {
      assert list[j - 1] in list;
    }
  }

  ghost predicate NewestOk(s: State) {
    && Falling(s.list)
    && (forall x :: x in s.list ==> x < s.nextEntry)
    && (s.main.Accepting? ==> s.main.e < s.nextEntry && forall x :: x in s.list ==> x < s.main.e)
  }

  /** In every run the list has the newest connection first. */
  lemma {:induction false} NewestFirst(labels: seq<Label>)
    ensures NewestOk(Run(labels))
  {
    if labels != [] {
      var m := |labels| - 1;
      NewestFirst(labels[..m]);
      StepKeepsNewest(Run(labels[..m]), labels[m]);
    }
  }

  lemma StepKeepsNewest(s: State, l: Label)
    requires NewestOk(s)
    ensures NewestOk(Exec(s, l))
  {
    hide Falling, Removing;
    match s.main
    case Accepting(e) => ConsFalls(e, s.list);
    case Creating(e) => RemovingFalls(s.list, e);
    case Unlink(_, v, _) => RemovingFalls(s.list, v);
    case _ =>
  }

  /** Main is in the loop after the accept loop, or past it. */
  predicate Ending(m: Main) {
    match m
    case Walk(final, _) => final
    case Join(final, _, _) => final
    case Unlink(final, _, _) => final
    case Free(final, _, _) => final
    case Finished => true
    case _ => false
  }

  /** A bound on the steps main has left once it is ending. */
  function EndingWork(s: State): nat {
    4 * |s.list| +
    match s.main
    case Walk(_, _) => 3
    case Join(_, _, _) => 2
    case Unlink(_, _, _) => 1
    case Free(_, _, _) => 4
    case _ => 0
  }

  /** The final loop terminates: every step of main uses up some of a bound that no worker's step
      changes, and main never goes back to accepting. */
  lemma EndingEnds(labels: seq<Label>, l: Label)
    requires Ending(Run(labels).main)
    ensures var s, s' := Run(labels), Exec(Run(labels), l);
            && Ending(s'.main)
            && (l.MainStep? && Enabled(s, l) ==> EndingWork(s') < EndingWork(s))
            && (!l.MainStep? ==> EndingWork(s') == EndingWork(s))
  {
    RunInv(labels);
    hide Run;
    StepEnds(Run(labels), l);
  }

  lemma StepEnds(s: State, l: Label)
    requires Inv(s) && Ending(s.main)
    ensures Ending(Exec(s, l).main)
    ensures l.MainStep? && Enabled(s, l) ==> EndingWork(Exec(s, l)) < EndingWork(s)
    ensures !l.MainStep? ==> EndingWork(Exec(s, l)) == EndingWork(s)
  {
    hide LiveOk, JoinOk;
    if s.main.Unlink? {
      ListFacts(s);
      RemovingIs(s.list, s.main.v);
    }
  }

  lemma ListFacts(s: State)
    requires Inv(s)
    ensures Distinct(s.list)
  {
  }

  /** What makes main give up accepting: the exit flag, or no memory, or no connection. */
  predicate GivesUp(s: State, l: Label) {
    l.MainStep? && ((s.main.Top? && (s.exitFlag || !l.ok)) || (s.main.Accepting? && !l.ok))
  }

  lemma GivingUpEnds(s: State, l: Label)
    ensures Ending(Exec(s, l).main) <==> Ending(s.main) || GivesUp(s, l)
  {
  }

  predicate GaveUpAt(labels: seq<Label>, k: nat) {
    k < |labels| && GivesUp(Run(labels[..k]), labels[k])
  }

  lemma PrefixGaveUp(labels: seq<Label>, m: nat, k: nat)
    requires k < m <= |labels|
    ensures GaveUpAt(labels[..m], k) <==> GaveUpAt(labels, k)
  {
    assert labels[..m][..k] == labels[..k];
  }

  /** Main is in the final loop, or past it, exactly if something made it give up accepting; a thread
      that could not be created does not. */
  lemma {:induction false} EndingIff(labels: seq<Label>)
    ensures Ending(Run(labels).main) <==> exists k :: GaveUpAt(labels, k)
  {
    if labels != [] {
      var m := |labels| - 1;
      EndingIff(labels[..m]);
      GivingUpEnds(Run(labels[..m]), labels[m]);
      forall k | 0 <= k < m
        ensures GaveUpAt(labels[..m], k) <==> GaveUpAt(labels, k)
      {
        PrefixGaveUp(labels, m, k);
      }
      assert GaveUpAt(labels, m) <==> GivesUp(Run(labels[..m]), labels[m]);
    }
  }
}
