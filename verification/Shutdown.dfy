/** Once the exit flag is set the server stops: every step of main or of a worker uses up some of one
    bound, and nobody gets stuck before main is finished. */
module Shutdown {
  import opened Options
  import opened Sequences
  import opened ThreadProtocol

  /** How many entries there are from `at` on. */
  function Remaining(list: seq<nat>, at: Option<nat>): nat {
    if at == None || list == [] then 0
    else if list[0] == at.value then |list|
    else Remaining(list[1..], at)
  }

  /** A bound on main's steps when the exit flag is set: the rest of a reap pass, at most five steps for
      an entry, and the final loop, four for an entry. */
  function MainLeft(s: State): nat {
    4 * |s.list| +
    match s.main
    case Top => 4
    case Accepting(_) => 5 * |s.list| + 20
    case Creating(_) => 5 * |s.list| + 10
    case Walk(final, at) => if final then 3 else 5 * Remaining(s.list, at) + 5
    case Check(v, next) => 5 * Remaining(s.list, Some(v)) + 4
    case Join(final, v, next) => if final then 2 else 5 * Remaining(s.list, Some(v)) + 3
    case Unlink(final, v, next) => if final then 1 else 5 * Remaining(s.list, Some(v)) + 2
    case Free(final, v, next) => if final then 4 else 5 * Remaining(s.list, next) + 6
    case Finished => 0
  }

  function WorkerLeft(w: Worker): nat {
    match w
    case Starting => 4
    case Serving => 3
    case Flagged => 2
    case Closed => 1
    case Exited => 0
  }

  /** The steps left to the workers with entries below `n`. */
  function WorkersLeft(workers: map<nat, Worker>, n: nat): nat {
    if n == 0 then 0
    else WorkersLeft(workers, n - 1) + if n - 1 in workers then WorkerLeft(workers[n - 1]) else 0
  }

  /** Steps left to everybody; a thread main may still start counts as well. */
  function AllLeft(s: State): nat {
    MainLeft(s) + WorkersLeft(s.workers, s.nextEntry) + if s.main.Accepting? || s.main.Creating? then 4 else 0
  }

  // ----- lists

  lemma {:induction false} RemainingNext(list: seq<nat>, v: nat)
    requires Distinct(list) && v in list
    ensures Remaining(list, Some(v)) == Remaining(list, Successor(list, v)) + 1
    ensures Remaining(Removing(list, v), Successor(list, v)) == Remaining(list, Successor(list, v))
  {
    if list[0] == v {
      FirstRemains(list[1..]);
    } else {
      RemainingNext(list[1..], v);
      SuccessorIn(list[1..], v);
      RemovingIs(list[1..], v);
    }
  }

  lemma FirstRemains(list: seq<nat>)
    ensures Remaining(list, First(list)) == |list|
  {
  }

  lemma {:induction false} WorkersStep(workers: map<nat, Worker>, n: nat, w: nat, to: Worker)
    ensures WorkersLeft(workers[w := to], n)
         == WorkersLeft(workers, n)
            + if w >= n then 0 else WorkerLeft(to) - if w in workers then WorkerLeft(workers[w]) else 0
  {
    if n > 0 {
      WorkersStep(workers, n - 1, w, to);
    }
  }

  // ----- every step uses up some of the bound

  /** Main's steps outside of accepting leave the workers alone and do not begin to accept. */
  predicate UsesUp(s: State, s': State) {
    && MainLeft(s') < MainLeft(s)
    && s'.workers == s.workers && s'.nextEntry == s.nextEntry
    && !s'.main.Accepting? && !s'.main.Creating?
  }

  lemma WalkUsesUp(s: State, ok: bool)
    requires Inv(s) && s.exitFlag && (s.main.Top? || s.main.Walk? || s.main.Join? || s.main.Free?)
    ensures UsesUp(s, MainNext(s, ok))
  {
    hide LiveOk, JoinOk, DoneOk, Remaining;
  }

  lemma CheckUsesUp(s: State, ok: bool)
    requires Inv(s) && s.main.Check?
    ensures UsesUp(s, MainNext(s, ok))
  {
    hide LiveOk, JoinOk, DoneOk, Remaining;
    ListFacts(s);
    RemainingNext(s.list, s.main.v);
  }

  lemma UnlinkUsesUp(s: State, ok: bool)
    requires Inv(s) && s.main.Unlink?
    ensures UsesUp(s, MainNext(s, ok))
  {
    hide LiveOk, JoinOk, DoneOk, Remaining;
    ListFacts(s);
    RemainingNext(s.list, s.main.v);
    RemovingIs(s.list, s.main.v);
  }

  lemma AcceptingUsesUp(s: State, ok: bool)
    requires Inv(s) && (s.main.Creating? || s.main.Accepting?)
    ensures AllLeft(MainNext(s, ok)) < AllLeft(s)
  {
    match s.main
    case Creating(e) =>
      FirstRemains(s.list);
      RemovingIs(s.list, e);
      WorkersStep(s.workers, s.nextEntry, e, Starting);
    case Accepting(_) =>
  }

  lemma WorkerBelow(s: State, w: nat)
    requires Inv(s) && w in s.workers
    ensures w < s.nextEntry
  {
  }

  lemma WorkerUsesUp(s: State, w: nat)
    requires Inv(s) && Enabled(s, WorkerStep(w))
    ensures AllLeft(WorkerNext(s, w)) < AllLeft(s)
  {
    WorkerBelow(s, w);
    hide Inv, MainLeft, WorkersLeft;
    WorkersStep(s.workers, s.nextEntry, w, WorkerNext(s, w).workers[w]);
  }

  /** With the exit flag set, in every run, each step of main and of each worker uses up some of the
      bound; the flag stays set. */
  lemma EveryStepUsesUp(labels: seq<Label>, l: Label)
    requires Run(labels).exitFlag && Enabled(Run(labels), l) && !l.Signal?
    ensures var s, s' := Run(labels), Exec(Run(labels), l);
            s'.exitFlag && AllLeft(s') < AllLeft(s)
  {
    RunInv(labels);
    hide Run, Inv;
    var s := Run(labels);
    match l
    case MainStep(ok) =>
      if s.main.Creating? || s.main.Accepting? {
        AcceptingUsesUp(s, ok);
      } else if s.main.Check? {
        CheckUsesUp(s, ok);
      } else if s.main.Unlink? {
        UnlinkUsesUp(s, ok);
      } else {
        WalkUsesUp(s, ok);
      }
    case WorkerStep(w) => WorkerUsesUp(s, w);
  }

  /** Every step of `more` is one that can be taken. */
  predicate AllEnabled(labels: seq<Label>, more: seq<Label>) {
    forall k :: 0 <= k < |more| ==> Enabled(Run(labels + more[..k]), more[k]) && !more[k].Signal?
  }

  /** So no schedule goes on for longer than the bound. */
  lemma {:induction false} NoLongerThan(labels: seq<Label>, more: seq<Label>)
    requires Run(labels).exitFlag && AllEnabled(labels, more)
    ensures Run(labels + more).exitFlag
    ensures |more| + AllLeft(Run(labels + more)) <= AllLeft(Run(labels))
    decreases |more|
  {
    hide Run, Enabled, AllLeft;
    if more == [] {
      assert labels + more == labels;
    } else {
      var m := |more| - 1;
      assert forall k :: 0 <= k < m ==> more[..m][..k] == more[..k];
      NoLongerThan(labels, more[..m]);
      EveryStepUsesUp(labels + more[..m], more[m]);
      RunNext(labels + more[..m], more[m]);
      assert labels + more[..m] + [more[m]] == labels + more;
    }
  }

  lemma RunNext(labels: seq<Label>, l: Label)
    ensures Run(labels + [l]) == Exec(Run(labels), l)
  {
    assert (labels + [l])[..|labels|] == labels;
  }

  /** Until main is finished some step can be taken. */
  lemma StepOrFinished(labels: seq<Label>) returns (l: Label)
    ensures Run(labels).main.Finished? || (Enabled(Run(labels), l) && !l.Signal?)
  {
    NoDeadlock(labels);
    var s := Run(labels);
    l := MainStep(true);
    if s.main.Join? && !Enabled(s, l) {
      l := WorkerStep(s.main.v);
    }
  }

  /** So with the exit flag set the server stops, from every reachable state and within the bound. */
  lemma {:induction false} ServerStops(labels: seq<Label>) returns (more: seq<Label>)
    requires Run(labels).exitFlag
    ensures AllEnabled(labels, more) && |more| <= AllLeft(Run(labels))
    ensures Run(labels + more).main.Finished?
    decreases AllLeft(Run(labels))
  {
    hide Run, Enabled, AllLeft;
    assert labels + [] == labels;
    more := [];
    if !Run(labels).main.Finished? {
      var l := StepOrFinished(labels);
      EveryStepUsesUp(labels, l);
      RunNext(labels, l);
      var rest := ServerStops(labels + [l]);
      more := [l] + rest;
      assert labels + more == labels + [l] + rest;
      forall k | 0 <= k < |more|
        ensures Enabled(Run(labels + more[..k]), more[k]) && !more[k].Signal?
      {
        if k == 0 {
          assert labels + more[..k] == labels;
        } else {
          assert labels + more[..k] == labels + [l] + rest[..k - 1];
        }
      }
    }
  }

  // ----- what a worker does

  /** The steps worker `w` has taken. */
  function StepsOf(labels: seq<Label>, w: nat): nat {
    if labels == [] then 0
    else
      var before, l := labels[..|labels| - 1], labels[|labels| - 1];
      StepsOf(before, w) + if l == WorkerStep(w) && Enabled(Run(before), l) then 1 else 0
  }

  /** A worker takes every one of its steps, serving its client before it sets `is_done`: it has exited
      after exactly four, and `is_done` is set from the second on. */
  lemma {:induction false} WorkerTakesAllSteps(labels: seq<Label>, w: nat)
    ensures var s, n := Run(labels), StepsOf(labels, w);
            && (w in s.workers ==> WorkerLeft(s.workers[w]) + n == 4)
            && (w !in s.workers ==> n == 0)
            && (w in s.isDone <==> n >= 2)
  {
    RunInv(labels);
    if labels != [] {
      var before := labels[..|labels| - 1];
      RunInv(before);
      WorkerTakesAllSteps(before, w);
      WorkerStage(Run(before), labels[|labels| - 1], w);
    }
  }

  lemma WorkerStage(s: State, l: Label, w: nat)
    requires Inv(s)
    ensures var s' := Exec(s, l);
            && (w in s.workers ==> w in s'.workers)
            && (w !in s.workers && w in s'.workers ==> s'.workers[w] == Starting)
            && (w in s.workers ==>
                  WorkerLeft(s'.workers[w]) + (if l == WorkerStep(w) && Enabled(s, l) then 1 else 0)
                  == WorkerLeft(s.workers[w]))
  {
    hide LiveOk, DoneOk, WalkOk;
  }
}
