/** Any number of callers on the one device, each with a file of its own, interleaved step by step.
    Every call takes `buff_lock`, works in several steps on the slots and the partial buffer, and gives
    the lock back on its way out; an llseek then moves its position without the lock.  Proved: every
    interleaving looks like the calls run one after the other in the order in which they took the
    lock. */
module Interleaving {
  import opened Options
  import opened Framing
  import opened Positions
  import opened DeviceLog
  import opened SlotState
  import opened CallSteps

  datatype Caller =
    | Idle
    | Waiting(call: Call)
    | Running(ticket: nat, step: Step)

  /** One device, `|callers|` callers.  `log` is the history the slots came from, which no step looks
      at; `order` lists the calls in the order they took the lock, and `replies` what those that
      returned gave back. */
  datatype State = State(
    dev: Dev, log: Log, lock: Option<nat>, callers: seq<Caller>, fPos: seq<nat>,
    order: seq<(nat, Call)>, replies: map<nat, Reply>)

  function Start(n: nat): State {
    State(EMPTY_DEV, EMPTY_LOG, None, seq(n, _ => Idle), seq(n, _ => 0), [], map[])
  }

  datatype Label = Invoke(who: nat, call: Call) | Advance(who: nat)

  predicate HoldsLock(c: Caller) { c.Running? && !c.step.Seeking? }

  predicate Enabled(s: State, l: Label) {
    && l.who < |s.callers| == |s.fPos|
    && match l
       case Invoke(t, _) => s.callers[t].Idle?
       case Advance(t) =>
         s.callers[t].Running? || (s.callers[t].Waiting? && (s.lock == None || !NeedsLock(s.callers[t].call)))
  }

  /** A call takes the lock and its place in the order. */
  function Acquire(s: State, t: nat, call: Call): State
    requires t < |s.callers|
  {
    s.(lock := Some(t), callers := s.callers[t := Running(|s.order|, FirstStep(call))], order := s.order + [(t, call)])
  }

  /** A call returns -1 without having taken the lock. */
  function Reject(s: State, t: nat, call: Call): State
    requires t < |s.callers|
  {
    s.(callers := s.callers[t := Idle], order := s.order + [(t, call)],
       replies := s.replies[|s.order| := Reply(-1, [])])
  }

  /** A running call's step takes effect; whether the lock is given back is the step's doing. */
  function Proceed(s: State, t: nat, p: Progress): State
    requires t < |s.callers| == |s.fPos| && s.callers[t].Running?
  {
    var k := s.callers[t].ticket;
    var lock := if p.unlock then None else s.lock;
    match p
    case Go(dev, _, next, _) =>
      s.(dev := dev, log := LogAfter(s.log, p), callers := s.callers[t := Running(k, next)], lock := lock)
    case Return(fPos, reply, _) =>
      s.(fPos := s.fPos[t := fPos], callers := s.callers[t := Idle], lock := lock, replies := s.replies[k := reply])
  }

  /** One step of the whole system; a step that is not possible changes nothing. */
  function Exec(s: State, l: Label): State {
    if !Enabled(s, l) then s
    else match l
      case Invoke(t, call) => s.(callers := s.callers[t := Waiting(call)])
      case Advance(t) =>
        match s.callers[t]
        case Idle => s
        case Waiting(call) => if NeedsLock(call) then Acquire(s, t, call) else Reject(s, t, call)
        case Running(k, step) => Proceed(s, t, Turn(s.dev, s.fPos[t], step))
  }

  function Run(n: nat, labels: seq<Label>): State {
    if labels == [] then Start(n) else Exec(Run(n, labels[..|labels| - 1]), labels[|labels| - 1])
  }

  // ----- the same calls, one after the other

  datatype Sequence = Sequence(log: Log, fPos: seq<nat>, replies: seq<Reply>)

  predicate Among(n: nat, order: seq<(nat, Call)>) {
    forall k :: 0 <= k < |order| ==> order[k].0 < n
  }

  function Sequential(n: nat, order: seq<(nat, Call)>): (q: Sequence)
    requires Among(n, order)
    ensures |q.fPos| == n && |q.replies| == |order|
  {
    if order == [] then Sequence(EMPTY_LOG, seq(n, _ => 0), [])
    else
      var (t, call) := order[|order| - 1];
      Next(Sequential(n, order[..|order| - 1]), t, call)
  }

  /** One more call, run by itself. */
  function Next(q: Sequence, t: nat, call: Call): Sequence
    requires t < |q.fPos|
  {
    var o := Apply(q.log, q.fPos[t], call);
    Sequence(o.log, q.fPos[t := o.fPos], q.replies + [o.reply])
  }

  lemma SequentialNext(n: nat, order: seq<(nat, Call)>, t: nat, call: Call)
    requires Among(n, order) && t < n
    ensures Among(n, order + [(t, call)])
    ensures Sequential(n, order + [(t, call)]) == Next(Sequential(n, order), t, call)
  {
    assert (order + [(t, call)])[..|order|] == order;
  }

  // ----- the invariant

  /** A caller's position and reply are, or will be when it returns, those of the sequential run. */
  predicate CallerOk(s: State, q: Sequence, t: nat)
    requires t < |s.callers| == |s.fPos| == |q.fPos| && |q.replies| == |s.order|
  {
    match s.callers[t]
    case Running(k, step) =>
      var o := Finish(s.log, s.fPos[t], step);
      && k < |s.order| && s.order[k].0 == t && k !in s.replies
      && o.fPos == q.fPos[t] && o.reply == q.replies[k]
    case _ => s.fPos[t] == q.fPos[t]
  }

  predicate LockOk(s: State, q: Sequence)
    requires |s.callers| == |s.fPos|
  {
    && (forall t :: 0 <= t < |s.callers| ==> (s.lock == Some(t) <==> HoldsLock(s.callers[t])))
    && match s.lock
       case None => s.log == q.log
       case Some(t) =>
         && t < |s.callers|
         && StepOk(s.dev, s.log, s.fPos[t], s.callers[t].step)
         && Finish(s.log, s.fPos[t], s.callers[t].step).log == q.log
  }

  /** State `s` looks like the sequential run `q`. */
  ghost predicate Looks(s: State, q: Sequence) {
    && |s.callers| == |s.fPos| == |q.fPos| && |q.replies| == |s.order|
    && Among(|s.callers|, s.order)
    && Represents(s.dev, s.log)
    && LockOk(s, q)
    && (forall t :: 0 <= t < |s.callers| ==> CallerOk(s, q, t))
    && (forall k :: k in s.replies ==> k < |s.order| && s.replies[k] == q.replies[k])
    && (forall k :: 0 <= k < |s.order| ==>
          k in s.replies || (s.callers[s.order[k].0].Running? && s.callers[s.order[k].0].ticket == k))
  }

  ghost predicate Inv(s: State) {
    && Among(|s.callers|, s.order)
    && Looks(s, Sequential(|s.callers|, s.order))
  }

  lemma InvokeLooks(s: State, q: Sequence, t: nat, call: Call)
    requires Looks(s, q) && t < |s.callers| && s.callers[t].Idle?
    ensures Looks(s.(callers := s.callers[t := Waiting(call)]), q)
  {
    hide Finish, StepOk, Represents;
    var s' := s.(callers := s.callers[t := Waiting(call)]);
    forall u | 0 <= u < |s.callers|
      ensures CallerOk(s', q, u)
    {
      assert CallerOk(s, q, u);
    }
  }

  /** Taking the lock puts the call next in the sequential order. */
  lemma AcquireLooks(s: State, q: Sequence, t: nat, call: Call)
    requires Looks(s, q) && t < |s.callers| && s.callers[t] == Waiting(call)
    requires NeedsLock(call) && s.lock == None
    ensures Looks(Acquire(s, t, call), Next(q, t, call))
  {
    hide Finish, StepOk, Apply, FirstStep, Represents;
    var s', q' := Acquire(s, t, call), Next(q, t, call);
    FirstStepFinish(s.dev, s.log, s.fPos[t], call);
    assert CallerOk(s, q, t);
    forall u | 0 <= u < |s.callers|
      ensures CallerOk(s', q', u)
    {
      assert CallerOk(s, q, u);
    }
  }

  /** A call that returns without the lock changes nothing, whenever it does so. */
  lemma RejectLooks(s: State, q: Sequence, t: nat, call: Call)
    requires Looks(s, q) && t < |s.callers| && s.callers[t] == Waiting(call) && !NeedsLock(call)
    ensures Looks(Reject(s, t, call), Next(q, t, call))
  {
    hide Finish, StepOk, Apply, Represents;
    var s', q' := Reject(s, t, call), Next(q, t, call);
    RejectedOutcome(q.log, q.fPos[t], call);
    assert CallerOk(s, q, t);
    forall u | 0 <= u < |s.callers|
      ensures CallerOk(s', q', u)
    {
      assert CallerOk(s, q, u);
    }
  }

  lemma RejectedOutcome(log: Log, fPos: nat, call: Call)
    requires !NeedsLock(call)
    ensures Apply(log, fPos, call) == Outcome(log, fPos, Reply(-1, []))
  {
  }

  /** The step after the lock is given back needs nothing, leaves the log alone, and does the same
      whatever the log has become. */
  lemma SeekingOk(dev: Dev, log: Log, log': Log, fPos: nat, step: Step)
    requires step.Seeking?
    ensures StepOk(dev, log, fPos, step) && Finish(log, fPos, step).log == log
    ensures Finish(log', fPos, step).fPos == Finish(log, fPos, step).fPos
    ensures Finish(log', fPos, step).reply == Finish(log, fPos, step).reply
  {
  }

  /** A step of a running call, inside or after the lock, is already accounted for. */
  lemma ProceedLooks(s: State, q: Sequence, t: nat)
    requires Looks(s, q) && t < |s.callers| && s.callers[t].Running?
    ensures Looks(Proceed(s, t, Turn(s.dev, s.fPos[t], s.callers[t].step)), q)
  {
    hide Finish, StepOk, Turn, Represents, LogAfter;
    var step := s.callers[t].step;
    var p := Turn(s.dev, s.fPos[t], step);
    var s' := Proceed(s, t, p);
    assert CallerOk(s, q, t);
    if step.Seeking? {
      SeekingOk(s.dev, s.log, s.log, s.fPos[t], step);
    }
    TurnKeepsFinish(s.dev, s.log, s.fPos[t], step);
    if p.Go? && p.step.Seeking? {
      SeekingOk(s.dev, s.log, s'.log, s.fPos[t], p.step);
    }
    forall u | 0 <= u < |s.callers|
      ensures CallerOk(s', q, u)
    {
      assert CallerOk(s, q, u);
      if u != t && s.callers[u].Running? && s.callers[u].step.Seeking? {
        SeekingOk(s.dev, s.log, s'.log, s.fPos[u], s.callers[u].step);
      }
    }
  }

  lemma ExecKeepsInv(s: State, l: Label)
    requires Inv(s)
    ensures Inv(Exec(s, l))
    ensures |Exec(s, l).callers| == |s.callers|
    ensures s.order <= Exec(s, l).order
    ensures forall k :: k in s.replies ==> k in Exec(s, l).replies && Exec(s, l).replies[k] == s.replies[k]
  {
    hide Sequential, Looks;
    InvFacts(s);
    if Enabled(s, l) {
      var n, q := |s.callers|, Sequential(|s.callers|, s.order);
      match l
      case Invoke(t, call) => InvokeLooks(s, q, t, call);
      case Advance(t) =>
        match s.callers[t]
        case Waiting(call) =>
          SequentialNext(n, s.order, t, call);
          if NeedsLock(call) {
            AcquireLooks(s, q, t, call);
          } else {
            RejectLooks(s, q, t, call);
          }
        case Running(k, step) =>
          ProceedLooks(s, q, t);
    }
  }

  lemma InvFacts(s: State)
    requires Inv(s)
    ensures |s.callers| == |s.fPos|
    ensures forall k :: k in s.replies ==> k < |s.order|
    ensures forall t :: 0 <= t < |s.callers| && s.callers[t].Running? ==> s.callers[t].ticket !in s.replies
  {
    var q := Sequential(|s.callers|, s.order);
    forall t | 0 <= t < |s.callers| && s.callers[t].Running?
      ensures s.callers[t].ticket !in s.replies
    {
      assert CallerOk(s, q, t);
    }
  }

  // ----- what holds of every run

  lemma {:induction false} RunInv(n: nat, labels: seq<Label>)
    ensures Inv(Run(n, labels)) && |Run(n, labels).callers| == n
  {
    if labels != [] {
      RunInv(n, labels[..|labels| - 1]);
      ExecKeepsInv(Run(n, labels[..|labels| - 1]), labels[|labels| - 1]);
    } else {
      StartInv(n);
    }
  }

  lemma StartInv(n: nat)
    ensures Inv(Start(n))
  {
    hide Represents;
    EmptyRepresents();
    assert Looks(Start(n), Sequential(n, []));
  }

  /** State `s` looks as if the calls that have taken the lock had run alone, in that order.  Every
      reply is the one the sequential run gives; while the lock is free the slots and the partial
      buffer hold the sequential run's log; a caller that is not in a call is at the sequential run's
      position; and the lock is held exactly by a caller inside its critical part, so every way out of
      a call gave it back. */
  ghost predicate LooksSequential(s: State) {
    && |s.callers| == |s.fPos| && Among(|s.callers|, s.order)
    && var q := Sequential(|s.callers|, s.order);
       && (forall k :: k in s.replies ==> k < |s.order| && s.replies[k] == q.replies[k])
       && (s.lock == None ==> Represents(s.dev, q.log)) && (s.lock.Some? ==> s.lock.value < |s.callers|)
       && (forall t :: 0 <= t < |s.callers| && !s.callers[t].Running? ==> s.fPos[t] == q.fPos[t])
       && (forall t :: 0 <= t < |s.callers| ==> (s.lock == Some(t) <==> HoldsLock(s.callers[t])))
       && (forall k :: 0 <= k < |s.order| && k !in s.replies ==>
             s.callers[s.order[k].0].Running? && s.callers[s.order[k].0].ticket == k)
  }

  /** Linearizability of every run of any number of callers. */
  lemma {:induction false} Linearizable(n: nat, labels: seq<Label>)
    ensures |Run(n, labels).callers| == n
    ensures LooksSequential(Run(n, labels))
  {
    RunInv(n, labels);
    var s := Run(n, labels);
    var q := Sequential(n, s.order);
    forall t | 0 <= t < n && !s.callers[t].Running?
      ensures s.fPos[t] == q.fPos[t]
    {
      assert CallerOk(s, q, t);
    }
  }

  /** The order never changes after the fact, so a call that returned before another was made comes
      before it: whatever has replied by the end of `a` is ordered before whatever takes its turn in
      `b`. */
  lemma {:induction false} OrderRespectsRealTime(n: nat, a: seq<Label>, b: seq<Label>)
    ensures Run(n, a).order <= Run(n, a + b).order
    ensures forall k :: k in Run(n, a).replies ==>
              && k < |Run(n, a).order|
              && k in Run(n, a + b).replies && Run(n, a + b).replies[k] == Run(n, a).replies[k]
    decreases |b|
  {
    hide Exec, Inv;
    RunInv(n, a);
    InvFacts(Run(n, a));
    if b == [] {
      assert a + b == a;
    } else {
      var b' := b[..|b| - 1];
      OrderRespectsRealTime(n, a, b');
      assert (a + b)[..|a + b| - 1] == a + b';
      RunInv(n, a + b');
      ExecKeepsInv(Run(n, a + b'), b[|b| - 1]);
    }
  }

  // ----- the lock always comes free

  lemma HolderOk(n: nat, labels: seq<Label>, t: nat)
    requires Run(n, labels).lock == Some(t)
    ensures var s := Run(n, labels);
            && t < |s.callers| == |s.fPos| && s.callers[t].Running?
            && StepOk(s.dev, s.log, s.fPos[t], s.callers[t].step)
  {
    hide Run, Sequential, StepOk, Represents;
    RunInv(n, labels);
  }

  lemma WorkLeft(dev: Dev, step: Step)
    ensures Work(dev, step) > 0
  {
  }

  /** Whatever has happened so far, the caller that holds the lock gives it back within `Work` steps
      of its own, without anybody else having to move. */
  lemma {:induction false} LockComesFree(n: nat, labels: seq<Label>, t: nat) returns (m: nat)
    requires Run(n, labels).lock == Some(t)
    ensures t < n == |Run(n, labels).callers| && Run(n, labels).callers[t].Running?
    ensures m <= Work(Run(n, labels).dev, Run(n, labels).callers[t].step)
    ensures Run(n, labels + seq(m, _ => Advance(t))).lock == None
    decreases if t < |Run(n, labels).callers| && Run(n, labels).callers[t].Running?
              then Work(Run(n, labels).dev, Run(n, labels).callers[t].step) else 0
  {
    hide Turn, Sequential, Looks, Work, StepOk, Represents;
    Linearizable(n, labels);
    var s := Run(n, labels);
    assert HoldsLock(s.callers[t]);
    HolderOk(n, labels, t);
    TurnWorks(s.dev, s.log, s.fPos[t], s.callers[t].step);
    WorkLeft(s.dev, s.callers[t].step);
    var more := labels + [Advance(t)];
    assert more[..|more| - 1] == labels;
    assert Run(n, more) == Exec(s, Advance(t));
    if Run(n, more).lock == None {
      m := 1;
      assert seq(1, _ => Advance(t)) == [Advance(t)];
    } else {
      var m' := LockComesFree(n, more, t);
      m := m' + 1;
      assert labels + seq(m, _ => Advance(t)) == more + seq(m', _ => Advance(t));
    }
  }

  // ----- every call returns

  lemma RunNext(n: nat, labels: seq<Label>, l: Label)
    ensures Run(n, labels + [l]) == Exec(Run(n, labels), l)
  {
    assert (labels + [l])[..|labels| + 1 - 1] == labels;
  }

  /** Steps of caller `t` alone. */
  function Steps(t: nat, m: nat): seq<Label> { seq(m, _ => Advance(t)) }

  lemma StepsNext(labels: seq<Label>, t: nat, m: nat)
    ensures labels + Steps(t, 0) == labels
    ensures labels + Steps(t, m + 1) == labels + [Advance(t)] + Steps(t, m)
  {
  }

  /** What a caller's own steps leave alone: the order and the other callers.  The lock is given back if
      it was the caller's. */
  predicate OnlyMoved(s: State, s': State, t: nat) {
    && s'.order == s.order
    && |s'.callers| == |s.callers| && (forall u :: 0 <= u < |s.callers| && u != t ==> s'.callers[u] == s.callers[u])
    && (s.lock == Some(t) ==> s'.lock == Some(t) || s'.lock == None)
    && (s.lock != Some(t) ==> s'.lock == s.lock)
  }

  /** One step of a running caller returns, or brings the return nearer. */
  lemma RunningStep(n: nat, labels: seq<Label>, t: nat)
    requires t < |Run(n, labels).callers| && Run(n, labels).callers[t].Running?
    ensures var s, s' := Run(n, labels), Run(n, labels + [Advance(t)]);
            && |s'.callers| == |s.callers| && OnlyMoved(s, s', t)
            && match s'.callers[t]
               case Idle => s.callers[t].ticket in s'.replies && s'.lock != Some(t)
               case Waiting(_) => false
               case Running(k, step) =>
                 k == s.callers[t].ticket && Work(s'.dev, step) < Work(s.dev, s.callers[t].step)
  {
    hide Turn, Sequential, Work, StepOk, Represents, CallerOk, Finish;
    var s := Run(n, labels);
    RunNext(n, labels, Advance(t));
    RunInv(n, labels);
    Linearizable(n, labels + [Advance(t)]);
    assert HoldsLock(s.callers[t]) || s.callers[t].step.Seeking?;
    if s.callers[t].step.Seeking? {
      SeekingOk(s.dev, s.log, s.log, s.fPos[t], s.callers[t].step);
    }
    TurnKeepsFinish(s.dev, s.log, s.fPos[t], s.callers[t].step);
    TurnWorks(s.dev, s.log, s.fPos[t], s.callers[t].step);
  }

  /** A running caller's own steps bring it to its return, with its reply recorded. */
  lemma {:induction false} RunningReturns(n: nat, labels: seq<Label>, t: nat) returns (m: nat)
    requires t < |Run(n, labels).callers| && Run(n, labels).callers[t].Running?
    ensures m <= Work(Run(n, labels).dev, Run(n, labels).callers[t].step)
    ensures var s, s' := Run(n, labels), Run(n, labels + Steps(t, m));
            && OnlyMoved(s, s', t)
            && s'.callers[t].Idle? && s.callers[t].ticket in s'.replies && s'.lock != Some(t)
    decreases Work(Run(n, labels).dev, Run(n, labels).callers[t].step)
  {
    hide Run, Work, Steps;
    RunningStep(n, labels, t);
    var more := labels + [Advance(t)];
    StepsNext(labels, t, 0);
    StepsNext(more, t, 0);
    if Run(n, more).callers[t].Idle? {
      m := 1;
      WorkLeft(Run(n, labels).dev, Run(n, labels).callers[t].step);
    } else {
      var m' := RunningReturns(n, more, t);
      m := m' + 1;
      StepsNext(labels, t, m');
    }
  }

  /** A waiting caller that finds the lock free, or does not need it, returns by its own steps: its call
      is the next in the order, and its reply is what the call returns after those before it. */
  lemma WaitingReturns(n: nat, labels: seq<Label>, t: nat) returns (m: nat)
    requires t < |Run(n, labels).callers| && Run(n, labels).callers[t].Waiting?
    requires Run(n, labels).lock == None || !NeedsLock(Run(n, labels).callers[t].call)
    ensures m <= 1 + Work(Run(n, labels).dev, FirstStep(Run(n, labels).callers[t].call))
    ensures Returned(n, Run(n, labels), t, Run(n, labels + Steps(t, m)))
  {
    hide Turn, Sequential, Work, Apply, FirstStep;
    var s := Run(n, labels);
    var call := s.callers[t].call;
    var more := labels + [Advance(t)];
    RunNext(n, labels, Advance(t));
    RunInv(n, labels);
    hide Run, Steps, Inv;
    StepsNext(labels, t, 0);
    StepsNext(more, t, 0);
    if NeedsLock(call) {
      var m' := RunningReturns(n, more, t);
      m := m' + 1;
      StepsNext(labels, t, m');
    } else {
      m := 1;
    }
    RunInv(n, labels + Steps(t, m));
    OrderedReply(n, labels, labels + Steps(t, m), t, call);
  }

  /** From `s`, in which caller `t` waits, to `s'`, it has returned: its call is the next in the order,
      and its reply is what the call returns after those before it. */
  ghost predicate Returned(n: nat, s: State, t: nat, s': State) {
    && t < n == |s.callers| == |s'.callers| && s.callers[t].Waiting? && s'.callers[t].Idle?
    && s'.order == s.order + [(t, s.callers[t].call)]
    && |s.order| in s'.replies
    && Among(n, s.order)
    && var q := Sequential(n, s.order);
       s'.replies[|s.order|] == Apply(q.log, q.fPos[t], s.callers[t].call).reply
  }

  lemma OrderedReply(n: nat, labels: seq<Label>, labels': seq<Label>, t: nat, call: Call)
    requires Run(n, labels').order == Run(n, labels).order + [(t, call)]
    requires |Run(n, labels).order| in Run(n, labels').replies
    ensures var s, s' := Run(n, labels), Run(n, labels');
            && t < n && Among(n, s.order)
            && var q := Sequential(n, s.order);
               s'.replies[|s.order|] == Apply(q.log, q.fPos[t], call).reply
  {
    hide Run, Apply;
    Linearizable(n, labels);
    Linearizable(n, labels');
    var s, s' := Run(n, labels), Run(n, labels');
    assert s'.order[|s.order|] == (t, call);
    SequentialNext(n, s.order, t, call);
  }

  /** Whoever has the lock, if anyone, or the caller itself. */
  function Holder(s: State, t: nat): nat {
    if s.lock.Some? then s.lock.value else t
  }

  /** From every reachable state every waiting call can be run to its return: `first` steps of the
      caller that has the lock, none if it is free, then `own` steps of its own. */
  lemma WaitingCallReturns(n: nat, labels: seq<Label>, t: nat) returns (first: nat, own: nat)
    requires t < |Run(n, labels).callers| && Run(n, labels).callers[t].Waiting?
    ensures var s, h := Run(n, labels), Holder(Run(n, labels), t);
            if s.lock == None then first == 0
            else h < |s.callers| && s.callers[h].Running? && first <= Work(s.dev, s.callers[h].step)
    ensures var s := Run(n, labels);
            var before := labels + Steps(Holder(s, t), first);
            && own <= 1 + Work(Run(n, before).dev, FirstStep(s.callers[t].call))
            && Returned(n, s, t, Run(n, before + Steps(t, own)))
  {
    var s := Run(n, labels);
    var h := Holder(s, t);
    Linearizable(n, labels);
    assert s.lock == Some(h) ==> HoldsLock(s.callers[h]);
    hide Run, Work, FirstStep, Sequential, Apply, Steps;
    first := 0;
    StepsNext(labels, h, 0);
    if s.lock.Some? {
      first := RunningReturns(n, labels, h);
    }
    var before := labels + Steps(h, first);
    own := WaitingReturns(n, before, t);
  }

  /** So every call that is made can be run to its return, whatever everybody else is in the middle of. */
  lemma EveryCallReturns(n: nat, labels: seq<Label>, t: nat, call: Call) returns (first: nat, own: nat)
    requires t < |Run(n, labels).callers| && Run(n, labels).callers[t].Idle?
    ensures var made := Run(n, labels + [Invoke(t, call)]);
            && made == Run(n, labels).(callers := Run(n, labels).callers[t := Waiting(call)])
            && Returned(n, made, t,
                        Run(n, labels + [Invoke(t, call)] + Steps(Holder(made, t), first) + Steps(t, own)))
  {
    RunInv(n, labels);
    RunNext(n, labels, Invoke(t, call));
    hide Run, Steps, Returned;
    first, own := WaitingCallReturns(n, labels + [Invoke(t, call)], t);
  }
}
