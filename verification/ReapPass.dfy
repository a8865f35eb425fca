/** What one reap pass of the accept loop does, while workers go on setting their flags under it. */
module ReapPass {
  import opened Options
  import opened Sequences
  import opened ThreadList
  import opened ThreadProtocol

  /** The list and the joined threads when the latest pass began, and what main has looked at since: which
      entries, and whether `is_done` was set just then.  This records a run and has no part in it. */
  datatype Pass = Pass(list: seq<nat>, joined: seq<nat>, looked: seq<nat>, observed: seq<bool>)

  function Record(p: Pass, s: State, l: Label): Pass {
    if !l.MainStep? || !Enabled(s, l) then p
    else match s.main
      case Creating(_) => if l.ok then Pass(s.list, s.joined, [], []) else p
      case Check(v, _) => p.(looked := p.looked + [v], observed := p.observed + [v in s.isDone])
      case _ => p
  }

  function LatestPass(labels: seq<Label>): Pass {
    if labels == [] then Pass([], [], [], [])
    else
      var before := labels[..|labels| - 1];
      Record(LatestPass(before), Run(before), labels[|labels| - 1])
  }

  /** The first `i` entries of the pass, as far as they were seen done (`want`) or not. */
  function Sorted(p: Pass, i: nat, want: bool): seq<nat>
    requires i <= |p.list| && i <= |p.observed|
  {
    Keep(p.list[..i], p.observed[..i], want)
  }

  /** Main has joined those of the first `j` entries, and unlinked those of the first `i`, that were
      seen done. */
  ghost predicate Reaped(s: State, p: Pass, i: nat, j: nat) {
    && i <= |p.observed| && j <= |p.observed| <= |p.list|
    && s.list == Sorted(p, i, false) + p.list[i..]
    && s.joined == p.joined + Sorted(p, j, true)
  }

  ghost predicate PassOk(s: State, p: Pass) {
    var i := |p.observed|;
    && i <= |p.list| && p.looked == p.list[..i] && Distinct(p.list)
    && match s.main
       case Walk(false, at) => Reaped(s, p, i, i) && at == First(p.list[i..])
       case Check(v, next) => Reaped(s, p, i, i) && i < |p.list| && v == p.list[i] && next == First(p.list[i + 1..])
       case Join(false, v, next) => i > 0 && LastSeenDone(p, v, next) && Reaped(s, p, i - 1, i - 1)
       case Unlink(false, v, next) => i > 0 && LastSeenDone(p, v, next) && Reaped(s, p, i - 1, i)
       case Free(false, v, next) => i > 0 && LastSeenDone(p, v, next) && Reaped(s, p, i, i)
       case Top => i == |p.list| && Reaped(s, p, i, i)
       case Accepting(_) => i == |p.list| && Reaped(s, p, i, i)
       case Creating(e) => i == |p.list| && [e] <= s.list && Reaped(s.(list := s.list[1..]), p, i, i)
       case _ => true
  }

  /** Main is at the entry it looked at last, which was done. */
  predicate LastSeenDone(p: Pass, v: nat, next: Option<nat>) {
    var i := |p.observed|;
    && 0 < i <= |p.list|
    && p.observed[i - 1] && v == p.list[i - 1] && next == First(p.list[i..])
  }

  // ----- lists

  lemma {:induction false} AtMiddle(a: seq<nat>, v: nat, b: seq<nat>)
    requires v !in a
    ensures Successor(a + [v] + b, v) == First(b)
    ensures Removing(a + [v] + b, v) == a + b
  {
    var s := a + [v] + b;
    if a == [] {
      assert s[1..] == b && a + b == b;
    } else {
      AtMiddle(a[1..], v, b);
      assert s[1..] == a[1..] + [v] + b;
      assert [a[0]] + (a[1..] + b) == a + b;
    }
  }

  lemma SortedNext(p: Pass, i: nat, want: bool)
    requires i < |p.list| && i < |p.observed|
    ensures Sorted(p, i + 1, want) == Sorted(p, i, want) + if p.observed[i] == want then [p.list[i]] else []
  {
    assert p.list[..i + 1][..i] == p.list[..i];
    assert p.observed[..i + 1][..i] == p.observed[..i];
  }

  lemma SortedSame(p: Pass, p': Pass, i: nat, want: bool)
    requires i <= |p.list| && p'.list == p.list && i <= |p.observed| && p.observed <= p'.observed
    ensures Sorted(p', i, want) == Sorted(p, i, want)
  {
    assert p'.observed[..i] == p.observed[..i];
  }

  /** The `i`-th entry is in the list after those kept, and next to it is the entry after it. */
  lemma EntryInList(s: State, p: Pass, i: nat, j: nat)
    requires Reaped(s, p, i, j) && Distinct(p.list) && i < |p.list|
    ensures s.list == Sorted(p, i, false) + [p.list[i]] + p.list[i + 1..]
    ensures Successor(s.list, p.list[i]) == First(p.list[i + 1..])
    ensures Removing(s.list, p.list[i]) == Sorted(p, i, false) + p.list[i + 1..]
  {
    hide Keep;
    KeepWithin(p.list[..i], p.observed[..i], false);
    assert p.list[i..] == [p.list[i]] + p.list[i + 1..];
    assert Sorted(p, i, false) + ([p.list[i]] + p.list[i + 1..]) == Sorted(p, i, false) + [p.list[i]] + p.list[i + 1..];
    AtMiddle(Sorted(p, i, false), p.list[i], p.list[i + 1..]);
  }

  // ----- every step keeps it

  lemma WalkKeepsPass(s: State, p: Pass, ok: bool)
    requires Inv(s) && PassOk(s, p) && s.main.Walk? && !s.main.final
    ensures PassOk(MainNext(s, ok), Record(p, s, MainStep(ok)))
  {
    hide Sorted, Distinct, Inv;
    if s.main.at.Some? {
      EntryInList(s, p, |p.observed|, |p.observed|);
    }
  }

  lemma CheckKeepsPass(s: State, p: Pass, ok: bool)
    requires Inv(s) && PassOk(s, p) && s.main.Check?
    ensures PassOk(MainNext(s, ok), Record(p, s, MainStep(ok)))
  {
    hide Sorted, Distinct, Inv;
    var i, p' := |p.observed|, Record(p, s, MainStep(ok));
    EntryInList(s, p, i, i);
    SeenNext(p, s.main.v in s.isDone);
  }

  /** One more entry looked at. */
  lemma SeenNext(p: Pass, done: bool)
    requires |p.observed| < |p.list|
    ensures var i, p' := |p.observed|, p.(looked := p.looked + [p.list[|p.observed|]], observed := p.observed + [done]);
            && p.list[..i + 1] == p.list[..i] + [p.list[i]]
            && Sorted(p', i, false) == Sorted(p, i, false)
            && Sorted(p', i, true) == Sorted(p, i, true)
            && Sorted(p', i + 1, false) == Sorted(p, i, false) + (if done then [] else [p.list[i]])
            && Sorted(p', i + 1, true) == Sorted(p, i, true) + (if done then [p.list[i]] else [])
  {
    hide Sorted;
    var i, p' := |p.observed|, p.(looked := p.looked + [p.list[|p.observed|]], observed := p.observed + [done]);
    SortedSame(p, p', i, false);
    SortedSame(p, p', i, true);
    SortedNext(p', i, false);
    SortedNext(p', i, true);
  }

  lemma ReapKeepsPass(s: State, p: Pass, ok: bool)
    requires Inv(s) && PassOk(s, p)
    requires match s.main
             case Join(final, _, _) => !final
             case Unlink(final, _, _) => !final
             case Free(final, _, _) => !final
             case _ => false
    ensures PassOk(MainNext(s, ok), Record(p, s, MainStep(ok)))
  {
    hide Sorted, Distinct, Inv;
    var i := |p.observed|;
    SortedNext(p, i - 1, false);
    SortedNext(p, i - 1, true);
    if s.main.Unlink? {
      EntryInList(s, p, i - 1, i);
    }
  }

  lemma BeginPass(s: State, p: Pass)
    requires Inv(s) && s.main.Creating?
    ensures PassOk(MainNext(s, true), Record(p, s, MainStep(true)))
  {
    var p' := Record(p, s, MainStep(true));
    assert p'.list[0..] == p'.list && [] + p'.list == p'.list;
  }

  lemma OtherKeepsPass(s: State, p: Pass, l: Label)
    requires PassOk(s, p) && Enabled(s, l)
    requires l.MainStep? ==>
               match s.main
               case Walk(final, _) => final
               case Join(final, _, _) => final
               case Unlink(final, _, _) => final
               case Free(final, _, _) => final
               case Creating(_) => !l.ok
               case Check(_, _) => false
               case _ => true
    ensures PassOk(Exec(s, l), Record(p, s, l))
  {
    hide Sorted;
  }

  lemma {:induction false} RunPass(labels: seq<Label>)
    ensures PassOk(Run(labels), LatestPass(labels))
  {
    if labels != [] {
      var before, l := labels[..|labels| - 1], labels[|labels| - 1];
      RunPass(before);
      RunInv(before);
      var s, p := Run(before), LatestPass(before);
      hide PassOk, Inv;
      if Enabled(s, l) {
        StepKeepsPass(s, p, l);
      }
    }
  }

  lemma StepKeepsPass(s: State, p: Pass, l: Label)
    requires Inv(s) && PassOk(s, p) && Enabled(s, l)
    ensures PassOk(Exec(s, l), Record(p, s, l))
  {
    hide PassOk, Inv, Record;
    match l
    case MainStep(ok) =>
      if s.main.Walk? && !s.main.final {
        WalkKeepsPass(s, p, ok);
      } else if s.main.Check? {
        CheckKeepsPass(s, p, ok);
      } else if s.main.Creating? && ok {
        BeginPass(s, p);
      } else if (s.main.Join? || s.main.Unlink? || s.main.Free?) && !s.main.final {
        ReapKeepsPass(s, p, ok);
      } else {
        OtherKeepsPass(s, p, l);
      }
    case _ => OtherKeepsPass(s, p, l);
  }

  // ----- what a whole pass does

  /** In every run, whenever a pass is over or main is ready to accept: main has looked at every entry of
      the list as it was when the latest thread was started, once and in order; the entries it found done
      are joined, in that order, unlinked and freed; the others are the list, in theirs, and live. */
  lemma PassReapsDone(labels: seq<Label>)
    requires Run(labels).main == Walk(false, None) || Run(labels).main.Top?
    ensures var s, p := Run(labels), LatestPass(labels);
            && p.looked == p.list && |p.observed| == |p.list|
            && s.list == Keep(p.list, p.observed, false)
            && s.joined == p.joined + Keep(p.list, p.observed, true)
            && s.live == set x | x in s.list
  {
    RunPass(labels);
    RunInv(labels);
    var p := LatestPass(labels);
    assert p.list[..|p.list|] == p.list && p.observed[..|p.list|] == p.observed;
  }
}
