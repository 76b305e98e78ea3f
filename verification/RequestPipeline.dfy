/** Every run of a request's serializer pipeline, interleaved at lock boundaries. */
module RequestPipeline {
  import opened Parsing
  import opened RequestLifecycle

  /** Where one activation of processNextResponseSerializer, and the serializer it starts, is. `seen` is the
      number of serializers there were when none was left to start. */
  datatype Activation =
    | Next
    | Fetched(id: nat)
    | Running(id: nat)
    | Clearing(seen: nat)
    | Delivering(completions: seq<nat>)

  /** `checking`: finish() has passed its guard and not yet set isFinishing; the serial queue it runs on
      admits one at a time. The last three components record the run. */
  datatype System = System(
    guarded: Guarded, checking: bool, active: seq<Activation>,
    appended: seq<nat>, started: seq<nat>, delivered: seq<nat>)

  datatype Step =
    | Append(id: nat)
    | FinishGuard
    | FinishSet
    | Fetch(t: nat)
    | StartSerializer(t: nat)
    | CompleteSerializer(t: nat)
    | Clear(t: nat)
    | CallCompletions(t: nat)
    | Cancel
    | Suspend
    | Resume
    | CancelDisposition

  predicate Enabled(s: System, step: Step) {
    match step
    case Append(id) => id !in s.appended
    case FinishGuard => !s.checking
    case FinishSet => s.checking
    case Fetch(t) => t < |s.active| && s.active[t].Next?
    case StartSerializer(t) => t < |s.active| && s.active[t].Fetched?
    case CompleteSerializer(t) => t < |s.active| && s.active[t].Running?
    case Clear(t) => t < |s.active| && s.active[t].Clearing?
    case CallCompletions(t) => t < |s.active| && s.active[t].Delivering?
    case _ => true
  }

  function Go(s: System, t: nat, a: Activation): System
    requires t < |s.active|
  {
    s.(active := s.active[t := a])
  }

  function Apply(s: System, step: Step): System
    requires Enabled(s, step)
  {
    var g := s.guarded;
    match step
    case Append(id) =>
      s.(guarded := AppendSection(g, id), appended := s.appended + [id],
         active := s.active + if g.processingFinished then [Next] else [])
    case FinishGuard => s.(checking := !g.isFinishing)
    case FinishSet => s.(guarded := g.(isFinishing := true), checking := false, active := s.active + [Next])
    case Fetch(t) =>
      var next := NextSerializer(g);
      Go(s, t, if next.Some? then Fetched(next.value) else Clearing(|g.serializers|))
    case StartSerializer(t) => Go(s, t, Running(s.active[t].id)).(started := s.started + [s.active[t].id])
    case CompleteSerializer(t) => Go(s, t, Next).(guarded := g.(completions := g.completions + [s.active[t].id]))
    case Clear(t) => Go(s, t, Delivering(g.completions)).(guarded := ClearSection(g))
    case CallCompletions(t) =>
      s.(active := s.active[..t] + s.active[t + 1..], delivered := s.delivered + s.active[t].completions)
    case Cancel => s.(guarded := MoveTo(g, Cancelled))
    case Suspend => s.(guarded := MoveTo(g, Suspended))
    case Resume => s.(guarded := MoveTo(g, Resumed))
    case CancelDisposition => s.(guarded := g.(state := Cancelled))
  }

  function Init(): System {
    System(Guarded(Initialized, [], [], false, false), false, [], [], [], [])
  }

  predicate Allowed(s: System, steps: seq<Step>)
    decreases |steps|
  {
    steps != [] ==> Enabled(s, steps[0]) && Allowed(Apply(s, steps[0]), steps[1..])
  }

  function Run(s: System, steps: seq<Step>): System
    requires Allowed(s, steps)
    decreases |steps|
  {
    if steps == [] then s else Run(Apply(s, steps[0]), steps[1..])
  }

  // ---------- Until processing is first finished ----------

  predicate Distinct(ids: seq<nat>) {
    forall i, j :: 0 <= i < j < |ids| ==> ids[i] != ids[j]
  }

  /** One activation at most; the completions are the first serializers in order, and what has been started
      is those and the one running. */
  predicate Orderly(s: System) {
    var g := s.guarded;
    && Distinct(s.appended) && g.serializers == s.appended && s.delivered == []
    && |g.completions| <= |s.appended| && g.completions == s.appended[..|g.completions|]
    && (s.checking ==> !g.isFinishing)
    && |s.active| == (if g.isFinishing then 1 else 0)
    && (if !g.isFinishing then s.started == g.completions
        else
          match s.active[0]
          case Next => s.started == g.completions
          case Fetched(id) => s.started == g.completions && NextSerializer(g) == Some(id)
          case Running(id) => s.started == g.completions + [id] && NextSerializer(g) == Some(id)
          case Clearing(seen) => s.started == g.completions && |g.completions| == seen
          case Delivering(_) => false)
  }

  lemma AppendOrderly(s: System, id: nat)
    requires Enabled(s, Append(id)) && Orderly(s) && !s.guarded.processingFinished
    ensures Orderly(Apply(s, Append(id)))
  {
    var g := s.guarded;
    assert (s.appended + [id])[..|g.completions|] == g.completions;
  }

  lemma FinishOrderly(s: System, step: Step)
    requires Enabled(s, step) && Orderly(s) && (step.FinishGuard? || step.FinishSet?)
    ensures Orderly(Apply(s, step))
  {
  }

  lemma SerializerOrderly(s: System, step: Step)
    requires Enabled(s, step) && Orderly(s) && (step.Fetch? || step.StartSerializer? || step.CompleteSerializer?)
    ensures Orderly(Apply(s, step))
  {
  }

  lemma MoveOrderly(s: System, next: RequestState)
    requires Orderly(s)
    ensures Orderly(s.(guarded := MoveTo(s.guarded, next))) && Orderly(s.(guarded := s.guarded.(state := next)))
  {
    hide Distinct;
  }

  lemma StepOrderly(s: System, step: Step)
    requires Enabled(s, step) && Orderly(s) && !s.guarded.processingFinished
    requires !Apply(s, step).guarded.processingFinished
    ensures Orderly(Apply(s, step))
  {
    match step
    case Append(id) => AppendOrderly(s, id);
    case FinishGuard => FinishOrderly(s, step);
    case FinishSet => FinishOrderly(s, step);
    case Cancel => MoveOrderly(s, Cancelled);
    case Suspend => MoveOrderly(s, Suspended);
    case Resume => MoveOrderly(s, Resumed);
    case CancelDisposition => MoveOrderly(s, Cancelled);
    case Clear(_) =>
    case CallCompletions(_) =>
    case _ => SerializerOrderly(s, step);
  }

  lemma {:induction false} FlagStays(s: System, steps: seq<Step>)
    requires Allowed(s, steps) && s.guarded.processingFinished
    ensures Run(s, steps).guarded.processingFinished
    decreases |steps|
  {
    if steps != [] {
      FlagStays(Apply(s, steps[0]), steps[1..]);
    }
  }

  lemma {:induction false} RunOrderly(s: System, steps: seq<Step>)
    requires Allowed(s, steps) && Orderly(s) && !Run(s, steps).guarded.processingFinished
    ensures Orderly(Run(s, steps))
    decreases |steps|
  {
    hide Orderly, Enabled, Apply;
    if s.guarded.processingFinished {
      FlagStays(s, steps);
    } else if steps != [] {
      var s' := Apply(s, steps[0]);
      if s'.guarded.processingFinished { FlagStays(s', steps[1..]); }
      StepOrderly(s, steps[0]);
      RunOrderly(s', steps[1..]);
    }
  }

  lemma InitOrderly()
    ensures Orderly(Init())
  {
  }

  /** Until processing is first finished, under any interleaving: serializers start in the order they were
      appended, each at most once, one at a time, and their completions are collected in that order. */
  lemma SerializersInOrder(steps: seq<Step>)
    requires Allowed(Init(), steps) && !Run(Init(), steps).guarded.processingFinished
    ensures var s := Run(Init(), steps);
      && s.started <= s.appended && Distinct(s.started)
      && s.guarded.completions <= s.started && |s.started| - |s.guarded.completions| <= 1
      && s.delivered == []
  {
    hide Run, Allowed;
    InitOrderly();
    RunOrderly(Init(), steps);
  }

  /** The first clearing delivers exactly the serializers appended before the pipeline saw that none was
      left; those appended in between are discarded unstarted. */
  lemma FirstClear(steps: seq<Step>, t: nat)
    requires Allowed(Init(), steps) && !Run(Init(), steps).guarded.processingFinished
    requires Enabled(Run(Init(), steps), Clear(t))
    ensures var s := Run(Init(), steps); var seen := s.active[t].seen;
      && seen <= |s.appended|
      && s.started == s.appended[..seen]
      && Apply(s, Clear(t)).active[t] == Delivering(s.appended[..seen])
      && forall i :: seen <= i < |s.appended| ==> Gone(Apply(s, Clear(t)), s.appended[i])
  {
    hide Run, Allowed;
    InitOrderly();
    RunOrderly(Init(), steps);
    var s := Run(Init(), steps);
    var seen := s.active[t].seen;
    assert forall i, j :: 0 <= i < seen <= j < |s.appended| ==> s.appended[i] != s.appended[j];
  }

  /** Appended, not started, and in no list and no activation any more. */
  predicate Gone(s: System, x: nat) {
    && x in s.appended && x !in s.started && x !in s.delivered
    && x !in s.guarded.serializers && x !in s.guarded.completions
    && forall i :: 0 <= i < |s.active| ==> !Holds(s.active[i], x)
  }

  predicate Holds(a: Activation, x: nat) {
    match a
    case Fetched(id) => id == x
    case Running(id) => id == x
    case Delivering(ids) => x in ids
    case _ => false
  }

  lemma StepGone(s: System, step: Step, x: nat)
    requires Enabled(s, step) && Gone(s, x)
    ensures Gone(Apply(s, step), x)
  {
  }

  /** A discarded serializer never runs and its completion is never called, whatever happens later. */
  lemma {:induction false} GoneForever(s: System, steps: seq<Step>, x: nat)
    requires Allowed(s, steps) && Gone(s, x)
    ensures Gone(Run(s, steps), x)
    decreases |steps|
  {
    hide Gone, Enabled, Apply;
    if steps != [] {
      StepGone(s, steps[0], x);
      GoneForever(Apply(s, steps[0]), steps[1..], x);
    }
  }

  /** Cancellation is final in every run. */
  lemma {:induction false} CancelledForever(s: System, steps: seq<Step>)
    requires Allowed(s, steps) && s.guarded.state == Cancelled
    ensures Run(s, steps).guarded.state == Cancelled
    decreases |steps|
  {
    if steps != [] {
      CancelledForever(Apply(s, steps[0]), steps[1..]);
    }
  }

  /** canTransitionTo as a table: anything from the start, nothing from an end, and in between anything but
      back to the start or to itself. */
  lemma TransitionTable(was: RequestState, next: RequestState)
    ensures was.CanTransitionTo(next) <==>
      was == Initialized || ((was == Resumed || was == Suspended) && next != Initialized && next != was)
  {
  }

  /** What each call does to the state, and to nothing else. */
  lemma CallsExactly(s: System)
    ensures var g := s.guarded;
      && Apply(s, Cancel) == s.(guarded := g.(state := if g.state == Finished then Finished else Cancelled))
      && Apply(s, Suspend) ==
           s.(guarded := g.(state := if g.state == Initialized || g.state == Resumed then Suspended else g.state))
      && Apply(s, Resume) ==
           s.(guarded := g.(state := if g.state == Initialized || g.state == Suspended then Resumed else g.state))
      && Apply(s, CancelDisposition) == s.(guarded := g.(state := Cancelled))
  {
  }

  /** What the steps of the pipeline do to the state: only an append to a finished request and a clearing
      change it. */
  lemma PipelineStates(s: System, step: Step)
    requires Enabled(s, step) && !step.Cancel? && !step.Suspend? && !step.Resume? && !step.CancelDisposition?
    ensures var was := s.guarded.state;
      Apply(s, step).guarded.state ==
        if step.Append? && was == Finished then Resumed
        else if step.Clear? && was != Cancelled then Finished
        else was
  {
  }

  lemma StepFlags(s: System, step: Step)
    requires Enabled(s, step)
    ensures var g, g' := s.guarded, Apply(s, step).guarded;
      && g'.isFinishing == (if step.FinishSet? then true else if step.Clear? then false else g.isFinishing)
      && g'.processingFinished == (g.processingFinished || step.Clear?)
      && (step.FinishGuard? ==> Apply(s, step).checking == !g.isFinishing)
  {
  }

  /** finish() has been called since the last clearing. */
  function Finishing(was: bool, steps: seq<Step>): bool
    decreases |steps|
  {
    if steps == [] then was
    else Finishing(if steps[0].FinishSet? then true else if steps[0].Clear? then false else was, steps[1..])
  }

  /** In every run finish() is refused exactly if it has been called since the last clearing, and processing
      counts as finished exactly if there has been a clearing. */
  lemma {:induction false} FlagsExactly(s: System, steps: seq<Step>)
    requires Allowed(s, steps)
    ensures var r := Run(s, steps);
      && r.guarded.isFinishing == Finishing(s.guarded.isFinishing, steps)
      && (r.guarded.processingFinished <==>
            s.guarded.processingFinished || exists i :: 0 <= i < |steps| && steps[i].Clear?)
    decreases |steps|
  {
    hide Enabled, Apply;
    if steps != [] {
      var s' := Apply(s, steps[0]);
      StepFlags(s, steps[0]);
      FlagsExactly(s', steps[1..]);
      assert steps == [steps[0]] + steps[1..];
    }
  }

  /** A request that is cancelled before it has finished stays cancelled in every run. */
  lemma CancelIsFinal(s: System, steps: seq<Step>)
    requires s.guarded.state != Finished && Allowed(Apply(s, Cancel), steps)
    ensures Run(Apply(s, Cancel), steps).guarded.state == Cancelled
  {
    hide Allowed, Run;
    CallsExactly(s);
    CancelledForever(Apply(s, Cancel), steps);
  }

  /** Every step keeps the state or moves it along canTransitionTo, but for the two that leave `finished`. */
  lemma TransitionsExactly(s: System, step: Step)
    requires Enabled(s, step)
    ensures var was, now := s.guarded.state, Apply(s, step).guarded.state;
      now == was || was.CanTransitionTo(now) <==> !(was == Finished && (step.Append? || step.CancelDisposition?))
  {
  }

  // ---------- After processing has finished ----------

  /** A request without serializers finishes. */
  function FinishRun(): seq<Step> {
    [FinishGuard, FinishSet, Fetch(0), Clear(0), CallCompletions(0)]
  }

  /** Two serializers appended to a finished request each queue an activation, and the first of them is
      started twice. */
  function TwiceStarted(): seq<Step> {
    FinishRun() + [Append(7), Append(8), Fetch(0), Fetch(1), StartSerializer(0), StartSerializer(1)]
  }

  function Snapshot(k: nat): System {
    var initial := Guarded(Initialized, [], [], false, false);
    var finishing := initial.(isFinishing := true);
    var finished := Guarded(Finished, [], [], true, false);
    var one := Guarded(Resumed, [7], [], true, false);
    var two := one.(serializers := [7, 8]);
    match k
    case 0 => Init()
    case 1 => System(initial, true, [], [], [], [])
    case 2 => System(finishing, false, [Next], [], [], [])
    case 3 => System(finishing, false, [Clearing(0)], [], [], [])
    case 4 => System(finished, false, [Delivering([])], [], [], [])
    case 5 => System(finished, false, [], [], [], [])
    case 6 => System(one, false, [Next], [7], [], [])
    case 7 => System(two, false, [Next, Next], [7, 8], [], [])
    case 8 => System(two, false, [Fetched(7), Next], [7, 8], [], [])
    case 9 => System(two, false, [Fetched(7), Fetched(7)], [7, 8], [], [])
    case 10 => System(two, false, [Running(7), Fetched(7)], [7, 8], [7], [])
    case _ => System(two, false, [Running(7), Running(7)], [7, 8], [7, 7], [])
  }

  lemma FinishTurns(k: nat)
    requires k < 5
    ensures Enabled(Snapshot(k), TwiceStarted()[k]) && Apply(Snapshot(k), TwiceStarted()[k]) == Snapshot(k + 1)
  {
  }

  lemma AppendTurns(k: nat)
    requires 5 <= k < 8
    ensures Enabled(Snapshot(k), TwiceStarted()[k]) && Apply(Snapshot(k), TwiceStarted()[k]) == Snapshot(k + 1)
  {
  }

  lemma StartTurns(k: nat)
    requires 8 <= k < 11
    ensures Enabled(Snapshot(k), TwiceStarted()[k]) && Apply(Snapshot(k), TwiceStarted()[k]) == Snapshot(k + 1)
  {
    hide ClearSection, AppendSection, MoveTo;
  }

  lemma {:induction false} SnapshotRun(k: nat, n: nat)
    requires k <= n <= 11
    ensures Allowed(Snapshot(k), TwiceStarted()[k..n]) && Run(Snapshot(k), TwiceStarted()[k..n]) == Snapshot(n)
    decreases n - k
  {
    hide Snapshot, Enabled, Apply;
    if k < n {
      if k < 5 { FinishTurns(k); } else if k < 8 { AppendTurns(k); } else { StartTurns(k); }
      SnapshotRun(k + 1, n);
      assert TwiceStarted()[k..n][1..] == TwiceStarted()[k + 1..n];
    }
  }

  lemma StartedTwiceAfterFinish()
    ensures Allowed(Init(), TwiceStarted()) && Run(Init(), TwiceStarted()).started == [7, 7]
  {
    hide Allowed, Run;
    SnapshotRun(0, 11);
    assert TwiceStarted()[0..11] == TwiceStarted();
  }

  /** From the finished request both steps go where canTransitionTo does not. */
  lemma FinishedIsLeft()
    ensures Allowed(Init(), FinishRun()) && Run(Init(), FinishRun()) == Snapshot(5)
    ensures Snapshot(5).guarded.state == Finished
    ensures Apply(Snapshot(5), Append(7)).guarded.state == Resumed && !Finished.CanTransitionTo(Resumed)
    ensures Apply(Snapshot(5), CancelDisposition).guarded.state == Cancelled && !Finished.CanTransitionTo(Cancelled)
  {
    hide Allowed, Run;
    SnapshotRun(0, 5);
    assert TwiceStarted()[0..5] == FinishRun();
  }

  /** A serializer appended after the pipeline has found none left and before it clears is lost. */
  lemma LostAtFirstClear()
    ensures Allowed(Init(), FinishRun()[..3]) && Run(Init(), FinishRun()[..3]) == Snapshot(3)
    ensures Gone(Apply(Apply(Snapshot(3), Append(7)), Clear(0)), 7)
  {
    hide Allowed, Run;
    SnapshotRun(0, 3);
    assert TwiceStarted()[0..3] == FinishRun()[..3];
  }
}
