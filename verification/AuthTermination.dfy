/** No run goes on by itself for ever: without new calls, whatever the order of the steps and whatever the
    authenticator answers, only credentials that need a refresh again and again keep the system going. */
module AuthTermination {
  import opened Parsing
  import opened AuthInterceptor
  import opened AuthProtocol
  import opened AuthProgress

  /** A lock section of adapt for which the credential requires a refresh. */
  predicate Demands(step: Step) {
    (step.AdaptLock? && step.needsRefresh) || (step.RunBlock? && step.needsRefresh)
  }

  function Demand(steps: seq<Step>): nat {
    if steps == [] then 0 else (if Demands(steps[0]) then 1 else 0) + Demand(steps[1..])
  }

  // ---------- Sums over the threads ----------

  ghost function Pick(threads: map<nat, Stage>): (id: nat)
    requires threads != map[]
    ensures id in threads
  {
    var id :| id in threads;
    id
  }

  ghost function Sum(threads: map<nat, Stage>, w: Stage -> nat): nat
    decreases |threads.Keys|
  {
    if threads == map[] then 0
    else
      var id := Pick(threads);
      assert (threads - {id}).Keys == threads.Keys - {id};
      w(threads[id]) + Sum(threads - {id}, w)
  }

  lemma {:induction false} SumSplit(threads: map<nat, Stage>, id: nat, w: Stage -> nat)
    requires id in threads
    ensures Sum(threads, w) == w(threads[id]) + Sum(threads - {id}, w)
    decreases |threads.Keys|
  {
    var k := Pick(threads);
    if k != id {
      assert (threads - {k}).Keys == threads.Keys - {k} && (threads - {id}).Keys == threads.Keys - {id};
      SumSplit(threads - {k}, id, w);
      SumSplit(threads - {id}, k, w);
      assert threads - {k} - {id} == threads - {id} - {k};
    }
  }

  lemma SumUpdate(threads: map<nat, Stage>, id: nat, stage: Stage, w: Stage -> nat)
    ensures Sum(threads[id := stage], w) == w(stage) + Sum(threads - {id}, w)
  {
    SumSplit(threads[id := stage], id, w);
    assert threads[id := stage] - {id} == threads - {id};
  }

  // ---------- The bound ----------

  /** A thread that may still start a refresh by itself. */
  function MayRefresh(stage: Stage): nat {
    if stage.AdaptEntered? || stage.Completing? then 0 else 1
  }

  /** Steps a call takes from here when at most `f` refreshes may still complete. */
  function StageWork(f: nat): Stage -> nat {
    (stage: Stage) =>
      match stage
      case AdaptEntered => 2 * f + 2
      case RetryEntered => 8
      case RetryChecked => 7
      case RetryRead(_) => 6
      case RetryMatched(_) => 5
      case Completing(_) => 1
  }

  /** Adapt operations waiting for a refresh: each completion may re-submit them all, only for them to wait
      for the next. */
  function WaitingWork(n: nat, f: nat): nat {
    n * (2 * f + 1)
  }

  function ResubmittedWork(n: nat, f: nat): nat {
    n * (2 * f + 2)
  }

  function GuardedWork(g: Guarded, f: nat): nat {
    WaitingWork(|g.adaptOperations|, f) + |g.requestsToRetry|
  }

  function HeldWork(b: Block, f: nat): nat {
    match b
    case CallRefresh(_) => 3
    case Succeed(current, adapts, retries) =>
      1 + (if current.Some? then 1 else 0) + ResubmittedWork(|adapts|, f) + |retries|
    case FailAll(_, adapts, retries) => 1 + |adapts| + |retries|
  }

  function QueueWork(queue: seq<Block>, f: nat): nat {
    if queue == [] then 0 else HeldWork(queue[0], f) + QueueWork(queue[1..], f)
  }

  /** Refreshes that may still complete, if credentials require one at most `d` more times. */
  ghost function Ahead(s: System, d: nat): nat {
    Pending(s) + Sum(s.executing, MayRefresh) + d
  }

  ghost function Total(s: System, d: nat, f: nat): nat {
    Sum(s.executing, StageWork(f)) + GuardedWork(s.guarded, f) + QueueWork(s.queue, f) + 2 * s.outstanding + 4 * d
  }

  ghost function Bound(s: System, d: nat): nat {
    Total(s, d, Ahead(s, d))
  }

  // ---------- Fewer refreshes ahead, less work ----------

  lemma WorkShrinks(n: nat, f: nat, f': nat)
    requires f' <= f
    ensures WaitingWork(n, f') <= WaitingWork(n, f) && ResubmittedWork(n, f') <= ResubmittedWork(n, f)
    ensures n <= WaitingWork(n, f)
    ensures f > 0 ==> ResubmittedWork(n, f - 1) <= WaitingWork(n, f)
  {
    Scaled(n, 2 * f' + 1, 2 * f + 1);
    Scaled(n, 2 * f' + 2, 2 * f + 2);
    Scaled(n, 1, 2 * f + 1);
    if f > 0 { Scaled(n, 2 * (f - 1) + 2, 2 * f + 1); }
  }

  lemma Scaled(n: nat, a: nat, b: nat)
    requires a <= b
    ensures n * a <= n * b
  {
  }

  lemma OneMore(n: nat, f: nat)
    ensures WaitingWork(n + 1, f) == WaitingWork(n, f) + 2 * f + 1
    ensures ResubmittedWork(n + 1, f) == ResubmittedWork(n, f) + 2 * f + 2
    ensures WaitingWork(0, f) == 0
  {
  }

  lemma {:induction false} SumShrinks(threads: map<nat, Stage>, f: nat, f': nat)
    requires f' <= f
    ensures Sum(threads, StageWork(f')) <= Sum(threads, StageWork(f))
    decreases |threads.Keys|
  {
    if threads != map[] {
      var id := Pick(threads);
      assert (threads - {id}).Keys == threads.Keys - {id};
      SumShrinks(threads - {id}, f, f');
    }
  }

  lemma {:induction false} QueueShrinks(queue: seq<Block>, f: nat, f': nat)
    requires f' <= f
    ensures QueueWork(queue, f') <= QueueWork(queue, f)
  {
    hide ResubmittedWork;
    if queue != [] {
      if queue[0].Succeed? { WorkShrinks(|queue[0].adapts|, f, f'); }
      QueueShrinks(queue[1..], f, f');
    }
  }

  lemma TotalShrinks(s: System, d: nat, f: nat, f': nat)
    requires f' <= f
    ensures Total(s, d, f') <= Total(s, d, f)
  {
    hide WaitingWork, QueueWork, Sum, StageWork;
    SumShrinks(s.executing, f, f');
    QueueShrinks(s.queue, f, f');
    WorkShrinks(|s.guarded.adaptOperations|, f, f');
  }

  lemma {:induction false} QueueWorkAppend(a: seq<Block>, b: seq<Block>, f: nat)
    ensures QueueWork(a + b, f) == QueueWork(a, f) + QueueWork(b, f)
  {
    hide HeldWork;
    if a == [] {
      assert a + b == b;
    } else {
      QueueWorkAppend(a[1..], b, f);
      assert (a + b)[1..] == a[1..] + b;
    }
  }

  lemma OneBlock(b: Block, f: nat)
    ensures QueueWork([b], f) == HeldWork(b, f) && Calls([b]) == if b.CallRefresh? then 1 else 0
    ensures QueueWork([], f) == 0
  {
    hide HeldWork;
    assert [b][1..] == [];
  }

  // ---------- What the lock sections cost ----------

  lemma RefreshCost(g: Guarded, window: Option<Window>, credential: nat, checked: real, stamped: real, f: nat)
    ensures var r := RefreshSection(g, window, credential, checked, stamped);
      GuardedWork(r.0, f) + QueueWork(r.1, f) <= GuardedWork(g, f) + 3 && Calls(r.1) <= 1
  {
    hide Excessive, WaitingWork, QueueWork;
    OneBlock(FailAll(ExcessiveRefresh, g.adaptOperations, g.requestsToRetry), f);
    OneBlock(CallRefresh(credential), f);
    WorkShrinks(|g.adaptOperations|, f, f);
    OneMore(0, f);
  }

  lemma AdaptCost(g: Guarded, window: Option<Window>, id: nat, needsRefresh: bool, checked: real, stamped: real,
      f: nat)
    ensures var r := AdaptSection(g, window, id, needsRefresh, checked, stamped);
      && GuardedWork(r.0, f) + QueueWork(r.1, f) + (if r.2.AdaptDeferred? then 0 else 1) <=
           GuardedWork(g, f) + 2 * f + 1 + (if needsRefresh then 3 else 0)
      && Calls(r.1) <= if needsRefresh then 1 else 0
  {
    hide RefreshSection, WaitingWork;
    OneMore(|g.adaptOperations|, f);
    if !g.isRefreshing && g.credential.Some? && needsRefresh {
      RefreshCost(g.(adaptOperations := g.adaptOperations + [id]), window, g.credential.value, checked, stamped, f);
    }
  }

  lemma RetryCost(g: Guarded, window: Option<Window>, id: nat, credential: nat, checked: real, stamped: real, f: nat)
    ensures var r := RetrySection(g, window, id, credential, checked, stamped);
      GuardedWork(r.0, f) + QueueWork(r.1, f) <= GuardedWork(g, f) + 4 && Calls(r.1) <= 1
  {
    hide RefreshSection, WaitingWork;
    RefreshCost(g.(requestsToRetry := g.requestsToRetry + [id]), window, credential, checked, stamped, f);
  }

  lemma CompletionCost(g: Guarded, result: Option<nat>, f: nat)
    requires f > 0
    ensures var r := CompletionSection(g, result);
      GuardedWork(r.0, f - 1) + QueueWork(r.1, f - 1) <= GuardedWork(g, f) + 1 && Calls(r.1) == 0
  {
    hide WaitingWork, ResubmittedWork, QueueWork;
    OneBlock(Succeed(None, g.adaptOperations, g.requestsToRetry), f - 1);
    OneBlock(FailAll(RefreshFailed, g.adaptOperations, g.requestsToRetry), f - 1);
    WorkShrinks(|g.adaptOperations|, f, f);
    OneMore(0, f - 1);
  }

  lemma NewHeadWork(s: System, b: Block, f: nat)
    requires s.queue != []
    ensures QueueWork(ReplaceHead(s, b).queue, f) == HeldWork(b, f) + QueueWork(Pop(s).queue, f)
    ensures Calls(ReplaceHead(s, b).queue) == (if b.CallRefresh? then 1 else 0) + Calls(Pop(s).queue)
    ensures QueueWork(s.queue, f) == HeldWork(s.queue[0], f) + QueueWork(Pop(s).queue, f)
    ensures Calls(s.queue) == (if s.queue[0].CallRefresh? then 1 else 0) + Calls(Pop(s).queue)
  {
    hide HeldWork;
    assert ReplaceHead(s, b).queue[1..] == s.queue[1..];
  }

  // ---------- Every step costs ----------

  lemma ResubmitCost(s: System, window: Option<Window>, adapts: seq<nat>, retries: seq<nat>,
                     needsRefresh: bool, checked: real, stamped: real, f: nat)
    requires s.queue != [] && s.queue[0] == Succeed(None, adapts, retries) && adapts != []
    ensures var s' := Resubmit(s, window, adapts, retries, needsRefresh, checked, stamped);
      var d := if needsRefresh then 1 else 0;
      && s'.executing == s.executing && s'.outstanding == s.outstanding
      && GuardedWork(s'.guarded, f) + QueueWork(s'.queue, f) < GuardedWork(s.guarded, f) + QueueWork(s.queue, f) + 4 * d
      && Calls(s'.queue) <= Calls(s.queue) + d
  {
    hide AdaptSection, AdaptOutcome, ResubmittedWork, GuardedWork, QueueWork, Calls;
    var r := AdaptSection(s.guarded, window, adapts[0], needsRefresh, checked, stamped);
    var b := Succeed(if r.2.AdaptDeferred? then None else Some((adapts[0], AdaptOutcome(r.2))), adapts[1..], retries);
    AdaptCost(s.guarded, window, adapts[0], needsRefresh, checked, stamped, f);
    NewHeadWork(s, b, f);
    OneMore(|adapts| - 1, f);
    QueueWorkAppend(ReplaceHead(s, b).queue, r.1, f);
    CallsAppend(ReplaceHead(s, b).queue, r.1);
  }

  lemma RunHeadCost(s: System, window: Option<Window>, needsRefresh: bool, checked: real, stamped: real, f: nat)
    requires s.queue != []
    ensures var s' := RunHead(s, window, needsRefresh, checked, stamped);
      var d := if needsRefresh then 1 else 0;
      && s'.executing == s.executing && Pending(s') <= Pending(s) + d
      && GuardedWork(s'.guarded, f) + QueueWork(s'.queue, f) + 2 * s'.outstanding <
           GuardedWork(s.guarded, f) + QueueWork(s.queue, f) + 2 * s.outstanding + 4 * d
  {
    hide Resubmit, ResubmittedWork, GuardedWork, QueueWork, Calls;
    NewHeadWork(s, s.queue[0], f);
    match s.queue[0]
    case CallRefresh(_) =>
    case Succeed(current, adapts, retries) =>
      if current.Some? {
        NewHeadWork(s, Succeed(None, adapts, retries), f);
      } else if adapts != [] {
        ResubmitCost(s, window, adapts, retries, needsRefresh, checked, stamped, f);
      } else if retries != [] {
        NewHeadWork(s, Succeed(None, [], retries[1..]), f);
      }
    case FailAll(error, adapts, retries) =>
      if adapts != [] { NewHeadWork(s, FailAll(error, adapts[1..], retries), f); }
      else if retries != [] { NewHeadWork(s, FailAll(error, [], retries[1..]), f); }
  }

  lemma ThreadMoves(threads: map<nat, Stage>, id: nat, stage: Stage, f: nat)
    requires id in threads
    ensures Sum(threads[id := stage], StageWork(f)) ==
      Sum(threads, StageWork(f)) - StageWork(f)(threads[id]) + StageWork(f)(stage)
    ensures Sum(threads[id := stage], MayRefresh) ==
      Sum(threads, MayRefresh) - MayRefresh(threads[id]) + MayRefresh(stage)
    ensures Sum(threads - {id}, StageWork(f)) == Sum(threads, StageWork(f)) - StageWork(f)(threads[id])
    ensures Sum(threads - {id}, MayRefresh) == Sum(threads, MayRefresh) - MayRefresh(threads[id])
  {
    SumSplit(threads, id, StageWork(f));
    SumSplit(threads, id, MayRefresh);
    SumUpdate(threads, id, stage, StageWork(f));
    SumUpdate(threads, id, stage, MayRefresh);
  }

  lemma AdaptLockCost(s: System, window: Option<Window>, step: Step, d: nat, f: nat)
    requires Enabled(s, step) && step.AdaptLock? && (step.needsRefresh ==> d > 0)
    ensures var s' := Next(s, window, step); var d' := if step.needsRefresh then d - 1 else d;
      Total(s', d', f) < Total(s, d, f) && Ahead(s', d') <= Ahead(s, d)
  {
    hide AdaptSection, AdaptOutcome, GuardedWork, QueueWork, Sum, Calls;
    var r := AdaptSection(s.guarded, window, step.id, step.needsRefresh, step.checked, step.stamped);
    AdaptCost(s.guarded, window, step.id, step.needsRefresh, step.checked, step.stamped, f);
    QueueWorkAppend(s.queue, r.1, f);
    CallsAppend(s.queue, r.1);
    ThreadMoves(s.executing, step.id, if r.2.AdaptDeferred? then AdaptEntered else Completing(AdaptOutcome(r.2)), f);
  }

  lemma RetryLockCost(s: System, window: Option<Window>, step: Step, d: nat, f: nat)
    requires Enabled(s, step) && step.RetryLock?
    ensures var s' := Next(s, window, step); Total(s', d, f) < Total(s, d, f) && Ahead(s', d) <= Ahead(s, d)
  {
    hide RetrySection, GuardedWork, QueueWork, Sum, Calls;
    var r := RetrySection(s.guarded, window, step.id, s.executing[step.id].credential, step.checked, step.stamped);
    RetryCost(s.guarded, window, step.id, s.executing[step.id].credential, step.checked, step.stamped, f);
    QueueWorkAppend(s.queue, r.1, f);
    CallsAppend(s.queue, r.1);
    ThreadMoves(s.executing, step.id, AdaptEntered, f);
  }

  lemma ThreadCost(s: System, window: Option<Window>, step: Step, d: nat, f: nat)
    requires Enabled(s, step)
    requires step.CheckRetry? || step.ReadCredential? || step.MatchCredential? || step.Complete?
    ensures var s' := Next(s, window, step); Total(s', d, f) < Total(s, d, f) && Ahead(s', d) <= Ahead(s, d)
  {
    hide GuardedWork, QueueWork, Sum, Calls;
    var s' := Next(s, window, step);
    var stage := if step.Complete? then AdaptEntered else s'.executing[step.id];
    ThreadMoves(s.executing, step.id, stage, f);
  }

  lemma CompletesCost(s: System, window: Option<Window>, step: Step, d: nat)
    requires Enabled(s, step) && step.RefreshCompletes?
    ensures Ahead(s, d) > 0
    ensures var s' := Next(s, window, step);
      Total(s', d, Ahead(s, d) - 1) < Total(s, d, Ahead(s, d)) && Ahead(s', d) <= Ahead(s, d) - 1
  {
    hide CompletionSection, GuardedWork, QueueWork, Sum, Calls;
    var f := Ahead(s, d);
    var r := CompletionSection(s.guarded, step.result);
    CompletionCost(s.guarded, step.result, f);
    QueueWorkAppend(s.queue, r.1, f - 1);
    QueueShrinks(s.queue, f, f - 1);
    CallsAppend(s.queue, r.1);
    SumShrinks(s.executing, f, f - 1);
  }

  /** Every step the system takes by itself lowers the bound. */
  lemma StepCosts(s: System, window: Option<Window>, step: Step, d: nat)
    requires Enabled(s, step) && Internal(step) && (Demands(step) ==> d > 0)
    ensures Bound(Next(s, window, step), if Demands(step) then d - 1 else d) < Bound(s, d)
  {
    hide Next, RunHead, Total, Ahead;
    var s', d', f := Next(s, window, step), if Demands(step) then d - 1 else d, Ahead(s, d);
    match step {
      case AdaptLock(_, _, _, _) => AdaptLockCost(s, window, step, d, f);
      case RetryLock(_, _, _) => RetryLockCost(s, window, step, d, f);
      case RunBlock(_, _, _) => RunBlockCost(s, window, step, d, f);
      case RefreshCompletes(_) => CompletesCost(s, window, step, d);
      case _ => ThreadCost(s, window, step, d, f);
    }
    TotalShrinks(s', d', if step.RefreshCompletes? then f - 1 else f, Ahead(s', d'));
  }

  lemma RunBlockCost(s: System, window: Option<Window>, step: Step, d: nat, f: nat)
    requires Enabled(s, step) && step.RunBlock? && (step.needsRefresh ==> d > 0)
    ensures var s' := Next(s, window, step); var d' := if step.needsRefresh then d - 1 else d;
      Total(s', d', f) < Total(s, d, f) && Ahead(s', d') <= Ahead(s, d)
  {
    hide RunHead, GuardedWork, QueueWork, Sum, Calls;
    RunHeadCost(s, window, step.needsRefresh, step.checked, step.stamped, f);
  }

  // ---------- Main results ----------

  /** Without new calls and with one callback per refresh, whatever the order of the steps and the answers: a
      run in which credentials require a refresh `d` times ends within Bound(s, d) steps. */
  lemma {:induction false} RunsEnd(s: System, window: Option<Window>, steps: seq<Step>)
    requires Allowed(s, window, steps) && AllInternal(steps)
    ensures |steps| <= Bound(s, Demand(steps))
    decreases |steps|
  {
    hide Enabled, Next, Bound;
    if steps != [] {
      assert Internal(steps[0]);
      StepCosts(s, window, steps[0], Demand(steps));
      RunsEnd(Next(s, window, steps[0]), window, steps[1..]);
    }
  }

  /** Nothing is left for the system to do by itself. */
  ghost predicate Ended(s: System) {
    forall step :: Internal(step) ==> !Enabled(s, step)
  }

  lemma EndedIsQuiescent(s: System)
    requires Ended(s)
    ensures Quiescent(s)
  {
    if s.executing != map[] {
      var id :| id in s.executing;
      ThreadAdvances(s, None, id);
    }
    if s.queue != [] {
      assert Enabled(s, RunBlock(false, s.clock, s.clock)) && Internal(RunBlock(false, s.clock, s.clock));
    }
    if s.outstanding > 0 {
      assert Enabled(s, RefreshCompletes(None)) && Internal(RefreshCompletes(None));
    }
  }

  /** However a run goes on by itself, it is over within the bound, and once it is over every call made has
      been completed exactly once. */
  lemma EveryRunCompletes(credential: Option<nat>, clock: real, window: Option<Window>, steps: seq<Step>,
      more: seq<Step>)
    requires Allowed(Init(credential, clock), window, steps)
    requires Allowed(Run(Init(credential, clock), window, steps), window, more) && AllInternal(more)
    ensures var s := Run(Init(credential, clock), window, steps); var s' := Run(s, window, more);
      && |more| <= Bound(s, Demand(more))
      && (Ended(s') ==> forall x :: x in s.issued ==> Completions(s'.completed, x) == 1)
  {
    hide Backed, Completions, Places, Allowed, Run, Bound, Ended;
    var s := Run(Init(credential, clock), window, steps);
    var s' := Run(s, window, more);
    RunsEnd(s, window, more);
    InitBacked(credential, clock);
    RunBacked(Init(credential, clock), window, steps);
    RunBacked(s, window, more);
    InternalIssuesNothing(s, window, more);
    if Ended(s') {
      EndedIsQuiescent(s');
      forall x | x in s.issued ensures Completions(s'.completed, x) == 1 {
        NoCallLostOrRepeated(credential, clock, window, steps, x);
        RunConserves(s, window, more, x);
        RestingPlaces(s', x);
      }
    }
  }

  // ---------- Endless demand ----------

  /** One call waits for the refresh that is on. */
  predicate WaitsAlone(s: System) {
    && s.guarded.isRefreshing && s.guarded.adaptOperations == [0] && s.guarded.requestsToRetry == []
    && s.executing == map[] && s.queue == [] && s.outstanding == 1 && s.completed == []
  }

  /** The refresh succeeds, the call is re-submitted, and its credential requires a refresh again. */
  lemma Refreshed(s: System) returns (s': System)
    requires WaitsAlone(s)
    ensures Enabled(s, RefreshCompletes(Some(1))) && s' == Next(s, None, RefreshCompletes(Some(1)))
    ensures s' == s.(guarded := Guarded(Some(1), false, s.guarded.refreshTimestamps, [], []),
                     queue := [Succeed(None, [0], [])], outstanding := 0)
  {
    s' := Next(s, None, RefreshCompletes(Some(1)));
  }

  lemma Resubmitted(s: System) returns (s': System)
    requires s.guarded.credential == Some(1) && !s.guarded.isRefreshing
    requires s.guarded.adaptOperations == s.guarded.requestsToRetry == []
    requires s.queue == [Succeed(None, [0], [])]
    ensures var step := RunBlock(true, s.clock, s.clock); Enabled(s, step) && s' == Next(s, None, step)
    ensures s' == s.(guarded := Guarded(Some(1), true, s.guarded.refreshTimestamps + [s.clock], [0], []),
                     queue := [Succeed(None, [], []), CallRefresh(1)])
  {
    s' := Next(s, None, RunBlock(true, s.clock, s.clock));
    assert s.queue[1..] == [] && s.queue[0].adapts[1..] == [];
    assert ReplaceHead(s, Succeed(None, [], [])).queue + [CallRefresh(1)] == [Succeed(None, [], []), CallRefresh(1)];
  }

  lemma BlocksRun(s: System) returns (s': System)
    requires s.queue == [Succeed(None, [], []), CallRefresh(1)]
    ensures var step := RunBlock(true, s.clock, s.clock);
      && Enabled(s, step) && Enabled(Next(s, None, step), step) && s' == Next(Next(s, None, step), None, step)
    ensures s' == s.(queue := [], outstanding := s.outstanding + 1)
  {
    s' := Next(Next(s, None, RunBlock(true, s.clock, s.clock)), None, RunBlock(true, s.clock, s.clock));
  }

  /** Demands cannot be left out of the bound: while credentials go on requiring a refresh, one call keeps the
      system going for as long as one likes, and is not completed. */
  lemma {:induction false} EndlessDemand(s: System, n: nat) returns (steps: seq<Step>)
    requires WaitsAlone(s)
    ensures Allowed(s, None, steps) && AllInternal(steps) && |steps| >= n && WaitsAlone(Run(s, None, steps))
    decreases n
  {
    hide Next, Enabled;
    if n == 0 {
      steps := [];
    } else {
      var s1 := Refreshed(s);
      var s2 := Resubmitted(s1);
      var s4 := BlocksRun(s2);
      var block := RunBlock(true, s.clock, s.clock);
      steps := EndlessDemand(s4, n - 1);
      steps := Precede(Next(s2, None, block), block, steps);
      steps := Precede(s2, block, steps);
      steps := Precede(s1, block, steps);
      steps := Precede(s, RefreshCompletes(Some(1)), steps);
    }
  }

  lemma Precede(s: System, step: Step, rest: seq<Step>) returns (steps: seq<Step>)
    requires Enabled(s, step) && Internal(step) && Allowed(Next(s, None, step), None, rest) && AllInternal(rest)
    ensures Allowed(s, None, steps) && AllInternal(steps) && |steps| == |rest| + 1
    ensures Run(s, None, steps) == Run(Next(s, None, step), None, rest)
  {
    steps := [step] + rest;
    Prepended(s, None, step, rest);
  }

  /** Such a state is reached by one call. */
  lemma WaitsAloneIsReached()
    ensures Allowed(Init(Some(0), 0.0), None, DoubleCallback()[..3])
    ensures WaitsAlone(Run(Init(Some(0), 0.0), None, DoubleCallback()[..3]))
  {
    hide Allowed, Run;
    SnapshotRun(0, 3);
    assert DoubleCallback()[0..3] == DoubleCallback()[..3];
  }
}
