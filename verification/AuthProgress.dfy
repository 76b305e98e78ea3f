/** No deadlock and no inescapable loop: from any state a run reaches, the calls made so far can all be
    completed. */
module AuthProgress {
  import opened Parsing
  import opened AuthInterceptor
  import opened AuthProtocol

  /** Steps the interceptor's own code or a pending refresh takes. */
  predicate Internal(step: Step) {
    !step.IssueAdapt? && !step.IssueRetry? && !step.SetCredential? && !step.CompletesAgain?
  }

  /** How far a call's own thread is from being done. */
  function Rank(s: System, focus: Option<nat>): nat {
    if focus == None || focus.value !in s.executing then 4
    else match s.executing[focus.value]
      case Completing(_) => 0
      case RetryRead(_) => 2
      case RetryChecked => 3
      case _ => 1
  }

  /** A step of the thread of call `id`, the environment answering so that the call moves on. */
  function StepOf(s: System, id: nat): Step
    requires id in s.executing
  {
    match s.executing[id]
    case AdaptEntered => AdaptLock(id, false, s.clock, s.clock)
    case RetryEntered => CheckRetry(id, false)
    case RetryChecked => ReadCredential(id)
    case RetryRead(_) => MatchCredential(id, false)
    case RetryMatched(_) => RetryLock(id, s.clock, s.clock)
    case Completing(_) => Complete(id)
  }

  lemma ThreadAdvances(s: System, window: Option<Window>, id: nat)
    requires id in s.executing
    ensures Enabled(s, StepOf(s, id)) && Internal(StepOf(s, id))
    ensures var s' := Next(s, window, StepOf(s, id));
      || s'.executing == s.executing - {id}
      || (s'.executing.Keys == s.executing.Keys && Rank(s', Some(id)) < Rank(s, Some(id)))
  {
    hide AdaptSection, RetrySection;
  }

  function BlockWork(b: Block): nat {
    match b
    case CallRefresh(_) => 1
    case Succeed(current, adapts, retries) => 1 + (if current.Some? then 1 else 0) + 2 * |adapts| + |retries|
    case FailAll(_, adapts, retries) => 1 + |adapts| + |retries|
  }

  function Work(queue: seq<Block>): nat {
    if queue == [] then 0 else BlockWork(queue[0]) + Work(queue[1..])
  }

  lemma HeadWork(s: System, b: Block)
    requires s.queue != []
    ensures Work(ReplaceHead(s, b).queue) == BlockWork(b) + Work(Pop(s).queue)
    ensures Calls(ReplaceHead(s, b).queue) == (if b.CallRefresh? then 1 else 0) + Calls(Pop(s).queue)
  {
    assert ReplaceHead(s, b).queue[1..] == s.queue[1..];
  }

  lemma NoRefreshNeeded(g: Guarded, window: Option<Window>, id: nat, now: real)
    ensures AdaptSection(g, window, id, false, now, now).1 == []
  {
  }

  lemma ResubmitAdvances(s: System, window: Option<Window>, adapts: seq<nat>, retries: seq<nat>)
    requires s.queue != [] && s.queue[0] == Succeed(None, adapts, retries) && adapts != []
    ensures var s' := Resubmit(s, window, adapts, retries, false, s.clock, s.clock);
      s'.executing == s.executing && Pending(s') == Pending(s) && Work(s'.queue) < Work(s.queue)
  {
    hide AdaptSection, AdaptOutcome;
    var r := AdaptSection(s.guarded, window, adapts[0], false, s.clock, s.clock);
    var b := Succeed(if r.2.AdaptDeferred? then None else Some((adapts[0], AdaptOutcome(r.2))), adapts[1..], retries);
    HeadWork(s, b);
    NoRefreshNeeded(s.guarded, window, adapts[0], s.clock);
    assert ReplaceHead(s, b).queue + [] == ReplaceHead(s, b).queue;
  }

  /** While no credential needs refreshing, running a block uses up work and starts no refresh. */
  lemma BlockAdvances(s: System, window: Option<Window>)
    requires s.queue != []
    ensures var s' := RunHead(s, window, false, s.clock, s.clock);
      s'.executing == s.executing && Pending(s') == Pending(s) && Work(s'.queue) < Work(s.queue)
  {
    hide AdaptSection, AdaptOutcome, Resubmit;
    match s.queue[0]
    case CallRefresh(_) =>
    case Succeed(current, adapts, retries) =>
      if current.Some? {
        HeadWork(s, Succeed(None, adapts, retries));
      } else if adapts != [] {
        ResubmitAdvances(s, window, adapts, retries);
      } else if retries != [] {
        HeadWork(s, Succeed(None, [], retries[1..]));
      }
    case FailAll(error, adapts, retries) =>
      if adapts != [] { HeadWork(s, FailAll(error, adapts[1..], retries)); }
      else if retries != [] { HeadWork(s, FailAll(error, [], retries[1..])); }
  }

  predicate AllInternal(steps: seq<Step>) {
    forall i :: 0 <= i < |steps| ==> Internal(steps[i])
  }

  lemma Prepended(s: System, window: Option<Window>, step: Step, rest: seq<Step>)
    requires Enabled(s, step) && Internal(step)
    requires Allowed(Next(s, window, step), window, rest) && AllInternal(rest)
    ensures Allowed(s, window, [step] + rest) && AllInternal([step] + rest)
    ensures Run(s, window, [step] + rest) == Run(Next(s, window, step), window, rest)
  {
    assert ([step] + rest)[1..] == rest;
  }

  /** Without new calls the system can be brought to rest from any state it reaches. */
  lemma {:induction false} ComesToRest(s: System, window: Option<Window>, focus: Option<nat>)
    returns (steps: seq<Step>)
    requires Backed(s) && (focus.Some? ==> focus.value in s.executing)
    ensures Allowed(s, window, steps) && AllInternal(steps) && Quiescent(Run(s, window, steps))
    decreases |s.executing|, Rank(s, focus), Pending(s), Work(s.queue)
  {
    hide Next, RunHead, Rank, StepOf, QueuesIdle, Work, Pending, Enabled;
    if s.executing != map[] && focus == None {
      var id :| id in s.executing;
      RankOfCall(s, id);
      steps := ComesToRest(s, window, Some(id));
    } else if s.executing != map[] {
      var id := focus.value;
      var step := StepOf(s, id);
      ThreadAdvances(s, window, id);
      StepSurplus(s, window, step);
      CompletesPending(s, step);
      var s' := Next(s, window, step);
      assert (s.executing - {id}).Keys == s.executing.Keys - {id};
      assert |s'.executing| == |s'.executing.Keys| && |s.executing| == |s.executing.Keys|;
      var rest := ComesToRest(s', window, if id in s'.executing then Some(id) else None);
      Prepended(s, window, step, rest);
      steps := [step] + rest;
    } else if s.queue != [] {
      var step := RunBlock(false, s.clock, s.clock);
      QueueStep(s, window);
      StepSurplus(s, window, step);
      CompletesPending(s, step);
      var rest := ComesToRest(Next(s, window, step), window, None);
      Prepended(s, window, step, rest);
      steps := [step] + rest;
    } else if s.outstanding > 0 {
      var step := RefreshCompletes(None);
      RefreshStep(s, window);
      StepSurplus(s, window, step);
      CompletesPending(s, step);
      var rest := ComesToRest(Next(s, window, step), window, None);
      Prepended(s, window, step, rest);
      steps := [step] + rest;
    } else {
      steps := [];
    }
  }

  lemma RankOfCall(s: System, id: nat)
    requires id in s.executing
    ensures Rank(s, Some(id)) < Rank(s, None)
  {
  }

  lemma QueueStep(s: System, window: Option<Window>)
    requires s.executing == map[] && s.queue != []
    ensures var step := RunBlock(false, s.clock, s.clock);
      && Enabled(s, step) && Internal(step)
      && var s' := Next(s, window, step);
      && s'.executing == map[] && Rank(s', None) == Rank(s, None) && Pending(s') == Pending(s)
      && Work(s'.queue) < Work(s.queue)
  {
    hide RunHead;
    BlockAdvances(s, window);
  }

  lemma RefreshStep(s: System, window: Option<Window>)
    requires s.executing == map[] && s.queue == [] && s.outstanding > 0
    ensures var step := RefreshCompletes(None);
      Enabled(s, step) && Internal(step) &&
      var s' := Next(s, window, step);
      s'.executing == map[] && Rank(s', None) == Rank(s, None) && Pending(s') < Pending(s)
  {
    CompletionCalls(s.guarded, None);
    CallsAppend(s.queue, CompletionSection(s.guarded, None).1);
  }

  /** From every state a run reaches, also one with repeated callbacks, the calls made so far can all be
      completed, each exactly once, without new calls and with one callback per pending refresh. */
  lemma EveryCallCanComplete(credential: Option<nat>, clock: real, window: Option<Window>, steps: seq<Step>)
    returns (more: seq<Step>)
    requires Allowed(Init(credential, clock), window, steps)
    ensures var s := Run(Init(credential, clock), window, steps);
      && Allowed(s, window, more) && AllInternal(more)
      && var s' := Run(s, window, more);
         Quiescent(s') && forall x :: x in s.issued ==> Completions(s'.completed, x) == 1
  {
    hide Backed, Completions, Places, Allowed, Run;
    var s := Run(Init(credential, clock), window, steps);
    InitBacked(credential, clock);
    RunBacked(Init(credential, clock), window, steps);
    more := ComesToRest(s, window, None);
    var s' := Run(s, window, more);
    RunBacked(s, window, more);
    forall x | x in s.issued ensures Completions(s'.completed, x) == 1 {
      NoCallLostOrRepeated(credential, clock, window, steps, x);
      RunConserves(s, window, more, x);
      InternalIssuesNothing(s, window, more);
      RestingPlaces(s', x);
    }
  }

  lemma InitBacked(credential: Option<nat>, clock: real)
    ensures Backed(Init(credential, clock))
  {
  }

  lemma {:induction false} InternalIssuesNothing(s: System, window: Option<Window>, steps: seq<Step>)
    requires Allowed(s, window, steps) && AllInternal(steps)
    ensures Run(s, window, steps).issued == s.issued
    decreases |steps|
  {
    hide AdaptSection, RetrySection, CompletionSection, AdaptOutcome;
    if steps != [] {
      assert Internal(steps[0]);
      InternalIssuesNothing(Next(s, window, steps[0]), window, steps[1..]);
    }
  }

  lemma RestingPlaces(s: System, x: nat)
    requires Quiescent(s) && Backed(s)
    ensures Places(s, x) == Completions(s.completed, x)
  {
  }
}
