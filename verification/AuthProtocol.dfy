/** Every run of the authentication interceptor: calls on any threads, the serial queue, and an
    authenticator that completes refreshes when it likes, interleaved at lock boundaries. */
module AuthProtocol {
  import opened Parsing
  import opened AuthInterceptor

  /** Where a call's own thread is. */
  datatype Stage =
    | AdaptEntered
    | RetryEntered
    | RetryChecked
    | RetryRead(credential: nat)
    | RetryMatched(credential: nat)
    | Completing(outcome: Outcome)

  /** `outstanding` counts the refreshes handed to the authenticator and not completed. */
  datatype System = System(
    guarded: Guarded, executing: map<nat, Stage>, queue: seq<Block>, outstanding: nat,
    completed: seq<(nat, Outcome)>, issued: set<nat>, clock: real)

  datatype Step =
    | IssueAdapt(id: nat)
    | IssueRetry(id: nat)
    | AdaptLock(id: nat, needsRefresh: bool, checked: real, stamped: real)
    | CheckRetry(id: nat, authenticationError: bool)
    | ReadCredential(id: nat)
    | MatchCredential(id: nat, same: bool)
    | RetryLock(id: nat, checked: real, stamped: real)
    | Complete(id: nat)
    | SetCredential(credential: Option<nat>)
    | RunBlock(needsRefresh: bool, checked: real, stamped: real)
    | RefreshCompletes(result: Option<nat>)
    | CompletesAgain(result: Option<nat>)

  predicate At(s: System, id: nat, stage: Stage) {
    id in s.executing && s.executing[id] == stage
  }

  predicate ClockAdvances(s: System, checked: real, stamped: real) {
    s.clock <= checked <= stamped
  }

  predicate Enabled(s: System, step: Step) {
    match step
    case IssueAdapt(id) => id !in s.issued
    case IssueRetry(id) => id !in s.issued
    case AdaptLock(id, _, checked, stamped) => At(s, id, AdaptEntered) && ClockAdvances(s, checked, stamped)
    case CheckRetry(id, _) => At(s, id, RetryEntered)
    case ReadCredential(id) => At(s, id, RetryChecked)
    case MatchCredential(id, _) => id in s.executing && s.executing[id].RetryRead?
    case RetryLock(id, checked, stamped) =>
      id in s.executing && s.executing[id].RetryMatched? && ClockAdvances(s, checked, stamped)
    case Complete(id) => id in s.executing && s.executing[id].Completing?
    case SetCredential(_) => true
    case RunBlock(_, checked, stamped) => s.queue != [] && ClockAdvances(s, checked, stamped)
    case RefreshCompletes(_) => s.outstanding > 0
    case CompletesAgain(_) => true
  }

  function Section(s: System, r: (Guarded, seq<Block>), clock: real): System {
    s.(guarded := r.0, queue := s.queue + r.1, clock := clock)
  }

  function Leave(s: System, id: nat): System {
    s.(executing := s.executing - {id})
  }

  function Go(s: System, id: nat, stage: Stage): System {
    s.(executing := s.executing[id := stage])
  }

  function Deliver(s: System, id: nat, outcome: Outcome): System {
    s.(completed := s.completed + [(id, outcome)])
  }

  function ReplaceHead(s: System, block: Block): System
    requires s.queue != []
  {
    s.(queue := [block] + s.queue[1..])
  }

  function Pop(s: System): System
    requires s.queue != []
  {
    s.(queue := s.queue[1..])
  }

  /** Re-submit the first adapt operation: the lock section of adapt, run by the block. */
  function Resubmit(s: System, window: Option<Window>, adapts: seq<nat>, retries: seq<nat>,
                    needsRefresh: bool, checked: real, stamped: real): System
    requires s.queue != [] && adapts != []
  {
    var (g, blocks, result) := AdaptSection(s.guarded, window, adapts[0], needsRefresh, checked, stamped);
    var current := if result.AdaptDeferred? then None else Some((adapts[0], AdaptOutcome(result)));
    Section(ReplaceHead(s, Succeed(current, adapts[1..], retries)), (g, blocks), stamped)
  }

  /** One step of the block at the head of the serial queue. */
  function RunHead(s: System, window: Option<Window>, needsRefresh: bool, checked: real, stamped: real): System
    requires s.queue != []
  {
    match s.queue[0]
    case CallRefresh(_) => Pop(s).(outstanding := s.outstanding + 1)
    case Succeed(current, adapts, retries) =>
      if current.Some? then
        Deliver(ReplaceHead(s, Succeed(None, adapts, retries)), current.value.0, current.value.1)
      else if adapts != [] then Resubmit(s, window, adapts, retries, needsRefresh, checked, stamped)
      else if retries != [] then
        Deliver(ReplaceHead(s, Succeed(None, [], retries[1..])), retries[0], Retry)
      else Pop(s)
    case FailAll(error, adapts, retries) =>
      if adapts != [] then Deliver(ReplaceHead(s, FailAll(error, adapts[1..], retries)), adapts[0], error)
      else if retries != [] then Deliver(ReplaceHead(s, FailAll(error, [], retries[1..])), retries[0], error)
      else Pop(s)
  }

  function Next(s: System, window: Option<Window>, step: Step): System
    requires Enabled(s, step)
  {
    match step
    case IssueAdapt(id) => Go(s, id, AdaptEntered).(issued := s.issued + {id})
    case IssueRetry(id) => Go(s, id, RetryEntered).(issued := s.issued + {id})
    case AdaptLock(id, needsRefresh, checked, stamped) =>
      var (g, blocks, result) := AdaptSection(s.guarded, window, id, needsRefresh, checked, stamped);
      var s' := Section(s, (g, blocks), stamped);
      if result.AdaptDeferred? then Leave(s', id) else Go(s', id, Completing(AdaptOutcome(result)))
    case CheckRetry(id, authenticationError) =>
      Go(s, id, if authenticationError then RetryChecked else Completing(DoNotRetry))
    case ReadCredential(id) =>
      Go(s, id, if s.guarded.credential.Some? then RetryRead(s.guarded.credential.value)
          else Completing(MissingCredential))
    case MatchCredential(id, same) =>
      Go(s, id, if same then RetryMatched(s.executing[id].credential) else Completing(Retry))
    case RetryLock(id, checked, stamped) =>
      var section := RetrySection(s.guarded, window, id, s.executing[id].credential, checked, stamped);
      Leave(Section(s, section, stamped), id)
    case Complete(id) => Leave(Deliver(s, id, s.executing[id].outcome), id)
    case SetCredential(credential) => s.(guarded := s.guarded.(credential := credential))
    case RunBlock(needsRefresh, checked, stamped) => RunHead(s, window, needsRefresh, checked, stamped)
    case RefreshCompletes(result) =>
      Section(s, CompletionSection(s.guarded, result), s.clock).(outstanding := s.outstanding - 1)
    case CompletesAgain(result) => Section(s, CompletionSection(s.guarded, result), s.clock)
  }

  function Init(credential: Option<nat>, clock: real): System {
    System(Guarded(credential, false, [], [], []), map[], [], 0, [], {}, clock)
  }

  predicate Allowed(s: System, window: Option<Window>, steps: seq<Step>)
    decreases |steps|
  {
    steps != [] ==> Enabled(s, steps[0]) && Allowed(Next(s, window, steps[0]), window, steps[1..])
  }

  function Run(s: System, window: Option<Window>, steps: seq<Step>): System
    requires Allowed(s, window, steps)
    decreases |steps|
  {
    if steps == [] then s else Run(Next(s, window, steps[0]), window, steps[1..])
  }

  // ---------- Conservation of calls ----------

  function Occurrences(ids: seq<nat>, x: nat): nat {
    if ids == [] then 0 else (if ids[0] == x then 1 else 0) + Occurrences(ids[1..], x)
  }

  /** How often a block will complete or re-submit call `x`. */
  function HeldBy(b: Block, x: nat): nat {
    match b
    case CallRefresh(_) => 0
    case Succeed(current, adapts, retries) =>
      (if current.Some? && current.value.0 == x then 1 else 0) + Occurrences(adapts, x) + Occurrences(retries, x)
    case FailAll(_, adapts, retries) => Occurrences(adapts, x) + Occurrences(retries, x)
  }

  function Dispatched(queue: seq<Block>, x: nat): nat {
    if queue == [] then 0 else HeldBy(queue[0], x) + Dispatched(queue[1..], x)
  }

  function Waiting(g: Guarded, x: nat): nat {
    Occurrences(g.adaptOperations, x) + Occurrences(g.requestsToRetry, x)
  }

  /** How often the completion of call `x` has been called. */
  function Completions(log: seq<(nat, Outcome)>, x: nat): nat {
    if log == [] then 0
    else Completions(log[..|log| - 1], x) + (if log[|log| - 1].0 == x then 1 else 0)
  }

  /** Call `x` counted in every place it can be: its own thread, the two waiting lists, the dispatched
      blocks, and the completions called. */
  function Places(s: System, x: nat): nat {
    (if x in s.executing then 1 else 0) + Waiting(s.guarded, x) + Dispatched(s.queue, x) + Completions(s.completed, x)
  }

  predicate Conserved(s: System, x: nat) {
    Places(s, x) == if x in s.issued then 1 else 0
  }

  lemma {:induction false} OccurrencesAppend(a: seq<nat>, id: nat, x: nat)
    ensures Occurrences(a + [id], x) == Occurrences(a, x) + (if id == x then 1 else 0)
  {
    if a == [] {
      assert (a + [id])[1..] == [];
    } else {
      OccurrencesAppend(a[1..], id, x);
      assert (a + [id])[1..] == a[1..] + [id];
    }
  }

  lemma {:induction false} DispatchedAppend(a: seq<Block>, b: seq<Block>, x: nat)
    ensures Dispatched(a + b, x) == Dispatched(a, x) + Dispatched(b, x)
  {
    hide HeldBy;
    if a == [] {
      assert a + b == b;
    } else {
      DispatchedAppend(a[1..], b, x);
      assert (a + b)[1..] == a[1..] + b;
    }
  }

  lemma DispatchedOne(b: Block, x: nat)
    ensures Dispatched([b], x) == HeldBy(b, x)
  {
    assert [b][1..] == [];
  }

  lemma RefreshMovesAll(g: Guarded, window: Option<Window>, credential: nat, checked: real, stamped: real, x: nat)
    ensures var r := RefreshSection(g, window, credential, checked, stamped);
      Waiting(r.0, x) + Dispatched(r.1, x) == Waiting(g, x)
  {
    hide Excessive;
    DispatchedOne(FailAll(ExcessiveRefresh, g.adaptOperations, g.requestsToRetry), x);
    DispatchedOne(CallRefresh(credential), x);
  }

  lemma AdaptAddsOne(g: Guarded, window: Option<Window>, id: nat, needsRefresh: bool, checked: real, stamped: real,
      x: nat)
    ensures var r := AdaptSection(g, window, id, needsRefresh, checked, stamped);
      Waiting(r.0, x) + Dispatched(r.1, x) == Waiting(g, x) + (if r.2.AdaptDeferred? && id == x then 1 else 0)
  {
    hide RefreshSection;
    var waiting := g.(adaptOperations := g.adaptOperations + [id]);
    OccurrencesAppend(g.adaptOperations, id, x);
    if !g.isRefreshing && g.credential.Some? && needsRefresh {
      RefreshMovesAll(waiting, window, g.credential.value, checked, stamped, x);
    }
  }

  lemma RetryAddsOne(g: Guarded, window: Option<Window>, id: nat, credential: nat, checked: real, stamped: real, x: nat)
    ensures var r := RetrySection(g, window, id, credential, checked, stamped);
      Waiting(r.0, x) + Dispatched(r.1, x) == Waiting(g, x) + (if id == x then 1 else 0)
  {
    hide RefreshSection;
    OccurrencesAppend(g.requestsToRetry, id, x);
    RefreshMovesAll(g.(requestsToRetry := g.requestsToRetry + [id]), window, credential, checked, stamped, x);
  }

  lemma CompletionMovesAll(g: Guarded, result: Option<nat>, x: nat)
    ensures var r := CompletionSection(g, result); Waiting(r.0, x) + Dispatched(r.1, x) == Waiting(g, x)
  {
    DispatchedOne(Succeed(None, g.adaptOperations, g.requestsToRetry), x);
    DispatchedOne(FailAll(RefreshFailed, g.adaptOperations, g.requestsToRetry), x);
  }

  lemma NewHead(s: System, b: Block, x: nat)
    requires s.queue != []
    ensures Dispatched(ReplaceHead(s, b).queue, x) == HeldBy(b, x) + Dispatched(Pop(s).queue, x)
  {
    assert ReplaceHead(s, b).queue[1..] == s.queue[1..];
  }

  lemma Delivered(s: System, id: nat, outcome: Outcome, x: nat)
    ensures Places(Deliver(s, id, outcome), x) == Places(s, x) + (if id == x then 1 else 0)
  {
    var log := s.completed + [(id, outcome)];
    assert log[..|log| - 1] == s.completed;
  }

  lemma HeadDelivers(s: System, b: Block, id: nat, outcome: Outcome, x: nat)
    requires s.queue != [] && HeldBy(s.queue[0], x) == HeldBy(b, x) + (if id == x then 1 else 0)
    ensures Places(Deliver(ReplaceHead(s, b), id, outcome), x) == Places(s, x)
  {
    hide HeldBy, Completions, Waiting;
    NewHead(s, b, x);
    Delivered(ReplaceHead(s, b), id, outcome, x);
  }

  lemma ResubmitConserves(s: System, window: Option<Window>, adapts: seq<nat>, retries: seq<nat>,
                          needsRefresh: bool, checked: real, stamped: real, x: nat)
    requires s.queue != [] && s.queue[0] == Succeed(None, adapts, retries) && adapts != []
    ensures Places(Resubmit(s, window, adapts, retries, needsRefresh, checked, stamped), x) == Places(s, x)
  {
    hide AdaptSection, AdaptOutcome, Completions, Waiting;
    var r := AdaptSection(s.guarded, window, adapts[0], needsRefresh, checked, stamped);
    var b := Succeed(if r.2.AdaptDeferred? then None else Some((adapts[0], AdaptOutcome(r.2))), adapts[1..], retries);
    AdaptAddsOne(s.guarded, window, adapts[0], needsRefresh, checked, stamped, x);
    NewHead(s, b, x);
    DispatchedAppend(ReplaceHead(s, b).queue, r.1, x);
  }

  /** Running a block never loses or repeats a call, also when it re-submits one that is deferred again. */
  lemma RunHeadConserves(s: System, window: Option<Window>, needsRefresh: bool, checked: real, stamped: real, x: nat)
    requires s.queue != []
    ensures var s' := RunHead(s, window, needsRefresh, checked, stamped);
      Places(s', x) == Places(s, x) && s'.issued == s.issued
  {
    hide AdaptSection, AdaptOutcome, Completions, Waiting;
    match s.queue[0]
    case CallRefresh(_) =>
    case Succeed(current, adapts, retries) =>
      if current.Some? {
        HeadDelivers(s, Succeed(None, adapts, retries), current.value.0, current.value.1, x);
      } else if adapts != [] {
        ResubmitConserves(s, window, adapts, retries, needsRefresh, checked, stamped, x);
      } else if retries != [] {
        HeadDelivers(s, Succeed(None, [], retries[1..]), retries[0], Retry, x);
      }
    case FailAll(error, adapts, retries) =>
      if adapts != [] {
        HeadDelivers(s, FailAll(error, adapts[1..], retries), adapts[0], error, x);
      } else if retries != [] {
        HeadDelivers(s, FailAll(error, [], retries[1..]), retries[0], error, x);
      }
  }

  lemma StepConserves(s: System, window: Option<Window>, step: Step, x: nat)
    requires Enabled(s, step) && Conserved(s, x)
    ensures Conserved(Next(s, window, step), x)
  {
    hide AdaptSection, RetrySection, CompletionSection, RunHead, AdaptOutcome, Dispatched, Completions, Occurrences;
    match step
    case IssueAdapt(_) =>
    case IssueRetry(_) =>
    case AdaptLock(id, needsRefresh, checked, stamped) =>
      AdaptAddsOne(s.guarded, window, id, needsRefresh, checked, stamped, x);
      DispatchedAppend(s.queue, AdaptSection(s.guarded, window, id, needsRefresh, checked, stamped).1, x);
    case CheckRetry(_, _) =>
    case ReadCredential(_) =>
    case MatchCredential(_, _) =>
    case RetryLock(id, checked, stamped) =>
      RetryAddsOne(s.guarded, window, id, s.executing[id].credential, checked, stamped, x);
      DispatchedAppend(s.queue, RetrySection(s.guarded, window, id, s.executing[id].credential, checked, stamped).1, x);
    case Complete(id) => Delivered(s, id, s.executing[id].outcome, x);
    case SetCredential(_) =>
    case RunBlock(needsRefresh, checked, stamped) => RunHeadConserves(s, window, needsRefresh, checked, stamped, x);
    case RefreshCompletes(result) =>
      CompletionMovesAll(s.guarded, result, x);
      DispatchedAppend(s.queue, CompletionSection(s.guarded, result).1, x);
    case CompletesAgain(result) =>
      CompletionMovesAll(s.guarded, result, x);
      DispatchedAppend(s.queue, CompletionSection(s.guarded, result).1, x);
  }

  lemma {:induction false} RunConserves(s: System, window: Option<Window>, steps: seq<Step>, x: nat)
    requires Allowed(s, window, steps) && Conserved(s, x)
    ensures Conserved(Run(s, window, steps), x)
    decreases |steps|
  {
    hide Conserved, Enabled, Next;
    if steps != [] {
      StepConserves(s, window, steps[0], x);
      RunConserves(Next(s, window, steps[0]), window, steps[1..], x);
    }
  }

  // ---------- One refresh at a time ----------

  predicate QueuesIdle(g: Guarded) {
    !g.isRefreshing ==> g.adaptOperations == [] && g.requestsToRetry == []
  }

  function Calls(queue: seq<Block>): nat {
    if queue == [] then 0 else (if queue[0].CallRefresh? then 1 else 0) + Calls(queue[1..])
  }

  /** Refreshes on their way to the authenticator or in its hands. */
  function Pending(s: System): nat {
    s.outstanding + Calls(s.queue)
  }

  /** Refreshes pending beyond the one isRefreshing stands for. */
  function Surplus(s: System): int {
    Pending(s) - if s.guarded.isRefreshing then 1 else 0
  }

  /** No call waits unless a refresh is on, and none is on without a refresh pending. */
  predicate Backed(s: System) {
    QueuesIdle(s.guarded) && Surplus(s) >= 0
  }

  /** Besides, at most one refresh is pending, exactly while isRefreshing is set. */
  predicate OneRefresh(s: System) {
    QueuesIdle(s.guarded) && Surplus(s) == 0
  }

  lemma {:induction false} CallsAppend(a: seq<Block>, b: seq<Block>)
    ensures Calls(a + b) == Calls(a) + Calls(b)
  {
    if a == [] {
      assert a + b == b;
    } else {
      CallsAppend(a[1..], b);
      assert (a + b)[1..] == a[1..] + b;
    }
  }

  /** A section entered while no refresh is on starts one exactly when it leaves isRefreshing set. */
  lemma SectionCalls(g: Guarded, window: Option<Window>, id: nat, credential: nat, needsRefresh: bool,
      checked: real, stamped: real)
    requires QueuesIdle(g)
    ensures var r := AdaptSection(g, window, id, needsRefresh, checked, stamped);
      QueuesIdle(r.0) && Calls(r.1) + (if g.isRefreshing then 1 else 0) == if r.0.isRefreshing then 1 else 0
    ensures var r := RetrySection(g, window, id, credential, checked, stamped);
      QueuesIdle(r.0) && Calls(r.1) + (if g.isRefreshing then 1 else 0) == if r.0.isRefreshing then 1 else 0
  {
    hide Excessive;
  }

  lemma CompletionCalls(g: Guarded, result: Option<nat>)
    ensures var r := CompletionSection(g, result); QueuesIdle(r.0) && Calls(r.1) == 0 && !r.0.isRefreshing
  {
  }

  lemma HeadCalls(s: System, b: Block)
    requires s.queue != [] && !b.CallRefresh?
    ensures Calls(ReplaceHead(s, b).queue) == Calls(Pop(s).queue)
  {
    assert ReplaceHead(s, b).queue[1..] == s.queue[1..];
  }

  lemma RunHeadSurplus(s: System, window: Option<Window>, needsRefresh: bool, checked: real, stamped: real)
    requires s.queue != [] && QueuesIdle(s.guarded)
    ensures var s' := RunHead(s, window, needsRefresh, checked, stamped);
      QueuesIdle(s'.guarded) && Surplus(s') == Surplus(s)
  {
    hide AdaptSection, AdaptOutcome;
    match s.queue[0]
    case CallRefresh(_) =>
    case Succeed(current, adapts, retries) =>
      HeadCalls(s, Succeed(None, adapts, retries));
      if current == None && adapts != [] {
        SectionCalls(s.guarded, window, adapts[0], 0, needsRefresh, checked, stamped);
        var r := AdaptSection(s.guarded, window, adapts[0], needsRefresh, checked, stamped);
        var b := Succeed(if r.2.AdaptDeferred? then None else Some((adapts[0], AdaptOutcome(r.2))), adapts[1..],
            retries);
        HeadCalls(s, b);
        CallsAppend(ReplaceHead(s, b).queue, r.1);
      } else if current == None && retries != [] {
        HeadCalls(s, Succeed(None, [], retries[1..]));
      }
    case FailAll(error, adapts, retries) =>
      if adapts != [] { HeadCalls(s, FailAll(error, adapts[1..], retries)); }
      else if retries != [] { HeadCalls(s, FailAll(error, [], retries[1..])); }
  }

  /** A callback that ends no pending refresh, at a moment when one is on. */
  predicate Untimely(s: System, step: Step) {
    step.CompletesAgain? && s.guarded.isRefreshing
  }

  /** Every step keeps the waiting lists idle without a refresh; only a callback changes how many refreshes
      are pending beyond the one isRefreshing stands for, by one if it is untimely. */
  lemma StepSurplus(s: System, window: Option<Window>, step: Step)
    requires Enabled(s, step) && QueuesIdle(s.guarded)
    ensures var s' := Next(s, window, step);
      && QueuesIdle(s'.guarded)
      && (if step.RefreshCompletes? then Surplus(s') == Pending(s) - 1
          else Surplus(s') == Surplus(s) + if Untimely(s, step) then 1 else 0)
  {
    hide AdaptSection, RetrySection, CompletionSection, RunHead, AdaptOutcome, Calls;
    match step
    case IssueAdapt(_) =>
    case IssueRetry(_) =>
    case AdaptLock(id, needsRefresh, checked, stamped) =>
      SectionCalls(s.guarded, window, id, 0, needsRefresh, checked, stamped);
      CallsAppend(s.queue, AdaptSection(s.guarded, window, id, needsRefresh, checked, stamped).1);
    case CheckRetry(_, _) =>
    case ReadCredential(_) =>
    case MatchCredential(_, _) =>
    case RetryLock(id, checked, stamped) =>
      SectionCalls(s.guarded, window, id, s.executing[id].credential, false, checked, stamped);
      CallsAppend(s.queue, RetrySection(s.guarded, window, id, s.executing[id].credential, checked, stamped).1);
    case Complete(_) =>
    case SetCredential(_) =>
    case RunBlock(needsRefresh, checked, stamped) => RunHeadSurplus(s, window, needsRefresh, checked, stamped);
    case RefreshCompletes(result) =>
      CompletionCalls(s.guarded, result);
      CallsAppend(s.queue, CompletionSection(s.guarded, result).1);
    case CompletesAgain(result) =>
      CompletionCalls(s.guarded, result);
      CallsAppend(s.queue, CompletionSection(s.guarded, result).1);
  }

  lemma {:induction false} RunBacked(s: System, window: Option<Window>, steps: seq<Step>)
    requires Allowed(s, window, steps) && Backed(s)
    ensures Backed(Run(s, window, steps))
    decreases |steps|
  {
    hide QueuesIdle, Pending, Enabled, Next;
    if steps != [] {
      StepSurplus(s, window, steps[0]);
      CompletesPending(s, steps[0]);
      RunBacked(Next(s, window, steps[0]), window, steps[1..]);
    }
  }

  lemma CompletesPending(s: System, step: Step)
    requires Enabled(s, step)
    ensures step.RefreshCompletes? ==> Pending(s) >= 1
  {
  }

  // ---------- Main results ----------

  /** At every state of the run. */
  predicate OneRefreshThroughout(s: System, window: Option<Window>, steps: seq<Step>)
    requires Allowed(s, window, steps)
    decreases |steps|
  {
    OneRefresh(s) && (steps != [] ==> OneRefreshThroughout(Next(s, window, steps[0]), window, steps[1..]))
  }

  predicate CallbacksTimely(s: System, window: Option<Window>, steps: seq<Step>)
    requires Allowed(s, window, steps)
    decreases |steps|
  {
    steps != [] ==> !Untimely(s, steps[0]) && CallbacksTimely(Next(s, window, steps[0]), window, steps[1..])
  }

  lemma {:induction false} SafetyExactly(s: System, window: Option<Window>, steps: seq<Step>)
    requires Allowed(s, window, steps) && OneRefresh(s)
    ensures OneRefreshThroughout(s, window, steps) <==> CallbacksTimely(s, window, steps)
    decreases |steps|
  {
    hide QueuesIdle, Pending, Enabled, Next;
    if steps != [] {
      var s' := Next(s, window, steps[0]);
      StepSurplus(s, window, steps[0]);
      CompletesPending(s, steps[0]);
      if OneRefresh(s') { SafetyExactly(s', window, steps[1..]); }
    }
  }

  /** Nothing is running, dispatched or in the authenticator's hands. */
  predicate Quiescent(s: System) {
    s.executing == map[] && s.queue == [] && s.outstanding == 0
  }

  /** In every run, however often the authenticator calls back, each call is in exactly one place, and no
      completion is called twice or for a call that was never made. */
  lemma NoCallLostOrRepeated(credential: Option<nat>, clock: real, window: Option<Window>, steps: seq<Step>, x: nat)
    requires Allowed(Init(credential, clock), window, steps)
    ensures var s := Run(Init(credential, clock), window, steps);
      && Places(s, x) == (if x in s.issued then 1 else 0)
      && Completions(s.completed, x) <= if x in s.issued then 1 else 0
  {
    RunConserves(Init(credential, clock), window, steps, x);
  }

  /** In every run, at every lock release, no call waits unless a refresh is on. And at most one refresh is
      pending, exactly while isRefreshing holds, throughout the run, if and only if no callback comes for a
      refresh already completed while another is on. */
  lemma RefreshSafety(credential: Option<nat>, clock: real, window: Option<Window>, steps: seq<Step>)
    requires Allowed(Init(credential, clock), window, steps)
    ensures var s := Run(Init(credential, clock), window, steps);
      && (!s.guarded.isRefreshing ==> s.guarded.adaptOperations == [] && s.guarded.requestsToRetry == [])
      && (s.guarded.isRefreshing ==> Pending(s) >= 1)
    ensures OneRefreshThroughout(Init(credential, clock), window, steps) <==>
      CallbacksTimely(Init(credential, clock), window, steps)
  {
    RunBacked(Init(credential, clock), window, steps);
    SafetyExactly(Init(credential, clock), window, steps);
  }

  /** A run that has come to rest has completed every call exactly once. */
  lemma AllCompletedAtRest(credential: Option<nat>, clock: real, window: Option<Window>, steps: seq<Step>, x: nat)
    requires Allowed(Init(credential, clock), window, steps)
    requires Quiescent(Run(Init(credential, clock), window, steps))
    ensures var s := Run(Init(credential, clock), window, steps);
      Completions(s.completed, x) == if x in s.issued then 1 else 0
  {
    hide Run, Allowed;
    NoCallLostOrRepeated(credential, clock, window, steps, x);
    RefreshSafety(credential, clock, window, steps);
  }

  /** One refresh that calls back twice is enough for two refreshes to be pending at once. */
  function DoubleCallback(): seq<Step> {
    [IssueAdapt(0), AdaptLock(0, true, 0.0, 0.0), RunBlock(true, 0.0, 0.0), RefreshCompletes(Some(1)),
     RunBlock(true, 0.0, 0.0), CompletesAgain(Some(1)), IssueAdapt(1), AdaptLock(1, true, 0.0, 0.0)]
  }

  /** The states that run goes through. */
  function Snapshot(k: nat): System {
    var again := Succeed(None, [0], []);
    var started := Guarded(Some(0), true, [0.0], [0], []);
    var refreshed := Guarded(Some(1), false, [0.0], [], []);
    var restarted := Guarded(Some(1), true, [0.0, 0.0], [0], []);
    var blocks := [Succeed(None, [], []), CallRefresh(1)];
    var reset := System(Guarded(Some(1), false, [0.0, 0.0], [], []), map[], blocks + [again], 0, [], {0}, 0.0);
    match k
    case 0 => Init(Some(0), 0.0)
    case 1 => System(Init(Some(0), 0.0).guarded, map[0 := AdaptEntered], [], 0, [], {0}, 0.0)
    case 2 => System(started, map[], [CallRefresh(0)], 0, [], {0}, 0.0)
    case 3 => System(started, map[], [], 1, [], {0}, 0.0)
    case 4 => System(refreshed, map[], [again], 0, [], {0}, 0.0)
    case 5 => System(restarted, map[], blocks, 0, [], {0}, 0.0)
    case 6 => reset
    case 7 => reset.(executing := map[1 := AdaptEntered], issued := {0, 1})
    case _ => System(Guarded(Some(1), true, [0.0, 0.0, 0.0], [1], []), map[],
                     blocks + [again, CallRefresh(1)], 0, [], {0, 1}, 0.0)
  }

  lemma FirstTurns(k: nat)
    requires k < 3
    ensures Enabled(Snapshot(k), DoubleCallback()[k])
    ensures Next(Snapshot(k), None, DoubleCallback()[k]) == Snapshot(k + 1)
  {
  }

  lemma RefreshTurns(k: nat)
    requires 3 <= k < 5
    ensures Enabled(Snapshot(k), DoubleCallback()[k])
    ensures Next(Snapshot(k), None, DoubleCallback()[k]) == Snapshot(k + 1)
  {
    if k == 4 {
      var s := Snapshot(4);
      assert s.queue[1..] == [] && s.queue[0].adapts[1..] == [];
      assert ReplaceHead(s, Succeed(None, [], [])).queue + [CallRefresh(1)] == Snapshot(5).queue;
    }
  }

  lemma LastTurns(k: nat)
    requires 5 <= k < 8
    ensures Enabled(Snapshot(k), DoubleCallback()[k])
    ensures Next(Snapshot(k), None, DoubleCallback()[k]) == Snapshot(k + 1)
  {
    hide RunHead;
  }

  lemma {:induction false} SnapshotRun(k: nat, n: nat)
    requires k <= n <= |DoubleCallback()|
    ensures Allowed(Snapshot(k), None, DoubleCallback()[k..n])
    ensures Run(Snapshot(k), None, DoubleCallback()[k..n]) == Snapshot(n)
    decreases n - k
  {
    hide Snapshot, DoubleCallback, Enabled, Next;
    assert |DoubleCallback()| == 8 by { EightSteps(); }
    if k < n {
      if k < 3 { FirstTurns(k); } else if k < 5 { RefreshTurns(k); } else { LastTurns(k); }
      SnapshotRun(k + 1, n);
      assert DoubleCallback()[k..n][1..] == DoubleCallback()[k + 1..n];
    }
  }

  lemma EightSteps()
    ensures |DoubleCallback()| == 8
  {
  }

  lemma DoubleCallbackBreaksSafety()
    ensures Allowed(Init(Some(0), 0.0), None, DoubleCallback())
    ensures Pending(Run(Init(Some(0), 0.0), None, DoubleCallback())) == 2
  {
    hide Allowed, Run;
    EightSteps();
    SnapshotRun(0, 8);
    assert DoubleCallback()[0..8] == DoubleCallback();
    CallsAppend([Succeed(None, [], []), CallRefresh(1)], [Succeed(None, [0], []), CallRefresh(1)]);
  }
}
