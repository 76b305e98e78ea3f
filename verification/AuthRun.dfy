/** The interceptor object under any interleaving of its lock sections and of the blocks on its queue: every
    step of the protocol that enters the lock is carried out by the object's own methods. */
module AuthRun {
  import opened Parsing
  import opened AuthInterceptor
  import opened AuthProtocol

  /** An interceptor, the threads in calls to it, the authenticator, and the record of the completions. */
  class Session {
    const interceptor: Interceptor
    var executing: map<nat, Stage>
    var outstanding: nat
    var completed: seq<(nat, Outcome)>
    var issued: set<nat>
    var clock: real

    function Snapshot(): System
      reads this, interceptor
    {
      System(interceptor.State(), executing, interceptor.queue, outstanding, completed, issued, clock)
    }

    constructor (credential: Option<nat>, window: Option<Window>, start: real)
      ensures fresh(interceptor) && interceptor.refreshWindow == window && Snapshot() == Init(credential, start)
    {
      interceptor := new Interceptor(credential, window);
      executing, outstanding, completed, issued, clock := map[], 0, [], {}, start;
    }

    /** The block at the head of the queue has gone on to `block`. */
    method PutHead(block: Block)
      requires interceptor.queue != []
      modifies interceptor`queue
      ensures Snapshot() == ReplaceHead(old(Snapshot()), block)
    {
      interceptor.queue := [block] + interceptor.queue[1..];
    }

    method PopHead()
      requires interceptor.queue != []
      modifies interceptor`queue
      ensures Snapshot() == Pop(old(Snapshot()))
    {
      interceptor.queue := interceptor.queue[1..];
    }

    method CallCompletion(id: nat, outcome: Outcome)
      modifies this`completed
      ensures Snapshot() == Deliver(old(Snapshot()), id, outcome)
    {
      completed := completed + [(id, outcome)];
    }

    method ResubmitAdapt(adapts: seq<nat>, retries: seq<nat>, needsRefresh: bool, checked: real, stamped: real)
      requires interceptor.queue != [] && adapts != []
      modifies this, interceptor
      ensures Snapshot() ==
        Resubmit(old(Snapshot()), interceptor.refreshWindow, adapts, retries, needsRefresh, checked, stamped)
    {
      hide AdaptSection, AdaptOutcome;
      var result := interceptor.AdaptLocked(adapts[0], needsRefresh, checked, stamped);
      var current := if result.AdaptDeferred? then None else Some((adapts[0], AdaptOutcome(result)));
      PutHead(Succeed(current, adapts[1..], retries));
      clock := stamped;
    }

    method RunHeadBlock(needsRefresh: bool, checked: real, stamped: real)
      requires interceptor.queue != []
      modifies this, interceptor
      ensures Snapshot() == RunHead(old(Snapshot()), interceptor.refreshWindow, needsRefresh, checked, stamped)
    {
      hide Resubmit;
      match interceptor.queue[0]
      case CallRefresh(_) =>
        PopHead();
        outstanding := outstanding + 1;
      case Succeed(current, adapts, retries) =>
        if current.Some? {
          PutHead(Succeed(None, adapts, retries));
          CallCompletion(current.value.0, current.value.1);
        } else if adapts != [] {
          ResubmitAdapt(adapts, retries, needsRefresh, checked, stamped);
        } else if retries != [] {
          PutHead(Succeed(None, [], retries[1..]));
          CallCompletion(retries[0], Retry);
        } else {
          PopHead();
        }
      case FailAll(error, adapts, retries) =>
        if adapts != [] {
          PutHead(FailAll(error, adapts[1..], retries));
          CallCompletion(adapts[0], error);
        } else if retries != [] {
          PutHead(FailAll(error, [], retries[1..]));
          CallCompletion(retries[0], error);
        } else {
          PopHead();
        }
    }

    method RefreshCompleted(result: Option<nat>)
      modifies interceptor
      ensures var s := old(Snapshot()); Snapshot() == Section(s, CompletionSection(s.guarded, result), s.clock)
    {
      if result.Some? {
        interceptor.HandleRefreshSuccess(result.value);
      } else {
        interceptor.HandleRefreshFailure(RefreshFailed);
      }
    }

    method Do(step: Step)
      requires Enabled(Snapshot(), step)
      modifies this, interceptor
      ensures Snapshot() == Next(old(Snapshot()), interceptor.refreshWindow, step)
    {
      hide AdaptSection, RetrySection, CompletionSection, RunHead, AdaptOutcome;
      match step
      case IssueAdapt(id) => executing, issued := executing[id := AdaptEntered], issued + {id};
      case IssueRetry(id) => executing, issued := executing[id := RetryEntered], issued + {id};
      case AdaptLock(id, needsRefresh, checked, stamped) =>
        var result := interceptor.AdaptLocked(id, needsRefresh, checked, stamped);
        clock := stamped;
        executing := if result.AdaptDeferred? then executing - {id}
          else executing[id := Completing(AdaptOutcome(result))];
      case CheckRetry(id, authenticationError) =>
        executing := executing[id := if authenticationError then RetryChecked else Completing(DoNotRetry)];
      case ReadCredential(id) =>
        var credential := interceptor.credential;
        var stage := if credential.Some? then RetryRead(credential.value) else Completing(MissingCredential);
        executing := executing[id := stage];
      case MatchCredential(id, same) =>
        executing := executing[id := if same then RetryMatched(executing[id].credential) else Completing(Retry)];
      case RetryLock(id, checked, stamped) =>
        interceptor.RetryLocked(id, executing[id].credential, checked, stamped);
        executing, clock := executing - {id}, stamped;
      case Complete(id) =>
        CallCompletion(id, executing[id].outcome);
        executing := executing - {id};
      case SetCredential(credential) => interceptor.credential := credential;
      case RunBlock(needsRefresh, checked, stamped) => RunHeadBlock(needsRefresh, checked, stamped);
      case RefreshCompletes(result) =>
        RefreshCompleted(result);
        outstanding := outstanding - 1;
      case CompletesAgain(result) => RefreshCompleted(result);
    }
  }

  /** Whatever the interleaving, the object is in the state of the run: no completion has been called twice,
      and all have been called once nothing is left running. */
  method RunSession(credential: Option<nat>, window: Option<Window>, start: real, steps: seq<Step>)
    returns (s: Session)
    requires Allowed(Init(credential, start), window, steps)
    ensures s.Snapshot() == Run(Init(credential, start), window, steps)
    ensures forall x :: Completions(s.completed, x) <= if x in s.issued then 1 else 0
    ensures Quiescent(s.Snapshot()) ==> forall x :: Completions(s.completed, x) == if x in s.issued then 1 else 0
  {
    hide Enabled, Next, Places, Completions;
    s := new Session(credential, window, start);
    for i := 0 to |steps|
      invariant fresh(s) && fresh(s.interceptor) && s.interceptor.refreshWindow == window
      invariant Allowed(s.Snapshot(), window, steps[i..])
      invariant Run(s.Snapshot(), window, steps[i..]) == Run(Init(credential, start), window, steps)
    {
      assert steps[i..][1..] == steps[i + 1..];
      s.Do(steps[i]);
    }
    forall x: nat
      ensures Completions(s.completed, x) <= if x in s.issued then 1 else 0
      ensures Quiescent(s.Snapshot()) ==> Completions(s.completed, x) == if x in s.issued then 1 else 0
    {
      NoCallLostOrRepeated(credential, start, window, steps, x);
      if Quiescent(s.Snapshot()) { AllCompletedAtRest(credential, start, window, steps, x); }
    }
  }
}
