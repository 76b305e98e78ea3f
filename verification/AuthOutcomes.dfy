/** What each call is completed with, and why: in every run, whatever a completion was called with goes back to a
    step that gives the reason, and to what the interceptor held at that moment. */
module AuthOutcomes {
  import opened Parsing
  import opened AuthInterceptor
  import opened AuthProtocol

  // ---------- Reasons ----------

  /** The lock section of adapt runs for call `x`, on its own thread or re-submitted by a block. */
  predicate Adapts(s: System, step: Step, x: nat) {
    match step
    case AdaptLock(id, _, _, _) => id == x
    case RunBlock(_, _, _) =>
      s.queue != [] && s.queue[0].Succeed? && s.queue[0].current == None && s.queue[0].adapts != [] &&
      s.queue[0].adapts[0] == x
    case _ => false
  }

  /** The authenticator calls back, with a credential or with an error. */
  predicate CallsBack(step: Step, success: bool) {
    (step.RefreshCompletes? || step.CompletesAgain?) && step.result.Some? == success
  }

  predicate Waits(s: System, x: nat) {
    x in s.guarded.adaptOperations || x in s.guarded.requestsToRetry
  }

  /** The stamps that lie no more than the window's length before `now`. */
  function Recent(timestamps: seq<real>, interval: real, now: real): set<nat> {
    set i: nat | i < |timestamps| && now - interval <= timestamps[i]
  }

  /** There is a window, and at least as many refreshes have started in it as it allows. */
  predicate TooMany(g: Guarded, window: Option<Window>, now: real) {
    window.Some? && |Recent(g.refreshTimestamps, window.value.interval, now)| >= window.value.maximumAttempts
  }

  /** A refresh is asked for while none is on, and there have been too many. */
  predicate Refused(s: System, window: Option<Window>, step: Step) {
    && !s.guarded.isRefreshing
    && match step
       case AdaptLock(_, needsRefresh, checked, _) => needsRefresh && TooMany(s.guarded, window, checked)
       case RunBlock(needsRefresh, checked, _) => needsRefresh && TooMany(s.guarded, window, checked)
       case RetryLock(_, checked, _) => TooMany(s.guarded, window, checked)
       case _ => false
  }

  predicate NeedsRefresh(step: Step) {
    match step
    case AdaptLock(_, needsRefresh, _, _) => needsRefresh
    case RunBlock(needsRefresh, _, _) => needsRefresh
    case _ => false
  }

  /** Why call `x` may be completed with `o`: the step taken in state `s`. */
  predicate Reason(s: System, window: Option<Window>, step: Step, x: nat, o: Outcome) {
    match o
    case DoNotRetry => step == CheckRetry(x, false)
    case Retry =>
      || step == MatchCredential(x, false)
      || (CallsBack(step, true) && x in s.guarded.requestsToRetry)
    case RefreshFailed => CallsBack(step, false) && Waits(s, x)
    case ExcessiveRefresh =>
      Refused(s, window, step) && (Waits(s, x) || Adapts(s, step, x) || (step.RetryLock? && step.id == x))
    case Adapted(c) =>
      Adapts(s, step, x) && !NeedsRefresh(step) && !s.guarded.isRefreshing && s.guarded.credential == Some(c)
    case MissingCredential =>
      && s.guarded.credential == None
      && (step == ReadCredential(x) || (Adapts(s, step, x) && !s.guarded.isRefreshing))
  }

  // ---------- Completions called, and those about to be ----------

  predicate BlockClaims(b: Block, x: nat, o: Outcome) {
    match b
    case CallRefresh(_) => false
    case Succeed(current, _, retries) => current == Some((x, o)) || (o == Retry && x in retries)
    case FailAll(error, adapts, retries) => o == error && (x in adapts || x in retries)
  }

  predicate QueueClaims(queue: seq<Block>, x: nat, o: Outcome) {
    exists i :: 0 <= i < |queue| && BlockClaims(queue[i], x, o)
  }

  predicate Claims(s: System, x: nat, o: Outcome) {
    || (x, o) in s.completed
    || (x in s.executing && s.executing[x] == Completing(o))
    || QueueClaims(s.queue, x, o)
  }

  lemma CountIsRecent(timestamps: seq<real>, interval: real, now: real)
    ensures CountSince(timestamps, now - interval) == |Recent(timestamps, interval, now)|
  {
    if timestamps == [] {
      assert Recent(timestamps, interval, now) == {};
    } else {
      var n := |timestamps| - 1;
      var earlier := Recent(timestamps[..n], interval, now);
      CountIsRecent(timestamps[..n], interval, now);
      assert Recent(timestamps, interval, now) == earlier + if now - interval <= timestamps[n] then {n} else {};
    }
  }

  /** isRefreshExcessive: exactly when there have been too many. */
  lemma ExcessiveExactly(g: Guarded, window: Option<Window>, now: real)
    ensures Excessive(g, window, now) <==> TooMany(g, window, now)
  {
    if window.Some? { CountIsRecent(g.refreshTimestamps, window.value.interval, now); }
  }

  lemma QueueSplit(a: seq<Block>, b: seq<Block>, x: nat, o: Outcome)
    ensures QueueClaims(a + b, x, o) <==> QueueClaims(a, x, o) || QueueClaims(b, x, o)
  {
    hide BlockClaims;
    assert forall i :: 0 <= i < |a| ==> (a + b)[i] == a[i];
    assert forall i :: 0 <= i < |b| ==> (a + b)[|a| + i] == b[i];
  }

  lemma OneClaims(b: Block, x: nat, o: Outcome)
    ensures QueueClaims([b], x, o) <==> BlockClaims(b, x, o)
    ensures !QueueClaims([], x, o)
  {
    hide BlockClaims;
    assert [b][0] == b;
  }

  /** A refused refresh fails everything that waits, the newcomer included. */
  lemma RefreshClaims(g: Guarded, window: Option<Window>, credential: nat, checked: real, stamped: real,
      x: nat, o: Outcome)
    requires QueueClaims(RefreshSection(g, window, credential, checked, stamped).1, x, o)
    ensures o == ExcessiveRefresh && TooMany(g, window, checked) && (x in g.adaptOperations || x in g.requestsToRetry)
  {
    hide Excessive, TooMany;
    ExcessiveExactly(g, window, checked);
    OneClaims(CallRefresh(credential), x, o);
    OneClaims(FailAll(ExcessiveRefresh, g.adaptOperations, g.requestsToRetry), x, o);
  }

  lemma AdaptClaims(g: Guarded, window: Option<Window>, id: nat, needsRefresh: bool, checked: real, stamped: real,
      x: nat, o: Outcome)
    requires QueueClaims(AdaptSection(g, window, id, needsRefresh, checked, stamped).1, x, o)
    ensures o == ExcessiveRefresh && !g.isRefreshing && needsRefresh && TooMany(g, window, checked)
    ensures x == id || x in g.adaptOperations || x in g.requestsToRetry
  {
    hide RefreshSection;
    OneClaims(CallRefresh(0), x, o);
    var waiting := g.(adaptOperations := g.adaptOperations + [id]);
    if !g.isRefreshing && g.credential.Some? && needsRefresh {
      RefreshClaims(waiting, window, g.credential.value, checked, stamped, x, o);
    }
  }

  lemma RetryClaims(g: Guarded, window: Option<Window>, id: nat, credential: nat, checked: real, stamped: real,
      x: nat, o: Outcome)
    requires QueueClaims(RetrySection(g, window, id, credential, checked, stamped).1, x, o)
    ensures o == ExcessiveRefresh && !g.isRefreshing && TooMany(g, window, checked)
    ensures x == id || x in g.adaptOperations || x in g.requestsToRetry
  {
    hide RefreshSection;
    OneClaims(CallRefresh(0), x, o);
    var waiting := g.(requestsToRetry := g.requestsToRetry + [id]);
    if !g.isRefreshing { RefreshClaims(waiting, window, credential, checked, stamped, x, o); }
  }

  lemma CompletionClaims(g: Guarded, result: Option<nat>, x: nat, o: Outcome)
    requires QueueClaims(CompletionSection(g, result).1, x, o)
    ensures if result.Some? then o == Retry && x in g.requestsToRetry
      else o == RefreshFailed && (x in g.adaptOperations || x in g.requestsToRetry)
  {
    OneClaims(Succeed(None, g.adaptOperations, g.requestsToRetry), x, o);
    OneClaims(FailAll(RefreshFailed, g.adaptOperations, g.requestsToRetry), x, o);
  }

  // ---------- Every claim has a reason ----------

  lemma HeadClaims(s: System, b: Block, x: nat, o: Outcome)
    requires s.queue != []
    ensures QueueClaims(ReplaceHead(s, b).queue, x, o) <==> BlockClaims(b, x, o) || QueueClaims(Pop(s).queue, x, o)
    ensures QueueClaims(s.queue, x, o) <==> BlockClaims(s.queue[0], x, o) || QueueClaims(Pop(s).queue, x, o)
  {
    hide BlockClaims;
    QueueSplit([b], s.queue[1..], x, o);
    QueueSplit([s.queue[0]], s.queue[1..], x, o);
    OneClaims(b, x, o);
    OneClaims(s.queue[0], x, o);
    assert s.queue == [s.queue[0]] + s.queue[1..];
  }

  lemma ResubmitClaims(s: System, window: Option<Window>, step: Step, x: nat, o: Outcome)
    requires Enabled(s, step) && step.RunBlock? && Claims(Next(s, window, step), x, o) && !Claims(s, x, o)
    requires s.queue[0].Succeed? && s.queue[0].current == None && s.queue[0].adapts != []
    ensures Reason(s, window, step, x, o)
  {
    hide AdaptSection, BlockClaims, TooMany;
    var head := s.queue[0];
    var id, g := head.adapts[0], s.guarded;
    var r := AdaptSection(g, window, id, step.needsRefresh, step.checked, step.stamped);
    var current := if r.2.AdaptDeferred? then None else Some((id, AdaptOutcome(r.2)));
    var b := Succeed(current, head.adapts[1..], head.retries);
    QueueSplit(ReplaceHead(s, b).queue, r.1, x, o);
    HeadClaims(s, b, x, o);
    if QueueClaims(r.1, x, o) {
      AdaptClaims(g, window, id, step.needsRefresh, step.checked, step.stamped, x, o);
    } else {
      CurrentOnly(head, b, x, o);
      SectionReason(s, window, step, id);
    }
  }

  lemma CurrentOnly(head: Block, b: Block, x: nat, o: Outcome)
    requires head.Succeed? && b.Succeed? && b.retries == head.retries
    requires BlockClaims(b, x, o) && !BlockClaims(head, x, o)
    ensures b.current == Some((x, o))
  {
  }

  /** The outcome that the lock section of adapt decides on at once. */
  lemma SectionReason(s: System, window: Option<Window>, step: Step, id: nat)
    requires Adapts(s, step, id) && (step.AdaptLock? || step.RunBlock?)
    ensures var needs, checked, stamped := step.needsRefresh, step.checked, step.stamped;
      var r := AdaptSection(s.guarded, window, id, needs, checked, stamped).2;
      !r.AdaptDeferred? ==> Reason(s, window, step, id, AdaptOutcome(r))
  {
    hide RefreshSection;
  }

  lemma RunHeadClaims(s: System, window: Option<Window>, step: Step, x: nat, o: Outcome)
    requires Enabled(s, step) && step.RunBlock? && Claims(Next(s, window, step), x, o) && !Claims(s, x, o)
    ensures Reason(s, window, step, x, o)
  {
    hide AdaptSection, AdaptOutcome, TooMany, Reason, QueueClaims;
    HeadClaims(s, s.queue[0], x, o);
    match s.queue[0]
    case CallRefresh(_) =>
    case Succeed(current, adapts, retries) =>
      if current.Some? {
        HeadClaims(s, Succeed(None, adapts, retries), x, o);
      } else if adapts != [] {
        ResubmitClaims(s, window, step, x, o);
      } else if retries != [] {
        HeadClaims(s, Succeed(None, [], retries[1..]), x, o);
      }
    case FailAll(error, adapts, retries) =>
      if adapts != [] { HeadClaims(s, FailAll(error, adapts[1..], retries), x, o); }
      else if retries != [] { HeadClaims(s, FailAll(error, [], retries[1..]), x, o); }
  }

  /** A claim that a step adds has its reason in that step. */
  lemma StepClaims(s: System, window: Option<Window>, step: Step, x: nat, o: Outcome)
    requires Enabled(s, step) && Claims(Next(s, window, step), x, o) && !Claims(s, x, o)
    ensures Reason(s, window, step, x, o)
  {
    hide AdaptSection, RetrySection, CompletionSection, RunHead, TooMany, QueueClaims;
    match step
    case AdaptLock(id, needsRefresh, checked, stamped) =>
      var r := AdaptSection(s.guarded, window, id, needsRefresh, checked, stamped);
      QueueSplit(s.queue, r.1, x, o);
      if QueueClaims(r.1, x, o) { AdaptClaims(s.guarded, window, id, needsRefresh, checked, stamped, x, o); }
      SectionReason(s, window, step, id);
    case RetryLock(id, checked, stamped) =>
      var credential := s.executing[id].credential;
      QueueSplit(s.queue, RetrySection(s.guarded, window, id, credential, checked, stamped).1, x, o);
      if QueueClaims(RetrySection(s.guarded, window, id, credential, checked, stamped).1, x, o) {
        RetryClaims(s.guarded, window, id, credential, checked, stamped, x, o);
      }
    case RunBlock(_, _, _) => RunHeadClaims(s, window, step, x, o);
    case RefreshCompletes(result) =>
      QueueSplit(s.queue, CompletionSection(s.guarded, result).1, x, o);
      CompletionClaims(s.guarded, result, x, o);
    case CompletesAgain(result) =>
      QueueSplit(s.queue, CompletionSection(s.guarded, result).1, x, o);
      CompletionClaims(s.guarded, result, x, o);
    case _ =>
  }

  // ---------- Over runs ----------

  /** The state of a run before its step `i`. */
  function StateAt(s: System, window: Option<Window>, steps: seq<Step>, i: nat): System
    requires Allowed(s, window, steps) && i <= |steps|
    decreases i
  {
    if i == 0 then s else StateAt(Next(s, window, steps[0]), window, steps[1..], i - 1)
  }

  predicate HasReason(s: System, window: Option<Window>, steps: seq<Step>, x: nat, o: Outcome)
    requires Allowed(s, window, steps)
  {
    exists i :: 0 <= i < |steps| && Reason(StateAt(s, window, steps, i), window, steps[i], x, o)
  }

  lemma LaterState(s: System, window: Option<Window>, steps: seq<Step>, i: nat)
    requires Allowed(s, window, steps) && i + 1 < |steps|
    ensures steps[1..][i] == steps[i + 1]
    ensures StateAt(s, window, steps, i + 1) == StateAt(Next(s, window, steps[0]), window, steps[1..], i)
  {
  }

  lemma {:induction false} RunClaims(s: System, window: Option<Window>, steps: seq<Step>, x: nat, o: Outcome)
    requires Allowed(s, window, steps) && Claims(Run(s, window, steps), x, o)
    ensures Claims(s, x, o) || HasReason(s, window, steps, x, o)
    decreases |steps|
  {
    hide Claims, Reason, Enabled, Next;
    if steps != [] {
      var s' := Next(s, window, steps[0]);
      RunClaims(s', window, steps[1..], x, o);
      if HasReason(s', window, steps[1..], x, o) {
        var i :| 0 <= i < |steps[1..]| && Reason(StateAt(s', window, steps[1..], i), window, steps[1..][i], x, o);
        LaterState(s, window, steps, i);
        assert Reason(StateAt(s, window, steps, i + 1), window, steps[i + 1], x, o);
      } else if !Claims(s, x, o) {
        StepClaims(s, window, steps[0], x, o);
        assert StateAt(s, window, steps, 0) == s;
      }
    }
  }

  /** In every run, each outcome a completion was called with has its reason: a request is retried only because
      it was made with another credential or a refresh it waited for succeeded, and not retried only because
      it did not fail for its authentication; a refresh error comes only from a failed callback, an excessive
      refresh only from a refused one, while the call waited; a credential is applied only if it was the one
      stored, no refresh was on and it required none; and it is missing only if none was stored. */
  lemma OutcomesHaveReasons(credential: Option<nat>, clock: real, window: Option<Window>, steps: seq<Step>,
      x: nat, o: Outcome)
    requires Allowed(Init(credential, clock), window, steps)
    requires (x, o) in Run(Init(credential, clock), window, steps).completed
    ensures HasReason(Init(credential, clock), window, steps, x, o)
  {
    hide Reason, Run, Allowed;
    RunClaims(Init(credential, clock), window, steps, x, o);
  }

  lemma SectionWaits(g: Guarded, window: Option<Window>, id: nat, credential: nat, needsRefresh: bool,
      checked: real, stamped: real, x: nat)
    ensures var a := AdaptSection(g, window, id, needsRefresh, checked, stamped).0;
      && (x in a.adaptOperations ==> x in g.adaptOperations || x == id)
      && (x in a.requestsToRetry ==> x in g.requestsToRetry)
    ensures var r := RetrySection(g, window, id, credential, checked, stamped).0;
      && (x in r.adaptOperations ==> x in g.adaptOperations)
      && (x in r.requestsToRetry ==> x in g.requestsToRetry || x == id)
  {
    hide Excessive;
  }

  lemma StepWaits(s: System, window: Option<Window>, step: Step, x: nat)
    requires Enabled(s, step)
    ensures x in Next(s, window, step).guarded.requestsToRetry ==>
      x in s.guarded.requestsToRetry || (step.RetryLock? && step.id == x)
    ensures x in Next(s, window, step).guarded.adaptOperations ==>
      x in s.guarded.adaptOperations || Adapts(s, step, x)
  {
    hide AdaptSection, RetrySection, AdaptOutcome;
    match step
    case AdaptLock(id, needsRefresh, checked, stamped) =>
      SectionWaits(s.guarded, window, id, 0, needsRefresh, checked, stamped, x);
    case RetryLock(id, checked, stamped) =>
      SectionWaits(s.guarded, window, id, s.executing[id].credential, false, checked, stamped, x);
    case RunBlock(needsRefresh, checked, stamped) =>
      if s.queue[0].Succeed? && s.queue[0].adapts != [] {
        SectionWaits(s.guarded, window, s.queue[0].adapts[0], 0, needsRefresh, checked, stamped, x);
      }
    case _ =>
  }

  /** A request that waits to be retried has entered by retry, an adapt operation by adapt's lock section. */
  lemma {:induction false} WaitsSince(s: System, window: Option<Window>, steps: seq<Step>, i: nat, x: nat)
    requires Allowed(s, window, steps) && i <= |steps|
    ensures x in StateAt(s, window, steps, i).guarded.requestsToRetry ==>
      x in s.guarded.requestsToRetry || exists j :: 0 <= j < i && steps[j].RetryLock? && steps[j].id == x
    ensures x in StateAt(s, window, steps, i).guarded.adaptOperations ==>
      x in s.guarded.adaptOperations || exists j :: 0 <= j < i && Adapts(StateAt(s, window, steps, j), steps[j], x)
    decreases i
  {
    hide Enabled, Next, Adapts;
    if i > 0 {
      var s', rest := Next(s, window, steps[0]), steps[1..];
      StepWaits(s, window, steps[0], x);
      WaitsSince(s', window, rest, i - 1, x);
      assert StateAt(s, window, steps, 0) == s;
      forall j | 0 <= j < i - 1
        ensures rest[j] == steps[j + 1] && StateAt(s', window, rest, j) == StateAt(s, window, steps, j + 1)
      {
      }
    }
  }

  /** What the last change of the credential has left: the application's, or a successful refresh's. */
  function LastCredential(credential: Option<nat>, steps: seq<Step>): Option<nat>
    decreases |steps|
  {
    if steps == [] then credential
    else
      var now := match steps[0]
        case SetCredential(c) => c
        case RefreshCompletes(Some(c)) => Some(c)
        case CompletesAgain(Some(c)) => Some(c)
        case _ => credential;
      LastCredential(now, steps[1..])
  }

  lemma StepCredential(s: System, window: Option<Window>, step: Step)
    requires Enabled(s, step)
    ensures Next(s, window, step).guarded.credential == LastCredential(s.guarded.credential, [step])
  {
    hide Excessive, AdaptOutcome;
    assert [step][1..] == [];
  }

  /** The credential stored is the last one set or delivered by a refresh. */
  lemma {:induction false} CredentialStored(s: System, window: Option<Window>, steps: seq<Step>)
    requires Allowed(s, window, steps)
    ensures Run(s, window, steps).guarded.credential == LastCredential(s.guarded.credential, steps)
    decreases |steps|
  {
    hide Enabled, Next;
    if steps != [] {
      StepCredential(s, window, steps[0]);
      CredentialStored(Next(s, window, steps[0]), window, steps[1..]);
      assert [steps[0]][1..] == [];
    }
  }

  /** A refresh with credential `c` is dispatched, or a retry has read `c` and may yet ask for one. */
  predicate Uses(s: System, c: nat) {
    || CallRefresh(c) in s.queue
    || exists id :: id in s.executing && (s.executing[id] == RetryRead(c) || s.executing[id] == RetryMatched(c))
  }

  lemma SectionUses(g: Guarded, window: Option<Window>, id: nat, credential: nat, needsRefresh: bool,
      checked: real, stamped: real, c: nat)
    ensures CallRefresh(c) in AdaptSection(g, window, id, needsRefresh, checked, stamped).1 ==> g.credential == Some(c)
    ensures CallRefresh(c) in RetrySection(g, window, id, credential, checked, stamped).1 ==> credential == c
  {
    hide Excessive;
  }

  lemma HeadUses(s: System, window: Option<Window>, needsRefresh: bool, checked: real, stamped: real, c: nat)
    requires s.queue != [] && CallRefresh(c) in RunHead(s, window, needsRefresh, checked, stamped).queue
    ensures CallRefresh(c) in s.queue || s.guarded.credential == Some(c)
  {
    hide AdaptSection, AdaptOutcome;
    assert forall b :: b in s.queue[1..] ==> b in s.queue;
    if s.queue[0].Succeed? && s.queue[0].adapts != [] {
      SectionUses(s.guarded, window, s.queue[0].adapts[0], 0, needsRefresh, checked, stamped, c);
    }
  }

  lemma StepUses(s: System, window: Option<Window>, step: Step, c: nat)
    requires Enabled(s, step) && Uses(Next(s, window, step), c)
    ensures Uses(s, c) || s.guarded.credential == Some(c)
  {
    hide AdaptSection, RetrySection, RunHead, AdaptOutcome;
    match step
    case AdaptLock(id, needsRefresh, checked, stamped) =>
      SectionUses(s.guarded, window, id, 0, needsRefresh, checked, stamped, c);
    case RetryLock(id, checked, stamped) =>
      SectionUses(s.guarded, window, id, s.executing[id].credential, false, checked, stamped, c);
    case RunBlock(needsRefresh, checked, stamped) =>
      if CallRefresh(c) in RunHead(s, window, needsRefresh, checked, stamped).queue {
        HeadUses(s, window, needsRefresh, checked, stamped, c);
      }
      RunHeadThreads(s, window, needsRefresh, checked, stamped);
    case _ =>
  }

  lemma RunHeadThreads(s: System, window: Option<Window>, needsRefresh: bool, checked: real, stamped: real)
    requires s.queue != []
    ensures RunHead(s, window, needsRefresh, checked, stamped).executing == s.executing
  {
    hide AdaptSection, AdaptOutcome;
  }

  /** The authenticator is asked to refresh only a credential that was stored at some moment of the run. */
  lemma {:induction false} RefreshesStored(s: System, window: Option<Window>, steps: seq<Step>, c: nat)
    requires Allowed(s, window, steps) && Uses(Run(s, window, steps), c)
    ensures Uses(s, c) ||
      exists i :: 0 <= i < |steps| && StateAt(s, window, steps, i).guarded.credential == Some(c)
    decreases |steps|
  {
    hide Uses, Enabled, Next;
    if steps != [] {
      var s' := Next(s, window, steps[0]);
      RefreshesStored(s', window, steps[1..], c);
      if Uses(s', c) {
        StepUses(s, window, steps[0], c);
        if !Uses(s, c) { assert StateAt(s, window, steps, 0).guarded.credential == Some(c); }
      } else {
        var i :| 0 <= i < |steps[1..]| && StateAt(s', window, steps[1..], i).guarded.credential == Some(c);
        LaterState(s, window, steps, i);
        assert StateAt(s, window, steps, i + 1).guarded.credential == Some(c);
      }
    }
  }

  // ---------- The order of completion ----------

  /** The block at the head of the queue takes `n` steps while no credential requires a refresh. */
  function Drain(s: System, window: Option<Window>, n: nat): System
    decreases n
  {
    if n == 0 || s.queue == [] then s else Drain(RunHead(s, window, false, s.clock, s.clock), window, n - 1)
  }

  function All(ids: seq<nat>, o: Outcome): seq<(nat, Outcome)> {
    if ids == [] then [] else [(ids[0], o)] + All(ids[1..], o)
  }

  lemma DrainStep(s: System, window: Option<Window>, n: nat)
    requires s.queue != [] && n > 0
    ensures Drain(s, window, n) == Drain(RunHead(s, window, false, s.clock, s.clock), window, n - 1)
  {
  }

  /** The block goes on to `block` after calling the completion of `id`. */
  function Called(s: System, block: Block, id: nat, o: Outcome): System
    requires s.queue != []
  {
    s.(queue := [block] + s.queue[1..], completed := s.completed + [(id, o)])
  }

  lemma FailureStep(s: System, window: Option<Window>, error: Outcome, adapts: seq<nat>, retries: seq<nat>)
    requires s.queue != [] && s.queue[0] == FailAll(error, adapts, retries)
    ensures RunHead(s, window, false, s.clock, s.clock) ==
      if adapts != [] then Called(s, FailAll(error, adapts[1..], retries), adapts[0], error)
      else if retries != [] then Called(s, FailAll(error, [], retries[1..]), retries[0], error)
      else s.(queue := s.queue[1..])
  {
  }

  /** A failed refresh fails every call that waited, adapt operations first, in the order in which they came. */
  lemma {:induction false} FailureInOrder(s: System, window: Option<Window>, error: Outcome,
      adapts: seq<nat>, retries: seq<nat>)
    requires s.queue != [] && s.queue[0] == FailAll(error, adapts, retries)
    ensures Drain(s, window, |adapts| + |retries| + 1) ==
      s.(queue := s.queue[1..], completed := s.completed + (All(adapts, error) + All(retries, error)))
    decreases |adapts| + |retries|
  {
    hide RunHead, Drain;
    DrainStep(s, window, |adapts| + |retries| + 1);
    FailureStep(s, window, error, adapts, retries);
    var s' := RunHead(s, window, false, s.clock, s.clock);
    if adapts != [] {
      FailureInOrder(s', window, error, adapts[1..], retries);
      Joined(s.completed, (adapts[0], error), All(adapts[1..], error), All(retries, error));
    } else if retries != [] {
      FailureInOrder(s', window, error, [], retries[1..]);
      Joined(s.completed, (retries[0], error), [], All(retries[1..], error));
    } else {
      NothingCalled(s', window, s.completed);
    }
  }

  lemma NothingCalled(s: System, window: Option<Window>, log: seq<(nat, Outcome)>)
    ensures Drain(s, window, 0) == s && log + ([] + []) == log
  {
  }

  lemma Joined(log: seq<(nat, Outcome)>, c: (nat, Outcome), a: seq<(nat, Outcome)>, b: seq<(nat, Outcome)>)
    ensures log + [c] + (a + b) == log + ([c] + a + b) && [c] + (a + b) == [c] + a + b && [] + b == b
  {
  }

  /** After a refresh that succeeds every adapt operation that waited gets the new credential and every request
      that waited is retried, in the order in which they came. */
  lemma {:induction false} SuccessInOrder(s: System, window: Option<Window>, c: nat,
      adapts: seq<nat>, retries: seq<nat>)
    requires s.queue != [] && s.queue[0] == Succeed(None, adapts, retries)
    requires s.guarded.credential == Some(c) && !s.guarded.isRefreshing
    ensures Drain(s, window, 2 * |adapts| + |retries| + 1) ==
      s.(queue := s.queue[1..], completed := s.completed + (All(adapts, Adapted(c)) + All(retries, Retry)))
    decreases |adapts| + |retries|
  {
    hide RunHead, Drain;
    DrainStep(s, window, 2 * |adapts| + |retries| + 1);
    var s' := RunHead(s, window, false, s.clock, s.clock);
    if adapts != [] {
      AdaptedAtOnce(s, window, c, adapts, retries);
      DrainStep(s', window, 2 * |adapts| + |retries|);
      SuccessInOrder(Called(s, Succeed(None, adapts[1..], retries), adapts[0], Adapted(c)), window, c, adapts[1..],
          retries);
      Joined(s.completed, (adapts[0], Adapted(c)), All(adapts[1..], Adapted(c)), All(retries, Retry));
    } else if retries != [] {
      RetriesStep(s, window, retries);
      SuccessInOrder(s', window, c, [], retries[1..]);
      Joined(s.completed, (retries[0], Retry), [], All(retries[1..], Retry));
    } else {
      RetriesStep(s, window, retries);
      NothingCalled(s', window, s.completed);
    }
  }

  lemma RetriesStep(s: System, window: Option<Window>, retries: seq<nat>)
    requires s.queue != [] && s.queue[0] == Succeed(None, [], retries)
    ensures RunHead(s, window, false, s.clock, s.clock) ==
      if retries != [] then Called(s, Succeed(None, [], retries[1..]), retries[0], Retry)
      else s.(queue := s.queue[1..])
  {
  }

  lemma AdaptedAtOnce(s: System, window: Option<Window>, c: nat, adapts: seq<nat>, retries: seq<nat>)
    requires s.queue != [] && s.queue[0] == Succeed(None, adapts, retries) && adapts != []
    requires s.guarded.credential == Some(c) && !s.guarded.isRefreshing
    ensures var s' := RunHead(s, window, false, s.clock, s.clock);
      && s'.queue != [] && s'.clock == s.clock
      && RunHead(s', window, false, s.clock, s.clock) ==
           Called(s, Succeed(None, adapts[1..], retries), adapts[0], Adapted(c))
  {
    var b := Succeed(Some((adapts[0], Adapted(c))), adapts[1..], retries);
    var s' := RunHead(s, window, false, s.clock, s.clock);
    assert s'.queue == [b] + s.queue[1..] + [] == [b] + s.queue[1..];
  }

  // ---------- The stamps ----------

  lemma SectionStamps(g: Guarded, window: Option<Window>, id: nat, credential: nat, needsRefresh: bool,
      checked: real, stamped: real)
    ensures var r := AdaptSection(g, window, id, needsRefresh, checked, stamped);
      r.0.refreshTimestamps == g.refreshTimestamps + (if Calls(r.1) == 1 then [stamped] else []) && Calls(r.1) <= 1
    ensures var r := RetrySection(g, window, id, credential, checked, stamped);
      r.0.refreshTimestamps == g.refreshTimestamps + (if Calls(r.1) == 1 then [stamped] else []) && Calls(r.1) <= 1
  {
    hide Excessive;
    assert g.refreshTimestamps + [] == g.refreshTimestamps;
  }

  /** When the uptime is read for a stamp. */
  function StampOf(step: Step): real {
    match step
    case AdaptLock(_, _, _, stamped) => stamped
    case RetryLock(_, _, stamped) => stamped
    case RunBlock(_, _, stamped) => stamped
    case _ => 0.0
  }

  lemma ResubmitStamps(s: System, window: Option<Window>, adapts: seq<nat>, retries: seq<nat>,
      needsRefresh: bool, checked: real, stamped: real)
    requires s.queue != [] && s.queue[0] == Succeed(None, adapts, retries) && adapts != []
    ensures var s' := Resubmit(s, window, adapts, retries, needsRefresh, checked, stamped);
      && Pending(s) <= Pending(s') <= Pending(s) + 1
      && s'.guarded.refreshTimestamps ==
           s.guarded.refreshTimestamps + if Pending(s') > Pending(s) then [stamped] else []
  {
    hide AdaptSection, AdaptOutcome, Calls;
    HeadPending(s, s.queue[0]);
    SectionStamps(s.guarded, window, adapts[0], 0, needsRefresh, checked, stamped);
    var r := AdaptSection(s.guarded, window, adapts[0], needsRefresh, checked, stamped);
    var b := Succeed(if r.2.AdaptDeferred? then None else Some((adapts[0], AdaptOutcome(r.2))), adapts[1..], retries);
    HeadPending(s, b);
    CallsAppend(ReplaceHead(s, b).queue, r.1);
  }

  lemma HeadStamps(s: System, window: Option<Window>, needsRefresh: bool, checked: real, stamped: real)
    requires s.queue != []
    ensures var s' := RunHead(s, window, needsRefresh, checked, stamped);
      && Pending(s) <= Pending(s') <= Pending(s) + 1
      && s'.guarded.refreshTimestamps ==
           s.guarded.refreshTimestamps + if Pending(s') > Pending(s) then [stamped] else []
  {
    hide Resubmit, Calls;
    assert s.guarded.refreshTimestamps + [] == s.guarded.refreshTimestamps;
    HeadPending(s, s.queue[0]);
    match s.queue[0]
    case CallRefresh(_) =>
    case Succeed(current, adapts, retries) =>
      HeadPending(s, Succeed(None, adapts, retries));
      if current == None && adapts != [] {
        ResubmitStamps(s, window, adapts, retries, needsRefresh, checked, stamped);
      } else if current == None && retries != [] {
        HeadPending(s, Succeed(None, [], retries[1..]));
      }
    case FailAll(error, adapts, retries) =>
      if adapts != [] { HeadPending(s, FailAll(error, adapts[1..], retries)); }
      else if retries != [] { HeadPending(s, FailAll(error, [], retries[1..])); }
  }

  lemma HeadPending(s: System, b: Block)
    requires s.queue != []
    ensures Calls(ReplaceHead(s, b).queue) == Calls(Pop(s).queue) + if b.CallRefresh? then 1 else 0
    ensures Calls(s.queue) == Calls(Pop(s).queue) + if s.queue[0].CallRefresh? then 1 else 0
  {
    assert ReplaceHead(s, b).queue[1..] == s.queue[1..];
  }

  /** Every refresh that is started, and nothing else, leaves a stamp: the uptime read when it was started. */
  lemma StampsExactly(s: System, window: Option<Window>, step: Step)
    requires Enabled(s, step)
    ensures var s' := Next(s, window, step);
      s'.guarded.refreshTimestamps ==
        s.guarded.refreshTimestamps + if Pending(s') > Pending(s) then [StampOf(step)] else []
  {
    hide AdaptSection, RetrySection, CompletionSection, RunHead, AdaptOutcome, Calls;
    assert s.guarded.refreshTimestamps + [] == s.guarded.refreshTimestamps;
    match step
    case AdaptLock(id, needsRefresh, checked, stamped) =>
      SectionStamps(s.guarded, window, id, 0, needsRefresh, checked, stamped);
      CallsAppend(s.queue, AdaptSection(s.guarded, window, id, needsRefresh, checked, stamped).1);
    case RetryLock(id, checked, stamped) =>
      SectionStamps(s.guarded, window, id, s.executing[id].credential, false, checked, stamped);
      CallsAppend(s.queue, RetrySection(s.guarded, window, id, s.executing[id].credential, checked, stamped).1);
    case RunBlock(needsRefresh, checked, stamped) => HeadStamps(s, window, needsRefresh, checked, stamped);
    case RefreshCompletes(result) => CompletionStamps(s, result);
    case CompletesAgain(result) => CompletionStamps(s, result);
    case _ =>
  }

  lemma CompletionStamps(s: System, result: Option<nat>)
    ensures var r := CompletionSection(s.guarded, result);
      r.0.refreshTimestamps == s.guarded.refreshTimestamps && Calls(s.queue + r.1) == Calls(s.queue)
  {
    CallsAppend(s.queue, CompletionSection(s.guarded, result).1);
    CompletionNoCalls(s.guarded, result);
  }

  lemma CompletionNoCalls(g: Guarded, result: Option<nat>)
    ensures Calls(CompletionSection(g, result).1) == 0
  {
  }

  /** The queue is served from the front and filled at the end. */
  lemma QueueInOrder(s: System, window: Option<Window>, step: Step)
    requires Enabled(s, step)
    ensures var q := Next(s, window, step).queue;
      if !step.RunBlock? then s.queue <= q
      else s.queue[1..] <= q || (q != [] && s.queue[1..] <= q[1..])
  {
    hide RetrySection, AdaptSection, CompletionSection, RunHead;
    match step
    case RunBlock(needsRefresh, checked, stamped) => HeadInOrder(s, window, needsRefresh, checked, stamped);
    case _ =>
  }

  lemma HeadInOrder(s: System, window: Option<Window>, needsRefresh: bool, checked: real, stamped: real)
    requires s.queue != []
    ensures var q := RunHead(s, window, needsRefresh, checked, stamped).queue;
      s.queue[1..] <= q || (q != [] && s.queue[1..] <= q[1..])
  {
    hide Resubmit;
    if s.queue[0].Succeed? && s.queue[0].adapts != [] {
      ResubmitInOrder(s, window, s.queue[0].adapts, s.queue[0].retries, needsRefresh, checked, stamped);
    }
  }

  lemma ResubmitInOrder(s: System, window: Option<Window>, adapts: seq<nat>, retries: seq<nat>,
      needsRefresh: bool, checked: real, stamped: real)
    requires s.queue != [] && adapts != []
    ensures var q := Resubmit(s, window, adapts, retries, needsRefresh, checked, stamped).queue;
      q != [] && s.queue[1..] <= q[1..]
  {
    hide AdaptSection, AdaptOutcome;
  }
}
