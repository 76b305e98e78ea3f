/** AuthenticationInterceptor.swift: many concurrent adapt and retry calls, one lock, one refresh in flight.
    What happens inside one hold of the lock is one function on the guarded state; the class carries the
    same sections out in place. Blocks sent to the serial dispatch queue are values in its queue. */
module AuthInterceptor {
  import opened Parsing

  /** RefreshWindow. */
  datatype Window = Window(interval: real, maximumAttempts: int)

  /** What a completion handler is called with. */
  datatype Outcome =
    | Adapted(credential: nat) | MissingCredential | DoNotRetry | Retry | ExcessiveRefresh | RefreshFailed

  /** A block on the interceptor's serial queue. A successful refresh re-submits adapt operations one by
      one; `current` is the one whose completion is about to be called. */
  datatype Block =
    | CallRefresh(credential: nat)
    | Succeed(current: Option<(nat, Outcome)>, adapts: seq<nat>, retries: seq<nat>)
    | FailAll(error: Outcome, adapts: seq<nat>, retries: seq<nat>)

  datatype AdaptResult = Adapt(credential: nat) | DoNotAdapt | AdaptDeferred

  /** MutableState; waiting calls are represented by their ids. */
  datatype Guarded = Guarded(
    credential: Option<nat>, isRefreshing: bool, refreshTimestamps: seq<real>,
    adaptOperations: seq<nat>, requestsToRetry: seq<nat>)

  // ---------- Lock sections ----------

  function CountSince(timestamps: seq<real>, min: real): nat {
    if timestamps == [] then 0
    else CountSince(timestamps[..|timestamps| - 1], min) + (if min <= timestamps[|timestamps| - 1] then 1 else 0)
  }

  predicate Excessive(g: Guarded, window: Option<Window>, now: real) {
    window.Some? && CountSince(g.refreshTimestamps, now - window.value.interval) >= window.value.maximumAttempts
  }

  /** handleRefreshFailure. */
  function FailureSection(g: Guarded, error: Outcome): (Guarded, seq<Block>) {
    (g.(adaptOperations := [], requestsToRetry := [], isRefreshing := false),
     [FailAll(error, g.adaptOperations, g.requestsToRetry)])
  }

  /** handleRefreshSuccess. */
  function SuccessSection(g: Guarded, credential: nat): (Guarded, seq<Block>) {
    (g.(credential := Some(credential), adaptOperations := [], requestsToRetry := [], isRefreshing := false),
     [Succeed(None, g.adaptOperations, g.requestsToRetry)])
  }

  function CompletionSection(g: Guarded, result: Option<nat>): (Guarded, seq<Block>) {
    if result.Some? then SuccessSection(g, result.value) else FailureSection(g, RefreshFailed)
  }

  /** refresh; the uptime is read at `checked` and again at `stamped`. */
  function RefreshSection(g: Guarded, window: Option<Window>, credential: nat, checked: real, stamped: real)
    : (Guarded, seq<Block>)
  {
    if Excessive(g, window, checked) then FailureSection(g, ExcessiveRefresh)
    else (g.(refreshTimestamps := g.refreshTimestamps + [stamped], isRefreshing := true), [CallRefresh(credential)])
  }

  /** The lock section of adapt; `needsRefresh` is the credential's requiresRefresh at that moment. */
  function AdaptSection(g: Guarded, window: Option<Window>, id: nat, needsRefresh: bool, checked: real, stamped: real)
    : (Guarded, seq<Block>, AdaptResult)
  {
    var waiting := g.(adaptOperations := g.adaptOperations + [id]);
    if g.isRefreshing then (waiting, [], AdaptDeferred)
    else if g.credential == None then (g, [], DoNotAdapt)
    else if needsRefresh then
      var (g', blocks) := RefreshSection(waiting, window, g.credential.value, checked, stamped);
      (g', blocks, AdaptDeferred)
    else (g, [], Adapt(g.credential.value))
  }

  /** The last lock section of retry; `credential` was read in an earlier one. */
  function RetrySection(g: Guarded, window: Option<Window>, id: nat, credential: nat, checked: real, stamped: real)
    : (Guarded, seq<Block>)
  {
    var waiting := g.(requestsToRetry := g.requestsToRetry + [id]);
    if g.isRefreshing then (waiting, []) else RefreshSection(waiting, window, credential, checked, stamped)
  }

  function AdaptOutcome(r: AdaptResult): Outcome
    requires !r.AdaptDeferred?
  {
    if r.Adapt? then Adapted(r.credential) else MissingCredential
  }

  /** The interceptor object: the guarded fields and the serial queue. */
  class Interceptor {
    const refreshWindow: Option<Window>
    var credential: Option<nat>
    var isRefreshing: bool
    var refreshTimestamps: seq<real>
    var adaptOperations: seq<nat>
    var requestsToRetry: seq<nat>
    var queue: seq<Block>

    function State(): Guarded
      reads this
    {
      Guarded(credential, isRefreshing, refreshTimestamps, adaptOperations, requestsToRetry)
    }

    constructor (initial: Option<nat>, window: Option<Window>)
      ensures State() == Guarded(initial, false, [], [], []) && queue == [] && refreshWindow == window
    {
      refreshWindow, credential := window, initial;
      isRefreshing, refreshTimestamps, adaptOperations, requestsToRetry, queue := false, [], [], [], [];
    }

    /** isRefreshExcessive. */
    method IsRefreshExcessive(now: real) returns (excessive: bool)
      ensures excessive == Excessive(State(), refreshWindow, now)
    {
      if refreshWindow == None {
        return false;
      }
      var refreshWindowMin := now - refreshWindow.value.interval;
      var attempts := 0;
      for i := 0 to |refreshTimestamps|
        invariant attempts == CountSince(refreshTimestamps[..i], refreshWindowMin)
      {
        assert refreshTimestamps[..i + 1][..i] == refreshTimestamps[..i];
        if refreshWindowMin <= refreshTimestamps[i] {
          attempts := attempts + 1;
        }
      }
      assert refreshTimestamps[..|refreshTimestamps|] == refreshTimestamps;
      excessive := attempts >= refreshWindow.value.maximumAttempts;
    }

    method HandleRefreshFailure(error: Outcome)
      modifies this
      ensures var s := FailureSection(old(State()), error); State() == s.0 && queue == old(queue) + s.1
    {
      var adapts, retries := adaptOperations, requestsToRetry;
      adaptOperations, requestsToRetry := [], [];
      isRefreshing := false;
      queue := queue + [FailAll(error, adapts, retries)];
    }

    method HandleRefreshSuccess(newCredential: nat)
      modifies this
      ensures var s := SuccessSection(old(State()), newCredential); State() == s.0 && queue == old(queue) + s.1
    {
      credential := Some(newCredential);
      var adapts, retries := adaptOperations, requestsToRetry;
      adaptOperations, requestsToRetry := [], [];
      isRefreshing := false;
      queue := queue + [Succeed(None, adapts, retries)];
    }

    method Refresh(used: nat, checked: real, stamped: real)
      modifies this
      ensures var s := RefreshSection(old(State()), refreshWindow, used, checked, stamped);
        State() == s.0 && queue == old(queue) + s.1
    {
      var excessive := IsRefreshExcessive(checked);
      if excessive {
        HandleRefreshFailure(ExcessiveRefresh);
        return;
      }
      refreshTimestamps := refreshTimestamps + [stamped];
      isRefreshing := true;
      queue := queue + [CallRefresh(used)];
    }

    method AdaptLocked(id: nat, needsRefresh: bool, checked: real, stamped: real) returns (result: AdaptResult)
      modifies this
      ensures var s := AdaptSection(old(State()), refreshWindow, id, needsRefresh, checked, stamped);
        State() == s.0 && queue == old(queue) + s.1 && result == s.2
    {
      if isRefreshing {
        adaptOperations := adaptOperations + [id];
        return AdaptDeferred;
      }
      if credential == None {
        return DoNotAdapt;
      }
      if needsRefresh {
        adaptOperations := adaptOperations + [id];
        Refresh(credential.value, checked, stamped);
        return AdaptDeferred;
      }
      result := Adapt(credential.value);
    }

    method RetryLocked(id: nat, used: nat, checked: real, stamped: real)
      modifies this
      ensures var s := RetrySection(old(State()), refreshWindow, id, used, checked, stamped);
        State() == s.0 && queue == old(queue) + s.1
    {
      requestsToRetry := requestsToRetry + [id];
      if isRefreshing {
        return;
      }
      Refresh(used, checked, stamped);
    }
  }
}
