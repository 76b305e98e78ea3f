/** The sliding-window limit on refreshes over every run of the interceptor. */
module AuthRate {
  import opened Parsing
  import opened AuthInterceptor
  import opened AuthProtocol

  /** Timestamps in the closed interval of length `length` that starts at `from`. */
  function Within(timestamps: seq<real>, from: real, length: real): nat {
    if timestamps == [] then 0
    else
      var last := timestamps[|timestamps| - 1];
      Within(timestamps[..|timestamps| - 1], from, length) + (if from <= last <= from + length then 1 else 0)
  }

  function Limit(w: Window): int {
    if w.maximumAttempts < 0 then 0 else w.maximumAttempts
  }

  ghost predicate RateBounded(timestamps: seq<real>, w: Window) {
    forall from: real :: Within(timestamps, from, w.interval) <= Limit(w)
  }

  predicate Past(timestamps: seq<real>, clock: real) {
    forall i :: 0 <= i < |timestamps| ==> timestamps[i] <= clock
  }

  lemma {:induction false} WithinSince(timestamps: seq<real>, from: real, length: real, min: real)
    requires min <= from
    ensures Within(timestamps, from, length) <= CountSince(timestamps, min)
  {
    if timestamps != [] {
      WithinSince(timestamps[..|timestamps| - 1], from, length, min);
    }
  }

  /** The check at `checked` covers every interval the stamp written at the later `stamped` can fall in. */
  lemma StampBounded(timestamps: seq<real>, w: Window, checked: real, stamped: real)
    requires RateBounded(timestamps, w) && checked <= stamped
    requires CountSince(timestamps, checked - w.interval) < w.maximumAttempts
    ensures RateBounded(timestamps + [stamped], w)
  {
    forall from: real ensures Within(timestamps + [stamped], from, w.interval) <= Limit(w) {
      assert (timestamps + [stamped])[..|timestamps|] == timestamps;
      if from <= stamped <= from + w.interval {
        WithinSince(timestamps, from, w.interval, checked - w.interval);
      }
    }
  }

  ghost predicate Timely(s: System, w: Window) {
    RateBounded(s.guarded.refreshTimestamps, w) && Past(s.guarded.refreshTimestamps, s.clock)
  }

  lemma RefreshTimely(g: Guarded, w: Window, credential: nat, checked: real, stamped: real)
    requires RateBounded(g.refreshTimestamps, w) && Past(g.refreshTimestamps, stamped) && checked <= stamped
    ensures var t := RefreshSection(g, Some(w), credential, checked, stamped).0.refreshTimestamps;
      RateBounded(t, w) && Past(t, stamped)
  {
    hide RateBounded, CountSince;
    if !Excessive(g, Some(w), checked) {
      StampBounded(g.refreshTimestamps, w, checked, stamped);
    }
  }

  lemma SectionsTimely(g: Guarded, w: Window, id: nat, credential: nat, needsRefresh: bool, checked: real,
      stamped: real)
    requires RateBounded(g.refreshTimestamps, w) && Past(g.refreshTimestamps, stamped) && checked <= stamped
    ensures var t := AdaptSection(g, Some(w), id, needsRefresh, checked, stamped).0.refreshTimestamps;
      RateBounded(t, w) && Past(t, stamped)
    ensures var t := RetrySection(g, Some(w), id, credential, checked, stamped).0.refreshTimestamps;
      RateBounded(t, w) && Past(t, stamped)
  {
    hide RateBounded, Past, RefreshSection;
    var waiting := g.(adaptOperations := g.adaptOperations + [id]);
    if g.credential.Some? { RefreshTimely(waiting, w, g.credential.value, checked, stamped); }
    RefreshTimely(g.(requestsToRetry := g.requestsToRetry + [id]), w, credential, checked, stamped);
  }

  lemma StepTimely(s: System, w: Window, step: Step)
    requires Enabled(s, step) && Timely(s, w)
    ensures Timely(Next(s, Some(w), step), w)
  {
    hide AdaptSection, RetrySection, AdaptOutcome, RateBounded;
    match step
    case AdaptLock(id, needsRefresh, checked, stamped) =>
      SectionsTimely(s.guarded, w, id, 0, needsRefresh, checked, stamped);
    case RetryLock(id, checked, stamped) =>
      SectionsTimely(s.guarded, w, id, s.executing[id].credential, false, checked, stamped);
    case RunBlock(needsRefresh, checked, stamped) =>
      if s.queue[0].Succeed? && s.queue[0].adapts != [] {
        SectionsTimely(s.guarded, w, s.queue[0].adapts[0], 0, needsRefresh, checked, stamped);
      }
    case _ =>
  }

  lemma {:induction false} RunTimely(s: System, w: Window, steps: seq<Step>)
    requires Allowed(s, Some(w), steps) && Timely(s, w)
    ensures Timely(Run(s, Some(w), steps), w)
    decreases |steps|
  {
    hide Timely, Enabled, Next;
    if steps != [] {
      StepTimely(s, w, steps[0]);
      RunTimely(Next(s, Some(w), steps[0]), w, steps[1..]);
    }
  }

  /** Any closed interval as long as the window holds at most maximumAttempts refreshes. */
  lemma RefreshRate(credential: Option<nat>, clock: real, w: Window, steps: seq<Step>, from: real)
    requires Allowed(Init(credential, clock), Some(w), steps)
    ensures var s := Run(Init(credential, clock), Some(w), steps);
      Within(s.guarded.refreshTimestamps, from, w.interval) <= if w.maximumAttempts < 0 then 0 else w.maximumAttempts
  {
    hide Run, Allowed;
    RunTimely(Init(credential, clock), w, steps);
  }
}
