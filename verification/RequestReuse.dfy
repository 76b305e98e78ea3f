/** A request that is used again after its serializers have been processed: when starts stay in order and
    single, and what goes wrong otherwise. */
module RequestReuse {
  import opened Parsing
  import opened RequestLifecycle
  import opened RequestPipeline

  /** An activation that may still look at the lists. */
  predicate Live(a: Activation) {
    !a.Delivering?
  }

  predicate NoneLive(s: System) {
    forall t :: 0 <= t < |s.active| ==> !Live(s.active[t])
  }

  /** Once processing has finished, a serializer is appended only when no activation is left that may look at
      the lists, and finish() is called only when every serializer has been completed. */
  predicate MayBegin(s: System, step: Step) {
    s.guarded.processingFinished ==>
      && (step.Append? ==> NoneLive(s))
      && (step.FinishSet? ==> NextSerializer(s.guarded).None?)
  }

  predicate Disciplined(s: System, steps: seq<Step>)
    requires Allowed(s, steps)
    decreases |steps|
  {
    steps != [] ==> MayBegin(s, steps[0]) && Disciplined(Apply(s, steps[0]), steps[1..])
  }

  /** Started in the order of appending, and so none twice. */
  predicate InOrder(started: seq<nat>, appended: seq<nat>) {
    && (forall a :: 0 <= a < |started| ==> started[a] in appended)
    && forall a, b, i, j :: 0 <= a < b < |started| && 0 <= i < |appended| && 0 <= j < |appended| ==>
         started[a] == appended[i] && started[b] == appended[j] ==> i < j
  }

  /** The serializers are the last ones appended. */
  function Base(s: System): int {
    |s.appended| - |s.guarded.serializers|
  }

  predicate Known(s: System) {
    && (forall k :: 0 <= k < |s.delivered| ==> s.delivered[k] in s.appended)
    && forall t, k :: 0 <= t < |s.active| && s.active[t].Delivering? && 0 <= k < |s.active[t].completions| ==>
         s.active[t].completions[k] in s.appended
  }

  predicate Lists(s: System) {
    var g := s.guarded;
    && Distinct(s.appended) && Base(s) >= 0 && g.serializers == s.appended[Base(s)..]
    && |g.completions| <= |g.serializers| && g.completions == g.serializers[..|g.completions|]
  }

  predicate OneLive(s: System) {
    forall t, u :: 0 <= t < u < |s.active| ==> !(Live(s.active[t]) && Live(s.active[u]))
  }

  /** What a live activation has in hand is the next serializer to be completed; the one that clears has seen
      that there is none. */
  predicate InHand(s: System, a: Activation) {
    match a
    case Fetched(id) => NextSerializer(s.guarded) == Some(id)
    case Running(id) => NextSerializer(s.guarded) == Some(id) && id in s.started
    case Clearing(_) => NextSerializer(s.guarded).None?
    case _ => true
  }

  predicate AnyRunning(s: System) {
    exists t :: 0 <= t < |s.active| && s.active[t].Running?
  }

  /** Everything started lies before the next serializer, or is that one, running. */
  predicate StartedBefore(s: System) {
    var next := Base(s) + |s.guarded.completions|;
    forall i :: next <= i < |s.appended| && i >= 0 && s.appended[i] in s.started ==> i == next && AnyRunning(s)
  }

  predicate Tidy(s: System) {
    && Lists(s) && Known(s) && InOrder(s.started, s.appended) && StartedBefore(s)
    && (NextSerializer(s.guarded).Some? ==> OneLive(s))
    && (forall t :: 0 <= t < |s.active| ==> InHand(s, s.active[t]))
    && (NoneLive(s) ==> s.guarded.serializers == [])
  }

  /** Before processing has finished the pipeline is orderly, after it tidy. */
  predicate Sequenced(s: System) {
    if s.guarded.processingFinished then Tidy(s) else Orderly(s)
  }

  lemma FirstClearTidy(s: System, t: nat)
    requires Orderly(s) && !s.guarded.processingFinished && Enabled(s, Clear(t))
    ensures Tidy(Apply(s, Clear(t)))
  {
    var s' := Apply(s, Clear(t));
    assert s.active == [s.active[0]];
    assert Lists(s') && Known(s') && OneLive(s');
    assert InOrder(s'.started, s'.appended);
    assert StartedBefore(s');
  }

  lemma InOrderGrows(started: seq<nat>, appended: seq<nat>, id: nat)
    requires InOrder(started, appended) && id !in appended
    ensures InOrder(started, appended + [id]) && id !in started
  {
  }

  lemma InOrderStarts(started: seq<nat>, appended: seq<nat>, next: nat)
    requires InOrder(started, appended) && Distinct(appended) && next < |appended|
    requires forall i :: next <= i < |appended| ==> appended[i] !in started
    ensures InOrder(started + [appended[next]], appended)
  {
  }

  lemma AppendTidy(s: System, id: nat)
    requires Enabled(s, Append(id)) && Tidy(s) && MayBegin(s, Append(id)) && s.guarded.processingFinished
    ensures Tidy(Apply(s, Append(id)))
  {
    hide InOrder;
    var s' := Apply(s, Append(id));
    assert Live(s'.active[|s.active|]);
    InOrderGrows(s.started, s.appended, id);
  }

  lemma FinishSetTidy(s: System)
    requires Enabled(s, FinishSet) && Tidy(s) && MayBegin(s, FinishSet) && s.guarded.processingFinished
    ensures Tidy(Apply(s, FinishSet))
  {
    hide InOrder;
    assert Live(Apply(s, FinishSet).active[|s.active|]);
  }

  lemma FetchTidy(s: System, t: nat)
    requires Enabled(s, Fetch(t)) && Tidy(s)
    ensures Tidy(Apply(s, Fetch(t)))
  {
    hide InOrder;
    var s' := Apply(s, Fetch(t));
    assert Live(s.active[t]) && Live(s'.active[t]);
    if AnyRunning(s) {
      assert false;
    }
  }

  lemma StartSerializerTidy(s: System, t: nat)
    requires Enabled(s, StartSerializer(t)) && Tidy(s)
    ensures Tidy(Apply(s, StartSerializer(t)))
  {
    hide InOrder;
    var s' := Apply(s, StartSerializer(t));
    var next := Base(s) + |s.guarded.completions|;
    assert Live(s.active[t]) && Live(s'.active[t]) && s'.active[t].Running?;
    assert InHand(s, s.active[t]);
    assert s.active[t].id == s.appended[next];
    assert !AnyRunning(s);
    InOrderStarts(s.started, s.appended, next);
  }

  lemma CompleteSerializerTidy(s: System, t: nat)
    requires Enabled(s, CompleteSerializer(t)) && Tidy(s)
    ensures Tidy(Apply(s, CompleteSerializer(t)))
  {
    hide InOrder;
    var s' := Apply(s, CompleteSerializer(t));
    assert Live(s.active[t]) && Live(s'.active[t]);
    assert InHand(s, s.active[t]);
  }

  lemma ClearTidy(s: System, t: nat)
    requires Enabled(s, Clear(t)) && Tidy(s)
    ensures Tidy(Apply(s, Clear(t)))
  {
    hide InOrder;
    assert Live(s.active[t]);
  }

  /** An activation that delivers is no live one, so removing it leaves the live ones as they were. */
  lemma DeliveredLeaves(s: System, t: nat)
    requires Enabled(s, CallCompletions(t))
    ensures var s' := Apply(s, CallCompletions(t));
      (OneLive(s) ==> OneLive(s')) && forall u :: 0 <= u < |s'.active| ==> s'.active[u] in s.active
  {
    var s' := Apply(s, CallCompletions(t));
    assert forall u :: 0 <= u < |s'.active| ==> s'.active[u] == s.active[if u < t then u else u + 1];
  }

  lemma RestStays(s: System, t: nat, u: nat)
    requires Enabled(s, CallCompletions(t)) && u < |s.active| && u != t
    ensures s.active[u] in Apply(s, CallCompletions(t)).active
  {
    var s' := Apply(s, CallCompletions(t));
    assert s'.active[if u < t then u else u - 1] == s.active[u];
  }

  lemma LiveLeft(s: System, t: nat)
    requires Enabled(s, CallCompletions(t))
    ensures NoneLive(Apply(s, CallCompletions(t))) ==> NoneLive(s)
    ensures AnyRunning(s) ==> AnyRunning(Apply(s, CallCompletions(t)))
  {
    forall u | 0 <= u < |s.active| && Live(s.active[u])
      ensures s.active[u] in Apply(s, CallCompletions(t)).active
    {
      RestStays(s, t, u);
    }
  }

  lemma CallCompletionsTidy(s: System, t: nat)
    requires Enabled(s, CallCompletions(t)) && Tidy(s)
    ensures Tidy(Apply(s, CallCompletions(t)))
  {
    hide InOrder, OneLive, NoneLive, AnyRunning;
    DeliveredLeaves(s, t);
    LiveLeft(s, t);
    var s' := Apply(s, CallCompletions(t));
    assert s'.delivered == s.delivered + s.active[t].completions;
    assert Known(s') && Lists(s');
  }

  lemma Elsewhere(s: System, state: RequestState, checking: bool)
    requires Tidy(s)
    ensures Tidy(s.(guarded := s.guarded.(state := state), checking := checking))
  {
    hide InOrder;
    var s' := s.(guarded := s.guarded.(state := state), checking := checking);
    assert forall t :: 0 <= t < |s.active| ==> InHand(s, s.active[t]) ==> InHand(s', s.active[t]);
    assert OneLive(s) ==> OneLive(s');
    assert NoneLive(s') ==> NoneLive(s);
  }

  lemma StepTidy(s: System, step: Step)
    requires Enabled(s, step) && Tidy(s) && s.guarded.processingFinished && MayBegin(s, step)
    ensures Tidy(Apply(s, step)) && Apply(s, step).guarded.processingFinished
  {
    hide Tidy;
    match step
    case Append(id) => AppendTidy(s, id);
    case FinishSet => FinishSetTidy(s);
    case Fetch(t) => FetchTidy(s, t);
    case StartSerializer(t) => StartSerializerTidy(s, t);
    case CompleteSerializer(t) => CompleteSerializerTidy(s, t);
    case Clear(t) => ClearTidy(s, t);
    case CallCompletions(t) => CallCompletionsTidy(s, t);
    case _ => Elsewhere(s, Apply(s, step).guarded.state, Apply(s, step).checking);
  }

  lemma DeliveringLosesNone(s: System, t: nat, x: nat)
    requires Enabled(s, CallCompletions(t)) && Gone(Apply(s, CallCompletions(t)), x)
    ensures Gone(s, x)
  {
    forall u | 0 <= u < |s.active|
      ensures !Holds(s.active[u], x)
    {
      if u != t { RestStays(s, t, u); }
    }
  }

  lemma ClearingLosesNone(s: System, t: nat, x: nat)
    requires Enabled(s, Clear(t)) && Tidy(s) && Gone(Apply(s, Clear(t)), x)
    ensures Gone(s, x)
  {
    hide InOrder, Known, StartedBefore, OneLive;
    var s' := Apply(s, Clear(t));
    assert InHand(s, s.active[t]) && s'.active[t] == Delivering(s.guarded.completions);
    assert forall u :: 0 <= u < |s.active| && u != t ==> s'.active[u] == s.active[u];
  }

  /** A serializer the reused request has lost was lost before. */
  lemma StepLosesNone(s: System, step: Step, x: nat)
    requires Enabled(s, step) && Tidy(s) && Gone(Apply(s, step), x)
    ensures Gone(s, x)
  {
    hide Tidy;
    var s' := Apply(s, step);
    match step
    case CallCompletions(t) => DeliveringLosesNone(s, t, x);
    case Clear(t) => ClearingLosesNone(s, t, x);
    case Fetch(t) => assert forall u :: 0 <= u < |s.active| && u != t ==> s'.active[u] == s.active[u];
    case StartSerializer(t) => assert forall u :: 0 <= u < |s.active| && u != t ==> s'.active[u] == s.active[u];
    case CompleteSerializer(t) => assert forall u :: 0 <= u < |s.active| && u != t ==> s'.active[u] == s.active[u];
    case _ => assert forall u :: 0 <= u < |s.active| ==> s'.active[u] == s.active[u];
  }

  // ---------- Runs ----------

  lemma {:induction false} RunTidy(s: System, steps: seq<Step>)
    requires Allowed(s, steps) && Tidy(s) && s.guarded.processingFinished && Disciplined(s, steps)
    ensures Tidy(Run(s, steps))
    ensures forall x :: Gone(Run(s, steps), x) ==> Gone(s, x)
    decreases |steps|
  {
    hide Tidy, MayBegin, Enabled, Apply, Gone;
    if steps != [] {
      StepTidy(s, steps[0]);
      RunTidy(Apply(s, steps[0]), steps[1..]);
      forall x | Gone(Run(s, steps), x)
        ensures Gone(s, x)
      {
        StepLosesNone(s, steps[0], x);
      }
    }
  }

  lemma StepSequenced(s: System, step: Step)
    requires Enabled(s, step) && Sequenced(s) && MayBegin(s, step)
    ensures Sequenced(Apply(s, step))
  {
    hide Tidy, Orderly, MayBegin;
    if s.guarded.processingFinished {
      StepTidy(s, step);
    } else if step.Clear? {
      FirstClearTidy(s, step.t);
    } else {
      StepOrderly(s, step);
    }
  }

  lemma {:induction false} RunSequenced(s: System, steps: seq<Step>)
    requires Allowed(s, steps) && Sequenced(s) && Disciplined(s, steps)
    ensures Sequenced(Run(s, steps))
    decreases |steps|
  {
    hide Sequenced, MayBegin, Enabled, Apply;
    if steps != [] {
      StepSequenced(s, steps[0]);
      RunSequenced(Apply(s, steps[0]), steps[1..]);
    }
  }

  /** Nothing is started twice and at most one serializer is running. */
  predicate Single(s: System) {
    && Distinct(s.started)
    && forall t, u :: 0 <= t < u < |s.active| ==> !(s.active[t].Running? && s.active[u].Running?)
  }

  lemma InOrderDistinct(s: System)
    requires InOrder(s.started, s.appended)
    ensures Distinct(s.started)
  {
    forall a, b | 0 <= a < b < |s.started|
      ensures s.started[a] != s.started[b]
    {
      var i :| 0 <= i < |s.appended| && s.appended[i] == s.started[a];
    }
  }

  lemma TidySingle(s: System)
    requires Tidy(s)
    ensures Single(s)
  {
    hide InOrder;
    InOrderDistinct(s);
    forall t, u | 0 <= t < u < |s.active| && s.active[t].Running?
      ensures !s.active[u].Running?
    {
      assert InHand(s, s.active[t]);
    }
  }

  lemma PrefixInOrder(appended: seq<nat>, n: nat)
    requires Distinct(appended) && n <= |appended|
    ensures InOrder(appended[..n], appended)
  {
  }

  lemma OrderlySingle(s: System)
    requires Orderly(s)
    ensures InOrder(s.started, s.appended) && Single(s)
  {
    hide InOrder;
    assert s.started == s.appended[..|s.started|];
    PrefixInOrder(s.appended, |s.started|);
  }

  /** A request that is reused one serializer at a time, in any interleaving of everything else: its
      serializers start in the order of appending, each at most once and one at a time. */
  lemma ReusedInOrder(steps: seq<Step>)
    requires Allowed(Init(), steps) && Disciplined(Init(), steps)
    ensures var s := Run(Init(), steps);
      && InOrder(s.started, s.appended) && Single(s)
  {
    hide Allowed, Run, Disciplined, InOrder, Single, Orderly;
    InitOrderly();
    RunSequenced(Init(), steps);
    var s := Run(Init(), steps);
    if s.guarded.processingFinished { TidySingle(s); } else { OrderlySingle(s); }
  }

  /** Once processing has finished such a request loses no serializer any more. */
  lemma ReusedLosesNone(steps: seq<Step>, later: seq<Step>, x: nat)
    requires Allowed(Init(), steps) && Disciplined(Init(), steps)
    requires var s := Run(Init(), steps);
      && s.guarded.processingFinished && Allowed(s, later) && Disciplined(s, later)
      && Gone(Run(s, later), x)
    ensures Gone(Run(Init(), steps), x)
  {
    hide Allowed, Run, Disciplined, Tidy, Orderly;
    InitOrderly();
    RunSequenced(Init(), steps);
    RunTidy(Run(Init(), steps), later);
  }

  // ---------- The discipline is exact ----------

  /** Nothing is started twice or together with another, and nothing is lost. */
  ghost predicate Harmless(s: System, steps: seq<Step>)
    requires Allowed(s, steps)
  {
    var e := Run(s, steps);
    Single(e) && forall x :: Gone(e, x) ==> Gone(s, x)
  }

  /** The steps by which the activation `t`, at `a`, and the new one `u` start the same serializer. */
  function DoubleStart(a: Activation, t: nat, u: nat): seq<Step> {
    match a
    case Next => [Fetch(t), StartSerializer(t), Fetch(u), StartSerializer(u)]
    case Fetched(_) => [StartSerializer(t), Fetch(u), StartSerializer(u)]
    case _ => [Fetch(u), StartSerializer(u)]
  }

  lemma Prepend(s: System, step: Step, rest: seq<Step>)
    requires Enabled(s, step) && Allowed(Apply(s, step), rest)
    ensures Allowed(s, [step] + rest) && Run(s, [step] + rest) == Run(Apply(s, step), rest)
    ensures MayBegin(s, step) && Disciplined(Apply(s, step), rest) ==> Disciplined(s, [step] + rest)
  {
    assert ([step] + rest)[1..] == rest;
  }

  predicate StartsTwice(s: System, steps: seq<Step>) {
    Allowed(s, steps) && Disciplined(s, steps) && !Distinct(Run(s, steps).started)
  }

  lemma SecondStart(s: System, u: nat, x: nat)
    requires u < |s.active| && s.active[u] == Next && NextSerializer(s.guarded) == Some(x) && x in s.started
    ensures StartsTwice(s, [Fetch(u), StartSerializer(u)])
  {
    var s1 := Apply(s, Fetch(u));
    var s2 := Apply(s1, StartSerializer(u));
    assert s2.started == s.started + [x];
    var k :| 0 <= k < |s.started| && s.started[k] == x;
    assert s2.started[k] == s2.started[|s.started|];
    Prepend(s1, StartSerializer(u), []);
    Prepend(s, Fetch(u), [StartSerializer(u)]);
    assert [Fetch(u)] + [StartSerializer(u)] == [Fetch(u), StartSerializer(u)];
  }

  lemma BothStart(s: System, t: nat, u: nat, x: nat)
    requires t < |s.active| && u < |s.active| && t != u && s.active[u] == Next
    requires NextSerializer(s.guarded) == Some(x)
    requires s.active[t] in {Next, Fetched(x)} || (s.active[t] == Running(x) && x in s.started)
    ensures StartsTwice(s, DoubleStart(s.active[t], t, u))
    decreases !s.active[t].Running?, !s.active[t].Fetched?
  {
    hide StartsTwice;
    var a := s.active[t];
    if a.Running? {
      SecondStart(s, u, x);
    } else {
      var step := if a.Next? then Fetch(t) else StartSerializer(t);
      var rest := DoubleStart(if a.Next? then Fetched(x) else Running(x), t, u);
      BothStart(Apply(s, step), t, u, x);
      assert DoubleStart(a, t, u) == [step] + rest;
      StartsEarlier(s, step, rest);
    }
  }

  lemma StartsEarlier(s: System, step: Step, rest: seq<Step>)
    requires Enabled(s, step) && !step.Append? && !step.FinishSet? && StartsTwice(Apply(s, step), rest)
    ensures StartsTwice(s, [step] + rest)
  {
    Prepend(s, step, rest);
  }

  /** An append while an activation is about to clear: the clearing drops the new serializer. */
  lemma ClearedAway(s: System, id: nat, t: nat)
    requires Tidy(s) && Enabled(s, Append(id)) && s.guarded.processingFinished && Enabled(s, Clear(t))
    ensures var s' := Apply(s, Append(id));
      && Allowed(s', [Clear(t)]) && Disciplined(s', [Clear(t)])
      && Gone(Run(s', [Clear(t)]), id) && !Gone(s', id)
  {
    InOrderGrows(s.started, s.appended, id);
    hide InOrder, StartedBefore;
    var s' := Apply(s, Append(id));
    Prepend(s', Clear(t), []);
    var e := Apply(s', Clear(t));
    forall u | 0 <= u < |e.active|
      ensures !Holds(e.active[u], id)
    {
      if u < |s.active| { assert InHand(s, s.active[u]); }
    }
  }

  /** Reusing a request, the discipline is exact: however the run goes on, nothing is started twice and
      nothing is lost if and only if this step keeps it. */
  lemma DisciplineIsExact(s: System, step: Step)
    requires Tidy(s) && s.guarded.processingFinished && Enabled(s, step)
    ensures MayBegin(s, step) <==>
      var s' := Apply(s, step);
      forall steps :: Allowed(s', steps) && Disciplined(s', steps) ==> Harmless(s', steps)
  {
    hide Tidy, Enabled, Apply, Allowed, Run, Disciplined, Single;
    var s' := Apply(s, step);
    if MayBegin(s, step) {
      StepTidy(s, step);
      forall steps | Allowed(s', steps) && Disciplined(s', steps)
        ensures Harmless(s', steps)
      {
        RunTidy(s', steps);
        TidySingle(Run(s', steps));
      }
    } else {
      var steps := Harm(s, step);
      assert !Harmless(s', steps);
    }
  }

  lemma Harm(s: System, step: Step) returns (steps: seq<Step>)
    requires Tidy(s) && s.guarded.processingFinished && Enabled(s, step) && !MayBegin(s, step)
    ensures var s' := Apply(s, step); Allowed(s', steps) && Disciplined(s', steps) && !Harmless(s', steps)
  {
    hide InOrder, StartedBefore, Known;
    var s' := Apply(s, step);
    var u := |s.active|;
    assert !NoneLive(s);
    var t :| 0 <= t < |s.active| && Live(s.active[t]);
    assert InHand(s, s.active[t]) && s'.active[t] == s.active[t];
    if s.active[t].Clearing? {
      steps := [Clear(t)];
      ClearedAway(s, step.id, t);
    } else {
      assert NextSerializer(s'.guarded).Some?;
      steps := DoubleStart(s.active[t], t, u);
      BothStart(s', t, u, NextSerializer(s'.guarded).value);
    }
  }
}
