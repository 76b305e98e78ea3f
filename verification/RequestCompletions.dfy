/** In every run of the pipeline, disciplined or not, each time a serializer is started its completion is called
    once: it is being run, collected, about to be called, or has been called. */
module RequestCompletions {
  import opened RequestPipeline

  function Count(ids: seq<nat>, x: nat): nat {
    multiset(ids)[x]
  }

  /** How often an activation will still hand over or call the completion of `x`. */
  function HeldBy(a: Activation, x: nat): nat {
    match a
    case Running(id) => if id == x then 1 else 0
    case Delivering(completions) => Count(completions, x)
    case _ => 0
  }

  function Held(active: seq<Activation>, x: nat): nat {
    if active == [] then 0 else HeldBy(active[0], x) + Held(active[1..], x)
  }

  /** Every start of `x` is accounted for. */
  predicate Accounted(s: System, x: nat) {
    Count(s.started, x) == Held(s.active, x) + Count(s.guarded.completions, x) + Count(s.delivered, x)
  }

  lemma CountAppend(a: seq<nat>, b: seq<nat>, x: nat)
    ensures Count(a + b, x) == Count(a, x) + Count(b, x)
  {
  }

  lemma CountOne(id: nat, x: nat)
    ensures Count([id], x) == (if id == x then 1 else 0) && Count([], x) == 0
  {
  }

  lemma {:induction false} HeldAppend(a: seq<Activation>, b: seq<Activation>, x: nat)
    ensures Held(a + b, x) == Held(a, x) + Held(b, x)
  {
    hide HeldBy;
    if a == [] {
      assert a + b == b;
    } else {
      HeldAppend(a[1..], b, x);
      assert (a + b)[1..] == a[1..] + b;
    }
  }

  lemma HeldOne(a: Activation, x: nat)
    ensures Held([a], x) == HeldBy(a, x)
  {
    assert [a][1..] == [];
  }

  /** Changing one activation, and removing it. */
  lemma HeldAt(active: seq<Activation>, t: nat, a: Activation, x: nat)
    requires t < |active|
    ensures Held(active, x) == Held(active[..t] + active[t + 1..], x) + HeldBy(active[t], x)
    ensures Held(active[t := a], x) == Held(active[..t] + active[t + 1..], x) + HeldBy(a, x)
  {
    hide Held, HeldBy;
    var before, after := active[..t], active[t + 1..];
    assert active == before + ([active[t]] + after) && active[t := a] == before + ([a] + after);
    HeldAppend(before, [active[t]] + after, x);
    HeldAppend(before, [a] + after, x);
    HeldAppend([active[t]], after, x);
    HeldAppend([a], after, x);
    HeldAppend(before, after, x);
    HeldOne(active[t], x);
    HeldOne(a, x);
  }

  lemma Begun(s: System, s': System, x: nat)
    requires Accounted(s, x) && (s'.active == s.active || s'.active == s.active + [Next])
    requires s'.started == s.started && s'.delivered == s.delivered
    requires s'.guarded.completions == s.guarded.completions
    ensures Accounted(s', x)
  {
    hide Held, Count;
    HeldAppend(s.active, [Next], x);
    HeldOne(Next, x);
  }

  lemma StepAccounted(s: System, step: Step, x: nat)
    requires Enabled(s, step) && Accounted(s, x)
    ensures Accounted(Apply(s, step), x)
  {
    hide Held, Count;
    var s' := Apply(s, step);
    match step
    case Append(_) =>
      assert s.active + [] == s.active;
      Begun(s, s', x);
    case FinishSet => Begun(s, s', x);
    case Fetch(t) => HeldAt(s.active, t, s'.active[t], x);
    case StartSerializer(t) =>
      HeldAt(s.active, t, s'.active[t], x);
      CountAppend(s.started, [s.active[t].id], x);
      CountOne(s.active[t].id, x);
    case CompleteSerializer(t) =>
      HeldAt(s.active, t, Next, x);
      CountAppend(s.guarded.completions, [s.active[t].id], x);
      CountOne(s.active[t].id, x);
    case Clear(t) =>
      HeldAt(s.active, t, Delivering(s.guarded.completions), x);
      CountOne(0, x);
    case CallCompletions(t) =>
      HeldAt(s.active, t, Next, x);
      CountAppend(s.delivered, s.active[t].completions, x);
    case _ =>
  }

  lemma {:induction false} RunAccounted(s: System, steps: seq<Step>, x: nat)
    requires Allowed(s, steps) && Accounted(s, x)
    ensures Accounted(Run(s, steps), x)
    decreases |steps|
  {
    hide Accounted, Enabled, Apply;
    if steps != [] {
      StepAccounted(s, steps[0], x);
      RunAccounted(Apply(s, steps[0]), steps[1..], x);
    }
  }

  /** In every run a completion is called no more often than its serializer was started; and once nothing is
      under way or left to be cleared, exactly as often. */
  lemma CompletionsCalled(steps: seq<Step>, x: nat)
    requires Allowed(Init(), steps)
    ensures var s := Run(Init(), steps);
      && Count(s.delivered, x) <= Count(s.started, x)
      && (s.active == [] && s.guarded.completions == [] ==> Count(s.delivered, x) == Count(s.started, x))
  {
    hide Allowed, Run;
    assert Accounted(Init(), x);
    RunAccounted(Init(), steps, x);
  }
}
