/** The request object under any interleaving of its lock sections: every step of the pipeline is carried out
    by the object's own methods, so what is proved of the runs holds of the object. */
module RequestRun {
  import opened Parsing
  import opened RequestLifecycle
  import opened RequestPipeline
  import opened RequestReuse

  /** A request, the activations at work on it, and the record of what they did. */
  class Pipeline {
    const request: Request
    var checking: bool
    var active: seq<Activation>
    var appended: seq<nat>
    var started: seq<nat>
    var delivered: seq<nat>

    function Snapshot(): System
      reads this, request
    {
      System(request.State(), checking, active, appended, started, delivered)
    }

    constructor ()
      ensures fresh(request) && Snapshot() == Init()
    {
      request := new Request();
      checking, active, appended, started, delivered := false, [], [], [], [];
    }

    method Do(step: Step)
      requires Enabled(Snapshot(), step)
      modifies this, request
      ensures Snapshot() == Apply(old(Snapshot()), step)
    {
      match step
      case Append(id) =>
        var process, _ := request.AppendResponseSerializer(id);
        appended := appended + [id];
        active := active + if process then [Next] else [];
      case FinishGuard => checking := !request.isFinishing;
      case FinishSet =>
        request.isFinishing := true;
        checking, active := false, active + [Next];
      case Fetch(t) =>
        var next := request.NextResponseSerializer();
        var a := if next.Some? then Fetched(next.value) else Clearing(|request.responseSerializers|);
        active := active[t := a];
      case StartSerializer(t) =>
        started := started + [active[t].id];
        active := active[t := Running(active[t].id)];
      case CompleteSerializer(t) =>
        request.ResponseSerializerDidComplete(active[t].id);
        active := active[t := Next];
      case Clear(t) =>
        var completions := request.ClearSerializers();
        active := active[t := Delivering(completions)];
      case CallCompletions(t) =>
        delivered := delivered + active[t].completions;
        active := active[..t] + active[t + 1..];
      case Cancel => var _ := request.Transition(Cancelled);
      case Suspend => var _ := request.Transition(Suspended);
      case Resume => var _ := request.Transition(Resumed);
      case CancelDisposition => request.state := Cancelled;
    }
  }

  /** Whatever the interleaving, the object is in the state of the run; so a request reused one serializer at
      a time has started its serializers in the order of appending, each once and one at a time. */
  method RunRequest(steps: seq<Step>) returns (p: Pipeline)
    requires Allowed(Init(), steps)
    ensures p.Snapshot() == Run(Init(), steps)
    ensures Disciplined(Init(), steps) ==> InOrder(p.started, p.appended) && Single(p.Snapshot())
  {
    hide Enabled, Apply, InOrder, Single, Disciplined;
    p := new Pipeline();
    for i := 0 to |steps|
      invariant fresh(p) && fresh(p.request)
      invariant Allowed(p.Snapshot(), steps[i..]) && Run(p.Snapshot(), steps[i..]) == Run(Init(), steps)
    {
      assert steps[i..][1..] == steps[i + 1..];
      p.Do(steps[i]);
    }
    if Disciplined(Init(), steps) {
      ReusedInOrder(steps);
    }
  }
}
