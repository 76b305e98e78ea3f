/** Request.swift: the lock sections of a request's state machine and of its response-serializer pipeline.
    Serializers, and the completions they hand over, are represented by the serializer's id. */
module RequestLifecycle {
  import opened Parsing

  datatype RequestState = Initialized | Resumed | Suspended | Cancelled | Finished {
    /** canTransitionTo. */
    predicate CanTransitionTo(next: RequestState) {
      match (this, next)
      case (Initialized, _) => true
      case (Cancelled, _) => false
      case (Finished, _) => false
      case (_, Initialized) => false
      case (Resumed, Resumed) => false
      case (Suspended, Suspended) => false
      case (_, _) => true
    }
  }

  datatype Guarded = Guarded(
    state: RequestState, serializers: seq<nat>, completions: seq<nat>,
    processingFinished: bool, isFinishing: bool)

  function MoveTo(g: Guarded, next: RequestState): Guarded {
    if g.state.CanTransitionTo(next) then g.(state := next) else g
  }

  /** appendResponseSerializer; a finished request is resumed. */
  function AppendSection(g: Guarded, id: nat): Guarded {
    g.(serializers := g.serializers + [id], state := if g.state == Finished then Resumed else g.state)
  }

  /** nextResponseSerializer: the one at the index of the next completion. */
  function NextSerializer(g: Guarded): Option<nat> {
    if |g.completions| < |g.serializers| then Some(g.serializers[|g.completions|]) else None
  }

  /** The block of processNextResponseSerializer that clears everything. */
  function ClearSection(g: Guarded): Guarded {
    MoveTo(g, Finished).(serializers := [], completions := [], processingFinished := true, isFinishing := false)
  }

  /** The request object. */
  class Request {
    var state: RequestState
    var responseSerializers: seq<nat>
    var responseSerializerCompletions: seq<nat>
    var responseSerializerProcessingFinished: bool
    var isFinishing: bool

    function State(): Guarded
      reads this
    {
      Guarded(state, responseSerializers, responseSerializerCompletions, responseSerializerProcessingFinished,
          isFinishing)
    }

    constructor ()
      ensures State() == Guarded(Initialized, [], [], false, false)
    {
      state, responseSerializers, responseSerializerCompletions := Initialized, [], [];
      responseSerializerProcessingFinished, isFinishing := false, false;
    }

    /** `process` and `resume` say which blocks were put on the underlying queue. */
    method AppendResponseSerializer(id: nat) returns (process: bool, resume: bool)
      modifies this
      ensures State() == AppendSection(old(State()), id)
      ensures process == old(responseSerializerProcessingFinished) && resume == state.CanTransitionTo(Resumed)
    {
      responseSerializers := responseSerializers + [id];
      if state == Finished {
        state := Resumed;
      }
      process := responseSerializerProcessingFinished;
      resume := state.CanTransitionTo(Resumed);
    }

    method NextResponseSerializer() returns (next: Option<nat>)
      ensures next == NextSerializer(State())
    {
      next := None;
      var index := |responseSerializerCompletions|;
      if index < |responseSerializers| {
        next := Some(responseSerializers[index]);
      }
    }

    method ResponseSerializerDidComplete(completion: nat)
      modifies this
      ensures State() == old(State()).(completions := old(responseSerializerCompletions) + [completion])
    {
      responseSerializerCompletions := responseSerializerCompletions + [completion];
    }

    method ClearSerializers() returns (completions: seq<nat>)
      modifies this
      ensures State() == ClearSection(old(State())) && completions == old(responseSerializerCompletions)
    {
      completions := responseSerializerCompletions;
      responseSerializers, responseSerializerCompletions := [], [];
      if state.CanTransitionTo(Finished) {
        state := Finished;
      }
      responseSerializerProcessingFinished := true;
      isFinishing := false;
    }

    /** The lock sections of cancel, suspend and resume. */
    method Transition(next: RequestState) returns (moved: bool)
      modifies this
      ensures State() == MoveTo(old(State()), next) && moved == old(state).CanTransitionTo(next)
    {
      moved := state.CanTransitionTo(next);
      if moved {
        state := next;
      }
    }
  }
}
