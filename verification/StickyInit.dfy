/** The one-shot initialisation slot shared by the sticky plugin's TCP and UDP modules. */
module StickyInit {
  import opened Prelude
  import opened PluginSys

  const DEFAULT_MESSAGE := "failed to load sticky config"

  // What the slot has latched. Both fields are as in the source; loads counts the attempts to load.
  datatype Slot<S> = Slot(state: Option<S>, initError: Option<string>, loads: nat)

  function Empty<S>(): Slot<S> {
    Slot(None, None, 0)
  }

  function MessageOf(error: PluginError): string {
    match error.message
    case Some(message) => message
    case None => DEFAULT_MESSAGE
  }

  // outcome is what loading would give at the moment of the call; it counts only if loading is attempted.
  function Ensure<S>(slot: Slot<S>, outcome: Result<S, PluginError>): (Slot<S>, Result<S, PluginError>) {
    if slot.state.Some? then (slot, Ok(slot.state.value))
    else if slot.initError.Some? then (slot, Err(PluginError(Some(slot.initError.value))))
    else
      match outcome
      case Ok(state) => (Slot(Some(state), None, slot.loads + 1), outcome)
      case Err(error) => (Slot(None, Some(MessageOf(error)), slot.loads + 1), outcome)
  }

  class SharedInitState<S> {
    var state: Option<S>
    var initError: Option<string>
    ghost var loads: nat

    ghost function Contents(): Slot<S>
      reads this
    {
      Slot(state, initError, loads)
    }

    constructor ()
      ensures Contents() == Empty()
    {
      state, initError, loads := None, None, 0;
    }

    // loadState stands for reading and validating the configuration that the context names, as it is now.
    method EnsureState<C>(ctx: C, loadState: C -> Result<S, PluginError>) returns (r: Result<S, PluginError>)
      modifies this
      ensures (Contents(), r) == Ensure(old(Contents()), loadState(ctx))
    {
      if state.Some? {
        return Ok(state.value);
      }
      if initError.Some? {
        return Err(PluginError(Some(initError.value)));
      }
      r := loadState(ctx);
      loads := loads + 1;
      match r {
        case Ok(loaded) => state := Some(loaded);
        case Err(error) => initError := Some(MessageOf(error));
      }
    }
  }

  // The slot after a run of calls on it, whatever contexts they bring and whatever loading would give each.
  function After<S>(outcomes: seq<Result<S, PluginError>>): Slot<S> {
    if outcomes == [] then Empty()
    else Ensure(After(outcomes[..|outcomes| - 1]), outcomes[|outcomes| - 1]).0
  }

  // The answer of call i of the run.
  function Answer<S>(outcomes: seq<Result<S, PluginError>>, i: nat): Result<S, PluginError>
    requires i < |outcomes|
  {
    Ensure(After(outcomes[..i]), outcomes[i]).1
  }

  // The first call decides: it alone loads, and what it found is latched for good.
  lemma {:induction false} FirstCallDecides<S>(outcomes: seq<Result<S, PluginError>>)
    requires outcomes != []
    ensures After(outcomes) ==
              match outcomes[0]
              case Ok(state) => Slot(Some(state), None, 1)
              case Err(error) => Slot(None, Some(MessageOf(error)), 1)
  {
    var n := |outcomes| - 1;
    if n == 0 {
      assert outcomes[..n] == [];
    } else {
      FirstCallDecides(outcomes[..n]);
    }
  }

  // Loading runs at most once and the slot never holds both a state and an error.
  lemma {:induction false} LoadsOnce<S>(outcomes: seq<Result<S, PluginError>>)
    ensures After(outcomes).loads <= 1
    ensures !(After(outcomes).state.Some? && After(outcomes).initError.Some?)
    ensures outcomes != [] ==> After(outcomes).state.Some? || After(outcomes).initError.Some?
  {
    if outcomes == [] {
    } else {
      FirstCallDecides(outcomes);
    }
  }

  // The first call answers what loading gave it. All successes share one state; after a failure every later call
  // reports the first message, or the standing one if there was none.
  lemma AnswersAgree<S>(outcomes: seq<Result<S, PluginError>>, i: nat)
    requires i < |outcomes|
    ensures Answer(outcomes, 0) == outcomes[0]
    ensures i > 0 ==> Answer(outcomes, i) ==
                        match outcomes[0]
                        case Ok(state) => Ok(state)
                        case Err(PluginError(Some(message))) => Err(PluginError(Some(message)))
                        case Err(PluginError(None)) => Err(PluginError(Some("failed to load sticky config")))
  {
    assert outcomes[..0] == [];
    if i == 0 {
    } else {
      FirstCallDecides(outcomes[..i]);
    }
  }
}
