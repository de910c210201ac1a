/**
 * The research-round mechanism: a round counter, the list of per-round
 * summaries and the last step, updated in place by each step; the
 * research payload `S` each agent submits is left abstract.
 */
module Research {
  import opened Wrappers
  import opened Text

  /** `ResearchAction`: an agent and its summary. */
  datatype ResearchAction<S> = ResearchAction(agentId: string, action: S)

  /** `ResearchGlobalAction`: one action per agent id. */
  datatype ResearchGlobalAction<S> = ResearchGlobalAction(actions: map<string, ResearchAction<S>>)

  /** What `step` may be handed. A dict is given by what parsing it would
      yield in each mode: an action, or nothing when parsing fails. */
  datatype StepInput<S> =
    | LocalInput(local: ResearchAction<S>)
    | GlobalInput(global: ResearchGlobalAction<S>)
    | DictInput(asLocal: Option<ResearchAction<S>>, asGlobal: Option<ResearchGlobalAction<S>>)
    | OtherInput

  /** The exceptions `step` raises: the parse error re-raised, or a type
      error naming the expected class. */
  datatype StepError = ParseError | TypeError(expected: string)

  datatype ResearchObservation<S> = ResearchObservation(ownSummary: Option<S>, aggregatorNotes: string)

  datatype ResearchLocalObservation<S> = ResearchLocalObservation(agentId: string, observation: ResearchObservation<S>)

  /** One element of `final_all_summaries`. */
  datatype RoundEntry<S> = RoundEntry(roundIndex: int, summaries: map<string, S>)

  datatype ResearchGlobalObservation<S> = ResearchGlobalObservation(
    observations: map<string, ResearchLocalObservation<S>>,
    allActionsThisRound: Option<map<string, S>>,
    finalAllSummaries: Option<seq<RoundEntry<S>>>,
    aggregatorNotes: string)

  /** The two kinds of step result: a `LocalEnvironmentStep` in sequential
      mode, an `EnvironmentStep` in batched mode; `round` and
      `agentRewards` (and `note`) are the `info` entries. */
  datatype ResearchStep<S> =
    | LocalStep(observation: ResearchLocalObservation<S>, reward: real, done: bool,
                round: int, note: string, agentRewards: map<string, real>)
    | GlobalStep(globalObservation: ResearchGlobalObservation<S>, done: bool,
                 round: int, agentRewards: map<string, real>)

  /** The dict `get_global_state` returns. */
  datatype ResearchState<S> = ResearchState(
    currentRound: int,
    maxRounds: int,
    roundSummariesCount: int,
    lastStep: Option<ResearchStep<S>>)

  /** The action a sequential step works on: a `ResearchAction`, or a dict
      that parses as one; a dict that does not parse re-raises, anything
      else is a type error. */
  function AsLocal<S>(input: StepInput<S>): (r: Result<ResearchAction<S>, StepError>)
    ensures r.Success? <==> input.LocalInput? || (input.DictInput? && input.asLocal.Some?)
    ensures r.Success? && input.LocalInput? ==> r.value == input.local
    ensures r.Success? && input.DictInput? ==> Some(r.value) == input.asLocal
    ensures r == Failure(ParseError) <==> input.DictInput? && input.asLocal.None?
    ensures input.GlobalInput? || input.OtherInput? ==> r == Failure(TypeError("ResearchAction"))
  {
    match input
    case LocalInput(a) => Success(a)
    case DictInput(parsed, _) =>
      (match parsed
       case Some(a) => Success(a)
       case None => Failure(ParseError))
    case _ => Failure(TypeError("ResearchAction"))
  }

  /** The action a batched step works on, by the same rules. */
  function AsGlobal<S>(input: StepInput<S>): (r: Result<ResearchGlobalAction<S>, StepError>)
    ensures r.Success? <==> input.GlobalInput? || (input.DictInput? && input.asGlobal.Some?)
    ensures r.Success? && input.GlobalInput? ==> r.value == input.global
    ensures r.Success? && input.DictInput? ==> Some(r.value) == input.asGlobal
    ensures r == Failure(ParseError) <==> input.DictInput? && input.asGlobal.None?
    ensures input.LocalInput? || input.OtherInput? ==> r == Failure(TypeError("ResearchGlobalAction"))
  {
    match input
    case GlobalInput(g) => Success(g)
    case DictInput(_, parsed) =>
      (match parsed
       case Some(g) => Success(g)
       case None => Failure(ParseError))
    case _ => Failure(TypeError("ResearchGlobalAction"))
  }

  /** The round's entry in `round_summaries`: each agent's summary under
      its agent id. */
  function SummariesOf<S>(actions: map<string, ResearchAction<S>>): (m: map<string, S>)
    ensures m.Keys == actions.Keys
    ensures forall a :: a in m ==> m[a] == actions[a].action
  {
    map a | a in actions :: actions[a].action
  }

  /** The notes of the local observation of agent `agentId` in a batched
      round. */
  function AgentNotes(round: int, agentId: string): string
  {
    "Round " + IntToString(round) + ", agent " + agentId
  }

  /** The global notes of a batched round. */
  function RoundNotes(round: int, done: bool): string
  {
    "End of round " + IntToString(round) + "." + (if done then " (Final) returning all collected summaries." else "")
  }

  /** The observations and rewards of a batched round: one of each per
      agent id of the action map and no others; the observation carries
      the agent's own summary, the reward is 1.0. */
  ghost predicate ObservesEachAgent<S>(observations: map<string, ResearchLocalObservation<S>>,
                                       rewards: map<string, real>,
                                       actions: map<string, ResearchAction<S>>, round: int)
  {
    && observations.Keys == actions.Keys
    && rewards.Keys == actions.Keys
    && (forall a :: a in observations ==>
          observations[a] == ResearchLocalObservation(a, ResearchObservation(Some(actions[a].action), AgentNotes(round, a))))
    && (forall a :: a in rewards ==> rewards[a] == 1.0)
  }

  /** `final_all_summaries`: every stored round summary, in order, with
      `round_index` counting from 1. */
  ghost predicate IndexedFromOne<S>(finalData: seq<RoundEntry<S>>, summaries: seq<map<string, S>>)
  {
    && |finalData| == |summaries|
    && forall i :: 0 <= i < |finalData| ==> finalData[i] == RoundEntry(i + 1, summaries[i])
  }

  /** The loop over the action map that fills `local_observations` and
      `agent_rewards`. */
  method BuildLocalObservations<S>(actions: map<string, ResearchAction<S>>, round: int)
    returns (observations: map<string, ResearchLocalObservation<S>>, rewards: map<string, real>)
    ensures ObservesEachAgent(observations, rewards, actions, round)
  {
    observations, rewards := map[], map[];
    var remaining := actions.Keys;
    while remaining != {}
      invariant remaining <= actions.Keys
      invariant observations.Keys == actions.Keys - remaining
      invariant rewards.Keys == actions.Keys - remaining
      invariant forall a :: a in observations ==>
                  observations[a] == ResearchLocalObservation(a, ResearchObservation(Some(actions[a].action), AgentNotes(round, a)))
      invariant forall a :: a in rewards ==> rewards[a] == 1.0
      decreases remaining
    {
      var a :| a in remaining;
      observations := observations[a := ResearchLocalObservation(a, ResearchObservation(Some(actions[a].action), AgentNotes(round, a)))];
      rewards := rewards[a := 1.0];
      remaining := remaining - {a};
    }
  }

  /** The `enumerate(self.round_summaries, start=1)` loop of the final
      round. */
  method CollectFinalSummaries<S>(summaries: seq<map<string, S>>) returns (finalData: seq<RoundEntry<S>>)
    ensures IndexedFromOne(finalData, summaries)
  {
    finalData := [];
    for i := 0 to |summaries|
      invariant IndexedFromOne(finalData, summaries[..i])
    {
      finalData := finalData + [RoundEntry(i + 1, summaries[i])];
    }
    assert summaries[..|summaries|] == summaries;
  }

  class ResearchMechanism<S> {
    const sequential: bool
    const maxRounds: int
    var currentRound: int
    var roundSummaries: seq<map<string, S>>
    var lastStep: Option<ResearchStep<S>>

    /** Every step counts a round and stores at most one summary, and only
        a step that stored one sets the last step. */
    ghost predicate Valid()
      reads this
    {
      && 0 <= |roundSummaries| <= currentRound
      && (lastStep.Some? ==> roundSummaries != [])
    }

    constructor (sequential: bool, maxRounds: int)
      ensures Valid()
      ensures this.sequential == sequential && this.maxRounds == maxRounds
      ensures currentRound == 0 && roundSummaries == [] && lastStep == None
    {
      this.sequential := sequential;
      this.maxRounds := maxRounds;
      currentRound := 0;
      roundSummaries := [];
      lastStep := None;
    }

    /** The field defaults: batched mode, three rounds. */
    constructor Default()
      ensures Valid()
      ensures !sequential && maxRounds == 3
      ensures currentRound == 0 && roundSummaries == [] && lastStep == None
    {
      sequential := false;
      maxRounds := 3;
      currentRound := 0;
      roundSummaries := [];
      lastStep := None;
    }

    /** One research round. The round is counted before the input is
        checked, so it advances even when the step raises; a rejected input
        stores nothing. An accepted one stores exactly one summary map and
        becomes the last step. */
    method Step(input: StepInput<S>) returns (r: Result<ResearchStep<S>, StepError>)
      requires Valid()
      modifies this
      ensures Valid()
      ensures currentRound == old(currentRound) + 1
      ensures r.Failure? ==> roundSummaries == old(roundSummaries) && lastStep == old(lastStep)
      ensures r.Success? ==> lastStep == Some(r.value) && r.value.done == (currentRound >= maxRounds)
                             && r.value.round == currentRound
                             && |roundSummaries| == |old(roundSummaries)| + 1
                             && roundSummaries[..|old(roundSummaries)|] == old(roundSummaries)
      ensures sequential ==>
                match AsLocal(input)
                case Failure(e) => r == Failure(e)
                case Success(a) =>
                  && roundSummaries == old(roundSummaries) + [map[a.agentId := a.action]]
                  && r == Success(LocalStep(
                            ResearchLocalObservation(a.agentId, ResearchObservation(Some(a.action),
                              "Round " + IntToString(currentRound) + ", single-agent action.")),
                            0.0, currentRound >= maxRounds, currentRound, "Sequential step",
                            map[a.agentId := 1.0]))
      ensures !sequential ==>
                match AsGlobal(input)
                case Failure(e) => r == Failure(e)
                case Success(g) =>
                  && roundSummaries == old(roundSummaries) + [SummariesOf(g.actions)]
                  && r.Success? && r.value.GlobalStep?
                  && var obs := r.value.globalObservation;
                     && ObservesEachAgent(obs.observations, r.value.agentRewards, g.actions, currentRound)
                     && obs.allActionsThisRound == Some(SummariesOf(g.actions))
                     && (obs.finalAllSummaries.Some? <==> currentRound >= maxRounds)
                     && (obs.finalAllSummaries.Some? ==> IndexedFromOne(obs.finalAllSummaries.value, roundSummaries))
                     && obs.aggregatorNotes == RoundNotes(currentRound, currentRound >= maxRounds)
    {
      currentRound := currentRound + 1;
      var done := currentRound >= maxRounds;
      if sequential {
        var parsed := AsLocal(input);
        if parsed.Failure? {
          return Failure(parsed.error);
        }
        var action := parsed.value;
        roundSummaries := roundSummaries + [map[action.agentId := action.action]];
        var obs := ResearchObservation(Some(action.action),
                                       "Round " + IntToString(currentRound) + ", single-agent action.");
        var localStep := LocalStep(ResearchLocalObservation(action.agentId, obs), 0.0, done, currentRound,
                                   "Sequential step", map[action.agentId := 1.0]);
        lastStep := Some(localStep);
        r := Success(localStep);
      } else {
        var parsed := AsGlobal(input);
        if parsed.Failure? {
          return Failure(parsed.error);
        }
        var action := parsed.value;
        var roundActions := SummariesOf(action.actions);
        roundSummaries := roundSummaries + [roundActions];
        var localObservations, agentRewards := BuildLocalObservations(action.actions, currentRound);
        var finalData: Option<seq<RoundEntry<S>>> := None;
        if done {
          var collected := CollectFinalSummaries(roundSummaries);
          finalData := Some(collected);
        }
        var globalObs := ResearchGlobalObservation(localObservations, Some(roundActions), finalData,
                                                   RoundNotes(currentRound, done));
        var envStep := GlobalStep(globalObs, done, currentRound, agentRewards);
        lastStep := Some(envStep);
        r := Success(envStep);
      }
    }

    /** The state report; reading it changes nothing. */
    function GetGlobalState(): (g: ResearchState<S>)
      reads this
      ensures g.roundSummariesCount == |roundSummaries|
      ensures g.currentRound == currentRound && g.maxRounds == maxRounds && g.lastStep == lastStep
    {
      ResearchState(currentRound, maxRounds, |roundSummaries|, lastStep)
    }

    /** Back to round 0 with no summaries and no last step. */
    method Reset()
      modifies this
      ensures Valid()
      ensures currentRound == 0 && roundSummaries == [] && lastStep == None
    {
      currentRound := 0;
      roundSummaries := [];
      lastStep := None;
    }
  }

  /** The research environment: its own step counter and state dict (with
      values of type `V`), the step history, and the mechanism it drives. */
  class ResearchEnvironment<S, V> {
    var currentStep: int
    var globalState: map<string, V>
    var history: seq<ResearchStep<S>>
    const mechanism: ResearchMechanism<S>

    /** A fresh environment with a fresh default mechanism. */
    constructor ()
      ensures fresh(mechanism) && mechanism.Valid()
      ensures !mechanism.sequential && mechanism.maxRounds == 3
      ensures mechanism.currentRound == 0 && mechanism.roundSummaries == [] && mechanism.lastStep == None
      ensures currentStep == 0 && globalState == map[] && history == []
    {
      mechanism := new ResearchMechanism.Default();
      currentStep := 0;
      globalState := map[];
      history := [];
    }

    /** Clears the step counter, the state dict and the history, resets the
        mechanism, and returns a global observation with no observations. */
    method Reset() returns (observations: map<string, ResearchLocalObservation<S>>)
      modifies this, mechanism
      ensures currentStep == 0 && globalState == map[] && history == []
      ensures mechanism.Valid()
      ensures mechanism.currentRound == 0 && mechanism.roundSummaries == [] && mechanism.lastStep == None
      ensures observations == map[]
    {
      currentStep := 0;
      globalState := map[];
      history := [];
      mechanism.Reset();
      observations := map[];
    }
  }
}
