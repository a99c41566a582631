/** What a model call may send: the load-time checks of `src/config.py` and the
    request building of `src/llm.py`. */
module RequestProfile {
  import opened Wrappers
  import opened ModelTable
  import Text

  /** An agent's own effort field: "" inherits, "off" sends none. */
  datatype AgentEffort = Inherit | Off | Level(level: Effort)

  /** `agentModel` holds "" for an agent that inherits. `tierEffort` maps a raw
      "tier.agent" key to its text, none when that is empty. */
  datatype Settings = Settings(
    baseModel: string,
    agentModel: map<string, string>,
    judgeModel: string,
    thinking: bool,
    effort: Option<Effort>,
    agentEffort: map<string, AgentEffort>,
    tierEffort: map<string, Option<Effort>>,
    temperature: real,
    structuredOutputs: bool)

  /** The names the code is written for: the agents with an effort field, and the
      compute tiers an override may name. */
  datatype Names = Names(agents: set<string>, tiers: set<string>)

  ghost predicate NoDot(s: string) {
    '.' !in s
  }

  /** One model and one effort field per agent. */
  ghost predicate Shaped(s: Settings, n: Names) {
    s.agentModel.Keys == s.agentEffort.Keys == n.agents
  }

  function OrBase(s: Settings, model: string): string {
    if model == "" then s.baseModel else model
  }

  /** `model_for`; the agentless call takes the base model. */
  function ModelFor(s: Settings, agent: Option<string>): string
    requires agent.Some? ==> agent.value in s.agentModel
  {
    match agent
    case None => s.baseModel
    case Some(a) => OrBase(s, s.agentModel[a])
  }

  /** `tier_effort_for`, with the run's active tier, if any, as an argument. */
  function TierEffortFor(s: Settings, agent: string, tier: Option<string>): Option<Effort> {
    if tier.None? || (tier.value + "." + agent) !in s.tierEffort then None
    else s.tierEffort[tier.value + "." + agent]
  }

  /** `effort_for`: the tier's override, else the agent's own, else the default. */
  function EffortFor(s: Settings, agent: Option<string>, tier: Option<string>): Option<Effort>
    requires agent.Some? ==> agent.value in s.agentEffort
  {
    match agent
    case None => s.effort
    case Some(a) =>
      var byTier := TierEffortFor(s, a, tier);
      if byTier.Some? then byTier
      else
        match s.agentEffort[a]
        case Off => None
        case Level(l) => Some(l)
        case Inherit => s.effort
  }

  function RoutedModels(s: Settings): set<string> {
    {s.baseModel, OrBase(s, s.judgeModel)} + set a | a in s.agentModel :: OrBase(s, s.agentModel[a])
  }

  /** `_models_effort_applies_to`. */
  function ModelsEffortAppliesTo(s: Settings, agent: Option<string>): set<string>
    requires s.agentModel.Keys == s.agentEffort.Keys
    requires agent.Some? ==> agent.value in s.agentModel
  {
    match agent
    case Some(a) => {ModelFor(s, agent)}
    case None =>
      RoutedModels(s) - set a | a in s.agentModel && !s.agentEffort[a].Inherit? :: OrBase(s, s.agentModel[a])
  }

  /** The precedence of the sources, on the fields: without an agent the default; with
      one the active tier's text, else the agent's own level, nothing when that is off,
      and the default when it has none. */
  lemma EffortPrecedence(s: Settings, agent: string, tier: Option<string>)
    requires agent in s.agentEffort
    ensures EffortFor(s, None, tier) == s.effort
    ensures var overridden := tier.Some? && (tier.value + "." + agent) in s.tierEffort
                              && s.tierEffort[tier.value + "." + agent].Some?;
            var effort := EffortFor(s, Some(agent), tier);
            && (overridden ==> effort == s.tierEffort[tier.value + "." + agent])
            && (!overridden && s.agentEffort[agent].Level? ==> effort == Some(s.agentEffort[agent].level))
            && (!overridden && s.agentEffort[agent].Off? ==> effort == None)
            && (!overridden && s.agentEffort[agent].Inherit? ==> effort == s.effort)
  {
  }

  /** Which models the checks look at: the base model, the judge's and every agent's,
      the base standing in for an empty one; and of these the default effort reaches
      those that no agent with an effort field of its own takes. */
  lemma CheckedModels(s: Settings, m: string)
    requires s.agentModel.Keys == s.agentEffort.Keys
    ensures m in RoutedModels(s) <==>
              || m == s.baseModel || (m == s.judgeModel && m != "")
              || exists a :: a in s.agentModel && m == if s.agentModel[a] == "" then s.baseModel else s.agentModel[a]
    ensures m in ModelsEffortAppliesTo(s, None) <==>
              && m in RoutedModels(s)
              && forall a :: a in s.agentModel && !s.agentEffort[a].Inherit? ==>
                   m != if s.agentModel[a] == "" then s.baseModel else s.agentModel[a]
  {
  }

  // ---- Load-time checks ------------------------------------------------------

  datatype ConfigError =
    | ThinkingUnsupported(model: string)
    | EffortUnsupported(agent: Option<string>, model: string)
    | BadTierKey(key: string)
    | BadTierLevel(key: string)
    | TierEffortUnsupported(key: string)

  ghost predicate ThinkingOk(s: Settings, t: Tables) {
    s.thinking ==> forall m :: m in RoutedModels(s) ==> CapabilitiesFor(t, m).adaptiveThinking
  }

  ghost predicate EffortOk(s: Settings, t: Tables, agent: Option<string>)
    requires s.agentModel.Keys == s.agentEffort.Keys
    requires agent.Some? ==> agent.value in s.agentModel
  {
    EffortFor(s, agent, None).Some? ==>
      forall m :: m in ModelsEffortAppliesTo(s, agent) ==>
        EffortFor(s, agent, None).value in CapabilitiesFor(t, m).effortLevels
  }

  /** `key.partition(".")`: what stands before and after the first dot. */
  function Partition(key: string): (string, string) {
    if key == "" then ("", "")
    else if key[0] == '.' then ("", key[1..])
    else
      var (head, tail) := Partition(key[1..]);
      ([key[0]] + head, tail)
  }

  ghost predicate TierKeyOk(s: Settings, t: Tables, n: Names, key: string)
    requires key in s.tierEffort
  {
    var (tier, agent) := Partition(key);
    && tier in n.tiers && agent in n.agents && agent in s.agentModel
    && s.tierEffort[key].Some? && s.tierEffort[key].value != NoLevel
    && s.tierEffort[key].value in CapabilitiesFor(t, ModelFor(s, Some(agent))).effortLevels
  }

  /** What both validators together let through. */
  ghost predicate Accepted(s: Settings, t: Tables, n: Names) {
    && Shaped(s, n)
    && ThinkingOk(s, t)
    && EffortOk(s, t, None)
    && (forall a :: a in n.agents ==> EffortOk(s, t, Some(a)))
    && (forall key :: key in s.tierEffort ==> TierKeyOk(s, t, n, key))
  }

  /** `model` is the first in the order of names that cannot think. */
  ghost predicate FirstThoughtless(s: Settings, t: Tables, model: string) {
    && model in RoutedModels(s) && !CapabilitiesFor(t, model).adaptiveThinking
    && forall m :: m in RoutedModels(s) && !CapabilitiesFor(t, m).adaptiveThinking ==> Text.LexLe(model, m)
  }

  /** The error names `agent` and the first model, in the order of names, that its
      effort would reach and that does not take it. */
  ghost predicate Blames(e: ConfigError, s: Settings, t: Tables, agent: Option<string>)
    requires s.agentModel.Keys == s.agentEffort.Keys
    requires agent.Some? ==> agent.value in s.agentModel
  {
    && e.EffortUnsupported? && e.agent == agent
    && e.model in ModelsEffortAppliesTo(s, agent)
    && EffortFor(s, agent, None).Some?
    && EffortFor(s, agent, None).value !in CapabilitiesFor(t, e.model).effortLevels
    && forall m :: m in ModelsEffortAppliesTo(s, agent) ==>
         EffortFor(s, agent, None).value in CapabilitiesFor(t, m).effortLevels || Text.LexLe(e.model, m)
  }

  /** `_check_request_profile_is_supported`, models and agents in order. */
  method CheckRequestProfile(s: Settings, t: Tables, n: Names, agents: seq<string>) returns (r: Option<ConfigError>)
    requires Shaped(s, n) && forall a :: a in agents <==> a in n.agents
    ensures r.None? <==>
              ThinkingOk(s, t) && EffortOk(s, t, None) && forall a :: a in n.agents ==> EffortOk(s, t, Some(a))
    ensures !ThinkingOk(s, t) ==> r.Some? && r.value.ThinkingUnsupported? && FirstThoughtless(s, t, r.value.model)
    ensures ThinkingOk(s, t) && !EffortOk(s, t, None) ==> r.Some? && Blames(r.value, s, t, None)
    ensures r.Some? && ThinkingOk(s, t) && EffortOk(s, t, None) ==>
              exists i :: 0 <= i < |agents| && Blames(r.value, s, t, Some(agents[i]))
                && forall j :: 0 <= j < i ==> EffortOk(s, t, Some(agents[j]))
  {
    if s.thinking {
      var routed := Text.SortNames(RoutedModels(s));
      for i := 0 to |routed|
        invariant forall j :: 0 <= j < i ==> CapabilitiesFor(t, routed[j]).adaptiveThinking
      {
        if !CapabilitiesFor(t, routed[i]).adaptiveThinking {
          assert routed[i] in RoutedModels(s);
          forall m | m in RoutedModels(s) && !CapabilitiesFor(t, m).adaptiveThinking ensures Text.LexLe(routed[i], m) {
            assert m in routed;
            Text.LexTotal(m, m);
          }
          return Some(ThinkingUnsupported(routed[i]));
        }
      }
      assert ThinkingOk(s, t) by {
        forall m | m in RoutedModels(s) ensures CapabilitiesFor(t, m).adaptiveThinking {
          assert m in routed;
        }
      }
    }
    r := CheckEffort(s, t, None);
    if r.Some? {
      return;
    }
    for i := 0 to |agents|
      invariant forall j :: 0 <= j < i ==> EffortOk(s, t, Some(agents[j]))
    {
      assert agents[i] in n.agents;
      r := CheckEffort(s, t, Some(agents[i]));
      if r.Some? {
        return;
      }
    }
    assert forall a :: a in n.agents ==> a in agents;
    return None;
  }

  lemma FirstInOrder(keys: seq<string>, i: nat, bad: set<string>)
    requires i < |keys| && Text.Ascending(keys) && forall k :: k in bad ==> k in keys
    requires forall j :: 0 <= j < i ==> keys[j] !in bad
    ensures forall k :: k in bad ==> Text.LexLe(keys[i], k)
  {
    Text.LexTotal(keys[i], keys[i]);
  }

  method CheckEffort(s: Settings, t: Tables, agent: Option<string>) returns (r: Option<ConfigError>)
    requires s.agentModel.Keys == s.agentEffort.Keys && (agent.Some? ==> agent.value in s.agentModel)
    ensures r.None? <==> EffortOk(s, t, agent)
    ensures r.Some? ==> Blames(r.value, s, t, agent)
  {
    var level := EffortFor(s, agent, None);
    if level.None? {
      return None;
    }
    var models := Text.SortNames(ModelsEffortAppliesTo(s, agent));
    for i := 0 to |models|
      invariant forall j :: 0 <= j < i ==> level.value in CapabilitiesFor(t, models[j]).effortLevels
    {
      if level.value !in CapabilitiesFor(t, models[i]).effortLevels {
        assert models[i] in ModelsEffortAppliesTo(s, agent);
        FirstInOrder(models, i, set m | m in ModelsEffortAppliesTo(s, agent)
                                        && level.value !in CapabilitiesFor(t, m).effortLevels);
        return Some(EffortUnsupported(agent, models[i]));
      }
    }
    assert forall m :: m in ModelsEffortAppliesTo(s, agent) ==> m in models;
    return None;
  }

  /** The error names the first offending key in the order of keys, and why. */
  ghost predicate FirstBadKey(e: ConfigError, s: Settings, t: Tables, n: Names) {
    && (e.BadTierKey? || e.BadTierLevel? || e.TierEffortUnsupported?)
    && e.key in s.tierEffort && !TierKeyOk(s, t, n, e.key)
    && (forall key :: key in s.tierEffort && !TierKeyOk(s, t, n, key) ==> Text.LexLe(e.key, key))
    && var (tier, agent) := Partition(e.key);
       && (e.BadTierKey? <==> tier !in n.tiers || agent !in n.agents)
       && (e.TierEffortUnsupported? ==>
             agent in s.agentModel && s.tierEffort[e.key].Some?
             && s.tierEffort[e.key].value !in CapabilitiesFor(t, ModelFor(s, Some(agent))).effortLevels)
       && (e.BadTierLevel? <==> !e.BadTierKey? && (s.tierEffort[e.key].None? || s.tierEffort[e.key].value == NoLevel))
  }

  /** `_check_tier_effort_overrides`, keys in order. */
  method CheckTierEffort(s: Settings, t: Tables, n: Names) returns (r: Option<ConfigError>)
    requires Shaped(s, n)
    ensures r.None? <==> forall key :: key in s.tierEffort ==> TierKeyOk(s, t, n, key)
    ensures r.Some? ==> FirstBadKey(r.value, s, t, n)
  {
    var keys := Text.SortNames(s.tierEffort.Keys);
    for i := 0 to |keys|
      invariant forall j :: 0 <= j < i ==> keys[j] in s.tierEffort && TierKeyOk(s, t, n, keys[j])
    {
      var key := keys[i];
      assert key in s.tierEffort;
      var (tier, agent) := Partition(key);
      ghost var bad := set k | k in s.tierEffort && !TierKeyOk(s, t, n, k);
      assert forall k :: k in bad ==> k in keys;
      FirstInOrder(keys, i, bad);
      if tier !in n.tiers || agent !in n.agents {
        return Some(BadTierKey(key));
      }
      if s.tierEffort[key].None? || s.tierEffort[key].value == NoLevel {
        return Some(BadTierLevel(key));
      }
      if s.tierEffort[key].value !in CapabilitiesFor(t, ModelFor(s, Some(agent))).effortLevels {
        return Some(TierEffortUnsupported(key));
      }
    }
    assert forall key :: key in s.tierEffort ==> key in keys;
    return None;
  }

  // ---- The profile of one call -------------------------------------------------

  datatype Profile = Profile(
    model: string,
    temperature: Option<real>,
    adaptiveThinking: bool,
    effort: Option<Effort>,
    structuredOutputs: bool)

  /** `resolve_profile`, for a model id no check need have seen. */
  function ResolveProfile(s: Settings, t: Tables, model: string, agent: Option<string>, tier: Option<string>,
                          temperature: Option<real>): Profile
    requires agent.Some? ==> agent.value in s.agentEffort
  {
    var caps := CapabilitiesFor(t, model);
    var effort := EffortFor(s, agent, tier);
    var requested := if temperature.None? then s.temperature else temperature.value;
    Profile(
      model,
      if caps.samplingParams then Some(requested) else None,
      s.thinking && caps.adaptiveThinking,
      if effort.Some? && effort.value in caps.effortLevels then effort else None,
      s.structuredOutputs && caps.structuredOutputs)
  }

  lemma {:induction false} PartitionAtDot(tier: string, agent: string)
    requires NoDot(tier)
    ensures Partition(tier + "." + agent) == (tier, agent)
  {
    var key := tier + "." + agent;
    if tier == "" {
      assert key[0] == '.' && key[1..] == agent;
    } else {
      assert key[0] == tier[0] && key[1..] == tier[1..] + "." + agent;
      PartitionAtDot(tier[1..], agent);
      assert [tier[0]] + tier[1..] == tier;
    }
  }

  /** A configuration accepted at load never has a named agent's effort or
      thinking dropped at call time, on any tier the run may be bound to. */
  lemma NamedAgentGetsWhatIsConfigured(s: Settings, t: Tables, n: Names, agent: string, tier: Option<string>,
                                       temperature: Option<real>)
    requires Accepted(s, t, n) && agent in n.agents && (tier.Some? ==> NoDot(tier.value))
    ensures var own := s.agentModel[agent];
            var p := ResolveProfile(s, t, if own == "" then s.baseModel else own, Some(agent), tier, temperature);
            var overridden := tier.Some? && (tier.value + "." + agent) in s.tierEffort;
            && p.adaptiveThinking == s.thinking
            && (overridden ==> p.effort == s.tierEffort[tier.value + "." + agent] && p.effort.Some?)
            && (!overridden && s.agentEffort[agent].Level? ==> p.effort == Some(s.agentEffort[agent].level))
            && (!overridden && s.agentEffort[agent].Off? ==> p.effort == None)
            && (!overridden && s.agentEffort[agent].Inherit? ==> p.effort == s.effort)
  {
    var model := ModelFor(s, Some(agent));
    assert model in RoutedModels(s);
    var byTier := TierEffortFor(s, agent, tier);
    if byTier.Some? {
      var key := tier.value + "." + agent;
      PartitionAtDot(tier.value, agent);
      assert TierKeyOk(s, t, n, key);
    } else {
      assert EffortOk(s, t, Some(agent));
      assert model in ModelsEffortAppliesTo(s, Some(agent));
    }
  }

  /** Some check at load holds the base model to the default effort: there is none
      to hold it to, no agent on the base model has an effort field of its own,
      or an agent on the base model asks for the same level itself, always or on
      a tier. */
  ghost predicate BaseEffortChecked(s: Settings, n: Names)
    requires Shaped(s, n)
  {
    || s.effort.None?
    || (forall a :: a in n.agents && OnBase(s, n, a) ==> s.agentEffort[a].Inherit?)
    || (exists a :: a in n.agents && OnBase(s, n, a) && EffortFor(s, Some(a), None) == s.effort)
    || (exists key :: key in s.tierEffort && OnBase(s, n, Partition(key).1) && s.tierEffort[key] == s.effort)
  }

  ghost predicate OnBase(s: Settings, n: Names, agent: string)
    requires Shaped(s, n)
  {
    agent in n.agents && ModelFor(s, Some(agent)) == s.baseModel
  }

  /** What an agentless call sends as its effort. */
  function AgentlessEffort(s: Settings, t: Tables): Option<Effort> {
    ResolveProfile(s, t, ModelFor(s, None), None, None, None).effort
  }

  /** An agentless call is weaker than a named one. The checks rule out that its
      effort is dropped exactly when one of them looks at the base model. */
  lemma AgentlessEffortIff(s: Settings, t: Tables, n: Names)
    requires Accepted(s, t, n)
    ensures BaseEffortChecked(s, n) <==> forall u :: Accepted(s, u, n) ==> AgentlessEffort(s, u) == s.effort
  {
    if BaseEffortChecked(s, n) {
      forall u | Accepted(s, u, n) ensures AgentlessEffort(s, u) == s.effort {
      }
    } else {
      UncheckedIsAccepted(s, t, n);
      assert AgentlessEffort(s, WithoutBaseEffort(s, t)) != s.effort by {
        assert CapabilitiesFor(WithoutBaseEffort(s, t), s.baseModel)
            == WithoutBaseEffort(s, t).known[s.baseModel];
      }
    }
  }

  /** The same rows for every model the settings name, but without the default
      effort in that of the base model. */
  function WithoutBaseEffort(s: Settings, t: Tables): Tables {
    Tables(map m | m in RoutedModels(s) :: RowWithout(s, m, CapabilitiesFor(t, m)), map[])
  }

  function RowWithout(s: Settings, model: string, row: Capabilities): Capabilities {
    if model == s.baseModel && s.effort.Some?
    then row.(effortLevels := row.effortLevels - {s.effort.value})
    else row
  }

  ghost predicate RowsWithout(s: Settings, t: Tables, u: Tables) {
    forall m :: m in RoutedModels(s) ==> CapabilitiesFor(u, m) == RowWithout(s, m, CapabilitiesFor(t, m))
  }

  lemma UncheckedIsAccepted(s: Settings, t: Tables, n: Names)
    requires Accepted(s, t, n) && !BaseEffortChecked(s, n)
    ensures Accepted(s, WithoutBaseEffort(s, t), n)
  {
    var u := WithoutBaseEffort(s, t);
    assert RowsWithout(s, t, u);
    hide CapabilitiesFor, WithoutBaseEffort, RowsWithout, BaseEffortChecked, ThinkingOk, EffortOk, TierKeyOk;
    UncheckedAgentless(s, t, u, n);
    forall a | a in n.agents ensures EffortOk(s, u, Some(a)) {
    }
    forall key | key in s.tierEffort ensures TierKeyOk(s, u, n, key) {
      UncheckedTierKey(s, t, u, n, key);
    }
  }

  lemma UncheckedAgentless(s: Settings, t: Tables, u: Tables, n: Names)
    requires Shaped(s, n) && EffortOk(s, t, None) && RowsWithout(s, t, u) && !BaseEffortChecked(s, n)
    ensures EffortOk(s, u, None)
  {
    hide CapabilitiesFor;
    assert s.baseModel !in ModelsEffortAppliesTo(s, None) by {
      var a :| a in n.agents && OnBase(s, n, a) && !s.agentEffort[a].Inherit?;
    }
  }

  lemma UncheckedTierKey(s: Settings, t: Tables, u: Tables, n: Names, key: string)
    requires Shaped(s, n) && key in s.tierEffort
    requires TierKeyOk(s, t, n, key) && RowsWithout(s, t, u) && !BaseEffortChecked(s, n)
    ensures TierKeyOk(s, u, n, key)
  {
    hide CapabilitiesFor, Partition;
    var agent := Partition(key).1;
    assert ModelFor(s, Some(agent)) in RoutedModels(s);
    assert OnBase(s, n, agent) ==> s.tierEffort[key] != s.effort;
  }

  /** A refused tier text still outranks the agent's own effort at call time, and
      since no row lists it, nothing is sent. */
  lemma RefusedTierTextSendsNothing(s: Settings, t: Tables, model: string, agent: string, tier: string,
                                    temperature: Option<real>)
    requires agent in s.agentEffort && NoLevel !in CapabilitiesFor(t, model).effortLevels
    requires (tier + "." + agent) in s.tierEffort && s.tierEffort[tier + "." + agent] == Some(NoLevel)
    ensures ResolveProfile(s, t, model, Some(agent), Some(tier), temperature).effort == None
  {
    hide CapabilitiesFor;
    assert TierEffortFor(s, agent, Some(tier)) == Some(NoLevel);
  }

  // ---- The request ---------------------------------------------------------------

  datatype Field = Model | MaxTokens | Temperature | Thinking | OutputConfig | System | Messages

  datatype Setting =
    | Text_(text: string)
    | Number(n: int)
    | Degree(x: real)
    | Adaptive
    | Output(effort: Option<Effort>, format: Option<string>)

  /** `_build_request_kwargs`: optional fields are absent, never null. */
  method BuildRequestKwargs(p: Profile, prompt: string, system: string, maxTokens: int, schema: Option<string>)
    returns (kwargs: map<Field, Setting>)
    ensures kwargs == RequestOf(p, prompt, system, maxTokens, schema)
  {
    kwargs := map[Model := Text_(p.model), MaxTokens := Number(maxTokens)];
    if p.temperature.Some? {
      kwargs := kwargs[Temperature := Degree(p.temperature.value)];
    }
    if p.adaptiveThinking {
      kwargs := kwargs[Thinking := Adaptive];
    }
    var output := Output(None, None);
    if p.effort.Some? {
      output := output.(effort := p.effort);
    }
    if schema.Some? && p.structuredOutputs {
      output := output.(format := schema);
    }
    if output != Output(None, None) {
      kwargs := kwargs[OutputConfig := output];
    }
    kwargs := kwargs[System := Text_(system)][Messages := Text_(prompt)];
  }

  /** Which fields a request has, field by field. */
  function RequestOf(p: Profile, prompt: string, system: string, maxTokens: int, schema: Option<string>)
    : map<Field, Setting>
  {
    var format := if p.structuredOutputs then schema else None;
    map f | f in {Model, MaxTokens, Temperature, Thinking, OutputConfig, System, Messages}
            && (f.Temperature? ==> p.temperature.Some?)
            && (f.Thinking? ==> p.adaptiveThinking)
            && (f.OutputConfig? ==> p.effort.Some? || format.Some?)
         :: match f
            case Model => Text_(p.model)
            case MaxTokens => Number(maxTokens)
            case Temperature => Degree(p.temperature.value)
            case Thinking => Adaptive
            case OutputConfig => Output(p.effort, format)
            case System => Text_(system)
            case Messages => Text_(prompt)
  }

  /** For any settings and any model id at all, accepted or not, the request
      carries an optional field exactly when the operator enabled it and the
      model's row allows it. */
  lemma RequestIsAllowed(s: Settings, t: Tables, model: string, agent: Option<string>, tier: Option<string>,
                         temperature: Option<real>, prompt: string, system: string, maxTokens: int,
                         schema: Option<string>)
    requires agent.Some? ==> agent.value in s.agentEffort
    ensures var caps := CapabilitiesFor(t, model);
            var p := ResolveProfile(s, t, model, agent, tier, temperature);
            var kw := RequestOf(p, prompt, system, maxTokens, schema);
            var wanted := EffortFor(s, agent, tier);
            && (Temperature in kw <==> caps.samplingParams)
            && (Thinking in kw <==> s.thinking && caps.adaptiveThinking)
            && (OutputConfig in kw <==>
                  (wanted.Some? && wanted.value in caps.effortLevels)
                  || (schema.Some? && s.structuredOutputs && caps.structuredOutputs))
            && (OutputConfig in kw ==>
                  kw[OutputConfig] == Output(if wanted.Some? && wanted.value in caps.effortLevels then wanted else None,
                                             if s.structuredOutputs && caps.structuredOutputs then schema else None))
            && (Temperature in kw ==>
                  kw[Temperature] == Degree(if temperature.Some? then temperature.value else s.temperature))
            && (Thinking in kw ==> kw[Thinking] == Adaptive)
            && {Model, MaxTokens, System, Messages} <= kw.Keys && kw[Model] == Text_(model)
            && kw[MaxTokens] == Number(maxTokens) && kw[System] == Text_(system) && kw[Messages] == Text_(prompt)
  {
  }
}
