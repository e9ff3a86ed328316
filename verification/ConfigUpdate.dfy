/** Authorising, applying and validating updates of a channel's configuration. */
module ConfigUpdate {
  import opened Wrappers
  import opened ConfigTree
  import opened ConfigPaths
  import opened ConfigMap
  import opened ConfigRebuild
  import opened PolicyManager

  datatype SignedData = SignedData(data: Bytes, identity: Bytes, signature: Bytes)

  /** Which signature sets satisfy a compiled policy. */
  type Evaluation = (Compiled, seq<SignedData>) -> bool

  datatype Update = Update(channelId: string, readSet: Option<ConfigGroup>, writeSet: Option<ConfigGroup>)

  /** A decoded update envelope; decoding may have failed. */
  datatype Envelope = Envelope(update: Result<Update>, signedData: Result<seq<SignedData>>)

  datatype Config = Config(sequence: Uint64, channelGroup: Option<ConfigGroup>)

  datatype ConfigEnvelope = ConfigEnvelope(config: Option<Config>, lastUpdate: Envelope)

  datatype Validator = Validator(
    channelID: string,
    sequence: Uint64,
    configMap: Flat,
    channelGroup: ConfigGroup,
    namespace: string,
    pm: Manager,
    satisfied: Evaluation)

  predicate ValidChannelID(id: string) {
    && 0 < |id| <= MAX_LENGTH
    && 'a' <= id[0] <= 'z'
    && forall i | 0 <= i < |id| :: 'a' <= id[i] <= 'z' || '0' <= id[i] <= '9' || id[i] == '.' || id[i] == '-'
  }

  /** What a constructed validator guarantees: its map is its own config, flattened. */
  ghost predicate Valid(v: Validator) {
    LegalTree(v.namespace, v.channelGroup) && v.configMap == Flatten(v.namespace, v.channelGroup)
  }

  method NewValidatorImpl(channelID: string, config: Option<Config>, namespace: string, pm: Manager,
                          satisfied: Evaluation)
    returns (r: Result<Validator>)
    ensures r.Ok? <==>
      && config.Some? && config.value.channelGroup.Some?
      && ValidChannelID(channelID) && LegalTree(namespace, config.value.channelGroup.value)
    ensures r.Ok? ==>
      && Valid(r.value) && r.value.channelGroup == config.value.channelGroup.value
      && r.value.sequence == config.value.sequence && r.value.channelID == channelID
      && r.value.namespace == namespace && r.value.pm == pm && r.value.satisfied == satisfied
  {
    if config.None? || config.value.channelGroup.None? || !ValidChannelID(channelID) { return Err; }
    var configMap := MapConfig(config.value.channelGroup, namespace);
    if configMap.Err? { return Err; }
    r := Ok(Validator(channelID, config.value.sequence, configMap.value, config.value.channelGroup.value, namespace, pm,
                      satisfied));
  }

  // ----- the checks, as specifications -----

  ghost predicate ReadSetOk(configMap: Flat, readSet: Flat) {
    forall s | s in readSet :: s in configMap && configMap[s].body.Version() == readSet[s].body.Version()
  }

  ghost predicate Unmodified(readSet: Flat, s: string, x: Comparable) {
    s in readSet && readSet[s].body.Version() == x.body.Version()
  }

  ghost function DeltaSet(readSet: Flat, writeSet: Flat): Flat {
    map s | s in writeSet && !Unmodified(readSet, s, writeSet[s]) :: writeSet[s]
  }

  /** The policy that guards an element: its mod_policy, seen from the group the element belongs to. */
  function PolicyForItem(pm: Manager, item: Comparable): Lookup {
    var modPolicy := item.body.ModPolicy();
    if |modPolicy| > 0 && modPolicy[0] != '/' && item.path != [] then
      match SubManager(pm, item.path[1..])
      case None => RejectAll
      case Some(manager) =>
        if item.body.GroupBody? then
          match SubManager(manager, [item.key])
          case None => RejectAll
          case Some(own) => GetPolicy(own, modPolicy)
        else GetPolicy(manager, modPolicy)
    else GetPolicy(pm, modPolicy)
  }

  predicate PolicySatisfied(v: Validator, signedData: seq<SignedData>, item: Comparable) {
    PolicyForItem(v.pm, item).Found? && v.satisfied(PolicyForItem(v.pm, item).policy, signedData)
  }

  predicate DeltaEntryOk(v: Validator, signedData: seq<SignedData>, s: string, x: Comparable) {
    && ValidModPolicy(x.body.ModPolicy())
    && if s in v.configMap then
         && x.body.Version() == Next(v.configMap[s].body.Version())
         && PolicySatisfied(v, signedData, v.configMap[s])
       else
         x.body.Version() == 0
  }

  ghost predicate DeltaSetOk(v: Validator, signedData: seq<SignedData>, deltaSet: Flat) {
    deltaSet != map[] && forall s | s in deltaSet :: DeltaEntryOk(v, signedData, s, deltaSet[s])
  }

  /** The whole decision: the proposed flat config, or an error. */
  ghost function AuthorizeSpec(v: Validator, env: Envelope): Result<Flat> {
    var update :- env.update;
    if update.channelId != v.channelID then Err
    else
      var readSet :- MapConfigSpec(update.readSet, v.namespace);
      if !ReadSetOk(v.configMap, readSet) then Err
      else
        var writeSet :- MapConfigSpec(update.writeSet, v.namespace);
        var signedData :- env.signedData;
        var deltaSet := DeltaSet(readSet, writeSet);
        if !DeltaSetOk(v, signedData, deltaSet) then Err
        else if !(writeSet.Keys <= (v.configMap + deltaSet).Keys) then Err
        else Ok(v.configMap + deltaSet)
  }

  ghost function ProposeSpec(v: Validator, env: Envelope): Result<ConfigEnvelope> {
    var full :- AuthorizeSpec(v, env);
    var channelGroup :- ConfigMapToConfigSpec(full, v.namespace);
    Ok(ConfigEnvelope(Some(Config(Next(v.sequence), Some(channelGroup))), env))
  }

  // ----- the loops -----

  method VerifyReadSet(v: Validator, readSet: Flat) returns (ok: bool)
    ensures ok == ReadSetOk(v.configMap, readSet)
  {
    var done: set<string> := {};
    while done != readSet.Keys
      invariant done <= readSet.Keys
      invariant forall s | s in done :: s in v.configMap && v.configMap[s].body.Version() == readSet[s].body.Version()
      decreases readSet.Keys - done
    {
      var key :| key in readSet && key !in done;
      if key !in v.configMap { return false; }
      if v.configMap[key].body.Version() != readSet[key].body.Version() { return false; }
      done := done + {key};
    }
    ok := true;
  }

  method ComputeDeltaSet(readSet: Flat, writeSet: Flat) returns (result: Flat)
    ensures result == DeltaSet(readSet, writeSet)
  {
    result := map[];
    var done: set<string> := {};
    while done != writeSet.Keys
      invariant done <= writeSet.Keys
      invariant result == map s | s in done && !Unmodified(readSet, s, writeSet[s]) :: writeSet[s]
      decreases writeSet.Keys - done
    {
      var key :| key in writeSet && key !in done;
      done := done + {key};
      if key in readSet && readSet[key].body.Version() == writeSet[key].body.Version() { continue; }
      result := result[key := writeSet[key]];
    }
  }

  method VerifyDeltaSet(v: Validator, deltaSet: Flat, signedData: seq<SignedData>) returns (ok: bool)
    ensures ok == DeltaSetOk(v, signedData, deltaSet)
  {
    if |deltaSet| == 0 { return false; }
    var done: set<string> := {};
    while done != deltaSet.Keys
      invariant done <= deltaSet.Keys
      invariant forall s | s in done :: DeltaEntryOk(v, signedData, s, deltaSet[s])
      decreases deltaSet.Keys - done
    {
      var key :| key in deltaSet && key !in done;
      var value := deltaSet[key];
      if !ValidModPolicy(value.body.ModPolicy()) { return false; }
      done := done + {key};
      if key !in v.configMap {
        if value.body.Version() != 0 { return false; }
        continue;
      }
      var existing := v.configMap[key];
      if value.body.Version() != Next(existing.body.Version()) { return false; }
      var policy := PolicyForItem(v.pm, existing);
      if !policy.Found? { return false; }
      if !v.satisfied(policy.policy, signedData) { return false; }
    }
    ok := true;
  }

  method ComputeUpdateResult(v: Validator, updatedConfig: Flat) returns (newConfigMap: Flat)
    ensures newConfigMap == v.configMap + updatedConfig
  {
    newConfigMap := map[];
    var done: set<string> := {};
    while done != v.configMap.Keys
      invariant done == newConfigMap.Keys <= v.configMap.Keys
      invariant forall s | s in newConfigMap :: newConfigMap[s] == v.configMap[s]
      decreases v.configMap.Keys - done
    {
      var key :| key in v.configMap && key !in done;
      newConfigMap := newConfigMap[key := v.configMap[key]];
      done := done + {key};
    }
    done := {};
    while done != updatedConfig.Keys
      invariant done <= updatedConfig.Keys
      invariant newConfigMap == v.configMap + map s | s in done :: updatedConfig[s]
      decreases updatedConfig.Keys - done
    {
      var key :| key in updatedConfig && key !in done;
      newConfigMap := newConfigMap[key := updatedConfig[key]];
      done := done + {key};
    }
    assert updatedConfig == map s | s in done :: updatedConfig[s];
  }

  method VerifyFullProposedConfig(writeSet: Flat, fullProposedConfig: Flat) returns (ok: bool)
    ensures ok == (writeSet.Keys <= fullProposedConfig.Keys)
  {
    var done: set<string> := {};
    while done != writeSet.Keys
      invariant done <= writeSet.Keys && done <= fullProposedConfig.Keys
      decreases writeSet.Keys - done
    {
      var key :| key in writeSet && key !in done;
      if key !in fullProposedConfig { return false; }
      done := done + {key};
    }
    ok := true;
  }

  method AuthorizeUpdate(v: Validator, env: Envelope) returns (r: Result<Flat>)
    ensures r == AuthorizeSpec(v, env)
  {
    if env.update.Err? { return Err; }
    var configUpdate := env.update.value;
    if configUpdate.channelId != v.channelID { return Err; }
    var readSet := MapConfig(configUpdate.readSet, v.namespace);
    if readSet.Err? { return Err; }
    var ok := VerifyReadSet(v, readSet.value);
    if !ok { return Err; }
    var writeSet := MapConfig(configUpdate.writeSet, v.namespace);
    if writeSet.Err? { return Err; }
    var deltaSet := ComputeDeltaSet(readSet.value, writeSet.value);
    if env.signedData.Err? { return Err; }
    ok := VerifyDeltaSet(v, deltaSet, env.signedData.value);
    if !ok { return Err; }
    var fullProposedConfig := ComputeUpdateResult(v, deltaSet);
    ok := VerifyFullProposedConfig(writeSet.value, fullProposedConfig);
    if !ok { return Err; }
    r := Ok(fullProposedConfig);
  }

  /** The proposal carries the next sequence number and the update it came from. */
  method ProposeConfigUpdate(v: Validator, env: Envelope) returns (r: Result<ConfigEnvelope>)
    ensures r == ProposeSpec(v, env)
    ensures r.Ok? ==>
      && r.value.config.Some?
      && r.value.config.value.sequence == (if v.sequence == TWO64 - 1 then 0 else v.sequence + 1)
      && r.value.config.value.channelGroup.Some? && r.value.lastUpdate == env
  {
    NextIs(v.sequence);
    var configMap := AuthorizeUpdate(v, env);
    if configMap.Err? { return Err; }
    var channelGroup := ConfigMapToConfig(configMap.value, v.namespace);
    if channelGroup.Err? { return Err; }
    r := Ok(ConfigEnvelope(Some(Config(Next(v.sequence), Some(channelGroup.value))), env));
  }

  /** A config is validated exactly when it is what proposing its last update yields, whatever that proposal carries. */
  method Validate(v: Validator, configEnv: Option<ConfigEnvelope>) returns (ok: bool)
    ensures ok <==> configEnv.Some? && ProposeSpec(v, configEnv.value.lastUpdate) == Ok(configEnv.value)
    ensures ok ==>
      && configEnv.value.config.Some?
      && configEnv.value.config.value.sequence == if v.sequence == TWO64 - 1 then 0 else v.sequence + 1
  {
    NextIs(v.sequence);
    if configEnv.None? || configEnv.value.config.None? { return false; }
    if configEnv.value.config.value.sequence != Next(v.sequence) { return false; }
    var configMap := AuthorizeUpdate(v, configEnv.value.lastUpdate);
    if configMap.Err? { return false; }
    var channelGroup := ConfigMapToConfig(configMap.value, v.namespace);
    if channelGroup.Err? { return false; }
    ok := configEnv.value.config.value.channelGroup == Some(channelGroup.value);
  }
}
