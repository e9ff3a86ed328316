/** Rebuilding a config tree from a flat map, with the upgrade of empty mod_policy fields. */
module ConfigRebuild {
  import opened Wrappers
  import opened ConfigTree
  import opened ConfigPaths
  import opened ConfigMap

  // the literal "[Value]  /Channel/Orderer/Capabilities", put together from its parts
  const HACKY_FIX_ORDERER_CAPABILITIES :=
    VALUE_PREFIX + (PATH_SEPARATOR + "Channel" + PATH_SEPARATOR + "Orderer" + PATH_SEPARATOR + "Capabilities")
  const HACKY_FIX_NEW_MOD_POLICY := "Admins"

  predicate FixOn(m: Flat) {
    HACKY_FIX_ORDERER_CAPABILITIES in m
  }

  function Filled(on: bool, modPolicy: string): string {
    if on && modPolicy == "" then HACKY_FIX_NEW_MOD_POLICY else modPolicy
  }

  function FilledValue(on: bool, v: ConfigValue): ConfigValue {
    v.(modPolicy := Filled(on, v.modPolicy))
  }

  function FilledPolicy(on: bool, p: ConfigPolicy): ConfigPolicy {
    p.(modPolicy := Filled(on, p.modPolicy))
  }

  /** The tree with every empty mod_policy replaced, if the fix is on. */
  ghost function FilledTree(on: bool, g: ConfigGroup): ConfigGroup
    decreases g
  {
    ConfigGroup(
      g.version,
      map k | k in g.groups :: FilledTree(on, g.groups[k]),
      map k | k in g.values :: FilledValue(on, g.values[k]),
      map k | k in g.policies :: FilledPolicy(on, g.policies[k]),
      Filled(on, g.modPolicy))
  }

  // ----- the recursion over the map -----

  ghost function MaxLength(S: set<string>): (n: nat)
    ensures forall s | s in S :: |s| <= n
  {
    if S == {} then 0
    else
      var s :| s in S;
      var n := MaxLength(S - {s});
      if |s| > n then |s| else n
  }

  /** How much longer paths in the map can still get: the measure of the recursion. */
  ghost function Room(path: string, m: Flat): nat {
    if GROUP_PREFIX + path in m then 1 + MaxLength(m.Keys) - |path| else 0
  }

  function Child(path: string, k: string): string {
    path + PATH_SEPARATOR + k
  }

  /** Going down one level uses up room, because the path gets longer and the map is finite. */
  lemma RoomShrinks(path: string, k: string, m: Flat)
    requires GROUP_PREFIX + path in m
    ensures Room(Child(path, k), m) < Room(path, m)
  {
  }

  function ValueAt(path: string, k: string, m: Flat): Result<ConfigValue> {
    var s := VALUE_PREFIX + Child(path, k);
    if s in m && m[s].body.ValueBody? then Ok(m[s].body.value) else Err
  }

  function PolicyAt(path: string, k: string, m: Flat): Result<ConfigPolicy> {
    var s := POLICY_PREFIX + Child(path, k);
    if s in m && m[s].body.PolicyBody? then Ok(m[s].body.policy) else Err
  }

  /** All successes together, or the failure of one of them. */
  ghost function AllOk<T>(rs: map<string, Result<T>>): Result<map<string, T>> {
    if forall k | k in rs :: rs[k].Ok? then Ok(map k | k in rs :: rs[k].value) else Err
  }

  lemma AllOkIs<T>(rs: map<string, Result<T>>, vs: map<string, T>)
    requires rs.Keys == vs.Keys && forall k | k in vs :: rs[k] == Ok(vs[k])
    ensures AllOk(rs) == Ok(vs)
  {
    assert (map k | k in rs :: rs[k].value) == vs;
  }

  ghost function SubgroupsAt(path: string, g: ConfigGroup, m: Flat): map<string, Result<ConfigGroup>>
    requires GROUP_PREFIX + path in m
    decreases Room(path, m), 0
  {
    assert forall k :: Room(Child(path, k), m) < Room(path, m) by {
      forall k ensures Room(Child(path, k), m) < Room(path, m) { RoomShrinks(path, k, m); }
    }
    map k | k in g.groups :: Rebuild(Child(path, k), m)
  }

  ghost function ValuesAt(path: string, g: ConfigGroup, m: Flat): map<string, Result<ConfigValue>> {
    map k | k in g.values :: ValueAt(path, k, m)
  }

  ghost function PoliciesAt(path: string, g: ConfigGroup, m: Flat): map<string, Result<ConfigPolicy>> {
    map k | k in g.policies :: PolicyAt(path, k, m)
  }

  ghost function FilledGroup(on: bool, g: ConfigGroup): ConfigGroup {
    ConfigGroup(
      g.version,
      g.groups,
      map k | k in g.values :: FilledValue(on, g.values[k]),
      map k | k in g.policies :: FilledPolicy(on, g.policies[k]),
      Filled(on, g.modPolicy))
  }

  /** The tree below `path`: the group entry's own shape, with every child looked up in the map. */
  ghost function Rebuild(path: string, m: Flat): Result<ConfigGroup>
    decreases Room(path, m), 1
  {
    if GROUP_PREFIX + path !in m || !m[GROUP_PREFIX + path].body.GroupBody? then Err
    else
      var g := m[GROUP_PREFIX + path].body.group;
      var groups :- AllOk(SubgroupsAt(path, g, m));
      var values :- AllOk(ValuesAt(path, g, m));
      var policies :- AllOk(PoliciesAt(path, g, m));
      Ok(FilledGroup(FixOn(m), ConfigGroup(g.version, groups, values, policies, g.modPolicy)))
  }

  method CollectGroups(path: string, group: ConfigGroup, m: Flat) returns (r: Result<map<string, ConfigGroup>>)
    requires GROUP_PREFIX + path in m
    ensures r == AllOk(SubgroupsAt(path, group, m))
    decreases Room(path, m), 0
  {
    ghost var subs := SubgroupsAt(path, group, m);
    var groups: map<string, ConfigGroup> := map[];
    var done: set<string> := {};
    while done != group.groups.Keys
      invariant done == groups.Keys <= group.groups.Keys
      invariant forall k | k in groups :: subs[k] == Ok(groups[k])
      decreases group.groups.Keys - done
    {
      var key :| key in group.groups && key !in done;
      RoomShrinks(path, key, m);
      var updated := RecurseConfigMap(Child(path, key), m);
      assert updated == subs[key];
      if updated.Err? { return Err; }
      done := done + {key};
      groups := groups[key := updated.value];
    }
    AllOkIs(subs, groups);
    r := Ok(groups);
  }

  method CollectValues(path: string, group: ConfigGroup, m: Flat) returns (r: Result<map<string, ConfigValue>>)
    ensures r == AllOk(ValuesAt(path, group, m))
  {
    ghost var found := ValuesAt(path, group, m);
    var values: map<string, ConfigValue> := map[];
    var done: set<string> := {};
    while done != group.values.Keys
      invariant done == values.Keys <= group.values.Keys
      invariant forall k | k in values :: found[k] == Ok(values[k])
      decreases group.values.Keys - done
    {
      var key :| key in group.values && key !in done;
      var value := ValueAt(path, key, m);
      assert value == found[key];
      if value.Err? { return Err; }
      done := done + {key};
      values := values[key := value.value];
    }
    AllOkIs(found, values);
    r := Ok(values);
  }

  method CollectPolicies(path: string, group: ConfigGroup, m: Flat) returns (r: Result<map<string, ConfigPolicy>>)
    ensures r == AllOk(PoliciesAt(path, group, m))
  {
    ghost var found := PoliciesAt(path, group, m);
    var policies: map<string, ConfigPolicy> := map[];
    var done: set<string> := {};
    while done != group.policies.Keys
      invariant done == policies.Keys <= group.policies.Keys
      invariant forall k | k in policies :: found[k] == Ok(policies[k])
      decreases group.policies.Keys - done
    {
      var key :| key in group.policies && key !in done;
      var policy := PolicyAt(path, key, m);
      assert policy == found[key];
      if policy.Err? { return Err; }
      done := done + {key};
      policies := policies[key := policy.value];
    }
    AllOkIs(found, policies);
    r := Ok(policies);
  }

  /** The in-place upgrade of the values of a rebuilt group. */
  method FillValues(values: map<string, ConfigValue>) returns (filled: map<string, ConfigValue>)
    ensures filled == map k | k in values :: FilledValue(true, values[k])
  {
    filled := values;
    var done: set<string> := {};
    while done != values.Keys
      invariant done <= values.Keys == filled.Keys
      invariant forall k | k in values :: filled[k] == if k in done then FilledValue(true, values[k]) else values[k]
      decreases values.Keys - done
    {
      var key :| key in values && key !in done;
      if filled[key].modPolicy == "" {
        filled := filled[key := filled[key].(modPolicy := HACKY_FIX_NEW_MOD_POLICY)];
      }
      done := done + {key};
    }
  }

  method FillPolicies(policies: map<string, ConfigPolicy>) returns (filled: map<string, ConfigPolicy>)
    ensures filled == map k | k in policies :: FilledPolicy(true, policies[k])
  {
    filled := policies;
    var done: set<string> := {};
    while done != policies.Keys
      invariant done <= policies.Keys == filled.Keys
      invariant forall k | k in policies ::
        filled[k] == if k in done then FilledPolicy(true, policies[k]) else policies[k]
      decreases policies.Keys - done
    {
      var key :| key in policies && key !in done;
      if filled[key].modPolicy == "" {
        filled := filled[key := filled[key].(modPolicy := HACKY_FIX_NEW_MOD_POLICY)];
      }
      done := done + {key};
    }
  }

  /** The upgrade of one rebuilt group. */
  method FillEmptyModPolicies(group: ConfigGroup) returns (filled: ConfigGroup)
    ensures filled == FilledGroup(true, group)
  {
    filled := group;
    if filled.modPolicy == "" {
      filled := filled.(modPolicy := HACKY_FIX_NEW_MOD_POLICY);
    }
    var values := FillValues(filled.values);
    var policies := FillPolicies(filled.policies);
    filled := filled.(values := values, policies := policies);
  }

  lemma NothingToFill(g: ConfigGroup)
    ensures FilledGroup(false, g) == g
  {
    assert (map k | k in g.values :: FilledValue(false, g.values[k])) == g.values;
    assert (map k | k in g.policies :: FilledPolicy(false, g.policies[k])) == g.policies;
  }

  method RecurseConfigMap(path: string, m: Flat) returns (r: Result<ConfigGroup>)
    ensures r == Rebuild(path, m)
    decreases Room(path, m), 1
  {
    var groupPath := GROUP_PREFIX + path;
    if groupPath !in m || !m[groupPath].body.GroupBody? { return Err; }
    var group := m[groupPath].body.group;
    var groups := CollectGroups(path, group, m);
    if groups.Err? { return Err; }
    var values := CollectValues(path, group, m);
    if values.Err? { return Err; }
    var policies := CollectPolicies(path, group, m);
    if policies.Err? { return Err; }
    var newConfigGroup := ConfigGroup(group.version, groups.value, values.value, policies.value, group.modPolicy);
    NothingToFill(newConfigGroup);
    if HACKY_FIX_ORDERER_CAPABILITIES in m {
      newConfigGroup := FillEmptyModPolicies(newConfigGroup);
    }
    r := Ok(newConfigGroup);
  }

  ghost function ConfigMapToConfigSpec(m: Flat, rootGroupKey: string): Result<ConfigGroup> {
    Rebuild(PATH_SEPARATOR + rootGroupKey, m)
  }

  method ConfigMapToConfig(m: Flat, rootGroupKey: string) returns (r: Result<ConfigGroup>)
    ensures r == ConfigMapToConfigSpec(m, rootGroupKey)
  {
    r := RecurseConfigMap(PATH_SEPARATOR + rootGroupKey, m);
  }
}
