/** The policy managers and the config tree they are built from: which policy each name finds, and who may change
    what. */
module PolicyTree {
  import opened Wrappers
  import opened ConfigTree
  import opened ConfigPaths
  import opened ConfigMap
  import opened ConfigRoundTrip
  import opened PolicyManager
  import opened ConfigUpdate
  import opened ConfigSafety
  import opened ModPolicies

  lemma BuiltSubmanagers(path: string, compile: Provider, root: ConfigGroup)
    requires SlashFreeTree(root) && Build(path, compile, root).Some?
    ensures var m := Build(path, compile, root).value;
      && m.managers.Keys == root.groups.Keys
      && forall k | k in root.groups :: Build(Joined(path, k), compile, root.groups[k]) == Some(m.managers[k])
  {
    var m := Build(path, compile, root).value;
    assert BuildSubmanagers(path, compile, root).Keys == root.groups.Keys;
    forall k | k in root.groups ensures Build(Joined(path, k), compile, root.groups[k]) == Some(m.managers[k]) {
      assert BuildSubmanagers(path, compile, root)[k].Some?;
    }
  }

  /** A group's manager has the group's own policies, compiled with the managers below, under their own names. */
  lemma OwnPolicies(path: string, compile: Provider, root: ConfigGroup, name: string)
    requires SlashFreeTree(root) && Build(path, compile, root).Some? && SlashFree(name)
    ensures var m := Build(path, compile, root).value;
      && (name in m.policies <==> name in root.policies)
      && (name in root.policies ==>
            && root.policies[name].policy.Some?
            && compile(root.policies[name].policy.value, m.managers) == Some(m.policies[name]))
  {
    var m := Build(path, compile, root).value;
    BuiltSubmanagers(path, compile, root);
    assert SlashFreeKeys(m.managers);
    CutSlashFree(name);
    NestedCut(m.managers, name);
    if name in root.policies {
      assert CompileAll(compile, m.managers, root.policies)[name].Some?;
    }
  }

  /** What compiling the policy of the config at an address gives, with the managers below its group. */
  ghost function CompiledAt(compile: Provider, pm: Manager, root: ConfigGroup, groups: seq<string>, name: string)
    : Lookup
  {
    match Descend(root, PolicyKind, groups + [name])
    case None => RejectAll
    case Some(b) =>
      if b.PolicyBody? && b.policy.policy.Some? && SubManager(pm, groups).Some?
        && compile(b.policy.policy.value, SubManager(pm, groups).value.managers).Some?
      then Found(compile(b.policy.policy.value, SubManager(pm, groups).value.managers).value)
      else Panic
  }

  lemma CompiledBelow(compile: Provider, pm: Manager, root: ConfigGroup, groups: seq<string>, name: string)
    requires groups != [] && pm.managers.Keys == root.groups.Keys
    ensures CompiledAt(compile, pm, root, groups, name)
         == if groups[0] in root.groups
            then CompiledAt(compile, pm.managers[groups[0]], root.groups[groups[0]], groups[1..], name)
            else RejectAll
  {
    var names := groups + [name];
    assert names[0] == groups[0] && names[1..] == groups[1..] + [name];
  }

  lemma WalkBelow(pm: Manager, groups: seq<string>, name: string)
    requires groups != []
    ensures WalkThenAsk(pm, groups, name)
         == if groups[0] in pm.managers then WalkThenAsk(pm.managers[groups[0]], groups[1..], name) else RejectAll
  {
  }

  lemma AskHere(path: string, compile: Provider, root: ConfigGroup, name: string)
    requires SlashFreeTree(root) && Build(path, compile, root).Some? && SlashFree(name) && name != ""
    ensures var m := Build(path, compile, root).value;
      WalkThenAsk(m, [], name) == CompiledAt(compile, m, root, [], name) != Panic
  {
    OwnPolicies(path, compile, root, name);
    assert [] + [name] == [name] && name[0] in name;
  }

  lemma NamesRest(groups: seq<string>, name: string)
    requires groups != [] && SlashFreeNames(groups + [name])
    ensures SlashFreeNames(groups[1..] + [name])
  {
    NamesAppend([groups[0]], groups[1..] + [name]);
    assert [groups[0]] + (groups[1..] + [name]) == groups + [name];
  }

  /** Walking to a group's manager and asking for a name finds the compiled policy that the config has there, and
      nothing where it has none. */
  lemma {:induction false} WalkFindsTree(path: string, compile: Provider, root: ConfigGroup, groups: seq<string>,
                                         name: string)
    requires SlashFreeTree(root) && Build(path, compile, root).Some? && SlashFreeNames(groups + [name])
    ensures var m := Build(path, compile, root).value;
      WalkThenAsk(m, groups, name) == CompiledAt(compile, m, root, groups, name) != Panic
    decreases |groups|
  {
    if groups == [] {
      assert name == (groups + [name])[0];
      AskHere(path, compile, root, name);
    } else {
      var m := Build(path, compile, root).value;
      BuiltSubmanagers(path, compile, root);
      WalkBelow(m, groups, name);
      CompiledBelow(compile, m, root, groups, name);
      if groups[0] in root.groups {
        NamesRest(groups, name);
        WalkFindsTree(Joined(path, groups[0]), compile, root.groups[groups[0]], groups[1..], name);
      }
    }
  }

  /** Every policy of the tree is there. */
  ghost predicate NoneAbsent(root: ConfigGroup)
    decreases root
  {
    && (forall k | k in root.policies :: root.policies[k].policy.Some?)
    && forall k | k in root.groups :: NoneAbsent(root.groups[k])
  }

  lemma BuildUnfold(path: string, compile: Provider, root: ConfigGroup)
    requires SlashFreeTree(root)
    ensures var subs := BuildSubmanagers(path, compile, root);
      Build(path, compile, root).Some? <==>
        && (forall k | k in root.groups :: subs[k].Some?)
        && AllSome(CompileAll(compile, map k | k in subs && subs[k].Some? :: subs[k].value, root.policies)).Some?
  {
    var subs := BuildSubmanagers(path, compile, root);
    if forall k | k in subs :: subs[k].Some? {
      assert AllSome(subs).value == map k | k in subs && subs[k].Some? :: subs[k].value;
    }
  }

  lemma AllCompile(compile: Provider, managers: map<string, Manager>, policies: map<string, ConfigPolicy>)
    requires forall p, managers :: compile(p, managers).Some?
    ensures AllSome(CompileAll(compile, managers, policies)).Some? <==>
            forall k | k in policies :: policies[k].policy.Some?
  {
    var own := CompileAll(compile, managers, policies);
    forall k | k in policies ensures own[k].Some? <==> policies[k].policy.Some? {}
  }

  /** With providers that compile everything, building fails exactly if some policy is absent. */
  lemma {:induction false} BuiltIff(path: string, compile: Provider, root: ConfigGroup)
    requires SlashFreeTree(root) && forall p, managers :: compile(p, managers).Some?
    ensures Build(path, compile, root).Some? <==> NoneAbsent(root)
    decreases root
  {
    forall k | k in root.groups
      ensures BuildSubmanagers(path, compile, root)[k].Some? <==> NoneAbsent(root.groups[k])
    {
      BuiltIff(Joined(path, k), compile, root.groups[k]);
    }
    BuildUnfold(path, compile, root);
    var subs := BuildSubmanagers(path, compile, root);
    AllCompile(compile, map k | k in subs && subs[k].Some? :: subs[k].value, root.policies);
  }

  /** Who may change an element with a relative mod_policy: signers that satisfy the policy which the config has under
      the element's own group. */
  lemma AuthorityIs(v: Validator, path: string, compile: Provider, signedData: seq<SignedData>, segs: seq<string>,
                    b: Body, rel: seq<string>, name: string)
    requires SlashFreeTree(v.channelGroup) && Build(path, compile, v.channelGroup) == Some(v.pm) && segs != []
    requires b.ModPolicy() == RelativeId(rel + [name]) && SlashFreeNames(OwnGroups(ItemAt(b, segs)) + (rel + [name]))
    ensures Authority(v, signedData)(segs, b) <==>
            match CompiledAt(compile, v.pm, v.channelGroup, OwnGroups(ItemAt(b, segs)) + rel, name)
            case Found(policy) => v.satisfied(policy, signedData)
            case RejectAll => false
            case Panic => false
  {
    var own := OwnGroups(ItemAt(b, segs));
    assert own + (rel + [name]) == (own + rel) + [name];
    RelativeModPolicy(path, compile, v.channelGroup, ItemAt(b, segs), rel, name);
    WalkFindsTree(path, compile, v.channelGroup, own + rel, name);
  }

  /** And with an absolute one: signers that satisfy the policy which the config has at that path from the root. */
  lemma AbsoluteAuthorityIs(v: Validator, path: string, compile: Provider, signedData: seq<SignedData>,
                            segs: seq<string>, b: Body, groups: seq<string>, name: string)
    requires SlashFreeTree(v.channelGroup) && Build(path, compile, v.channelGroup) == Some(v.pm) && segs != []
    requires SlashFreeNames(groups + [name]) && b.ModPolicy() == "/" + path + "/" + RelativeId(groups + [name])
    ensures Authority(v, signedData)(segs, b) <==>
            match CompiledAt(compile, v.pm, v.channelGroup, groups, name)
            case Found(policy) => v.satisfied(policy, signedData)
            case RejectAll => false
            case Panic => false
  {
    AbsoluteModPolicy(path, compile, v.channelGroup, ItemAt(b, segs), groups, name);
    WalkFindsTree(path, compile, v.channelGroup, groups, name);
  }
}
