/** The tree of policy managers with its flattened index of policies. */
module PolicyManager {
  import opened Wrappers
  import opened ConfigTree
  import opened ConfigPaths

  /** A compiled policy; which signatures it accepts is given by an evaluation function. */
  datatype Compiled = Compiled(handle: nat)

  datatype Manager = Manager(path: string, policies: map<string, Compiled>, managers: map<string, Manager>)

  /** Policy providers: compile a policy, which may refer to the managers of the subgroups. */
  type Provider = (Policy, map<string, Manager>) -> Option<Compiled>

  /** Looking a policy up finds it, yields the policy that rejects everything, or crashes. */
  datatype Lookup = Found(policy: Compiled) | RejectAll | Panic

  function Joined(group: string, name: string): string {
    group + PATH_SEPARATOR + name
  }

  /** `s` cut at its first slash. */
  function Cut(s: string): Option<(string, string)> {
    if s == "" then None
    else if s[0] == '/' then Some(("", s[1..]))
    else match Cut(s[1..])
      case None => None
      case Some((a, b)) => Some(([s[0]] + a, b))
  }

  lemma {:induction false} CutJoined(g: string, p: string)
    requires SlashFree(g)
    ensures Cut(Joined(g, p)) == Some((g, p))
  {
    var s := Joined(g, p);
    if g == "" {
      assert s[1..] == p;
    } else {
      assert g[0] in g;
      assert forall c | c in g[1..] :: c in g;
      assert s[1..] == Joined(g[1..], p);
      CutJoined(g[1..], p);
      assert [g[0]] + g[1..] == g;
    }
  }

  lemma {:induction false} CutSlashFree(s: string)
    ensures SlashFree(s) <==> Cut(s).None?
  {
    if s != "" {
      CutSlashFree(s[1..]);
      assert s == [s[0]] + s[1..];
    }
  }

  // ----- building the manager tree -----

  ghost predicate SlashFreeTree(g: ConfigGroup)
    decreases g
  {
    && (forall k | k in g.groups :: SlashFree(k) && SlashFreeTree(g.groups[k]))
    && (forall k | k in g.policies :: SlashFree(k))
  }

  ghost predicate SlashFreeKeys(managers: map<string, Manager>) {
    forall k | k in managers :: SlashFree(k)
  }

  ghost function NestedNames(managers: map<string, Manager>): set<string> {
    set g, p | g in managers && p in managers[g].policies :: Joined(g, p)
  }

  lemma NestedCut(managers: map<string, Manager>, s: string)
    requires SlashFreeKeys(managers)
    ensures s in NestedNames(managers) <==>
      Cut(s).Some? && Cut(s).value.0 in managers && Cut(s).value.1 in managers[Cut(s).value.0].policies
  {
    if s in NestedNames(managers) {
      var g, p :| g in managers && p in managers[g].policies && s == Joined(g, p);
      CutJoined(g, p);
    }
    if Cut(s).Some? {
      CutParts(s);
    }
  }

  lemma {:induction false} CutParts(s: string)
    requires Cut(s).Some?
    ensures s == Joined(Cut(s).value.0, Cut(s).value.1) && SlashFree(Cut(s).value.0)
  {
    if s[0] == '/' {
      assert s == "/" + s[1..];
    } else {
      CutParts(s[1..]);
      JoinedCons(s[0], Cut(s[1..]).value.0, Cut(s[1..]).value.1);
      assert s == [s[0]] + s[1..];
    }
  }

  lemma JoinedCons(c: char, a: string, b: string)
    ensures [c] + Joined(a, b) == Joined([c] + a, b)
  {
  }

  /** The policies of the subgroups, each under its group's name and a slash. */
  ghost function Nested(managers: map<string, Manager>): map<string, Compiled>
    requires SlashFreeKeys(managers)
  {
    assert forall s | s in NestedNames(managers) ::
      Cut(s).Some? && Cut(s).value.0 in managers && Cut(s).value.1 in managers[Cut(s).value.0].policies
    by {
      forall s | s in NestedNames(managers)
        ensures Cut(s).Some? && Cut(s).value.0 in managers && Cut(s).value.1 in managers[Cut(s).value.0].policies
      {
        NestedCut(managers, s);
      }
    }
    map s | s in NestedNames(managers) :: managers[Cut(s).value.0].policies[Cut(s).value.1]
  }

  ghost function BuildSubmanagers(path: string, compile: Provider, root: ConfigGroup): map<string, Option<Manager>>
    requires SlashFreeTree(root)
    decreases root, 0
  {
    map k | k in root.groups :: Build(Joined(path, k), compile, root.groups[k])
  }

  ghost function CompileAll(compile: Provider, managers: map<string, Manager>, policies: map<string, ConfigPolicy>)
    : map<string, Option<Compiled>>
  {
    map p | p in policies ::
      if policies[p].policy.None? then None else compile(policies[p].policy.value, managers)
  }

  ghost function AllSome<T>(rs: map<string, Option<T>>): Option<map<string, T>> {
    if forall k | k in rs :: rs[k].Some? then Some(map k | k in rs :: rs[k].value) else None
  }

  /** The manager of a group: the managers of its subgroups, its own policies and theirs. */
  ghost function Build(path: string, compile: Provider, root: ConfigGroup): (r: Option<Manager>)
    requires SlashFreeTree(root)
    decreases root, 1
  {
    var managers := AllSome(BuildSubmanagers(path, compile, root));
    if managers.None? then None
    else
      var own := AllSome(CompileAll(compile, managers.value, root.policies));
      if own.None? then None
      else Some(Manager(path, own.value + Nested(managers.value), managers.value))
  }

  // ----- lookups -----

  function SubManager(pm: Manager, path: seq<string>): Option<Manager>
    decreases |path|
  {
    if path == [] then Some(pm)
    else if path[0] !in pm.managers then None
    else SubManager(pm.managers[path[0]], path[1..])
  }

  function GetPolicy(pm: Manager, id: string): Lookup {
    if id == "" then RejectAll
    else if id[0] == '/' then
      if !(PATH_SEPARATOR + pm.path <= id) then RejectAll
      else if |id| < |pm.path| + 2 then Panic
      else Indexed(pm, id[|pm.path| + 2..])
    else Indexed(pm, id)
  }

  function Indexed(pm: Manager, relpath: string): Lookup {
    if relpath in pm.policies then Found(pm.policies[relpath]) else RejectAll
  }

  /** The relative id of a policy: group names and policy name joined by slashes. */
  function RelativeId(names: seq<string>): string
    requires names != []
  {
    if |names| == 1 then names[0] else Joined(names[0], RelativeId(names[1..]))
  }

  ghost predicate SlashFreeNames(names: seq<string>) {
    forall i | 0 <= i < |names| :: names[i] != "" && SlashFree(names[i])
  }

  /** What walking to the manager of the groups and asking it for the policy by its own name yields. */
  ghost function WalkThenAsk(pm: Manager, groups: seq<string>, name: string): Lookup {
    match SubManager(pm, groups)
    case None => RejectAll
    case Some(m) => GetPolicy(m, name)
  }

  lemma BuildLevel(path: string, compile: Provider, root: ConfigGroup, g: string, s: string)
    requires SlashFreeTree(root) && Build(path, compile, root).Some? && SlashFree(g)
    ensures var m := Build(path, compile, root).value;
      && m.managers.Keys == root.groups.Keys
      && (Joined(g, s) in m.policies <==> g in m.managers && s in m.managers[g].policies)
      && (Joined(g, s) in m.policies ==> m.policies[Joined(g, s)] == m.managers[g].policies[s])
      && (g in m.managers ==> Build(Joined(path, g), compile, root.groups[g]) == Some(m.managers[g]))
  {
    var m := Build(path, compile, root).value;
    assert BuildSubmanagers(path, compile, root).Keys == root.groups.Keys;
    CutJoined(g, s);
    CutSlashFree(Joined(g, s));
    NestedCut(m.managers, Joined(g, s));
    if g in m.managers {
      assert BuildSubmanagers(path, compile, root)[g].Some?;
    }
  }

  /** The flat index agrees with the tree: asking the root is walking down and asking there. */
  lemma {:induction false} FlatIndexAgrees(path: string, compile: Provider, root: ConfigGroup, groups: seq<string>,
                                           name: string)
    requires SlashFreeTree(root) && Build(path, compile, root).Some? && SlashFreeNames(groups + [name])
    ensures var m := Build(path, compile, root).value;
      && Indexed(m, RelativeId(groups + [name])) == WalkThenAsk(m, groups, name)
    decreases |groups|
  {
    var m := Build(path, compile, root).value;
    var names := groups + [name];
    assert name == names[|groups|];
    if groups == [] {
      assert RelativeId(names) == name;
      assert name[0] in name;
    } else {
      assert names[0] == groups[0] && names[1..] == groups[1..] + [name];
      assert SlashFreeNames(names[1..]) by {
        forall i | 0 <= i < |names| - 1 ensures names[1..][i] != "" && SlashFree(names[1..][i]) {
          assert names[1..][i] == names[i + 1];
        }
      }
      BuildLevel(path, compile, root, groups[0], RelativeId(names[1..]));
      if groups[0] in root.groups {
        FlatIndexAgrees(Joined(path, groups[0]), compile, root.groups[groups[0]], groups[1..], name);
      }
    }
  }

  /** Relative and absolute ids at the root name the same policy as the walk, with the same found flag. */
  lemma PolicyIdsAgree(path: string, compile: Provider, root: ConfigGroup, groups: seq<string>, name: string)
    requires SlashFreeTree(root) && Build(path, compile, root).Some? && SlashFreeNames(groups + [name])
    ensures
      var m, rel := Build(path, compile, root).value, RelativeId(groups + [name]);
      && GetPolicy(m, rel) == WalkThenAsk(m, groups, name)
      && GetPolicy(m, PATH_SEPARATOR + path + PATH_SEPARATOR + rel) == WalkThenAsk(m, groups, name)
  {
    var m, rel := Build(path, compile, root).value, RelativeId(groups + [name]);
    FlatIndexAgrees(path, compile, root, groups, name);
    RelativeIdStart(groups + [name]);
    var id := PATH_SEPARATOR + path + PATH_SEPARATOR + rel;
    assert PATH_SEPARATOR + path <= id;
    assert id[|path| + 2..] == rel;
  }

  /** An absolute id is found exactly if it is the manager's own path, one more character, whatever it is, and the
      relative id of a policy; it panics exactly if it is that path alone. */
  lemma AbsoluteIds(pm: Manager, id: string)
    requires id != "" && id[0] == '/'
    ensures GetPolicy(pm, id) == Panic <==> id == "/" + pm.path
    ensures forall policy :: GetPolicy(pm, id) == Found(policy) <==>
      exists c, rel :: rel in pm.policies && pm.policies[rel] == policy && id == "/" + pm.path + [c] + rel
  {
    var own := "/" + pm.path;
    if own <= id && |id| > |own| {
      assert id == own + [id[|own|]] + id[|own| + 1..];
    }
    forall c, rel | id == own + [c] + rel ensures own <= id && id[|pm.path| + 2..] == rel {}
  }

  /** Ids under another path are rejected, if the path does not merely begin like the manager's. */
  lemma ForeignIdsRejected(pm: Manager, id: string)
    requires id != "" && id[0] == '/' && !(pm.path <= id[1..])
    ensures GetPolicy(pm, id) == RejectAll
  {
  }

  /** The character after the path need not be a slash: an id of another group can name a policy of this one. */
  lemma SeparatorIgnored(pm: Manager, name: string)
    requires name in pm.policies
    ensures GetPolicy(pm, "/" + pm.path + "x" + name) == Found(pm.policies[name])
  {
    var id := "/" + pm.path + "x" + name;
    assert "/" + pm.path <= id && id[|pm.path| + 2..] == name;
  }

  lemma RelativeIdStart(names: seq<string>)
    requires names != [] && SlashFreeNames(names)
    ensures RelativeId(names) != "" && RelativeId(names)[0] != '/'
  {
    assert names[0] != "" && names[0][0] in names[0];
    assert RelativeId(names)[0] == names[0][0];
  }

  // ----- the construction with its loops -----

  lemma AllSomeIs<T>(rs: map<string, Option<T>>, vs: map<string, T>)
    requires rs.Keys == vs.Keys && forall k | k in vs :: rs[k] == Some(vs[k])
    ensures AllSome(rs) == Some(vs)
  {
    assert (map k | k in rs :: rs[k].value) == vs;
  }

  method NewManagers(path: string, compile: Provider, root: ConfigGroup) returns (r: Option<map<string, Manager>>)
    ensures SlashFreeTree(root) ==> r == AllSome(BuildSubmanagers(path, compile, root))
    ensures r.Some? ==> r.value.Keys == root.groups.Keys
    decreases root, 0
  {
    ghost var legal := SlashFreeTree(root);
    ghost var goal := if legal then BuildSubmanagers(path, compile, root) else map[];
    var managers: map<string, Manager> := map[];
    var done: set<string> := {};
    while done != root.groups.Keys
      invariant done == managers.Keys <= root.groups.Keys
      invariant legal ==> forall k | k in managers :: goal[k] == Some(managers[k])
      decreases root.groups.Keys - done
    {
      var groupName :| groupName in root.groups && groupName !in done;
      var m := NewManagerImpl(Joined(path, groupName), compile, root.groups[groupName]);
      assert legal ==> goal[groupName] == m;
      if m.None? { return None; }
      done := done + {groupName};
      managers := managers[groupName := m.value];
    }
    if legal { AllSomeIs(goal, managers); }
    r := Some(managers);
  }

  method CompilePolicies(compile: Provider, managers: map<string, Manager>, policies: map<string, ConfigPolicy>)
    returns (r: Option<map<string, Compiled>>)
    ensures r == AllSome(CompileAll(compile, managers, policies))
  {
    ghost var goal := CompileAll(compile, managers, policies);
    var compiled: map<string, Compiled> := map[];
    var done: set<string> := {};
    while done != policies.Keys
      invariant done == compiled.Keys <= policies.Keys
      invariant forall k | k in compiled :: goal[k] == Some(compiled[k])
      decreases policies.Keys - done
    {
      var policyName :| policyName in policies && policyName !in done;
      var policy := policies[policyName].policy;
      if policy.None? { assert goal[policyName].None?; return None; }
      var cPolicy := compile(policy.value, managers);
      assert goal[policyName] == cPolicy;
      if cPolicy.None? { return None; }
      done := done + {policyName};
      compiled := compiled[policyName := cPolicy.value];
    }
    AllSomeIs(goal, compiled);
    r := Some(compiled);
  }

  /** The inner loop: one subgroup's policies under joined names. */
  method AddNested(policies: map<string, Compiled>, groupName: string, sub: map<string, Compiled>)
    returns (r: map<string, Compiled>)
    ensures SlashFree(groupName) ==>
      && (forall s :: s in r <==>
          s in policies || (Cut(s).Some? && Cut(s).value.0 == groupName && Cut(s).value.1 in sub))
      && (forall s | s in r :: r[s] ==
            if Cut(s).Some? && Cut(s).value.0 == groupName && Cut(s).value.1 in sub then sub[Cut(s).value.1]
            else policies[s])
  {
    r := policies;
    var done: set<string> := {};
    while done != sub.Keys
      invariant done <= sub.Keys
      invariant SlashFree(groupName) ==>
        && (forall s :: s in r <==>
            s in policies || (Cut(s).Some? && Cut(s).value.0 == groupName && Cut(s).value.1 in done))
        && (forall s | s in r :: r[s] ==
              if Cut(s).Some? && Cut(s).value.0 == groupName && Cut(s).value.1 in done then sub[Cut(s).value.1]
              else policies[s])
      decreases sub.Keys - done
    {
      var policyName :| policyName in sub && policyName !in done;
      if SlashFree(groupName) {
        CutJoined(groupName, policyName);
        forall s | Cut(s) == Some((groupName, policyName)) ensures s == Joined(groupName, policyName) { CutParts(s); }
      }
      r := r[Joined(groupName, policyName) := sub[policyName]];
      done := done + {policyName};
    }
  }

  /** The outer loop: the policies of every subgroup. */
  method NestPolicies(own: map<string, Compiled>, managers: map<string, Manager>)
    returns (policies: map<string, Compiled>)
    ensures SlashFreeKeys(managers) ==> policies == own + Nested(managers)
  {
    policies := own;
    var done: set<string> := {};
    while done != managers.Keys
      invariant done <= managers.Keys
      invariant SlashFreeKeys(managers) ==> PartlyNested(own, managers, done, policies)
      decreases managers.Keys - done
    {
      var groupName :| groupName in managers && groupName !in done;
      policies := AddNested(policies, groupName, managers[groupName].policies);
      done := done + {groupName};
    }
    if SlashFreeKeys(managers) { FullyNested(own, managers, policies); }
  }

  method NewManagerImpl(path: string, compile: Provider, root: ConfigGroup) returns (r: Option<Manager>)
    ensures SlashFreeTree(root) ==> r == Build(path, compile, root)
    decreases root, 1
  {
    var managers := NewManagers(path, compile, root);
    if managers.None? { return None; }
    var own := CompilePolicies(compile, managers.value, root.policies);
    if own.None? { return None; }
    var policies := NestPolicies(own.value, managers.value);
    r := Some(Manager(path, policies, managers.value));
  }

  /** `policies` holds the own policies and those of the subgroups in `done`. */
  ghost predicate PartlyNested(own: map<string, Compiled>, managers: map<string, Manager>, done: set<string>,
                               policies: map<string, Compiled>)
  {
    && (forall s :: s in policies <==> s in own || IsNested(managers, done, s))
    && (forall s | s in policies :: policies[s] ==
          if IsNested(managers, done, s) then managers[Cut(s).value.0].policies[Cut(s).value.1] else own[s])
  }

  ghost predicate IsNested(managers: map<string, Manager>, done: set<string>, s: string) {
    Cut(s).Some? && Cut(s).value.0 in done && Cut(s).value.0 in managers
      && Cut(s).value.1 in managers[Cut(s).value.0].policies
  }

  lemma FullyNested(own: map<string, Compiled>, managers: map<string, Manager>, policies: map<string, Compiled>)
    requires SlashFreeKeys(managers) && PartlyNested(own, managers, managers.Keys, policies)
    ensures policies == own + Nested(managers)
  {
    forall s ensures IsNested(managers, managers.Keys, s) <==> s in Nested(managers) {
      NestedCut(managers, s);
    }
  }
}
