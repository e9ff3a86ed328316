/** Which policy a mod_policy names. */
module ModPolicies {
  import opened Wrappers
  import opened ConfigTree
  import opened ConfigPaths
  import opened PolicyManager
  import opened ConfigUpdate

  /** The groups, below the root, that an element's relative mod_policy is looked up under. */
  function OwnGroups(item: Comparable): seq<string> {
    if item.path == [] then []
    else item.path[1..] + if item.body.GroupBody? then [item.key] else []
  }

  lemma {:induction false} SubManagerConcat(pm: Manager, a: seq<string>, b: seq<string>)
    ensures SubManager(pm, a + b) == match SubManager(pm, a) case None => None case Some(m) => SubManager(m, b)
    decreases |a|
  {
    if a == [] {
      assert a + b == b;
    } else {
      assert (a + b)[0] == a[0] && (a + b)[1..] == a[1..] + b;
      if a[0] in pm.managers {
        SubManagerConcat(pm.managers[a[0]], a[1..], b);
      }
    }
  }

  /** A manager reached by a walk is the manager of the group reached by the same walk. */
  lemma {:induction false} SubManagerIsBuilt(path: string, compile: Provider, root: ConfigGroup, groups: seq<string>)
    returns (path': string, root': ConfigGroup)
    requires SlashFreeTree(root) && Build(path, compile, root).Some? && SlashFreeNames(groups)
    requires SubManager(Build(path, compile, root).value, groups).Some?
    ensures SlashFreeTree(root') && Build(path', compile, root') == SubManager(Build(path, compile, root).value, groups)
    decreases |groups|
  {
    if groups == [] {
      path', root' := path, root;
    } else {
      BuildLevel(path, compile, root, groups[0], "");
      path', root' := SubManagerIsBuilt(Joined(path, groups[0]), compile, root.groups[groups[0]], groups[1..]);
    }
  }

  lemma NamesAppend(a: seq<string>, b: seq<string>)
    ensures SlashFreeNames(a + b) <==> SlashFreeNames(a) && SlashFreeNames(b)
  {
    if SlashFreeNames(a + b) {
      forall i | 0 <= i < |a| ensures a[i] != "" && SlashFree(a[i]) { assert a[i] == (a + b)[i]; }
      forall i | 0 <= i < |b| ensures b[i] != "" && SlashFree(b[i]) { assert b[i] == (a + b)[|a| + i]; }
    }
  }

  /** A relative mod_policy names the policy found by walking from the root to the element's own group,
      then down the mod_policy's own group names. */
  lemma RelativeModPolicy(path: string, compile: Provider, root: ConfigGroup, item: Comparable, rel: seq<string>,
                          name: string)
    requires SlashFreeTree(root) && Build(path, compile, root).Some?
    requires SlashFreeNames(OwnGroups(item) + (rel + [name])) && item.body.ModPolicy() == RelativeId(rel + [name])
    ensures var pm := Build(path, compile, root).value;
      PolicyForItem(pm, item) == WalkThenAsk(pm, OwnGroups(item) + rel, name)
  {
    var pm, own := Build(path, compile, root).value, OwnGroups(item);
    NamesAppend(own, rel + [name]);
    RelativeIdStart(rel + [name]);
    SubManagerConcat(pm, own, rel);
    if item.path != [] && item.body.GroupBody? {
      SubManagerConcat(pm, item.path[1..], [item.key]);
    }
    assert item.path != [] && !item.body.GroupBody? ==> own == item.path[1..];
    if SubManager(pm, own).Some? {
      var path', root' := SubManagerIsBuilt(path, compile, root, own);
      PolicyIdsAgree(path', compile, root', rel, name);
    }
  }

  /** An absolute mod_policy names the policy found by walking from the root. */
  lemma AbsoluteModPolicy(path: string, compile: Provider, root: ConfigGroup, item: Comparable, groups: seq<string>,
                          name: string)
    requires SlashFreeTree(root) && Build(path, compile, root).Some? && SlashFreeNames(groups + [name])
    requires item.body.ModPolicy() == PATH_SEPARATOR + path + PATH_SEPARATOR + RelativeId(groups + [name])
    ensures var pm := Build(path, compile, root).value;
      PolicyForItem(pm, item) == WalkThenAsk(pm, groups, name)
  {
    PolicyIdsAgree(path, compile, root, groups, name);
  }
}
