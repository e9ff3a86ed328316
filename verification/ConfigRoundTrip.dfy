/** Flattening and rebuilding are inverse to each other, up to the filling of empty mod_policy fields. */
module ConfigRoundTrip {
  import opened Wrappers
  import opened ConfigTree
  import opened ConfigPaths
  import opened ConfigMap
  import opened ConfigRebuild
  import opened ConfigCoherence

  /** Walking one step further finds a child exactly when the group reached declares it. */
  lemma {:induction false} DescendSnoc(g: ConfigGroup, kind: Kind, rel: seq<string>, k: string)
    ensures Descend(g, kind, rel + [k]).Some? <==>
      && Descend(g, GroupKind, rel).Some? && Descend(g, GroupKind, rel).value.GroupBody?
      && Declares(Descend(g, GroupKind, rel).value.group, kind, k)
    decreases |rel|
  {
    if rel == [] {
      assert rel + [k] == [k] && [k][1..] == [];
      assert k in g.groups ==> Descend(g.groups[k], GroupKind, []).Some?;
    } else {
      assert (rel + [k])[0] == rel[0] && (rel + [k])[1..] == rel[1..] + [k];
      if rel[0] in g.groups {
        DescendSnoc(g.groups[rel[0]], kind, rel[1..], k);
      }
    }
  }

  /** Every group on the way to an element exists. */
  lemma {:induction false} DescendPrefix(g: ConfigGroup, kind: Kind, rel: seq<string>, i: nat)
    requires Descend(g, kind, rel).Some? && i < |rel|
    ensures Descend(g, GroupKind, rel[..i]).Some? && Descend(g, GroupKind, rel[..i]).value.GroupBody?
    decreases i
  {
    if i == 0 {
      assert rel[..i] == [];
    } else {
      assert rel[0] in g.groups;
      assert rel[..i][0] == rel[0] && rel[..i][1..] == rel[1..][..i - 1];
      DescendPrefix(g.groups[rel[0]], kind, rel[1..], i - 1);
    }
  }

  /** A walk in a tree of legal names follows legal names. */
  lemma {:induction false} DescendLegal(key: string, g: ConfigGroup, kind: Kind, rel: seq<string>)
    requires LegalTree(key, g) && Descend(g, kind, rel).Some?
    ensures LegalPath(rel)
    decreases |rel|
  {
    if rel != [] {
      if rel[0] in g.groups && !(|rel| == 1 && kind != GroupKind) {
        DescendLegal(rel[0], g.groups[rel[0]], kind, rel[1..]);
      }
      forall i | 0 <= i < |rel| ensures ValidConfigID(rel[i]) {
        if i > 0 { assert rel[i] == rel[1..][i - 1]; }
      }
    }
  }

  lemma ElementLegal(ns: string, g: ConfigGroup, kind: Kind, segs: seq<string>)
    requires LegalTree(ns, g) && Element(ns, g, kind, segs).Some?
    ensures LegalPath(segs)
  {
    DescendLegal(ns, g, kind, segs[1..]);
    forall i | 0 <= i < |segs| ensures ValidConfigID(segs[i]) {
      if i > 0 { assert segs[i] == segs[1..][i - 1]; }
    }
  }

  /** `at` holds every element of the tree `t`, which hangs at `segs`. */
  ghost predicate Holds(at: (Kind, seq<string>) -> Option<Body>, segs: seq<string>, t: ConfigGroup)
    decreases t
  {
    && at(GroupKind, segs) == Some(GroupBody(t))
    && (forall k | k in t.groups :: Holds(at, segs + [k], t.groups[k]))
    && (forall k | k in t.values :: at(ValueKind, segs + [k]) == Some(ValueBody(t.values[k])))
    && (forall k | k in t.policies :: at(PolicyKind, segs + [k]) == Some(PolicyBody(t.policies[k])))
  }

  lemma {:induction false} HoldsItems(at: (Kind, seq<string>) -> Option<Body>, path: seq<string>, key: string,
                                      t: ConfigGroup)
    requires forall x | x in Items(path, key, t) :: at(x.body.Kind(), x.Segments()) == Some(x.body)
    ensures Holds(at, path + [key], t)
    decreases t
  {
    var own := Comparable(GroupBody(t), key, path);
    assert own in Items(path, key, t) && own.Segments() == path + [key];
    forall k | k in t.groups ensures Holds(at, path + [key] + [k], t.groups[k]) {
      forall x | x in Items(path + [key], k, t.groups[k])
        ensures x in Items(path, key, t)
      {
        ItemsHere(path, key, t, x);
      }
      HoldsItems(at, path + [key], k, t.groups[k]);
    }
    forall k | k in t.values ensures at(ValueKind, path + [key] + [k]) == Some(ValueBody(t.values[k])) {
      var x := Comparable(ValueBody(t.values[k]), k, path + [key]);
      ItemsHere(path, key, t, x);
    }
    forall k | k in t.policies ensures at(PolicyKind, path + [key] + [k]) == Some(PolicyBody(t.policies[k])) {
      var x := Comparable(PolicyBody(t.policies[k]), k, path + [key]);
      ItemsHere(path, key, t, x);
    }
  }

  /** A tree that mirrors a map holding `t` is `t` with its empty mod_policy fields filled. */
  lemma {:induction false} MirrorsHeld(on: bool, at: (Kind, seq<string>) -> Option<Body>, segs: seq<string>,
                                       t: ConfigGroup, t': ConfigGroup)
    requires Holds(at, segs, t) && Mirrors(on, at, segs, t')
    ensures t' == FilledTree(on, t)
    decreases t'
  {
    forall k | k in t'.groups ensures t'.groups[k] == FilledTree(on, t.groups[k]) {
      MirrorsHeld(on, at, segs + [k], t.groups[k], t'.groups[k]);
    }
    MirrorsHeldLeaves(on, at, segs, t, t');
    FilledTreeParts(on, t, t');
  }

  lemma FilledTreeParts(on: bool, t: ConfigGroup, t': ConfigGroup)
    requires t'.version == t.version && t'.modPolicy == Filled(on, t.modPolicy)
    requires t'.groups.Keys == t.groups.Keys && forall k | k in t'.groups :: t'.groups[k] == FilledTree(on, t.groups[k])
    requires t'.values == map k | k in t.values :: FilledValue(on, t.values[k])
    requires t'.policies == map k | k in t.policies :: FilledPolicy(on, t.policies[k])
    ensures t' == FilledTree(on, t)
  {
    assert t'.groups == map k | k in t.groups :: FilledTree(on, t.groups[k]);
  }

  lemma MirrorsHeldLeaves(on: bool, at: (Kind, seq<string>) -> Option<Body>, segs: seq<string>, t: ConfigGroup,
                          t': ConfigGroup)
    requires Holds(at, segs, t) && Mirrors(on, at, segs, t')
    ensures t'.values == map k | k in t.values :: FilledValue(on, t.values[k])
    ensures t'.policies == map k | k in t.policies :: FilledPolicy(on, t.policies[k])
  {
    forall k | k in t'.values ensures t'.values[k] == FilledValue(on, t.values[k]) {
      assert MirrorsAt(on, at, ValueKind, segs + [k], ValueBody(t'.values[k]));
    }
    forall k | k in t'.policies ensures t'.policies[k] == FilledPolicy(on, t.policies[k]) {
      assert MirrorsAt(on, at, PolicyKind, segs + [k], PolicyBody(t'.policies[k]));
    }
  }

  /** A flattened tree is a coherent map. */
  lemma FlattenCoherent(ns: string, g: ConfigGroup)
    requires LegalTree(ns, g)
    ensures Coherent(ns, Flatten(ns, g))
  {
    var m := Flatten(ns, g);
    forall s | s in m ensures FqPathOf(m[s]) == s && LegalPath(m[s].Segments()) { FlattenEntry(ns, g, s); }
    FlattenElement(ns, g, Comparable(GroupBody(g), ns, []));
    assert FqPathOf(Comparable(GroupBody(g), ns, [])) == FqPath(GroupKind, [ns]);
    forall s, kind, k | s in m && m[s].body.GroupBody? && Declares(m[s].body.group, kind, k)
      ensures ValidConfigID(k) && FqPath(kind, m[s].Segments() + [k]) in m
    {
      FlattenEntry(ns, g, s);
      FlattenChild(ns, g, m[s].body.group, m[s].Segments(), kind, k);
    }
  }

  lemma FlattenChild(ns: string, g: ConfigGroup, parent: ConfigGroup, segs: seq<string>, kind: Kind, k: string)
    requires LegalTree(ns, g) && Element(ns, g, GroupKind, segs) == Some(GroupBody(parent)) && Declares(parent, kind, k)
    ensures ValidConfigID(k) && FqPath(kind, segs + [k]) in Flatten(ns, g)
  {
    DescendSnoc(g, kind, segs[1..], k);
    var full := segs + [k];
    assert full[1..] == segs[1..] + [k] && full[0] == ns;
    assert Element(ns, g, kind, full).Some?;
    ElementLegal(ns, g, kind, full);
    assert k == full[|segs|];
    DescendKind(g, kind, full[1..]);
    var x := Comparable(Element(ns, g, kind, full).value, k, segs);
    FlattenElement(ns, g, x);
  }

  lemma FlattenHolds(ns: string, g: ConfigGroup)
    requires LegalTree(ns, g)
    ensures Holds(View(Flatten(ns, g)), [ns], g)
  {
    forall x | x in Items([], ns, g) ensures View(Flatten(ns, g))(x.body.Kind(), x.Segments()) == Some(x.body) {
      FlattenAt(ns, g, x);
    }
    HoldsItems(View(Flatten(ns, g)), [], ns, g);
    assert [] + [ns] == [ns];
  }

  lemma RootPath(ns: string)
    ensures PathString([ns]) == PATH_SEPARATOR + ns
  {
    assert [ns][..0] == [];
  }

  lemma CoherentRebuilds(ns: string, m: Flat)
    requires Coherent(ns, m)
    ensures ConfigMapToConfigSpec(m, ns).Ok?
  {
    RootPath(ns);
    RebuildSucceeds(m, [ns]);
  }

  /** A coherent map yields a tree of legal names that mirrors it. */
  lemma CoherentTree(ns: string, m: Flat)
    requires Coherent(ns, m)
    ensures ConfigMapToConfigSpec(m, ns).Ok?
    ensures LegalTree(ns, ConfigMapToConfigSpec(m, ns).value)
    ensures Mirrors(FixOn(m), View(m), [ns], ConfigMapToConfigSpec(m, ns).value)
  {
    RootPath(ns);
    RebuiltLegal(m, [ns]);
    RebuiltMirrors(m, [ns]);
  }

  /** Flatten, then rebuild: the same tree, with empty mod_policy fields filled
      if the orderer Capabilities value is there. */
  lemma RoundTrip(ns: string, g: ConfigGroup)
    requires LegalTree(ns, g)
    ensures ConfigMapToConfigSpec(Flatten(ns, g), ns) == Ok(FilledTree(HasCapabilities(ns, g), g))
  {
    var m := Flatten(ns, g);
    FlattenCoherent(ns, g);
    CoherentTree(ns, m);
    FlattenHolds(ns, g);
    MirrorsHeld(FixOn(m), View(m), [ns], g, ConfigMapToConfigSpec(m, ns).value);
    FixOnFlatten(ns, g);
  }

  const CAPABILITIES_PATH := ["Channel", "Orderer", "Capabilities"]

  ghost predicate HasCapabilities(ns: string, g: ConfigGroup) {
    Element(ns, g, ValueKind, CAPABILITIES_PATH).Some?
  }

  lemma CapabilitiesPathLegal()
    ensures LegalPath(CAPABILITIES_PATH)
  {
    assert ValidConfigID("Channel");
    assert ValidConfigID("Orderer");
    assert ValidConfigID("Capabilities");
  }

  lemma CapabilitiesPathString()
    ensures FqPath(ValueKind, CAPABILITIES_PATH) == HACKY_FIX_ORDERER_CAPABILITIES
  {
    calc {
      PathString(CAPABILITIES_PATH);
      { PathStringSnoc(["Channel", "Orderer"], "Capabilities");
        assert ["Channel", "Orderer"] + ["Capabilities"] == CAPABILITIES_PATH; }
      PathString(["Channel", "Orderer"]) + PATH_SEPARATOR + "Capabilities";
      { PathStringSnoc(["Channel"], "Orderer");
        assert ["Channel"] + ["Orderer"] == ["Channel", "Orderer"]; }
      PathString(["Channel"]) + PATH_SEPARATOR + "Orderer" + PATH_SEPARATOR + "Capabilities";
      { RootPath("Channel"); }
      PATH_SEPARATOR + "Channel" + PATH_SEPARATOR + "Orderer" + PATH_SEPARATOR + "Capabilities";
    }
  }

  lemma FixOnFlatten(ns: string, g: ConfigGroup)
    requires LegalTree(ns, g)
    ensures FixOn(Flatten(ns, g)) == HasCapabilities(ns, g)
  {
    CapabilitiesPathLegal();
    CapabilitiesPathString();
    ReadFlatten(ns, g, ValueKind, CAPABILITIES_PATH);
  }

  /** Reading the flat map at a legal address is walking the tree to that address. */
  lemma ReadFlatten(ns: string, g: ConfigGroup, kind: Kind, segs: seq<string>)
    requires LegalTree(ns, g) && segs != [] && LegalPath(segs)
    ensures View(Flatten(ns, g))(kind, segs) == Element(ns, g, kind, segs)
  {
    if Element(ns, g, kind, segs).Some? {
      ElementInFlatten(ns, g, kind, segs);
    } else if FqPath(kind, segs) in Flatten(ns, g) {
      EntryOfFlatten(ns, g, kind, segs);
    }
  }

  lemma EntryOfFlatten(ns: string, g: ConfigGroup, kind: Kind, segs: seq<string>)
    requires LegalTree(ns, g) && segs != [] && LegalPath(segs) && FqPath(kind, segs) in Flatten(ns, g)
    ensures Element(ns, g, kind, segs).Some?
  {
    var x := Flatten(ns, g)[FqPath(kind, segs)];
    FlattenEntry(ns, g, FqPath(kind, segs));
    FqPathInjective(kind, segs, x.body.Kind(), x.Segments());
  }

  /** An element as the item the flat map stores for it. */
  function ItemAt(b: Body, segs: seq<string>): (x: Comparable)
    requires segs != []
    ensures x.body == b && x.Segments() == segs
  {
    Comparable(b, segs[|segs| - 1], segs[..|segs| - 1])
  }

  lemma ElementInFlatten(ns: string, g: ConfigGroup, kind: Kind, segs: seq<string>)
    requires LegalTree(ns, g) && Element(ns, g, kind, segs).Some?
    ensures var b := Element(ns, g, kind, segs).value;
      && b.Kind() == kind && FqPath(kind, segs) in Flatten(ns, g)
      && Flatten(ns, g)[FqPath(kind, segs)] == ItemAt(b, segs)
  {
    DescendKind(g, kind, segs[1..]);
    FlattenElement(ns, g, ItemAt(Element(ns, g, kind, segs).value, segs));
  }

  /** The fix gives the policy "Admins" to the elements that have none, and changes nothing else. */
  lemma {:induction false} FilledTreeIs(on: bool, g: ConfigGroup, kind: Kind, rel: seq<string>)
    ensures Descend(FilledTree(on, g), kind, rel).Some? <==> Descend(g, kind, rel).Some?
    ensures Descend(g, kind, rel).Some? ==>
      var before, after := Descend(g, kind, rel).value, Descend(FilledTree(on, g), kind, rel).value;
      && after.Version() == before.Version() && after.Kind() == before.Kind()
      && after.ModPolicy() == (if on && before.ModPolicy() == "" then "Admins" else before.ModPolicy())
      && (before.ValueBody? ==> after.value.content == before.value.content)
      && (before.PolicyBody? ==> after.policy.policy == before.policy.policy)
    decreases |rel|
  {
    if rel != [] && rel[0] in g.groups && !(|rel| == 1 && kind != GroupKind) {
      FilledTreeIs(on, g.groups[rel[0]], kind, rel[1..]);
    }
  }

  /** So after the fix no element is left without a mod_policy. */
  lemma FilledTreeHasNoEmptyModPolicy(g: ConfigGroup, kind: Kind, rel: seq<string>)
    requires Descend(FilledTree(true, g), kind, rel).Some?
    ensures Descend(FilledTree(true, g), kind, rel).value.ModPolicy() != ""
  {
    FilledTreeIs(true, g, kind, rel);
  }
}
