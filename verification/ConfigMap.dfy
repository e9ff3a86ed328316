/** Flattening a config tree to a map keyed by path strings. */
module ConfigMap {
  import opened Wrappers
  import opened Indexing
  import opened ConfigTree
  import opened ConfigPaths

  type Flat = map<string, Comparable>

  // ----- flattening -----

  /** A naming of elements that never confuses two legal addresses. */
  ghost predicate TellsApart(name: Comparable -> string) {
    forall x: Comparable, y: Comparable | LegalPath(x.Segments()) && LegalPath(y.Segments()) && name(x) == name(y) ::
      x.body.Kind() == y.body.Kind() && x.Segments() == y.Segments()
  }

  lemma FqPathTellsApart()
    ensures TellsApart(FqPathOf)
  {
    forall x: Comparable, y: Comparable | LegalPath(x.Segments()) && LegalPath(y.Segments()) && FqPathOf(x)
      == FqPathOf(y)
      ensures x.body.Kind() == y.body.Kind() && x.Segments() == y.Segments()
    {
      FqPathInjective(x.body.Kind(), x.Segments(), y.body.Kind(), y.Segments());
    }
  }

  lemma {:induction false} ItemsLegal(path: seq<string>, key: string, g: ConfigGroup, x: Comparable)
    requires LegalPath(path) && LegalTree(key, g) && x in Items(path, key, g)
    ensures LegalPath(x.Segments())
    decreases g
  {
    ItemsHere(path, key, g, x);
    if k :| k in g.groups && x in Items(path + [key], k, g.groups[k]) {
      ItemsLegal(path + [key], k, g.groups[k], x);
    }
  }

  lemma SegmentsDetermine(x: Comparable, y: Comparable)
    requires x.Segments() == y.Segments()
    ensures x.path == y.path && x.key == y.key
  {
    assert x.path == x.Segments()[..|x.Segments()| - 1] && y.path == y.Segments()[..|y.Segments()| - 1];
    assert x.key == x.Segments()[|x.Segments()| - 1] && y.key == y.Segments()[|y.Segments()| - 1];
  }

  /** In a tree of legal names no two elements compete for one path string. */
  lemma ItemsUnique(name: Comparable -> string, path: seq<string>, key: string, g: ConfigGroup)
    requires TellsApart(name) && LegalPath(path) && LegalTree(key, g)
    ensures UniqueBy(name, Items(path, key, g))
  {
    forall x, y | x in Items(path, key, g) && y in Items(path, key, g) && name(x) == name(y)
      ensures x == y
    {
      ItemsLegal(path, key, g, x);
      ItemsLegal(path, key, g, y);
      ItemsBelow(path, key, g, x);
      ItemsBelow(path, key, g, y);
      ItemsAreElements(path, key, g, x);
      ItemsAreElements(path, key, g, y);
      SegmentsDetermine(x, y);
    }
  }

  lemma GroupItemsUnique(name: Comparable -> string, path: seq<string>, g: ConfigGroup, keys: set<string>)
    requires TellsApart(name) && LegalPath(path)
    requires keys <= g.groups.Keys && forall k | k in keys :: LegalTree(k, g.groups[k])
    ensures UniqueBy(name, GroupItems(path, g, keys))
  {
    forall x, y | x in GroupItems(path, g, keys) && y in GroupItems(path, g, keys) && name(x) == name(y)
      ensures x == y
    {
      var k :| k in keys && x in Items(path, k, g.groups[k]);
      var l :| l in keys && y in Items(path, l, g.groups[l]);
      ItemsLegal(path, k, g.groups[k], x);
      ItemsLegal(path, l, g.groups[l], y);
      ItemsBelow(path, k, g.groups[k], x);
      ItemsBelow(path, l, g.groups[l], y);
      assert k == x.Segments()[..|path| + 1][|path|] == l;
      ItemsUnique(name, path, k, g.groups[k]);
    }
  }

  lemma GroupItemsStep(name: Comparable -> string, m0: Flat, path: seq<string>, g: ConfigGroup, done: set<string>,
                       k: string)
    requires TellsApart(name) && LegalPath(path)
    requires done + {k} <= g.groups.Keys && forall l | l in done + {k} :: LegalTree(l, g.groups[l])
    ensures UniqueBy(name, GroupItems(path, g, done)) && UniqueBy(name, Items(path, k, g.groups[k]))
    ensures UniqueBy(name, GroupItems(path, g, done + {k}))
    ensures m0 + IndexBy(name, GroupItems(path, g, done)) + IndexBy(name, Items(path, k, g.groups[k]))
         == m0 + IndexBy(name, GroupItems(path, g, done + {k}))
  {
    var X, Y, Z := GroupItems(path, g, done), Items(path, k, g.groups[k]), GroupItems(path, g, done + {k});
    GroupItemsUnique(name, path, g, done + {k});
    assert X + Y == Z;
    IndexMore(name, m0, Z, X, Y);
  }

  /** The flat map of a tree of legal names: every element under its path string and nothing else. */
  ghost function Flatten(ns: string, g: ConfigGroup): Flat
    requires LegalTree(ns, g)
  {
    FqPathTellsApart();
    ItemsUnique(FqPathOf, [], ns, g);
    IndexBy(FqPathOf, Items([], ns, g))
  }

  lemma FlattenAt(ns: string, g: ConfigGroup, x: Comparable)
    requires LegalTree(ns, g) && x in Items([], ns, g)
    ensures FqPathOf(x) in Flatten(ns, g) && Flatten(ns, g)[FqPathOf(x)] == x
  {
    FqPathTellsApart();
    ItemsUnique(FqPathOf, [], ns, g);
    IndexAt(FqPathOf, Items([], ns, g), x);
  }

  lemma FlattenHas(ns: string, g: ConfigGroup, s: string)
    requires LegalTree(ns, g) && s in Flatten(ns, g)
    ensures Flatten(ns, g)[s] in Items([], ns, g) && FqPathOf(Flatten(ns, g)[s]) == s
  {
    FqPathTellsApart();
    ItemsUnique(FqPathOf, [], ns, g);
    IndexHas(FqPathOf, Items([], ns, g), s);
  }

  lemma ItemIsElement(ns: string, g: ConfigGroup, x: Comparable)
    ensures x in Items([], ns, g) <==> Element(ns, g, x.body.Kind(), x.Segments()) == Some(x.body)
  {
    if x in Items([], ns, g) {
      ItemsBelow([], ns, g, x);
      assert x.Segments()[0] == x.Segments()[..1][0];
    }
    if x.Segments()[0] == ns {
      assert x.Segments()[..1] == [] + [ns];
      ItemsAreElements([], ns, g, x);
    }
  }

  /** Every entry of the flat map is the element its own address names, stored under its own path string. */
  lemma FlattenEntry(ns: string, g: ConfigGroup, s: string)
    requires LegalTree(ns, g) && s in Flatten(ns, g)
    ensures var x := Flatten(ns, g)[s];
      && FqPathOf(x) == s && LegalPath(x.Segments())
      && Element(ns, g, x.body.Kind(), x.Segments()) == Some(x.body)
  {
    FlattenHas(ns, g, s);
    ItemsLegal([], ns, g, Flatten(ns, g)[s]);
    ItemIsElement(ns, g, Flatten(ns, g)[s]);
  }

  /** Every element of the tree is in the flat map, under its path string. */
  lemma FlattenElement(ns: string, g: ConfigGroup, x: Comparable)
    requires LegalTree(ns, g) && Element(ns, g, x.body.Kind(), x.Segments()) == Some(x.body)
    ensures FqPathOf(x) in Flatten(ns, g) && Flatten(ns, g)[FqPathOf(x)] == x
  {
    ItemIsElement(ns, g, x);
    FlattenAt(ns, g, x);
  }

  lemma {:induction false} DescendKind(g: ConfigGroup, kind: Kind, segs: seq<string>)
    ensures Descend(g, kind, segs).Some? ==> Descend(g, kind, segs).value.Kind() == kind
    decreases |segs|
  {
    if segs != [] && segs[0] in g.groups {
      DescendKind(g.groups[segs[0]], kind, segs[1..]);
    }
  }

  lemma LeavesUnique(name: Comparable -> string, path: seq<string>, X: set<Comparable>)
    requires TellsApart(name) && LegalPath(path)
    requires forall x, y | x in X && y in X && x.key == y.key :: x == y
    requires forall x | x in X :: x.path == path && ValidConfigID(x.key)
    ensures UniqueBy(name, X)
  {
    forall x, y | x in X && y in X && name(x) == name(y) ensures x == y {
      SegmentsDetermine(x, y);
    }
  }

  /** What flattening an optional tree yields: an error exactly when some name is illegal. */
  ghost function MapConfigSpec(g: Option<ConfigGroup>, ns: string): Result<Flat> {
    if g.None? then Ok(map[])
    else if LegalTree(ns, g.value) then Ok(Flatten(ns, g.value))
    else Err
  }

  /** The result map that the recursion over the tree fills. */
  class FlatMap {
    const name: Comparable -> string
    var entries: Flat

    constructor (name: Comparable -> string)
      ensures entries == map[] && this.name == name
    {
      this.name := name;
      entries := map[];
    }

    method AddToMap(x: Comparable) returns (ok: bool)
      modifies this
      ensures ok == ValidConfigID(x.key)
      ensures ok ==> entries == old(entries) + IndexBy(name, {x})
      ensures !ok ==> entries == old(entries)
    {
      ok := ValidConfigID(x.key);
      if ok {
        entries := entries[name(x) := x];
        assert entries == old(entries) + IndexBy(name, {x});
      }
    }

    method AddValues(path: seq<string>, values: map<string, ConfigValue>) returns (ok: bool)
      requires TellsApart(name) && LegalPath(path)
      modifies this
      ensures ok == forall k | k in values :: ValidConfigID(k)
      ensures ok ==>
        && UniqueBy(name, ValueItems(path, values))
        && entries == old(entries) + IndexBy(name, ValueItems(path, values))
    {
      ghost var all, seen: set<Comparable>, m0 := ValueItems(path, values), {}, entries;
      ghost var legal := forall k | k in values :: ValidConfigID(k);
      if legal { LeavesUnique(name, path, all); }
      ok := true;
      var todo := values.Keys;
      while todo != {}
        invariant todo <= values.Keys
        invariant forall k | k in values.Keys - todo :: ValidConfigID(k)
        invariant seen <= all
        invariant forall k | k in values.Keys - todo :: Comparable(ValueBody(values[k]), k, path) in seen
        invariant legal ==> UniqueBy(name, seen) && entries == m0 + IndexBy(name, seen)
        decreases |todo|
      {
        var k :| k in todo;
        var x := Comparable(ValueBody(values[k]), k, path);
        ok := AddToMap(x);
        if !ok { return; }
        if legal { IndexMore(name, m0, all, seen, {x}); }
        seen := seen + {x};
        todo := todo - {k};
      }
      assert seen == all;
    }

    method AddPolicies(path: seq<string>, policies: map<string, ConfigPolicy>) returns (ok: bool)
      requires TellsApart(name) && LegalPath(path)
      modifies this
      ensures ok == forall k | k in policies :: ValidConfigID(k)
      ensures ok ==>
        && UniqueBy(name, PolicyItems(path, policies))
        && entries == old(entries) + IndexBy(name, PolicyItems(path, policies))
    {
      ghost var all, seen: set<Comparable>, m0 := PolicyItems(path, policies), {}, entries;
      ghost var legal := forall k | k in policies :: ValidConfigID(k);
      if legal { LeavesUnique(name, path, all); }
      ok := true;
      var todo := policies.Keys;
      while todo != {}
        invariant todo <= policies.Keys
        invariant forall k | k in policies.Keys - todo :: ValidConfigID(k)
        invariant seen <= all
        invariant forall k | k in policies.Keys - todo :: Comparable(PolicyBody(policies[k]), k, path) in seen
        invariant legal ==> UniqueBy(name, seen) && entries == m0 + IndexBy(name, seen)
        decreases |todo|
      {
        var k :| k in todo;
        var x := Comparable(PolicyBody(policies[k]), k, path);
        ok := AddToMap(x);
        if !ok { return; }
        if legal { IndexMore(name, m0, all, seen, {x}); }
        seen := seen + {x};
        todo := todo - {k};
      }
      assert seen == all;
    }

    method RecurseGroups(path: seq<string>, g: ConfigGroup) returns (ok: bool)
      requires TellsApart(name) && LegalPath(path)
      modifies this
      ensures ok == forall k | k in g.groups :: LegalTree(k, g.groups[k])
      ensures ok ==> UniqueBy(name, GroupItems(path, g, g.groups.Keys))
      ensures ok ==> entries == old(entries) + IndexBy(name, GroupItems(path, g, g.groups.Keys))
      decreases g, 0
    {
      ok := true;
      var done: set<string> := {};
      GroupItemsUnique(name, path, g, done);
      assert GroupItems(path, g, done) == {};
      while done != g.groups.Keys
        invariant done <= g.groups.Keys
        invariant forall k | k in done :: LegalTree(k, g.groups[k])
        invariant UniqueBy(name, GroupItems(path, g, done))
        invariant entries == old(entries) + IndexBy(name, GroupItems(path, g, done))
        decreases g.groups.Keys - done
      {
        var k :| k in g.groups && k !in done;
        ok := RecurseConfig(path, k, g.groups[k]);
        if !ok { return; }
        GroupItemsStep(name, old(entries), path, g, done, k);
        done := done + {k};
      }
    }

    /** `prefix + [key]` is the path of `group`. */
    method RecurseConfig(prefix: seq<string>, key: string, group: ConfigGroup) returns (ok: bool)
      requires TellsApart(name) && LegalPath(prefix)
      modifies this
      ensures ok == LegalTree(key, group)
      ensures ok ==> UniqueBy(name, Items(prefix, key, group))
      ensures ok ==> entries == old(entries) + IndexBy(name, Items(prefix, key, group))
      decreases group, 1
    {
      ghost var m0 := entries;
      var path := prefix + [key];
      var own := Comparable(GroupBody(group), key, prefix);
      ok := AddToMap(own);
      if !ok { return; }
      ok := RecurseGroups(path, group);
      if !ok { return; }
      ok := AddValues(path, group.values);
      if !ok { return; }
      ok := AddPolicies(path, group.policies);
      if !ok { return; }
      ItemsUnique(name, prefix, key, group);
      ghost var all := Items(prefix, key, group);
      ghost var groups, values, policies :=
        GroupItems(path, group, group.groups.Keys), ValueItems(path, group.values), PolicyItems(path, group.policies);
      IndexMore(name, m0, all, {own}, groups);
      IndexMore(name, m0, all, {own} + groups, values);
      IndexMore(name, m0, all, {own} + groups + values, policies);
    }
  }

  method MapConfig(channelGroup: Option<ConfigGroup>, rootGroupKey: string) returns (r: Result<Flat>)
    ensures r == MapConfigSpec(channelGroup, rootGroupKey)
  {
    var result := new FlatMap(FqPathOf);
    if channelGroup.Some? {
      FqPathTellsApart();
      var ok := result.RecurseConfig([], rootGroupKey, channelGroup.value);
      if !ok { return Err; }
      IndexOnly(result.entries, IndexBy(FqPathOf, Items([], rootGroupKey, channelGroup.value)));
    }
    r := Ok(result.entries);
  }
}
