/** When a flat map holds a whole tree, rebuilding cannot fail and yields exactly what the map says. */
module ConfigCoherence {
  import opened Wrappers
  import opened ConfigTree
  import opened ConfigPaths
  import opened ConfigMap
  import opened ConfigRebuild

  predicate Declares(g: ConfigGroup, kind: Kind, k: string) {
    match kind
    case GroupKind => k in g.groups
    case ValueKind => k in g.values
    case PolicyKind => k in g.policies
  }

  ghost predicate WellKeyed(m: Flat) {
    forall s | s in m :: FqPathOf(m[s]) == s && LegalPath(m[s].Segments())
  }

  /** Whatever a group entry declares has a legal name and an entry of its own. */
  ghost predicate Closed(m: Flat) {
    forall s, kind, k | s in m && m[s].body.GroupBody? && Declares(m[s].body.group, kind, k) ::
      ValidConfigID(k) && FqPath(kind, m[s].Segments() + [k]) in m
  }

  ghost predicate Coherent(ns: string, m: Flat) {
    WellKeyed(m) && Closed(m) && ValidConfigID(ns) && FqPath(GroupKind, [ns]) in m
  }

  /** `b'` has the version, mod_policy, content and child keys of `b`, up to the filling of an empty mod_policy. */
  ghost predicate SameOwn(on: bool, b: Body, b': Body) {
    match b
    case ValueBody(v) => b' == ValueBody(FilledValue(on, v))
    case PolicyBody(p) => b' == PolicyBody(FilledPolicy(on, p))
    case GroupBody(g) =>
      && b'.GroupBody?
      && b'.group.version == g.version
      && b'.group.modPolicy == Filled(on, g.modPolicy)
      && b'.group.groups.Keys == g.groups.Keys
      && b'.group.values.Keys == g.values.Keys
      && b'.group.policies.Keys == g.policies.Keys
  }

  lemma EntryAt(m: Flat, kind: Kind, segs: seq<string>)
    requires WellKeyed(m) && segs != [] && LegalPath(segs) && FqPath(kind, segs) in m
    ensures m[FqPath(kind, segs)].body.Kind() == kind && m[FqPath(kind, segs)].Segments() == segs
  {
    var x := m[FqPath(kind, segs)];
    FqPathInjective(kind, segs, x.body.Kind(), x.Segments());
  }

  /** A declared child of a group entry: its path string, seen from either side. */
  lemma ChildEntry(m: Flat, segs: seq<string>, kind: Kind, k: string)
    requires WellKeyed(m) && Closed(m) && segs != [] && LegalPath(segs) && FqPath(GroupKind, segs) in m
    ensures m[FqPath(GroupKind, segs)].body.GroupBody?
    ensures FqPath(kind, segs + [k]) == Prefix(kind) + Child(PathString(segs), k)
    ensures Declares(m[FqPath(GroupKind, segs)].body.group, kind, k) ==>
      && LegalPath(segs + [k]) && FqPath(kind, segs + [k]) in m
      && m[FqPath(kind, segs + [k])].body.Kind() == kind
  {
    PathStringSnoc(segs, k);
    EntryAt(m, GroupKind, segs);
    var s := FqPath(GroupKind, segs);
    if Declares(m[s].body.group, kind, k) {
      assert FqPath(kind, m[s].Segments() + [k]) in m;
      EntryAt(m, kind, segs + [k]);
    }
  }

  /** No missing and no wrongly typed element: rebuilding a coherent map succeeds at every group. */
  lemma {:induction false} RebuildSucceeds(m: Flat, segs: seq<string>)
    requires WellKeyed(m) && Closed(m) && segs != [] && LegalPath(segs) && FqPath(GroupKind, segs) in m
    ensures m[FqPath(GroupKind, segs)].body.GroupBody?
    ensures Rebuild(PathString(segs), m).Ok?
    decreases Room(PathString(segs), m)
  {
    var path := PathString(segs);
    EntryAt(m, GroupKind, segs);
    var g := m[GROUP_PREFIX + path].body.group;
    forall k | k in g.groups ensures SubgroupsAt(path, g, m)[k].Ok? {
      assert Declares(g, GroupKind, k);
      ChildEntry(m, segs, GroupKind, k);
      PathStringSnoc(segs, k);
      RoomShrinks(path, k, m);
      RebuildSucceeds(m, segs + [k]);
    }
    forall k | k in g.values ensures ValuesAt(path, g, m)[k].Ok? {
      assert Declares(g, ValueKind, k);
      ChildEntry(m, segs, ValueKind, k);
    }
    forall k | k in g.policies ensures PoliciesAt(path, g, m)[k].Ok? {
      assert Declares(g, PolicyKind, k);
      ChildEntry(m, segs, PolicyKind, k);
    }
  }

  /** What a flat map holds at each address. */
  ghost function View(m: Flat): (Kind, seq<string>) -> Option<Body> {
    (kind, segs) => if FqPath(kind, segs) in m then Some(m[FqPath(kind, segs)].body) else None
  }

  ghost predicate MirrorsAt(on: bool, at: (Kind, seq<string>) -> Option<Body>, kind: Kind, segs: seq<string>, b: Body) {
    at(kind, segs).Some? && SameOwn(on, at(kind, segs).value, b)
  }

  /** Every element of the tree `t`, which hangs at `segs`, is what `at` holds at its address. */
  ghost predicate Mirrors(on: bool, at: (Kind, seq<string>) -> Option<Body>, segs: seq<string>, t: ConfigGroup)
    decreases t
  {
    && MirrorsAt(on, at, GroupKind, segs, GroupBody(t))
    && (forall k | k in t.groups :: Mirrors(on, at, segs + [k], t.groups[k]))
    && (forall k | k in t.values :: MirrorsAt(on, at, ValueKind, segs + [k], ValueBody(t.values[k])))
    && (forall k | k in t.policies :: MirrorsAt(on, at, PolicyKind, segs + [k], PolicyBody(t.policies[k])))
  }

  /** One level of a successful rebuild, read off its definition. */
  lemma RebuildUnfold(path: string, m: Flat)
    requires Rebuild(path, m).Ok?
    ensures GROUP_PREFIX + path in m
    ensures
      var t, e, on := Rebuild(path, m).value, m[GROUP_PREFIX + path].body, FixOn(m);
      && SameOwn(on, e, GroupBody(t))
      && (forall k | k in t.groups :: Rebuild(Child(path, k), m) == Ok(t.groups[k]))
      && (forall k | k in t.values ::
          ValueAt(path, k, m).Ok? && t.values[k] == FilledValue(on, ValueAt(path, k, m).value))
      && (forall k | k in t.policies ::
          PolicyAt(path, k, m).Ok? && t.policies[k] == FilledPolicy(on, PolicyAt(path, k, m).value))
  {
    var t, g := Rebuild(path, m).value, m[GROUP_PREFIX + path].body.group;
    forall k | k in t.groups ensures Rebuild(Child(path, k), m) == Ok(t.groups[k]) {
      assert SubgroupsAt(path, g, m)[k].Ok?;
    }
    forall k | k in t.values
      ensures ValueAt(path, k, m).Ok? && t.values[k] == FilledValue(FixOn(m), ValueAt(path, k, m).value)
    {
      assert ValuesAt(path, g, m)[k].Ok?;
    }
    forall k | k in t.policies
      ensures PolicyAt(path, k, m).Ok? && t.policies[k] == FilledPolicy(FixOn(m), PolicyAt(path, k, m).value)
    {
      assert PoliciesAt(path, g, m)[k].Ok?;
    }
  }

  lemma RebuiltValue(m: Flat, segs: seq<string>, k: string)
    requires ValueAt(PathString(segs), k, m).Ok?
    ensures View(m)(ValueKind, segs + [k]) == Some(ValueBody(ValueAt(PathString(segs), k, m).value))
  {
    PathStringSnoc(segs, k);
  }

  lemma RebuiltPolicy(m: Flat, segs: seq<string>, k: string)
    requires PolicyAt(PathString(segs), k, m).Ok?
    ensures View(m)(PolicyKind, segs + [k]) == Some(PolicyBody(PolicyAt(PathString(segs), k, m).value))
  {
    PathStringSnoc(segs, k);
  }

  /** A rebuilt tree mirrors the map it was rebuilt from. */
  lemma {:induction false} RebuiltMirrors(m: Flat, segs: seq<string>)
    requires Rebuild(PathString(segs), m).Ok?
    ensures Mirrors(FixOn(m), View(m), segs, Rebuild(PathString(segs), m).value)
    decreases Room(PathString(segs), m)
  {
    var path, on := PathString(segs), FixOn(m);
    RebuildUnfold(path, m);
    var t := Rebuild(path, m).value;
    assert MirrorsAt(on, View(m), GroupKind, segs, GroupBody(t));
    forall k | k in t.groups ensures Mirrors(on, View(m), segs + [k], t.groups[k]) {
      PathStringSnoc(segs, k);
      RoomShrinks(path, k, m);
      RebuiltMirrors(m, segs + [k]);
    }
    forall k | k in t.values ensures MirrorsAt(on, View(m), ValueKind, segs + [k], ValueBody(t.values[k])) {
      RebuiltValue(m, segs, k);
    }
    forall k | k in t.policies ensures MirrorsAt(on, View(m), PolicyKind, segs + [k], PolicyBody(t.policies[k])) {
      RebuiltPolicy(m, segs, k);
    }
  }

  /** All names in a tree rebuilt from a coherent map are legal. */
  lemma {:induction false} RebuiltLegal(m: Flat, segs: seq<string>)
    requires WellKeyed(m) && Closed(m) && segs != [] && LegalPath(segs) && FqPath(GroupKind, segs) in m
    ensures Rebuild(PathString(segs), m).Ok?
    ensures LegalTree(segs[|segs| - 1], Rebuild(PathString(segs), m).value)
    decreases Room(PathString(segs), m)
  {
    RebuildSucceeds(m, segs);
    RebuildUnfold(PathString(segs), m);
    var t := Rebuild(PathString(segs), m).value;
    forall kind, k | Declares(t, kind, k)
      ensures LegalPath(segs + [k]) && FqPath(kind, segs + [k]) in m && ValidConfigID(k)
    {
      ChildEntry(m, segs, kind, k);
      assert (segs + [k])[|segs|] == k;
    }
    forall k | k in t.groups ensures LegalTree(k, t.groups[k]) {
      assert Declares(t, GroupKind, k);
      PathStringSnoc(segs, k);
      RoomShrinks(PathString(segs), k, m);
      RebuiltLegal(m, segs + [k]);
    }
    forall k | k in t.values ensures ValidConfigID(k) { assert Declares(t, ValueKind, k); }
    forall k | k in t.policies ensures ValidConfigID(k) { assert Declares(t, PolicyKind, k); }
  }

  lemma ConcatCons<T>(a: seq<T>, b: seq<T>)
    requires b != []
    ensures a + b == a + [b[0]] + b[1..]
  {
  }

  /** Walking a mirroring tree finds only what `at` holds. */
  lemma {:induction false} MirrorElement(on: bool, at: (Kind, seq<string>) -> Option<Body>, segs: seq<string>,
                                         t: ConfigGroup, kind: Kind, rel: seq<string>)
    requires Mirrors(on, at, segs, t) && Descend(t, kind, rel).Some?
    ensures MirrorsAt(on, at, kind, segs + rel, Descend(t, kind, rel).value)
    decreases |rel|
  {
    if rel == [] {
      assert segs + rel == segs;
    } else {
      ConcatCons(segs, rel);
      if |rel| == 1 && kind != GroupKind {
        assert segs + rel == segs + [rel[0]];
      } else {
        MirrorElement(on, at, segs + [rel[0]], t.groups[rel[0]], kind, rel[1..]);
      }
    }
  }
}
