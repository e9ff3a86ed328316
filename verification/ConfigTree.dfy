/** The channel configuration tree and the elements a walk over it meets. */
module ConfigTree {
  import opened Wrappers

  const TWO64: nat := 0x1_0000_0000_0000_0000

  /** Go's uint64, the type of element versions and of the config sequence. */
  type Uint64 = n: nat | n < TWO64

  /** Go's uint64 increment, which wraps around. */
  function Next(v: Uint64): Uint64 {
    (v + 1) % TWO64
  }

  lemma NextIs(v: Uint64)
    ensures Next(v) == if v == TWO64 - 1 then 0 else v + 1
  {
  }

  datatype Policy = Policy(policyType: int, content: Bytes)

  datatype ConfigValue = ConfigValue(version: Uint64, content: Bytes, modPolicy: string)

  datatype ConfigPolicy = ConfigPolicy(version: Uint64, policy: Option<Policy>, modPolicy: string)

  datatype ConfigGroup = ConfigGroup(
    version: Uint64,
    groups: map<string, ConfigGroup>,
    values: map<string, ConfigValue>,
    policies: map<string, ConfigPolicy>,
    modPolicy: string)

  datatype Kind = GroupKind | ValueKind | PolicyKind

  /** What an element of the tree holds: a group, a value or a policy. */
  datatype Body = GroupBody(group: ConfigGroup) | ValueBody(value: ConfigValue) | PolicyBody(policy: ConfigPolicy) {
    function Kind(): Kind {
      match this
      case GroupBody(_) => GroupKind
      case ValueBody(_) => ValueKind
      case PolicyBody(_) => PolicyKind
    }

    function Version(): Uint64 {
      match this
      case GroupBody(g) => g.version
      case ValueBody(v) => v.version
      case PolicyBody(p) => p.version
    }

    function ModPolicy(): string {
      match this
      case GroupBody(g) => g.modPolicy
      case ValueBody(v) => v.modPolicy
      case PolicyBody(p) => p.modPolicy
    }
  }

  /** An element together with its key and the keys of the groups above it, root first. */
  datatype Comparable = Comparable(body: Body, key: string, path: seq<string>) {
    function Segments(): seq<string> {
      path + [key]
    }
  }

  const MAX_LENGTH := 249

  predicate AllowedChar(c: char) {
    'a' <= c <= 'z' || 'A' <= c <= 'Z' || '0' <= c <= '9' || c == '.' || c == '-'
  }

  /** Legal names of config elements: non-empty, not too long, no special names, only allowed characters. */
  predicate ValidConfigID(id: string) {
    0 < |id| <= MAX_LENGTH && id != "." && id != ".." && forall i | 0 <= i < |id| :: AllowedChar(id[i])
  }

  /** Every key in the tree, the root's own key included, is a legal name. */
  ghost predicate LegalTree(key: string, g: ConfigGroup)
    decreases g
  {
    && ValidConfigID(key)
    && (forall k | k in g.groups :: LegalTree(k, g.groups[k]))
    && (forall k | k in g.values :: ValidConfigID(k))
    && (forall k | k in g.policies :: ValidConfigID(k))
  }

  predicate LegalPath(segs: seq<string>) {
    forall i | 0 <= i < |segs| :: ValidConfigID(segs[i])
  }

  /** The element of a given kind that a walk down the keys `segs` reaches; `segs` starts below the group `g`. */
  ghost function Descend(g: ConfigGroup, kind: Kind, segs: seq<string>): Option<Body>
    decreases |segs|
  {
    if segs == [] then
      if kind == GroupKind then Some(GroupBody(g)) else None
    else if |segs| == 1 && kind == ValueKind then
      if segs[0] in g.values then Some(ValueBody(g.values[segs[0]])) else None
    else if |segs| == 1 && kind == PolicyKind then
      if segs[0] in g.policies then Some(PolicyBody(g.policies[segs[0]])) else None
    else if segs[0] in g.groups then
      Descend(g.groups[segs[0]], kind, segs[1..])
    else
      None
  }

  /** The element at the absolute address `(kind, segs)` of the tree `root`, whose root key is `ns`. */
  ghost function Element(ns: string, root: ConfigGroup, kind: Kind, segs: seq<string>): Option<Body> {
    if segs != [] && segs[0] == ns then Descend(root, kind, segs[1..]) else None
  }

  /** All elements of the tree `g`, whose key is `key` and which hangs below `path`. */
  ghost function Items(path: seq<string>, key: string, g: ConfigGroup): set<Comparable>
    decreases g, 1
  {
    {Comparable(GroupBody(g), key, path)}
    + GroupItems(path + [key], g, g.groups.Keys)
    + ValueItems(path + [key], g.values)
    + PolicyItems(path + [key], g.policies)
  }

  /** The elements of those subgroups of `g` whose keys are in `keys`. */
  ghost function GroupItems(path: seq<string>, g: ConfigGroup, keys: set<string>): set<Comparable>
    decreases g, 0
  {
    set k, x | k in g.groups && k in keys && x in Items(path, k, g.groups[k]) :: x
  }

  ghost function ValueItems(path: seq<string>, values: map<string, ConfigValue>): set<Comparable> {
    set k | k in values :: Comparable(ValueBody(values[k]), k, path)
  }

  ghost function PolicyItems(path: seq<string>, policies: map<string, ConfigPolicy>): set<Comparable> {
    set k | k in policies :: Comparable(PolicyBody(policies[k]), k, path)
  }

  /** An item that is neither the group itself nor inside a subgroup is one of the group's values or policies. */
  lemma ItemsHere(path: seq<string>, key: string, g: ConfigGroup, x: Comparable)
    ensures x in Items(path, key, g) <==>
      || x == Comparable(GroupBody(g), key, path)
      || (exists k :: k in g.groups && x in Items(path + [key], k, g.groups[k]))
      || (x.path == path + [key] && x.body.ValueBody? && x.key in g.values && x.body.value == g.values[x.key])
      || (x.path == path + [key] && x.body.PolicyBody? && x.key in g.policies && x.body.policy == g.policies[x.key])
  {
  }

  /** An item's address extends the address of the group it was found under. */
  lemma {:induction false} ItemsBelow(path: seq<string>, key: string, g: ConfigGroup, x: Comparable)
    requires x in Items(path, key, g)
    ensures |x.Segments()| > |path| && x.Segments()[..|path| + 1] == path + [key]
    decreases g
  {
    ItemsHere(path, key, g, x);
    if k :| k in g.groups && x in Items(path + [key], k, g.groups[k]) {
      ItemsBelow(path + [key], k, g.groups[k], x);
      assert x.Segments()[..|path| + 1] == x.Segments()[..|path| + 2][..|path| + 1];
      assert (path + [key] + [k])[..|path| + 1] == path + [key];
    }
  }

  /** The set of items and the walk by keys describe the same elements. */
  lemma {:induction false} ItemsAreElements(path: seq<string>, key: string, g: ConfigGroup, x: Comparable)
    requires |x.Segments()| > |path| && x.Segments()[..|path| + 1] == path + [key]
    ensures x in Items(path, key, g) <==> Descend(g, x.body.Kind(), x.Segments()[|path| + 1..]) == Some(x.body)
    decreases g
  {
    var segs := x.Segments();
    var rest := segs[|path| + 1..];
    assert segs == path + [key] + rest;
    if rest == [] {
      assert segs == path + [key];
      assert x.path == segs[..|segs| - 1] == path && x.key == segs[|segs| - 1] == key;
      ItemsHere(path, key, g, x);
      forall k | k in g.groups && x in Items(path + [key], k, g.groups[k])
        ensures false
      {
        ItemsBelow(path + [key], k, g.groups[k], x);
      }
    } else {
      var k := rest[0];
      assert segs[..|path| + 2] == path + [key] + [k];
      assert segs[|path| + 2..] == rest[1..];
      forall j | j in g.groups && x in Items(path + [key], j, g.groups[j])
        ensures j == k
      {
        ItemsBelow(path + [key], j, g.groups[j], x);
        assert segs[..|path| + 2] == path + [key] + [j];
        assert (path + [key] + [j])[|path| + 1] == j;
      }
      if k in g.groups {
        ItemsAreElements(path + [key], k, g.groups[k], x);
      }
      ItemsHere(path, key, g, x);
      if |rest| == 1 {
        assert x.path == path + [key] && x.key == k;
      } else {
        assert |x.path| > |path + [key]|;
      }
    }
  }
}
