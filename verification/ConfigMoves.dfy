/** How one tree may follow from another: every difference has a bumped, authorised element above it. */
module ConfigMoves {
  import opened Wrappers
  import opened ConfigTree
  import opened ConfigMap
  import opened ConfigCoherence
  import opened ConfigRoundTrip

  /** What an address holds. */
  type Holding = (Kind, seq<string>) -> Option<Body>

  /** Whether an element at an address may be changed. */
  type Authorization = (seq<string>, Body) -> bool

  /** One version up, and allowed. */
  ghost predicate Bumped(before: Body, after: Body, segs: seq<string>, allowed: Authorization) {
    after.Version() == Next(before.Version()) && allowed(segs, before)
  }

  /** An address keeps what it held, is bumped, or gets a new element at version 0. */
  ghost predicate MoveOk(before: Option<Body>, after: Body, segs: seq<string>, allowed: Authorization) {
    match before
    case Some(b) => after == b || Bumped(b, after, segs, allowed)
    case None => after.Version() == 0
  }

  ghost predicate Moves(ns: string, t: ConfigGroup, at: Holding, allowed: Authorization) {
    forall kind, segs | segs != [] && LegalPath(segs) && at(kind, segs).Some? ::
      MoveOk(Element(ns, t, kind, segs), at(kind, segs).value, segs, allowed)
  }

  /** `t'` is read off a holding that moved from the tree `t`. */
  ghost predicate Follows(ns: string, t: ConfigGroup, t': ConfigGroup, on: bool, at: Holding, allowed: Authorization) {
    && LegalTree(ns, t) && LegalTree(ns, t')
    && Mirrors(on, at, [ns], t') && Moves(ns, t, at, allowed)
  }

  lemma ElementMove(ns: string, t: ConfigGroup, t': ConfigGroup, on: bool, at: Holding, allowed: Authorization,
                    kind: Kind, segs: seq<string>)
    requires Follows(ns, t, t', on, at, allowed) && Element(ns, t', kind, segs).Some?
    ensures MirrorsAt(on, at, kind, segs, Element(ns, t', kind, segs).value)
    ensures MoveOk(Element(ns, t, kind, segs), at(kind, segs).value, segs, allowed)
  {
    ElementLegal(ns, t', kind, segs);
    MirrorElement(on, at, [ns], t', kind, segs[1..]);
    assert [ns] + segs[1..] == segs;
  }

  lemma SameOwnVersion(on: bool, b: Body, b': Body)
    requires SameOwn(on, b, b')
    ensures b.Version() == b'.Version() && b.Kind() == b'.Kind()
  {
  }

  /** An element present before and after keeps its version and own content, or was bumped with authority. */
  lemma KeptOrBumped(ns: string, t: ConfigGroup, t': ConfigGroup, on: bool, at: Holding, allowed: Authorization,
                     kind: Kind, segs: seq<string>)
    requires Follows(ns, t, t', on, at, allowed)
    requires Element(ns, t, kind, segs).Some? && Element(ns, t', kind, segs).Some?
    ensures
      var before, after := Element(ns, t, kind, segs).value, Element(ns, t', kind, segs).value;
      SameOwn(on, before, after) || Bumped(before, after, segs, allowed)
  {
    ElementMove(ns, t, t', on, at, allowed, kind, segs);
    SameOwnVersion(on, at(kind, segs).value, Element(ns, t', kind, segs).value);
  }

  /** An element that is new in the tree starts at version 0. */
  lemma AddedAtZero(ns: string, t: ConfigGroup, t': ConfigGroup, on: bool, at: Holding, allowed: Authorization,
                    kind: Kind, segs: seq<string>)
    requires Follows(ns, t, t', on, at, allowed)
    requires Element(ns, t, kind, segs).None? && Element(ns, t', kind, segs).Some?
    ensures Element(ns, t', kind, segs).value.Version() == 0
  {
    ElementMove(ns, t, t', on, at, allowed, kind, segs);
    SameOwnVersion(on, at(kind, segs).value, Element(ns, t', kind, segs).value);
  }

  ghost predicate GroupAt(ns: string, t: ConfigGroup, segs: seq<string>) {
    Element(ns, t, GroupKind, segs).Some? && Element(ns, t, GroupKind, segs).value.GroupBody?
  }

  /** A group present before and after, bumped with authority. */
  ghost predicate GroupBumped(ns: string, t: ConfigGroup, t': ConfigGroup, segs: seq<string>, allowed: Authorization) {
    && GroupAt(ns, t, segs) && GroupAt(ns, t', segs)
    && Bumped(Element(ns, t, GroupKind, segs).value, Element(ns, t', GroupKind, segs).value, segs, allowed)
  }

  lemma ElementChild(ns: string, t: ConfigGroup, kind: Kind, segs: seq<string>, k: string)
    requires segs != []
    ensures Element(ns, t, kind, segs + [k]).Some? <==>
      GroupAt(ns, t, segs) && Declares(Element(ns, t, GroupKind, segs).value.group, kind, k)
  {
    assert (segs + [k])[0] == segs[0] && (segs + [k])[1..] == segs[1..] + [k];
    DescendSnoc(t, kind, segs[1..], k);
  }

  /** A group that gains or loses a child was bumped with authority. */
  lemma ShapeChangeIsBump(ns: string, t: ConfigGroup, t': ConfigGroup, on: bool, at: Holding, allowed: Authorization,
                          segs: seq<string>, kind: Kind, k: string)
    requires Follows(ns, t, t', on, at, allowed) && segs != []
    requires GroupAt(ns, t, segs) && GroupAt(ns, t', segs)
    requires Element(ns, t, kind, segs + [k]).Some? != Element(ns, t', kind, segs + [k]).Some?
    ensures GroupBumped(ns, t, t', segs, allowed)
  {
    ElementChild(ns, t, kind, segs, k);
    ElementChild(ns, t', kind, segs, k);
    KeptOrBumped(ns, t, t', on, at, allowed, GroupKind, segs);
  }

  lemma AncestorExists(ns: string, t: ConfigGroup, kind: Kind, segs: seq<string>, i: nat)
    requires Element(ns, t, kind, segs).Some? && 1 <= i < |segs|
    ensures GroupAt(ns, t, segs[..i])
  {
    assert segs[..i][0] == segs[0] && segs[..i][1..] == segs[1..][..i - 1];
    DescendPrefix(t, kind, segs[1..], i - 1);
  }

  /** The kind an address must have for the walk to `(kind, segs)` to pass through its first `i` keys. */
  function KindOnTheWay(kind: Kind, segs: seq<string>, i: nat): Kind {
    if i < |segs| then GroupKind else kind
  }

  /** The deepest group above the address `segs` that exists in `t`. */
  ghost function DeepestGroup(ns: string, t: ConfigGroup, segs: seq<string>, bound: nat): (i: nat)
    requires |segs| >= 1 && segs[0] == ns && 1 <= bound <= |segs|
    ensures 1 <= i <= bound && GroupAt(ns, t, segs[..i])
    ensures forall j | i < j <= bound :: !GroupAt(ns, t, segs[..j])
  {
    if bound == 1 then
      assert segs[..1] == [ns];
      1
    else if GroupAt(ns, t, segs[..bound]) then bound
    else DeepestGroup(ns, t, segs, bound - 1)
  }

  /** The first address on the way to `(kind, segs)` where the two trees part
      lies under a group of both, bumped with authority. */
  lemma PartingIsBump(ns: string, t: ConfigGroup, t': ConfigGroup, on: bool, at: Holding, allowed: Authorization,
                      kind: Kind, segs: seq<string>, i: nat)
    requires Follows(ns, t, t', on, at, allowed)
    requires 1 <= i < |segs| && GroupAt(ns, t, segs[..i]) && GroupAt(ns, t', segs[..i])
    requires var k := KindOnTheWay(kind, segs, i + 1);
      Element(ns, t, k, segs[..i + 1]).Some? != Element(ns, t', k, segs[..i + 1]).Some?
    ensures GroupBumped(ns, t, t', segs[..i], allowed)
  {
    assert segs[..i + 1] == segs[..i] + [segs[i]];
    ShapeChangeIsBump(ns, t, t', on, at, allowed, segs[..i], KindOnTheWay(kind, segs, i + 1), segs[i]);
  }

  /** Every added element hangs below its nearest pre-existing group, and that group was bumped with authority. */
  lemma AddedBelowBump(ns: string, t: ConfigGroup, t': ConfigGroup, on: bool, at: Holding, allowed: Authorization,
                       kind: Kind, segs: seq<string>) returns (i: nat)
    requires Follows(ns, t, t', on, at, allowed)
    requires Element(ns, t, kind, segs).None? && Element(ns, t', kind, segs).Some?
    ensures 1 <= i < |segs| && GroupBumped(ns, t, t', segs[..i], allowed)
    ensures forall j | i < j < |segs| :: !GroupAt(ns, t, segs[..j])
  {
    assert |segs| >= 2;
    i := DeepestGroup(ns, t, segs, |segs| - 1);
    AncestorExists(ns, t', kind, segs, i);
    if i + 1 < |segs| { AncestorExists(ns, t', kind, segs, i + 1); }
    NotAGroup(ns, t, segs[..i + 1]);
    assert i + 1 == |segs| ==> segs[..i + 1] == segs;
    PartingIsBump(ns, t, t', on, at, allowed, kind, segs, i);
  }

  lemma NotAGroup(ns: string, t: ConfigGroup, segs: seq<string>)
    ensures Element(ns, t, GroupKind, segs).Some? ==> GroupAt(ns, t, segs)
  {
    if Element(ns, t, GroupKind, segs).Some? { DescendKind(t, GroupKind, segs[1..]); }
  }

  /** Every vanished element has a group above it that exists before and after and was bumped with authority. */
  lemma VanishedBelowBump(ns: string, t: ConfigGroup, t': ConfigGroup, on: bool, at: Holding, allowed: Authorization,
                          kind: Kind, segs: seq<string>) returns (i: nat)
    requires Follows(ns, t, t', on, at, allowed)
    requires Element(ns, t, kind, segs).Some? && Element(ns, t', kind, segs).None?
    ensures 1 <= i < |segs| && GroupBumped(ns, t, t', segs[..i], allowed)
    ensures forall j | i < j < |segs| :: !GroupAt(ns, t', segs[..j])
  {
    assert |segs| >= 2;
    i := DeepestGroup(ns, t', segs, |segs| - 1);
    AncestorExists(ns, t, kind, segs, i);
    if i + 1 < |segs| { AncestorExists(ns, t, kind, segs, i + 1); }
    NotAGroup(ns, t', segs[..i + 1]);
    assert i + 1 == |segs| ==> segs[..i + 1] == segs;
    PartingIsBump(ns, t, t', on, at, allowed, kind, segs, i);
  }
}
