/** Exactly which updates are accepted and what tree they lead to, in terms of the trees alone. */
module ConfigAcceptance {
  import opened Wrappers
  import Strings
  import opened ConfigTree
  import opened ConfigPaths
  import opened ConfigMap
  import opened ConfigRebuild
  import opened ConfigCoherence
  import opened ConfigRoundTrip
  import opened ConfigMoves
  import opened PolicyManager
  import opened ConfigUpdate
  import opened ConfigSafety

  // ----- what an update reads and writes -----

  ghost predicate LegalSet(ns: string, g: Option<ConfigGroup>) {
    g.Some? ==> LegalTree(ns, g.value)
  }

  ghost function ElementOf(ns: string, g: Option<ConfigGroup>, kind: Kind, segs: seq<string>): Option<Body> {
    if g.Some? then Element(ns, g.value, kind, segs) else None
  }

  /** The write set has the element, and not merely to repeat what the read set says. */
  ghost predicate Written(ns: string, u: Update, kind: Kind, segs: seq<string>) {
    var read, write := ElementOf(ns, u.readSet, kind, segs), ElementOf(ns, u.writeSet, kind, segs);
    write.Some? && !(read.Some? && read.value.Version() == write.value.Version())
  }

  ghost predicate ReadOk(v: Validator, u: Update, kind: Kind, segs: seq<string>) {
    var read, now := ElementOf(v.namespace, u.readSet, kind, segs), Element(v.namespace, v.channelGroup, kind, segs);
    read.Some? ==> now.Some? && now.value.Version() == read.value.Version()
  }

  /** A usable mod_policy, and one version up with the present mod_policy satisfied, or a new element at version 0. */
  ghost predicate WriteOk(v: Validator, u: Update, signedData: seq<SignedData>, kind: Kind, segs: seq<string>) {
    Written(v.namespace, u, kind, segs) ==>
      var x := ElementOf(v.namespace, u.writeSet, kind, segs).value;
      && ValidModPolicy(x.ModPolicy())
      && match Element(v.namespace, v.channelGroup, kind, segs)
         case Some(b) => x.Version() == Next(b.Version()) && Authority(v, signedData)(segs, b)
         case None => x.Version() == 0
  }

  lemma SetAt(ns: string, g: Option<ConfigGroup>, kind: Kind, segs: seq<string>)
    requires LegalSet(ns, g) && segs != [] && LegalPath(segs)
    ensures MapConfigSpec(g, ns).Ok? && View(MapConfigSpec(g, ns).value)(kind, segs) == ElementOf(ns, g, kind, segs)
  {
    if g.Some? { ReadFlatten(ns, g.value, kind, segs); }
  }

  lemma SetEntry(ns: string, g: Option<ConfigGroup>, s: string) returns (kind: Kind, segs: seq<string>)
    requires LegalSet(ns, g) && MapConfigSpec(g, ns).Ok? && s in MapConfigSpec(g, ns).value
    ensures segs != [] && LegalPath(segs) && s == FqPath(kind, segs)
    ensures ElementOf(ns, g, kind, segs) == Some(MapConfigSpec(g, ns).value[s].body)
  {
    FlattenEntry(ns, g.value, s);
    var x := Flatten(ns, g.value)[s];
    kind, segs := x.body.Kind(), x.Segments();
  }

  lemma SetLegal(ns: string, g: Option<ConfigGroup>, kind: Kind, segs: seq<string>)
    requires LegalSet(ns, g) && ElementOf(ns, g, kind, segs).Some?
    ensures segs != [] && LegalPath(segs)
  {
    ElementLegal(ns, g.value, kind, segs);
  }

  lemma ReadsIff(v: Validator, env: Envelope)
    requires Valid(v) && WellFormed(v, env)
    ensures ReadSetOk(v.configMap, Reads(v.namespace, env)) <==>
            forall kind, segs :: ReadOk(v, env.update.value, kind, segs)
  {
    var ns, u := v.namespace, env.update.value;
    if ReadSetOk(v.configMap, Reads(ns, env)) {
      forall kind, segs ensures ReadOk(v, u, kind, segs) {
        if ElementOf(ns, u.readSet, kind, segs).Some? {
          SetLegal(ns, u.readSet, kind, segs);
          SetAt(ns, u.readSet, kind, segs);
          ReadFlatten(ns, v.channelGroup, kind, segs);
          assert FqPath(kind, segs) in Reads(ns, env);
        }
      }
    }
    if forall kind, segs :: ReadOk(v, u, kind, segs) {
      forall s | s in Reads(ns, env)
        ensures s in v.configMap && v.configMap[s].body.Version() == Reads(ns, env)[s].body.Version()
      {
        var kind, segs := SetEntry(ns, u.readSet, s);
        assert ReadOk(v, u, kind, segs);
        ReadFlatten(ns, v.channelGroup, kind, segs);
      }
    }
  }

  lemma WrittenIff(v: Validator, env: Envelope, kind: Kind, segs: seq<string>)
    requires Valid(v) && WellFormed(v, env) && segs != [] && LegalPath(segs)
    ensures FqPath(kind, segs) in Changes(v.namespace, env) <==> Written(v.namespace, env.update.value, kind, segs)
    ensures Written(v.namespace, env.update.value, kind, segs) ==>
      Some(Changes(v.namespace, env)[FqPath(kind, segs)].body)
      == ElementOf(v.namespace, env.update.value.writeSet, kind, segs)
  {
    SetAt(v.namespace, env.update.value.readSet, kind, segs);
    SetAt(v.namespace, env.update.value.writeSet, kind, segs);
  }

  lemma EntryOkIff(v: Validator, env: Envelope, kind: Kind, segs: seq<string>)
    requires Valid(v) && WellFormed(v, env) && segs != [] && LegalPath(segs)
    requires FqPath(kind, segs) in Changes(v.namespace, env)
    ensures
      DeltaEntryOk(v, env.signedData.value, FqPath(kind, segs), Changes(v.namespace, env)[FqPath(kind, segs)]) <==>
      WriteOk(v, env.update.value, env.signedData.value, kind, segs)
  {
    WrittenIff(v, env, kind, segs);
    ReadFlatten(v.namespace, v.channelGroup, kind, segs);
    if Element(v.namespace, v.channelGroup, kind, segs).Some? {
      ElementInFlatten(v.namespace, v.channelGroup, kind, segs);
    }
  }

  lemma WritesSound(v: Validator, env: Envelope)
    requires Valid(v) && WellFormed(v, env) && DeltaSetOk(v, env.signedData.value, Changes(v.namespace, env))
    ensures exists kind, segs :: Written(v.namespace, env.update.value, kind, segs)
    ensures forall kind, segs :: WriteOk(v, env.update.value, env.signedData.value, kind, segs)
  {
    var ns, u, d := v.namespace, env.update.value, Changes(v.namespace, env);
    var s :| s in d;
    var kind0, segs0 := SetEntry(ns, u.writeSet, s);
    WrittenIff(v, env, kind0, segs0);
    forall kind, segs ensures WriteOk(v, u, env.signedData.value, kind, segs) {
      if Written(ns, u, kind, segs) {
        SetLegal(ns, u.writeSet, kind, segs);
        WrittenIff(v, env, kind, segs);
        EntryOkIff(v, env, kind, segs);
      }
    }
  }

  lemma WritesComplete(v: Validator, env: Envelope, kind0: Kind, segs0: seq<string>)
    requires Valid(v) && WellFormed(v, env) && Written(v.namespace, env.update.value, kind0, segs0)
    requires forall kind, segs :: WriteOk(v, env.update.value, env.signedData.value, kind, segs)
    ensures DeltaSetOk(v, env.signedData.value, Changes(v.namespace, env))
  {
    var ns, u, d := v.namespace, env.update.value, Changes(v.namespace, env);
    SetLegal(ns, u.writeSet, kind0, segs0);
    WrittenIff(v, env, kind0, segs0);
    forall s | s in d ensures DeltaEntryOk(v, env.signedData.value, s, d[s]) {
      var kind, segs := SetEntry(ns, u.writeSet, s);
      assert WriteOk(v, u, env.signedData.value, kind, segs);
      EntryOkIff(v, env, kind, segs);
    }
  }

  /** An update is accepted exactly if it is for this channel, its sets have legal names, everything it read is there at
      the version it read, and it writes something, all of which it may write. */
  lemma AcceptedExactly(v: Validator, env: Envelope)
    requires Valid(v) && env.update.Ok? && env.signedData.Ok?
    ensures
      var u := env.update.value;
      ProposeSpec(v, env).Ok? <==>
        && u.channelId == v.channelID && LegalSet(v.namespace, u.readSet) && LegalSet(v.namespace, u.writeSet)
        && (forall kind, segs :: ReadOk(v, u, kind, segs))
        && (exists kind, segs :: Written(v.namespace, u, kind, segs))
        && (forall kind, segs :: WriteOk(v, u, env.signedData.value, kind, segs))
  {
    AcceptedIff(v, env);
    if WellFormed(v, env) {
      ReadsIff(v, env);
      if DeltaSetOk(v, env.signedData.value, Changes(v.namespace, env)) { WritesSound(v, env); }
      if kind, segs :| Written(v.namespace, env.update.value, kind, segs) {
        if forall kind, segs :: WriteOk(v, env.update.value, env.signedData.value, kind, segs) {
          WritesComplete(v, env, kind, segs);
        }
      }
    }
  }

  // ----- the tree an update leads to -----

  /** What an address is to hold: what is written there, else what was there. */
  ghost function Held(v: Validator, u: Update, kind: Kind, segs: seq<string>): Option<Body> {
    if Written(v.namespace, u, kind, segs) then ElementOf(v.namespace, u.writeSet, kind, segs)
    else Element(v.namespace, v.channelGroup, kind, segs)
  }

  lemma ProposedHeld(v: Validator, env: Envelope, kind: Kind, segs: seq<string>)
    requires Valid(v) && WellFormed(v, env) && segs != [] && LegalPath(segs)
    ensures View(Proposed(v, env))(kind, segs) == Held(v, env.update.value, kind, segs)
  {
    WrittenIff(v, env, kind, segs);
    ReadFlatten(v.namespace, v.channelGroup, kind, segs);
  }

  /** The group held at the first `d` keys declares the next one. */
  ghost predicate Linked(held: Holding, kind: Kind, segs: seq<string>, d: nat) {
    && 1 <= d < |segs|
    && held(GroupKind, segs[..d]).Some? && held(GroupKind, segs[..d]).value.GroupBody?
    && Declares(held(GroupKind, segs[..d]).value.group, KindOnTheWay(kind, segs, d + 1), segs[d])
  }

  /** From the root down, every group on the way declares the next key. */
  ghost predicate AllLinked(ns: string, held: Holding, kind: Kind, segs: seq<string>) {
    && segs != [] && segs[0] == ns && (|segs| == 1 ==> kind == GroupKind)
    && forall d | 1 <= d < |segs| :: Linked(held, kind, segs, d)
  }

  /** Whatever is in the tree has the own content of what its address holds. */
  ghost predicate Reflects(on: bool, held: Holding, ns: string, t: ConfigGroup) {
    forall kind, segs | Element(ns, t, kind, segs).Some? ::
      held(kind, segs).Some? && SameOwn(on, held(kind, segs).value, Element(ns, t, kind, segs).value)
  }

  lemma RootElement(ns: string, t: ConfigGroup, kind: Kind, segs: seq<string>)
    requires |segs| == 1
    ensures Element(ns, t, kind, segs).Some? <==> segs[0] == ns && kind == GroupKind
  {
  }

  lemma OwnDeclares(on: bool, b: Body, b': Body, kind: Kind, k: string)
    requires SameOwn(on, b, b')
    ensures b.GroupBody? <==> b'.GroupBody?
    ensures b.GroupBody? ==> (Declares(b.group, kind, k) <==> Declares(b'.group, kind, k))
  {
  }

  /** One level down: a child is in the tree exactly if its group is and declares it. */
  lemma ChildLinked(on: bool, held: Holding, ns: string, t: ConfigGroup, kind: Kind, up: seq<string>, k: string)
    requires Reflects(on, held, ns, t) && up != [] && Element(ns, t, GroupKind, up).Some?
    ensures held(GroupKind, up).Some? && held(GroupKind, up).value.GroupBody?
    ensures Element(ns, t, kind, up + [k]).Some? <==> Declares(held(GroupKind, up).value.group, kind, k)
  {
    ElementChild(ns, t, kind, up, k);
    NotAGroup(ns, t, up);
    OwnDeclares(on, held(GroupKind, up).value, Element(ns, t, GroupKind, up).value, kind, k);
  }

  /** The first `i` keys are in the tree exactly if the links up to there hold. */
  lemma {:induction false} ThereIff(on: bool, held: Holding, ns: string, t: ConfigGroup, kind: Kind, segs: seq<string>,
                                    i: nat)
    requires Reflects(on, held, ns, t) && 1 <= i <= |segs|
    ensures Element(ns, t, KindOnTheWay(kind, segs, i), segs[..i]).Some? <==>
            && segs[0] == ns && (|segs| == 1 ==> kind == GroupKind)
            && forall d | 1 <= d < i :: Linked(held, kind, segs, d)
  {
    if i == 1 {
      RootElement(ns, t, KindOnTheWay(kind, segs, 1), segs[..1]);
    } else {
      ThereIff(on, held, ns, t, kind, segs, i - 1);
      ThereNext(on, held, ns, t, kind, segs, i);
    }
  }

  lemma ThereNext(on: bool, held: Holding, ns: string, t: ConfigGroup, kind: Kind, segs: seq<string>, i: nat)
    requires Reflects(on, held, ns, t) && 2 <= i <= |segs|
    ensures Element(ns, t, KindOnTheWay(kind, segs, i), segs[..i]).Some? <==>
            Element(ns, t, GroupKind, segs[..i - 1]).Some? && Linked(held, kind, segs, i - 1)
  {
    var up, k, c := segs[..i - 1], segs[i - 1], KindOnTheWay(kind, segs, i);
    assert segs[..i] == up + [k];
    if Element(ns, t, GroupKind, up).Some? {
      ChildLinked(on, held, ns, t, c, up, k);
    } else {
      ElementChild(ns, t, c, up, k);
    }
  }

  lemma ReflectsExactly(on: bool, held: Holding, ns: string, t: ConfigGroup, kind: Kind, segs: seq<string>)
    requires Reflects(on, held, ns, t)
    ensures Element(ns, t, kind, segs).Some? <==> AllLinked(ns, held, kind, segs)
  {
    if segs != [] {
      ThereIff(on, held, ns, t, kind, segs, |segs|);
      assert segs[..|segs|] == segs;
    }
  }

  lemma MirrorAt(on: bool, at: Holding, ns: string, t: ConfigGroup, kind: Kind, segs: seq<string>)
    requires Mirrors(on, at, [ns], t) && Element(ns, t, kind, segs).Some?
    ensures MirrorsAt(on, at, kind, segs, Element(ns, t, kind, segs).value)
  {
    MirrorElement(on, at, [ns], t, kind, segs[1..]);
    assert [ns] + segs[1..] == segs;
  }

  ghost function Holds(v: Validator, u: Update): Holding {
    (kind, segs) => Held(v, u, kind, segs)
  }

  lemma NewTreeReflects(v: Validator, env: Envelope)
    requires Valid(v) && ProposeSpec(v, env).Ok?
    ensures env.update.Ok?
    ensures Reflects(FixOn(Proposed(v, env)), Holds(v, env.update.value), v.namespace, NewTree(v, env))
  {
    AcceptedIff(v, env);
    NewTreeIs(v, env);
    var ns, on, t' := v.namespace, FixOn(Proposed(v, env)), NewTree(v, env);
    forall kind, segs | Element(ns, t', kind, segs).Some?
      ensures Held(v, env.update.value, kind, segs).Some?
      ensures SameOwn(on, Held(v, env.update.value, kind, segs).value, Element(ns, t', kind, segs).value)
    {
      ElementLegal(ns, t', kind, segs);
      ProposedHeld(v, env, kind, segs);
      MirrorAt(on, View(Proposed(v, env)), ns, t', kind, segs);
    }
  }

  /** The new tree, exactly: an address is in it if every group on the way down, as written or else as it was, declares
      the next key, and then has what is written there, or else what was there. */
  lemma NewTreeExactly(v: Validator, env: Envelope, kind: Kind, segs: seq<string>)
    requires Valid(v) && ProposeSpec(v, env).Ok?
    ensures env.update.Ok?
    ensures Element(v.namespace, NewTree(v, env), kind, segs).Some? <==>
            AllLinked(v.namespace, Holds(v, env.update.value), kind, segs)
    ensures Element(v.namespace, NewTree(v, env), kind, segs).Some? ==>
      && Held(v, env.update.value, kind, segs).Some?
      && SameOwn(FixOn(Proposed(v, env)), Held(v, env.update.value, kind, segs).value,
                 Element(v.namespace, NewTree(v, env), kind, segs).value)
  {
    NewTreeReflects(v, env);
    var held := Holds(v, env.update.value);
    assert held(kind, segs) == Held(v, env.update.value, kind, segs);
    ReflectsExactly(FixOn(Proposed(v, env)), held, v.namespace, NewTree(v, env), kind, segs);
  }

  /** A write is lost, although the update is accepted, if neither the group it is for is written nor the group as it
      was has the key. */
  lemma LostWrite(v: Validator, env: Envelope, kind: Kind, up: seq<string>, k: string)
    requires Valid(v) && ProposeSpec(v, env).Ok? && up != [] && env.update.Ok?
    requires !Written(v.namespace, env.update.value, GroupKind, up)
    requires Element(v.namespace, v.channelGroup, kind, up + [k]).None?
    ensures Element(v.namespace, NewTree(v, env), kind, up + [k]).None?
  {
    var segs := up + [k];
    NewTreeExactly(v, env, kind, segs);
    var held := Holds(v, env.update.value);
    if AllLinked(v.namespace, held, kind, segs) {
      assert Linked(held, kind, segs, |up|);
      assert segs[..|up|] == up;
      ElementChild(v.namespace, v.channelGroup, kind, up, k);
    }
  }

  /** An update that repeats the root group, as read, around one new value. */
  function OneValue(v: Validator, k: string, signedData: seq<SignedData>): Envelope {
    var root := ConfigGroup(v.channelGroup.version, map[], map[], map[], "");
    var write := root.(values := map[k := ConfigValue(0, [], "Admins")]);
    Envelope(Ok(Update(v.channelID, Some(root), Some(write))), Ok(signedData))
  }

  lemma OneValueElements(v: Validator, k: string, signedData: seq<SignedData>, kind: Kind, segs: seq<string>)
    ensures var u := OneValue(v, k, signedData).update.value;
      && (ElementOf(v.namespace, u.readSet, kind, segs).Some? <==> kind == GroupKind && segs == [v.namespace])
      && (Written(v.namespace, u, kind, segs) <==> kind == ValueKind && segs == [v.namespace, k])
  {
    if segs != [] && segs[0] == v.namespace {
      assert segs == [segs[0]] + segs[1..];
      if |segs| == 2 { assert segs[1..] == [segs[1]]; }
    }
  }

  lemma AdminsIsUsable()
    ensures ValidModPolicy("Admins")
  {
    Strings.SplitWhole("Admins", '/');
  }

  lemma OneValueLegal(v: Validator, k: string, signedData: seq<SignedData>)
    requires Valid(v) && ValidConfigID(k)
    ensures LegalSet(v.namespace, OneValue(v, k, signedData).update.value.readSet)
    ensures LegalSet(v.namespace, OneValue(v, k, signedData).update.value.writeSet)
  {
  }

  lemma OneValueOk(v: Validator, k: string, signedData: seq<SignedData>, kind: Kind, segs: seq<string>)
    requires Valid(v) && k !in v.channelGroup.values
    ensures ReadOk(v, OneValue(v, k, signedData).update.value, kind, segs)
    ensures WriteOk(v, OneValue(v, k, signedData).update.value, signedData, kind, segs)
  {
    OneValueElements(v, k, signedData, kind, segs);
    AdminsIsUsable();
    assert [v.namespace, k][1..] == [k] && [v.namespace][1..] == [];
  }

  lemma OneValueAccepted(v: Validator, k: string, signedData: seq<SignedData>)
    requires Valid(v) && ValidConfigID(k) && k !in v.channelGroup.values
    ensures ProposeSpec(v, OneValue(v, k, signedData)).Ok?
  {
    var env := OneValue(v, k, signedData);
    OneValueLegal(v, k, signedData);
    forall kind, segs
      ensures ReadOk(v, env.update.value, kind, segs) && WriteOk(v, env.update.value, signedData, kind, segs)
    {
      OneValueOk(v, k, signedData, kind, segs);
    }
    OneValueElements(v, k, signedData, ValueKind, [v.namespace, k]);
    AcceptedExactly(v, env);
  }

  /** Such an update is accepted, and the value is not in the new tree. */
  lemma LostWriteExample(v: Validator, k: string, signedData: seq<SignedData>)
    requires Valid(v) && ValidConfigID(k) && k !in v.channelGroup.values
    ensures var env := OneValue(v, k, signedData);
      && ProposeSpec(v, env).Ok? && Written(v.namespace, env.update.value, ValueKind, [v.namespace, k])
      && Element(v.namespace, NewTree(v, env), ValueKind, [v.namespace, k]).None?
  {
    var env, ns := OneValue(v, k, signedData), v.namespace;
    OneValueAccepted(v, k, signedData);
    OneValueElements(v, k, signedData, ValueKind, [ns, k]);
    OneValueElements(v, k, signedData, GroupKind, [ns]);
    assert [ns] + [k] == [ns, k] && [ns, k][1..] == [k];
    LostWrite(v, env, ValueKind, [ns], k);
  }
}
