/** What every accepted config update does to the configuration tree. */
module ConfigSafety {
  import opened Wrappers
  import opened ConfigTree
  import opened ConfigPaths
  import opened ConfigMap
  import opened ConfigRebuild
  import opened ConfigCoherence
  import opened ConfigRoundTrip
  import opened ConfigMoves
  import opened ConfigUpdate

  // ----- the contents of an update -----

  ghost function Reads(ns: string, env: Envelope): Flat {
    if env.update.Ok? && MapConfigSpec(env.update.value.readSet, ns).Ok? then
      MapConfigSpec(env.update.value.readSet, ns).value
    else map[]
  }

  ghost function Writes(ns: string, env: Envelope): Flat {
    if env.update.Ok? && MapConfigSpec(env.update.value.writeSet, ns).Ok? then
      MapConfigSpec(env.update.value.writeSet, ns).value
    else map[]
  }

  ghost function Changes(ns: string, env: Envelope): Flat {
    DeltaSet(Reads(ns, env), Writes(ns, env))
  }

  /** The old map with the update's changes written over it. */
  ghost function Proposed(v: Validator, env: Envelope): Flat {
    v.configMap + Changes(v.namespace, env)
  }

  ghost predicate WellFormed(v: Validator, env: Envelope) {
    && env.update.Ok? && env.update.value.channelId == v.channelID && env.signedData.Ok?
    && MapConfigSpec(env.update.value.readSet, v.namespace).Ok?
    && MapConfigSpec(env.update.value.writeSet, v.namespace).Ok?
  }

  lemma WritesCoherent(ns: string, env: Envelope)
    ensures WellKeyed(Writes(ns, env)) && Closed(Writes(ns, env))
  {
    if env.update.Ok? && env.update.value.writeSet.Some? && LegalTree(ns, env.update.value.writeSet.value) {
      FlattenCoherent(ns, env.update.value.writeSet.value);
    }
  }

  // ----- after the read-set and delta-set checks nothing can fail any more -----

  lemma MixtureWellKeyed(a: Flat, b: Flat, m: Flat)
    requires WellKeyed(a) && WellKeyed(b)
    requires forall s | s in m :: (s in a && m[s] == a[s]) || (s in b && m[s] == b[s])
    ensures WellKeyed(m)
  {
  }

  lemma MixtureClosed(a: Flat, b: Flat, m: Flat)
    requires Closed(a) && Closed(b) && a.Keys <= m.Keys && b.Keys <= m.Keys
    requires forall s | s in m :: (s in a && m[s] == a[s]) || (s in b && m[s] == b[s])
    ensures Closed(m)
  {
    forall s, kind, k | s in m && m[s].body.GroupBody? && Declares(m[s].body.group, kind, k)
      ensures ValidConfigID(k) && FqPath(kind, m[s].Segments() + [k]) in m
    {
      var c := if s in a && m[s] == a[s] then a else b;
      assert c[s].body.GroupBody? && Declares(c[s].body.group, kind, k);
      assert FqPath(kind, c[s].Segments() + [k]) in c.Keys;
    }
  }

  lemma OverlayCoherent(ns: string, current: Flat, readSet: Flat, writeSet: Flat)
    requires Coherent(ns, current) && WellKeyed(writeSet) && Closed(writeSet) && ReadSetOk(current, readSet)
    ensures writeSet.Keys <= (current + DeltaSet(readSet, writeSet)).Keys
    ensures Coherent(ns, current + DeltaSet(readSet, writeSet))
  {
    var full := current + DeltaSet(readSet, writeSet);
    assert forall s | s in full :: (s in current && full[s] == current[s]) || (s in writeSet && full[s] == writeSet[s]);
    MixtureWellKeyed(current, writeSet, full);
    MixtureClosed(current, writeSet, full);
  }

  ghost predicate ChecksPass(v: Validator, env: Envelope) {
    && WellFormed(v, env)
    && ReadSetOk(v.configMap, Reads(v.namespace, env))
    && DeltaSetOk(v, env.signedData.value, Changes(v.namespace, env))
  }

  lemma AuthorizedIff(v: Validator, env: Envelope)
    requires ReadSetOk(v.configMap, Reads(v.namespace, env)) ==> Writes(v.namespace, env).Keys <= Proposed(v, env).Keys
    ensures AuthorizeSpec(v, env) == if ChecksPass(v, env) then Ok(Proposed(v, env)) else Err
  {
  }

  lemma ProposedCoherent(v: Validator, env: Envelope)
    requires Valid(v) && ReadSetOk(v.configMap, Reads(v.namespace, env))
    ensures Writes(v.namespace, env).Keys <= Proposed(v, env).Keys
    ensures Coherent(v.namespace, Proposed(v, env))
  {
    FlattenCoherent(v.namespace, v.channelGroup);
    WritesCoherent(v.namespace, env);
    OverlayCoherent(v.namespace, v.configMap, Reads(v.namespace, env), Writes(v.namespace, env));
  }

  /** An update is accepted exactly when it is well formed and passes the read-set and the delta-set check:
      the later comparison with the write set and the rebuilding never reject. */
  lemma AcceptedIff(v: Validator, env: Envelope)
    requires Valid(v)
    ensures ProposeSpec(v, env).Ok? <==> ChecksPass(v, env)
    ensures ProposeSpec(v, env).Ok? ==>
      AuthorizeSpec(v, env) == Ok(Proposed(v, env)) && Coherent(v.namespace, Proposed(v, env))
  {
    if ReadSetOk(v.configMap, Reads(v.namespace, env)) {
      ProposedCoherent(v, env);
      CoherentRebuilds(v.namespace, Proposed(v, env));
    }
    AuthorizedIff(v, env);
  }

  // ----- every change in the tree is authorised -----

  /** Changing an element takes a signature set that satisfies the element's own mod_policy. */
  ghost function Authority(v: Validator, signedData: seq<SignedData>): Authorization {
    (segs, b) =>
      segs != [] && match PolicyForItem(v.pm, ItemAt(b, segs))
                    case Found(policy) => v.satisfied(policy, signedData)
                    case RejectAll => false
                    case Panic => false
  }

  /** The tree that an accepted update leads to. */
  ghost function NewTree(v: Validator, env: Envelope): ConfigGroup
    requires ProposeSpec(v, env).Ok?
  {
    ProposeSpec(v, env).value.config.value.channelGroup.value
  }

  lemma NewTreeIs(v: Validator, env: Envelope)
    requires Valid(v) && ProposeSpec(v, env).Ok?
    ensures LegalTree(v.namespace, NewTree(v, env))
    ensures Mirrors(FixOn(Proposed(v, env)), View(Proposed(v, env)), [v.namespace], NewTree(v, env))
  {
    AcceptedIff(v, env);
    CoherentTree(v.namespace, Proposed(v, env));
  }

  lemma ProposalMoves(v: Validator, env: Envelope)
    requires Valid(v) && ProposeSpec(v, env).Ok?
    ensures env.signedData.Ok?
    ensures Moves(v.namespace, v.channelGroup, View(Proposed(v, env)), Authority(v, env.signedData.value))
  {
    AcceptedIff(v, env);
    var ns, d := v.namespace, Changes(v.namespace, env);
    forall kind, segs | segs != [] && LegalPath(segs) && View(Proposed(v, env))(kind, segs).Some?
      ensures MoveOk(Element(ns, v.channelGroup, kind, segs), View(Proposed(v, env))(kind, segs).value, segs,
                     Authority(v, env.signedData.value))
    {
      DeltaMove(v, env.signedData.value, d, kind, segs);
    }
  }

  lemma DeltaMove(v: Validator, signedData: seq<SignedData>, d: Flat, kind: Kind, segs: seq<string>)
    requires Valid(v) && DeltaSetOk(v, signedData, d) && segs != [] && LegalPath(segs)
    requires FqPath(kind, segs) in v.configMap + d
    ensures MoveOk(Element(v.namespace, v.channelGroup, kind, segs), (v.configMap + d)[FqPath(kind, segs)].body, segs,
                   Authority(v, signedData))
  {
    var s := FqPath(kind, segs);
    ReadFlatten(v.namespace, v.channelGroup, kind, segs);
    if s in d {
      assert DeltaEntryOk(v, signedData, s, d[s]);
    }
    if s in v.configMap {
      ElementInFlatten(v.namespace, v.channelGroup, kind, segs);
    }
  }

  lemma ProposalFollows(v: Validator, env: Envelope)
    requires Valid(v) && ProposeSpec(v, env).Ok?
    ensures env.signedData.Ok?
    ensures Follows(v.namespace, v.channelGroup, NewTree(v, env), FixOn(Proposed(v, env)), View(Proposed(v, env)),
                    Authority(v, env.signedData.value))
  {
    NewTreeIs(v, env);
    ProposalMoves(v, env);
  }

  /** The authorisation theorem: comparing the trees before and after an accepted update at any address, an element
      present in both keeps version and own content or is one version higher with its old mod_policy satisfied; an added
      element is at version 0 and its nearest pre-existing group was bumped under that group's policy; a vanished
      element has a surviving group above it that was bumped under its policy. */
  lemma EveryChangeIsAuthorized(v: Validator, env: Envelope, kind: Kind, segs: seq<string>)
    requires Valid(v) && ProposeSpec(v, env).Ok?
    ensures env.signedData.Ok?
    ensures
      var ns, t, t', allowed := v.namespace, v.channelGroup, NewTree(v, env), Authority(v, env.signedData.value);
      match (Element(ns, t, kind, segs), Element(ns, t', kind, segs))
      case (Some(before), Some(after)) =>
        SameOwn(FixOn(Proposed(v, env)), before, after) || Bumped(before, after, segs, allowed)
      case (None, Some(after)) =>
        && after.Version() == 0
        && exists i | 1 <= i < |segs| ::
             GroupBumped(ns, t, t', segs[..i], allowed) && forall j | i < j < |segs| :: !GroupAt(ns, t, segs[..j])
      case (Some(before), None) =>
        exists i | 1 <= i < |segs| :: GroupBumped(ns, t, t', segs[..i], allowed)
      case (None, None) => true
  {
    ProposalFollows(v, env);
    var ns, t, t', allowed := v.namespace, v.channelGroup, NewTree(v, env), Authority(v, env.signedData.value);
    var on, at := FixOn(Proposed(v, env)), View(Proposed(v, env));
    match (Element(ns, t, kind, segs), Element(ns, t', kind, segs))
    case (Some(before), Some(after)) => KeptOrBumped(ns, t, t', on, at, allowed, kind, segs);
    case (None, Some(after)) =>
      AddedAtZero(ns, t, t', on, at, allowed, kind, segs);
      var i := AddedBelowBump(ns, t, t', on, at, allowed, kind, segs);
    case (Some(before), None) =>
      var i := VanishedBelowBump(ns, t, t', on, at, allowed, kind, segs);
    case (None, None) =>
  }

  /** Signatures that satisfy no element's mod_policy cannot change the tree,
      beyond the filling of empty mod_policy fields. */
  lemma NoAuthorityNoChange(v: Validator, env: Envelope)
    requires Valid(v) && ProposeSpec(v, env).Ok?
    requires env.signedData.Ok? ==> forall x | x in Items([], v.namespace, v.channelGroup) ::
      !PolicySatisfied(v, env.signedData.value, x)
    ensures NewTree(v, env) == FilledTree(FixOn(Proposed(v, env)), v.channelGroup)
  {
    AcceptedIff(v, env);
    NewTreeIs(v, env);
    var ns, t, full := v.namespace, v.channelGroup, Proposed(v, env);
    forall x | x in Items([], ns, t) ensures View(full)(x.body.Kind(), x.Segments()) == Some(x.body) {
      FlattenAt(ns, t, x);
      var s, d := FqPathOf(x), Changes(ns, env);
      assert s !in d;
    }
    HoldsItems(View(full), [], ns, t);
    assert [] + [ns] == [ns];
    MirrorsHeld(FixOn(full), View(full), [ns], t, NewTree(v, env));
  }
}
