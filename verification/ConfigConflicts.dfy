/** Optimistic concurrency: an update prepared against outdated elements is rejected, in every later state of a run. */
module ConfigConflicts {
  import opened Wrappers
  import opened ConfigTree
  import opened ConfigPaths
  import opened ConfigMap
  import opened ConfigRebuild
  import opened ConfigCoherence
  import opened ConfigRoundTrip
  import opened ConfigMoves
  import opened ConfigUpdate
  import opened ConfigSafety

  lemma TakeSnoc<T>(s: seq<T>, i: nat)
    requires 1 <= i <= |s|
    ensures s[..i] == s[..i - 1] + [s[i - 1]] && s[..|s|] == s
  {
  }

  lemma SurvivesStep(ns: string, t: ConfigGroup, t': ConfigGroup, on: bool, at: Holding, up: seq<string>, c: Kind,
                     k: string)
    requires Mirrors(on, at, [ns], t') && up != [] && GroupAt(ns, t', up)
    requires at(GroupKind, up) == Element(ns, t, GroupKind, up) && Element(ns, t, c, up + [k]).Some?
    ensures Element(ns, t', c, up + [k]).Some?
  {
    ElementChild(ns, t, c, up, k);
    MirrorElement(on, at, [ns], t', GroupKind, up[1..]);
    assert [ns] + up[1..] == up;
    SameDeclares(on, Element(ns, t, GroupKind, up).value, Element(ns, t', GroupKind, up).value, c, k);
    ElementChild(ns, t', c, up, k);
  }

  lemma SameDeclares(on: bool, b: Body, b': Body, c: Kind, k: string)
    requires SameOwn(on, b, b') && b.GroupBody?
    ensures b'.GroupBody? && Declares(b.group, c, k) == Declares(b'.group, c, k)
  {
  }

  /** On the way to `segs` the holding has the groups of `t` or those of `w`. */
  ghost predicate FromEither(ns: string, t: ConfigGroup, w: ConfigGroup, at: Holding, segs: seq<string>) {
    forall j | 1 <= j < |segs| ::
      || at(GroupKind, segs[..j]) == Element(ns, t, GroupKind, segs[..j])
      || at(GroupKind, segs[..j]) == Element(ns, w, GroupKind, segs[..j])
  }

  /** A path that both the old tree and the write set know survives in a tree
      read off either of them, level by level. */
  lemma {:induction false} PathSurvives(ns: string, t: ConfigGroup, w: ConfigGroup, t': ConfigGroup, on: bool,
                                        at: Holding, kind: Kind, segs: seq<string>, i: nat)
    requires Mirrors(on, at, [ns], t')
    requires Element(ns, t, kind, segs).Some? && Element(ns, w, kind, segs).Some? && 1 <= i <= |segs|
    requires FromEither(ns, t, w, at, segs)
    ensures Element(ns, t', KindOnTheWay(kind, segs, i), segs[..i]).Some?
  {
    if i == 1 {
      assert segs[..1] == [ns];
    } else {
      PathSurvives(ns, t, w, t', on, at, kind, segs, i - 1);
      var up, k, c := segs[..i - 1], segs[i - 1], KindOnTheWay(kind, segs, i);
      TakeSnoc(segs, i);
      NotAGroup(ns, t', up);
      if at(GroupKind, up) == Element(ns, t, GroupKind, up) {
        OnTheWay(ns, t, kind, segs, i);
        SurvivesStep(ns, t, t', on, at, up, c, k);
      } else {
        OnTheWay(ns, w, kind, segs, i);
        SurvivesStep(ns, w, t', on, at, up, c, k);
      }
    }
  }

  lemma OnTheWay(ns: string, t: ConfigGroup, kind: Kind, segs: seq<string>, i: nat)
    requires Element(ns, t, kind, segs).Some? && 1 <= i <= |segs|
    ensures Element(ns, t, KindOnTheWay(kind, segs, i), segs[..i]).Some?
  {
    if i < |segs| { AncestorExists(ns, t, kind, segs, i); } else { assert segs[..i] == segs; }
  }

  /** What the proposed map holds at an address that is both in the old tree and in the write set. */
  lemma ProposedHolds(v: Validator, env: Envelope, w: ConfigGroup, kind: Kind, segs: seq<string>)
    requires Valid(v) && LegalTree(v.namespace, w) && Writes(v.namespace, env) == Flatten(v.namespace, w)
    requires Element(v.namespace, v.channelGroup, kind, segs).Some? && Element(v.namespace, w, kind, segs).Some?
    ensures View(Proposed(v, env))(kind, segs) ==
      if FqPath(kind, segs) in Changes(v.namespace, env) then Element(v.namespace, w, kind, segs)
      else Element(v.namespace, v.channelGroup, kind, segs)
  {
    ElementInFlatten(v.namespace, v.channelGroup, kind, segs);
    ElementInFlatten(v.namespace, w, kind, segs);
  }

  lemma ProposedOnTheWay(v: Validator, env: Envelope, w: ConfigGroup, kind: Kind, segs: seq<string>, j: nat)
    requires Valid(v) && LegalTree(v.namespace, w) && Writes(v.namespace, env) == Flatten(v.namespace, w)
    requires Element(v.namespace, v.channelGroup, kind, segs).Some? && Element(v.namespace, w, kind, segs).Some?
    requires 1 <= j < |segs|
    ensures
      var at := View(Proposed(v, env));
      || at(GroupKind, segs[..j]) == Element(v.namespace, v.channelGroup, GroupKind, segs[..j])
      || at(GroupKind, segs[..j]) == Element(v.namespace, w, GroupKind, segs[..j])
  {
    AncestorExists(v.namespace, v.channelGroup, kind, segs, j);
    AncestorExists(v.namespace, w, kind, segs, j);
    ProposedHolds(v, env, w, GroupKind, segs[..j]);
  }

  lemma ProposedFromEither(v: Validator, env: Envelope, w: ConfigGroup, kind: Kind, segs: seq<string>)
    requires Valid(v) && LegalTree(v.namespace, w) && Writes(v.namespace, env) == Flatten(v.namespace, w)
    requires Element(v.namespace, v.channelGroup, kind, segs).Some? && Element(v.namespace, w, kind, segs).Some?
    ensures FromEither(v.namespace, v.channelGroup, w, View(Proposed(v, env)), segs)
  {
    forall j | 1 <= j < |segs|
      ensures
        || View(Proposed(v, env))(GroupKind, segs[..j]) == Element(v.namespace, v.channelGroup, GroupKind, segs[..j])
        || View(Proposed(v, env))(GroupKind, segs[..j]) == Element(v.namespace, w, GroupKind, segs[..j])
    {
      ProposedOnTheWay(v, env, w, kind, segs, j);
    }
  }

  lemma WriteSetTree(ns: string, env: Envelope, s: string) returns (w: ConfigGroup)
    requires s in Writes(ns, env)
    ensures LegalTree(ns, w) && Writes(ns, env) == Flatten(ns, w)
  {
    w := env.update.value.writeSet.value;
  }

  /** Whether the update modifies the existing element at an address. */
  ghost predicate Modifies(v: Validator, env: Envelope, kind: Kind, segs: seq<string>) {
    Element(v.namespace, v.channelGroup, kind, segs).Some? && FqPath(kind, segs) in Changes(v.namespace, env)
  }

  /** Whether the update depends on the element at an address: it states the version it read, or modifies it. */
  ghost predicate Touches(v: Validator, env: Envelope, kind: Kind, segs: seq<string>) {
    && Element(v.namespace, v.channelGroup, kind, segs).Some?
    && (FqPath(kind, segs) in Reads(v.namespace, env) || FqPath(kind, segs) in Changes(v.namespace, env))
  }

  lemma ElementSurvives(ns: string, t: ConfigGroup, w: ConfigGroup, t': ConfigGroup, on: bool, at: Holding,
                        kind: Kind, segs: seq<string>)
    requires Mirrors(on, at, [ns], t') && FromEither(ns, t, w, at, segs)
    requires Element(ns, t, kind, segs).Some? && Element(ns, w, kind, segs).Some?
    ensures Element(ns, t', kind, segs).Some?
  {
    PathSurvives(ns, t, w, t', on, at, kind, segs, |segs|);
    TakeSnoc(segs, |segs|);
  }

  /** An element modified by an accepted update is still there afterwards, exactly one version higher. */
  lemma ModifiedSurvives(v: Validator, env: Envelope, kind: Kind, segs: seq<string>)
    requires Valid(v) && ProposeSpec(v, env).Ok? && Modifies(v, env, kind, segs)
    ensures Element(v.namespace, NewTree(v, env), kind, segs).Some?
    ensures Element(v.namespace, NewTree(v, env), kind, segs).value.Version()
         == Next(Element(v.namespace, v.channelGroup, kind, segs).value.Version())
  {
    NewTreeIs(v, env);
    var w := WriteSetTree(v.namespace, env, FqPath(kind, segs));
    ElementLegal(v.namespace, v.channelGroup, kind, segs);
    EntryOfFlatten(v.namespace, w, kind, segs);
    ProposedFromEither(v, env, w, kind, segs);
    ElementSurvives(v.namespace, v.channelGroup, w, NewTree(v, env), FixOn(Proposed(v, env)), View(Proposed(v, env)),
                    kind, segs);
    ModifiedVersion(v, env, kind, segs);
  }

  lemma ModifiedVersion(v: Validator, env: Envelope, kind: Kind, segs: seq<string>)
    requires Valid(v) && ProposeSpec(v, env).Ok? && Modifies(v, env, kind, segs)
    requires Element(v.namespace, NewTree(v, env), kind, segs).Some?
    ensures Element(v.namespace, NewTree(v, env), kind, segs).value.Version()
         == Next(Element(v.namespace, v.channelGroup, kind, segs).value.Version())
  {
    AcceptedIff(v, env);
    ProposalFollows(v, env);
    var ns, t, t', s, d := v.namespace, v.channelGroup, NewTree(v, env), FqPath(kind, segs), Changes(v.namespace, env);
    ElementMove(ns, t, t', FixOn(Proposed(v, env)), View(Proposed(v, env)), Authority(v, env.signedData.value), kind,
                segs);
    SameOwnVersion(FixOn(Proposed(v, env)), Proposed(v, env)[s].body, Element(ns, t', kind, segs).value);
    ElementInFlatten(ns, t, kind, segs);
    assert DeltaEntryOk(v, env.signedData.value, s, d[s]);
  }

  // ----- runs -----

  /** `v'` is a validator for the config that proposing `env` to `v` returns; its policies may be any. */
  ghost predicate Succeeds(v: Validator, env: Envelope, v': Validator) {
    && Valid(v) && ProposeSpec(v, env).Ok? && Valid(v')
    && v'.namespace == v.namespace && v'.channelID == v.channelID
    && ProposeSpec(v, env).value.config == Some(Config(v'.sequence, Some(v'.channelGroup)))
  }

  /** The validator for the returned config, with the policies it had. */
  ghost function Successor(v: Validator, env: Envelope): Validator
    requires ProposeSpec(v, env).Ok? && LegalTree(v.namespace, NewTree(v, env))
  {
    v.(sequence := ProposeSpec(v, env).value.config.value.sequence, channelGroup := NewTree(v, env),
       configMap := Flatten(v.namespace, NewTree(v, env)))
  }

  lemma ReturnedConfig(v: Validator, env: Envelope)
    requires ProposeSpec(v, env).Ok?
    ensures ProposeSpec(v, env).value.config
         == Some(Config(ProposeSpec(v, env).value.config.value.sequence, Some(NewTree(v, env))))
  {
  }

  /** The successor always exists: the new tree is legal, so a validator for it can be constructed. */
  lemma SuccessorExists(v: Validator, env: Envelope)
    requires Valid(v) && ProposeSpec(v, env).Ok?
    ensures LegalTree(v.namespace, NewTree(v, env))
    ensures Succeeds(v, env, Successor(v, env))
  {
    NewTreeIs(v, env);
    ReturnedConfig(v, env);
    var v' := Successor(v, env);
    assert Valid(v') && v'.namespace == v.namespace && v'.channelID == v.channelID;
  }

  ghost predicate StepAt(vs: seq<Validator>, envs: seq<Envelope>, i: nat) {
    i < |envs| && i + 1 < |vs| && Succeeds(vs[i], envs[i], vs[i + 1])
  }

  ghost predicate Run(vs: seq<Validator>, envs: seq<Envelope>) {
    |vs| == |envs| + 1 && forall i | 0 <= i < |envs| :: StepAt(vs, envs, i)
  }

  ghost predicate Present(vs: seq<Validator>, kind: Kind, segs: seq<string>) {
    forall i | 0 <= i < |vs| :: Element(vs[i].namespace, vs[i].channelGroup, kind, segs).Some?
  }

  ghost function VersionAt(v: Validator, kind: Kind, segs: seq<string>): Uint64
    requires Element(v.namespace, v.channelGroup, kind, segs).Some?
  {
    Element(v.namespace, v.channelGroup, kind, segs).value.Version()
  }

  /** One step leaves a surviving element's version alone or increments it, and
      increments it if it modifies the element. */
  lemma VersionStep(v: Validator, env: Envelope, v': Validator, kind: Kind, segs: seq<string>)
    requires Succeeds(v, env, v')
    requires Element(v.namespace, v.channelGroup, kind, segs).Some?
      && Element(v'.namespace, v'.channelGroup, kind, segs).Some?
    ensures VersionAt(v', kind, segs) == VersionAt(v, kind, segs)
      || VersionAt(v', kind, segs) == Next(VersionAt(v, kind, segs))
    ensures Modifies(v, env, kind, segs) ==> VersionAt(v', kind, segs) == Next(VersionAt(v, kind, segs))
  {
    ProposalFollows(v, env);
    KeptOrBumped(v.namespace, v.channelGroup, v'.channelGroup, FixOn(Proposed(v, env)), View(Proposed(v, env)),
                 Authority(v, env.signedData.value), kind, segs);
    if SameOwn(FixOn(Proposed(v, env)), Element(v.namespace, v.channelGroup, kind, segs).value,
               Element(v'.namespace, v'.channelGroup, kind, segs).value) {
      SameOwnVersion(FixOn(Proposed(v, env)), Element(v.namespace, v.channelGroup, kind, segs).value,
                     Element(v'.namespace, v'.channelGroup, kind, segs).value);
    }
    if Modifies(v, env, kind, segs) { ModifiedVersion(v, env, kind, segs); }
  }

  /** Version numbers along a run: each stays or is incremented. */
  ghost predicate VersionTrace(versions: seq<Uint64>) {
    forall i | 0 <= i < |versions| - 1 :: versions[i + 1] == versions[i] || versions[i + 1] == Next(versions[i])
  }

  /** Along a trace a version moves on by at most one a step, around the clock of 2^64 values. */
  lemma {:induction false} TraceCount(versions: seq<Uint64>, i: nat, j: nat) returns (n: nat, rounds: nat)
    requires VersionTrace(versions) && i <= j < |versions|
    ensures n <= j - i && versions[j] == versions[i] + n - TWO64 * rounds
    decreases j - i
  {
    n, rounds := 0, 0;
    if i < j {
      n, rounds := TraceCount(versions, i, j - 1);
      assert versions[j - 1 + 1] == versions[j - 1] || versions[j - 1 + 1] == Next(versions[j - 1]);
      if versions[j] != versions[j - 1] {
        n, rounds := n + 1, rounds + if versions[j] == 0 then 1 else 0;
      }
    }
  }

  /** In fewer than 2^64 steps a version that moved does not come back. */
  lemma TraceDiffers(versions: seq<Uint64>, m: nat, j: nat)
    requires VersionTrace(versions) && m < j < |versions| && j < TWO64
    requires versions[m + 1] == Next(versions[m])
    ensures versions[j] != versions[0]
  {
    var n, rounds := TraceCount(versions, 0, m);
    var n', rounds' := TraceCount(versions, m + 1, j);
  }

  ghost function Versions(vs: seq<Validator>, kind: Kind, segs: seq<string>): (r: seq<Uint64>)
    requires Present(vs, kind, segs)
    ensures |r| == |vs| && forall i | 0 <= i < |vs| :: r[i] == VersionAt(vs[i], kind, segs)
  {
    seq(|vs|, i requires 0 <= i < |vs| => VersionAt(vs[i], kind, segs))
  }

  lemma RunVersions(vs: seq<Validator>, envs: seq<Envelope>, kind: Kind, segs: seq<string>)
    requires Run(vs, envs) && Present(vs, kind, segs)
    ensures VersionTrace(Versions(vs, kind, segs))
  {
    forall i | 0 <= i < |vs| - 1
      ensures VersionAt(vs[i + 1], kind, segs) == VersionAt(vs[i], kind, segs)
           || VersionAt(vs[i + 1], kind, segs) == Next(VersionAt(vs[i], kind, segs))
    {
      StepIs(vs, envs, i);
      VersionStep(vs[i], envs[i], vs[i + 1], kind, segs);
    }
  }

  lemma StepIs(vs: seq<Validator>, envs: seq<Envelope>, i: nat)
    requires Run(vs, envs) && i < |envs|
    ensures Succeeds(vs[i], envs[i], vs[i + 1])
  {
    var step := StepAt(vs, envs, i);
  }

  lemma StepNamespace(vs: seq<Validator>, envs: seq<Envelope>, i: nat)
    requires Run(vs, envs) && i < |envs|
    ensures vs[i + 1].namespace == vs[i].namespace
  {
    StepIs(vs, envs, i);
  }

  lemma ReturnedSequence(v: Validator, env: Envelope)
    requires ProposeSpec(v, env).Ok?
    ensures ProposeSpec(v, env).value.config.value.sequence == Next(v.sequence)
  {
  }

  lemma StepSequence(vs: seq<Validator>, envs: seq<Envelope>, i: nat)
    requires Run(vs, envs) && i < |envs|
    ensures vs[i + 1].sequence == Next(vs[i].sequence)
  {
    StepIs(vs, envs, i);
    ReturnedSequence(vs[i], envs[i]);
  }

  lemma {:induction false} SequenceRounds(vs: seq<Validator>, envs: seq<Envelope>, i: nat) returns (rounds: nat)
    requires Run(vs, envs) && i < |vs|
    ensures vs[i].sequence == vs[0].sequence + i - TWO64 * rounds
  {
    rounds := 0;
    if i > 0 {
      rounds := SequenceRounds(vs, envs, i - 1);
      StepSequence(vs, envs, i - 1);
      NextIs(vs[i - 1].sequence);
      if vs[i].sequence == 0 { rounds := rounds + 1; }
    }
  }

  lemma ModOf(x: int, r: Uint64, k: int)
    requires x == r + TWO64 * k
    ensures x % TWO64 == r
  {
  }

  /** The sequence number counts the updates, around the clock of 2^64 values. */
  lemma RunSequence(vs: seq<Validator>, envs: seq<Envelope>, i: nat)
    requires Run(vs, envs) && i < |vs|
    ensures vs[i].sequence == (vs[0].sequence + i) % TWO64
  {
    var rounds := SequenceRounds(vs, envs, i);
    ModOf(vs[0].sequence + i, vs[i].sequence, rounds);
  }

  lemma {:induction false} SameNamespace(vs: seq<Validator>, envs: seq<Envelope>, i: nat)
    requires Run(vs, envs) && i < |vs|
    ensures vs[i].namespace == vs[0].namespace
  {
    if i > 0 {
      SameNamespace(vs, envs, i - 1);
      StepNamespace(vs, envs, i - 1);
    }
  }

  lemma RunValid(vs: seq<Validator>, envs: seq<Envelope>, i: nat)
    requires Run(vs, envs) && i < |envs|
    ensures Valid(vs[i]) && Valid(vs[i + 1])
  {
    StepIs(vs, envs, i);
  }

  lemma NextDiffers(a: Uint64)
    ensures Next(a) != a
  {
  }

  lemma NextInjective(a: Uint64, b: Uint64)
    requires Next(a) == Next(b)
    ensures a == b
  {
  }

  /** An accepted update agrees with the current versions of all it touches. */
  lemma TouchedVersion(v: Validator, v': Validator, env: Envelope, kind: Kind, segs: seq<string>)
    requires Valid(v) && Valid(v') && v.namespace == v'.namespace
    requires ProposeSpec(v, env).Ok? && ProposeSpec(v', env).Ok?
    requires Touches(v, env, kind, segs) && Element(v'.namespace, v'.channelGroup, kind, segs).Some?
    ensures VersionAt(v, kind, segs) == VersionAt(v', kind, segs)
  {
    AcceptedIff(v, env);
    AcceptedIff(v', env);
    ElementInFlatten(v.namespace, v.channelGroup, kind, segs);
    ElementInFlatten(v'.namespace, v'.channelGroup, kind, segs);
    var s, d := FqPath(kind, segs), Changes(v.namespace, env);
    if s in d {
      assert DeltaEntryOk(v, env.signedData.value, s, d[s]) && DeltaEntryOk(v', env.signedData.value, s, d[s]);
      NextInjective(VersionAt(v, kind, segs), VersionAt(v', kind, segs));
    }
  }

  // ----- stale updates -----

  lemma FlattenAbove(ns: string, w: ConfigGroup, kind: Kind, segs: seq<string>, d: nat)
    requires LegalTree(ns, w) && LegalPath(segs) && 1 <= d < |segs| && FqPath(kind, segs) in Flatten(ns, w)
    ensures FqPath(GroupKind, segs[..d]) in Flatten(ns, w)
  {
    EntryOfFlatten(ns, w, kind, segs);
    AncestorExists(ns, w, kind, segs, d);
    ElementInFlatten(ns, w, GroupKind, segs[..d]);
  }

  /** An update that depends on an element depends on every group above it. */
  lemma TouchesAbove(v: Validator, env: Envelope, kind: Kind, segs: seq<string>, d: nat)
    requires Valid(v) && Touches(v, env, kind, segs) && 1 <= d < |segs|
    ensures Touches(v, env, GroupKind, segs[..d])
  {
    var ns, s := v.namespace, FqPath(kind, segs);
    ElementLegal(ns, v.channelGroup, kind, segs);
    AncestorExists(ns, v.channelGroup, kind, segs, d);
    if s in Reads(ns, env) {
      FlattenAbove(ns, env.update.value.readSet.value, kind, segs, d);
    } else {
      FlattenAbove(ns, env.update.value.writeSet.value, kind, segs, d);
    }
  }

  lemma RunPrefix(vs: seq<Validator>, envs: seq<Envelope>, j: nat)
    requires Run(vs, envs) && j < |vs|
    ensures Run(vs[..j + 1], envs[..j])
  {
    var vs', envs' := vs[..j + 1], envs[..j];
    forall i | 0 <= i < j ensures StepAt(vs', envs', i) {
      StepIs(vs, envs, i);
    }
  }

  /** How far the way to an element stays in the tree throughout. */
  lemma {:induction false} DeepestPresent(vs: seq<Validator>, kind: Kind, segs: seq<string>, bound: nat)
    returns (d: nat)
    requires vs != [] && forall v | v in vs :: v.namespace == vs[0].namespace
    requires Element(vs[0].namespace, vs[0].channelGroup, kind, segs).Some? && 1 <= bound <= |segs|
    ensures 1 <= d <= bound && Present(vs, KindOnTheWay(kind, segs, d), segs[..d])
    ensures d < bound ==> !Present(vs, KindOnTheWay(kind, segs, d + 1), segs[..d + 1])
  {
    if bound == 1 {
      assert segs[..1] == [vs[0].namespace];
      d := 1;
    } else if Present(vs, KindOnTheWay(kind, segs, bound), segs[..bound]) {
      d := bound;
    } else {
      d := DeepestPresent(vs, kind, segs, bound - 1);
    }
  }

  lemma {:induction false} LostAt(vs: seq<Validator>, kind: Kind, segs: seq<string>, n: nat) returns (i: nat)
    requires n < |vs| && Element(vs[0].namespace, vs[0].channelGroup, kind, segs).Some?
    requires Element(vs[n].namespace, vs[n].channelGroup, kind, segs).None?
    ensures i < n && Element(vs[i].namespace, vs[i].channelGroup, kind, segs).Some?
    ensures Element(vs[i + 1].namespace, vs[i + 1].channelGroup, kind, segs).None?
  {
    if Element(vs[n - 1].namespace, vs[n - 1].channelGroup, kind, segs).None? {
      i := LostAt(vs, kind, segs, n - 1);
    } else {
      i := n - 1;
    }
  }

  /** Losing a child bumps the group. */
  lemma LossIsBump(v: Validator, env: Envelope, v': Validator, kind: Kind, segs: seq<string>, d: nat)
    requires Succeeds(v, env, v') && 1 <= d < |segs|
    requires Element(v.namespace, v.channelGroup, GroupKind, segs[..d]).Some?
    requires Element(v'.namespace, v'.channelGroup, GroupKind, segs[..d]).Some?
    requires Element(v.namespace, v.channelGroup, KindOnTheWay(kind, segs, d + 1), segs[..d + 1]).Some?
    requires Element(v'.namespace, v'.channelGroup, KindOnTheWay(kind, segs, d + 1), segs[..d + 1]).None?
    ensures VersionAt(v', GroupKind, segs[..d]) == Next(VersionAt(v, GroupKind, segs[..d]))
  {
    ProposalFollows(v, env);
    NotAGroup(v.namespace, v.channelGroup, segs[..d]);
    NotAGroup(v.namespace, v'.channelGroup, segs[..d]);
    PartingIsBump(v.namespace, v.channelGroup, v'.channelGroup, FixOn(Proposed(v, env)), View(Proposed(v, env)),
                  Authority(v, env.signedData.value), kind, segs, d);
  }

  /** An element that is always there and was bumped on the way: the versions an update saw are out of date. */
  lemma BumpedRejected(vs: seq<Validator>, envs: seq<Envelope>, env: Envelope, kind: Kind, segs: seq<string>, m: nat)
    requires Run(vs, envs) && Present(vs, kind, segs) && m < |envs|
    requires ProposeSpec(vs[0], env).Ok? && Touches(vs[0], env, kind, segs)
    requires VersionAt(vs[m + 1], kind, segs) == Next(VersionAt(vs[m], kind, segs))
    requires |envs| < TWO64
    ensures ProposeSpec(vs[|envs|], env).Err?
  {
    RunVersions(vs, envs, kind, segs);
    TraceDiffers(Versions(vs, kind, segs), m, |envs|);
    RunValid(vs, envs, 0);
    RunValid(vs, envs, |envs| - 1);
    SameNamespace(vs, envs, |envs|);
    if ProposeSpec(vs[|envs|], env).Ok? {
      TouchedVersion(vs[0], vs[|envs|], env, kind, segs);
    }
  }

  /** An element that was lost, perhaps to come back later: a group above it stayed throughout and lost a child. */
  lemma LostBelow(vs: seq<Validator>, kind: Kind, segs: seq<string>) returns (d: nat, i: nat)
    requires vs != [] && forall v | v in vs :: v.namespace == vs[0].namespace
    requires Element(vs[0].namespace, vs[0].channelGroup, kind, segs).Some? && !Present(vs, kind, segs)
    ensures 1 <= d < |segs| && i < |vs| - 1 && Present(vs, GroupKind, segs[..d])
    ensures Element(vs[i].namespace, vs[i].channelGroup, KindOnTheWay(kind, segs, d + 1), segs[..d + 1]).Some?
    ensures Element(vs[i + 1].namespace, vs[i + 1].channelGroup, KindOnTheWay(kind, segs, d + 1), segs[..d + 1]).None?
  {
    d := DeepestPresent(vs, kind, segs, |segs|);
    assert segs[..|segs|] == segs;
    var c, way := KindOnTheWay(kind, segs, d + 1), segs[..d + 1];
    OnTheWay(vs[0].namespace, vs[0].channelGroup, kind, segs, d + 1);
    var n :| 0 <= n < |vs| && Element(vs[n].namespace, vs[n].channelGroup, c, way).None?;
    i := LostAt(vs, c, way, n);
  }

  lemma LossStep(vs: seq<Validator>, envs: seq<Envelope>, kind: Kind, segs: seq<string>, d: nat, i: nat)
    requires Run(vs, envs) && 1 <= d < |segs| && i < |envs| && Present(vs, GroupKind, segs[..d])
    requires Element(vs[i].namespace, vs[i].channelGroup, KindOnTheWay(kind, segs, d + 1), segs[..d + 1]).Some?
    requires Element(vs[i + 1].namespace, vs[i + 1].channelGroup, KindOnTheWay(kind, segs, d + 1), segs[..d + 1]).None?
    ensures VersionAt(vs[i + 1], GroupKind, segs[..d]) == Next(VersionAt(vs[i], GroupKind, segs[..d]))
  {
    StepIs(vs, envs, i);
    LossIsBump(vs[i], envs[i], vs[i + 1], kind, segs, d);
  }

  lemma LossFound(vs: seq<Validator>, envs: seq<Envelope>, kind: Kind, segs: seq<string>) returns (d: nat, i: nat)
    requires Run(vs, envs) && !Present(vs, kind, segs)
    requires Element(vs[0].namespace, vs[0].channelGroup, kind, segs).Some?
    ensures 1 <= d < |segs| && i < |envs| && Present(vs, GroupKind, segs[..d])
    ensures VersionAt(vs[i + 1], GroupKind, segs[..d]) == Next(VersionAt(vs[i], GroupKind, segs[..d]))
  {
    forall i | 0 <= i < |vs| ensures vs[i].namespace == vs[0].namespace { SameNamespace(vs, envs, i); }
    d, i := LostBelow(vs, kind, segs);
    LossStep(vs, envs, kind, segs, d, i);
  }

  lemma LostRejected(vs: seq<Validator>, envs: seq<Envelope>, env: Envelope, kind: Kind, segs: seq<string>)
    requires Run(vs, envs) && !Present(vs, kind, segs)
    requires ProposeSpec(vs[0], env).Ok? && Touches(vs[0], env, kind, segs)
    requires |envs| < TWO64
    ensures ProposeSpec(vs[|envs|], env).Err?
  {
    var d, i := LossFound(vs, envs, kind, segs);
    RunValid(vs, envs, 0);
    TouchesAbove(vs[0], env, kind, segs, d);
    assert KindOnTheWay(kind, segs, d) == GroupKind;
    BumpedRejected(vs, envs, env, GroupKind, segs[..d], i);
  }

  lemma PresentRejected(vs: seq<Validator>, envs: seq<Envelope>, env: Envelope, kind: Kind, segs: seq<string>, m: nat)
    requires Run(vs, envs) && Present(vs, kind, segs) && m < |envs| && Modifies(vs[m], envs[m], kind, segs)
    requires ProposeSpec(vs[0], env).Ok? && Touches(vs[0], env, kind, segs)
    requires |envs| < TWO64
    ensures ProposeSpec(vs[|envs|], env).Err?
  {
    assert segs[..|segs|] == segs && KindOnTheWay(kind, segs, |segs|) == kind;
    StepIs(vs, envs, m);
    VersionStep(vs[m], envs[m], vs[m + 1], kind, segs);
    BumpedRejected(vs, envs, env, kind, segs, m);
  }

  /** No lost update, over whole runs: take an update acceptable in the first state of
      a run that reads or modifies an element. Once any step of the run has modified
      or removed that element, the update is rejected, for 2^64 - 1 steps. */
  lemma StaleUpdateRejected(
      vs: seq<Validator>, envs: seq<Envelope>, env: Envelope, kind: Kind, segs: seq<string>, m: nat, j: nat)
    requires Run(vs, envs) && m < j < |vs| && j < TWO64
    requires ProposeSpec(vs[0], env).Ok? && Touches(vs[0], env, kind, segs)
    requires
      || Modifies(vs[m], envs[m], kind, segs)
      || Element(vs[m + 1].namespace, vs[m + 1].channelGroup, kind, segs).None?
    ensures ProposeSpec(vs[j], env).Err?
  {
    RunPrefix(vs, envs, j);
    if Present(vs[..j + 1], kind, segs) {
      assert vs[..j + 1][m + 1] == vs[m + 1];
      PresentRejected(vs[..j + 1], envs[..j], env, kind, segs, m);
    } else {
      LostRejected(vs[..j + 1], envs[..j], env, kind, segs);
    }
  }

  /** Two updates acceptable in one state: after the first one, which modifies an element, the second one, which reads
      or modifies that element, is rejected. The element cannot have vanished and versions may wrap around. */
  lemma NoLostUpdate(v: Validator, env1: Envelope, v': Validator, env2: Envelope, kind: Kind, segs: seq<string>)
    requires Succeeds(v, env1, v') && ProposeSpec(v, env2).Ok?
    requires Modifies(v, env1, kind, segs) && Touches(v, env2, kind, segs)
    ensures ProposeSpec(v', env2).Err?
  {
    ModifiedSurvives(v, env1, kind, segs);
    NextDiffers(VersionAt(v, kind, segs));
    assert VersionAt(v', kind, segs) == Next(VersionAt(v, kind, segs));
    if ProposeSpec(v', env2).Ok? {
      TouchedVersion(v, v', env2, kind, segs);
    }
  }

  /** No replay: an update that modified an existing element is rejected right after it was applied. */
  lemma NoReplay(v: Validator, env: Envelope, v': Validator, kind: Kind, segs: seq<string>)
    requires Succeeds(v, env, v') && Modifies(v, env, kind, segs)
    ensures ProposeSpec(v', env).Err?
  {
    NoLostUpdate(v, env, v', env, kind, segs);
  }
}
