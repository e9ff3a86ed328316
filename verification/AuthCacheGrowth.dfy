/** When the authorization cache stays bounded: exactly when a purge is to evict a number of entries other than zero. */
module AuthCacheGrowth {
  import opened Wrappers
  import opened AuthCache
  import opened AuthCacheSafety
  import opened AuthCacheSize

  ghost predicate Reachable(setup: Setup, s: State) {
    exists states, steps :: Run(setup, states, steps) && states[|steps|] == s
  }

  lemma ReachableWf(setup: Setup, s: State)
    requires Reachable(setup, s) && KeyInjective(setup)
    ensures Wf(setup, s)
  {
    var states, steps :| Run(setup, states, steps) && states[|steps|] == s;
    RunInv(setup, states, steps, |steps|);
  }

  lemma RunLonger(setup: Setup, states: seq<State>, steps: seq<Step>, step: Step)
    requires Run(setup, states, steps) && Wf(setup, states[|steps|]) && Enabled(setup, states[|steps|], step)
    ensures Run(setup, states + [Apply(setup, states[|steps|], step)], steps + [step])
  {
    var states', steps' := states + [Apply(setup, states[|steps|], step)], steps + [step];
    forall i | 0 <= i < |steps'|
      ensures Wf(setup, states'[i]) && Enabled(setup, states'[i], steps'[i])
      ensures states'[i + 1] == Apply(setup, states'[i], steps'[i])
    {
      assert states'[i] == states[i];
      if i < |steps| {
        assert states'[i + 1] == states[i + 1];
      } else {
        assert states'[i + 1] == Apply(setup, states[|steps|], step);
      }
    }
  }

  lemma ReachableStep(setup: Setup, s: State, step: Step)
    requires Reachable(setup, s) && KeyInjective(setup) && Wf(setup, s) && Enabled(setup, s, step)
    ensures Reachable(setup, Apply(setup, s, step)) && Wf(setup, Apply(setup, s, step))
  {
    var states, steps :| Run(setup, states, steps) && states[|steps|] == s;
    var s' := Apply(setup, s, step);
    RunLonger(setup, states, steps, step);
    assert (states + [s'])[|steps + [step]|] == s';
    ReachableWf(setup, s');
  }

  /** Nothing is in flight, the configuration never changed, and the channel's
      cache, if there is one, has these keys. */
  ghost predicate Quiet(setup: Setup, s: State, channel: string, next: nat, keys: set<string>) {
    && Reachable(setup, s)
    && |s.history| == 1 && SeqAt(s, 0, channel) == 0
    && (forall id | id in s.requests :: id < next && s.requests[id].pc.Returned?)
    && (channel !in s.credentialCache ==> keys == {})
    && (channel in s.credentialCache ==> UnusedCache(s, s.credentialCache[channel], keys))
  }

  ghost predicate UnusedCache(s: State, c: nat, keys: set<string>) {
    c < |s.caches| && s.caches[c].lockedBy.None? && s.caches[c].lastSequence == 0 && s.caches[c].entries.Keys == keys
  }

  /** Request `id` is the only one in flight and holds the lock of its cache just when it is about to store. */
  ghost predicate Alone(setup: Setup, s: State, id: nat, channel: string, data: Bytes, pc: PC, c: nat,
                        keys: set<string>)
  {
    && Reachable(setup, s)
    && |s.history| == 1 && SeqAt(s, 0, channel) == 0
    && id in s.requests && s.requests[id] == Request(channel, data, 0, pc)
    && (forall id' | id' in s.requests :: id' <= id && (id' != id ==> s.requests[id'].pc.Returned?))
    && channel in s.credentialCache && s.credentialCache[channel] == c && c < |s.caches|
    && s.caches[c].lockedBy == (if pc.Storing? then Some(id) else None)
    && s.caches[c].lastSequence == 0 && s.caches[c].entries.Keys == keys
  }

  /** A request begins when nothing is in flight. */
  lemma BeginAlone(setup: Setup, s: State, channel: string, id: nat, data: Bytes, keys: set<string>) returns (s': State)
    requires KeyInjective(setup) && setup.maxInFlight >= 1 && Quiet(setup, s, channel, id, keys)
    ensures Reachable(setup, s') && s' == s.(requests := s.requests[id := Request(channel, data, 0, Started)])
  {
    ReachableWf(setup, s);
    assert InFlight(s) == {};
    ReachableStep(setup, s, Begin(id, channel, data));
    s' := Apply(setup, s, Begin(id, channel, data));
  }

  /** It finds the channel's cache, or makes it. */
  lemma Arrive(setup: Setup, s: State, channel: string, id: nat, data: Bytes, keys: set<string>)
    returns (s': State, c: nat)
    requires KeyInjective(setup) && setup.enabled && setup.maxInFlight >= 1
    requires Quiet(setup, s, channel, id, keys)
    ensures Alone(setup, s', id, channel, data, Ready(c), c, keys)
    ensures channel in s.credentialCache ==> s'.caches == s.caches && c == s.credentialCache[channel]
  {
    var s1 := BeginAlone(setup, s, channel, id, data, keys);
    ReachableWf(setup, s1);
    ReachableStep(setup, s1, Advance(id, {}));
    if channel in s.credentialCache {
      c := s.credentialCache[channel];
      s' := Move(s1, id, Ready(c));
    } else {
      c := |s.caches|;
      FindNone(setup, s1, id);
      s' := MakeCache(setup, Move(s1, id, NoCache), id, channel);
    }
  }

  lemma FindNone(setup: Setup, s: State, id: nat)
    requires KeyInjective(setup) && setup.enabled && Reachable(setup, s)
    requires id in s.requests && s.requests[id].pc.Started? && s.requests[id].channel !in s.credentialCache
    ensures Reachable(setup, Move(s, id, NoCache))
  {
    ReachableWf(setup, s);
    ReachableStep(setup, s, Advance(id, {}));
  }

  lemma MakeCache(setup: Setup, s: State, id: nat, channel: string) returns (s': State)
    requires KeyInjective(setup) && Reachable(setup, s)
    requires id in s.requests && s.requests[id].pc.NoCache? && s.requests[id].channel == channel
    ensures Reachable(setup, s')
    ensures s' == Move(s.(caches := s.caches + [EmptyCache(channel)],
                          credentialCache := s.credentialCache[channel := |s.caches|]), id, Ready(|s.caches|))
  {
    ReachableWf(setup, s);
    ReachableStep(setup, s, Advance(id, {}));
    s' := AdvanceRequest(setup, s, id, {});
  }

  /** Where a request whose key is not in the cache goes next, if the configuration does not change. */
  function AfterMiss(setup: Setup, pc: PC, size: nat): PC
    requires CacheOf(pc).Some? && !pc.Invalidating? && !pc.Storing?
  {
    match pc
    case Ready(c) => Checking(c, 0)
    case Checking(c, q) => LookingUp(c, q)
    case LookingUp(c, q) => PurgeCheck(c, q)
    case PurgeCheck(c, q) => if PurgeNeeded(setup, size) then Purging(c, q) else Computing(c, q)
    case Purging(c, q) => Computing(c, q)
    case Computing(c, q) => Committing(c, q, 0)
    case Committing(c, q, e) => Storing(c, q, e)
  }

  /** Where a lone request can be between finding its cache and storing. */
  predicate Missing(pc: PC, c: nat) {
    && CacheOf(pc) == Some(c) && !pc.Invalidating?
    && (!pc.Ready? ==> pc.q == 0)
    && (pc.Committing? || pc.Storing? ==> pc.e == 0)
  }

  lemma MissSection(setup: Setup, s: State, id: nat, channel: string, data: Bytes, pc: PC, c: nat, keys: set<string>)
    requires Wf(setup, s) && Alone(setup, s, id, channel, data, pc, c, keys) && Missing(pc, c) && !pc.Storing?
    requires EntriesToEvict(setup) == 0 && setup.key(data).Some? && setup.key(data).value !in keys
    ensures Enabled(setup, s, Advance(id, keys))
    ensures Section(setup, s, id, keys).pc == AfterMiss(setup, pc, |keys|)
    ensures Missing(AfterMiss(setup, pc, |keys|), c)
    ensures var k := Section(setup, s, id, keys).cache;
      && k.channel == s.caches[c].channel && k.lastSequence == 0 && k.entries.Keys == keys
      && k.lockedBy == if pc.Committing? then Some(id) else None
  {
    assert RequestOk(setup, s, s.requests[id]);
    assert |s.caches[c].entries| == |keys|;
  }

  /** The request's own section changes its cache and its place, and nothing else. */
  lemma SectionAlone(
      setup: Setup, s: State, s': State, id: nat, channel: string, data: Bytes, pc: PC, pc': PC, c: nat,
      keys: set<string>)
    requires Alone(setup, s, id, channel, data, pc, c, keys) && Reachable(setup, s')
    requires s'.history == s.history && s'.credentialCache == s.credentialCache
    requires s'.requests == s.requests[id := s.requests[id].(pc := pc')]
    requires |s'.caches| == |s.caches| && s'.caches[c].entries.Keys == keys && s'.caches[c].lastSequence == 0
    requires s'.caches[c].lockedBy == if pc'.Storing? then Some(id) else None
    ensures Alone(setup, s', id, channel, data, pc', c, keys)
  {
  }

  lemma Miss(setup: Setup, s: State, id: nat, channel: string, data: Bytes, pc: PC, c: nat, keys: set<string>)
    returns (s': State)
    requires Alone(setup, s, id, channel, data, pc, c, keys) && Missing(pc, c) && !pc.Storing?
    requires KeyInjective(setup) && EntriesToEvict(setup) == 0
    requires setup.key(data).Some? && setup.key(data).value !in keys
    ensures Alone(setup, s', id, channel, data, AfterMiss(setup, pc, |keys|), c, keys)
    ensures Missing(AfterMiss(setup, pc, |keys|), c)
  {
    ReachableWf(setup, s);
    MissSection(setup, s, id, channel, data, pc, c, keys);
    ReachableStep(setup, s, Advance(id, keys));
    s' := AdvanceRequest(setup, s, id, keys);
    SectionAlone(setup, s, s', id, channel, data, pc, AfterMiss(setup, pc, |keys|), c, keys);
  }

  /** How many sections are left before the store. */
  function Left(pc: PC): nat {
    match pc
    case Ready(_) => 7
    case Checking(_, _) => 6
    case LookingUp(_, _) => 5
    case PurgeCheck(_, _) => 4
    case Purging(_, _) => 3
    case Computing(_, _) => 2
    case Committing(_, _, _) => 1
    case _ => 0
  }

  /** A lone request whose key is not in the cache comes to store its verdict, and no entry is lost. */
  lemma {:induction false} MissAll(
      setup: Setup, s: State, id: nat, channel: string, data: Bytes, pc: PC, c: nat, keys: set<string>)
    returns (s': State)
    requires Alone(setup, s, id, channel, data, pc, c, keys) && Missing(pc, c)
    requires KeyInjective(setup) && EntriesToEvict(setup) == 0
    requires setup.key(data).Some? && setup.key(data).value !in keys
    ensures Alone(setup, s', id, channel, data, Storing(c, 0, 0), c, keys)
    decreases Left(pc)
  {
    if pc.Storing? {
      s' := s;
    } else {
      var s1 := Miss(setup, s, id, channel, data, pc, c, keys);
      s' := MissAll(setup, s1, id, channel, data, AfterMiss(setup, pc, |keys|), c, keys);
    }
  }

  lemma StoreLast(setup: Setup, s: State, id: nat, channel: string, data: Bytes, c: nat, keys: set<string>)
    returns (s': State)
    requires Alone(setup, s, id, channel, data, Storing(c, 0, 0), c, keys)
    requires KeyInjective(setup) && setup.key(data).Some?
    ensures Quiet(setup, s', channel, id + 1, keys + {setup.key(data).value})
    ensures channel in s'.credentialCache
  {
    ReachableWf(setup, s);
    assert RequestOk(setup, s, s.requests[id]);
    ReachableStep(setup, s, Advance(id, {}));
    s' := AdvanceRequest(setup, s, id, {});
  }

  lemma Untouched(setup: Setup, channel: string) returns (s: State)
    ensures Quiet(setup, s, channel, 0, {})
  {
    s := State([(_: string) => 0], map[], [], map[]);
    var steps: seq<Step> := [];
    assert Run(setup, [s], steps) && [s][|steps|] == s;
  }

  /** A request undisturbed by others whose key is not in the cache leaves an entry, and no entry is lost. */
  lemma Serve(setup: Setup, s: State, channel: string, id: nat, data: Bytes, keys: set<string>) returns (s': State)
    requires KeyInjective(setup) && setup.enabled && setup.maxInFlight >= 1 && EntriesToEvict(setup) == 0
    requires Quiet(setup, s, channel, id, keys) && setup.key(data).Some? && setup.key(data).value !in keys
    ensures Quiet(setup, s', channel, id + 1, keys + {setup.key(data).value}) && channel in s'.credentialCache
  {
    var s1, c := Arrive(setup, s, channel, id, data, keys);
    var s2 := MissAll(setup, s1, id, channel, data, Ready(c), c, keys);
    s' := StoreLast(setup, s2, id, channel, data, c, keys);
  }

  /** A lone request whose key is in the cache answers what is stored, and changes no cache. */
  lemma HitAlone(setup: Setup, s: State, id: nat, channel: string, data: Bytes, c: nat, keys: set<string>)
    returns (s': State)
    requires KeyInjective(setup) && Alone(setup, s, id, channel, data, Ready(c), c, keys)
    requires setup.key(data).Some? && setup.key(data).value in keys
    ensures Reachable(setup, s') && s'.caches == s.caches && id in s'.requests
    ensures s'.requests[id].pc == Returned(Answered(s.caches[c].entries[setup.key(data).value]), 0)
  {
    var s1 := HitStep(setup, s, id, channel, data, Ready(c), Checking(c, 0), c, keys);
    var s2 := HitStep(setup, s1, id, channel, data, Checking(c, 0), LookingUp(c, 0), c, keys);
    s' := HitReturn(setup, s2, id, channel, data, c, keys);
  }

  lemma HitReturn(setup: Setup, s: State, id: nat, channel: string, data: Bytes, c: nat, keys: set<string>)
    returns (s': State)
    requires KeyInjective(setup) && Alone(setup, s, id, channel, data, LookingUp(c, 0), c, keys)
    requires setup.key(data).Some? && setup.key(data).value in keys
    ensures Reachable(setup, s') && s'.caches == s.caches && id in s'.requests
    ensures s'.requests[id].pc == Returned(Answered(s.caches[c].entries[setup.key(data).value]), 0)
  {
    ReachableWf(setup, s);
    assert RequestOk(setup, s, s.requests[id]);
    ReachableStep(setup, s, Advance(id, {}));
    s' := AdvanceRequest(setup, s, id, {});
  }

  lemma HitStep(setup: Setup, s: State, id: nat, channel: string, data: Bytes, pc: PC, pc': PC, c: nat,
                keys: set<string>)
    returns (s': State)
    requires KeyInjective(setup) && Alone(setup, s, id, channel, data, pc, c, keys) && setup.key(data).Some?
    requires (pc == Ready(c) && pc' == Checking(c, 0)) || (pc == Checking(c, 0) && pc' == LookingUp(c, 0))
    ensures Alone(setup, s', id, channel, data, pc', c, keys) && s'.caches == s.caches
  {
    ReachableWf(setup, s);
    assert RequestOk(setup, s, s.requests[id]);
    ReachableStep(setup, s, Advance(id, {}));
    s' := AdvanceRequest(setup, s, id, {});
    SectionAlone(setup, s, s', id, channel, data, pc, pc', c, keys);
  }

  /** Asked again, with nothing in between, the cache answers without the support and stays as it is. */
  lemma ServedAgain(setup: Setup, s: State, channel: string, id: nat, data: Bytes, keys: set<string>)
    returns (s': State)
    requires KeyInjective(setup) && setup.enabled && setup.maxInFlight >= 1
    requires Quiet(setup, s, channel, id, keys) && setup.key(data).Some? && setup.key(data).value in keys
    ensures channel in s.credentialCache && s.credentialCache[channel] < |s.caches|
    ensures setup.key(data).value in s.caches[s.credentialCache[channel]].entries
    ensures Reachable(setup, s') && s'.caches == s.caches && id in s'.requests
    ensures s'.requests[id].pc
         == Returned(Answered(s.caches[s.credentialCache[channel]].entries[setup.key(data).value]), 0)
  {
    var s1, c := Arrive(setup, s, channel, id, data, keys);
    assert s1.caches == s.caches && c == s.credentialCache[channel];
    s' := HitAlone(setup, s1, id, channel, data, c, keys);
  }

  /** Requests with different data, one after the other, each leave an entry. */
  lemma {:induction false} Grow(setup: Setup, channel: string, data: nat -> Bytes, n: nat)
    returns (s: State, keys: set<string>)
    requires KeyInjective(setup) && setup.enabled && setup.maxInFlight >= 1 && EntriesToEvict(setup) == 0
    requires forall i: nat :: setup.key(data(i)).Some?
    requires forall i: nat, j: nat | i < j :: data(i) != data(j)
    ensures Quiet(setup, s, channel, n, keys) && |keys| == n
    ensures forall i: nat | n <= i :: setup.key(data(i)).value !in keys
    ensures n > 0 ==> channel in s.credentialCache
  {
    if n == 0 {
      s := Untouched(setup, channel);
      keys := {};
    } else {
      var s0, keys0 := Grow(setup, channel, data, n - 1);
      s := Serve(setup, s0, channel, n - 1, data(n - 1), keys0);
      keys := keys0 + {setup.key(data(n - 1)).value};
    }
  }

  /** No cache of any run ever holds more than `bound` entries. */
  ghost predicate BoundedBy(setup: Setup, bound: nat) {
    forall s, c: nat | Reachable(setup, s) && c < |s.caches| :: |s.caches[c].entries| <= bound
  }

  /** The cache is bounded exactly when a purge is to evict a number of entries other than zero, and then by the
      maximum and the requests in flight. */
  lemma BoundedIff(setup: Setup, data: nat -> Bytes)
    requires KeyInjective(setup) && setup.enabled && setup.maxInFlight >= 1
    requires forall i: nat :: setup.key(data(i)).Some?
    requires forall i: nat, j: nat | i < j :: data(i) != data(j)
    ensures (exists bound: nat :: BoundedBy(setup, bound)) <==> EntriesToEvict(setup) != 0
    ensures EntriesToEvict(setup) != 0 ==> BoundedBy(setup, Limit(setup) + setup.maxInFlight - 1)
  {
    if EntriesToEvict(setup) != 0 {
      forall s, c: nat | Reachable(setup, s) && c < |s.caches|
        ensures |s.caches[c].entries| <= Limit(setup) + setup.maxInFlight - 1
      {
        var states, steps :| Run(setup, states, steps) && states[|steps|] == s;
        CacheSizeBound(setup, states, steps, |steps|, c);
      }
      assert BoundedBy(setup, Limit(setup) + setup.maxInFlight - 1);
    } else {
      forall bound: nat ensures !BoundedBy(setup, bound) {
        var s, keys := Grow(setup, "", data, bound + 1);
        assert |s.caches[s.credentialCache[""]].entries| == |s.caches[s.credentialCache[""]].entries.Keys|;
      }
    }
  }
}
