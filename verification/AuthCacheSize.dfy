/** The authorization cache stays within its maximum plus the requests that can be past the purge at once. */
module AuthCacheSize {
  import opened Wrappers
  import opened AuthCache
  import opened AuthCacheSafety

  /** Past the purge and not yet done: the request may still add an entry to cache `c`. */
  predicate MayStore(pc: PC, c: nat) {
    (pc.Computing? || pc.Committing? || pc.Storing?) && pc.c == c
  }

  ghost function Pending(s: State, c: nat): set<nat> {
    set id | id in s.requests && MayStore(s.requests[id].pc, c)
  }

  /** The configured maximum, or one entry if that is not positive: a purge does not stop the entry after it. */
  function Limit(setup: Setup): int {
    if setup.maxCacheSize >= 1 then setup.maxCacheSize else 1
  }

  ghost predicate Bounded(setup: Setup, s: State) {
    && |InFlight(s)| <= setup.maxInFlight
    && forall c | 0 <= c < |s.caches| :: |s.caches[c].entries| + |Pending(s, c)| < Limit(setup) + setup.maxInFlight
  }

  /** A purge of a non-empty cache evicts at least one entry, unless it is to evict exactly none. */
  lemma PurgeShrinks(setup: Setup, size: nat)
    requires EntriesToEvict(setup) != 0
    ensures LeftByPurge(setup, size) <= if size == 0 then 0 else size - 1
  {
  }

  /** A positive maximum and a retention ratio below one make a purge evict something. */
  lemma RatioBelowOne(setup: Setup)
    requires setup.maxCacheSize >= 1 && setup.purgeRetentionRatio < 1.0
    ensures EntriesToEvict(setup) > 0
  {
    var m, x := setup.maxCacheSize as real, setup.purgeRetentionRatio;
    assert x * m < m;
    assert Trunc(x * m) < setup.maxCacheSize;
  }

  /** A purge comes exactly when the cache holds its maximum, and leaves a full cache the retained share, rounded
      down. */
  lemma PurgeOfFullCache(setup: Setup, size: nat)
    ensures PurgeNeeded(setup, size) <==> size >= setup.maxCacheSize
    ensures 0.0 <= setup.purgeRetentionRatio <= 1.0 && size == setup.maxCacheSize ==>
      LeftByPurge(setup, size) == (setup.purgeRetentionRatio * size as real).Floor
  {
    if 0.0 <= setup.purgeRetentionRatio <= 1.0 && size == setup.maxCacheSize {
      ShareWithin(setup.purgeRetentionRatio, size);
      assert setup.purgeRetentionRatio * setup.maxCacheSize as real == setup.purgeRetentionRatio * size as real;
    }
  }

  /** Conversion to an integer drops what is after the point, on both sides of zero. */
  lemma TruncIs(x: real)
    ensures x >= 0.0 ==> Trunc(x) as real <= x < Trunc(x) as real + 1.0
    ensures x <= 0.0 ==> Trunc(x) as real - 1.0 < x <= Trunc(x) as real
  {
    if x < 0.0 {
      var n := (-x).Floor;
      assert n as real <= -x < n as real + 1.0;
    }
  }

  lemma ShareWithin(x: real, n: nat)
    requires 0.0 <= x <= 1.0
    ensures 0.0 <= x * n as real && 0 <= (x * n as real).Floor <= n
  {
    assert 0.0 <= x * n as real <= 1.0 * n as real;
  }

  lemma SubsetSize<T>(a: set<T>, b: set<T>)
    requires a <= b
    ensures |a| <= |b|
  {
    if a != {} {
      var x :| x in a;
      SubsetSize(a - {x}, b - {x});
    }
  }

  lemma InsertSize(m: map<string, Verdict>, k: string, v: Verdict)
    ensures |m[k := v]| <= |m| + 1
  {
    assert m[k := v].Keys == m.Keys + {k};
    SubsetSize(m.Keys + {k}, m.Keys + {k});
    assert |m.Keys + {k}| <= |m.Keys| + 1;
    assert |m[k := v]| == |m[k := v].Keys| && |m| == |m.Keys|;
  }

  /** A request that is not pending leaves room among the requests in flight. */
  lemma PendingRoom(setup: Setup, s: State, c: nat, id: nat)
    requires |InFlight(s)| <= setup.maxInFlight && id in InFlight(s) && id !in Pending(s, c)
    ensures |Pending(s, c)| + 1 <= setup.maxInFlight
  {
    SubsetSize(Pending(s, c) + {id}, InFlight(s));
  }

  lemma PendingMoved(s: State, s': State, id: nat, c: nat)
    requires id in s.requests && s'.requests.Keys == s.requests.Keys
    requires forall id' | id' in s.requests && id' != id :: s'.requests[id'] == s.requests[id']
    ensures Pending(s', c) == (if MayStore(s'.requests[id].pc, c) then Pending(s, c) + {id} else Pending(s, c) - {id})
    ensures !s.requests[id].pc.Returned? ==> InFlight(s') <= InFlight(s)
  {
  }

  /** What one section of a request does to the flight and to the requests pending at a cache. */
  lemma PendingAfter(setup: Setup, s: State, id: nat, kept: set<string>, c: nat)
    requires Wf(setup, s) && Enabled(setup, s, Advance(id, kept))
    ensures var s' := AdvanceRequest(setup, s, id, kept);
      && id in s'.requests
      && InFlight(s') <= InFlight(s)
      && Pending(s', c) == (if MayStore(s'.requests[id].pc, c) then Pending(s, c) + {id} else Pending(s, c) - {id})
  {
    PendingMoved(s, AdvanceRequest(setup, s, id, kept), id, c);
  }

  lemma BoundedElsewhere(setup: Setup, s: State, id: nat, kept: set<string>, c: nat)
    requires Wf(setup, s) && Enabled(setup, s, Advance(id, kept)) && c < |s.caches|
    requires CacheOf(s.requests[id].pc) != Some(c)
    ensures var s' := AdvanceRequest(setup, s, id, kept);
      c < |s'.caches| && s'.caches[c] == s.caches[c] && Pending(s', c) == Pending(s, c)
  {
    PendingAfter(setup, s, id, kept, c);
  }

  lemma SectionEffect(setup: Setup, s: State, id: nat, kept: set<string>, c: nat)
    requires Wf(setup, s) && Enabled(setup, s, Advance(id, kept)) && CacheOf(s.requests[id].pc) == Some(c)
    ensures c < |s.caches| && c < |AdvanceRequest(setup, s, id, kept).caches|
    ensures var s' := AdvanceRequest(setup, s, id, kept);
      Section(setup, s, id, kept) == Effect(s'.caches[c], s'.requests[id].pc)
  {
    assert RequestOk(setup, s, s.requests[id]);
  }

  /** What a section leaves in the request's cache, and whether the request is then pending. */
  ghost predicate Paced(setup: Setup, pc: PC, n: nat, effect: Effect, c: nat) {
    var n' := |effect.cache.entries|;
    if pc.PurgeCheck? then n' == n && (MayStore(effect.pc, c) ==> n < setup.maxCacheSize)
    else if pc.Purging? then n' <= if n == 0 then 0 else n - 1
    else if pc.Storing? then n' <= n + 1 && !MayStore(effect.pc, c)
    else n' <= n && (MayStore(effect.pc, c) ==> MayStore(pc, c))
  }

  lemma EntriesAfter(setup: Setup, s: State, id: nat, kept: set<string>, c: nat)
    requires Wf(setup, s) && Enabled(setup, s, Advance(id, kept)) && EntriesToEvict(setup) != 0
    requires CacheOf(s.requests[id].pc) == Some(c)
    ensures c < |s.caches|
    ensures Paced(setup, s.requests[id].pc, |s.caches[c].entries|, Section(setup, s, id, kept), c)
  {
    var r := s.requests[id];
    assert RequestOk(setup, s, r);
    if r.pc.Purging? {
      PurgeShrinks(setup, |s.caches[c].entries|);
      PurgedSize(s.caches[c], kept);
    } else if r.pc.Storing? {
      InsertSize(s.caches[c].entries, setup.key(r.data).value, VerdictAt(setup, s, r, r.pc.e));
    }
  }

  lemma PurgedSize(k: Cache, kept: set<string>)
    requires kept <= k.entries.Keys && kept <= k.stamps.Keys
    ensures |Purged(k, kept).entries| == |kept|
  {
    assert Purged(k, kept).entries.Keys == kept;
  }

  /** At the request's own cache: entries plus pending requests stay below the bound. */
  lemma BoundedHere(setup: Setup, s: State, id: nat, kept: set<string>, c: nat)
    requires Wf(setup, s) && Enabled(setup, s, Advance(id, kept)) && Bounded(setup, s) && EntriesToEvict(setup) != 0
    requires CacheOf(s.requests[id].pc) == Some(c)
    ensures var s' := AdvanceRequest(setup, s, id, kept);
      && c < |s'.caches|
      && |s'.caches[c].entries| + |Pending(s', c)| < Limit(setup) + setup.maxInFlight
  {
    EntriesAfter(setup, s, id, kept, c);
    SectionEffect(setup, s, id, kept, c);
    PendingAfter(setup, s, id, kept, c);
    var s' := AdvanceRequest(setup, s, id, kept);
    assert |s.caches[c].entries| + |Pending(s, c)| < Limit(setup) + setup.maxInFlight;
    if id !in Pending(s, c) { PendingRoom(setup, s, c, id); }
    PendingSize(Pending(s, c), Pending(s', c), id);
  }

  lemma PendingSize(p: set<nat>, p': set<nat>, id: nat)
    requires p' == p + {id} || p' == p - {id}
    ensures |p'| == |p| - (if id in p then 1 else 0) + (if id in p' then 1 else 0)
  {
    if id in p {
      assert p + {id} == p;
    } else {
      assert p - {id} == p;
    }
  }

  lemma NewCacheUnused(setup: Setup, s: State, id: nat, kept: set<string>, c: nat)
    requires Wf(setup, s) && Enabled(setup, s, Advance(id, kept))
      && |s.caches| <= c < |AdvanceRequest(setup, s, id, kept).caches|
    ensures var s' := AdvanceRequest(setup, s, id, kept); s'.caches[c].entries == map[] && Pending(s', c) == {}
    ensures id in InFlight(s)
  {
    var s' := AdvanceRequest(setup, s, id, kept);
    assert s.requests[id].pc.NoCache?;
    forall id' | id' in s.requests
      ensures !MayStore(s.requests[id'].pc, c)
    {
      assert RequestOk(setup, s, s.requests[id']);
    }
    PendingAfter(setup, s, id, kept, c);
  }

  lemma BoundedAdvance(setup: Setup, s: State, id: nat, kept: set<string>, c: nat)
    requires Wf(setup, s) && Enabled(setup, s, Advance(id, kept)) && Bounded(setup, s) && EntriesToEvict(setup) != 0
    requires c < |AdvanceRequest(setup, s, id, kept).caches|
    ensures var s' := AdvanceRequest(setup, s, id, kept);
      |s'.caches[c].entries| + |Pending(s', c)| < Limit(setup) + setup.maxInFlight
  {
    if c >= |s.caches| {
      NewCacheUnused(setup, s, id, kept, c);
    } else if CacheOf(s.requests[id].pc) == Some(c) {
      BoundedHere(setup, s, id, kept, c);
    } else {
      BoundedElsewhere(setup, s, id, kept, c);
    }
  }

  lemma BoundedBegin(setup: Setup, s: State, id: nat, channel: string, data: Bytes)
    requires Wf(setup, s) && Enabled(setup, s, Begin(id, channel, data)) && Bounded(setup, s)
    ensures Bounded(setup, Apply(setup, s, Begin(id, channel, data)))
  {
    var s' := Apply(setup, s, Begin(id, channel, data));
    assert InFlight(s') == InFlight(s) + {id};
    assert forall c | 0 <= c < |s.caches| :: Pending(s', c) == Pending(s, c);
  }

  lemma BoundedUpdate(setup: Setup, s: State, sequences: string -> nat)
    requires Wf(setup, s) && Enabled(setup, s, ConfigUpdate(sequences)) && Bounded(setup, s)
    ensures Bounded(setup, Apply(setup, s, ConfigUpdate(sequences)))
  {
    var s' := Apply(setup, s, ConfigUpdate(sequences));
    assert InFlight(s') == InFlight(s);
    assert forall c | 0 <= c < |s.caches| :: Pending(s', c) == Pending(s, c);
  }

  lemma BoundedStep(setup: Setup, s: State, step: Step)
    requires Wf(setup, s) && Enabled(setup, s, step) && Bounded(setup, s) && EntriesToEvict(setup) != 0
    ensures Bounded(setup, Apply(setup, s, step))
  {
    match step
    case ConfigUpdate(sequences) => BoundedUpdate(setup, s, sequences);
    case Begin(id, channel, data) => BoundedBegin(setup, s, id, channel, data);
    case Advance(id, kept) =>
      var s' := AdvanceRequest(setup, s, id, kept);
      PendingAfter(setup, s, id, kept, 0);
      SubsetSize(InFlight(s'), InFlight(s));
      forall c | 0 <= c < |s'.caches|
        ensures |s'.caches[c].entries| + |Pending(s', c)| < Limit(setup) + setup.maxInFlight
      {
        BoundedAdvance(setup, s, id, kept, c);
      }
  }

  lemma {:induction false} RunBounded(setup: Setup, states: seq<State>, steps: seq<Step>, n: nat)
    requires Run(setup, states, steps) && EntriesToEvict(setup) != 0 && n < |states|
    ensures Bounded(setup, states[n])
  {
    if n == 0 {
      assert InFlight(states[0]) == {};
    } else {
      RunBounded(setup, states, steps, n - 1);
      assert states[n - 1 + 1] == Apply(setup, states[n - 1], steps[n - 1]);
      BoundedStep(setup, states[n - 1], steps[n - 1]);
    }
  }

  /** With at most T requests in flight no cache ever holds more than M + T - 1
      entries; one at a time, never more than M. */
  lemma CacheSizeBound(setup: Setup, states: seq<State>, steps: seq<Step>, n: nat, c: nat)
    requires Run(setup, states, steps) && EntriesToEvict(setup) != 0 && n < |states| && c < |states[n].caches|
    ensures |states[n].caches[c].entries| <= Limit(setup) + setup.maxInFlight - 1
  {
    RunBounded(setup, states, steps, n);
  }
}
