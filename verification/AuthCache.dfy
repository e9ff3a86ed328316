/** The discovery service's authorization cache: lock sections of one access cache, and their interleaving. */
module AuthCache {
  import opened Wrappers

  datatype Verdict = Eligible | Denied(reason: string)

  /** What does not change during a run: the support's answers, key derivation and the cache settings. */
  datatype Setup = Setup(
    eligible: (string, nat, Bytes) -> Verdict,   // by channel, config sequence and signed data
    key: Bytes -> Option<string>,                // fails if the data cannot be marshalled
    enabled: bool,
    maxCacheSize: int,
    purgeRetentionRatio: real,
    maxInFlight: nat)

  /** Distinct signed data never share a cache key. */
  ghost predicate KeyInjective(setup: Setup) {
    forall d, d' | setup.key(d).Some? && setup.key(d) == setup.key(d') :: d == d'
  }

  // ----- the lock sections of one access cache -----

  /** Go's conversion of a float to an int: toward zero. */
  function Trunc(x: real): int {
    if x >= 0.0 then x.Floor else -((-x).Floor)
  }

  function EntriesToEvict(setup: Setup): int {
    setup.maxCacheSize - Trunc(setup.purgeRetentionRatio * setup.maxCacheSize as real)
  }

  function PurgeNeeded(setup: Setup, size: nat): bool {
    size + 1 > setup.maxCacheSize
  }

  /** How many of `size` entries a purge leaves; a negative number to evict never reaches zero, so nothing is left. */
  function LeftByPurge(setup: Setup, size: nat): nat {
    var evict := EntriesToEvict(setup);
    if 0 <= evict <= size then size - evict else 0
  }

  /** A cache with, for each entry, the instant and the data its verdict was computed for, and the request that
      holds the lock. */
  datatype Cache = Cache(
    channel: string,
    lastSequence: nat,
    entries: map<string, Verdict>,
    stamps: map<string, (nat, Bytes)>,
    lockedBy: Option<nat>)

  function EmptyCache(channel: string): Cache {
    Cache(channel, 0, map[], map[], None)
  }

  /** The sequence is the one the cache was last emptied at. */
  predicate IsCurrent(k: Cache, sequence: nat) {
    sequence == k.lastSequence
  }

  function Found(k: Cache, key: string): Option<Verdict> {
    if key in k.entries then Some(k.entries[key]) else None
  }

  function Invalidated(k: Cache, sequence: nat): Cache {
    k.(lastSequence := sequence, entries := map[], stamps := map[])
  }

  function Purged(k: Cache, kept: set<string>): Cache
    requires kept <= k.entries.Keys && kept <= k.stamps.Keys
  {
    k.(entries := map key | key in kept :: k.entries[key], stamps := map key | key in kept :: k.stamps[key])
  }

  /** What a purge may keep: any of the entries, and exactly as many as the settings say. */
  predicate MayKeep(setup: Setup, k: Cache, kept: set<string>) {
    kept <= k.entries.Keys && |kept| == LeftByPurge(setup, |k.entries|)
  }

  /** The verdict is stored and the lock released. */
  function Stored(k: Cache, key: string, verdict: Verdict, e: nat, data: Bytes): Cache {
    k.(entries := k.entries[key := verdict], stamps := k.stamps[key := (e, data)], lockedBy := None)
  }

  /** One channel's cache. `stamps` and `lockedBy` are bookkeeping the program does not have. */
  class AccessCache {
    const channel: string
    var lastSequence: nat
    var entries: map<string, Verdict>
    ghost var stamps: map<string, (nat, Bytes)>
    ghost var lockedBy: Option<nat>

    ghost function View(): Cache
      reads this
    {
      Cache(channel, lastSequence, entries, stamps, lockedBy)
    }

    ghost predicate Valid()
      reads this
    {
      stamps.Keys == entries.Keys
    }

    constructor (channel: string)
      ensures Valid() && View() == EmptyCache(channel)
    {
      this.channel, lastSequence, entries, stamps, lockedBy := channel, 0, map[], map[], None;
    }

    method IsValid(currSeq: nat) returns (valid: bool)
      ensures valid <==> IsCurrent(View(), currSeq)
    {
      valid := currSeq == lastSequence;
    }

    method ConfigChange(currSeq: nat)
      modifies this
      ensures Valid() && View() == Invalidated(old(View()), currSeq)
    {
      lastSequence := currSeq;
      entries, stamps := map[], map[];
    }

    method Lookup(key: string) returns (hit: Option<Verdict>)
      ensures hit == Found(View(), key)
    {
      if key in entries { hit := Some(entries[key]); } else { hit := None; }
    }

    /** The eviction loop: some entries survive, unchanged, and exactly as many as the settings say. */
    method PurgeEntriesIfNeeded(setup: Setup) returns (ghost kept: set<string>)
      requires Valid()
      modifies this
      ensures Valid() && kept <= old(entries.Keys)
      ensures PurgeNeeded(setup, |old(entries)|) ==> MayKeep(setup, old(View()), kept)
      ensures !PurgeNeeded(setup, |old(entries)|) ==> kept == old(entries.Keys)
      ensures View() == Purged(old(View()), kept)
    {
      kept := entries.Keys;
      if !PurgeNeeded(setup, |entries|) { return; }
      var entries2evict := EntriesToEvict(setup);
      while entries != map[]
        invariant kept == entries.Keys && kept <= old(entries.Keys) && View() == Purged(old(View()), kept)
        invariant EntriesToEvict(setup) - entries2evict == |old(entries)| - |entries|
        invariant EntriesToEvict(setup) >= 0 ==> entries2evict >= 0
        decreases |entries|
      {
        if entries2evict == 0 { return; }
        var key :| key in entries;
        entries2evict := entries2evict - 1;
        RemoveSize(entries, key);
        entries, stamps, kept := entries - {key}, stamps - {key}, kept - {key};
      }
    }

    method Store(key: string, verdict: Verdict, ghost e: nat, ghost data: Bytes)
      requires Valid()
      modifies this
      ensures Valid() && View() == Stored(old(View()), key, verdict, e, data)
    {
      entries := entries[key := verdict];
      stamps, lockedBy := stamps[key := (e, data)], None;
    }

    /** Every entry is what the support says, at the cache's sequence, of the data its key stands for. */
    ghost predicate Coherent(setup: Setup)
      reads this
    {
      && Valid() && lockedBy.None?
      && forall key | key in entries ::
           setup.key(stamps[key].1) == Some(key) && entries[key] == setup.eligible(channel, lastSequence, stamps[key].1)
    }

    /** A request no other request and no config change overlaps: the answer is the support's, and it is remembered. */
    method EligibleForService(setup: Setup, currSeq: nat, data: Bytes, ghost e: nat) returns (answer: Answer)
      requires KeyInjective(setup) && Coherent(setup)
      modifies this
      ensures Coherent(setup)
      ensures setup.key(data).None? ==> answer == KeyError && View() == old(View())
      ensures setup.key(data).Some? ==>
        && answer == Answered(setup.eligible(channel, currSeq, data))
        && IsCurrent(View(), currSeq) && Found(View(), setup.key(data).value) == Some(answer.verdict)
    {
      if setup.key(data).None? { return KeyError; }
      var key := setup.key(data).value;
      var valid := IsValid(currSeq);
      if valid {
        var hit := Lookup(key);
        if hit.Some? { return Answered(hit.value); }
      } else {
        ConfigChange(currSeq);
      }
      ghost var kept := PurgeEntriesIfNeeded(setup);
      var verdict := setup.eligible(channel, currSeq, data);
      Store(key, verdict, e, data);
      answer := Answered(verdict);
    }
  }

  lemma RemoveSize(m: map<string, Verdict>, key: string)
    requires key in m
    ensures (m - {key}).Keys == m.Keys - {key} && |m - {key}| == |m| - 1
  {
    assert (m - {key}).Keys == m.Keys - {key};
    assert |m| == |m.Keys| && |m - {key}| == |(m - {key}).Keys|;
  }

  // ----- the interleaving of requests and config changes -----

  datatype Answer = KeyError | Answered(verdict: Verdict)

  /** Where a request is; `c` is its cache, `q` the instant it read the config
      sequence, `e` the instant it asked the support. */
  datatype PC =
    | Started
    | NoCache
    | Ready(c: nat)
    | Checking(c: nat, q: nat)
    | LookingUp(c: nat, q: nat)
    | Invalidating(c: nat, q: nat)
    | PurgeCheck(c: nat, q: nat)
    | Purging(c: nat, q: nat)
    | Computing(c: nat, q: nat)
    | Committing(c: nat, q: nat, e: nat)
    | Storing(c: nat, q: nat, e: nat)
    | Returned(answer: Answer, end: nat)

  datatype Request = Request(channel: string, data: Bytes, start: nat, pc: PC)

  /** `history` holds the config sequences of all channels, one snapshot per instant. */
  datatype State = State(
    history: seq<string -> nat>,
    credentialCache: map<string, nat>,
    caches: seq<Cache>,
    requests: map<nat, Request>)

  function Now(s: State): nat
    requires s.history != []
  {
    |s.history| - 1
  }

  datatype Step =
    | ConfigUpdate(sequences: string -> nat)
    | Begin(id: nat, channel: string, data: Bytes)
    | Advance(id: nat, kept: set<string>)

  ghost function InFlight(s: State): set<nat> {
    set id | id in s.requests && !s.requests[id].pc.Returned?
  }

  /** The cache whose lock a request's next section takes, if any. */
  function NeedsLock(pc: PC): Option<nat> {
    match pc
    case Checking(c, _) => Some(c)
    case LookingUp(c, _) => Some(c)
    case Invalidating(c, _) => Some(c)
    case PurgeCheck(c, _) => Some(c)
    case Purging(c, _) => Some(c)
    case Committing(c, _, _) => Some(c)
    case _ => None
  }

  function CacheOf(pc: PC): Option<nat> {
    match pc
    case Ready(c) => Some(c)
    case Computing(c, _) => Some(c)
    case Storing(c, _, _) => Some(c)
    case _ => NeedsLock(pc)
  }

  /** The instant a request read the config sequence. */
  function ReadAt(pc: PC): Option<nat> {
    match pc
    case Started => None
    case NoCache => None
    case Ready(_) => None
    case Returned(_, _) => None
    case _ => Some(pc.q)
  }

  /** The config sequence of a channel at an instant. */
  function SeqAt(s: State, i: nat, channel: string): nat {
    if i < |s.history| then s.history[i](channel) else 0
  }

  ghost predicate RequestOk(setup: Setup, s: State, r: Request) {
    && r.start < |s.history|
    && (CacheOf(r.pc).Some? ==> CacheOf(r.pc).value < |s.caches| && s.caches[CacheOf(r.pc).value].channel == r.channel)
    && (ReadAt(r.pc).Some? ==> r.start <= ReadAt(r.pc).value < |s.history| && setup.key(r.data).Some?)
    && (r.pc.Committing? || r.pc.Storing? ==> r.pc.q <= r.pc.e < |s.history|)
    && (r.pc.Returned? ==> r.start <= r.pc.end < |s.history|)
  }

  ghost predicate HistoryOk(s: State) {
    s.history != [] && forall i, j, ch | 0 <= i <= j < |s.history| :: SeqAt(s, i, ch) <= SeqAt(s, j, ch)
  }

  /** The shape of reachable states: sequences never decrease and all references are to existing things. */
  ghost predicate Wf(setup: Setup, s: State) {
    && HistoryOk(s)
    && (forall ch | ch in s.credentialCache ::
          s.credentialCache[ch] < |s.caches| && s.caches[s.credentialCache[ch]].channel == ch)
    && (forall id | id in s.requests :: RequestOk(setup, s, s.requests[id]))
    && (forall c | 0 <= c < |s.caches| :: s.caches[c].stamps.Keys == s.caches[c].entries.Keys)
  }

  /** A step can be taken: config sequences never decrease, ids are fresh, locks
      are free, and purges keep what they must. */
  ghost predicate Enabled(setup: Setup, s: State, step: Step)
    requires Wf(setup, s)
  {
    match step
    case ConfigUpdate(sequences) => forall ch :: SeqAt(s, Now(s), ch) <= sequences(ch)
    case Begin(id, _, _) => id !in s.requests && |InFlight(s)| < setup.maxInFlight
    case Advance(id, kept) =>
      && id in s.requests && !s.requests[id].pc.Returned?
      && var pc := s.requests[id].pc;
         && (NeedsLock(pc).Some? ==> s.caches[NeedsLock(pc).value].lockedBy.None?)
         && (pc.Purging? ==> MayKeep(setup, s.caches[pc.c], kept))
  }

  function Move(s: State, id: nat, pc: PC): State
    requires id in s.requests
  {
    s.(requests := s.requests[id := s.requests[id].(pc := pc)])
  }

  function SetCache(s: State, c: nat, cache: Cache): State
    requires c < |s.caches|
  {
    if cache == s.caches[c] then s else s.(caches := s.caches[c := cache])
  }

  /** What the support answers the request at an instant. */
  ghost function VerdictAt(setup: Setup, s: State, r: Request, i: nat): Verdict {
    setup.eligible(r.channel, SeqAt(s, i, r.channel), r.data)
  }

  /** What one section of a request does: its cache afterwards, and where the request then is. */
  datatype Effect = Effect(cache: Cache, pc: PC)

  /** One section of a request that has its cache. */
  ghost function Section(setup: Setup, s: State, id: nat, kept: set<string>): Effect
    requires Wf(setup, s) && Enabled(setup, s, Advance(id, kept)) && CacheOf(s.requests[id].pc).Some?
  {
    var r := s.requests[id];
    var k := s.caches[CacheOf(r.pc).value];
    match r.pc
    case Ready(c) => Effect(k, if setup.key(r.data).None? then Returned(KeyError, Now(s)) else Checking(c, Now(s)))
    case Checking(c, q) =>
      Effect(k, if IsCurrent(k, SeqAt(s, q, r.channel)) then LookingUp(c, q) else Invalidating(c, q))
    case LookingUp(c, q) =>
      (match Found(k, setup.key(r.data).value)
       case Some(verdict) => Effect(k, Returned(Answered(verdict), Now(s)))
       case None => Effect(k, PurgeCheck(c, q)))
    case Invalidating(c, q) => Effect(Invalidated(k, SeqAt(s, q, r.channel)), PurgeCheck(c, q))
    case PurgeCheck(c, q) => Effect(k, if PurgeNeeded(setup, |k.entries|) then Purging(c, q) else Computing(c, q))
    case Purging(c, q) => Effect(Purged(k, kept), Computing(c, q))
    case Computing(c, q) => Effect(k, Committing(c, q, Now(s)))
    case Committing(c, q, e) =>
      if SeqAt(s, q, r.channel) != SeqAt(s, Now(s), r.channel) then
        Effect(k, Returned(Answered(VerdictAt(setup, s, r, e)), Now(s)))
      else
        Effect(k.(lockedBy := Some(id)), Storing(c, q, e))
    case Storing(c, q, e) =>
      var key, verdict := setup.key(r.data).value, VerdictAt(setup, s, r, e);
      Effect(Stored(k, key, verdict, e, r.data), Returned(Answered(verdict), Now(s)))
  }

  /** One section of request `id`. */
  ghost function AdvanceRequest(setup: Setup, s: State, id: nat, kept: set<string>): (s': State)
    requires Wf(setup, s) && Enabled(setup, s, Advance(id, kept))
    ensures s'.history == s.history && id in s'.requests && s'.requests == s.requests[id := s'.requests[id]]
  {
    var r := s.requests[id];
    if r.pc.Started? then
      if !setup.enabled then Move(s, id, Returned(Answered(VerdictAt(setup, s, r, Now(s))), Now(s)))
      else if r.channel in s.credentialCache then Move(s, id, Ready(s.credentialCache[r.channel]))
      else Move(s, id, NoCache)
    else if r.pc.NoCache? then
      Move(s.(caches := s.caches + [EmptyCache(r.channel)],
              credentialCache := s.credentialCache[r.channel := |s.caches|]), id, Ready(|s.caches|))
    else
      var effect := Section(setup, s, id, kept);
      Move(SetCache(s, CacheOf(r.pc).value, effect.cache), id, effect.pc)
  }

  ghost function Apply(setup: Setup, s: State, step: Step): State
    requires Wf(setup, s) && Enabled(setup, s, step)
  {
    match step
    case ConfigUpdate(sequences) => s.(history := s.history + [sequences])
    case Begin(id, channel, data) => s.(requests := s.requests[id := Request(channel, data, Now(s), Started)])
    case Advance(id, kept) => AdvanceRequest(setup, s, id, kept)
  }

  ghost predicate Init(s: State) {
    |s.history| == 1 && s.credentialCache == map[] && s.caches == [] && s.requests == map[]
  }
}
