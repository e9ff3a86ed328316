/** Every answer of the authorization cache is current, in every interleaving. */
module AuthCacheSafety {
  import opened Wrappers
  import opened AuthCache

  // ----- the invariant -----

  /** An entry was computed at its stamp, for its own data, at a config sequence no older than the cache's. */
  ghost predicate StampOk(setup: Setup, s: State, k: Cache, key: string) {
    && key in k.entries && key in k.stamps
    && var (i, d) := k.stamps[key];
       && i < |s.history|
       && setup.key(d) == Some(key)
       && k.entries[key] == setup.eligible(k.channel, SeqAt(s, i, k.channel), d)
       && k.lastSequence <= SeqAt(s, i, k.channel)
  }

  ghost predicate CacheOk(setup: Setup, s: State, k: Cache) {
    && s.history != []
    && k.lastSequence <= SeqAt(s, Now(s), k.channel)
    && forall key | key in k.entries :: StampOk(setup, s, k, key)
  }

  ghost predicate LockOk(s: State, c: nat) {
    c < |s.caches| && s.caches[c].lockedBy.Some? ==>
      var id := s.caches[c].lockedBy.value;
      id in s.requests && s.requests[id].pc.Storing? && s.requests[id].pc.c == c
  }

  /** A request that passed the validity check sees only entries at least as recent as the sequence it read. */
  ghost predicate LookupOk(s: State, r: Request) {
    r.pc.LookingUp? && r.pc.c < |s.caches| ==>
      forall key | key in s.caches[r.pc.c].stamps ::
        SeqAt(s, r.pc.q, r.channel) <= SeqAt(s, s.caches[r.pc.c].stamps[key].0, r.channel)
  }

  /** A request about to store holds the lock, and nothing changed between its
      reading of the sequence and its verdict. */
  ghost predicate StoreOk(s: State, id: nat, r: Request) {
    r.pc.Storing? && r.pc.c < |s.caches| ==>
      && s.caches[r.pc.c].lockedBy == Some(id)
      && SeqAt(s, r.pc.q, r.channel) == SeqAt(s, r.pc.e, r.channel)
      && s.caches[r.pc.c].lastSequence <= SeqAt(s, r.pc.q, r.channel)
  }

  /** What is about to be stored is as recent as any request about to look it up demands. */
  ghost predicate PairOk(s: State, storer: Request, reader: Request) {
    storer.pc.Storing? && reader.pc.LookingUp? && storer.pc.c == reader.pc.c ==>
      SeqAt(s, reader.pc.q, storer.channel) <= SeqAt(s, storer.pc.q, storer.channel)
  }

  /** The answer is what the support would say at some instant between the request's start and its return. */
  ghost predicate AnswerOk(setup: Setup, s: State, r: Request) {
    r.pc.Returned? && r.pc.answer.Answered? ==>
      exists i | r.start <= i <= r.pc.end :: r.pc.answer.verdict == VerdictAt(setup, s, r, i)
  }

  ghost predicate CachesOk(setup: Setup, s: State) {
    forall c | 0 <= c < |s.caches| :: CacheOk(setup, s, s.caches[c])
  }

  ghost predicate LocksOk(s: State) {
    && (forall c | 0 <= c < |s.caches| :: LockOk(s, c))
    && (forall id | id in s.requests :: StoreOk(s, id, s.requests[id]))
  }

  ghost predicate LookupsOk(s: State) {
    && (forall id | id in s.requests :: LookupOk(s, s.requests[id]))
    && (forall id, id' | id in s.requests && id' in s.requests :: PairOk(s, s.requests[id], s.requests[id']))
  }

  ghost predicate AnswersOk(setup: Setup, s: State) {
    forall id | id in s.requests :: AnswerOk(setup, s, s.requests[id])
  }

  ghost predicate Inv(setup: Setup, s: State) {
    Wf(setup, s) && CachesOk(setup, s) && LocksOk(s) && LookupsOk(s) && AnswersOk(setup, s)
  }

  // ----- changes that keep the invariant -----

  /** The same instants so far, and perhaps more. */
  ghost predicate Extends(s: State, s': State) {
    |s.history| <= |s'.history| && forall i | 0 <= i < |s.history| :: s'.history[i] == s.history[i]
  }

  lemma ExtendsAnswer(setup: Setup, s: State, s': State, r: Request)
    requires Extends(s, s') && RequestOk(setup, s, r) && AnswerOk(setup, s, r)
    ensures AnswerOk(setup, s', r)
  {
    if r.pc.Returned? && r.pc.answer.Answered? {
      var i :| r.start <= i <= r.pc.end && r.pc.answer.verdict == VerdictAt(setup, s, r, i);
      assert SeqAt(s', i, r.channel) == SeqAt(s, i, r.channel);
      assert r.pc.answer.verdict == VerdictAt(setup, s', r, i);
    }
  }

  lemma ExtendsCache(setup: Setup, s: State, s': State, k: Cache)
    requires Extends(s, s') && HistoryOk(s') && CacheOk(setup, s, k)
    ensures CacheOk(setup, s', k)
  {
    assert SeqAt(s', Now(s), k.channel) == SeqAt(s, Now(s), k.channel);
    assert SeqAt(s', Now(s), k.channel) <= SeqAt(s', Now(s'), k.channel);
    forall key | key in k.entries ensures StampOk(setup, s', k, key) {
      assert StampOk(setup, s, k, key);
      assert SeqAt(s', k.stamps[key].0, k.channel) == SeqAt(s, k.stamps[key].0, k.channel);
    }
  }

  lemma SameHistory(s: State, s': State)
    requires s'.history == s.history && HistoryOk(s)
    ensures Extends(s, s') && HistoryOk(s') && forall i, ch :: SeqAt(s', i, ch) == SeqAt(s, i, ch)
  {
    forall i, j, ch | 0 <= i <= j < |s'.history| ensures SeqAt(s', i, ch) <= SeqAt(s', j, ch) {
      assert SeqAt(s, i, ch) <= SeqAt(s, j, ch);
    }
  }

  lemma UpdateHistory(setup: Setup, s: State, sequences: string -> nat)
    requires Wf(setup, s) && Enabled(setup, s, ConfigUpdate(sequences))
    ensures Extends(s, Apply(setup, s, ConfigUpdate(sequences))) && Wf(setup, Apply(setup, s, ConfigUpdate(sequences)))
  {
    var s' := Apply(setup, s, ConfigUpdate(sequences));
    forall i, j, ch | 0 <= i <= j < |s'.history| ensures SeqAt(s', i, ch) <= SeqAt(s', j, ch) {
      if j < |s.history| {
        assert SeqAt(s, i, ch) <= SeqAt(s, j, ch);
      } else if i < |s.history| {
        assert SeqAt(s, i, ch) <= SeqAt(s, Now(s), ch) <= sequences(ch);
      }
    }
    forall id | id in s'.requests ensures RequestOk(setup, s', s'.requests[id]) {
      assert RequestOk(setup, s, s.requests[id]);
    }
  }

  lemma InvConfigUpdate(setup: Setup, s: State, sequences: string -> nat)
    requires Inv(setup, s) && Enabled(setup, s, ConfigUpdate(sequences))
    ensures Inv(setup, Apply(setup, s, ConfigUpdate(sequences)))
  {
    var s' := Apply(setup, s, ConfigUpdate(sequences));
    UpdateHistory(setup, s, sequences);
    forall c | 0 <= c < |s'.caches| ensures CacheOk(setup, s', s'.caches[c]) {
      ExtendsCache(setup, s, s', s.caches[c]);
    }
    forall id | id in s'.requests ensures AnswerOk(setup, s', s'.requests[id]) {
      ExtendsAnswer(setup, s, s', s.requests[id]);
    }
    UpdateLocks(setup, s, s');
    UpdateLookups(setup, s, s');
  }

  lemma UpdateLocks(setup: Setup, s: State, s': State)
    requires Wf(setup, s) && LocksOk(s) && Extends(s, s') && s'.requests == s.requests && s'.caches == s.caches
    ensures LocksOk(s')
  {
    forall c | 0 <= c < |s'.caches| ensures LockOk(s', c) { assert LockOk(s, c); }
    forall id | id in s'.requests ensures StoreOk(s', id, s'.requests[id]) {
      assert StoreOk(s, id, s.requests[id]) && RequestOk(setup, s, s.requests[id]);
    }
  }

  lemma UpdateLookups(setup: Setup, s: State, s': State)
    requires Wf(setup, s) && CachesOk(setup, s) && LookupsOk(s) && Extends(s, s') && s'.requests == s.requests
      && s'.caches == s.caches
    ensures LookupsOk(s')
  {
    forall id | id in s'.requests ensures LookupOk(s', s'.requests[id]) {
      var r := s.requests[id];
      assert LookupOk(s, r) && RequestOk(setup, s, r);
      if r.pc.LookingUp? {
        assert CacheOk(setup, s, s.caches[r.pc.c]);
        forall key | key in s.caches[r.pc.c].stamps
          ensures SeqAt(s', r.pc.q, r.channel) <= SeqAt(s', s.caches[r.pc.c].stamps[key].0, r.channel)
        {
          assert StampOk(setup, s, s.caches[r.pc.c], key);
        }
      }
    }
    forall id, id' | id in s'.requests && id' in s'.requests ensures PairOk(s', s'.requests[id], s'.requests[id']) {
      assert PairOk(s, s.requests[id], s.requests[id']);
      assert RequestOk(setup, s, s.requests[id]) && RequestOk(setup, s, s.requests[id']);
    }
  }

  /** A new request, or a request moved on, that neither holds nor takes a lock. */
  lemma InvMove(setup: Setup, s: State, id: nat, r: Request)
    requires Inv(setup, s) && (id in s.requests ==> !s.requests[id].pc.Storing?)
    requires !r.pc.Storing? && RequestOk(setup, s, r) && LookupOk(s, r) && AnswerOk(setup, s, r)
    requires forall id' | id' in s.requests :: PairOk(s, s.requests[id'], r)
    ensures Inv(setup, s.(requests := s.requests[id := r]))
  {
    var s' := s.(requests := s.requests[id := r]);
    SameHistory(s, s');
    forall id' | id' in s'.requests
      ensures RequestOk(setup, s', s'.requests[id']) && AnswerOk(setup, s', s'.requests[id'])
    {
      ExtendsAnswer(setup, s, s', s'.requests[id']);
    }
    MoveLocks(s, id, r);
    MoveLookups(s, id, r);
    forall c | 0 <= c < |s'.caches| ensures CacheOk(setup, s', s'.caches[c]) {
      ExtendsCache(setup, s, s', s.caches[c]);
    }
  }

  lemma MoveLocks(s: State, id: nat, r: Request)
    requires LocksOk(s) && (id in s.requests ==> !s.requests[id].pc.Storing?) && !r.pc.Storing?
    ensures LocksOk(s.(requests := s.requests[id := r]))
  {
    var s' := s.(requests := s.requests[id := r]);
    forall c | 0 <= c < |s'.caches| ensures LockOk(s', c) { assert LockOk(s, c); }
    forall id' | id' in s'.requests ensures StoreOk(s', id', s'.requests[id']) {
      if id' != id { assert StoreOk(s, id', s.requests[id']); }
    }
  }

  lemma MoveLookups(s: State, id: nat, r: Request)
    requires LookupsOk(s) && LookupOk(s, r) && !r.pc.Storing?
    requires forall id' | id' in s.requests :: PairOk(s, s.requests[id'], r)
    ensures LookupsOk(s.(requests := s.requests[id := r]))
  {
    var s' := s.(requests := s.requests[id := r]);
    assert forall i, ch :: SeqAt(s', i, ch) == SeqAt(s, i, ch);
    forall id' | id' in s'.requests ensures LookupOk(s', s'.requests[id']) {
      if id' != id { assert LookupOk(s, s.requests[id']); }
    }
    forall a, b | a in s'.requests && b in s'.requests ensures PairOk(s', s'.requests[a], s'.requests[b]) {
      if a != id && b != id { assert PairOk(s, s.requests[a], s.requests[b]); }
      if a != id && b == id { assert PairOk(s, s.requests[a], r); }
    }
  }

  /** A cache replaced by one with the same channel, while nobody holds its lock. */
  lemma InvSetCache(setup: Setup, s: State, c: nat, k: Cache)
    requires Inv(setup, s) && c < |s.caches|
    requires k.channel == s.caches[c].channel && k.lockedBy.None? && s.caches[c].lockedBy.None?
    requires k.stamps.Keys == k.entries.Keys && CacheOk(setup, s, k)
    requires forall id | id in s.requests :: LookupOk(s.(caches := s.caches[c := k]), s.requests[id])
    ensures Inv(setup, SetCache(s, c, k))
  {
    var s' := SetCache(s, c, k);
    SameHistory(s, s');
    forall id | id in s'.requests
      ensures RequestOk(setup, s', s'.requests[id]) && AnswerOk(setup, s', s'.requests[id])
        && StoreOk(s', id, s'.requests[id])
    {
      ExtendsAnswer(setup, s, s', s.requests[id]);
      assert StoreOk(s, id, s.requests[id]);
    }
    forall c' | 0 <= c' < |s'.caches| ensures CacheOk(setup, s', s'.caches[c']) && LockOk(s', c') {
      ExtendsCache(setup, s, s', s'.caches[c']);
      assert LockOk(s, c');
    }
    forall a, b | a in s'.requests && b in s'.requests ensures PairOk(s', s'.requests[a], s'.requests[b]) {
      assert PairOk(s, s.requests[a], s.requests[b]);
    }
  }

  /** Answering with the support's verdict at some instant since the start is answering well. */
  lemma AnswerFrom(setup: Setup, s: State, s': State, r: Request, i: nat)
    requires s.history != [] && s'.history == s.history && RequestOk(setup, s, r) && r.start <= i <= Now(s)
    ensures var r' := r.(pc := Returned(Answered(VerdictAt(setup, s, r, i)), Now(s)));
      RequestOk(setup, s', r') && AnswerOk(setup, s', r') && LookupOk(s', r')
  {
    var r' := r.(pc := Returned(Answered(VerdictAt(setup, s, r, i)), Now(s)));
    assert SeqAt(s', i, r.channel) == SeqAt(s, i, r.channel);
    assert r'.pc.answer.verdict == VerdictAt(setup, s', r', i);
  }

  /** Caches may be added at the end and may change their locks; nothing else about them changes. */
  ghost predicate SameCaches(s: State, s': State) {
    && |s.caches| <= |s'.caches|
    && forall c | 0 <= c < |s.caches| :: s'.caches[c] == s.caches[c].(lockedBy := s'.caches[c].lockedBy)
  }

  /** Requests and lookups do not depend on locks or on further caches. */
  lemma SameRequests(setup: Setup, s: State, s': State)
    requires Inv(setup, s) && s'.history == s.history && SameCaches(s, s')
    ensures HistoryOk(s')
    ensures forall id | id in s.requests ::
      RequestOk(setup, s', s.requests[id]) && AnswerOk(setup, s', s.requests[id]) && LookupOk(s', s.requests[id])
    ensures forall a, b | a in s.requests && b in s.requests :: PairOk(s', s.requests[a], s.requests[b])
  {
    SameHistory(s, s');
    forall id | id in s.requests
      ensures RequestOk(setup, s', s.requests[id]) && AnswerOk(setup, s', s.requests[id])
        && LookupOk(s', s.requests[id])
    {
      ExtendsAnswer(setup, s, s', s.requests[id]);
      assert RequestOk(setup, s, s.requests[id]) && LookupOk(s, s.requests[id]);
    }
    forall a, b | a in s.requests && b in s.requests ensures PairOk(s', s.requests[a], s.requests[b]) {
      assert PairOk(s, s.requests[a], s.requests[b]);
    }
  }

  lemma SameCachesOk(setup: Setup, s: State, s': State, c: nat)
    requires Inv(setup, s) && s'.history == s.history && SameCaches(s, s') && c < |s.caches|
    ensures CacheOk(setup, s', s'.caches[c])
  {
    var k := s'.caches[c];
    assert CacheOk(setup, s, s.caches[c]);
    forall key | key in k.entries ensures StampOk(setup, s, k, key) { assert StampOk(setup, s, s.caches[c], key); }
    SameHistory(s, s');
    ExtendsCache(setup, s, s', k);
  }

  /** A fresh cache for a channel. */
  lemma InvNewCache(setup: Setup, s: State, channel: string)
    requires Inv(setup, s)
    ensures Inv(setup, s.(caches := s.caches + [EmptyCache(channel)],
                          credentialCache := s.credentialCache[channel := |s.caches|]))
  {
    var s' := s.(caches := s.caches + [EmptyCache(channel)],
                 credentialCache := s.credentialCache[channel := |s.caches|]);
    SameRequests(setup, s, s');
    forall c | 0 <= c < |s'.caches| ensures CacheOk(setup, s', s'.caches[c]) {
      if c < |s.caches| { SameCachesOk(setup, s, s', c); }
    }
    NewCacheLocks(setup, s, s');
  }

  lemma NewCacheLocks(setup: Setup, s: State, s': State)
    requires Wf(setup, s) && LocksOk(s) && s'.history == s.history && s'.requests == s.requests
    requires |s.caches| <= |s'.caches| && forall c | 0 <= c < |s'.caches| ::
      if c < |s.caches| then s'.caches[c] == s.caches[c] else s'.caches[c].lockedBy.None?
    ensures LocksOk(s')
  {
    SameHistory(s, s');
    forall c | 0 <= c < |s'.caches| ensures LockOk(s', c) { assert LockOk(s, c); }
    forall id | id in s'.requests ensures StoreOk(s', id, s'.requests[id]) {
      assert RequestOk(setup, s, s.requests[id]) && StoreOk(s, id, s.requests[id]);
    }
  }

  /** A request moved on and locks changed, but nothing else about the caches: locks and lookups are all there is
      to check. */
  lemma InvRelocked(setup: Setup, s: State, s': State, id: nat)
    requires Inv(setup, s) && s'.history == s.history && s'.credentialCache == s.credentialCache
    requires |s'.caches| == |s.caches| && SameCaches(s, s')
    requires id in s'.requests && s'.requests == s.requests[id := s'.requests[id]]
    requires RequestOk(setup, s', s'.requests[id]) && AnswerOk(setup, s', s'.requests[id])
    requires LocksOk(s') && LookupsOk(s')
    ensures Inv(setup, s')
  {
    SameRequests(setup, s, s');
    forall c | 0 <= c < |s'.caches| ensures CacheOk(setup, s', s'.caches[c]) { SameCachesOk(setup, s, s', c); }
  }

  /** A request takes the lock after seeing that the sequence has not changed since it read it. */
  lemma InvLock(setup: Setup, s: State, id: nat, c: nat, q: nat, e: nat)
    requires Inv(setup, s) && id in s.requests && s.requests[id].pc == Committing(c, q, e)
    requires s.caches[c].lockedBy.None?
    requires SeqAt(s, q, s.requests[id].channel) == SeqAt(s, Now(s), s.requests[id].channel)
    ensures Inv(setup, Move(SetCache(s, c, s.caches[c].(lockedBy := Some(id))), id, Storing(c, q, e)))
  {
    var s' := Move(SetCache(s, c, s.caches[c].(lockedBy := Some(id))), id, Storing(c, q, e));
    assert RequestOk(setup, s, s.requests[id]);
    LockLocks(setup, s, id, c, q, e);
    LockLookups(setup, s, id, c, q, e);
    InvRelocked(setup, s, s', id);
  }

  lemma LockLocks(setup: Setup, s: State, id: nat, c: nat, q: nat, e: nat)
    requires Inv(setup, s) && id in s.requests && s.requests[id].pc == Committing(c, q, e)
    requires s.caches[c].lockedBy.None?
    requires SeqAt(s, q, s.requests[id].channel) == SeqAt(s, Now(s), s.requests[id].channel)
    ensures LocksOk(Move(SetCache(s, c, s.caches[c].(lockedBy := Some(id))), id, Storing(c, q, e)))
  {
    var s' := Move(SetCache(s, c, s.caches[c].(lockedBy := Some(id))), id, Storing(c, q, e));
    var ch := s.requests[id].channel;
    SameHistory(s, s');
    assert RequestOk(setup, s, s.requests[id]) && CacheOk(setup, s, s.caches[c]);
    assert SeqAt(s, q, ch) <= SeqAt(s, e, ch) <= SeqAt(s, Now(s), ch);
    forall c' | 0 <= c' < |s'.caches| ensures LockOk(s', c') { assert LockOk(s, c'); }
    forall id' | id' in s'.requests ensures StoreOk(s', id', s'.requests[id']) {
      if id' != id { assert StoreOk(s, id', s.requests[id']) && RequestOk(setup, s, s.requests[id']); }
    }
  }

  lemma LockLookups(setup: Setup, s: State, id: nat, c: nat, q: nat, e: nat)
    requires Inv(setup, s) && id in s.requests && s.requests[id].pc == Committing(c, q, e)
    requires SeqAt(s, q, s.requests[id].channel) == SeqAt(s, Now(s), s.requests[id].channel)
    ensures LookupsOk(Move(SetCache(s, c, s.caches[c].(lockedBy := Some(id))), id, Storing(c, q, e)))
  {
    var s' := Move(SetCache(s, c, s.caches[c].(lockedBy := Some(id))), id, Storing(c, q, e));
    var ch := s.requests[id].channel;
    SameHistory(s, s');
    SameRequests(setup, s, s');
    forall a, b | a in s'.requests && b in s'.requests ensures PairOk(s', s'.requests[a], s'.requests[b]) {
      if a == id && b != id && s.requests[b].pc.LookingUp? {
        assert RequestOk(setup, s, s.requests[b]);
        assert SeqAt(s, s.requests[b].pc.q, ch) <= SeqAt(s, Now(s), ch);
      }
    }
  }

  /** The lock holder answers and releases the lock. */
  lemma InvUnlock(setup: Setup, s: State, id: nat, c: nat, q: nat, e: nat)
    requires Inv(setup, s) && id in s.requests && s.requests[id].pc == Storing(c, q, e)
    ensures Inv(setup, Move(SetCache(s, c, s.caches[c].(lockedBy := None)), id,
                            Returned(Answered(VerdictAt(setup, s, s.requests[id], e)), Now(s))))
  {
    var r := s.requests[id];
    var s' := Move(SetCache(s, c, s.caches[c].(lockedBy := None)), id,
                   Returned(Answered(VerdictAt(setup, s, r, e)), Now(s)));
    assert RequestOk(setup, s, r);
    UnlockLocks(setup, s, id, c, s'.requests[id]);
    UnlockLookups(setup, s, s', id);
    AnswerFrom(setup, s, s', r, e);
    InvRelocked(setup, s, s', id);
  }

  lemma UnlockLocks(setup: Setup, s: State, id: nat, c: nat, r: Request)
    requires Wf(setup, s) && LocksOk(s) && id in s.requests && s.requests[id].pc.Storing? && s.requests[id].pc.c == c
    requires !r.pc.Storing?
    ensures LocksOk(SetCache(s, c, s.caches[c].(lockedBy := None)).(requests := s.requests[id := r]))
  {
    var s' := SetCache(s, c, s.caches[c].(lockedBy := None)).(requests := s.requests[id := r]);
    assert StoreOk(s, id, s.requests[id]);
    forall c' | 0 <= c' < |s'.caches| ensures LockOk(s', c') { assert LockOk(s, c'); }
    forall id' | id' in s'.requests ensures StoreOk(s', id', s'.requests[id']) {
      if id' != id { assert StoreOk(s, id', s.requests[id']) && RequestOk(setup, s, s.requests[id']); }
    }
  }

  lemma UnlockLookups(setup: Setup, s: State, s': State, id: nat)
    requires Inv(setup, s) && s'.history == s.history && SameCaches(s, s')
    requires id in s'.requests && s'.requests == s.requests[id := s'.requests[id]] && s'.requests[id].pc.Returned?
    ensures LookupsOk(s')
  {
    SameRequests(setup, s, s');
  }

  /** Moving on to a place that is neither a lookup nor a store. */
  lemma InvMoveOn(setup: Setup, s: State, id: nat, pc: PC)
    requires Inv(setup, s) && id in s.requests && !s.requests[id].pc.Storing?
    requires !pc.Storing? && !pc.LookingUp?
    requires RequestOk(setup, s, s.requests[id].(pc := pc)) && AnswerOk(setup, s, s.requests[id].(pc := pc))
    ensures Inv(setup, Move(s, id, pc))
  {
    InvMove(setup, s, id, s.requests[id].(pc := pc));
  }

  // ----- the steps -----

  lemma InvBegin(setup: Setup, s: State, id: nat, channel: string, data: Bytes)
    requires Inv(setup, s) && Enabled(setup, s, Begin(id, channel, data))
    ensures Inv(setup, Apply(setup, s, Begin(id, channel, data)))
  {
    InvMove(setup, s, id, Request(channel, data, Now(s), Started));
  }

  /** A hit is current: an entry no older than the sequence the request read was
      valid at some instant of the request. */
  lemma HitIsCurrent(setup: Setup, s: State, id: nat, c: nat, q: nat, key: string) returns (i: nat)
    requires Inv(setup, s) && KeyInjective(setup) && id in s.requests && s.requests[id].pc == LookingUp(c, q)
    requires setup.key(s.requests[id].data) == Some(key) && key in s.caches[c].entries
    ensures s.requests[id].start <= i <= Now(s) && s.caches[c].entries[key] == VerdictAt(setup, s, s.requests[id], i)
  {
    var r, k := s.requests[id], s.caches[c];
    assert RequestOk(setup, s, r) && LookupOk(s, r);
    assert CacheOk(setup, s, k) && StampOk(setup, s, k, key);
    var (e, d) := k.stamps[key];
    assert d == r.data;
    i := if e >= r.start then e else q;
    assert e <= q ==> SeqAt(s, e, r.channel) <= SeqAt(s, q, r.channel);
  }

  lemma InvLookup(setup: Setup, s: State, id: nat, c: nat, q: nat)
    requires Inv(setup, s) && KeyInjective(setup) && id in s.requests && s.requests[id].pc == LookingUp(c, q)
    requires Enabled(setup, s, Advance(id, {}))
    ensures Inv(setup, AdvanceRequest(setup, s, id, {}))
  {
    var r := s.requests[id];
    assert RequestOk(setup, s, r);
    var key := setup.key(r.data).value;
    if key in s.caches[c].entries {
      var i := HitIsCurrent(setup, s, id, c, q, key);
      AnswerFrom(setup, s, s, r, i);
      InvMoveOn(setup, s, id, Returned(Answered(VerdictAt(setup, s, r, i)), Now(s)));
    } else {
      InvMoveOn(setup, s, id, PurgeCheck(c, q));
    }
  }

  lemma InvChecking(setup: Setup, s: State, id: nat, c: nat, q: nat)
    requires Inv(setup, s) && id in s.requests && s.requests[id].pc == Checking(c, q)
    requires Enabled(setup, s, Advance(id, {}))
    ensures Inv(setup, AdvanceRequest(setup, s, id, {}))
  {
    var r := s.requests[id];
    assert RequestOk(setup, s, r) && CacheOk(setup, s, s.caches[c]);
    if IsCurrent(s.caches[c], SeqAt(s, q, r.channel)) {
      var r' := r.(pc := LookingUp(c, q));
      forall key | key in s.caches[c].stamps
        ensures SeqAt(s, q, r.channel) <= SeqAt(s, s.caches[c].stamps[key].0, r.channel)
      {
        assert StampOk(setup, s, s.caches[c], key);
      }
      forall id' | id' in s.requests ensures PairOk(s, s.requests[id'], r') {
        assert StoreOk(s, id', s.requests[id']) && RequestOk(setup, s, s.requests[id']);
      }
      InvMove(setup, s, id, r');
    } else {
      InvMoveOn(setup, s, id, Invalidating(c, q));
    }
  }

  lemma InvInvalidating(setup: Setup, s: State, id: nat, c: nat, q: nat)
    requires Inv(setup, s) && id in s.requests && s.requests[id].pc == Invalidating(c, q)
    requires Enabled(setup, s, Advance(id, {}))
    ensures Inv(setup, AdvanceRequest(setup, s, id, {}))
  {
    var r := s.requests[id];
    assert RequestOk(setup, s, r);
    assert SeqAt(s, q, r.channel) <= SeqAt(s, Now(s), r.channel);
    InvTrimmed(setup, s, id, c, Invalidated(s.caches[c], SeqAt(s, q, r.channel)), PurgeCheck(c, q));
  }

  /** Taking entries away from a cache leaves every lookup as good as before. */
  lemma OtherLookup(s: State, c: nat, k: Cache, r: Request)
    requires c < |s.caches| && LookupOk(s, r)
    requires forall key | key in k.stamps :: key in s.caches[c].stamps && k.stamps[key] == s.caches[c].stamps[key]
    ensures LookupOk(s.(caches := s.caches[c := k]), r)
  {
    var s' := s.(caches := s.caches[c := k]);
    assert forall i, ch :: SeqAt(s', i, ch) == SeqAt(s, i, ch);
  }

  /** A request takes entries away from its cache and moves on. */
  lemma InvTrimmed(setup: Setup, s: State, id: nat, c: nat, k: Cache, pc: PC)
    requires Inv(setup, s) && id in s.requests && !s.requests[id].pc.Storing? && c < |s.caches|
    requires k.channel == s.caches[c].channel && k.lockedBy.None? && s.caches[c].lockedBy.None?
    requires k.stamps.Keys == k.entries.Keys && CacheOk(setup, s, k)
    requires forall key | key in k.stamps :: key in s.caches[c].stamps && k.stamps[key] == s.caches[c].stamps[key]
    requires (pc.PurgeCheck? || pc.Computing?) && RequestOk(setup, s, s.requests[id].(pc := pc))
    ensures Inv(setup, Move(SetCache(s, c, k), id, pc))
  {
    forall id' | id' in s.requests ensures LookupOk(s.(caches := s.caches[c := k]), s.requests[id']) {
      OtherLookup(s, c, k, s.requests[id']);
    }
    InvSetCache(setup, s, c, k);
    InvMoveOn(setup, SetCache(s, c, k), id, pc);
  }

  lemma PurgedCache(setup: Setup, s: State, k: Cache, k': Cache)
    requires CacheOk(setup, s, k) && k'.channel == k.channel && k'.lastSequence == k.lastSequence
    requires k'.entries.Keys == k'.stamps.Keys <= k.entries.Keys
    requires forall key | key in k'.entries && key in k.stamps ::
      k'.entries[key] == k.entries[key] && k'.stamps[key] == k.stamps[key]
    ensures CacheOk(setup, s, k')
  {
    forall key | key in k'.entries ensures StampOk(setup, s, k', key) { assert StampOk(setup, s, k, key); }
  }

  lemma AfterPurging(setup: Setup, s: State, id: nat, kept: set<string>, c: nat, q: nat)
    requires Wf(setup, s) && id in s.requests && s.requests[id].pc == Purging(c, q)
    requires Enabled(setup, s, Advance(id, kept))
    ensures AdvanceRequest(setup, s, id, kept) == Move(SetCache(s, c, Purged(s.caches[c], kept)), id, Computing(c, q))
  {
  }

  lemma InvPurging(setup: Setup, s: State, id: nat, kept: set<string>, c: nat, q: nat)
    requires Inv(setup, s) && id in s.requests && s.requests[id].pc == Purging(c, q)
    requires Enabled(setup, s, Advance(id, kept))
    ensures Inv(setup, AdvanceRequest(setup, s, id, kept))
  {
    assert RequestOk(setup, s, s.requests[id]);
    PurgedCache(setup, s, s.caches[c], Purged(s.caches[c], kept));
    InvTrimmed(setup, s, id, c, Purged(s.caches[c], kept), Computing(c, q));
    AfterPurging(setup, s, id, kept, c, q);
  }

  lemma InvCommitting(setup: Setup, s: State, id: nat, c: nat, q: nat, e: nat)
    requires Inv(setup, s) && id in s.requests && s.requests[id].pc == Committing(c, q, e)
    requires Enabled(setup, s, Advance(id, {}))
    ensures Inv(setup, AdvanceRequest(setup, s, id, {}))
  {
    var r := s.requests[id];
    assert RequestOk(setup, s, r);
    if SeqAt(s, q, r.channel) != SeqAt(s, Now(s), r.channel) {
      AnswerFrom(setup, s, s, r, e);
      InvMoveOn(setup, s, id, Returned(Answered(VerdictAt(setup, s, r, e)), Now(s)));
    } else {
      InvLock(setup, s, id, c, q, e);
    }
  }

  lemma StoredCache(setup: Setup, s: State, s': State, k: Cache, r: Request, key: string, e: nat)
    requires CacheOk(setup, s, k) && s'.history == s.history && r.channel == k.channel && setup.key(r.data) == Some(key)
    requires e < |s.history| && k.lastSequence <= SeqAt(s, e, k.channel)
    ensures CacheOk(setup, s', Stored(k, key, VerdictAt(setup, s, r, e), e, r.data))
  {
    var k' := Stored(k, key, VerdictAt(setup, s, r, e), e, r.data);
    forall key' | key' in k'.entries ensures StampOk(setup, s', k', key') {
      if key' != key { assert StampOk(setup, s, k, key'); }
    }
  }

  lemma InvStoring(setup: Setup, s: State, id: nat, c: nat, q: nat, e: nat)
    requires Inv(setup, s) && id in s.requests && s.requests[id].pc == Storing(c, q, e)
    requires Enabled(setup, s, Advance(id, {}))
    ensures Inv(setup, AdvanceRequest(setup, s, id, {}))
  {
    var r, k := s.requests[id], s.caches[c];
    assert RequestOk(setup, s, r) && StoreOk(s, id, r) && CacheOk(setup, s, k);
    var key, verdict := setup.key(r.data).value, VerdictAt(setup, s, r, e);
    var s1 := Move(SetCache(s, c, k.(lockedBy := None)), id, Returned(Answered(verdict), Now(s)));
    InvUnlock(setup, s, id, c, q, e);
    var k' := Stored(k, key, verdict, e, r.data);
    StoredCache(setup, s, s1, k, r, key, e);
    forall id' | id' in s1.requests ensures LookupOk(s1.(caches := s1.caches[c := k']), s1.requests[id']) {
      if id' != id { StoredLookup(setup, s, s1.(caches := s1.caches[c := k']), id, id', key); }
    }
    InvSetCache(setup, s1, c, k');
    UpdateTwice(s.caches, c, k.(lockedBy := None), k');
  }

  lemma UpdateTwice<T>(xs: seq<T>, i: nat, x: T, y: T)
    requires i < |xs|
    ensures xs[i := x][i := y] == xs[i := y]
  {
  }

  /** The new entry is recent enough for every request that may look it up. */
  lemma StoredLookup(setup: Setup, s: State, s': State, id: nat, id': nat, key: string)
    requires Inv(setup, s) && id in s.requests && id' in s.requests && s.requests[id].pc.Storing?
    requires s'.history == s.history && |s'.caches| == |s.caches|
    requires var r := s.requests[id];
      && s'.caches[r.pc.c].stamps == s.caches[r.pc.c].stamps[key := (r.pc.e, r.data)]
      && forall c | 0 <= c < |s.caches| && c != r.pc.c :: s'.caches[c] == s.caches[c]
    ensures LookupOk(s', s.requests[id'])
  {
    var r, r' := s.requests[id], s.requests[id'];
    assert LookupOk(s, r') && PairOk(s, r, r') && StoreOk(s, id, r) && RequestOk(setup, s, r)
      && RequestOk(setup, s, r');
    SameHistory(s, s');
  }

  lemma InvStarted(setup: Setup, s: State, id: nat)
    requires Inv(setup, s) && Enabled(setup, s, Advance(id, {})) && s.requests[id].pc == Started
    ensures Inv(setup, AdvanceRequest(setup, s, id, {}))
  {
    var r := s.requests[id];
    assert RequestOk(setup, s, r);
    if !setup.enabled {
      AnswerFrom(setup, s, s, r, Now(s));
      InvMoveOn(setup, s, id, Returned(Answered(VerdictAt(setup, s, r, Now(s))), Now(s)));
    } else if r.channel in s.credentialCache {
      InvMoveOn(setup, s, id, Ready(s.credentialCache[r.channel]));
    } else {
      InvMoveOn(setup, s, id, NoCache);
    }
  }

  lemma InvNoCache(setup: Setup, s: State, id: nat)
    requires Inv(setup, s) && Enabled(setup, s, Advance(id, {})) && s.requests[id].pc == NoCache
    ensures Inv(setup, AdvanceRequest(setup, s, id, {}))
  {
    var r := s.requests[id];
    assert RequestOk(setup, s, r);
    InvNewCache(setup, s, r.channel);
    var s1 := s.(caches := s.caches + [EmptyCache(r.channel)],
                 credentialCache := s.credentialCache[r.channel := |s.caches|]);
    InvMoveOn(setup, s1, id, Ready(|s.caches|));
  }

  lemma InvReady(setup: Setup, s: State, id: nat, c: nat)
    requires Inv(setup, s) && Enabled(setup, s, Advance(id, {})) && s.requests[id].pc == Ready(c)
    ensures Inv(setup, AdvanceRequest(setup, s, id, {}))
  {
    var r := s.requests[id];
    assert RequestOk(setup, s, r);
    if setup.key(r.data).None? {
      InvMoveOn(setup, s, id, Returned(KeyError, Now(s)));
    } else {
      InvMoveOn(setup, s, id, Checking(c, Now(s)));
    }
  }

  lemma InvPurgeCheck(setup: Setup, s: State, id: nat, c: nat, q: nat)
    requires Inv(setup, s) && Enabled(setup, s, Advance(id, {})) && s.requests[id].pc == PurgeCheck(c, q)
    ensures Inv(setup, AdvanceRequest(setup, s, id, {}))
  {
    assert RequestOk(setup, s, s.requests[id]);
    if PurgeNeeded(setup, |s.caches[c].entries|) {
      InvMoveOn(setup, s, id, Purging(c, q));
    } else {
      InvMoveOn(setup, s, id, Computing(c, q));
    }
  }

  lemma InvComputing(setup: Setup, s: State, id: nat, c: nat, q: nat)
    requires Inv(setup, s) && Enabled(setup, s, Advance(id, {})) && s.requests[id].pc == Computing(c, q)
    ensures Inv(setup, AdvanceRequest(setup, s, id, {}))
  {
    assert RequestOk(setup, s, s.requests[id]);
    InvMoveOn(setup, s, id, Committing(c, q, Now(s)));
  }

  lemma InvBefore(setup: Setup, s: State, id: nat, kept: set<string>)
    requires Inv(setup, s) && KeyInjective(setup) && kept == {} && Enabled(setup, s, Advance(id, kept))
    requires var pc := s.requests[id].pc; pc.Started? || pc.NoCache? || pc.Ready? || pc.Checking? || pc.LookingUp?
    ensures Inv(setup, AdvanceRequest(setup, s, id, {}))
  {
    match s.requests[id].pc
    case Started => InvStarted(setup, s, id);
    case NoCache => InvNoCache(setup, s, id);
    case Ready(c) => InvReady(setup, s, id, c);
    case Checking(c, q) => InvChecking(setup, s, id, c, q);
    case LookingUp(c, q) => InvLookup(setup, s, id, c, q);
  }

  lemma InvAfter(setup: Setup, s: State, id: nat, kept: set<string>)
    requires Inv(setup, s) && kept == {} && Enabled(setup, s, Advance(id, kept))
    requires var pc := s.requests[id].pc;
      pc.Invalidating? || pc.PurgeCheck? || pc.Computing? || pc.Committing? || pc.Storing?
    ensures Inv(setup, AdvanceRequest(setup, s, id, {}))
  {
    match s.requests[id].pc
    case Invalidating(c, q) => InvInvalidating(setup, s, id, c, q);
    case PurgeCheck(c, q) => InvPurgeCheck(setup, s, id, c, q);
    case Computing(c, q) => InvComputing(setup, s, id, c, q);
    case Committing(c, q, e) => InvCommitting(setup, s, id, c, q, e);
    case Storing(c, q, e) => InvStoring(setup, s, id, c, q, e);
  }

  /** Only a purge looks at the entries to keep. */
  lemma KeptUnused(setup: Setup, s: State, id: nat, kept: set<string>)
    requires Wf(setup, s) && Enabled(setup, s, Advance(id, kept)) && !s.requests[id].pc.Purging?
    ensures Enabled(setup, s, Advance(id, {}))
    ensures AdvanceRequest(setup, s, id, kept) == AdvanceRequest(setup, s, id, {})
  {
  }

  lemma InvAdvance(setup: Setup, s: State, id: nat, kept: set<string>)
    requires Inv(setup, s) && KeyInjective(setup) && Enabled(setup, s, Advance(id, kept))
    ensures Inv(setup, AdvanceRequest(setup, s, id, kept))
  {
    var pc := s.requests[id].pc;
    if pc.Purging? {
      InvPurging(setup, s, id, kept, pc.c, pc.q);
    } else {
      KeptUnused(setup, s, id, kept);
      if pc.Started? || pc.NoCache? || pc.Ready? || pc.Checking? || pc.LookingUp? {
        InvBefore(setup, s, id, {});
      } else {
        InvAfter(setup, s, id, {});
      }
    }
  }

  /** Every step of every request and every config change keeps the invariant. */
  lemma InvStep(setup: Setup, s: State, step: Step)
    requires Inv(setup, s) && KeyInjective(setup) && Enabled(setup, s, step)
    ensures Inv(setup, Apply(setup, s, step))
  {
    match step
    case ConfigUpdate(sequences) => InvConfigUpdate(setup, s, sequences);
    case Begin(id, channel, data) => InvBegin(setup, s, id, channel, data);
    case Advance(id, kept) => InvAdvance(setup, s, id, kept);
  }

  // ----- runs -----

  /** The states of a run, one per step, from an initial state. */
  ghost predicate Run(setup: Setup, states: seq<State>, steps: seq<Step>) {
    && |states| == |steps| + 1 && Init(states[0])
    && forall i | 0 <= i < |steps| ::
         Wf(setup, states[i]) && Enabled(setup, states[i], steps[i])
           && states[i + 1] == Apply(setup, states[i], steps[i])
  }

  lemma {:induction false} RunInv(setup: Setup, states: seq<State>, steps: seq<Step>, n: nat)
    requires Run(setup, states, steps) && KeyInjective(setup) && n < |states|
    ensures Inv(setup, states[n])
  {
    if n > 0 {
      RunInv(setup, states, steps, n - 1);
      assert states[n - 1 + 1] == Apply(setup, states[n - 1], steps[n - 1]);
      InvStep(setup, states[n - 1], steps[n - 1]);
    }
  }

  /** In every interleaving, every answer, hit or miss, is what the support would have answered at some instant
      between the request's start and its return. */
  lemma AnswersAreCurrent(setup: Setup, states: seq<State>, steps: seq<Step>, n: nat, id: nat)
    requires Run(setup, states, steps) && KeyInjective(setup) && n < |states|
    requires id in states[n].requests && states[n].requests[id].pc.Returned?
      && states[n].requests[id].pc.answer.Answered?
    ensures
      var s, r := states[n], states[n].requests[id];
      exists i | r.start <= i <= r.pc.end < |s.history| ::
        r.pc.answer.verdict == setup.eligible(r.channel, s.history[i](r.channel), r.data)
  {
    RunInv(setup, states, steps, n);
    var s, r := states[n], states[n].requests[id];
    assert AnswerOk(setup, s, r) && RequestOk(setup, s, r);
    var i :| r.start <= i <= r.pc.end && r.pc.answer.verdict == VerdictAt(setup, s, r, i);
    assert r.pc.answer.verdict == setup.eligible(r.channel, s.history[i](r.channel), r.data);
  }

  // ----- requests without a key -----

  /** Only requests without a key fail for it, and with caching enabled they all do. */
  ghost predicate KeyOk(setup: Setup, r: Request) {
    && (r.pc.Returned? ==> (r.pc.answer.KeyError? <==> setup.enabled && setup.key(r.data).None?))
    && (r.pc.NoCache? || CacheOf(r.pc).Some? ==> setup.enabled)
  }

  ghost predicate KeysOk(setup: Setup, s: State) {
    forall id | id in s.requests :: KeyOk(setup, s.requests[id])
  }

  lemma KeyAdvance(setup: Setup, s: State, id: nat, kept: set<string>)
    requires Wf(setup, s) && Enabled(setup, s, Advance(id, kept)) && KeyOk(setup, s.requests[id])
    ensures KeyOk(setup, AdvanceRequest(setup, s, id, kept).requests[id])
  {
    assert RequestOk(setup, s, s.requests[id]);
  }

  lemma KeyStep(setup: Setup, s: State, step: Step)
    requires Wf(setup, s) && Enabled(setup, s, step) && KeysOk(setup, s)
    ensures KeysOk(setup, Apply(setup, s, step))
  {
    if step.Advance? { KeyAdvance(setup, s, step.id, step.kept); }
  }

  lemma {:induction false} RunKeys(setup: Setup, states: seq<State>, steps: seq<Step>, n: nat)
    requires Run(setup, states, steps) && n < |states|
    ensures KeysOk(setup, states[n])
  {
    if n > 0 {
      RunKeys(setup, states, steps, n - 1);
      assert states[n - 1 + 1] == Apply(setup, states[n - 1], steps[n - 1]);
      KeyStep(setup, states[n - 1], steps[n - 1]);
    }
  }

  /** In every interleaving, a request that returns fails exactly if caching is enabled and its key cannot be
      computed. */
  lemma KeyErrorIff(setup: Setup, states: seq<State>, steps: seq<Step>, n: nat, id: nat)
    requires Run(setup, states, steps) && n < |states|
    requires id in states[n].requests && states[n].requests[id].pc.Returned?
    ensures states[n].requests[id].pc.answer.KeyError? <==>
            setup.enabled && setup.key(states[n].requests[id].data).None?
  {
    RunKeys(setup, states, steps, n);
    assert KeyOk(setup, states[n].requests[id]);
  }
}
