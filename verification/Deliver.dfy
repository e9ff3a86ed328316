/** The deliver session: a stream of blocks under a cached access decision. */
module Deliver {
  import opened Wrappers

  const UINT64: nat := 0x1_0000_0000_0000_0000

  // ----- access control -----

  /** What one evaluation meets: the time, the config sequence, and how the policy check would come out. */
  datatype Evaluation = Evaluation(now: int, sequence: nat, verdict: bool)

  datatype Access = Access(lastConfigSequence: nat, usedAtLeastOnce: bool)

  const UNUSED: Access := Access(0, false)

  predicate Expired(end: Option<int>, now: int) { end.Some? && now > end.value }

  predicate CheckNeeded(a: Access, sequence: nat) { !a.usedAtLeastOnce || sequence > a.lastConfigSequence }

  function EvaluateStep(end: Option<int>, a: Access, e: Evaluation): (Access, bool) {
    if Expired(end, e.now) then (a, false)
    else if CheckNeeded(a, e.sequence) then
      (Access(if e.sequence > a.lastConfigSequence then e.sequence else a.lastConfigSequence, true), e.verdict)
    else (a, true)
  }

  class SessionAccessControl {
    const sessionEndTime: Option<int>
    var lastConfigSequence: nat
    var usedAtLeastOnce: bool

    function State(): Access
      reads this
    {
      Access(lastConfigSequence, usedAtLeastOnce)
    }

    constructor (sessionEndTime: Option<int>)
      ensures this.sessionEndTime == sessionEndTime && State() == UNUSED
    {
      this.sessionEndTime := sessionEndTime;
      lastConfigSequence, usedAtLeastOnce := 0, false;
    }

    method Evaluate(e: Evaluation) returns (ok: bool)
      modifies this
      ensures (State(), ok) == EvaluateStep(sessionEndTime, old(State()), e)
    {
      if sessionEndTime.Some? && e.now > sessionEndTime.value {
        return false;
      }
      var policyCheckNeeded := !usedAtLeastOnce;
      if e.sequence > lastConfigSequence {
        lastConfigSequence := e.sequence;
        policyCheckNeeded := true;
      }
      if !policyCheckNeeded {
        return true;
      }
      usedAtLeastOnce := true;
      return e.verdict;
    }
  }

  /** The state after evaluations that all succeeded. */
  function Session(end: Option<int>, es: seq<Evaluation>): Option<Access> {
    if es == [] then Some(UNUSED)
    else
      var before := Session(end, es[..|es| - 1]);
      if before.None? then None
      else
        var (a, ok) := EvaluateStep(end, before.value, es[|es| - 1]);
        if ok then Some(a) else None
  }

  /** The j-th evaluation checked the policy, successfully, at a config sequence that no evaluation exceeds. */
  ghost predicate CheckedAtHighest(end: Option<int>, es: seq<Evaluation>, j: nat) {
    && j < |es| && es[j].verdict
    && Session(end, es[..j]).Some? && CheckNeeded(Session(end, es[..j]).value, es[j].sequence)
    && forall i | 0 <= i < |es| :: es[i].sequence <= es[j].sequence
  }

  /** As long as every evaluation succeeds, the policy has been found satisfied at the highest config sequence seen. */
  lemma {:induction false} SessionAuthorized(end: Option<int>, es: seq<Evaluation>) returns (j: nat)
    requires es != [] && Session(end, es).Some?
    ensures CheckedAtHighest(end, es, j)
    ensures Session(end, es).value == Access(es[j].sequence, true)
    ensures forall i | 0 <= i < |es| :: !Expired(end, es[i].now)
  {
    var last := |es| - 1;
    var init := es[..last];
    if init == [] {
      j := 0;
      assert es[..0] == [];
    } else {
      var i := SessionAuthorized(end, init);
      if CheckNeeded(Session(end, init).value, es[last].sequence) {
        j := last;
      } else {
        j := i;
        assert es[..i] == init[..i];
      }
    }
  }

  // ----- going on after a failure -----

  /** After a failed check, the next evaluation succeeds unless it is expired or
      finds a higher sequence and fails there. */
  lemma FailureForgotten(end: Option<int>, a: Access, e: Evaluation, e': Evaluation)
    requires !Expired(end, e.now) && CheckNeeded(a, e.sequence) && !e.verdict
    ensures !EvaluateStep(end, a, e).1
    ensures EvaluateStep(end, EvaluateStep(end, a, e).0, e').1 <==>
            && !Expired(end, e'.now)
            && (e'.sequence <= e.sequence || e'.sequence <= a.lastConfigSequence || e'.verdict)
  {
  }

  /** The state after evaluations, successful or not. */
  function StateAfter(end: Option<int>, es: seq<Evaluation>): Access {
    if es == [] then UNUSED else EvaluateStep(end, StateAfter(end, es[..|es| - 1]), es[|es| - 1]).0
  }

  /** The last evaluation that checked the policy, if any. */
  function LastCheck(end: Option<int>, es: seq<Evaluation>): (r: Option<nat>)
    ensures r.Some? ==> r.value < |es|
  {
    if es == [] then None
    else
      var init, last := es[..|es| - 1], es[|es| - 1];
      if !Expired(end, last.now) && CheckNeeded(StateAfter(end, init), last.sequence) then Some(|es| - 1)
      else LastCheck(end, init)
  }

  /** The first, not expired, to meet the highest config sequence that an evaluation not expired has met. */
  ghost predicate FirstAtHighest(end: Option<int>, es: seq<Evaluation>, j: nat) {
    && j < |es| && !Expired(end, es[j].now)
    && (forall i | 0 <= i < |es| && !Expired(end, es[i].now) :: es[i].sequence <= es[j].sequence)
    && (forall i | 0 <= i < j && !Expired(end, es[i].now) :: es[i].sequence < es[j].sequence)
  }

  /** Which evaluation that is, can be seen without running any. */
  lemma {:induction false} LastCheckIs(end: Option<int>, es: seq<Evaluation>)
    ensures match LastCheck(end, es)
            case None => StateAfter(end, es) == UNUSED && forall i | 0 <= i < |es| :: Expired(end, es[i].now)
            case Some(j) => FirstAtHighest(end, es, j) && StateAfter(end, es) == Access(es[j].sequence, true)
  {
    if es != [] {
      var init := es[..|es| - 1];
      LastCheckIs(end, init);
      assert forall i | 0 <= i < |init| :: init[i] == es[i];
    }
  }

  /** An evaluation goes through on a failed check. */
  predicate Unsafe(end: Option<int>, es: seq<Evaluation>, e: Evaluation) {
    && EvaluateStep(end, StateAfter(end, es), e).1
    && LastCheck(end, es + [e]).Some? && !(es + [e])[LastCheck(end, es + [e]).value].verdict
  }

  /** Going on after failures is unsafe exactly if the first evaluation to meet
      the highest sequence failed, and no higher one is met. */
  lemma UnsafeIff(end: Option<int>, es: seq<Evaluation>, e: Evaluation)
    ensures Unsafe(end, es, e) <==>
            && !Expired(end, e.now)
            && exists j: nat :: FirstAtHighest(end, es, j) && !es[j].verdict && e.sequence <= es[j].sequence
  {
    LastCheckIs(end, es);
    assert (es + [e])[..|es|] == es;
    forall j: nat | FirstAtHighest(end, es, j) ensures LastCheck(end, es) == Some(j) {
      OneFirst(end, es, j);
    }
  }

  lemma OneFirst(end: Option<int>, es: seq<Evaluation>, j: nat)
    requires FirstAtHighest(end, es, j)
    ensures LastCheck(end, es) == Some(j)
  {
    LastCheckIs(end, es);
  }

  /** Stopping at the first failure is never unsafe. */
  lemma {:induction false} StoppingIsSafe(end: Option<int>, es: seq<Evaluation>, e: Evaluation)
    requires Session(end, es).Some?
    ensures StateAfter(end, es) == Session(end, es).value
    ensures !Unsafe(end, es, e)
  {
    if es != [] {
      StoppingIsSafe(end, es[..|es| - 1], e);
    }
    UnsafeIff(end, es, e);
    forall j: nat | FirstAtHighest(end, es, j) ensures es[j].verdict {
      PassedCheck(end, es, j);
    }
  }

  /** The first to meet the highest sequence consulted the policy, and in a session it passed. */
  lemma PassedCheck(end: Option<int>, es: seq<Evaluation>, i: nat)
    requires Session(end, es).Some? && FirstAtHighest(end, es, i)
    ensures es[i].verdict
  {
    var before := es[..i];
    SessionPrefix(end, es, i);
    SessionPrefix(end, es, i + 1);
    assert es[..i + 1][..i] == before;
    if i > 0 {
      var j := SessionAuthorized(end, before);
      assert before[j] == es[j];
      assert forall x | 0 <= x < |before| :: before[x] == es[x];
    }
  }

  lemma {:induction false} SessionPrefix(end: Option<int>, es: seq<Evaluation>, i: nat)
    requires Session(end, es).Some? && i <= |es|
    ensures Session(end, es[..i]).Some?
    decreases |es|
  {
    if i == |es| {
      assert es[..i] == es;
    } else {
      SessionPrefix(end, es[..|es| - 1], i);
      assert es[..|es| - 1][..i] == es[..i];
    }
  }

  // ----- streaming -----

  datatype Status =
    | SUCCESS
    | BAD_REQUEST
    | FORBIDDEN
    | NOT_FOUND
    | SERVICE_UNAVAILABLE
    | INTERNAL_SERVER_ERROR
    | OTHER_FAILURE

  datatype Position = Oldest | Newest | Specified(number: nat) | Unset

  datatype SeekInfo = SeekInfo(start: Option<Position>, stop: Option<Position>, failIfNotReady: bool, bestEffort: bool)

  /** What the wait for a block ends with; on best effort it never is a consenter error. */
  datatype Event = ContextDone | ConsenterError | BlockRead(status: Status, block: nat)

  /** What one round of the loop meets. */
  datatype Round = Round(height: nat, event: Event, evaluation: Evaluation, sendOk: bool)

  datatype Stepped = Stopped(status: Status, asked: bool, sent: bool) | Going(access: Access)

  /** Unsigned 64-bit successor and predecessor. */
  function Succ(n: nat): nat { if n + 1 == UINT64 then 0 else n + 1 }

  function Pred(n: nat): nat { if n == 0 then UINT64 - 1 else n - 1 }

  function StreamStep(seek: SeekInfo, stopNum: nat, end: Option<int>, number: nat, a: Access, r: Round): Stepped {
    if seek.failIfNotReady && number > Pred(r.height) then Stopped(NOT_FOUND, false, false)
    else
      match r.event
      case ContextDone => Stopped(INTERNAL_SERVER_ERROR, true, false)
      case ConsenterError => Stopped(SERVICE_UNAVAILABLE, true, false)
      case BlockRead(status, block) =>
        if status != SUCCESS then Stopped(status, true, false)
        else
          var (a', ok) := EvaluateStep(end, a, r.evaluation);
          if !ok then Stopped(FORBIDDEN, true, false)
          else if !r.sendOk then Stopped(INTERNAL_SERVER_ERROR, true, false)
          else if stopNum == block then Stopped(SUCCESS, true, true)
          else Going(a')
  }

  /** How far a session got: no status while it is still open, the blocks sent, and how often the cursor was asked. */
  datatype Trace = Trace(status: Option<Status>, sent: seq<nat>, asked: nat)

  function Stream(seek: SeekInfo, stopNum: nat, end: Option<int>, number: nat, a: Access,
                  rounds: seq<Round>): (t: Trace)
    ensures |t.sent| <= t.asked <= |rounds| && t.asked <= |t.sent| + 1
    ensures forall i | 0 <= i < |t.sent| :: rounds[i].event.BlockRead? && t.sent[i] == rounds[i].event.block
    decreases |rounds|
  {
    if rounds == [] then Trace(None, [], 0)
    else
      match StreamStep(seek, stopNum, end, number, a, rounds[0])
      case Stopped(status, asked, sent) =>
        Trace(Some(status), if sent then [rounds[0].event.block] else [], if asked then 1 else 0)
      case Going(a') =>
        var rest := Stream(seek, stopNum, end, Succ(number), a', rounds[1..]);
        Trace(rest.status, [rounds[0].event.block] + rest.sent, rest.asked + 1)
  }

  /** Where to stop, or nothing for a request that makes no sense. */
  function StopNumber(seek: SeekInfo, number: nat, height: nat): Option<nat>
    requires seek.start.Some? && seek.stop.Some?
  {
    match seek.stop.value
    case Oldest => Some(number)
    case Newest => Some(if seek.start == seek.stop then number else Pred(height))
    case Specified(n) => if n < number then None else Some(n)
    case Unset => Some(0)
  }

  function DeliverSpec(seek: SeekInfo, errored: bool, end: Option<int>, first: Evaluation, number: nat, height: nat,
                       rounds: seq<Round>): Trace
  {
    var (a, ok) := EvaluateStep(end, UNUSED, first);
    if errored && !seek.bestEffort then Trace(Some(SERVICE_UNAVAILABLE), [], 0)
    else if !ok then Trace(Some(FORBIDDEN), [], 0)
    else if seek.start.None? || seek.stop.None? then Trace(Some(BAD_REQUEST), [], 0)
    else
      var stopNum := StopNumber(seek, number, height);
      if stopNum.None? then Trace(Some(BAD_REQUEST), [], 0)
      else Stream(seek, stopNum.value, end, number, a, rounds)
  }

  /** `rounds` is what the session meets, as far as it is known; the cursor starts at `number`. */
  method DeliverBlocks(seek: SeekInfo, errored: bool, end: Option<int>, first: Evaluation, number: nat, height: nat,
                       rounds: seq<Round>)
    returns (t: Trace)
    ensures t == DeliverSpec(seek, errored, end, first, number, height, rounds)
  {
    if errored && !seek.bestEffort {
      return Trace(Some(SERVICE_UNAVAILABLE), [], 0);
    }
    var accessControl := new SessionAccessControl(end);
    var authorized := accessControl.Evaluate(first);
    if !authorized {
      return Trace(Some(FORBIDDEN), [], 0);
    }
    if seek.start.None? || seek.stop.None? {
      return Trace(Some(BAD_REQUEST), [], 0);
    }
    var stop := StopNumber(seek, number, height);
    if stop.None? {
      return Trace(Some(BAD_REQUEST), [], 0);
    }
    t := Loop(seek, stop.value, accessControl, number, rounds);
  }

  method StreamRound(seek: SeekInfo, stopNum: nat, accessControl: SessionAccessControl, number: nat, r: Round)
    returns (s: Stepped)
    modifies accessControl
    ensures s == StreamStep(seek, stopNum, accessControl.sessionEndTime, number, old(accessControl.State()), r)
    ensures s.Going? ==> accessControl.State() == s.access && r.event.BlockRead?
    ensures s.Stopped? && s.sent ==> r.event.BlockRead?
  {
    if seek.failIfNotReady && number > Pred(r.height) {
      return Stopped(NOT_FOUND, false, false);
    }
    if r.event.ContextDone? {
      return Stopped(INTERNAL_SERVER_ERROR, true, false);
    }
    if r.event.ConsenterError? {
      return Stopped(SERVICE_UNAVAILABLE, true, false);
    }
    if r.event.status != SUCCESS {
      return Stopped(r.event.status, true, false);
    }
    var authorized := accessControl.Evaluate(r.evaluation);
    if !authorized {
      return Stopped(FORBIDDEN, true, false);
    }
    if !r.sendOk {
      return Stopped(INTERNAL_SERVER_ERROR, true, false);
    }
    if stopNum == r.event.block {
      return Stopped(SUCCESS, true, true);
    }
    return Going(Access(accessControl.lastConfigSequence, accessControl.usedAtLeastOnce));
  }

  method Loop(seek: SeekInfo, stopNum: nat, accessControl: SessionAccessControl, start: nat, rounds: seq<Round>)
    returns (t: Trace)
    modifies accessControl
    ensures t == Stream(seek, stopNum, accessControl.sessionEndTime, start, old(accessControl.State()), rounds)
  {
    var number: nat := start;
    var sent: seq<nat> := [];
    ghost var end, a := accessControl.sessionEndTime, accessControl.State();
    assert rounds[0..] == rounds;
    for i := 0 to |rounds|
      invariant |sent| == i
      invariant Remains(seek, stopNum, end, start, a, rounds, number, accessControl.State(), sent)
    {
      StreamUnfold(seek, stopNum, end, number, accessControl.State(), rounds, i, sent);
      var s := StreamRound(seek, stopNum, accessControl, number, rounds[i]);
      if s.Stopped? {
        return Finish(sent, rounds[i], s);
      }
      sent := sent + [rounds[i].event.block];
      number := Succ(number);
    }
    return Trace(None, sent, |rounds|);
  }

  /** The whole stream is what has been sent and the stream from here. */
  ghost predicate Remains(seek: SeekInfo, stopNum: nat, end: Option<int>, start: nat, a: Access, rounds: seq<Round>,
                          number: nat, a': Access, sent: seq<nat>) {
    && |sent| <= |rounds|
    && Stream(seek, stopNum, end, start, a, rounds)
      == After(sent, Stream(seek, stopNum, end, number, a', rounds[|sent|..]))
  }

  lemma Suffix(rounds: seq<Round>, i: nat)
    requires i < |rounds|
    ensures rounds[i..] != [] && rounds[i..][0] == rounds[i] && rounds[i..][1..] == rounds[i + 1..]
  {
  }

  lemma AfterOne(sent: seq<nat>, block: nat, rest: Trace)
    ensures After(sent, Trace(rest.status, [block] + rest.sent, rest.asked + 1)) == After(sent + [block], rest)
  {
    assert sent + ([block] + rest.sent) == sent + [block] + rest.sent;
  }

  function Finish(sent: seq<nat>, r: Round, s: Stepped): Trace
    requires s.Stopped? && (s.sent ==> r.event.BlockRead?)
  {
    Trace(Some(s.status), if s.sent then sent + [r.event.block] else sent, if s.asked then |sent| + 1 else |sent|)
  }

  lemma StreamUnfold(seek: SeekInfo, stopNum: nat, end: Option<int>, number: nat, a: Access, rounds: seq<Round>, i: nat,
                     sent: seq<nat>)
    requires i < |rounds| && |sent| == i
    ensures var t := After(sent, Stream(seek, stopNum, end, number, a, rounds[i..]));
            match StreamStep(seek, stopNum, end, number, a, rounds[i])
            case Stopped(status, asked, last) =>
              (last ==> rounds[i].event.BlockRead?) && t == Finish(sent, rounds[i], Stopped(status, asked, last))
            case Going(a') =>
              t == After(sent + [rounds[i].event.block], Stream(seek, stopNum, end, Succ(number), a', rounds[i + 1..]))
  {
    Suffix(rounds, i);
    match StreamStep(seek, stopNum, end, number, a, rounds[i])
    case Stopped(_, _, _) =>
      assert sent + [] == sent;
    case Going(a') =>
      AfterOne(sent, rounds[i].event.block, Stream(seek, stopNum, end, Succ(number), a', rounds[i + 1..]));
  }

  ghost function After(sent: seq<nat>, t: Trace): Trace {
    Trace(t.status, sent + t.sent, |sent| + t.asked)
  }

  // ----- what a session sends -----

  /** The cursor hands out blocks one by one from `number` on. */
  predicate Consecutive(rounds: seq<Round>, number: nat) {
    forall i | 0 <= i < |rounds| && rounds[i].event.BlockRead? :: rounds[i].event.block == number + i < UINT64
  }

  /** The blocks from `first` to `last`. */
  ghost predicate IsRange(blocks: seq<nat>, first: nat, last: nat) {
    first <= last && |blocks| == last - first + 1 && forall i | 0 <= i < |blocks| :: blocks[i] == first + i
  }

  /** A session ends with SUCCESS only on sending the block it was to stop at, and does not go on after sending it. */
  lemma {:induction false} EndsAtStop(seek: SeekInfo, stopNum: nat, end: Option<int>, number: nat, a: Access,
                                      rounds: seq<Round>)
    ensures var t := Stream(seek, stopNum, end, number, a, rounds);
            && (t.status == Some(SUCCESS) ==> t.sent != [] && t.sent[|t.sent| - 1] == stopNum)
            && (forall i | 0 <= i < |t.sent| && t.sent[i] == stopNum :: i == |t.sent| - 1 && t.status == Some(SUCCESS))
    decreases |rounds|
  {
    if rounds != [] {
      var step := StreamStep(seek, stopNum, end, number, a, rounds[0]);
      if step.Going? {
        EndsAtStop(seek, stopNum, end, Succ(number), step.access, rounds[1..]);
      }
    }
  }

  /** Blocks go out without gaps from the start; SUCCESS means exactly those up to the stop. */
  lemma StreamSends(seek: SeekInfo, stopNum: nat, end: Option<int>, number: nat, a: Access, rounds: seq<Round>)
    requires Consecutive(rounds, number)
    ensures var t := Stream(seek, stopNum, end, number, a, rounds);
            && (forall i | 0 <= i < |t.sent| :: t.sent[i] == number + i)
            && (t.status == Some(SUCCESS) <==> IsRange(t.sent, number, stopNum))
  {
    var t := Stream(seek, stopNum, end, number, a, rounds);
    EndsAtStop(seek, stopNum, end, number, a, rounds);
    if IsRange(t.sent, number, stopNum) {
      assert t.sent[|t.sent| - 1] == stopNum;
    }
  }

  function Evaluations(rounds: seq<Round>, n: nat): seq<Evaluation>
    requires n <= |rounds|
  {
    seq(n, i requires 0 <= i < n => rounds[i].evaluation)
  }

  /** The state after the evaluations of the first n rounds, if they all succeed. */
  function Passes(end: Option<int>, a: Access, rounds: seq<Round>, n: nat): Option<Access>
    requires n <= |rounds|
    decreases n
  {
    if n == 0 then Some(a)
    else
      var (a', ok) := EvaluateStep(end, a, rounds[0].evaluation);
      if ok then Passes(end, a', rounds[1..], n - 1) else None
  }

  /** No block is sent without an evaluation that succeeded after it was read. */
  lemma {:induction false} SentAfterEvaluation(seek: SeekInfo, stopNum: nat, end: Option<int>, number: nat, a: Access,
                                               rounds: seq<Round>, i: nat)
    requires i < |Stream(seek, stopNum, end, number, a, rounds).sent|
    ensures i < |rounds| && Passes(end, a, rounds, i + 1).Some?
    decreases i
  {
    FirstSent(seek, stopNum, end, number, a, rounds);
    if i > 0 {
      var a' := EvaluateStep(end, a, rounds[0].evaluation).0;
      SentAfterEvaluation(seek, stopNum, end, Succ(number), a', rounds[1..], i - 1);
    }
  }

  lemma {:induction false} PassesSession(end: Option<int>, past: seq<Evaluation>, rounds: seq<Round>, n: nat)
    requires n <= |rounds| && Session(end, past).Some? && Passes(end, Session(end, past).value, rounds, n).Some?
    ensures Session(end, past + Evaluations(rounds, n)) == Passes(end, Session(end, past).value, rounds, n)
    decreases n
  {
    if n == 0 {
      assert past + Evaluations(rounds, 0) == past;
    } else {
      var e := rounds[0].evaluation;
      SessionSnoc(end, past, e);
      PassesSession(end, past + [e], rounds[1..], n - 1);
      EvaluationsCons(rounds, past, n - 1);
    }
  }

  /** What it takes to send a first block, and what comes after it. */
  lemma FirstSent(seek: SeekInfo, stopNum: nat, end: Option<int>, number: nat, a: Access, rounds: seq<Round>)
    requires Stream(seek, stopNum, end, number, a, rounds).sent != []
    ensures rounds != [] && EvaluateStep(end, a, rounds[0].evaluation).1
    ensures var a' := EvaluateStep(end, a, rounds[0].evaluation).0;
            |Stream(seek, stopNum, end, number, a, rounds).sent| <= 1
              + |Stream(seek, stopNum, end, Succ(number), a', rounds[1..]).sent|
  {
  }

  lemma SessionSnoc(end: Option<int>, past: seq<Evaluation>, e: Evaluation)
    requires Session(end, past).Some?
    ensures var (a, ok) := EvaluateStep(end, Session(end, past).value, e);
            Session(end, past + [e]) == if ok then Some(a) else None
  {
    assert (past + [e])[..|past|] == past;
  }

  lemma EvaluationsCons(rounds: seq<Round>, past: seq<Evaluation>, i: nat)
    requires i < |rounds|
    ensures past + Evaluations(rounds, i + 1) == past + [rounds[0].evaluation] + Evaluations(rounds[1..], i)
  {
  }

  /** A session that is not to wait gives up exactly when the ledger is non-empty and does not have the block. */
  lemma GivesUpIff(seek: SeekInfo, stopNum: nat, end: Option<int>, number: nat, a: Access, r: Round)
    requires number < UINT64 && r.height < UINT64
    ensures StreamStep(seek, stopNum, end, number, a, r) == Stopped(NOT_FOUND, false, false) <==>
            seek.failIfNotReady && 0 < r.height <= number
  {
  }

  /** Asked not to wait, the session asks the cursor only for blocks that a non-empty ledger already has. */
  lemma {:induction false} AskedWhenReady(seek: SeekInfo, stopNum: nat, end: Option<int>, number: nat, a: Access,
                                          rounds: seq<Round>, i: nat)
    requires seek.failIfNotReady && i < Stream(seek, stopNum, end, number, a, rounds).asked
    requires number + i < UINT64 && 0 < rounds[i].height <= UINT64
    ensures number + i < rounds[i].height
    decreases |rounds|
  {
    if i > 0 {
      var step := StreamStep(seek, stopNum, end, number, a, rounds[0]);
      AskedWhenReady(seek, stopNum, end, Succ(number), step.access, rounds[1..], i - 1);
    }
  }

  /** The evaluations up to the one that precedes the i-th block. */
  function Past(first: Evaluation, rounds: seq<Round>, i: nat): seq<Evaluation>
    requires i < |rounds|
  {
    [first] + Evaluations(rounds, i + 1)
  }

  /** The policy was found satisfied at the highest sequence, and the identity had not expired. */
  ghost predicate Authorized(end: Option<int>, es: seq<Evaluation>) {
    && (exists j :: CheckedAtHighest(end, es, j))
    && (end.Some? ==> forall i | 0 <= i < |es| :: es[i].now <= end.value)
  }

  /** The block asked for in a round is there, if the ledger is not empty. */
  ghost predicate ReadyAt(number: nat, rounds: seq<Round>, i: nat) {
    i < |rounds| && (number + i < UINT64 && 0 < rounds[i].height < UINT64 ==> number + i < rounds[i].height)
  }

  lemma StreamReady(seek: SeekInfo, stopNum: nat, end: Option<int>, number: nat, a: Access, rounds: seq<Round>)
    requires seek.failIfNotReady
    ensures forall i | 0 <= i < Stream(seek, stopNum, end, number, a, rounds).asked :: ReadyAt(number, rounds, i)
  {
    forall i | 0 <= i < Stream(seek, stopNum, end, number, a, rounds).asked ensures ReadyAt(number, rounds, i) {
      if number + i < UINT64 && 0 < rounds[i].height < UINT64 {
        AskedWhenReady(seek, stopNum, end, number, a, rounds, i);
      }
    }
  }

  /** Every block sent was authorized. */
  lemma StreamAuthorized(seek: SeekInfo, stopNum: nat, end: Option<int>, first: Evaluation, number: nat,
                         rounds: seq<Round>)
    requires EvaluateStep(end, UNUSED, first).1
    ensures var t := Stream(seek, stopNum, end, number, EvaluateStep(end, UNUSED, first).0, rounds);
            forall i | 0 <= i < |t.sent| :: Authorized(end, Past(first, rounds, i))
  {
    var a := EvaluateStep(end, UNUSED, first).0;
    assert [first][..0] == [];
    assert Session(end, [first]) == Some(a);
    forall i | 0 <= i < |Stream(seek, stopNum, end, number, a, rounds).sent|
      ensures Authorized(end, Past(first, rounds, i))
    {
      SentAfterEvaluation(seek, stopNum, end, number, a, rounds, i);
      PassesSession(end, [first], rounds, i + 1);
      var j := SessionAuthorized(end, Past(first, rounds, i));
    }
  }

  /** What a request asks for: from `number`, up to the newest block, the same block, or the block named. */
  ghost predicate Complete(seek: SeekInfo, number: nat, height: nat, sent: seq<nat>)
    requires seek.start.Some? && seek.stop.Some?
  {
    match seek.stop.value
    case Oldest => sent == [number]
    case Newest =>
      if seek.start == Some(Newest) then sent == [number]
      else IsRange(sent, number, if height > 0 then height - 1 else UINT64 - 1)
    case Specified(n) => IsRange(sent, number, n)
    case Unset => number == 0 && sent == [0]
  }

  lemma CompleteIff(seek: SeekInfo, number: nat, height: nat, sent: seq<nat>)
    requires seek.start.Some? && seek.stop.Some?
    requires forall i | 0 <= i < |sent| :: sent[i] == number + i
    ensures Complete(seek, number, height, sent) <==>
            StopNumber(seek, number, height).Some? && IsRange(sent, number, StopNumber(seek, number, height).value)
  {
    assert IsRange(sent, number, number) <==> sent == [number];
    assert IsRange(sent, number, 0) <==> number == 0 && sent == [0];
  }

  /** The whole session: gapless, complete exactly on SUCCESS, every block
      authorized, none asked for before it is there. */
  lemma SessionSafe(seek: SeekInfo, errored: bool, end: Option<int>, first: Evaluation, number: nat, height: nat,
                    rounds: seq<Round>)
    requires Consecutive(rounds, number)
    ensures var t := DeliverSpec(seek, errored, end, first, number, height, rounds);
            && (forall i | 0 <= i < |t.sent| :: t.sent[i] == number + i)
            && (t.status == Some(SUCCESS) <==>
                  seek.start.Some? && seek.stop.Some? && Complete(seek, number, height, t.sent))
            && (forall i | 0 <= i < |t.sent| :: Authorized(end, Past(first, rounds, i)))
            && (seek.failIfNotReady ==> forall i | 0 <= i < t.asked :: ReadyAt(number, rounds, i))
  {
    var a := EvaluateStep(end, UNUSED, first).0;
    var t := DeliverSpec(seek, errored, end, first, number, height, rounds);
    if EvaluateStep(end, UNUSED, first).1 && seek.start.Some? && seek.stop.Some?
      && StopNumber(seek, number, height).Some?
    {
      var stopNum := StopNumber(seek, number, height).value;
      StreamSends(seek, stopNum, end, number, a, rounds);
      StreamAuthorized(seek, stopNum, end, first, number, rounds);
      if seek.failIfNotReady { StreamReady(seek, stopNum, end, number, a, rounds); }
    }
    if seek.start.Some? && seek.stop.Some? { CompleteIff(seek, number, height, t.sent); }
  }

  // ----- why a session ends -----

  /** An evaluation succeeds while the identity has not expired and the policy is satisfied, or was the last time it was
      asked, at this sequence or a higher one. */
  lemma EvaluatedIff(end: Option<int>, a: Access, e: Evaluation)
    ensures EvaluateStep(end, a, e).1 <==>
            && (end.None? || e.now <= end.value)
            && (e.verdict || (a.usedAtLeastOnce && e.sequence <= a.lastConfigSequence))
  {
  }

  /** A request is turned away before any block is asked for: by a consenter error unless it asked for best effort, by
      the first evaluation, for a missing position, or for a stop before the start. */
  lemma TurnedAwayIff(seek: SeekInfo, errored: bool, end: Option<int>, first: Evaluation, number: nat, height: nat,
                      rounds: seq<Round>)
    ensures
      var t := DeliverSpec(seek, errored, end, first, number, height, rounds);
      var authorized := (end.None? || first.now <= end.value) && first.verdict;
      var open := !errored || seek.bestEffort;
      && (t.asked == 0 && t.status == Some(SERVICE_UNAVAILABLE) <==> !open)
      && (t.asked == 0 && t.status == Some(FORBIDDEN) <==> open && !authorized)
      && (t.asked == 0 && t.status == Some(BAD_REQUEST) <==>
            && open && authorized
            && (seek.start.None? || seek.stop.None? || (seek.stop.value.Specified? && seek.stop.value.number < number)))
  {
    EvaluatedIff(end, UNUSED, first);
  }

  /** A round that sends its block. */
  predicate Sends(seek: SeekInfo, end: Option<int>, number: nat, a: Access, r: Round) {
    && !(seek.failIfNotReady && 0 < r.height <= number)
    && r.event.BlockRead? && r.event.status == SUCCESS && EvaluateStep(end, a, r.evaluation).1 && r.sendOk
  }

  /** Why a round that sends nothing ends the session. */
  predicate EndsWith(seek: SeekInfo, end: Option<int>, number: nat, a: Access, r: Round, status: Status) {
    if seek.failIfNotReady && 0 < r.height <= number then status == NOT_FOUND
    else if r.event.ContextDone? then status == INTERNAL_SERVER_ERROR
    else if r.event.ConsenterError? then status == SERVICE_UNAVAILABLE
    else if r.event.status != SUCCESS then status == r.event.status
    else if !EvaluateStep(end, a, r.evaluation).1 then status == FORBIDDEN
    else status == INTERNAL_SERVER_ERROR
  }

  /** One round, without the step function's own words. */
  lemma RoundIs(seek: SeekInfo, stopNum: nat, end: Option<int>, number: nat, a: Access, r: Round)
    requires number < UINT64 && r.height < UINT64
    ensures match StreamStep(seek, stopNum, end, number, a, r)
            case Going(a') =>
              Sends(seek, end, number, a, r) && r.event.block != stopNum && a' == EvaluateStep(end, a, r.evaluation).0
            case Stopped(status, _, sent) =>
              if sent then Sends(seek, end, number, a, r) && r.event.block == stopNum && status == SUCCESS
              else !Sends(seek, end, number, a, r) && EndsWith(seek, end, number, a, r, status) && status != SUCCESS
  {
  }

  /** Block numbers and ledger heights stay within 64 bits. */
  predicate Within64(number: nat, rounds: seq<Round>) {
    number + |rounds| < UINT64 && forall i | 0 <= i < |rounds| :: rounds[i].height < UINT64
  }

  /** After `n` rounds whose evaluations succeed comes one that sends its block. */
  predicate SendsAt(seek: SeekInfo, end: Option<int>, number: nat, a: Access, rounds: seq<Round>, n: nat) {
    && n < |rounds| && Passes(end, a, rounds, n).Some?
    && Sends(seek, end, number + n, Passes(end, a, rounds, n).value, rounds[n])
  }

  lemma PassesLater(end: Option<int>, a: Access, rounds: seq<Round>, n: nat)
    requires n < |rounds| && EvaluateStep(end, a, rounds[0].evaluation).1
    ensures Passes(end, a, rounds, n + 1) == Passes(end, EvaluateStep(end, a, rounds[0].evaluation).0, rounds[1..], n)
  {
  }

  lemma SendsLater(seek: SeekInfo, end: Option<int>, number: nat, a: Access, rounds: seq<Round>, n: nat)
    requires rounds != [] && EvaluateStep(end, a, rounds[0].evaluation).1
    requires SendsAt(seek, end, number + 1, EvaluateStep(end, a, rounds[0].evaluation).0, rounds[1..], n)
    ensures SendsAt(seek, end, number, a, rounds, n + 1)
  {
    PassesLater(end, a, rounds, n);
    assert rounds[1..][n] == rounds[n + 1] && number + 1 + n == number + (n + 1);
  }

  /** Every block sent comes from a round that was to send it. */
  lemma {:induction false} SentRounds(seek: SeekInfo, stopNum: nat, end: Option<int>, number: nat, a: Access,
                                      rounds: seq<Round>, i: nat)
    requires Within64(number, rounds) && i < |Stream(seek, stopNum, end, number, a, rounds).sent|
    ensures SendsAt(seek, end, number, a, rounds, i)
    decreases i
  {
    RoundIs(seek, stopNum, end, number, a, rounds[0]);
    if i > 0 {
      SentRounds(seek, stopNum, end, number + 1, EvaluateStep(end, a, rounds[0].evaluation).0, rounds[1..], i - 1);
      SendsLater(seek, end, number, a, rounds, i - 1);
    }
  }

  /** After `n` rounds whose evaluations succeed comes one that sends nothing, for the reason the status gives. */
  predicate EndsAt(seek: SeekInfo, end: Option<int>, number: nat, a: Access, rounds: seq<Round>, n: nat,
                   status: Status)
  {
    && n < |rounds| && Passes(end, a, rounds, n).Some?
    && !Sends(seek, end, number + n, Passes(end, a, rounds, n).value, rounds[n])
    && EndsWith(seek, end, number + n, Passes(end, a, rounds, n).value, rounds[n], status)
  }

  lemma EndsLater(seek: SeekInfo, end: Option<int>, number: nat, a: Access, rounds: seq<Round>, n: nat, status: Status)
    requires rounds != [] && EvaluateStep(end, a, rounds[0].evaluation).1
    requires EndsAt(seek, end, number + 1, EvaluateStep(end, a, rounds[0].evaluation).0, rounds[1..], n, status)
    ensures EndsAt(seek, end, number, a, rounds, n + 1, status)
  {
    PassesLater(end, a, rounds, n);
    assert rounds[1..][n] == rounds[n + 1] && number + 1 + n == number + (n + 1);
  }

  /** The session ends in the first round that sends nothing, with the status that tells why. */
  lemma {:induction false} EndRound(seek: SeekInfo, stopNum: nat, end: Option<int>, number: nat, a: Access,
                                    rounds: seq<Round>)
    requires Within64(number, rounds)
    ensures var t := Stream(seek, stopNum, end, number, a, rounds);
            t.status.Some? && t.status != Some(SUCCESS) ==>
              EndsAt(seek, end, number, a, rounds, |t.sent|, t.status.value)
    decreases |rounds|
  {
    if rounds != [] {
      RoundIs(seek, stopNum, end, number, a, rounds[0]);
      var step := StreamStep(seek, stopNum, end, number, a, rounds[0]);
      if step.Going? {
        EndRound(seek, stopNum, end, number + 1, step.access, rounds[1..]);
        var rest := Stream(seek, stopNum, end, number + 1, step.access, rounds[1..]);
        if rest.status.Some? && rest.status != Some(SUCCESS) {
          EndsLater(seek, end, number, a, rounds, |rest.sent|, rest.status.value);
        }
      }
    }
  }

  /** It is still open exactly if every round so far sent its block and none was the one to stop at. */
  lemma {:induction false} StillOpen(seek: SeekInfo, stopNum: nat, end: Option<int>, number: nat, a: Access,
                                     rounds: seq<Round>)
    requires Within64(number, rounds)
    ensures var t := Stream(seek, stopNum, end, number, a, rounds);
            t.status == None <==> |t.sent| == |rounds| && stopNum !in t.sent
    decreases |rounds|
  {
    if rounds != [] {
      RoundIs(seek, stopNum, end, number, a, rounds[0]);
      var step := StreamStep(seek, stopNum, end, number, a, rounds[0]);
      if step.Going? {
        StillOpen(seek, stopNum, end, number + 1, step.access, rounds[1..]);
      }
    }
  }
}
