/** Compiling and evaluating signature policies. */
module SignaturePolicy {
  import opened Wrappers

  /** `Other` stands for an absent rule or one of unknown type. */
  datatype Rule = NOutOf(n: int, rules: seq<Rule>) | SignedBy(index: int) | Other

  /** Go strings are byte sequences; here the characters are the bytes. */
  datatype Principal = Principal(classification: int, principal: string)

  datatype Identity = Identity(mspid: string, id: string)

  /** Which identities satisfy which principals. */
  type Satisfaction = (Identity, Principal) -> bool

  /** The evaluator that compiling yields. */
  datatype Evaluator = Gate(n: int, policies: seq<Evaluator>) | Leaf(principal: Principal)

  function Compile(rule: Rule, identities: seq<Principal>): Result<Evaluator> {
    match rule
    case NOutOf(n, rules) =>
      var policies :- CompileAll(rules, identities);
      Ok(Gate(n, policies))
    case SignedBy(index) =>
      if 0 <= index < |identities| then Ok(Leaf(identities[index])) else Err
    case Other => Err
  }

  function CompileAll(rules: seq<Rule>, identities: seq<Principal>): (r: Result<seq<Evaluator>>)
    ensures r.Ok? <==> forall j | 0 <= j < |rules| :: Compile(rules[j], identities).Ok?
    ensures r.Ok? ==>
      |r.value| == |rules| && forall j | 0 <= j < |rules| :: Compile(rules[j], identities) == Ok(r.value[j])
  {
    if rules == [] then Ok([])
    else
      var init, last := rules[..|rules| - 1], rules[|rules| - 1];
      var ps := CompileAll(init, identities);
      var p := Compile(last, identities);
      assert forall j | 0 <= j < |init| :: rules[j] == init[j];
      if ps.Ok? && p.Ok? then Ok(ps.value + [p.value]) else Err
  }

  // ----- evaluation -----

  /** The first identity that is not used yet and satisfies the principal. */
  function FirstFree(sat: Satisfaction, p: Principal, ids: seq<Identity>, used: seq<bool>, from: nat): (r: Option<nat>)
    requires |used| == |ids| && from <= |ids|
    ensures r.Some? ==>
      && from <= r.value < |ids| && !used[r.value] && sat(ids[r.value], p)
      && forall i | from <= i < r.value :: used[i] || !sat(ids[i], p)
    ensures r.None? ==> forall i | from <= i < |ids| :: used[i] || !sat(ids[i], p)
    decreases |ids| - from
  {
    if from == |ids| then None
    else if !used[from] && sat(ids[from], p) then Some(from)
    else FirstFree(sat, p, ids, used, from + 1)
  }

  /** Verdict and used identities after evaluating. */
  function Eval(sat: Satisfaction, e: Evaluator, ids: seq<Identity>, used: seq<bool>): (r: (bool, seq<bool>))
    requires |used| == |ids|
    ensures |r.1| == |ids|
    decreases e, 1
  {
    match e
    case Leaf(p) =>
      var i := FirstFree(sat, p, ids, used, 0);
      if i.Some? then (true, used[i.value := true]) else (false, used)
    case Gate(n, policies) =>
      var (verified, used') := EvalAll(sat, policies, ids, used);
      (verified >= n, used')
  }

  /** How many of the policies are verified, one after the other; a failed policy's marks are dropped. */
  function EvalAll(sat: Satisfaction, policies: seq<Evaluator>, ids: seq<Identity>,
                   used: seq<bool>): (r: (nat, seq<bool>))
    requires |used| == |ids|
    ensures |r.1| == |ids|
    decreases policies, 0
  {
    if policies == [] then (0, used)
    else
      var (verified, used') := EvalAll(sat, policies[..|policies| - 1], ids, used);
      var (ok, used'') := Eval(sat, policies[|policies| - 1], ids, used');
      if ok then (verified + 1, used'') else (verified, used')
  }

  method Evaluate(sat: Satisfaction, e: Evaluator, ids: seq<Identity>, used: array<bool>) returns (ok: bool)
    requires used.Length == |ids|
    modifies used
    ensures (ok, used[..]) == Eval(sat, e, ids, old(used[..]))
    decreases e
  {
    match e
    case Leaf(p) =>
      for i := 0 to |ids|
        invariant used[..] == old(used[..])
        invariant FirstFree(sat, p, ids, used[..], 0) == FirstFree(sat, p, ids, used[..], i)
      {
        if used[i] { continue; }
        if !sat(ids[i], p) { continue; }
        used[i] := true;
        assert used[..] == old(used[..])[i := true];
        return true;
      }
      return false;
    case Gate(n, policies) =>
      var verified := 0;
      var scratch := new bool[used.Length];
      ghost var before := used[..];
      for j := 0 to |policies|
        invariant fresh(scratch) && scratch.Length == used.Length
        invariant (verified, used[..]) == EvalAll(sat, policies[..j], ids, before)
      {
        assert policies[..j + 1][..j] == policies[..j];
        CopyTo(used, scratch);
        var verdict := Evaluate(sat, policies[j], ids, scratch);
        if verdict {
          verified := verified + 1;
          CopyTo(scratch, used);
        }
      }
      assert policies[..|policies|] == policies;
      ok := verified >= n;
  }

  method CopyTo(src: array<bool>, dst: array<bool>)
    requires src.Length == dst.Length
    modifies dst
    ensures dst[..] == old(src[..]) && (src != dst ==> src[..] == old(src[..]))
  {
    forall i | 0 <= i < src.Length { dst[i] := src[i]; }
  }

  method EvaluateIdentities(sat: Satisfaction, e: Evaluator, ids: seq<Identity>) returns (ok: bool)
    ensures ok == Accepts(sat, e, ids)
  {
    var used := new bool[|ids|](_ => false);
    assert used[..] == NoneUsed(ids);
    ok := Evaluate(sat, e, ids, used);
  }

  function NoneUsed(ids: seq<Identity>): seq<bool> {
    seq(|ids|, _ => false)
  }

  predicate Accepts(sat: Satisfaction, e: Evaluator, ids: seq<Identity>) {
    Eval(sat, e, ids, NoneUsed(ids)).0
  }

  // ----- why an accepted policy is satisfied -----

  /** Which identity satisfies a leaf; which sub-policies of a gate are satisfied, and why. */
  datatype Witness = ByIdentity(i: nat) | BySubPolicies(subs: seq<Witness>) | Unsatisfied

  /** The identities a witness names, leaf by leaf. */
  function Named(w: Witness): seq<nat> {
    match w
    case ByIdentity(i) => [i]
    case BySubPolicies(subs) => NamedIn(subs)
    case Unsatisfied => []
  }

  function NamedIn(subs: seq<Witness>): seq<nat> {
    if subs == [] then []
    else NamedIn(subs[..|subs| - 1]) + Named(subs[|subs| - 1])
  }

  function Satisfied(subs: seq<Witness>): nat {
    if subs == [] then 0 else Satisfied(subs[..|subs| - 1]) + if subs[|subs| - 1].Unsatisfied? then 0 else 1
  }

  /** The witness shows that the identities satisfy the policy. */
  ghost predicate Shows(sat: Satisfaction, e: Evaluator, ids: seq<Identity>, w: Witness)
    decreases e
  {
    match e
    case Leaf(p) => w.ByIdentity? && w.i < |ids| && sat(ids[w.i], p)
    case Gate(n, policies) =>
      && w.BySubPolicies? && |w.subs| == |policies| && Satisfied(w.subs) >= n
      && forall j | 0 <= j < |policies| && !w.subs[j].Unsatisfied? :: Shows(sat, policies[j], ids, w.subs[j])
  }

  /** Exactly the named identities, each named once and free before, became used. */
  ghost predicate Consumes(used: seq<bool>, used': seq<bool>, named: seq<nat>) {
    && |used| == |used'|
    && (forall a, b | 0 <= a < b < |named| :: named[a] != named[b])
    && (forall a | 0 <= a < |named| :: named[a] < |used| && !used[named[a]])
    && (forall i | 0 <= i < |used| :: used'[i] <==> used[i] || i in named)
  }

  lemma ConsumesTwice(used: seq<bool>, used': seq<bool>, used'': seq<bool>, a: seq<nat>, b: seq<nat>)
    requires Consumes(used, used', a) && Consumes(used', used'', b)
    ensures Consumes(used, used'', a + b)
  {
    forall x, y | 0 <= x < y < |a + b| ensures (a + b)[x] != (a + b)[y] {
      if x < |a| <= y { assert used'[a[x]] && !used'[b[y - |a|]]; }
    }
  }

  /** Soundness: what is accepted is satisfied by distinct, previously unused
      identities, and those alone become used. */
  lemma {:induction false} EvalSound(sat: Satisfaction, e: Evaluator, ids: seq<Identity>, used: seq<bool>)
    returns (w: Witness)
    requires |used| == |ids| && Eval(sat, e, ids, used).0
    ensures Shows(sat, e, ids, w) && Consumes(used, Eval(sat, e, ids, used).1, Named(w))
    decreases e, 1
  {
    match e
    case Leaf(p) =>
      w := ByIdentity(FirstFree(sat, p, ids, used, 0).value);
    case Gate(n, policies) =>
      var subs := EvalAllSound(sat, policies, ids, used);
      w := BySubPolicies(subs);
  }

  /** Whether or not the gate is satisfied: the policies counted as verified are
      satisfied, and failed ones consume nothing. */
  lemma {:induction false} EvalAllSound(sat: Satisfaction, policies: seq<Evaluator>, ids: seq<Identity>,
                                        used: seq<bool>)
    returns (subs: seq<Witness>)
    requires |used| == |ids|
    ensures |subs| == |policies| && Satisfied(subs) == EvalAll(sat, policies, ids, used).0
    ensures forall j | 0 <= j < |policies| && !subs[j].Unsatisfied? :: Shows(sat, policies[j], ids, subs[j])
    ensures Consumes(used, EvalAll(sat, policies, ids, used).1, NamedIn(subs))
    decreases policies, 0
  {
    if policies == [] {
      subs := [];
    } else {
      var init, last := policies[..|policies| - 1], policies[|policies| - 1];
      var front := EvalAllSound(sat, init, ids, used);
      var used' := EvalAll(sat, init, ids, used).1;
      if Eval(sat, last, ids, used').0 {
        var w := EvalSound(sat, last, ids, used');
        subs := front + [w];
        ConsumesTwice(used, used', Eval(sat, last, ids, used').1, NamedIn(front), Named(w));
      } else {
        subs := front + [Unsatisfied];
      }
      assert subs[..|subs| - 1] == front;
      assert NamedIn(front) + [] == NamedIn(front);
    }
  }

  // ----- how many identities acceptance takes -----

  /** Fewest leaves; `Never` when no choice of leaves will do. */
  datatype Cost = Never | Leaves(n: nat) {
    function Plus(that: Cost): Cost {
      if Leaves? && that.Leaves? then Leaves(n + that.n) else Never
    }

    function Min(that: Cost): Cost {
      if Never? || (that.Leaves? && that.n < n) then that else this
    }

    predicate AtMost(m: nat) { Leaves? && n <= m }
  }

  /** The fewest leaves that can satisfy the policy. */
  function MinLeaves(e: Evaluator): Cost
    decreases e, 1
  {
    match e
    case Leaf(_) => Leaves(1)
    case Gate(n, policies) => MinLeavesOf(policies, n)
  }

  function MinLeavesOf(policies: seq<Evaluator>, n: int): Cost
    decreases policies, 0
  {
    if n <= 0 then Leaves(0)
    else if policies == [] then Never
    else
      var init, last := policies[..|policies| - 1], policies[|policies| - 1];
      MinLeaves(last).Plus(MinLeavesOf(init, n - 1)).Min(MinLeavesOf(init, n))
  }

  /** The part of `Shows` that does not look at the identities. */
  ghost predicate Fits(e: Evaluator, w: Witness)
    decreases e
  {
    match e
    case Leaf(_) => w.ByIdentity?
    case Gate(n, policies) =>
      && w.BySubPolicies? && |w.subs| == |policies| && Satisfied(w.subs) >= n
      && forall j | 0 <= j < |policies| && !w.subs[j].Unsatisfied? :: Fits(policies[j], w.subs[j])
  }

  lemma {:induction false} ShowsFits(sat: Satisfaction, e: Evaluator, ids: seq<Identity>, w: Witness)
    requires Shows(sat, e, ids, w)
    ensures Fits(e, w)
    decreases e
  {
    if e.Gate? {
      forall j | 0 <= j < |e.policies| && !w.subs[j].Unsatisfied? ensures Fits(e.policies[j], w.subs[j]) {
        ShowsFits(sat, e.policies[j], ids, w.subs[j]);
      }
    }
  }

  /** No witness names fewer leaves. */
  lemma {:induction false} MinLeavesBound(e: Evaluator, w: Witness)
    requires Fits(e, w)
    ensures MinLeaves(e).AtMost(|Named(w)|)
    decreases e, 1
  {
    if e.Gate? {
      MinLeavesOfBound(e.policies, w.subs, e.n);
    }
  }

  lemma {:induction false} MinLeavesOfBound(policies: seq<Evaluator>, subs: seq<Witness>, n: int)
    requires |subs| == |policies| && Satisfied(subs) >= n
    requires forall j | 0 <= j < |policies| && !subs[j].Unsatisfied? :: Fits(policies[j], subs[j])
    ensures MinLeavesOf(policies, n).AtMost(|NamedIn(subs)|)
    decreases policies, 0
  {
    if n > 0 && policies != [] {
      var init, last := policies[..|policies| - 1], policies[|policies| - 1];
      var front := subs[..|subs| - 1];
      if !subs[|subs| - 1].Unsatisfied? {
        MinLeavesBound(last, subs[|subs| - 1]);
        MinLeavesOfBound(init, front, n - 1);
      } else {
        MinLeavesOfBound(init, front, n);
      }
    }
  }

  /** Some witness names no more. */
  lemma {:induction false} MinLeavesAttained(e: Evaluator) returns (w: Witness)
    requires MinLeaves(e).Leaves?
    ensures Fits(e, w) && |Named(w)| == MinLeaves(e).n
    decreases e, 1
  {
    match e
    case Leaf(_) =>
      w := ByIdentity(0);
    case Gate(n, policies) =>
      var subs := MinLeavesOfAttained(policies, n);
      w := BySubPolicies(subs);
  }

  lemma {:induction false} MinLeavesOfAttained(policies: seq<Evaluator>, n: int) returns (subs: seq<Witness>)
    requires MinLeavesOf(policies, n).Leaves?
    ensures |subs| == |policies| && Satisfied(subs) >= n && |NamedIn(subs)| == MinLeavesOf(policies, n).n
    ensures forall j | 0 <= j < |policies| && !subs[j].Unsatisfied? :: Fits(policies[j], subs[j])
    decreases policies, 0
  {
    if policies == [] {
      return [];
    }
    var init, last := policies[..|policies| - 1], policies[|policies| - 1];
    var without := MinLeavesOf(init, n);
    if MinLeavesOf(policies, n) == without {
      var front := MinLeavesOfAttained(init, n);
      subs := front + [Unsatisfied];
      assert subs[..|subs| - 1] == front;
    } else {
      var front := MinLeavesOfAttained(init, n - 1);
      var w := MinLeavesAttained(last);
      subs := front + [w];
      assert subs[..|subs| - 1] == front;
    }
  }

  function Count(used: seq<bool>): nat {
    if used == [] then 0 else Count(used[..|used| - 1]) + if used[|used| - 1] then 1 else 0
  }

  lemma {:induction false} CountSet(used: seq<bool>, i: nat)
    requires i < |used| && !used[i]
    ensures Count(used[i := true]) == Count(used) + 1
  {
    var init := used[..|used| - 1];
    if i < |init| {
      CountSet(init, i);
      assert used[i := true][..|used| - 1] == init[i := true];
    } else {
      assert used[i := true][..|used| - 1] == init;
    }
  }

  lemma {:induction false} ConsumesCount(used: seq<bool>, used': seq<bool>, named: seq<nat>)
    requires Consumes(used, used', named)
    ensures Count(used') == Count(used) + |named|
    decreases |named|
  {
    if named == [] {
      assert used == used';
    } else {
      var i := named[0];
      CountSet(used, i);
      ConsumesCount(used[i := true], used', named[1..]);
    }
  }

  /** Acceptance uses up at least as many identities as any way of satisfying the policy takes. */
  lemma AcceptanceCost(sat: Satisfaction, e: Evaluator, ids: seq<Identity>, used: seq<bool>)
    requires |used| == |ids| && Eval(sat, e, ids, used).0
    ensures MinLeaves(e).Leaves?
    ensures Count(Eval(sat, e, ids, used).1) >= Count(used) + MinLeaves(e).n
  {
    var w := EvalSound(sat, e, ids, used);
    ShowsFits(sat, e, ids, w);
    MinLeavesBound(e, w);
    ConsumesCount(used, Eval(sat, e, ids, used).1, Named(w));
  }

  /** A policy is never accepted with fewer identities than it has to name. */
  lemma AcceptsOnlyEnough(sat: Satisfaction, e: Evaluator, ids: seq<Identity>)
    requires Accepts(sat, e, ids)
    ensures MinLeaves(e).AtMost(|ids|)
  {
    var none := NoneUsed(ids);
    AcceptanceCost(sat, e, ids, none);
    CountBound(Eval(sat, e, ids, none).1);
  }

  lemma {:induction false} CountBound(used: seq<bool>)
    ensures Count(used) <= |used|
  {
    if used != [] {
      CountBound(used[..|used| - 1]);
    }
  }
}
