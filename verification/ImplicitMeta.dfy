/** Evaluating implicit meta policies, and how that compares with evaluating their conversions. */
module ImplicitMeta {
  import opened Wrappers
  import opened SignaturePolicy
  import opened PolicyMerge
  import opened PolicyCompleteness

  /** A meta policy evaluates each sub-policy afresh on all the identities. */
  predicate Evaluates(sat: Satisfaction, p: Policy, ids: seq<Identity>)
    decreases p, 1
  {
    match p
    case Rejecting => false
    case Signature(env) =>
      var compiled := Compile(env.rule, env.identities);
      compiled.Ok? && Accepts(sat, compiled.value, ids)
    case Meta(threshold, subs) => Reaches(threshold, Passed(sat, subs, ids))
  }

  function Passed(sat: Satisfaction, subs: seq<Policy>, ids: seq<Identity>): nat
    decreases subs, 0
  {
    if subs == [] then 0
    else Passed(sat, subs[..|subs| - 1], ids) + if Evaluates(sat, subs[|subs| - 1], ids) then 1 else 0
  }

  /** A positive threshold has to be reached; a threshold of zero must not be overshot. */
  predicate Reaches(threshold: int, passed: nat) {
    if threshold > 0 then passed >= threshold else passed == threshold
  }

  lemma PassedSnoc(sat: Satisfaction, subs: seq<Policy>, i: nat, ids: seq<Identity>)
    requires i < |subs|
    ensures Passed(sat, subs[..i + 1], ids)
         == Passed(sat, subs[..i], ids) + if Evaluates(sat, subs[i], ids) then 1 else 0
  {
    assert subs[..i + 1][..i] == subs[..i];
  }

  lemma {:induction false} PassedGrows(sat: Satisfaction, subs: seq<Policy>, i: nat, ids: seq<Identity>)
    requires i <= |subs|
    ensures Passed(sat, subs[..i], ids) <= Passed(sat, subs, ids)
    decreases |subs| - i
  {
    if i == |subs| {
      assert subs[..i] == subs;
    } else {
      PassedSnoc(sat, subs, i, ids);
      PassedGrows(sat, subs, i + 1, ids);
    }
  }

  method EvaluateIdentities(sat: Satisfaction, p: Policy, ids: seq<Identity>) returns (ok: bool)
    requires Made(p)
    ensures ok <==> Evaluates(sat, p, ids)
    decreases p
  {
    match p
    case Rejecting => return false;
    case Signature(env) =>
      ok := SignaturePolicy.EvaluateIdentities(sat, Compile(env.rule, env.identities).value, ids);
    case Meta(threshold, subs) =>
      var remaining := threshold;
      for i := 0 to |subs|
        invariant remaining == threshold - Passed(sat, subs[..i], ids)
        invariant threshold > 0 ==> remaining > 0
      {
        PassedSnoc(sat, subs, i, ids);
        var verdict := EvaluateIdentities(sat, subs[i], ids);
        if verdict {
          remaining := remaining - 1;
          if remaining == 0 {
            PassedGrows(sat, subs, i + 1, ids);
            return true;
          }
        }
      }
      assert subs[..|subs|] == subs;
      ok := remaining == 0;
  }

  /** Thresholds as the rules ANY, ALL and MAJORITY set them. */
  predicate Standard(p: Policy) {
    match p
    case Rejecting => true
    case Signature(_) => true
    case Meta(threshold, subs) =>
      && (if subs == [] then threshold == 0 else threshold >= 1)
      && forall j | 0 <= j < |subs| :: Standard(subs[j])
  }

  lemma {:induction false} EvaluatesIffHolds(sat: Satisfaction, p: Policy, ids: seq<Identity>)
    requires Made(p) && Convertible(p) && Standard(p) && Uncontested(sat, Principals(Meaning(p)), ids)
    ensures Evaluates(sat, p, ids) <==> Holds(sat, Meaning(p), ids)
    decreases p, 1
  {
    match p
    case Signature(env) =>
      EvalUncontested(sat, Meaning(p), ids, NoneUsed(ids));
    case Meta(threshold, subs) =>
      PassedIsHoldCount(sat, subs, ids);
  }

  lemma {:induction false} PassedIsHoldCount(sat: Satisfaction, subs: seq<Policy>, ids: seq<Identity>)
    requires Ready(subs) && (forall j | 0 <= j < |subs| :: Standard(subs[j]))
    requires Uncontested(sat, PrincipalsIn(Meanings(subs)), ids)
    ensures Passed(sat, subs, ids) == HoldCount(sat, Meanings(subs), ids)
    decreases subs, 0
  {
    if subs != [] {
      var init, last := subs[..|subs| - 1], subs[|subs| - 1];
      assert Meanings(subs)[..|init|] == Meanings(init) && Meanings(subs)[|init|] == Meaning(last);
      UncontestedSplit(sat, PrincipalsIn(Meanings(init)), Principals(Meaning(last)), ids);
      PassedIsHoldCount(sat, init, ids);
      EvaluatesIffHolds(sat, last, ids);
    }
  }

  /** Unless an identity satisfies two leaves, a meta policy and its conversion agree. */
  lemma ConversionAgrees(sat: Satisfaction, p: Policy, ids: seq<Identity>)
    requires Made(p) && Convertible(p) && Standard(p) && Uncontested(sat, Principals(Meaning(p)), ids)
    ensures Evaluates(sat, p, ids) <==> Accepts(sat, Meaning(p), ids)
  {
    EvaluatesIffHolds(sat, p, ids);
    EvalUncontested(sat, Meaning(p), ids, NoneUsed(ids));
  }

  /** An identity that satisfies two leaves counts for both in the meta policy, and for one in its conversion. */
  lemma ConversionDiffers(sat: Satisfaction, a: Principal, b: Principal, alice: Identity)
    requires sat(alice, a) && sat(alice, b)
    ensures var p := Meta(2, [Signature(Envelope(SignedBy(0), [a])), Signature(Envelope(SignedBy(0), [b]))]);
            && Made(p) && Convertible(p) && Standard(p)
            && Evaluates(sat, p, [alice]) && !Accepts(sat, Meaning(p), [alice])
  {
    var first, second := Signature(Envelope(SignedBy(0), [a])), Signature(Envelope(SignedBy(0), [b]));
    var subs := [first, second];
    var p := Meta(2, subs);
    assert Meaning(first) == Leaf(a) && Meaning(second) == Leaf(b);
    assert Evaluates(sat, first, [alice]) && Evaluates(sat, second, [alice]);
    assert subs[..0] == [] && subs[..1] == [first] && subs[..2] == subs;
    PassedSnoc(sat, subs, 0, [alice]);
    PassedSnoc(sat, subs, 1, [alice]);
    assert Meanings([first]) == [Leaf(a)] && Meanings(subs) == [Leaf(a), Leaf(b)];
    if Accepts(sat, Meaning(p), [alice]) {
      AcceptsOnlyEnough(sat, Meaning(p), [alice]);
      TwoLeaves(a, b);
    }
  }

  lemma TwoLeaves(a: Principal, b: Principal)
    ensures MinLeaves(Gate(2, [Leaf(a), Leaf(b)])) == Leaves(2)
  {
    var both := [Leaf(a), Leaf(b)];
    assert both[..1] == [Leaf(a)] && [Leaf(a)][..0] == [];
    assert MinLeavesOf([Leaf(a)], 1) == Leaves(1) && MinLeavesOf([Leaf(a)], 2) == Never;
    assert MinLeavesOf(both, 2) == Leaves(2);
  }

  // ----- the other direction -----

  /** A gate over two policies evaluates the first, then the second on what the first left. */
  lemma GateOfTwo(sat: Satisfaction, n: int, x: Evaluator, y: Evaluator, ids: seq<Identity>, used: seq<bool>)
    requires |used| == |ids|
    ensures
      var (ok, u) := Eval(sat, x, ids, used);
      var left := if ok then u else used;
      var (ok', u') := Eval(sat, y, ids, left);
      Eval(sat, Gate(n, [x, y]), ids, used) ==
        ((if ok then 1 else 0) + (if ok' then 1 else 0) >= n, if ok' then u' else left)
  {
    var both := [x, y];
    assert both[..1] == [x] && [x][..0] == [];
    var (ok, u) := Eval(sat, x, ids, used);
    assert EvalAll(sat, [x], ids, used) == if ok then (1, u) else (0, used);
  }

  /** Only the `i`-th identity satisfies the principal. */
  predicate Only(sat: Satisfaction, p: Principal, ids: seq<Identity>, i: nat) {
    i < |ids| && forall j | 0 <= j < |ids| :: sat(ids[j], p) <==> j == i
  }

  /** The one identity that satisfies the principal is taken unless it is used. */
  lemma LeafTakes(sat: Satisfaction, p: Principal, ids: seq<Identity>, used: seq<bool>, i: nat)
    requires |used| == |ids| && Only(sat, p, ids, i)
    ensures Eval(sat, Leaf(p), ids, used) == if used[i] then (false, used) else (true, used[i := true])
  {
  }

  lemma CompiledTwo(n: int, x: Rule, y: Rule, ids: seq<Principal>)
    requires Compile(x, ids).Ok? && Compile(y, ids).Ok?
    ensures Compile(NOutOf(n, [x, y]), ids) == Ok(Gate(n, [Compile(x, ids).value, Compile(y, ids).value]))
  {
    assert [x, y][0] == x && [x, y][1] == y;
    assert CompileAll([x, y], ids).value == [Compile(x, ids).value, Compile(y, ids).value];
  }

  /** Two of: one of (both `a` and `b`, or `c`); and `b`. The first part takes all it can, so `b` may be missing. */
  function GreedyRule(): Rule {
    NOutOf(2, [NOutOf(1, [NOutOf(2, [SignedBy(0), SignedBy(1)]), SignedBy(2)]), SignedBy(1)])
  }

  function Greedy(a: Principal, b: Principal, c: Principal): Evaluator {
    Gate(2, [Gate(1, [Gate(2, [Leaf(a), Leaf(b)]), Leaf(c)]), Leaf(b)])
  }

  lemma GreedyCompiled(a: Principal, b: Principal, c: Principal)
    ensures Compile(GreedyRule(), [a, b, c]) == Ok(Greedy(a, b, c))
  {
    var ids := [a, b, c];
    CompiledTwo(2, SignedBy(0), SignedBy(1), ids);
    CompiledTwo(1, NOutOf(2, [SignedBy(0), SignedBy(1)]), SignedBy(2), ids);
    CompiledTwo(2, NOutOf(1, [NOutOf(2, [SignedBy(0), SignedBy(1)]), SignedBy(2)]), SignedBy(1), ids);
  }

  /** Each identity satisfies its own principal and no other. */
  predicate OneEach(sat: Satisfaction, a: Principal, b: Principal, c: Principal, ids: seq<Identity>) {
    |ids| == 3 && Only(sat, a, ids, 0) && Only(sat, b, ids, 1) && Only(sat, c, ids, 2)
  }

  /** With the identity for `a` already taken the policy is satisfied; with all three free it is not. */
  lemma GreedyEval(sat: Satisfaction, a: Principal, b: Principal, c: Principal, ids: seq<Identity>, taken: bool)
    requires OneEach(sat, a, b, c, ids)
    ensures Eval(sat, Greedy(a, b, c), ids, [taken, false, false]).0 == taken
  {
    var used := [taken, false, false];
    LeafTakes(sat, a, ids, used, 0);
    LeafTakes(sat, b, ids, used, 1);
    LeafTakes(sat, b, ids, [true, false, false], 1);
    LeafTakes(sat, c, ids, used, 2);
    LeafTakes(sat, c, ids, [true, true, false], 2);
    LeafTakes(sat, b, ids, [true, true, true], 1);
    LeafTakes(sat, b, ids, [true, false, true], 1);
    GateOfTwo(sat, 2, Leaf(a), Leaf(b), ids, used);
    GateOfTwo(sat, 1, Gate(2, [Leaf(a), Leaf(b)]), Leaf(c), ids, used);
    GateOfTwo(sat, 2, Gate(1, [Gate(2, [Leaf(a), Leaf(b)]), Leaf(c)]), Leaf(b), ids, used);
  }

  /** The conversion can also accept what the meta policy refuses: an identity taken by an earlier sub-policy keeps a
      later one from taking more than it needs. */
  lemma ConversionAcceptsMore(sat: Satisfaction, a: Principal, b: Principal, c: Principal, ids: seq<Identity>)
    requires OneEach(sat, a, b, c, ids)
    ensures
      var p := Meta(2, [Signature(Envelope(SignedBy(0), [a])), Signature(Envelope(GreedyRule(), [a, b, c]))]);
      && Made(p) && Convertible(p) && Standard(p)
      && !Evaluates(sat, p, ids) && Accepts(sat, Meaning(p), ids)
  {
    var first, second := Signature(Envelope(SignedBy(0), [a])), Signature(Envelope(GreedyRule(), [a, b, c]));
    var subs := [first, second];
    GreedyCompiled(a, b, c);
    assert Meaning(first) == Leaf(a) && Meaning(second) == Greedy(a, b, c);
    assert subs[..0] == [] && subs[..1] == [first] && subs[..2] == subs;
    PassedSnoc(sat, subs, 0, ids);
    PassedSnoc(sat, subs, 1, ids);
    assert Meanings([first]) == [Leaf(a)] && Meanings(subs) == [Leaf(a), Greedy(a, b, c)];
    var none := [false, false, false];
    assert NoneUsed(ids) == none;
    LeafTakes(sat, a, ids, none, 0);
    assert none[0 := true] == [true, false, false];
    GreedyEval(sat, a, b, c, ids, false);
    GreedyEval(sat, a, b, c, ids, true);
    GateOfTwo(sat, 2, Leaf(a), Greedy(a, b, c), ids, none);
  }
}
