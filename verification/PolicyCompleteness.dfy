/** When the greedy evaluation of a signature policy finds every way of satisfying it. */
module PolicyCompleteness {
  import opened Wrappers
  import opened SignaturePolicy

  /** The principals of the policy's leaves, one entry per leaf. */
  function Principals(e: Evaluator): seq<Principal>
    decreases e, 1
  {
    match e
    case Leaf(p) => [p]
    case Gate(_, policies) => PrincipalsIn(policies)
  }

  function PrincipalsIn(policies: seq<Evaluator>): seq<Principal>
    decreases policies, 0
  {
    if policies == [] then []
    else PrincipalsIn(policies[..|policies| - 1]) + Principals(policies[|policies| - 1])
  }

  predicate Wanted(sat: Satisfaction, ps: seq<Principal>, id: Identity) {
    exists a | 0 <= a < |ps| :: sat(id, ps[a])
  }

  /** No identity satisfies two leaves. */
  predicate Uncontested(sat: Satisfaction, ps: seq<Principal>, ids: seq<Identity>) {
    forall a, b, i | 0 <= a < b < |ps| && 0 <= i < |ids| :: !(sat(ids[i], ps[a]) && sat(ids[i], ps[b]))
  }

  /** No used identity is wanted. */
  predicate Clear(sat: Satisfaction, ps: seq<Principal>, ids: seq<Identity>, used: seq<bool>)
    requires |used| == |ids|
  {
    forall i | 0 <= i < |ids| :: used[i] ==> !Wanted(sat, ps, ids[i])
  }

  /** The policy read as a formula: a leaf holds when some identity satisfies it. */
  predicate Holds(sat: Satisfaction, e: Evaluator, ids: seq<Identity>)
    decreases e, 1
  {
    match e
    case Leaf(p) => exists i | 0 <= i < |ids| :: sat(ids[i], p)
    case Gate(n, policies) => HoldCount(sat, policies, ids) >= n
  }

  function HoldCount(sat: Satisfaction, policies: seq<Evaluator>, ids: seq<Identity>): nat
    decreases policies, 0
  {
    if policies == [] then 0
    else
      HoldCount(sat, policies[..|policies| - 1], ids)
      + if Holds(sat, policies[|policies| - 1], ids) then 1 else 0
  }

  lemma UncontestedSplit(sat: Satisfaction, ps: seq<Principal>, qs: seq<Principal>, ids: seq<Identity>)
    requires Uncontested(sat, ps + qs, ids)
    ensures Uncontested(sat, ps, ids) && Uncontested(sat, qs, ids)
    ensures forall i | 0 <= i < |ids| :: !(Wanted(sat, ps, ids[i]) && Wanted(sat, qs, ids[i]))
  {
    forall a, b, i | 0 <= a < b < |ps| && 0 <= i < |ids| ensures !(sat(ids[i], ps[a]) && sat(ids[i], ps[b])) {
      assert (ps + qs)[a] == ps[a] && (ps + qs)[b] == ps[b];
    }
    forall a, b, i | 0 <= a < b < |qs| && 0 <= i < |ids| ensures !(sat(ids[i], qs[a]) && sat(ids[i], qs[b])) {
      assert (ps + qs)[|ps| + a] == qs[a] && (ps + qs)[|ps| + b] == qs[b];
    }
    forall i | 0 <= i < |ids| && Wanted(sat, ps, ids[i]) ensures !Wanted(sat, qs, ids[i]) {
      var a :| 0 <= a < |ps| && sat(ids[i], ps[a]);
      forall b | 0 <= b < |qs| ensures !sat(ids[i], qs[b]) {
        assert (ps + qs)[a] == ps[a] && (ps + qs)[|ps| + b] == qs[b];
      }
    }
  }

  lemma WantedSplit(sat: Satisfaction, ps: seq<Principal>, qs: seq<Principal>, id: Identity)
    ensures Wanted(sat, ps + qs, id) <==> Wanted(sat, ps, id) || Wanted(sat, qs, id)
  {
    forall a | 0 <= a < |ps| ensures (ps + qs)[a] == ps[a] {}
    forall b | 0 <= b < |qs| ensures (ps + qs)[|ps| + b] == qs[b] {}
  }

  /** Everything used afterwards was used before or is wanted. */
  predicate UsesWanted(sat: Satisfaction, ps: seq<Principal>, ids: seq<Identity>, used: seq<bool>, used': seq<bool>)
    requires |used| == |ids| == |used'|
  {
    forall i | 0 <= i < |ids| && used'[i] :: used[i] || Wanted(sat, ps, ids[i])
  }

  /** Without contested identities, evaluating decides the formula. */
  lemma {:induction false} EvalUncontested(sat: Satisfaction, e: Evaluator, ids: seq<Identity>, used: seq<bool>)
    requires |used| == |ids| && Uncontested(sat, Principals(e), ids) && Clear(sat, Principals(e), ids, used)
    ensures Eval(sat, e, ids, used).0 <==> Holds(sat, e, ids)
    ensures UsesWanted(sat, Principals(e), ids, used, Eval(sat, e, ids, used).1)
    decreases e, 1
  {
    match e
    case Leaf(p) =>
      assert Principals(e)[0] == p;
    case Gate(n, policies) =>
      EvalAllUncontested(sat, policies, ids, used);
  }

  lemma {:induction false} EvalAllUncontested(sat: Satisfaction, policies: seq<Evaluator>, ids: seq<Identity>,
                                              used: seq<bool>)
    requires |used| == |ids|
    requires Uncontested(sat, PrincipalsIn(policies), ids) && Clear(sat, PrincipalsIn(policies), ids, used)
    ensures EvalAll(sat, policies, ids, used).0 == HoldCount(sat, policies, ids)
    ensures UsesWanted(sat, PrincipalsIn(policies), ids, used, EvalAll(sat, policies, ids, used).1)
    decreases policies, 0
  {
    if policies != [] {
      var init, last := policies[..|policies| - 1], policies[|policies| - 1];
      var ps, qs := PrincipalsIn(init), Principals(last);
      UncontestedSplit(sat, ps, qs, ids);
      forall i | 0 <= i < |ids|
        ensures Wanted(sat, ps + qs, ids[i]) <==> Wanted(sat, ps, ids[i]) || Wanted(sat, qs, ids[i])
      {
        WantedSplit(sat, ps, qs, ids[i]);
      }
      EvalAllUncontested(sat, init, ids, used);
      EvalUncontested(sat, last, ids, EvalAll(sat, init, ids, used).1);
    }
  }

  /** Whoever satisfies the policy satisfies the formula. */
  lemma {:induction false} ShowsHolds(sat: Satisfaction, e: Evaluator, ids: seq<Identity>, w: Witness)
    requires Shows(sat, e, ids, w)
    ensures Holds(sat, e, ids)
    decreases e, 1
  {
    if e.Gate? {
      ShowsHoldCount(sat, e.policies, ids, w.subs);
    }
  }

  lemma {:induction false} ShowsHoldCount(sat: Satisfaction, policies: seq<Evaluator>, ids: seq<Identity>,
                                          subs: seq<Witness>)
    requires |subs| == |policies|
    requires forall j | 0 <= j < |policies| && !subs[j].Unsatisfied? :: Shows(sat, policies[j], ids, subs[j])
    ensures HoldCount(sat, policies, ids) >= Satisfied(subs)
    decreases policies, 0
  {
    if policies != [] {
      var last := |policies| - 1;
      ShowsHoldCount(sat, policies[..last], ids, subs[..last]);
      if !subs[last].Unsatisfied? {
        ShowsHolds(sat, policies[last], ids, subs[last]);
      }
    }
  }

  /** A policy without contested identities is accepted exactly when it is satisfied. */
  lemma AcceptsIffSatisfied(sat: Satisfaction, e: Evaluator, ids: seq<Identity>)
    requires Uncontested(sat, Principals(e), ids)
    ensures Accepts(sat, e, ids) <==> exists w :: Shows(sat, e, ids, w)
  {
    var none := NoneUsed(ids);
    EvalUncontested(sat, e, ids, none);
    if Accepts(sat, e, ids) {
      var w := EvalSound(sat, e, ids, none);
      assert Shows(sat, e, ids, w);
    }
    if w :| Shows(sat, e, ids, w) {
      ShowsHolds(sat, e, ids, w);
    }
  }

  /** A gate goes on evaluating after it is satisfied: here it takes both identities. */
  lemma EitherTakesBoth(sat: Satisfaction, a: Principal, b: Principal, alice: Identity, bob: Identity)
    requires sat(alice, a) && !sat(alice, b) && sat(bob, b) && !sat(bob, a)
    ensures Eval(sat, Gate(1, [Leaf(a), Leaf(b)]), [alice, bob], [false, false]) == (true, [true, true])
  {
    var ids := [alice, bob];
    EvalAllSnoc(sat, [], Leaf(a), ids, [false, false]);
    assert [] + [Leaf(a)] == [Leaf(a)];
    assert FirstFree(sat, a, ids, [false, false], 0) == Some(0);
    assert [false, false][0 := true] == [true, false];
    EvalAllSnoc(sat, [Leaf(a)], Leaf(b), ids, [false, false]);
    assert [Leaf(a)] + [Leaf(b)] == [Leaf(a), Leaf(b)];
    assert FirstFree(sat, b, ids, [true, false], 0) == Some(1);
    assert [true, false][1 := true] == [true, true];
  }

  /** With a contested identity, two distinct signers that satisfy both parts of a policy can be refused. */
  lemma ContestedRefused(sat: Satisfaction, a: Principal, b: Principal, alice: Identity, bob: Identity)
    requires sat(alice, a) && !sat(alice, b) && sat(bob, b) && !sat(bob, a)
    ensures var both := Gate(2, [Gate(1, [Leaf(a), Leaf(b)]), Leaf(b)]);
            var w := BySubPolicies([BySubPolicies([ByIdentity(0), Unsatisfied]), ByIdentity(1)]);
            && Shows(sat, both, [alice, bob], w) && Named(w) == [0, 1]
            && !Accepts(sat, both, [alice, bob])
  {
    var either := Gate(1, [Leaf(a), Leaf(b)]);
    var ids := [alice, bob];
    assert NoneUsed(ids) == [false, false];
    EitherTakesBoth(sat, a, b, alice, bob);
    EvalAllSnoc(sat, [], either, ids, [false, false]);
    assert [] + [either] == [either];
    EvalAllSnoc(sat, [either], Leaf(b), ids, [false, false]);
    assert [either] + [Leaf(b)] == [either, Leaf(b)];
    var inner := BySubPolicies([ByIdentity(0), Unsatisfied]);
    NamedTwo(ByIdentity(0), Unsatisfied);
    NamedTwo(inner, ByIdentity(1));
  }

  lemma NamedTwo(v: Witness, w: Witness)
    ensures NamedIn([v, w]) == Named(v) + Named(w)
    ensures Satisfied([v, w]) == (if v.Unsatisfied? then 0 else 1) + if w.Unsatisfied? then 0 else 1
  {
    assert [v, w][..1] == [v] && [v][..0] == [];
    assert NamedIn([v]) == [] + Named(v) == Named(v);
    assert Satisfied([v]) == if v.Unsatisfied? then 0 else 1;
  }

  lemma {:induction false} EvalAllSnoc(sat: Satisfaction, init: seq<Evaluator>, last: Evaluator, ids: seq<Identity>,
                                       used: seq<bool>)
    requires |used| == |ids|
    ensures var (verified, used') := EvalAll(sat, init, ids, used);
            var (ok, used'') := Eval(sat, last, ids, used');
            EvalAll(sat, init + [last], ids, used) == if ok then (verified + 1, used'') else (verified, used')
  {
    assert (init + [last])[..|init|] == init;
  }
}
