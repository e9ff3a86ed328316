/** In which order a signature policy takes identities, and why signers in the order of the leaves are accepted. */
module PolicyOrder {
  import opened Wrappers
  import opened SignaturePolicy
  import opened PolicyCompleteness

  /** An accepting leaf marks one identity, the first that is free and satisfies it; a refusing one finds none. */
  lemma LeafTakesFirst(sat: Satisfaction, p: Principal, ids: seq<Identity>, used: seq<bool>)
    requires |used| == |ids|
    ensures var (ok, used') := Eval(sat, Leaf(p), ids, used);
      if ok then
        exists i | 0 <= i < |ids| ::
          && !used[i] && sat(ids[i], p) && used' == used[i := true]
          && forall j | 0 <= j < i :: used[j] || !sat(ids[j], p)
      else used' == used && forall j | 0 <= j < |ids| :: used[j] || !sat(ids[j], p)
  {
    var i := FirstFree(sat, p, ids, used, 0);
    if i.Some? {
      assert !used[i.value] && sat(ids[i.value], p) && Eval(sat, Leaf(p), ids, used).1 == used[i.value := true];
    }
  }

  /** No gate asks for more policies than it has. */
  predicate Reachable(e: Evaluator) {
    match e
    case Leaf(_) => true
    case Gate(n, policies) => n <= |policies| && forall j | 0 <= j < |policies| :: Reachable(policies[j])
  }

  /** Identities, in order, that satisfy the leaves, one each. */
  predicate Lined(sat: Satisfaction, ps: seq<Principal>, ids: seq<Identity>, at: seq<nat>) {
    && |at| == |ps|
    && (forall a, b | 0 <= a < b < |at| :: at[a] < at[b])
    && forall a | 0 <= a < |at| :: at[a] < |ids| && sat(ids[at[a]], ps[a])
  }

  predicate FreeFrom(used: seq<bool>, lo: nat) {
    forall i | lo <= i < |used| :: !used[i]
  }

  function Beyond(at: seq<nat>, lo: nat): nat {
    if at == [] then lo else at[|at| - 1] + 1
  }

  /** Signers that stand in the order of the leaves are found, and nobody after them is taken. */
  lemma {:induction false} InOrder(sat: Satisfaction, e: Evaluator, ids: seq<Identity>, used: seq<bool>, at: seq<nat>,
                                   lo: nat)
    requires |used| == |ids| && FreeFrom(used, lo) && Reachable(e)
    requires Lined(sat, Principals(e), ids, at) && forall a | 0 <= a < |at| :: lo <= at[a]
    ensures Eval(sat, e, ids, used).0 && FreeFrom(Eval(sat, e, ids, used).1, Beyond(at, lo))
    decreases e, 1
  {
    match e
    case Leaf(p) =>
      assert at[0] == at[|at| - 1];
    case Gate(n, policies) =>
      AllInOrder(sat, policies, ids, used, at, lo);
  }

  lemma {:induction false} AllInOrder(sat: Satisfaction, policies: seq<Evaluator>, ids: seq<Identity>, used: seq<bool>,
                                      at: seq<nat>, lo: nat)
    requires |used| == |ids| && FreeFrom(used, lo) && forall j | 0 <= j < |policies| :: Reachable(policies[j])
    requires Lined(sat, PrincipalsIn(policies), ids, at) && forall a | 0 <= a < |at| :: lo <= at[a]
    ensures EvalAll(sat, policies, ids, used).0 == |policies|
    ensures FreeFrom(EvalAll(sat, policies, ids, used).1, Beyond(at, lo))
    decreases policies, 0
  {
    if policies != [] {
      var init, last := policies[..|policies| - 1], policies[|policies| - 1];
      var ps, qs := PrincipalsIn(init), Principals(last);
      LinedSplit(sat, ps, qs, ids, at, lo);
      var front, back := at[..|ps|], at[|ps|..];
      AllInOrder(sat, init, ids, used, front, lo);
      InOrder(sat, last, ids, EvalAll(sat, init, ids, used).1, back, Beyond(front, lo));
    }
  }

  lemma LinedSplit(sat: Satisfaction, ps: seq<Principal>, qs: seq<Principal>, ids: seq<Identity>, at: seq<nat>, lo: nat)
    requires Lined(sat, ps + qs, ids, at) && forall a | 0 <= a < |at| :: lo <= at[a]
    ensures Lined(sat, ps, ids, at[..|ps|]) && Lined(sat, qs, ids, at[|ps|..])
    ensures forall a | 0 <= a < |qs| :: Beyond(at[..|ps|], lo) <= at[|ps|..][a]
  {
    forall a | 0 <= a < |ps| ensures sat(ids[at[a]], ps[a]) { assert (ps + qs)[a] == ps[a]; }
    forall a | 0 <= a < |qs| ensures sat(ids[at[|ps| + a]], qs[a]) { assert (ps + qs)[|ps| + a] == qs[a]; }
  }

  /** A policy whose leaves are satisfied by signers in the leaves' order is accepted, contested or not, whoever else
      signed. */
  lemma InOrderAccepted(sat: Satisfaction, e: Evaluator, ids: seq<Identity>, at: seq<nat>)
    requires Reachable(e) && Lined(sat, Principals(e), ids, at)
    ensures Accepts(sat, e, ids)
  {
    InOrder(sat, e, ids, NoneUsed(ids), at, 0);
  }

  lemma {:induction false} PrincipalsOfLeaves(ps: seq<Principal>)
    ensures PrincipalsIn(seq(|ps|, j requires 0 <= j < |ps| => Leaf(ps[j]))) == ps
  {
    if ps != [] {
      var leaves := seq(|ps|, j requires 0 <= j < |ps| => Leaf(ps[j]));
      var init := ps[..|ps| - 1];
      PrincipalsOfLeaves(init);
      assert leaves[..|ps| - 1] == seq(|init|, j requires 0 <= j < |init| => Leaf(init[j]));
      assert Principals(leaves[|ps| - 1]) == [ps[|ps| - 1]];
    }
  }

  /** All of some principals: signers listed in that order are accepted. */
  lemma ListedAccepted(sat: Satisfaction, ps: seq<Principal>, ids: seq<Identity>)
    requires |ps| <= |ids| && forall j | 0 <= j < |ps| :: sat(ids[j], ps[j])
    ensures Accepts(sat, Gate(|ps|, seq(|ps|, j requires 0 <= j < |ps| => Leaf(ps[j]))), ids)
  {
    var at: seq<nat> := seq(|ps|, j requires 0 <= j < |ps| => j);
    PrincipalsOfLeaves(ps);
    InOrderAccepted(sat, Gate(|ps|, seq(|ps|, j requires 0 <= j < |ps| => Leaf(ps[j]))), ids, at);
  }

  /** The order matters: with the one who could do either first, a member and an admin are refused. */
  lemma OrderMatters(sat: Satisfaction, member: Principal, admin: Principal, x: Identity, y: Identity)
    requires sat(x, member) && !sat(x, admin) && sat(y, member) && sat(y, admin)
    ensures Accepts(sat, Gate(2, [Leaf(member), Leaf(admin)]), [x, y])
    ensures !Accepts(sat, Gate(2, [Leaf(member), Leaf(admin)]), [y, x])
  {
    var ps := [member, admin];
    ListedAccepted(sat, ps, [x, y]);
    assert seq(|ps|, j requires 0 <= j < |ps| => Leaf(ps[j])) == [Leaf(member), Leaf(admin)];
    TakenFirst(sat, member, admin, y, x);
  }

  lemma TakenFirst(sat: Satisfaction, member: Principal, admin: Principal, y: Identity, x: Identity)
    requires sat(y, member) && !sat(x, admin)
    ensures !Accepts(sat, Gate(2, [Leaf(member), Leaf(admin)]), [y, x])
  {
    var ids, none := [y, x], NoneUsed([y, x]);
    EvalAllSnoc(sat, [], Leaf(member), ids, none);
    assert [] + [Leaf(member)] == [Leaf(member)];
    assert FirstFree(sat, member, ids, none, 0) == Some(0);
    EvalAllSnoc(sat, [Leaf(member)], Leaf(admin), ids, none);
    assert [Leaf(member)] + [Leaf(admin)] == [Leaf(member), Leaf(admin)];
    assert FirstFree(sat, admin, ids, none[0 := true], 0) == None;
  }
}
