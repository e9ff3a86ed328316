/** Dropping descendants at random until the combinations of those left are within a bound. */
module Pruning {
  import opened Choose
  import opened SliceChoose
  import opened TreePermutations

  /** How many of `n` descendants are left. */
  function PruneSize(n: nat, threshold: nat, bound: int): nat {
    if n > 0 && CombinationsExceed(n, threshold, bound) then PruneSize(n - 1, threshold, bound) else n
  }

  predicate PruneOk(kept: seq<nat>, n: nat, threshold: nat, bound: int) {
    Increasing(kept, n) && |kept| == PruneSize(n, threshold, bound)
  }

  /** Within the bound, no fewer than the threshold if there were enough, and none dropped without need. */
  lemma {:induction false} PruneSizeOk(n: nat, threshold: nat, bound: int)
    requires bound >= 1
    ensures var m := PruneSize(n, threshold, bound);
            && m <= n && !CombinationsExceed(m, threshold, bound) && (n >= threshold ==> m >= threshold)
            && (m < n ==> CombinationsExceed(m + 1, threshold, bound))
  {
    BinomialSmall(n, threshold);
    if n > 0 && CombinationsExceed(n, threshold, bound) {
      PruneSizeOk(n - 1, threshold, bound);
    }
  }

  lemma NothingToPrune(threshold: nat, bound: int)
    ensures PruneOk([], 0, threshold, bound)
  {
  }

  /** The pruning loop: a random victim at a time, until the combinations are within the bound. */
  method Prune(n: nat, threshold: nat, bound: int) returns (kept: seq<nat>)
    requires bound >= 1
    ensures PruneOk(kept, n, threshold, bound)
  {
    kept := seq(n, j requires 0 <= j < n => j);
    while CombinationsExceed(|kept|, threshold, bound)
      invariant Increasing(kept, n) && PruneSize(|kept|, threshold, bound) == PruneSize(n, threshold, bound)
      decreases |kept|
    {
      BinomialSmall(|kept|, threshold);
      var victim: nat :| victim < |kept|;
      kept := Removed(kept, victim);
    }
  }

  function Removed(s: seq<nat>, j: nat): (r: seq<nat>)
    requires j < |s|
    ensures |r| == |s| - 1 && forall n :: Increasing(s, n) ==> Increasing(r, n)
  {
    s[..j] + s[j + 1..]
  }

  /** `p` is `v` after every vertex lost some descendants. */
  ghost predicate PrunedFrom(bound: int, v: TreeVertex, p: TreeVertex) {
    && p.id == v.id && p.data == v.data && p.threshold == v.threshold
    && exists kept | |kept| == |p.descendants| :: PrunedBy(bound, v, p, kept)
  }

  ghost predicate PrunedBy(bound: int, v: TreeVertex, p: TreeVertex, kept: seq<nat>) {
    && |kept| == |p.descendants| && PruneOk(kept, |v.descendants|, v.threshold, bound)
    && forall j | 0 <= j < |kept| :: PrunedFrom(bound, v.descendants[kept[j]], p.descendants[j])
  }

  // ----- when the enumeration of what is left is right -----

  /** At every inner vertex the code enumerates the groups of descendants correctly. */
  ghost predicate AllExact(grow: Growth, v: TreeVertex) {
    && (v.descendants != [] ==> |v.descendants| <= v.threshold || LastAppendMoves(grow, v.threshold))
    && forall j | 0 <= j < |v.descendants| :: AllExact(grow, v.descendants[j])
  }

  /** Every inner vertex asks for at least one descendant and has enough. */
  ghost predicate Feasible(v: TreeVertex) {
    && (v.descendants != [] ==> 1 <= v.threshold <= |v.descendants|)
    && forall j | 0 <= j < |v.descendants| :: Feasible(v.descendants[j])
  }

  /** There is nothing to choose, or pruning leaves nothing to choose, or the last append of a group moves. */
  predicate Guarded(grow: Growth, bound: int, v: TreeVertex) {
    |v.descendants| <= v.threshold || bound < v.threshold + 1 || LastAppendMoves(grow, v.threshold)
  }

  ghost predicate AllGuarded(grow: Growth, bound: int, v: TreeVertex) {
    && (v.descendants != [] ==> Guarded(grow, bound, v))
    && forall j | 0 <= j < |v.descendants| :: AllGuarded(grow, bound, v.descendants[j])
  }

  lemma {:induction false} BinomialAtLeast(n: nat, k: nat)
    requires n > k >= 1
    ensures Binomial(n, k) >= k + 1 && (n == k + 1 ==> Binomial(n, k) == k + 1)
  {
    BinomialSmall(n - 1, k);
    BinomialSmall(n - 1, k - 1);
    if k > 1 { BinomialAtLeast(n - 1, k - 1); }
    if n - 1 > k { BinomialAtLeast(n - 1, k); }
    if k == 1 { assert Binomial(n - 1, 0) == 1; }
  }

  /** Something to choose is left exactly if there was and the bound allows for it. */
  lemma {:induction false} PruneLeaves(n: nat, k: nat, bound: int)
    requires bound >= 1 && k >= 1
    ensures PruneSize(n, k, bound) > k <==> n > k && bound >= k + 1
  {
    if n > k {
      BinomialAtLeast(n, k);
      PruneLeaves(n - 1, k, bound);
    }
    PruneSizeOk(n, k, bound);
  }

  lemma PrunedGuard(grow: Growth, bound: int, v: TreeVertex, m: nat)
    requires bound >= 1 && m == PruneSize(|v.descendants|, v.threshold, bound)
    ensures m <= v.threshold || LastAppendMoves(grow, v.threshold) <==> Guarded(grow, bound, v)
  {
    if v.threshold >= 1 { PruneLeaves(|v.descendants|, v.threshold, bound); }
  }

  /** However the guarded tree is pruned, the enumeration is right everywhere. */
  lemma {:induction false} GuardedExact(grow: Growth, bound: int, v: TreeVertex, p: TreeVertex)
    requires bound >= 1 && PrunedFrom(bound, v, p) && AllGuarded(grow, bound, v)
    ensures AllExact(grow, p)
    decreases p
  {
    var kept :| |kept| == |p.descendants| && PrunedBy(bound, v, p, kept);
    forall j | 0 <= j < |p.descendants| ensures AllExact(grow, p.descendants[j]) {
      GuardedExact(grow, bound, v.descendants[kept[j]], p.descendants[j]);
    }
    PrunedGuard(grow, bound, v, |kept|);
    if p.descendants != [] { assert kept[0] < |v.descendants|; }
  }

  lemma {:induction false} FeasiblePruned(bound: int, v: TreeVertex, p: TreeVertex)
    requires bound >= 1 && PrunedFrom(bound, v, p) && Feasible(v)
    ensures Feasible(p)
    decreases p
  {
    var kept :| |kept| == |p.descendants| && PrunedBy(bound, v, p, kept);
    forall j | 0 <= j < |p.descendants| ensures Feasible(p.descendants[j]) {
      FeasiblePruned(bound, v.descendants[kept[j]], p.descendants[j]);
    }
    PruneSizeOk(|v.descendants|, v.threshold, bound);
    if p.descendants != [] { assert kept[0] < |v.descendants|; }
  }

  // ----- every descendant may be left -----

  /** A group of `m` out of `n` with the given member. */
  function GroupWith(n: nat, m: nat, member: nat): (r: seq<nat>)
    requires 1 <= m <= n && member < n
    ensures Increasing(r, n) && |r| == m && exists x :: 0 <= x < m && r[x] == member
  {
    var r := seq(m, j requires 0 <= j < m => if j == m - 1 && member >= m then member else j);
    assert r[if member >= m then m - 1 else member] == member;
    r
  }

  /** A pruning in which the descendants with the given indices are left, each pruned as given. */
  lemma PrunedAs(bound: int, v: TreeVertex, kept: seq<nat>, ps: seq<TreeVertex>) returns (p: TreeVertex)
    requires PruneOk(kept, |v.descendants|, v.threshold, bound) && |ps| == |kept|
    requires forall j | 0 <= j < |kept| :: PrunedFrom(bound, v.descendants[kept[j]], ps[j])
    ensures PrunedFrom(bound, v, p) && p.descendants == ps
  {
    p := v.(descendants := ps);
    assert PrunedBy(bound, v, p, kept);
  }

  lemma {:induction false} SomePruning(bound: int, v: TreeVertex) returns (p: TreeVertex)
    requires bound >= 1
    ensures PrunedFrom(bound, v, p)
    decreases v, 1
  {
    var m := PruneSize(|v.descendants|, v.threshold, bound);
    PruneSizeOk(|v.descendants|, v.threshold, bound);
    var kept := seq(m, j requires 0 <= j < m => j);
    var ps := SomePrunings(bound, v, kept);
    p := PrunedAs(bound, v, kept, ps);
  }

  lemma {:induction false} SomePrunings(bound: int, v: TreeVertex, kept: seq<nat>) returns (ps: seq<TreeVertex>)
    requires bound >= 1 && Increasing(kept, |v.descendants|)
    ensures |ps| == |kept| && forall j | 0 <= j < |kept| :: PrunedFrom(bound, v.descendants[kept[j]], ps[j])
    decreases v, 0
  {
    ps := [];
    while |ps| < |kept|
      invariant |ps| <= |kept| && forall j | 0 <= j < |ps| :: PrunedFrom(bound, v.descendants[kept[j]], ps[j])
    {
      var next := SomePruning(bound, v.descendants[kept[|ps|]]);
      ps := ps + [next];
    }
  }

  lemma PruningWith(bound: int, v: TreeVertex, member: nat, q: TreeVertex) returns (p: TreeVertex)
    requires bound >= 1 && Feasible(v) && member < |v.descendants| && PrunedFrom(bound, v.descendants[member], q)
    ensures PrunedFrom(bound, v, p) && exists x :: 0 <= x < |p.descendants| && p.descendants[x] == q
  {
    var m := PruneSize(|v.descendants|, v.threshold, bound);
    PruneSizeOk(|v.descendants|, v.threshold, bound);
    var kept := GroupWith(|v.descendants|, m, member);
    var x :| 0 <= x < m && kept[x] == member;
    var ps := SomePrunings(bound, v, kept);
    p := PrunedAs(bound, v, kept, ps[x := q]);
    assert p.descendants[x] == q;
  }

  /** A vertex that is not guarded can be left, and then its groups are enumerated wrongly. */
  lemma {:induction false} UnguardedPruning(grow: Growth, bound: int, v: TreeVertex) returns (p: TreeVertex)
    requires bound >= 1 && Feasible(v) && !AllGuarded(grow, bound, v)
    ensures PrunedFrom(bound, v, p) && !AllExact(grow, p)
    decreases v
  {
    if v.descendants != [] && !Guarded(grow, bound, v) {
      p := SomePruning(bound, v);
      var kept :| |kept| == |p.descendants| && PrunedBy(bound, v, p, kept);
      PrunedGuard(grow, bound, v, |kept|);
    } else {
      var j :| 0 <= j < |v.descendants| && !AllGuarded(grow, bound, v.descendants[j]);
      var q := UnguardedPruning(grow, bound, v.descendants[j]);
      p := PruningWith(bound, v, j, q);
    }
  }

  /** The enumeration is right however the tree is pruned, exactly if every inner vertex is guarded. */
  lemma AlwaysExactIff(grow: Growth, bound: int, v: TreeVertex)
    requires bound >= 1 && Feasible(v)
    ensures (forall p | PrunedFrom(bound, v, p) :: AllExact(grow, p)) <==> AllGuarded(grow, bound, v)
  {
    if AllGuarded(grow, bound, v) {
      forall p | PrunedFrom(bound, v, p) ensures AllExact(grow, p) { GuardedExact(grow, bound, v, p); }
    } else {
      var p := UnguardedPruning(grow, bound, v);
    }
  }
}
