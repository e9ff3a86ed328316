/** Computing the permutations: pruning, breadth-first iteration and the rewriting loop. */
module Permute {
  import opened Wrappers
  import opened Choose
  import opened SliceChoose
  import opened TreePermutations
  import opened Pruning
  import opened PermutationRule

  // ----- breadth-first iteration -----

  class BfsIterator {
    var queue: seq<TreeVertex>

    constructor (v: TreeVertex)
      ensures queue == [v]
    {
      queue := [v];
    }

    method Next() returns (r: Option<TreeVertex>)
      modifies this
      ensures old(queue) == [] ==> r == None && queue == []
      ensures old(queue) != [] ==> r == Some(old(queue)[0]) && queue == old(queue)[1..] + old(queue)[0].descendants
    {
      if queue == [] { return None; }
      var v := queue[0];
      queue := queue[1..];
      ghost var rest := queue;
      for j := 0 to |v.descendants|
        invariant queue == rest + v.descendants[..j]
      {
        queue := queue + [v.descendants[j]];
      }
      assert v.descendants[..|v.descendants|] == v.descendants;
      r := Some(v);
    }
  }

  /** The queue after its first vertex gave way to its descendants. */
  function Dequeued(q: seq<TreeVertex>): seq<TreeVertex>
    requires q != []
  {
    q[1..] + q[0].descendants
  }

  ghost function QueueIds(q: seq<TreeVertex>): set<string> {
    set j, x | 0 <= j < |q| && x in VertexIds(q[j]) :: x
  }

  function Size(v: TreeVertex): nat {
    1 + TotalSize(v.descendants)
  }

  function TotalSize(vs: seq<TreeVertex>): nat {
    if vs == [] then 0 else Size(vs[0]) + TotalSize(vs[1..])
  }

  lemma {:induction false} TotalSizeConcat(a: seq<TreeVertex>, b: seq<TreeVertex>)
    ensures TotalSize(a + b) == TotalSize(a) + TotalSize(b)
  {
    if a == [] {
      assert a + b == b;
    } else {
      assert (a + b)[0] == a[0] && (a + b)[1..] == a[1..] + b;
      TotalSizeConcat(a[1..], b);
    }
  }

  lemma DequeuedSmaller(q: seq<TreeVertex>)
    requires q != []
    ensures TotalSize(Dequeued(q)) < TotalSize(q)
  {
    TotalSizeConcat(q[1..], q[0].descendants);
  }

  /** `u` is `w` or a vertex below it. */
  ghost predicate Sub(u: TreeVertex, w: TreeVertex) {
    u == w || exists j | 0 <= j < |w.descendants| :: Sub(u, w.descendants[j])
  }

  lemma {:induction false} SubIds(u: TreeVertex, w: TreeVertex)
    requires Sub(u, w)
    ensures VertexIds(u) <= VertexIds(w)
    decreases w
  {
    if u != w {
      var j :| 0 <= j < |w.descendants| && Sub(u, w.descendants[j]);
      SubIds(u, w.descendants[j]);
    }
  }

  lemma {:induction false} SubChild(u: TreeVertex, w: TreeVertex, j: nat)
    requires Sub(u, w) && j < |u.descendants|
    ensures Sub(u.descendants[j], w)
    decreases w
  {
    if u == w {
      assert Sub(u.descendants[j], w.descendants[j]);
    } else {
      var i :| 0 <= i < |w.descendants| && Sub(u, w.descendants[i]);
      SubChild(u, w.descendants[i], j);
    }
  }

  lemma {:induction false} SubUnique(u: TreeVertex, w: TreeVertex)
    requires Sub(u, w) && UniqueIds(w)
    ensures UniqueIds(u) && OnlyAs(w, u)
    decreases w
  {
    if u == w {
      forall j | 0 <= j < |w.descendants| ensures OnlyAs(w.descendants[j], u) { AbsentOnlyAs(w.descendants[j], u); }
    } else {
      var i :| 0 <= i < |w.descendants| && Sub(u, w.descendants[i]);
      SubUnique(u, w.descendants[i]);
      SubIds(u, w.descendants[i]);
      assert u.id in VertexIds(u);
      forall j | 0 <= j < |w.descendants| ensures OnlyAs(w.descendants[j], u) {
        if j != i { AbsentOnlyAs(w.descendants[j], u); }
      }
    }
  }

  lemma {:induction false} AbsentOnlyAs(w: TreeVertex, u: TreeVertex)
    requires u.id !in VertexIds(w)
    ensures OnlyAs(w, u)
  {
    forall j | 0 <= j < |w.descendants| ensures OnlyAs(w.descendants[j], u) { AbsentOnlyAs(w.descendants[j], u); }
  }

  ghost predicate DisjointQueue(q: seq<TreeVertex>) {
    forall a, b | 0 <= a < b < |q| :: VertexIds(q[a]) !! VertexIds(q[b])
  }

  /** Every vertex of `u` whose id is still in the queue lies within a vertex of the queue. */
  ghost predicate Covered(q: seq<TreeVertex>, u: TreeVertex) {
    && (u.id in QueueIds(q) ==> exists a | 0 <= a < |q| :: Sub(u, q[a]))
    && forall j | 0 <= j < |u.descendants| :: Covered(q, u.descendants[j])
  }

  /** What breadth-first iteration keeps: the queue holds disjoint subtrees that cover what is still to come. */
  ghost predicate QueueOk(q: seq<TreeVertex>, root: TreeVertex) {
    && UniqueIds(root) && DisjointQueue(q) && Covered(q, root)
    && forall a | 0 <= a < |q| :: Sub(q[a], root)
  }

  lemma StartQueue(root: TreeVertex)
    requires UniqueIds(root)
    ensures QueueOk([root], root) && QueueIds([root]) == VertexIds(root)
  {
    CoveredByRoot(root, root);
    SingleQueue(root);
  }

  lemma {:induction false} CoveredByRoot(u: TreeVertex, root: TreeVertex)
    requires Sub(u, root)
    ensures Covered([root], u)
    decreases u
  {
    assert [root][0] == root;
    forall j | 0 <= j < |u.descendants| ensures Covered([root], u.descendants[j]) {
      SubChild(u, root, j);
      CoveredByRoot(u.descendants[j], root);
    }
  }

  lemma QueueIdsConcat(a: seq<TreeVertex>, b: seq<TreeVertex>)
    ensures QueueIds(a + b) == QueueIds(a) + QueueIds(b)
  {
    forall x | x in QueueIds(a) + QueueIds(b) ensures x in QueueIds(a + b) {
      if x in QueueIds(a) {
        var j :| 0 <= j < |a| && x in VertexIds(a[j]);
        assert (a + b)[j] == a[j];
      } else {
        var j :| 0 <= j < |b| && x in VertexIds(b[j]);
        assert (a + b)[|a| + j] == b[j];
      }
    }
  }

  lemma DequeuedIds(q: seq<TreeVertex>, root: TreeVertex)
    requires q != [] && QueueOk(q, root)
    ensures QueueIds(Dequeued(q)) == QueueIds(q) - {q[0].id}
  {
    var v := q[0];
    SubUnique(v, root);
    QueueIdsConcat(q[1..], v.descendants);
    QueueIdsConcat([v], q[1..]);
    assert q == [v] + q[1..];
    SingleQueue(v);
    assert VertexIds(v) == {v.id} + QueueIds(v.descendants);
    assert v.id !in QueueIds(v.descendants);
    assert v.id !in QueueIds(q[1..]) by {
      assert v.id in VertexIds(q[0]);
      forall j | 0 <= j < |q[1..]| ensures v.id !in VertexIds(q[1..][j]) { assert q[1..][j] == q[j + 1]; }
    }
  }

  lemma SingleQueue(v: TreeVertex)
    ensures QueueIds([v]) == VertexIds(v)
  {
    assert [v][0] == v;
  }

  lemma {:induction false} DequeuedCovers(q: seq<TreeVertex>, u: TreeVertex)
    requires q != [] && Covered(q, u) && QueueIds(Dequeued(q)) == QueueIds(q) - {q[0].id}
    ensures Covered(Dequeued(q), u)
    decreases u
  {
    var q' := Dequeued(q);
    if u.id in QueueIds(q') {
      var a :| 0 <= a < |q| && Sub(u, q[a]);
      if a == 0 {
        var i :| 0 <= i < |q[0].descendants| && Sub(u, q[0].descendants[i]);
        assert q'[|q| - 1 + i] == q[0].descendants[i];
      } else {
        assert q'[a - 1] == q[a];
      }
    }
    forall j | 0 <= j < |u.descendants| ensures Covered(q', u.descendants[j]) { DequeuedCovers(q, u.descendants[j]); }
  }

  lemma DequeuedDisjoint(q: seq<TreeVertex>)
    requires q != [] && DisjointQueue(q) && UniqueIds(q[0])
    ensures DisjointQueue(Dequeued(q))
  {
    var v, q', n := q[0], Dequeued(q), |q| - 1;
    forall a, b | 0 <= a < b < |q'| ensures VertexIds(q'[a]) !! VertexIds(q'[b]) {
      assert a < n ==> q'[a] == q[a + 1];
      assert b < n ==> q'[b] == q[b + 1];
      assert a >= n ==> q'[a] == v.descendants[a - n];
      assert b >= n ==> q'[b] == v.descendants[b - n] && VertexIds(q'[b]) <= VertexIds(q[0]);
    }
  }

  lemma DequeuedOk(q: seq<TreeVertex>, root: TreeVertex)
    requires q != [] && QueueOk(q, root)
    ensures QueueOk(Dequeued(q), root) && QueueIds(Dequeued(q)) == QueueIds(q) - {q[0].id}
  {
    SubUnique(q[0], root);
    DequeuedIds(q, root);
    DequeuedCovers(q, root);
    DequeuedDisjoint(q);
    forall a | 0 <= a < |Dequeued(q)| ensures Sub(Dequeued(q)[a], root) {
      if a >= |q| - 1 { SubChild(q[0], root, a - (|q| - 1)); }
    }
  }

  lemma {:induction false} CoveredFrontier(q: seq<TreeVertex>, u: TreeVertex)
    requires q != [] && DisjointQueue(q) && UniqueIds(q[0]) && Covered(q, u)
    ensures Frontier(QueueIds(q), u, q[0])
    decreases u
  {
    var v := q[0];
    if u.id != v.id && v.id in VertexIds(u) && u.id in QueueIds(q) {
      var a :| 0 <= a < |q| && Sub(u, q[a]);
      SubIds(u, q[a]);
      assert v.id in VertexIds(q[0]) && a == 0;
      var i :| 0 <= i < |v.descendants| && Sub(u, v.descendants[i]);
      SubIds(u, v.descendants[i]);
    }
    forall j | 0 <= j < |u.descendants|
      ensures Frontier(QueueIds(q), u.descendants[j], v)
    {
      CoveredFrontier(q, u.descendants[j]);
    }
  }

  /** The vertex that breadth-first iteration comes to is next in the sense of the rewriting. */
  lemma HeadIsNext(q: seq<TreeVertex>, root: TreeVertex)
    requires q != [] && QueueOk(q, root)
    ensures IsNext(QueueIds(q), root, q[0])
  {
    SubUnique(q[0], root);
    CoveredFrontier(q, root);
    assert VertexIds(q[0]) <= QueueIds(q);
  }

  // ----- pruning -----

  /** The tree that is left when the vertices keep the descendants recorded for them. */
  function PrunedTree(kept: map<string, seq<nat>>, v: TreeVertex): TreeVertex {
    if v.id in kept && (forall j | 0 <= j < |kept[v.id]| :: kept[v.id][j] < |v.descendants|) then
      v.(descendants := seq(|kept[v.id]|,
                            j requires 0 <= j < |kept[v.id]| => PrunedTree(kept, v.descendants[kept[v.id][j]])))
    else v
  }

  /** Every inner vertex of `u` outside `todo` has its survivors recorded, and the choices among them. */
  ghost predicate AllRecorded(grow: Growth, bound: int, kept: map<string, seq<nat>>, chosen: map<string, seq<seq<nat>>>,
                              todo: set<string>, u: TreeVertex)
    requires Grows(grow)
  {
    && (u.id !in todo && u.descendants != [] ==>
          && u.id in kept && PruneOk(kept[u.id], |u.descendants|, u.threshold, bound)
          && u.id in chosen && chosen[u.id] == Chosen(grow, |kept[u.id]|, u.threshold))
    && (u.descendants == [] ==> u.id !in kept)
    && forall j | 0 <= j < |u.descendants| :: AllRecorded(grow, bound, kept, chosen, todo, u.descendants[j])
  }

  lemma {:induction false} NothingRecorded(grow: Growth, bound: int, todo: set<string>, u: TreeVertex)
    requires Grows(grow) && VertexIds(u) <= todo
    ensures AllRecorded(grow, bound, map[], map[], todo, u)
  {
    forall j | 0 <= j < |u.descendants| ensures AllRecorded(grow, bound, map[], map[], todo, u.descendants[j]) {
      assert VertexIds(u.descendants[j]) <= VertexIds(u);
      NothingRecorded(grow, bound, todo, u.descendants[j]);
    }
  }

  /** A leaf needs no record. */
  lemma {:induction false} RecordLeaf(grow: Growth, bound: int, kept: map<string, seq<nat>>,
                                      chosen: map<string, seq<seq<nat>>>, todo: set<string>, u: TreeVertex,
                                      v: TreeVertex)
    requires Grows(grow) && AllRecorded(grow, bound, kept, chosen, todo, u) && OnlyAs(u, v) && v.descendants == []
    ensures AllRecorded(grow, bound, kept, chosen, todo - {v.id}, u)
    decreases u
  {
    forall j | 0 <= j < |u.descendants|
      ensures AllRecorded(grow, bound, kept, chosen, todo - {v.id}, u.descendants[j])
    {
      RecordLeaf(grow, bound, kept, chosen, todo, u.descendants[j], v);
    }
  }

  lemma {:induction false} RecordInner(grow: Growth, bound: int, kept: map<string, seq<nat>>,
                                       chosen: map<string, seq<seq<nat>>>, todo: set<string>, u: TreeVertex,
                                       v: TreeVertex, k: seq<nat>)
    requires Grows(grow) && AllRecorded(grow, bound, kept, chosen, todo, u) && OnlyAs(u, v) && v.descendants != []
    requires PruneOk(k, |v.descendants|, v.threshold, bound)
    ensures AllRecorded(grow, bound, kept[v.id := k], chosen[v.id := Chosen(grow, |k|, v.threshold)], todo - {v.id}, u)
    decreases u
  {
    forall j | 0 <= j < |u.descendants|
      ensures AllRecorded(grow, bound, kept[v.id := k], chosen[v.id := Chosen(grow, |k|, v.threshold)], todo - {v.id},
                          u.descendants[j])
    {
      RecordInner(grow, bound, kept, chosen, todo, u.descendants[j], v, k);
    }
  }

  /** What the records describe is a pruning of the tree. */
  lemma {:induction false} PrunedTreeOk(grow: Growth, bound: int, kept: map<string, seq<nat>>,
                                        chosen: map<string, seq<seq<nat>>>, u: TreeVertex)
    requires Grows(grow) && bound >= 1 && AllRecorded(grow, bound, kept, chosen, {}, u)
    ensures PrunedFrom(bound, u, PrunedTree(kept, u))
    decreases u
  {
    var p := PrunedTree(kept, u);
    var k := if u.descendants == [] then [] else kept[u.id];
    forall j | 0 <= j < |k| ensures PrunedFrom(bound, u.descendants[k[j]], p.descendants[j]) {
      PrunedTreeOk(grow, bound, kept, chosen, u.descendants[k[j]]);
    }
    assert u.descendants == [] ==> PruneOk([], 0, u.threshold, bound) by { NothingToPrune(u.threshold, bound); }
    assert PrunedBy(bound, u, p, k);
  }

  lemma {:induction false} PrunedIds(bound: int, u: TreeVertex, p: TreeVertex)
    requires PrunedFrom(bound, u, p)
    ensures VertexIds(p) <= VertexIds(u)
    decreases p
  {
    var k :| |k| == |p.descendants| && PrunedBy(bound, u, p, k);
    forall j | 0 <= j < |p.descendants| ensures VertexIds(p.descendants[j]) <= VertexIds(u) {
      PrunedIds(bound, u.descendants[k[j]], p.descendants[j]);
    }
  }

  lemma {:induction false} PrunedUnique(bound: int, u: TreeVertex, p: TreeVertex)
    requires PrunedFrom(bound, u, p) && UniqueIds(u)
    ensures UniqueIds(p)
    decreases p
  {
    var k :| |k| == |p.descendants| && PrunedBy(bound, u, p, k);
    forall j | 0 <= j < |p.descendants|
      ensures UniqueIds(p.descendants[j]) && VertexIds(p.descendants[j]) <= VertexIds(u.descendants[k[j]])
    {
      PrunedUnique(bound, u.descendants[k[j]], p.descendants[j]);
      PrunedIds(bound, u.descendants[k[j]], p.descendants[j]);
    }
  }

  /** At every inner vertex of the pruned tree the recorded choices are those of its descendants. */
  ghost predicate ChosenAt(grow: Growth, chosen: map<string, seq<seq<nat>>>, p: TreeVertex)
    requires Grows(grow)
  {
    && (p.descendants != [] ==> p.id in chosen && chosen[p.id] == Chosen(grow, |p.descendants|, p.threshold))
    && forall j | 0 <= j < |p.descendants| :: ChosenAt(grow, chosen, p.descendants[j])
  }

  lemma {:induction false} PrunedChosen(grow: Growth, bound: int, kept: map<string, seq<nat>>,
                                        chosen: map<string, seq<seq<nat>>>, u: TreeVertex)
    requires Grows(grow) && AllRecorded(grow, bound, kept, chosen, {}, u)
    ensures ChosenAt(grow, chosen, PrunedTree(kept, u))
    decreases u
  {
    if u.descendants != [] {
      forall j | 0 <= j < |kept[u.id]| ensures ChosenAt(grow, chosen, PrunedTree(kept, u.descendants[kept[u.id][j]])) {
        PrunedChosen(grow, bound, kept, chosen, u.descendants[kept[u.id][j]]);
      }
    }
  }

  lemma {:induction false} ChosenBelow(grow: Growth, chosen: map<string, seq<seq<nat>>>, p: TreeVertex, v: TreeVertex)
    requires Grows(grow) && ChosenAt(grow, chosen, p) && Sub(v, p)
    ensures ChosenAt(grow, chosen, v)
    decreases p
  {
    if v != p {
      var j :| 0 <= j < |p.descendants| && Sub(v, p.descendants[j]);
      ChosenBelow(grow, chosen, p.descendants[j], v);
    }
  }

  lemma {:induction false} ExactBelow(grow: Growth, p: TreeVertex, v: TreeVertex)
    requires AllExact(grow, p) && Sub(v, p)
    ensures AllExact(grow, v)
    decreases p
  {
    if v != p {
      var j :| 0 <= j < |p.descendants| && Sub(v, p.descendants[j]);
      ExactBelow(grow, p.descendants[j], v);
    }
  }

  lemma ExactDistinct(grow: Growth, v: TreeVertex)
    requires Grows(grow) && AllExact(grow, v) && v.descendants != []
    ensures Distinct(Chosen(grow, |v.descendants|, v.threshold))
  {
    ChosenExact(grow, |v.descendants|, v.threshold);
    CombosSorted(|v.descendants|, v.threshold, 0, []);
    SortedDistinct(Combos(|v.descendants|, v.threshold, 0, []));
  }

  // ----- the two passes -----

  class TreePermuter {
    const grow: Growth
    const combinationUpperBound: int
    const originalRoot: TreeVertex
    var permutations: seq<Tree>
    var kept: map<string, seq<nat>>                         // the descendants, by index, that each vertex still has
    var descendantPermutations: map<string, seq<seq<nat>>>  // the choices among them

    constructor (grow: Growth, root: TreeVertex, combinationUpperBound: int)
      ensures this.grow == grow && originalRoot == root && this.combinationUpperBound == combinationUpperBound
      ensures kept == map[] && descendantPermutations == map[]
    {
      this.grow, this.originalRoot, this.combinationUpperBound := grow, root, combinationUpperBound;
      permutations, kept, descendantPermutations := [], map[], map[];
    }

    method ComputeDescendantPermutations()
      requires Grows(grow) && combinationUpperBound >= 1 && UniqueIds(originalRoot)
      requires kept == map[] && descendantPermutations == map[]
      modifies this
      ensures permutations == old(permutations)
      ensures AllRecorded(grow, combinationUpperBound, kept, descendantPermutations, {}, originalRoot)
    {
      var it := new BfsIterator(originalRoot);
      StartQueue(originalRoot);
      NothingRecorded(grow, combinationUpperBound, QueueIds(it.queue), originalRoot);
      while true
        invariant fresh(it) && permutations == old(permutations)
        invariant ComputeInv(grow, combinationUpperBound, kept, descendantPermutations, it.queue, originalRoot)
        decreases TotalSize(it.queue)
      {
        ghost var q := it.queue;
        var next := it.Next();
        if next.None? {
          assert QueueIds([]) == {};
          return;
        }
        var v := next.value;
        DequeuedSmaller(q);
        if |v.descendants| == 0 {
          ComputeLeaf(grow, combinationUpperBound, kept, descendantPermutations, q, originalRoot);
          continue;
        }
        var survivors := Prune(|v.descendants|, v.threshold, combinationUpperBound);
        var groups := ChooseKoutOfN(grow, |survivors|, v.threshold);
        ComputeInner(grow, combinationUpperBound, kept, descendantPermutations, q, originalRoot, survivors);
        kept := kept[v.id := survivors];
        descendantPermutations := descendantPermutations[v.id := groups];
      }
    }

    /** Separates the permutations that have a vertex from those that do not. */
    method Separate(perms: seq<Tree>, id: string) returns (withV: seq<Tree>, withoutV: seq<Tree>)
      ensures withV == With(perms, id) && withoutV == Without(perms, id)
    {
      withV, withoutV := [], [];
      for i := 0 to |perms|
        invariant withV == With(perms[..i], id) && withoutV == Without(perms[..i], id)
      {
        assert perms[..i + 1][..i] == perms[..i];
        if Exists(perms[i], id) {
          withV := withV + [perms[i]];
        } else {
          withoutV := withoutV + [perms[i]];
        }
      }
      assert perms[..|perms|] == perms;
    }

    /** Adds, for one permutation, a copy for each choice of `v`. */
    method AddChoices(perm: Tree, v: TreeVertex, groups: seq<seq<nat>>)
      requires InRange(v, groups)
      modifies this`permutations
      ensures permutations == old(permutations) + ExpandOne(perm, v, groups)
    {
      for x := 0 to |groups|
        invariant permutations == old(permutations) + ExpandOne(perm, v, groups)[..x]
      {
        var newTree := Replace(perm, v.id, Kept(v, groups[x]));
        permutations := permutations + [newTree];
      }
    }

    /** Replaces every permutation that has `v` by one for each choice of `v`. */
    method RewriteAt(v: TreeVertex, groups: seq<seq<nat>>)
      requires InRange(v, groups)
      modifies this`permutations
      ensures permutations == Rewrite(old(permutations), v, groups)
    {
      var withV, withoutV := Separate(permutations, v.id);
      permutations := withoutV;
      for i := 0 to |withV|
        invariant permutations == withoutV + ExpandAll(withV[..i], v, groups)
      {
        AddChoices(withV[i], v, groups);
        ExpandSnoc(withoutV, withV, i, v, groups);
      }
      assert withV[..|withV|] == withV;
    }

    /** The rewriting pass over the pruned tree. */
    method PermutePruned(root: TreeVertex) returns (res: seq<Tree>)
      requires Grows(grow) && UniqueIds(root) && ChosenAt(grow, descendantPermutations, root)
      modifies this`permutations
      ensures PermuteInv(grow, [], res, root)
    {
      permutations := [Clone(root)];
      var it := new BfsIterator(root);
      StartInv(grow, root);
      while true
        invariant fresh(it) && PermuteInv(grow, it.queue, permutations, root)
        decreases TotalSize(it.queue)
      {
        ghost var q := it.queue;
        var next := it.Next();
        if next.None? { break; }
        var v := next.value;
        DequeuedSmaller(q);
        if |v.descendants| == 0 {
          LeafStep(grow, q, permutations, root);
          continue;
        }
        InnerStep(grow, q, permutations, root, descendantPermutations);
        RewriteAt(v, descendantPermutations[v.id]);
      }
      res := permutations;
    }

    method Permute() returns (res: seq<Tree>, ghost pruned: TreeVertex)
      requires Grows(grow) && combinationUpperBound >= 1 && UniqueIds(originalRoot)
      requires kept == map[] && descendantPermutations == map[]
      modifies this
      ensures PrunedFrom(combinationUpperBound, originalRoot, pruned)
      ensures forall t :: t in res <==> IsPermutation(ChosenBy(grow), t, pruned)
      ensures AllExact(grow, pruned) ==> Distinct(res) && ListsRule(res, pruned)
      ensures AllGuarded(grow, combinationUpperBound, originalRoot) ==> Distinct(res) && ListsRule(res, pruned)
      ensures Feasible(originalRoot) ==> (ListsRule(res, pruned) <==> AllExact(grow, pruned))
    {
      ComputeDescendantPermutations();
      var root := PrunedTree(kept, originalRoot);
      pruned := root;
      PrunedTreeOk(grow, combinationUpperBound, kept, descendantPermutations, originalRoot);
      PrunedChosen(grow, combinationUpperBound, kept, descendantPermutations, originalRoot);
      PrunedUnique(combinationUpperBound, originalRoot, root);
      res := PermutePruned(root);
      assert QueueIds([]) == {};
      if AllGuarded(grow, combinationUpperBound, originalRoot) {
        GuardedExact(grow, combinationUpperBound, originalRoot, root);
      }
      if AllExact(grow, root) {
        forall t
          ensures IsPermutation(ChosenBy(grow), t, root) <==> KeepsThreshold(t, root)
        {
          PermutationIsRule(grow, t, root);
        }
      } else if Feasible(originalRoot) {
        FeasiblePruned(combinationUpperBound, originalRoot, root);
        var t := MissingTree(grow, root);
      }
    }
  }

  /** The state of the first pass: all vertices the queue has released are recorded. */
  ghost predicate ComputeInv(grow: Growth, bound: int, kept: map<string, seq<nat>>, chosen: map<string, seq<seq<nat>>>,
                             q: seq<TreeVertex>, root: TreeVertex)
    requires Grows(grow)
  {
    QueueOk(q, root) && AllRecorded(grow, bound, kept, chosen, QueueIds(q), root)
  }

  lemma ComputeLeaf(grow: Growth, bound: int, kept: map<string, seq<nat>>, chosen: map<string, seq<seq<nat>>>,
                    q: seq<TreeVertex>, root: TreeVertex)
    requires Grows(grow) && q != [] && q[0].descendants == [] && ComputeInv(grow, bound, kept, chosen, q, root)
    ensures ComputeInv(grow, bound, kept, chosen, Dequeued(q), root)
  {
    DequeuedOk(q, root);
    HeadIsNext(q, root);
    RecordLeaf(grow, bound, kept, chosen, QueueIds(q), root, q[0]);
  }

  lemma ComputeInner(grow: Growth, bound: int, kept: map<string, seq<nat>>, chosen: map<string, seq<seq<nat>>>,
                     q: seq<TreeVertex>, root: TreeVertex, k: seq<nat>)
    requires Grows(grow) && q != [] && q[0].descendants != [] && ComputeInv(grow, bound, kept, chosen, q, root)
    requires PruneOk(k, |q[0].descendants|, q[0].threshold, bound)
    ensures ComputeInv(grow, bound, kept[q[0].id := k], chosen[q[0].id := Chosen(grow, |k|, q[0].threshold)],
                       Dequeued(q), root)
  {
    DequeuedOk(q, root);
    HeadIsNext(q, root);
    RecordInner(grow, bound, kept, chosen, QueueIds(q), root, q[0], k);
  }

  lemma ExpandSnoc(front: seq<Tree>, ps: seq<Tree>, i: nat, v: TreeVertex, groups: seq<seq<nat>>)
    requires InRange(v, groups) && i < |ps|
    ensures front + ExpandAll(ps[..i], v, groups) + ExpandOne(ps[i], v, groups)
      == front + ExpandAll(ps[..i + 1], v, groups)
  {
    assert ps[..i + 1][..i] == ps[..i];
  }

  /** The state of the rewriting pass: the list holds exactly the trees of the stage given by the queue, each once. */
  ghost predicate PermuteInv(grow: Growth, q: seq<TreeVertex>, perms: seq<Tree>, root: TreeVertex)
    requires Grows(grow)
  {
    && QueueOk(q, root) && Lists(ChosenBy(grow), QueueIds(q), perms, root)
    && (AllExact(grow, root) ==> Distinct(perms))
  }

  lemma StartInv(grow: Growth, root: TreeVertex)
    requires Grows(grow) && UniqueIds(root)
    ensures PermuteInv(grow, [root], [Clone(root)], root)
  {
    StartQueue(root);
    StartLists(ChosenBy(grow), root);
  }

  lemma LeafStep(grow: Growth, q: seq<TreeVertex>, perms: seq<Tree>, root: TreeVertex)
    requires Grows(grow) && q != [] && q[0].descendants == [] && PermuteInv(grow, q, perms, root)
    ensures PermuteInv(grow, Dequeued(q), perms, root)
  {
    DequeuedOk(q, root);
    HeadIsNext(q, root);
    LeafStage(ChosenBy(grow), QueueIds(q), perms, root, q[0]);
  }

  lemma InnerStep(grow: Growth, q: seq<TreeVertex>, perms: seq<Tree>, root: TreeVertex,
                  chosen: map<string, seq<seq<nat>>>)
    requires Grows(grow) && q != [] && q[0].descendants != [] && PermuteInv(grow, q, perms, root)
      && ChosenAt(grow, chosen, root)
    ensures q[0].id in chosen && InRange(q[0], chosen[q[0].id])
    ensures PermuteInv(grow, Dequeued(q), Rewrite(perms, q[0], chosen[q[0].id]), root)
  {
    var v := q[0];
    ChosenBelow(grow, chosen, root, v);
    ChosenValid(grow);
    ChosenInRange(grow, v);
    assert chosen[v.id] == ChosenBy(grow)(|v.descendants|, v.threshold);
    DequeuedOk(q, root);
    HeadIsNext(q, root);
    RewriteStage(ChosenBy(grow), QueueIds(q), perms, root, v);
    if AllExact(grow, root) {
      ExactBelow(grow, root, v);
      ExactDistinct(grow, v);
      RewriteDistinct(ChosenBy(grow), QueueIds(q), perms, root, v);
    }
  }

  lemma StartLists(choose: Choices, root: TreeVertex)
    ensures Lists(choose, VertexIds(root), [Clone(root)], root)
  {
  }

  /** A leaf has nothing to choose. */
  lemma LeafStage(choose: Choices, todo: set<string>, ps: seq<Tree>, root: TreeVertex, v: TreeVertex)
    requires Lists(choose, todo, ps, root) && OnlyAs(root, v) && v.descendants == []
    ensures Lists(choose, todo - {v.id}, ps, root)
  {
    forall t
      ensures Stage(choose, todo, t, root) <==> Stage(choose, todo - {v.id}, t, root)
    {
      LeafStageOf(choose, todo, t, root, v);
    }
  }

  lemma {:induction false} LeafStageOf(choose: Choices, todo: set<string>, t: Tree, u: TreeVertex, v: TreeVertex)
    requires OnlyAs(u, v) && v.descendants == []
    ensures Stage(choose, todo, t, u) <==> Stage(choose, todo - {v.id}, t, u)
    decreases t
  {
    if u.id !in todo && u.descendants != [] {
      forall j, i | 0 <= j < |t.kids| && 0 <= i < |u.descendants|
        ensures Stage(choose, todo, t.kids[j], u.descendants[i]) <==>
          Stage(choose, todo - {v.id}, t.kids[j], u.descendants[i])
      {
        LeafStageOf(choose, todo, t.kids[j], u.descendants[i], v);
      }
      forall c ensures ChoiceStage(choose, todo, t, u, c) <==> ChoiceStage(choose, todo - {v.id}, t, u, c) { }
    }
  }
}
