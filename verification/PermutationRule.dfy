/** Which trees the permutations are to be, and exactly when they are. */
module PermutationRule {
  import opened Choose
  import opened SliceChoose
  import opened TreePermutations
  import opened Pruning

  // ----- the choices of the Go code -----

  ghost function ChosenBy(grow: Growth): Choices
    requires Grows(grow)
  {
    (n, k) => Chosen(grow, n, k)
  }

  lemma ChosenValid(grow: Growth)
    requires Grows(grow)
    ensures ValidChoices(ChosenBy(grow))
  {
    forall n, k, c | c in ChosenBy(grow)(n, k) ensures Increasing(c, n) {
      RecordedSound(grow, n, k, 0, [], 0, c);
      CombosExact(n, k, 0, [], c);
    }
  }

  lemma ChosenInRange(grow: Growth, v: TreeVertex)
    requires Grows(grow)
    ensures InRange(v, Chosen(grow, |v.descendants|, v.threshold))
  {
    var groups := Chosen(grow, |v.descendants|, v.threshold);
    forall x | 0 <= x < |groups| ensures Increasing(groups[x], |v.descendants|) {
      RecordedSound(grow, |v.descendants|, v.threshold, 0, [], 0, groups[x]);
      CombosExact(|v.descendants|, v.threshold, 0, [], groups[x]);
    }
  }

  /** The rule itself, without lists: every kept inner vertex keeps as many of its descendants as its threshold says. */
  ghost predicate KeepsThreshold(t: Tree, v: TreeVertex) {
    && t.id == v.id && t.data == v.data
    && if v.descendants == [] then t.kids == []
       else exists c | Increasing(c, |v.descendants|) && |c| == v.threshold :: KeepsChoice(t, v, c)
  }

  ghost predicate KeepsChoice(t: Tree, v: TreeVertex, c: seq<nat>) {
    |t.kids| == |c|
      && forall j | 0 <= j < |c| :: c[j] < |v.descendants| && KeepsThreshold(t.kids[j], v.descendants[c[j]])
  }

  ghost predicate ListsRule(ts: seq<Tree>, v: TreeVertex) {
    forall t :: t in ts <==> KeepsThreshold(t, v)
  }

  /** Where the enumeration is right, the permutations are the trees of the rule. */
  lemma {:induction false} PermutationIsRule(grow: Growth, t: Tree, v: TreeVertex)
    requires Grows(grow) && AllExact(grow, v)
    ensures IsPermutation(ChosenBy(grow), t, v) <==> KeepsThreshold(t, v)
    decreases t
  {
    if v.descendants != [] {
      var n, k := |v.descendants|, v.threshold;
      ChosenExact(grow, n, k);
      forall j, w | 0 <= j < |t.kids| && AllExact(grow, w)
        ensures Stage(ChosenBy(grow), {}, t.kids[j], w) <==> KeepsThreshold(t.kids[j], w)
      {
        PermutationIsRule(grow, t.kids[j], w);
      }
      forall c ensures ChoiceStage(ChosenBy(grow), {}, t, v, c) <==> KeepsChoice(t, v, c) { }
      forall c ensures c in ChosenBy(grow)(n, k) <==> Increasing(c, n) && |c| == k {
        CombosExact(n, k, 0, [], c);
      }
    }
  }

  // ----- a wrong enumeration misses a tree -----

  ghost function Elements<T(!new)>(s: seq<T>): set<T> {
    set x | x in s
  }

  lemma {:induction false} ElementsCount<T(!new)>(s: seq<T>)
    ensures |Elements(s)| <= |s| && (|Elements(s)| == |s| <==> Distinct(s))
  {
    if s != [] {
      var init, last := s[..|s| - 1], s[|s| - 1];
      ElementsCount(init);
      assert s == init + [last];
      assert Elements(s) == Elements(init) + {last};
      if last in init {
        var i :| 0 <= i < |init| && init[i] == last;
        assert s[i] == s[|init|];
      }
    }
  }

  /** Groups repeat as soon as one is overwritten. */
  lemma {:induction false} DistinctIsExact(grow: Growth, n: nat, k: nat, i: nat, cur: seq<nat>, cap: nat)
    requires Grows(grow) && |cur| <= k && i <= n && |cur| <= cap && Increasing(cur, i)
    ensures Distinct(Recorded(grow, n, k, i, cur, cap)) <==> Recorded(grow, n, k, i, cur, cap) == Combos(n, k, i, cur)
    decreases n - i
  {
    var all := Combos(n, k, i, cur);
    CombosSorted(n, k, i, cur);
    SortedDistinct(all);
    if cap >= k {
      if all != [] { RepeatDistinct(all); }
    } else if k - |cur| <= n - i {
      var cap' := if |cur| < cap then cap else grow(cap);
      DistinctIsExact(grow, n, k, i + 1, cur + [i], cap');
      DistinctIsExact(grow, n, k, i + 1, cur, cap);
      SplitExact(grow, n, k, i, cur, cap);
      if Distinct(Recorded(grow, n, k, i, cur, cap)) {
        DistinctParts(Recorded(grow, n, k, i + 1, cur + [i], cap'), Recorded(grow, n, k, i + 1, cur, cap));
      }
    }
  }

  lemma RepeatDistinct(all: seq<seq<nat>>)
    requires all != [] && Distinct(all)
    ensures Distinct(Repeat(|all|, all[|all| - 1])) <==> Repeat(|all|, all[|all| - 1]) == all
  {
    RepeatIs(all);
    var r := Repeat(|all|, all[|all| - 1]);
    if |all| > 1 { assert r[0] == r[1]; }
  }

  lemma DistinctParts<T>(a: seq<T>, b: seq<T>)
    requires Distinct(a + b)
    ensures Distinct(a) && Distinct(b)
  {
    forall x, y | 0 <= x < y < |a| ensures a[x] != a[y] { assert (a + b)[x] == a[x] && (a + b)[y] == a[y]; }
    forall x, y | 0 <= x < y < |b| ensures b[x] != b[y] {
      assert (a + b)[|a| + x] == b[x] && (a + b)[|a| + y] == b[y];
    }
  }

  /** A wrong enumeration leaves out a group. */
  lemma MissingGroup(grow: Growth, n: nat, k: nat) returns (g: seq<nat>)
    requires Grows(grow) && Chosen(grow, n, k) != Combos(n, k, 0, [])
    ensures Increasing(g, n) && |g| == k && g !in Chosen(grow, n, k)
  {
    var all, chosen := Combos(n, k, 0, []), Chosen(grow, n, k);
    DistinctIsExact(grow, n, k, 0, [], 0);
    RecordedLength(grow, n, k, 0, [], 0);
    CombosSorted(n, k, 0, []);
    SortedDistinct(all);
    ElementsCount(all);
    ElementsCount(chosen);
    g := Escapes(all, chosen);
    CombosExact(n, k, 0, [], g);
  }

  lemma SubsetSize<T>(a: set<T>, b: set<T>)
    requires a <= b
    ensures |a| <= |b|
  {
    assert b == a + (b - a);
  }

  lemma Escapes(all: seq<seq<nat>>, chosen: seq<seq<nat>>) returns (g: seq<nat>)
    requires |Elements(chosen)| < |Elements(all)|
    ensures g in all && g !in chosen
  {
    if Elements(all) <= Elements(chosen) {
      SubsetSize(Elements(all), Elements(chosen));
    }
    g :| g in Elements(all) && g !in Elements(chosen);
  }

  /** A tree of the rule. */
  lemma {:induction false} SomeTree(v: TreeVertex) returns (t: Tree)
    requires Feasible(v)
    ensures KeepsThreshold(t, v)
    decreases v
  {
    if v.descendants == [] {
      t := Tree(v.id, v.data, []);
    } else {
      var c := GroupWith(|v.descendants|, v.threshold, 0);
      t := TreeKeeping(v, c);
    }
  }

  /** A tree of the rule that keeps a given group at the root. */
  lemma {:induction false} TreeKeeping(v: TreeVertex, c: seq<nat>) returns (t: Tree)
    requires Feasible(v) && v.descendants != [] && Increasing(c, |v.descendants|) && |c| == v.threshold
    ensures KeepsThreshold(t, v) && KeepsChoice(t, v, c)
    decreases v, 0
  {
    var kids: seq<Tree> := [];
    while |kids| < |c|
      invariant |kids| <= |c| && forall j | 0 <= j < |kids| :: KeepsThreshold(kids[j], v.descendants[c[j]])
    {
      var next := SomeTree(v.descendants[c[|kids|]]);
      kids := kids + [next];
    }
    t := Tree(v.id, v.data, kids);
    assert KeepsChoice(t, v, c);
  }

  /** The group that a tree keeps at the root is no other. */
  lemma SameChoice(choose: Choices, t: Tree, v: TreeVertex, c: seq<nat>, c': seq<nat>)
    requires UniqueIds(v) && KeepsChoice(t, v, c) && ChoiceStage(choose, {}, t, v, c')
    ensures c == c'
  {
    forall j | 0 <= j < |c| ensures c[j] == c'[j] {
      assert KeepsThreshold(t.kids[j], v.descendants[c[j]]) && Stage(choose, {}, t.kids[j], v.descendants[c'[j]]);
      assert v.descendants[c[j]].id in VertexIds(v.descendants[c[j]]);
      assert v.descendants[c'[j]].id in VertexIds(v.descendants[c'[j]]);
    }
  }

  /** A tree that keeps a group that is not recorded is no permutation. */
  lemma GroupLost(grow: Growth, v: TreeVertex, g: seq<nat>, t: Tree)
    requires Grows(grow) && UniqueIds(v) && v.descendants != [] && KeepsChoice(t, v, g)
    requires g !in Chosen(grow, |v.descendants|, v.threshold)
    ensures !IsPermutation(ChosenBy(grow), t, v)
  {
    if c :| c in Chosen(grow, |v.descendants|, v.threshold) && ChoiceStage(ChosenBy(grow), {}, t, v, c) {
      SameChoice(ChosenBy(grow), t, v, g, c);
    }
  }

  /** Where the enumeration is wrong somewhere, a tree of the rule is no permutation. */
  lemma {:induction false} MissingTree(grow: Growth, v: TreeVertex) returns (t: Tree)
    requires Grows(grow) && UniqueIds(v) && Feasible(v) && !AllExact(grow, v)
    ensures KeepsThreshold(t, v) && !IsPermutation(ChosenBy(grow), t, v)
    decreases v
  {
    var n, k := |v.descendants|, v.threshold;
    if k < n && !LastAppendMoves(grow, k) {
      ChosenExact(grow, n, k);
      var g := MissingGroup(grow, n, k);
      t := TreeKeeping(v, g);
      GroupLost(grow, v, g, t);
    } else {
      var j :| 0 <= j < n && !AllExact(grow, v.descendants[j]);
      var s := MissingTree(grow, v.descendants[j]);
      t := MissingAbove(grow, v, j, s);
    }
  }

  /** A tree that is missing below a descendant is missing below any tree that keeps the descendant. */
  lemma MissingAbove(grow: Growth, v: TreeVertex, member: nat, s: Tree) returns (t: Tree)
    requires Grows(grow) && UniqueIds(v) && Feasible(v) && member < |v.descendants|
    requires KeepsThreshold(s, v.descendants[member]) && !IsPermutation(ChosenBy(grow), s, v.descendants[member])
    ensures KeepsThreshold(t, v) && !IsPermutation(ChosenBy(grow), t, v)
  {
    var c := GroupWith(|v.descendants|, v.threshold, member);
    var x :| 0 <= x < |c| && c[x] == member;
    var t0 := TreeKeeping(v, c);
    t := t0.(kids := t0.kids[x := s]);
    assert KeepsChoice(t, v, c);
    if c' :| c' in Chosen(grow, |v.descendants|, v.threshold) && ChoiceStage(ChosenBy(grow), {}, t, v, c') {
      SameChoice(ChosenBy(grow), t, v, c, c');
    }
  }

  // ----- four out of five -----

  /** Five leaves, of which four are to be kept. */
  ghost predicate FourOfFive(v: TreeVertex) {
    UniqueIds(v) && v.threshold == 4 && |v.descendants| == 5
      && forall j | 0 <= j < 5 :: v.descendants[j].descendants == []
  }

  /** A group that goes on with `i` is recorded, if at all, where `i` is picked. */
  lemma OnlyPicked(grow: Growth, n: nat, k: nat, i: nat, cur: seq<nat>, cap: nat, next: seq<nat>, cap': nat,
                   g: seq<nat>)
    requires Grows(grow) && |cur| < k && k - |cur| <= n - i && |cur| <= cap < k && Increasing(cur, i)
    requires next == cur + [i] && cap' == (if |cur| < cap then cap else grow(cap)) && |g| == k && g[|cur|] == i
    ensures g in Recorded(grow, n, k, i, cur, cap) ==> g in Recorded(grow, n, k, i + 1, next, cap')
  {
    if g in Recorded(grow, n, k, i + 1, cur, cap) {
      RecordedSound(grow, n, k, i + 1, cur, cap, g);
      CombosExact(n, k, i + 1, cur, g);
    }
  }

  lemma LostAfterTwo(n: nat, k: nat, g: seq<nat>)
    requires n == 5 && k == 4 && g == [0, 1, 2, 3]
    ensures Grows(Doubling) && g !in Recorded(Doubling, n, k, 2, [0, 1], 2)
  {
    LastTwo();
    OnlyPicked(Doubling, n, k, 2, [0, 1], 2, [0, 1, 2], 4, g);
  }

  lemma LostAfterOne(n: nat, k: nat, g: seq<nat>)
    requires n == 5 && k == 4 && g == [0, 1, 2, 3]
    ensures Grows(Doubling) && g !in Recorded(Doubling, n, k, 1, [0], 1)
  {
    LostAfterTwo(n, k, g);
    OnlyPicked(Doubling, n, k, 1, [0], 1, [0, 1], 2, g);
  }

  lemma LostAtStart(n: nat, k: nat, cur: seq<nat>, g: seq<nat>)
    requires n == 5 && k == 4 && cur == [] && g == [0, 1, 2, 3]
    ensures Grows(Doubling) && g !in Recorded(Doubling, n, k, 0, cur, 0)
  {
    LostAfterOne(n, k, g);
    OnlyPicked(Doubling, n, k, 0, cur, 0, [0], 1, g);
  }

  /** The group {0, 1, 2, 3} is recorded nowhere. */
  lemma FirstGroupLost(n: nat, k: nat, g: seq<nat>)
    requires n == 5 && k == 4 && g == [0, 1, 2, 3]
    ensures Grows(Doubling) && g !in Chosen(Doubling, n, k)
  {
    LostAtStart(n, k, [], g);
  }

  /** With room for five combinations nothing is pruned. */
  lemma NonePruned(bound: int, v: TreeVertex, p: TreeVertex)
    requires bound >= 5 && FourOfFive(v) && PrunedFrom(bound, v, p)
    ensures p == v
  {
    BinomialAtLeast(5, 4);
    assert PruneSize(5, 4, bound) == 5;
    var kept :| |kept| == |p.descendants| && PrunedBy(bound, v, p, kept);
    AllKept(kept, 5);
    forall j | 0 <= j < 5 ensures p.descendants[j] == v.descendants[j] {
      assert PrunedFrom(bound, v.descendants[kept[j]], p.descendants[j]);
      LeafPruned(bound, v.descendants[j], p.descendants[j]);
    }
    assert p.descendants == v.descendants;
  }

  /** With doubling and a bound of five or more, permuting never finds the tree of the first four leaves. */
  lemma FourOfFiveLeaves(bound: int, v: TreeVertex, p: TreeVertex, g: seq<nat>)
    requires bound >= 5 && FourOfFive(v) && PrunedFrom(bound, v, p) && g == [0, 1, 2, 3]
    ensures Grows(Doubling) && Feasible(v)
    ensures var t := Tree(v.id, v.data, Kept(v, g)); KeepsThreshold(t, p) && !IsPermutation(ChosenBy(Doubling), t, p)
  {
    NonePruned(bound, v, p);
    FirstLeavesLost(v, |v.descendants|, v.threshold, g);
  }

  lemma FirstLeavesLost(v: TreeVertex, n: nat, k: nat, g: seq<nat>)
    requires n == 5 && k == 4 && g == [0, 1, 2, 3] && UniqueIds(v) && |v.descendants| == n && v.threshold == k
    requires forall j | 0 <= j < n :: v.descendants[j].descendants == []
    ensures Grows(Doubling) && Increasing(g, n)
    ensures var t := Tree(v.id, v.data, Kept(v, g)); KeepsThreshold(t, v) && !IsPermutation(ChosenBy(Doubling), t, v)
  {
    FirstGroupLost(n, k, g);
    LeavesLost(Doubling, v, g);
  }

  lemma LeavesLost(grow: Growth, v: TreeVertex, g: seq<nat>)
    requires Grows(grow) && UniqueIds(v) && Increasing(g, |v.descendants|) && |g| == v.threshold && v.descendants != []
    requires forall j | 0 <= j < |v.descendants| :: v.descendants[j].descendants == []
    requires g !in Chosen(grow, |v.descendants|, v.threshold)
    ensures var t := Tree(v.id, v.data, Kept(v, g)); KeepsThreshold(t, v) && !IsPermutation(ChosenBy(grow), t, v)
  {
    var t := Tree(v.id, v.data, Kept(v, g));
    assert KeepsChoice(t, v, g);
    GroupLost(grow, v, g, t);
  }

  lemma LeafPruned(bound: int, v: TreeVertex, p: TreeVertex)
    requires PrunedFrom(bound, v, p) && v.descendants == []
    ensures p == v
  {
    var kept :| |kept| == |p.descendants| && PrunedBy(bound, v, p, kept);
    assert kept == [] && p.descendants == [];
  }

  lemma {:induction false} AllKept(kept: seq<nat>, n: nat)
    requires Increasing(kept, n) && |kept| == n
    ensures forall j | 0 <= j < n :: kept[j] == j
  {
    if n > 0 {
      forall j | 0 <= j < n ensures j <= kept[j] <= j { AtPlace(kept, n, j); }
    }
  }

  lemma {:induction false} AtPlace(kept: seq<nat>, n: nat, j: nat)
    requires Increasing(kept, n) && |kept| == n && j < n
    ensures kept[j] == j
    decreases n
  {
    if j < n - 1 {
      assert kept[n - 2] < kept[n - 1] < n;
      assert forall a | 0 <= a < n - 1 :: kept[a] <= kept[n - 2];
      AtPlace(kept[..n - 1], n - 1, j);
    } else if n > 1 {
      AtPlace(kept[..n - 1], n - 1, n - 2);
    }
  }
}
