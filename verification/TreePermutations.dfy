/** Permutations of a tree: the breadth-first rewriting against the recursive rule. */
module TreePermutations {
  import opened Wrappers
  import opened Choose

  datatype TreeVertex = TreeVertex(id: string, data: string, descendants: seq<TreeVertex>, threshold: nat)

  /** A permutation: the vertices without their thresholds, which cloning drops. */
  datatype Tree = Tree(id: string, data: string, kids: seq<Tree>)

  function Clone(v: TreeVertex): Tree {
    Tree(v.id, v.data, CloneAll(v.descendants))
  }

  function CloneAll(vs: seq<TreeVertex>): (ts: seq<Tree>)
    ensures |ts| == |vs| && forall j | 0 <= j < |vs| :: ts[j] == Clone(vs[j])
  {
    if vs == [] then [] else [Clone(vs[0])] + CloneAll(vs[1..])
  }

  /** The first vertex with the id, depth first. */
  function Find(t: Tree, id: string): Option<Tree> {
    if t.id == id then Some(t) else FindIn(t.kids, id)
  }

  function FindIn(ts: seq<Tree>, id: string): Option<Tree> {
    if ts == [] then None
    else
      var r := Find(ts[0], id);
      if r.Some? then r else FindIn(ts[1..], id)
  }

  function Exists(t: Tree, id: string): bool {
    Find(t, id).Some?
  }

  /** The tree with the descendants of every vertex of that id replaced. */
  function Replace(t: Tree, id: string, kids: seq<Tree>): Tree {
    if t.id == id then t.(kids := kids) else t.(kids := ReplaceIn(t.kids, id, kids))
  }

  function ReplaceIn(ts: seq<Tree>, id: string, kids: seq<Tree>): (r: seq<Tree>)
    ensures |r| == |ts| && forall j | 0 <= j < |ts| :: r[j] == Replace(ts[j], id, kids)
  {
    if ts == [] then [] else [Replace(ts[0], id, kids)] + ReplaceIn(ts[1..], id, kids)
  }

  // ----- ids -----

  ghost function Ids(t: Tree): set<string> {
    {t.id} + set j, x | 0 <= j < |t.kids| && x in Ids(t.kids[j]) :: x
  }

  ghost function VertexIds(v: TreeVertex): set<string> {
    {v.id} + set j, x | 0 <= j < |v.descendants| && x in VertexIds(v.descendants[j]) :: x
  }

  /** Every id identifies one vertex. */
  ghost predicate UniqueIds(v: TreeVertex) {
    && (forall j | 0 <= j < |v.descendants| :: v.id !in VertexIds(v.descendants[j]) && UniqueIds(v.descendants[j]))
    && (forall a, b | 0 <= a < b < |v.descendants| :: VertexIds(v.descendants[a]) !! VertexIds(v.descendants[b]))
  }

  lemma {:induction false} FindIsMembership(t: Tree, id: string)
    ensures Exists(t, id) <==> id in Ids(t)
    decreases t, 1
  {
    if t.id != id { FindInIsMembership(t.kids, id); }
  }

  lemma {:induction false} FindInIsMembership(ts: seq<Tree>, id: string)
    ensures FindIn(ts, id).Some? <==> exists j | 0 <= j < |ts| :: id in Ids(ts[j])
    decreases ts, 0
  {
    if ts != [] {
      FindIsMembership(ts[0], id);
      FindInIsMembership(ts[1..], id);
      assert forall j | 1 <= j < |ts| :: ts[j] == ts[1..][j - 1];
    }
  }

  // ----- the recursive rule -----

  /** How many of n descendants, by index, a vertex of a given threshold may keep. */
  type Choices = (nat, nat) -> seq<seq<nat>>

  ghost predicate ValidChoices(choose: Choices) {
    forall n, k, c | c in choose(n, k) :: Increasing(c, n)
  }

  function Select(v: TreeVertex, c: seq<nat>): (r: seq<TreeVertex>)
    requires forall j | 0 <= j < |c| :: c[j] < |v.descendants|
    ensures |r| == |c| && forall j | 0 <= j < |c| :: r[j] == v.descendants[c[j]]
  {
    seq(|c|, j requires 0 <= j < |c| => v.descendants[c[j]])
  }

  /** `t` arises from `v` when the vertices outside `todo` have made their
      choice and those in `todo` are still whole. */
  ghost predicate Stage(choose: Choices, todo: set<string>, t: Tree, v: TreeVertex) {
    && t.id == v.id && t.data == v.data
    && if v.id in todo || v.descendants == [] then t == Clone(v)
       else exists c | c in choose(|v.descendants|, v.threshold) :: ChoiceStage(choose, todo, t, v, c)
  }

  ghost predicate ChoiceStage(choose: Choices, todo: set<string>, t: Tree, v: TreeVertex, c: seq<nat>) {
    |t.kids| == |c|
      && forall j | 0 <= j < |c| :: c[j] < |v.descendants| && Stage(choose, todo, t.kids[j], v.descendants[c[j]])
  }

  /** Keep the root; at every kept inner vertex keep one choice of its descendants. */
  ghost predicate IsPermutation(choose: Choices, t: Tree, v: TreeVertex) {
    Stage(choose, {}, t, v)
  }

  lemma {:induction false} StageIds(choose: Choices, todo: set<string>, t: Tree, v: TreeVertex)
    requires Stage(choose, todo, t, v)
    ensures Ids(t) <= VertexIds(v)
    decreases t
  {
    if v.id in todo || v.descendants == [] {
      CloneIds(v);
    } else {
      var c :| c in choose(|v.descendants|, v.threshold) && ChoiceStage(choose, todo, t, v, c);
      forall j | 0 <= j < |t.kids| ensures Ids(t.kids[j]) <= VertexIds(v) {
        StageIds(choose, todo, t.kids[j], v.descendants[c[j]]);
      }
    }
  }

  lemma {:induction false} CloneIds(v: TreeVertex)
    ensures Ids(Clone(v)) == VertexIds(v)
  {
    forall j | 0 <= j < |v.descendants| ensures Ids(Clone(v).kids[j]) == VertexIds(v.descendants[j]) {
      CloneIds(v.descendants[j]);
    }
  }

  lemma {:induction false} ReplaceAbsent(t: Tree, id: string, kids: seq<Tree>)
    requires id !in Ids(t)
    ensures Replace(t, id, kids) == t
  {
    forall j | 0 <= j < |t.kids| ensures Replace(t.kids[j], id, kids) == t.kids[j] {
      ReplaceAbsent(t.kids[j], id, kids);
    }
    assert ReplaceIn(t.kids, id, kids) == t.kids;
  }

  lemma {:induction false} ReplaceTwice(t: Tree, id: string, kids: seq<Tree>, kids': seq<Tree>)
    ensures Replace(Replace(t, id, kids), id, kids') == Replace(t, id, kids')
  {
    if t.id != id {
      forall j | 0 <= j < |t.kids|
        ensures Replace(Replace(t.kids[j], id, kids), id, kids') == Replace(t.kids[j], id, kids')
      {
        ReplaceTwice(t.kids[j], id, kids, kids');
      }
      assert ReplaceIn(ReplaceIn(t.kids, id, kids), id, kids') == ReplaceIn(t.kids, id, kids');
    }
  }

  lemma {:induction false} ReplaceKeepsVertex(t: Tree, id: string, kids: seq<Tree>)
    requires id in Ids(t)
    ensures id in Ids(Replace(t, id, kids))
  {
    if t.id != id {
      var j :| 0 <= j < |t.kids| && id in Ids(t.kids[j]);
      ReplaceKeepsVertex(t.kids[j], id, kids);
      assert Replace(t, id, kids).kids[j] == Replace(t.kids[j], id, kids);
    }
  }

  lemma {:induction false} ReplaceInjective(t: Tree, id: string, kids: seq<Tree>, kids': seq<Tree>)
    requires id in Ids(t) && Replace(t, id, kids) == Replace(t, id, kids')
    ensures kids == kids'
  {
    if t.id != id {
      var j :| 0 <= j < |t.kids| && id in Ids(t.kids[j]);
      assert Replace(t, id, kids).kids[j] == Replace(t, id, kids').kids[j];
      ReplaceInjective(t.kids[j], id, kids, kids');
    }
  }

  // ----- one rewriting step -----

  /** Any vertex of `u` that bears the id of `v` is `v`. */
  ghost predicate OnlyAs(u: TreeVertex, v: TreeVertex) {
    (u.id == v.id ==> u == v) && forall j | 0 <= j < |u.descendants| :: OnlyAs(u.descendants[j], v)
  }

  /** The vertices of `u` above `v` have made their choice. */
  ghost predicate Frontier(todo: set<string>, u: TreeVertex, v: TreeVertex) {
    && (u.id != v.id && v.id in VertexIds(u) ==> u.id !in todo)
    && forall j | 0 <= j < |u.descendants| :: Frontier(todo, u.descendants[j], v)
  }

  /** `v` is next: it and all below it are still whole, everything above it has chosen. */
  ghost predicate IsNext(todo: set<string>, root: TreeVertex, v: TreeVertex) {
    && UniqueIds(v) && VertexIds(v) <= todo
    && OnlyAs(root, v) && Frontier(todo, root, v)
  }

  function Kept(v: TreeVertex, c: seq<nat>): seq<Tree>
    requires forall j | 0 <= j < |c| :: c[j] < |v.descendants|
  {
    CloneAll(Select(v, c))
  }

  lemma {:induction false} StageAbsent(choose: Choices, todo: set<string>, id: string, t: Tree, u: TreeVertex)
    requires id !in Ids(t)
    ensures Stage(choose, todo, t, u) <==> Stage(choose, todo - {id}, t, u)
    decreases t
  {
    if u.id !in todo && u.descendants != [] {
      forall j, w | 0 <= j < |t.kids|
        ensures Stage(choose, todo, t.kids[j], w) <==> Stage(choose, todo - {id}, t.kids[j], w)
      {
        StageAbsent(choose, todo, id, t.kids[j], w);
      }
      forall c ensures ChoiceStage(choose, todo, t, u, c) <==> ChoiceStage(choose, todo - {id}, t, u, c) { }
    }
  }

  /** Once `v` is done, its chosen descendants are still whole. */
  lemma ChosenStage(choose: Choices, todo: set<string>, v: TreeVertex, c: seq<nat>)
    requires UniqueIds(v) && VertexIds(v) <= todo && v.descendants != []
    requires c in choose(|v.descendants|, v.threshold) && Increasing(c, |v.descendants|)
    ensures Stage(choose, todo - {v.id}, Tree(v.id, v.data, Kept(v, c)), v)
  {
    assert ChoiceStage(choose, todo - {v.id}, Tree(v.id, v.data, Kept(v, c)), v, c);
  }

  /** Letting `v` choose in a tree where it was whole. */
  lemma {:induction false} StageChoose(choose: Choices, todo: set<string>, t: Tree, u: TreeVertex, v: TreeVertex,
                                       c: seq<nat>)
    requires Stage(choose, todo, t, u) && v.id in Ids(t) && IsNext(todo, u, v) && v.descendants != []
    requires c in choose(|v.descendants|, v.threshold) && Increasing(c, |v.descendants|)
    ensures Stage(choose, todo - {v.id}, Replace(t, v.id, Kept(v, c)), u)
    decreases t
  {
    StageIds(choose, todo, t, u);
    if t.id == v.id {
      ChosenStage(choose, todo, v, c);
    } else {
      var t' := Replace(t, v.id, Kept(v, c));
      var c0 :| c0 in choose(|u.descendants|, u.threshold) && ChoiceStage(choose, todo, t, u, c0);
      forall j | 0 <= j < |t.kids| ensures Stage(choose, todo - {v.id}, t'.kids[j], u.descendants[c0[j]]) {
        if v.id in Ids(t.kids[j]) {
          StageChoose(choose, todo, t.kids[j], u.descendants[c0[j]], v, c);
        } else {
          ReplaceAbsent(t.kids[j], v.id, Kept(v, c));
          StageAbsent(choose, todo, v.id, t.kids[j], u.descendants[c0[j]]);
        }
      }
      assert ChoiceStage(choose, todo - {v.id}, t', u, c0);
    }
  }

  /** In a tree where `v` is whole, `v` has all its descendants. */
  lemma {:induction false} StageWhole(choose: Choices, todo: set<string>, t: Tree, u: TreeVertex, v: TreeVertex)
    requires Stage(choose, todo, t, u) && v.id in Ids(t) && IsNext(todo, u, v)
    ensures Replace(t, v.id, CloneAll(v.descendants)) == t
    decreases t
  {
    StageIds(choose, todo, t, u);
    if t.id != v.id {
      var c0 :| c0 in choose(|u.descendants|, u.threshold) && ChoiceStage(choose, todo, t, u, c0);
      forall j | 0 <= j < |t.kids| ensures Replace(t.kids[j], v.id, CloneAll(v.descendants)) == t.kids[j] {
        if v.id in Ids(t.kids[j]) {
          StageWhole(choose, todo, t.kids[j], u.descendants[c0[j]], v);
        } else {
          ReplaceAbsent(t.kids[j], v.id, CloneAll(v.descendants));
        }
      }
      assert ReplaceIn(t.kids, v.id, CloneAll(v.descendants)) == t.kids;
    }
  }

  lemma StageUndoHere(choose: Choices, todo: set<string>, t: Tree, v: TreeVertex) returns (c: seq<nat>)
    requires Stage(choose, todo - {v.id}, t, v) && v.descendants != [] && ValidChoices(choose)
    requires UniqueIds(v) && VertexIds(v) <= todo
    ensures c in choose(|v.descendants|, v.threshold) && Increasing(c, |v.descendants|)
    ensures Replace(t, v.id, Kept(v, c)) == t
    ensures Stage(choose, todo, Replace(t, v.id, CloneAll(v.descendants)), v)
  {
    c :| c in choose(|v.descendants|, v.threshold) && ChoiceStage(choose, todo - {v.id}, t, v, c);
    forall j | 0 <= j < |c| ensures t.kids[j] == Clone(v.descendants[c[j]]) {
      assert v.descendants[c[j]].id in VertexIds(v.descendants[c[j]]);
      assert Stage(choose, todo - {v.id}, t.kids[j], v.descendants[c[j]]);
    }
    assert t.kids == Kept(v, c);
  }

  /** A tree where `v` has chosen arises from one where `v` is whole. */
  lemma {:induction false} StageUndo(choose: Choices, todo: set<string>, t: Tree, u: TreeVertex, v: TreeVertex)
    returns (c: seq<nat>)
    requires Stage(choose, todo - {v.id}, t, u) && v.id in Ids(t) && IsNext(todo, u, v) && v.descendants != []
    requires UniqueIds(u) && ValidChoices(choose)
    ensures c in choose(|v.descendants|, v.threshold) && Increasing(c, |v.descendants|)
    ensures Replace(t, v.id, Kept(v, c)) == t
    ensures Stage(choose, todo, Replace(t, v.id, CloneAll(v.descendants)), u)
    decreases t
  {
    StageIds(choose, todo - {v.id}, t, u);
    if t.id == v.id {
      c := StageUndoHere(choose, todo, t, v);
    } else {
      var c0 :| c0 in choose(|u.descendants|, u.threshold) && ChoiceStage(choose, todo - {v.id}, t, u, c0);
      var k :| 0 <= k < |t.kids| && v.id in Ids(t.kids[k]);
      c := StageUndo(choose, todo, t.kids[k], u.descendants[c0[k]], v);
      StageUndoRest(choose, todo, t, u, v, c, c0, k);
    }
  }

  lemma StageUndoRest(choose: Choices, todo: set<string>, t: Tree, u: TreeVertex, v: TreeVertex, c: seq<nat>,
                      c0: seq<nat>, k: nat)
    requires t.id == u.id != v.id && t.data == u.data && u.id !in todo && u.descendants != [] && UniqueIds(u)
    requires c0 in choose(|u.descendants|, u.threshold) && Increasing(c0, |u.descendants|)
    requires ChoiceStage(choose, todo - {v.id}, t, u, c0) && k < |t.kids| && v.id in Ids(t.kids[k])
    requires Increasing(c, |v.descendants|) && Replace(t.kids[k], v.id, Kept(v, c)) == t.kids[k]
    requires Stage(choose, todo, Replace(t.kids[k], v.id, CloneAll(v.descendants)), u.descendants[c0[k]])
    ensures Replace(t, v.id, Kept(v, c)) == t
    ensures Stage(choose, todo, Replace(t, v.id, CloneAll(v.descendants)), u)
  {
    StageIds(choose, todo - {v.id}, t.kids[k], u.descendants[c0[k]]);
    forall j | 0 <= j < |t.kids| && j != k ensures v.id !in Ids(t.kids[j]) {
      StageIds(choose, todo - {v.id}, t.kids[j], u.descendants[c0[j]]);
    }
    var t' := Replace(t, v.id, CloneAll(v.descendants));
    forall j | 0 <= j < |t.kids|
      ensures Replace(t.kids[j], v.id, Kept(v, c)) == t.kids[j] && Stage(choose, todo, t'.kids[j], u.descendants[c0[j]])
    {
      if j != k {
        ReplaceAbsent(t.kids[j], v.id, Kept(v, c));
        ReplaceAbsent(t.kids[j], v.id, CloneAll(v.descendants));
        StageAbsent(choose, todo, v.id, t.kids[j], u.descendants[c0[j]]);
      }
    }
    assert ReplaceIn(t.kids, v.id, Kept(v, c)) == t.kids;
    assert ChoiceStage(choose, todo, t', u, c0);
  }

  // ----- rewriting the list of permutations -----

  function Without(ps: seq<Tree>, id: string): seq<Tree> {
    if ps == [] then [] else Without(ps[..|ps| - 1], id) + (if Exists(ps[|ps| - 1], id) then [] else [ps[|ps| - 1]])
  }

  function With(ps: seq<Tree>, id: string): seq<Tree> {
    if ps == [] then [] else With(ps[..|ps| - 1], id) + (if Exists(ps[|ps| - 1], id) then [ps[|ps| - 1]] else [])
  }

  predicate InRange(v: TreeVertex, cs: seq<seq<nat>>) {
    forall x | 0 <= x < |cs| :: Increasing(cs[x], |v.descendants|)
  }

  function ExpandOne(p: Tree, v: TreeVertex, cs: seq<seq<nat>>): (r: seq<Tree>)
    requires InRange(v, cs)
    ensures |r| == |cs| && forall x | 0 <= x < |cs| :: r[x] == Replace(p, v.id, Kept(v, cs[x]))
  {
    seq(|cs|, x requires 0 <= x < |cs| => Replace(p, v.id, Kept(v, cs[x])))
  }

  function ExpandAll(ps: seq<Tree>, v: TreeVertex, cs: seq<seq<nat>>): seq<Tree>
    requires InRange(v, cs)
  {
    if ps == [] then [] else ExpandAll(ps[..|ps| - 1], v, cs) + ExpandOne(ps[|ps| - 1], v, cs)
  }

  /** The permutations without `v` stay; each one with `v` gives way to one for every choice of `v`. */
  function Rewrite(ps: seq<Tree>, v: TreeVertex, cs: seq<seq<nat>>): seq<Tree>
    requires InRange(v, cs)
  {
    Without(ps, v.id) + ExpandAll(With(ps, v.id), v, cs)
  }

  lemma {:induction false} Partition(ps: seq<Tree>, id: string, t: Tree)
    ensures t in Without(ps, id) <==> t in ps && !Exists(t, id)
    ensures t in With(ps, id) <==> t in ps && Exists(t, id)
    ensures Distinct(ps) ==> Distinct(Without(ps, id)) && Distinct(With(ps, id))
  {
    if ps != [] {
      var init, last := ps[..|ps| - 1], ps[|ps| - 1];
      assert ps == init + [last];
      Partition(init, id, t);
      Partition(init, id, last);
      if Distinct(ps) {
        assert Distinct(init) && last !in init;
      }
    }
  }

  lemma {:induction false} ExpandHas(ps: seq<Tree>, v: TreeVertex, cs: seq<seq<nat>>, a: nat, x: nat)
    requires InRange(v, cs) && a < |ps| && x < |cs|
    ensures Replace(ps[a], v.id, Kept(v, cs[x])) in ExpandAll(ps, v, cs)
  {
    if a < |ps| - 1 {
      ExpandHas(ps[..|ps| - 1], v, cs, a, x);
    } else {
      assert ExpandOne(ps[a], v, cs)[x] == Replace(ps[a], v.id, Kept(v, cs[x]));
    }
  }

  lemma {:induction false} ExpandFrom(ps: seq<Tree>, v: TreeVertex, cs: seq<seq<nat>>, t: Tree) returns (a: nat, x: nat)
    requires InRange(v, cs) && t in ExpandAll(ps, v, cs)
    ensures a < |ps| && x < |cs| && t == Replace(ps[a], v.id, Kept(v, cs[x]))
  {
    var init := ps[..|ps| - 1];
    if t in ExpandAll(init, v, cs) {
      a, x := ExpandFrom(init, v, cs, t);
    } else {
      a := |ps| - 1;
      x :| 0 <= x < |cs| && ExpandOne(ps[a], v, cs)[x] == t;
    }
  }

  /** The list holds exactly the trees of a stage. */
  ghost predicate Lists(choose: Choices, todo: set<string>, ps: seq<Tree>, root: TreeVertex) {
    forall t :: t in ps <==> Stage(choose, todo, t, root)
  }

  /** Rewriting at the next vertex takes the list from one stage to the next. */
  lemma RewriteStage(choose: Choices, todo: set<string>, ps: seq<Tree>, root: TreeVertex, v: TreeVertex)
    requires ValidChoices(choose) && UniqueIds(root) && IsNext(todo, root, v) && v.descendants != []
    requires Lists(choose, todo, ps, root) && InRange(v, choose(|v.descendants|, v.threshold))
    ensures Lists(choose, todo - {v.id}, Rewrite(ps, v, choose(|v.descendants|, v.threshold)), root)
  {
    var cs := choose(|v.descendants|, v.threshold);
    forall t ensures t in Rewrite(ps, v, cs) <==> Stage(choose, todo - {v.id}, t, root) {
      Partition(ps, v.id, t);
      FindIsMembership(t, v.id);
      StageAbsentIf(choose, todo, v.id, t, root);
      if t in ExpandAll(With(ps, v.id), v, cs) {
        ExpandedStage(choose, todo, ps, root, v, t);
      }
      if v.id in Ids(t) && Stage(choose, todo - {v.id}, t, root) {
        StageExpanded(choose, todo, ps, root, v, t);
      }
    }
  }

  lemma StageAbsentIf(choose: Choices, todo: set<string>, id: string, t: Tree, u: TreeVertex)
    ensures id !in Ids(t) ==> (Stage(choose, todo, t, u) <==> Stage(choose, todo - {id}, t, u))
  {
    if id !in Ids(t) { StageAbsent(choose, todo, id, t, u); }
  }

  lemma ExpandedStage(choose: Choices, todo: set<string>, ps: seq<Tree>, root: TreeVertex, v: TreeVertex, t: Tree)
    requires ValidChoices(choose) && IsNext(todo, root, v) && v.descendants != [] && Lists(choose, todo, ps, root)
    requires InRange(v, choose(|v.descendants|, v.threshold))
    requires t in ExpandAll(With(ps, v.id), v, choose(|v.descendants|, v.threshold))
    ensures Stage(choose, todo - {v.id}, t, root) && v.id in Ids(t)
  {
    var cs := choose(|v.descendants|, v.threshold);
    var a, x := ExpandFrom(With(ps, v.id), v, cs, t);
    var p := With(ps, v.id)[a];
    Partition(ps, v.id, p);
    FindIsMembership(p, v.id);
    StageChoose(choose, todo, p, root, v, cs[x]);
    ReplaceKeepsVertex(p, v.id, Kept(v, cs[x]));
  }

  lemma StageExpanded(choose: Choices, todo: set<string>, ps: seq<Tree>, root: TreeVertex, v: TreeVertex, t: Tree)
    requires ValidChoices(choose) && UniqueIds(root) && IsNext(todo, root, v) && v.descendants != []
      && Lists(choose, todo, ps, root)
    requires InRange(v, choose(|v.descendants|, v.threshold))
    requires v.id in Ids(t) && Stage(choose, todo - {v.id}, t, root)
    ensures t in ExpandAll(With(ps, v.id), v, choose(|v.descendants|, v.threshold))
  {
    var cs := choose(|v.descendants|, v.threshold);
    var c := StageUndo(choose, todo, t, root, v);
    var p := Replace(t, v.id, CloneAll(v.descendants));
    ReplaceKeepsVertex(t, v.id, CloneAll(v.descendants));
    FindIsMembership(p, v.id);
    Partition(ps, v.id, p);
    ReplaceTwice(t, v.id, CloneAll(v.descendants), Kept(v, c));
    var a :| 0 <= a < |With(ps, v.id)| && With(ps, v.id)[a] == p;
    var x :| 0 <= x < |cs| && cs[x] == c;
    ExpandHas(With(ps, v.id), v, cs, a, x);
  }

  /** Different choices of a vertex keep different descendants. */
  lemma KeptInjective(v: TreeVertex, c: seq<nat>, c': seq<nat>)
    requires UniqueIds(v) && Increasing(c, |v.descendants|) && Increasing(c', |v.descendants|)
    requires Kept(v, c) == Kept(v, c')
    ensures c == c'
  {
    forall j | 0 <= j < |c| ensures c[j] == c'[j] {
      assert Kept(v, c)[j].id == v.descendants[c[j]].id && Kept(v, c')[j].id == v.descendants[c'[j]].id;
      assert v.descendants[c[j]].id in VertexIds(v.descendants[c[j]]);
    }
  }

  /** Rewriting two permutations, or one by two choices, gives two permutations. */
  lemma ExpandedDiffer(choose: Choices, todo: set<string>, root: TreeVertex, v: TreeVertex, p: Tree, p': Tree,
                       c: seq<nat>, c': seq<nat>)
    requires IsNext(todo, root, v) && Stage(choose, todo, p, root) && Stage(choose, todo, p', root)
    requires v.id in Ids(p) && v.id in Ids(p') && Increasing(c, |v.descendants|) && Increasing(c', |v.descendants|)
    requires Replace(p, v.id, Kept(v, c)) == Replace(p', v.id, Kept(v, c'))
    ensures p == p' && c == c'
  {
    var whole := CloneAll(v.descendants);
    StageWhole(choose, todo, p, root, v);
    StageWhole(choose, todo, p', root, v);
    ReplaceTwice(p, v.id, Kept(v, c), whole);
    ReplaceTwice(p', v.id, Kept(v, c'), whole);
    ReplaceInjective(p, v.id, Kept(v, c), Kept(v, c'));
    KeptInjective(v, c, c');
  }

  ghost predicate AllAt(choose: Choices, todo: set<string>, ps: seq<Tree>, root: TreeVertex, id: string) {
    forall a | 0 <= a < |ps| :: Stage(choose, todo, ps[a], root) && id in Ids(ps[a])
  }

  lemma {:induction false} ExpandDistinct(choose: Choices, todo: set<string>, ps: seq<Tree>, root: TreeVertex,
                                          v: TreeVertex, cs: seq<seq<nat>>)
    requires IsNext(todo, root, v) && InRange(v, cs) && Distinct(cs) && Distinct(ps)
      && AllAt(choose, todo, ps, root, v.id)
    ensures Distinct(ExpandAll(ps, v, cs))
  {
    if ps != [] {
      var init, last := ps[..|ps| - 1], ps[|ps| - 1];
      ExpandDistinct(choose, todo, init, root, v, cs);
      var front, back := ExpandAll(init, v, cs), ExpandOne(last, v, cs);
      forall x, y | 0 <= x < y < |back| ensures back[x] != back[y] {
        if back[x] == back[y] { ExpandedDiffer(choose, todo, root, v, last, last, cs[x], cs[y]); }
      }
      forall x, y | 0 <= x < |front| && 0 <= y < |back| ensures front[x] != back[y] {
        var a, z := ExpandFrom(init, v, cs, front[x]);
        if front[x] == back[y] { ExpandedDiffer(choose, todo, root, v, init[a], last, cs[z], cs[y]); }
      }
      DistinctConcat(front, back);
    }
  }

  lemma DistinctConcat<T>(a: seq<T>, b: seq<T>)
    requires Distinct(a) && Distinct(b) && forall x, y | 0 <= x < |a| && 0 <= y < |b| :: a[x] != b[y]
    ensures Distinct(a + b)
  {
  }

  /** Rewriting repeats nothing, if no choice is repeated. */
  lemma RewriteDistinct(choose: Choices, todo: set<string>, ps: seq<Tree>, root: TreeVertex, v: TreeVertex)
    requires ValidChoices(choose) && IsNext(todo, root, v) && v.descendants != [] && Lists(choose, todo, ps, root)
    requires InRange(v, choose(|v.descendants|, v.threshold))
    requires Distinct(choose(|v.descendants|, v.threshold)) && Distinct(ps)
    ensures Distinct(Rewrite(ps, v, choose(|v.descendants|, v.threshold)))
  {
    var cs, with, without := choose(|v.descendants|, v.threshold), With(ps, v.id), Without(ps, v.id);
    forall a | 0 <= a < |with| ensures Stage(choose, todo, with[a], root) && v.id in Ids(with[a]) {
      Partition(ps, v.id, with[a]);
      FindIsMembership(with[a], v.id);
    }
    if with == [] {
      if without != [] { Partition(ps, v.id, without[0]); }
      assert Rewrite(ps, v, cs) == without;
    } else {
      Partition(ps, v.id, with[0]);
      ExpandDistinct(choose, todo, with, root, v, cs);
      var expanded := ExpandAll(with, v, cs);
      forall x, y | 0 <= x < |without| && 0 <= y < |expanded| ensures without[x] != expanded[y] {
        ExpandedStage(choose, todo, ps, root, v, expanded[y]);
        Partition(ps, v.id, without[x]);
        FindIsMembership(without[x], v.id);
      }
      DistinctConcat(without, expanded);
    }
  }
}
