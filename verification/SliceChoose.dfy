/** The recursive choice as the Go code runs it: `append` writes into a backing array that other slices may share. */
module SliceChoose {
  import opened Choose

  /** The runtime's choice of a new capacity when a full slice is appended to. */
  type Growth = nat -> nat

  ghost predicate Grows(grow: Growth) {
    forall c :: grow(c) > c
  }

  /** Doubling, as Go grows small slices of integers. */
  function Doubling(c: nat): nat {
    if c == 0 then 1 else 2 * c
  }

  /** A slice: the backing array it points to and its length. */
  datatype Slice = Slice(addr: nat, len: nat)

  function Repeat<T>(n: nat, x: T): (r: seq<T>)
    ensures |r| == n && forall j | 0 <= j < n :: r[j] == x
  {
    seq(n, _ => x)
  }

  function Put(a: seq<nat>, j: nat, x: nat): seq<nat>
    requires j < |a|
  {
    a[j := x]
  }

  /** What the recorded groups hold once the recursion from a state is over, if
      `cur` sits in an array of capacity `cap`: as soon as the array has room for a
      whole group, all groups found below end up in it, and the last one wins. */
  function Recorded(grow: Growth, n: nat, k: nat, i: nat, cur: seq<nat>, cap: nat): seq<seq<nat>>
    requires |cur| <= k && i <= n && |cur| <= cap
    requires Grows(grow)
    decreases n - i
  {
    var all := Combos(n, k, i, cur);
    if cap >= k then (if all == [] then [] else Repeat(|all|, all[|all| - 1]))
    else if k - |cur| > n - i then []
    else
      var cap' := if |cur| < cap then cap else grow(cap);
      Recorded(grow, n, k, i + 1, cur + [i], cap') + Recorded(grow, n, k, i + 1, cur, cap)
  }

  /** Backing arrays, each as long as its capacity, and the groups recorded so far. */
  datatype Memory = Memory(arrays: seq<seq<nat>>, elements: seq<Slice>) {
    predicate InUse(s: Slice) {
      s.addr < |arrays| && s.len <= |arrays[s.addr]|
    }

    function Read(s: Slice): seq<nat>
      requires InUse(s)
    {
      arrays[s.addr][..s.len]
    }
  }

  /** Everything older and away from `cur`'s array is untouched; `cur` itself still reads the same. */
  ghost predicate Framed(m: Memory, m': Memory, cur: Slice) {
    && m.InUse(cur) && m'.InUse(cur) && |m.arrays| <= |m'.arrays|
    && (forall a | 0 <= a < |m.arrays| && a != cur.addr :: m'.arrays[a] == m.arrays[a])
    && |m'.arrays[cur.addr]| == |m.arrays[cur.addr]| && m'.Read(cur) == m.Read(cur)
  }

  /** The `j`-th group recorded since `m` reads `group` and sits in `cur`'s
      array if that has room, else in a new one. */
  ghost predicate RecordedAt(k: nat, cur: Slice, m: Memory, m': Memory, j: nat, group: seq<nat>) {
    && |m.elements| + j < |m'.elements| && cur.addr < |m.arrays|
    && var s := m'.elements[|m.elements| + j];
       && m'.InUse(s) && s.len == k && m'.Read(s) == group
       && if |m.arrays[cur.addr]| >= k then s.addr == cur.addr else s.addr >= |m.arrays|
  }

  /** What the recursion from a state does to the memory. */
  ghost predicate Outcome(grow: Growth, n: nat, k: nat, i: nat, cur: Slice, m: Memory, m': Memory)
    requires Grows(grow) && m.InUse(cur) && cur.len <= k && i <= n
  {
    var cap := |m.arrays[cur.addr]|;
    var all, rec := Combos(n, k, i, m.Read(cur)), Recorded(grow, n, k, i, m.Read(cur), cap);
    && Framed(m, m', cur)
    && m.elements <= m'.elements && |m'.elements| == |m.elements| + |rec|
    && (forall j | 0 <= j < |rec| :: RecordedAt(k, cur, m, m', j, rec[j]))
    && (cap >= k ==> |m'.arrays| == |m.arrays|)
    && (cap >= k && all != [] ==> m'.arrays[cur.addr][..k] == all[|all| - 1])
    && (cap >= k && all == [] ==> m' == m)
  }

  /** Go's `append` of one element: in place if there is room, else into a new, larger array. */
  ghost predicate Appended(grow: Growth, m: Memory, s: Slice, x: nat, m': Memory, r: Slice) {
    && m.InUse(s) && m'.InUse(r) && r.len == s.len + 1 && m'.Read(r) == m.Read(s) + [x] && m'.elements == m.elements
    && var a := m.arrays[s.addr];
       if s.len < |a| then r.addr == s.addr && m'.arrays == m.arrays[s.addr := Put(a, s.len, x)]
       else
         && r.addr == |m.arrays| && |m'.arrays| == |m.arrays| + 1
         && m.arrays <= m'.arrays && |m'.arrays[r.addr]| == grow(|a|)
  }

  /** The run of the recursion: a memory that `append` and the recording of groups update. */
  class Chooser {
    const grow: Growth
    var mem: Memory

    constructor (grow: Growth)
      ensures this.grow == grow && mem == Memory([[]], [])
    {
      this.grow := grow;
      mem := Memory([[]], []);
    }

    method Append(s: Slice, x: nat) returns (r: Slice)
      requires mem.InUse(s) && Grows(grow)
      modifies this
      ensures Appended(grow, old(mem), s, x, mem, r)
    {
      var a := mem.arrays[s.addr];
      if s.len < |a| {
        mem := mem.(arrays := mem.arrays[s.addr := Put(a, s.len, x)]);
        r := Slice(s.addr, s.len + 1);
        assert Put(a, s.len, x)[..s.len + 1] == a[..s.len] + [x];
      } else {
        var bigger := a[..s.len] + [x] + Repeat(grow(|a|) - s.len - 1, 0);
        r := Slice(|mem.arrays|, s.len + 1);
        mem := mem.(arrays := mem.arrays + [bigger]);
        assert bigger[..s.len + 1] == a[..s.len] + [x];
      }
    }

    method Choose(n: nat, k: nat, i: nat, cur: Slice)
      requires Grows(grow) && mem.InUse(cur) && cur.len <= k && i <= n
      modifies this
      ensures Outcome(grow, n, k, i, cur, old(mem), mem)
      decreases n - i
    {
      if cur.len == k {
        mem := mem.(elements := mem.elements + [cur]);
        assert RecordedAt(k, cur, old(mem), mem, 0, mem.Read(cur));
        return;
      }
      if k - cur.len > n - i { return; }
      var next := Append(cur, i);
      ghost var m1 := mem;
      Choose(n, k, i + 1, next);
      ghost var m2 := mem;
      BranchFrame(grow, n, k, i, cur, old(mem), m1, next, m2);
      Choose(n, k, i + 1, cur);
      Branches(grow, n, k, i, cur, old(mem), m1, next, m2, mem);
    }
  }

  /** Picking `i` leaves `cur` readable as before. */
  lemma BranchFrame(grow: Growth, n: nat, k: nat, i: nat, cur: Slice, m0: Memory, m1: Memory, next: Slice, m2: Memory)
    requires Grows(grow) && m0.InUse(cur) && cur.len < k && i < n
    requires Appended(grow, m0, cur, i, m1, next) && Outcome(grow, n, k, i + 1, next, m1, m2)
    ensures Framed(m0, m2, cur)
  {
    assert m1.InUse(cur) && m1.Read(cur) == m0.Read(cur);
    assert m2.InUse(cur);
    if next.addr == cur.addr {
      assert m2.arrays[cur.addr][..cur.len] == m2.Read(next)[..cur.len];
      assert m1.arrays[cur.addr][..cur.len] == m1.Read(next)[..cur.len];
    }
  }

  /** Both branches together. */
  lemma Branches(grow: Growth, n: nat, k: nat, i: nat, cur: Slice, m0: Memory, m1: Memory, next: Slice, m2: Memory,
                 m3: Memory)
    requires Grows(grow) && m0.InUse(cur) && cur.len < k && i < n && k - cur.len <= n - i
    requires Appended(grow, m0, cur, i, m1, next) && Outcome(grow, n, k, i + 1, next, m1, m2)
    requires Framed(m0, m2, cur) && Outcome(grow, n, k, i + 1, cur, m2, m3)
    ensures Outcome(grow, n, k, i, cur, m0, m3)
  {
    if |m0.arrays[cur.addr]| >= k {
      BranchesInPlace(grow, n, k, i, cur, m0, m1, next, m2, m3);
    } else {
      BranchesApart(grow, n, k, i, cur, m0, m1, next, m2, m3);
    }
  }

  lemma BranchesInPlace(grow: Growth, n: nat, k: nat, i: nat, cur: Slice, m0: Memory, m1: Memory, next: Slice,
                        m2: Memory, m3: Memory)
    requires Grows(grow) && m0.InUse(cur) && cur.len < k && i < n && k - cur.len <= n - i && |m0.arrays[cur.addr]| >= k
    requires Appended(grow, m0, cur, i, m1, next) && Outcome(grow, n, k, i + 1, next, m1, m2)
    requires Framed(m0, m2, cur) && Outcome(grow, n, k, i + 1, cur, m2, m3)
    ensures Outcome(grow, n, k, i, cur, m0, m3)
  {
    var c, cap := m0.Read(cur), |m0.arrays[cur.addr]|;
    var all, picked, rest := Combos(n, k, i, c), Combos(n, k, i + 1, c + [i]), Combos(n, k, i + 1, c);
    CombosCount(n, k, i + 1, c + [i]);
    BinomialSmall(n - i - 1, k - |c| - 1);
    assert all == picked + rest;
    var rec := Recorded(grow, n, k, i, c, cap);
    var last := all[|all| - 1];
    assert rec == Repeat(|all|, last);
    assert m3.arrays[cur.addr][..k] == last;
    forall j | 0 <= j < |rec| ensures RecordedAt(k, cur, m0, m3, j, rec[j]) {
      if j < |picked| {
        PickedInPlace(k, cur, m0, m1, next, m2, m3, j, Recorded(grow, n, k, i + 1, c + [i], cap)[j], last);
      } else {
        RestInPlace(k, cur, m0, m2, m3, j, j - |picked|, Recorded(grow, n, k, i + 1, c, cap)[j - |picked|], last);
      }
    }
  }

  /** A group recorded in the shared array reads as whatever is written there last. */
  lemma PickedInPlace(k: nat, cur: Slice, m0: Memory, m1: Memory, next: Slice, m2: Memory, m3: Memory, j: nat,
                      g: seq<nat>, last: seq<nat>)
    requires cur.addr < |m0.arrays| && |m0.arrays[cur.addr]| >= k && next.addr == cur.addr && m1.elements == m0.elements
    requires RecordedAt(k, next, m1, m2, j, g) && |m1.arrays[next.addr]| >= k && m2.elements <= m3.elements
    requires m3.InUse(Slice(cur.addr, k)) && m3.arrays[cur.addr][..k] == last
    ensures RecordedAt(k, cur, m0, m3, j, last)
  {
    assert m3.elements[|m0.elements| + j] == m2.elements[|m0.elements| + j];
  }

  lemma RestInPlace(k: nat, cur: Slice, m0: Memory, m2: Memory, m3: Memory, j: nat, j': nat, g: seq<nat>,
                    last: seq<nat>)
    requires cur.addr < |m0.arrays| && |m0.arrays[cur.addr]| >= k && |m0.elements| + j == |m2.elements| + j'
    requires RecordedAt(k, cur, m2, m3, j', g) && |m2.arrays[cur.addr]| >= k
    requires m3.InUse(Slice(cur.addr, k)) && m3.arrays[cur.addr][..k] == last
    ensures RecordedAt(k, cur, m0, m3, j, last)
  {
  }

  lemma BranchesApart(grow: Growth, n: nat, k: nat, i: nat, cur: Slice, m0: Memory, m1: Memory, next: Slice, m2: Memory,
                      m3: Memory)
    requires Grows(grow) && m0.InUse(cur) && cur.len < k && i < n && k - cur.len <= n - i && |m0.arrays[cur.addr]| < k
    requires Appended(grow, m0, cur, i, m1, next) && Outcome(grow, n, k, i + 1, next, m1, m2)
    requires Framed(m0, m2, cur) && Outcome(grow, n, k, i + 1, cur, m2, m3)
    ensures Outcome(grow, n, k, i, cur, m0, m3)
  {
    var c, cap := m0.Read(cur), |m0.arrays[cur.addr]|;
    var cap' := if |c| < cap then cap else grow(cap);
    var picked, rest := Recorded(grow, n, k, i + 1, c + [i], cap'), Recorded(grow, n, k, i + 1, c, cap);
    var rec := Recorded(grow, n, k, i, c, cap);
    assert |m1.arrays[next.addr]| == cap';
    assert rec == picked + rest;
    forall j | 0 <= j < |rec| ensures RecordedAt(k, cur, m0, m3, j, rec[j]) {
      if j < |picked| {
        PickedStays(k, cur, m0, m1, next, m2, m3, j, picked[j]);
      } else {
        assert RecordedAt(k, cur, m2, m3, j - |picked|, rest[j - |picked|]);
      }
    }
  }

  /** A group recorded in a newer array is not touched by what happens in `cur`'s array. */
  lemma PickedStays(k: nat, cur: Slice, m0: Memory, m1: Memory, next: Slice, m2: Memory, m3: Memory, j: nat,
                    g: seq<nat>)
    requires cur.addr < |m0.arrays| <= |m1.arrays| && m1.elements == m0.elements && |m0.arrays[cur.addr]| < k
    requires RecordedAt(k, next, m1, m2, j, g) && Framed(m2, m3, cur) && m2.elements <= m3.elements
    requires next.addr >= |m0.arrays| || (next.addr == cur.addr && |m1.arrays[next.addr]| < k)
    ensures RecordedAt(k, cur, m0, m3, j, g)
  {
    assert m3.elements[|m0.elements| + j] == m2.elements[|m0.elements| + j];
  }

  /** What `chooseKoutOfN` returns: the recorded groups, read when the recursion is over. */
  ghost function Chosen(grow: Growth, n: nat, k: nat): seq<seq<nat>>
    requires Grows(grow)
  {
    Recorded(grow, n, k, 0, [], 0)
  }

  method ChooseKoutOfN(grow: Growth, n: nat, k: nat) returns (res: seq<seq<nat>>)
    requires Grows(grow)
    ensures res == Chosen(grow, n, k)
  {
    var run := new Chooser(grow);
    ghost var m0 := run.mem;
    run.Choose(n, k, 0, Slice(0, 0));
    ghost var rec := Chosen(grow, n, k);
    assert m0.Read(Slice(0, 0)) == [];
    res := [];
    for j := 0 to |run.mem.elements|
      invariant res == rec[..j]
    {
      assert RecordedAt(k, Slice(0, 0), m0, run.mem, j, rec[j]);
      res := res + [run.mem.Read(run.mem.elements[j])];
    }
  }

  // ----- when the recorded groups are the chosen ones -----

  /** The capacity of a slice built by `len` appends from nil. */
  function Capacity(grow: Growth, len: nat): nat {
    if len == 0 then 0
    else
      var c := Capacity(grow, len - 1);
      if len - 1 < c then c else grow(c)
  }

  lemma {:induction false} CapacityEnough(grow: Growth, len: nat)
    requires Grows(grow)
    ensures len <= Capacity(grow, len)
  {
    if len > 0 { CapacityEnough(grow, len - 1); }
  }

  lemma {:induction false} CapacityMonotone(grow: Growth, a: nat, b: nat)
    requires Grows(grow) && a <= b
    ensures Capacity(grow, a) <= Capacity(grow, b)
  {
    if a < b { CapacityMonotone(grow, a, b - 1); }
  }

  /** The last element of a group is always appended to a full slice. */
  predicate LastAppendMoves(grow: Growth, k: nat) {
    k == 0 || Capacity(grow, k - 1) == k - 1
  }

  lemma {:induction false} RecordedLength(grow: Growth, n: nat, k: nat, i: nat, cur: seq<nat>, cap: nat)
    requires Grows(grow) && |cur| <= k && i <= n && |cur| <= cap
    ensures |Recorded(grow, n, k, i, cur, cap)| == |Combos(n, k, i, cur)|
    decreases n - i
  {
    if cap < k && k - |cur| <= n - i {
      RecordedLength(grow, n, k, i + 1, cur + [i], if |cur| < cap then cap else grow(cap));
      RecordedLength(grow, n, k, i + 1, cur, cap);
    }
  }

  lemma ConcatInjective<T>(a: seq<T>, b: seq<T>, c: seq<T>, d: seq<T>)
    requires |a| == |c|
    ensures a + b == c + d <==> a == c && b == d
  {
    if a + b == c + d {
      assert a == (a + b)[..|a|] && c == (c + d)[..|c|];
      assert b == (a + b)[|a|..] && d == (c + d)[|c|..];
    }
  }

  lemma RepeatIs<T>(all: seq<T>)
    requires Distinct(all) && all != []
    ensures Repeat(|all|, all[|all| - 1]) == all <==> |all| == 1
  {
    if |all| == 1 {
      assert Repeat(1, all[0]) == all;
    } else {
      assert all[0] != all[|all| - 1] && Repeat(|all|, all[|all| - 1])[0] == all[|all| - 1];
    }
  }

  lemma AtMostOne(n: nat, k: nat, i: nat, cur: seq<nat>)
    requires |cur| <= k && i <= n
    ensures |Combos(n, k, i, cur)| <= 1 <==> |cur| == k || n - i <= k - |cur|
  {
    CombosCount(n, k, i, cur);
    BinomialSmall(n - i, k - |cur|);
  }

  /** Whether the groups recorded from a state are the groups to choose from it. */
  ghost predicate Exact(grow: Growth, n: nat, k: nat, i: nat, cur: seq<nat>, cap: nat) {
    Grows(grow) && |cur| <= k && i <= n && |cur| <= cap && Recorded(grow, n, k, i, cur, cap) == Combos(n, k, i, cur)
  }

  /** In one array all groups read as the last one, so they are right only if there is at most one. */
  lemma InPlaceExact(grow: Growth, n: nat, k: nat, i: nat, cur: seq<nat>, cap: nat)
    requires Grows(grow) && |cur| <= k <= cap && i <= n && Increasing(cur, i)
    ensures Exact(grow, n, k, i, cur, cap) <==> |cur| == k || n - i <= k - |cur|
  {
    AtMostOne(n, k, i, cur);
    CombosSorted(n, k, i, cur);
    SortedDistinct(Combos(n, k, i, cur));
    if Combos(n, k, i, cur) != [] { RepeatIs(Combos(n, k, i, cur)); }
  }

  /** When the array first has room for a whole group, the group is complete exactly if the last append moves. */
  lemma CapacityCases(grow: Growth, k: nat, j: nat)
    requires Grows(grow) && j < k && Capacity(grow, j) < k <= Capacity(grow, j + 1)
    ensures LastAppendMoves(grow, k) <==> j + 1 == k
  {
    CapacityEnough(grow, j);
    if j + 1 < k { CapacityMonotone(grow, j + 1, k - 1); }
  }

  lemma SplitExact(grow: Growth, n: nat, k: nat, i: nat, cur: seq<nat>, cap: nat)
    requires Grows(grow) && |cur| < k && k - |cur| <= n - i && |cur| <= cap < k
    ensures
      var cap' := if |cur| < cap then cap else grow(cap);
      Recorded(grow, n, k, i, cur, cap) == Combos(n, k, i, cur) <==>
        && Recorded(grow, n, k, i + 1, cur + [i], cap') == Combos(n, k, i + 1, cur + [i])
        && Recorded(grow, n, k, i + 1, cur, cap) == Combos(n, k, i + 1, cur)
  {
    var cap' := if |cur| < cap then cap else grow(cap);
    RecordedLength(grow, n, k, i + 1, cur + [i], cap');
    ConcatInjective(Recorded(grow, n, k, i + 1, cur + [i], cap'), Recorded(grow, n, k, i + 1, cur, cap),
                    Combos(n, k, i + 1, cur + [i]), Combos(n, k, i + 1, cur));
  }

  /** Once the array has room for whole groups, they are right exactly if only one is left or the last append moves. */
  lemma PickedExact(grow: Growth, n: nat, k: nat, i: nat, next: seq<nat>, cap': nat)
    requires Grows(grow) && 0 < |next| <= k && i <= n && Increasing(next, i)
    requires Capacity(grow, |next| - 1) < k <= cap' == Capacity(grow, |next|)
    ensures Exact(grow, n, k, i, next, cap') <==> LastAppendMoves(grow, k) || n - i <= k - |next|
  {
    CapacityEnough(grow, |next|);
    InPlaceExact(grow, n, k, i, next, cap');
    CapacityCases(grow, k, |next| - 1);
  }

  lemma NoneLeft(grow: Growth, n: nat, k: nat, i: nat, cur: seq<nat>, cap: nat)
    requires Grows(grow) && |cur| <= cap < k && i <= n && k - |cur| > n - i
    ensures Exact(grow, n, k, i, cur, cap)
  {
  }

  lemma BothExact(grow: Growth, n: nat, k: nat, i: nat, cur: seq<nat>, cap: nat, next: seq<nat>, cap': nat)
    requires Grows(grow) && |cur| < k && k - |cur| <= n - i && |cur| <= cap < k
    requires next == cur + [i] && cap == Capacity(grow, |cur|) && cap' == Capacity(grow, |next|)
    ensures Exact(grow, n, k, i, cur, cap) <==>
      Exact(grow, n, k, i + 1, next, cap') && Exact(grow, n, k, i + 1, cur, cap)
  {
    CapacityEnough(grow, |next|);
    SplitExact(grow, n, k, i, cur, cap);
  }

  /** Below the last level, the condition at each call is the one at the top; `exact` is `Exact` for given n and k. */
  lemma {:induction false} ApartBelow(grow: Growth, n: nat, k: nat, i: nat, cur: seq<nat>,
                                      exact: (nat, seq<nat>, nat) -> bool)
    requires Grows(grow) && |cur| < k && i <= n && Increasing(cur, i) && Capacity(grow, |cur|) < k
    requires forall i, cur, cap :: exact(i, cur, cap) <==> Exact(grow, n, k, i, cur, cap)
    ensures exact(i, cur, Capacity(grow, |cur|)) <==> LastAppendMoves(grow, k) || n - i <= k - |cur|
    decreases n - i
  {
    var next, cap := cur + [i], Capacity(grow, |cur|);
    CapacityEnough(grow, |cur|);
    if k - |cur| <= n - i {
      var cap' := Capacity(grow, |next|);
      BothExact(grow, n, k, i, cur, cap, next, cap');
      ApartBelow(grow, n, k, i + 1, cur, exact);
      if cap' < k {
        ApartBelow(grow, n, k, i + 1, next, exact);
      } else {
        PickedExact(grow, n, k, i + 1, next, cap');
      }
      assert exact(i, cur, cap) <==> exact(i + 1, next, cap') && exact(i + 1, cur, cap);
    } else {
      NoneLeft(grow, n, k, i, cur, cap);
    }
  }

  lemma ApartExact(grow: Growth, n: nat, k: nat)
    requires Grows(grow) && k > 0
    ensures Exact(grow, n, k, 0, [], 0) <==> LastAppendMoves(grow, k) || n <= k
  {
    ApartBelow(grow, n, k, 0, [], (i: nat, cur: seq<nat>, cap: nat) => Exact(grow, n, k, i, cur, cap));
  }

  /** The Go code enumerates all groups, each once, if and only if there is nothing to choose
      or the last index of a group is never appended into a shared array. */
  lemma ChosenExact(grow: Growth, n: nat, k: nat)
    requires Grows(grow)
    ensures Chosen(grow, n, k) == Combos(n, k, 0, []) <==> n <= k || LastAppendMoves(grow, k)
  {
    if k > 0 {
      ApartExact(grow, n, k);
    }
  }

  /** Even where groups are lost, every group recorded is one of the groups to choose. */
  lemma {:induction false} RecordedSound(grow: Growth, n: nat, k: nat, i: nat, cur: seq<nat>, cap: nat, g: seq<nat>)
    requires Grows(grow) && |cur| <= k && i <= n && |cur| <= cap
    requires g in Recorded(grow, n, k, i, cur, cap)
    ensures g in Combos(n, k, i, cur)
    decreases n - i
  {
    if cap < k {
      var cap' := if |cur| < cap then cap else grow(cap);
      if g in Recorded(grow, n, k, i + 1, cur + [i], cap') {
        RecordedSound(grow, n, k, i + 1, cur + [i], cap', g);
      } else {
        RecordedSound(grow, n, k, i + 1, cur, cap, g);
      }
    }
  }

  predicate PowerOfTwo(n: nat) {
    n == 1 || (n > 1 && n % 2 == 0 && PowerOfTwo(n / 2))
  }

  lemma {:induction false} PowersApart(a: nat, b: nat)
    requires PowerOfTwo(a) && PowerOfTwo(b) && a <= b < 2 * a
    ensures a == b
  {
    if a > 1 { PowersApart(a / 2, b / 2); }
  }

  lemma {:induction false} DoublingCapacity(len: nat)
    requires len >= 1
    ensures PowerOfTwo(Capacity(Doubling, len)) && len <= Capacity(Doubling, len) < 2 * len
  {
    if len > 1 { DoublingCapacity(len - 1); }
  }

  /** With doubling the last append moves exactly for groups of size 0, 1 and one more than a power of two. */
  lemma DoublingMoves(k: nat)
    ensures LastAppendMoves(Doubling, k) <==> k <= 1 || PowerOfTwo(k - 1)
  {
    if k > 1 {
      DoublingCapacity(k - 1);
      if PowerOfTwo(k - 1) { PowersApart(k - 1, Capacity(Doubling, k - 1)); }
    }
  }

  lemma PickedComesFirst(grow: Growth, n: nat, k: nat, i: nat, cur: seq<nat>, cap: nat, next: seq<nat>, cap': nat)
    requires Grows(grow) && |cur| < k && k - |cur| <= n - i && |cur| <= cap < k
    requires next == cur + [i] && cap' == if |cur| < cap then cap else grow(cap)
    ensures Recorded(grow, n, k, i + 1, next, cap') <= Recorded(grow, n, k, i, cur, cap)
    ensures Combos(n, k, i + 1, next) <= Combos(n, k, i, cur)
  {
  }

  /** With doubling, choosing 4 out of 5 goes wrong: the first group, {0, 1, 2,
      3}, is recorded as {0, 1, 2, 4}, like the second. */
  lemma FourOutOfFive()
    ensures Grows(Doubling) && [[0, 1, 2, 4], [0, 1, 2, 4]] <= Chosen(Doubling, 5, 4)
    ensures [[0, 1, 2, 3], [0, 1, 2, 4]] <= Combos(5, 4, 0, [])
  {
    PickedComesFirst(Doubling, 5, 4, 0, [], 0, [0], 1);
    PickedComesFirst(Doubling, 5, 4, 1, [0], 1, [0, 1], 2);
    PickedComesFirst(Doubling, 5, 4, 2, [0, 1], 2, [0, 1, 2], 4);
    LastTwo();
  }

  lemma LastTwo()
    ensures Combos(5, 4, 3, [0, 1, 2]) == [[0, 1, 2, 3], [0, 1, 2, 4]]
    ensures Grows(Doubling) && Recorded(Doubling, 5, 4, 3, [0, 1, 2], 4) == [[0, 1, 2, 4], [0, 1, 2, 4]]
  {
    assert [0, 1, 2] + [3] == [0, 1, 2, 3] && [0, 1, 2] + [4] == [0, 1, 2, 4];
    assert Combos(5, 4, 4, [0, 1, 2, 3]) == [[0, 1, 2, 3]];
    assert Combos(5, 4, 5, [0, 1, 2, 4]) == [[0, 1, 2, 4]] && Combos(5, 4, 5, [0, 1, 2]) == [];
    assert Combos(5, 4, 4, [0, 1, 2]) == [[0, 1, 2, 4]];
  }
}
