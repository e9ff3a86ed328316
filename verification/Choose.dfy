/** Choosing k out of n indices: which groups, in which order, and how many. */
module Choose {

  // ----- combinations as values -----

  /** The groups of size `k` that extend `cur` by indices from `i` on, in the order of the recursion. */
  function Combos(n: nat, k: nat, i: nat, cur: seq<nat>): seq<seq<nat>>
    requires |cur| <= k && i <= n
    decreases n - i
  {
    if |cur| == k then [cur]
    else if k - |cur| > n - i then []
    else Combos(n, k, i + 1, cur + [i]) + Combos(n, k, i + 1, cur)
  }

  /** Strictly increasing indices below `n`. */
  predicate Increasing(s: seq<nat>, n: nat) {
    && (forall a, b | 0 <= a < b < |s| :: s[a] < s[b])
    && (forall a | 0 <= a < |s| :: s[a] < n)
  }

  /** The groups the recursion is to find from a state: `cur`, then larger indices from `i` on. */
  predicate Extends(n: nat, k: nat, i: nat, cur: seq<nat>, s: seq<nat>) {
    |s| == k && |cur| <= k && s[..|cur|] == cur && Increasing(s, n) && forall a | |cur| <= a < k :: i <= s[a]
  }

  lemma {:induction false} CombosExact(n: nat, k: nat, i: nat, cur: seq<nat>, s: seq<nat>)
    requires |cur| <= k && i <= n && Increasing(cur, i)
    ensures s in Combos(n, k, i, cur) <==> Extends(n, k, i, cur, s)
    decreases n - i
  {
    if |cur| == k {
      if |s| == k { assert s[..k] == s; }
    } else if k - |cur| > n - i {
      if Extends(n, k, i, cur, s) { TooFew(n, k, i, cur, s, k - 1); }
    } else {
      CombosExact(n, k, i + 1, cur + [i], s);
      CombosExact(n, k, i + 1, cur, s);
      ExtendsSplit(n, k, i, cur, s);
    }
  }

  /** A group goes on with `i` or with something larger. */
  lemma ExtendsSplit(n: nat, k: nat, i: nat, cur: seq<nat>, s: seq<nat>)
    requires |cur| < k && i < n && Increasing(cur, i)
    ensures Extends(n, k, i, cur, s) <==> Extends(n, k, i + 1, cur + [i], s) || Extends(n, k, i + 1, cur, s)
  {
    if |s| == k {
      assert s[..|cur| + 1] == s[..|cur|] + [s[|cur|]];
      TakeOne(s, cur, i);
    }
  }

  lemma TakeOne(s: seq<nat>, cur: seq<nat>, i: nat)
    requires |cur| < |s|
    ensures s[..|cur| + 1] == cur + [i] <==> s[..|cur|] == cur && s[|cur|] == i
  {
    if s[..|cur| + 1] == cur + [i] {
      assert s[..|cur| + 1][..|cur|] == cur && s[..|cur| + 1][|cur|] == i;
    }
  }

  /** Increasing indices from `i` on grow at least as fast as their positions. */
  lemma {:induction false} TooFew(n: nat, k: nat, i: nat, cur: seq<nat>, s: seq<nat>, a: nat)
    requires Extends(n, k, i, cur, s) && |cur| <= a < k
    ensures i + (a - |cur|) <= s[a]
  {
    if a > |cur| {
      TooFew(n, k, i, cur, s, a - 1);
      assert s[a - 1] < s[a];
    }
  }

  predicate LexLess(a: seq<nat>, b: seq<nat>) {
    exists p | 0 <= p < |a| && p < |b| :: a[..p] == b[..p] && a[p] < b[p]
  }

  ghost predicate LexSorted(gs: seq<seq<nat>>) {
    forall x, y | 0 <= x < y < |gs| :: LexLess(gs[x], gs[y])
  }

  /** The groups come in lexicographic order, so none comes twice. */
  lemma {:induction false} CombosSorted(n: nat, k: nat, i: nat, cur: seq<nat>)
    requires |cur| <= k && i <= n && Increasing(cur, i)
    ensures LexSorted(Combos(n, k, i, cur))
    decreases n - i
  {
    if |cur| < k && k - |cur| <= n - i {
      var picked, rest := Combos(n, k, i + 1, cur + [i]), Combos(n, k, i + 1, cur);
      CombosSorted(n, k, i + 1, cur + [i]);
      CombosSorted(n, k, i + 1, cur);
      forall x, y | 0 <= x < |picked| && 0 <= y < |rest| ensures LexLess(picked[x], rest[y]) {
        PickedFirst(n, k, i, cur, picked[x], rest[y]);
      }
    }
  }

  lemma PickedFirst(n: nat, k: nat, i: nat, cur: seq<nat>, a: seq<nat>, b: seq<nat>)
    requires |cur| < k && i < n && Increasing(cur, i)
    requires a in Combos(n, k, i + 1, cur + [i]) && b in Combos(n, k, i + 1, cur)
    ensures LexLess(a, b)
  {
    CombosExact(n, k, i + 1, cur + [i], a);
    CombosExact(n, k, i + 1, cur, b);
    var p := |cur|;
    assert a[..p] == a[..p + 1][..p] == cur == b[..p];
    assert a[p] == a[..p + 1][p] == i < b[p];
  }

  lemma LexIrreflexive(a: seq<nat>)
    ensures !LexLess(a, a)
  {
  }

  ghost predicate Distinct<T>(s: seq<T>) {
    forall x, y | 0 <= x < y < |s| :: s[x] != s[y]
  }

  lemma SortedDistinct(gs: seq<seq<nat>>)
    requires LexSorted(gs)
    ensures Distinct(gs)
  {
    forall x, y | 0 <= x < y < |gs| ensures gs[x] != gs[y] { LexIrreflexive(gs[x]); }
  }

  // ----- how many -----

  function Binomial(n: nat, k: nat): nat {
    if k == 0 then 1 else if n == 0 then 0 else Binomial(n - 1, k - 1) + Binomial(n - 1, k)
  }

  lemma {:induction false} BinomialSmall(n: nat, k: nat)
    ensures (n < k ==> Binomial(n, k) == 0) && (n == k ==> Binomial(n, k) == 1) && (n > k >= 1 ==> Binomial(n, k) >= 2)
    ensures n >= k ==> Binomial(n, k) >= 1
  {
    if n > 0 && k > 0 {
      BinomialSmall(n - 1, k - 1);
      BinomialSmall(n - 1, k);
    }
  }

  lemma {:induction false} CombosCount(n: nat, k: nat, i: nat, cur: seq<nat>)
    requires |cur| <= k && i <= n
    ensures |Combos(n, k, i, cur)| == Binomial(n - i, k - |cur|)
    decreases n - i
  {
    BinomialSmall(n - i, k - |cur|);
    if |cur| < k && k - |cur| <= n - i {
      CombosCount(n, k, i + 1, cur + [i]);
      CombosCount(n, k, i + 1, cur);
    }
  }

  function Factorial(n: nat): nat {
    if n == 0 then 1 else n * Factorial(n - 1)
  }

  /** The recursive count is the quotient of factorials that big-integer libraries compute. */
  lemma {:induction false} BinomialIsQuotient(n: nat, k: nat)
    requires k <= n
    ensures Binomial(n, k) * Factorial(k) * Factorial(n - k) == Factorial(n)
  {
    BinomialSmall(n, k);
    if 0 < k < n {
      BinomialIsQuotient(n - 1, k - 1);
      BinomialIsQuotient(n - 1, k);
      var a, b := Binomial(n - 1, k - 1), Binomial(n - 1, k);
      var x, y := Factorial(k - 1), Factorial(n - k - 1);
      PascalStep(a, b, k, n - k, x, y, Factorial(n - 1));
    }
  }

  lemma PascalStep(a: nat, b: nat, k: nat, m: nat, x: nat, y: nat, f: nat)
    requires a * x * (m * y) == f && b * (k * x) * y == f
    ensures (a + b) * (k * x) * (m * y) == (k + m) * f
  {
    PascalIdentity(a, b, k, m, x, y);
    assert k * (a * x * (m * y)) == k * f && m * (b * (k * x) * y) == m * f;
  }

  lemma PascalIdentity(a: nat, b: nat, k: nat, m: nat, x: nat, y: nat)
    ensures (a + b) * (k * x) * (m * y) == k * (a * x * (m * y)) + m * (b * (k * x) * y)
  {
    assert (a + b) * (k * x) * (m * y) == a * (k * x) * (m * y) + b * (k * x) * (m * y);
  }

  function CombinationsExceed(n: nat, k: nat, threshold: int): bool {
    n >= k && Binomial(n, k) > threshold
  }
}
