/** Keys, attribute sums and hash inputs shared by the Identity Mixer protocols. */
module Idemix {
  import opened ModArith

  /** A point is written as a multiple of its group's generator, a scalar as a number; both stand for their residues. */
  type Point = int

  type Scalar = int

  const GenG1: Point := 1

  /** What goes into a hash: its parts, not their encoding. */
  datatype Transcript =
    | RequestData(t: nat, hSk: nat, nym: nat, issuerNonce: string, keyHash: string)
    | SignData(t1: nat, t2: nat, t3: nat, aPrime: nat, aBar: nat, bPrime: nat, nym: nat,
               keyHash: string, disclosure: seq<nat>, msg: string)
    | NymSignData(t: nat, nym: nat, keyHash: string, msg: string)
    | NonceData(c: nat, nonce: nat)

  /** The group order and the hash. */
  datatype Group = Group(q: nat, hash: Transcript -> nat) {
    ghost predicate Valid() { IsPrime(q) }

    predicate Same(p: Point, r: Point)
      requires q > 0
    {
      p % q == r % q
    }

    function HashModOrder(data: Transcript): nat
      requires q > 0
    {
      hash(data) % q
    }
  }

  datatype IssuerPublicKey = IssuerPublicKey(attributes: nat, hSk: Point, hRand: Point, hAttrs: seq<Point>, w: Point,
                                             hash: string)
  {
    predicate Valid() { |hAttrs| >= attributes }
  }

  datatype IssuerKey = IssuerKey(isk: Scalar, ipk: IssuerPublicKey)

  // ----- sums over attributes -----

  /** The sum of the bases, each times its exponent. */
  function Dot(bases: seq<Point>, exps: seq<Scalar>): Point
    requires |exps| <= |bases|
  {
    if exps == [] then 0
    else
      var last := |exps| - 1;
      Dot(bases, exps[..last]) + bases[last] * exps[last]
  }

  lemma DotSnoc(bases: seq<Point>, exps: seq<Scalar>, i: nat)
    requires i < |exps| <= |bases|
    ensures Dot(bases, exps[..i + 1]) == Dot(bases, exps[..i]) + bases[i] * exps[i]
  {
    assert exps[..i + 1][..i] == exps[..i];
  }

  /** Adds two attributes at a time, and the last alone when their number is odd. */
  method AddPairwise(start: Point, bases: seq<Point>, exps: seq<Scalar>) returns (sum: Point)
    requires |exps| <= |bases|
    ensures sum == start + Dot(bases, exps)
  {
    sum := start;
    for i := 0 to |exps| / 2
      invariant sum == start + Dot(bases, exps[..2 * i])
    {
      DotSnoc(bases, exps, 2 * i);
      DotSnoc(bases, exps, 2 * i + 1);
      sum := sum + (bases[2 * i] * exps[2 * i] + bases[2 * i + 1] * exps[2 * i + 1]);
    }
    if |exps| % 2 != 0 {
      DotSnoc(bases, exps, |exps| - 1);
      sum := sum + bases[|exps| - 1] * exps[|exps| - 1];
    }
    assert exps[..|exps|] == exps;
  }

  // ----- hidden and disclosed attributes -----

  function Hidden(disclosure: seq<nat>): (hidden: seq<nat>)
    ensures forall k | 0 <= k < |hidden| :: hidden[k] < |disclosure| && disclosure[hidden[k]] == 0
    ensures forall i, j | 0 <= i < j < |hidden| :: hidden[i] < hidden[j]
    ensures forall i | 0 <= i < |disclosure| && disclosure[i] == 0 :: i in hidden
  {
    if disclosure == [] then []
    else
      var last := |disclosure| - 1;
      Hidden(disclosure[..last]) + if disclosure[last] == 0 then [last] else []
  }

  method HiddenIndices(disclosure: seq<nat>) returns (hidden: seq<nat>)
    ensures hidden == Hidden(disclosure)
  {
    hidden := [];
    for i := 0 to |disclosure|
      invariant hidden == Hidden(disclosure[..i])
    {
      assert disclosure[..i + 1][..i] == disclosure[..i];
      if disclosure[i] == 0 {
        hidden := hidden + [i];
      }
    }
    assert disclosure[..|disclosure|] == disclosure;
  }

  /** The place of the first entry that is not below `x`. */
  function SearchInts(a: seq<nat>, x: int): (r: nat)
    ensures r <= |a|
    ensures forall i | 0 <= i < r :: a[i] < x
    ensures r < |a| ==> a[r] >= x
  {
    if a == [] || a[0] >= x then 0 else 1 + SearchInts(a[1..], x)
  }

  function Pick(xs: seq<int>, indices: seq<nat>): (r: seq<int>)
    requires forall k | 0 <= k < |indices| :: indices[k] < |xs|
    ensures |r| == |indices|
  {
    seq(|indices|, k requires 0 <= k < |indices| => xs[indices[k]])
  }

  function DisclosedSum(disclosure: seq<nat>, bases: seq<Point>, values: seq<Scalar>): Point
    requires |disclosure| <= |bases| && |disclosure| <= |values|
  {
    if disclosure == [] then 0
    else
      var last := |disclosure| - 1;
      DisclosedSum(disclosure[..last], bases, values) + if disclosure[last] != 0 then bases[last] * values[last] else 0
  }

  method AddDisclosed(start: Point, disclosure: seq<nat>, bases: seq<Point>, values: seq<Scalar>) returns (sum: Point)
    requires |disclosure| <= |bases| && |disclosure| <= |values|
    ensures sum == start + DisclosedSum(disclosure, bases, values)
  {
    sum := start;
    for i := 0 to |disclosure|
      invariant sum == start + DisclosedSum(disclosure[..i], bases, values)
    {
      assert disclosure[..i + 1][..i] == disclosure[..i];
      if disclosure[i] != 0 {
        sum := sum + bases[i] * values[i];
      }
    }
    assert disclosure[..|disclosure|] == disclosure;
  }

  lemma DotPrefix(bases: seq<Point>, bases': seq<Point>, exps: seq<Scalar>)
    requires |exps| <= |bases| <= |bases'| && bases <= bases'
    ensures Dot(bases, exps) == Dot(bases', exps)
  {
    if exps != [] {
      DotPrefix(bases, bases', exps[..|exps| - 1]);
    }
  }

  /** The hidden part of the sum and the disclosed part make up the whole. */
  lemma {:induction false} SplitSum(disclosure: seq<nat>, bases: seq<Point>, values: seq<Scalar>)
    requires |disclosure| == |values| <= |bases|
    ensures Dot(bases, values)
         == Dot(Pick(bases, Hidden(disclosure)), Pick(values, Hidden(disclosure)))
           + DisclosedSum(disclosure, bases, values)
  {
    if disclosure == [] {
      assert values == [];
    } else {
      var last := |disclosure| - 1;
      var init := disclosure[..last];
      SplitSum(init, bases, values[..last]);
      DisclosedMore(init, bases, values[..last], values);
      var hidden := Hidden(init);
      assert Pick(values[..last], hidden) == Pick(values, hidden);
      if disclosure[last] == 0 {
        PickSnoc(bases, hidden, last);
        PickSnoc(values, hidden, last);
        DotOne(Pick(bases, hidden), bases[last], Pick(values, hidden), values[last]);
      } else {
        assert Hidden(disclosure) == hidden;
      }
    }
  }

  lemma PickSnoc(xs: seq<int>, indices: seq<nat>, i: nat)
    requires i < |xs| && forall k | 0 <= k < |indices| :: indices[k] < |xs|
    ensures Pick(xs, indices + [i]) == Pick(xs, indices) + [xs[i]]
  {
  }

  lemma DotOne(bases: seq<Point>, base: Point, exps: seq<Scalar>, x: Scalar)
    requires |exps| == |bases|
    ensures Dot(bases + [base], exps + [x]) == Dot(bases, exps) + base * x
  {
    assert (exps + [x])[..|exps|] == exps;
    DotPrefix(bases, bases + [base], exps);
  }

  lemma {:induction false} DisclosedMore(disclosure: seq<nat>, bases: seq<Point>, values: seq<Scalar>,
                                         more: seq<Scalar>)
    requires |disclosure| <= |bases| && |disclosure| <= |values| && |disclosure| <= |more|
    requires forall i | 0 <= i < |disclosure| && disclosure[i] != 0 :: values[i] == more[i]
    ensures DisclosedSum(disclosure, bases, values) == DisclosedSum(disclosure, bases, more)
  {
    if disclosure != [] {
      DisclosedMore(disclosure[..|disclosure| - 1], bases, values, more);
    }
  }
}
