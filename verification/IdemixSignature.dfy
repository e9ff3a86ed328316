/** Signatures that prove possession of a credential and disclose some of its attributes. */
module IdemixSignature {
  import opened ModArith
  import opened Idemix
  import opened IdemixCredential

  const ALG_NO_REVOCATION: int := 0

  datatype Signature = Signature(aPrime: Point, aBar: Point, bPrime: Point, proofC: nat,
                                 proofSSk: nat, proofSE: nat, proofSR2: nat, proofSR3: nat, proofSSPrime: nat,
                                 proofSAttrs: seq<nat>, nonce: nat, nym: Point, proofSRNym: nat, revocationAlg: int)

  /** The random scalars of one signature; one per hidden attribute. */
  datatype Randomness = Randomness(r1: Scalar, r2: Scalar, nonce: nat, rSk: Scalar, re: Scalar, rR2: Scalar,
                                   rR3: Scalar, rSPrime: Scalar, rRNym: Scalar, rAttrs: nat -> Scalar)

  /** Commitments to what the credential is made of. */
  datatype Commitments = Commitments(t1: Point, t2: Point, t3: Point)

  datatype Outcome<T> = Done(value: T) | Invalid | Panics

  function Challenge(g: Group, ipk: IssuerPublicKey, t: Commitments, aPrime: Point, aBar: Point, bPrime: Point,
                     nym: Point, disclosure: seq<nat>, msg: string, nonce: nat): nat
    requires g.q > 0
  {
    var q := g.q;
    var c := g.HashModOrder(SignData(t.t1 % q, t.t2 % q, t.t3 % q, aPrime % q, aBar % q, bPrime % q, nym % q,
                                     ipk.hash, disclosure, msg));
    g.HashModOrder(NonceData(c, nonce))
  }

  // ----- signing -----

  predicate BadInput(ipk: IssuerPublicKey, disclosure: seq<nat>, rhIndex: int, alg: int) {
    || rhIndex < 0 || rhIndex >= ipk.attributes || |disclosure| != ipk.attributes
    || alg != ALG_NO_REVOCATION
  }

  /** No hidden attribute at or after the revocation handle. */
  predicate NoHandle(disclosure: seq<nat>, rhIndex: int) {
    SearchInts(Hidden(disclosure), rhIndex) == |Hidden(disclosure)|
  }

  /** The search for the handle fails exactly when every attribute from the handle on is disclosed. */
  lemma NoHandleIff(disclosure: seq<nat>, rhIndex: nat)
    ensures NoHandle(disclosure, rhIndex) <==> forall i | rhIndex <= i < |disclosure| :: disclosure[i] != 0
  {
    var hidden := Hidden(disclosure);
    var r := SearchInts(hidden, rhIndex);
    if r < |hidden| {
      assert disclosure[hidden[r]] == 0;
    } else {
      forall i | rhIndex <= i < |disclosure| ensures disclosure[i] != 0 {
        assert i !in hidden;
      }
    }
  }

  /** A hidden revocation handle is always found. */
  lemma HandleFound(disclosure: seq<nat>, rhIndex: nat)
    requires rhIndex < |disclosure| && disclosure[rhIndex] == 0
    ensures !NoHandle(disclosure, rhIndex)
  {
    NoHandleIff(disclosure, rhIndex);
  }

  function HiddenBases(ipk: IssuerPublicKey, disclosure: seq<nat>): (r: seq<Point>)
    requires |disclosure| <= |ipk.hAttrs|
    ensures |r| == |Hidden(disclosure)|
  {
    Pick(ipk.hAttrs, Hidden(disclosure))
  }

  function Responses(g: Group, c: nat, rs: seq<Scalar>, xs: seq<Scalar>): (r: seq<nat>)
    requires g.q > 0 && |rs| == |xs|
    ensures |r| == |xs|
  {
    seq(|xs|, i requires 0 <= i < |xs| => Modadd(rs[i], Modmul(c, xs[i], g.q), g.q))
  }

  function RandomAttrs(rand: Randomness, n: nat): (r: seq<Scalar>)
    ensures |r| == n
  {
    seq(n, i requires 0 <= i => rand.rAttrs(i))
  }

  /** The credential, blinded. */
  datatype Blinded = Blinded(aPrime: Point, aBar: Point, bPrime: Point)

  function Blind(cred: Credential, ipk: IssuerPublicKey, r1: Scalar, r2: Scalar): Blinded {
    var aPrime := cred.a * r1;
    Blinded(aPrime, cred.b * r1 - aPrime * cred.e, cred.b * r1 - ipk.hRand * r2)
  }

  function Commit(ipk: IssuerPublicKey, disclosure: seq<nat>, p: Blinded, rand: Randomness,
                  rAttrs: seq<Scalar>): Commitments
    requires |disclosure| <= |ipk.hAttrs| && |rAttrs| == |Hidden(disclosure)|
  {
    Commitments(p.aPrime * rand.re + ipk.hRand * rand.rR2,
                ipk.hRand * rand.rSPrime + (p.bPrime * rand.rR3 + ipk.hSk * rand.rSk)
                  + Dot(HiddenBases(ipk, disclosure), rAttrs),
                ipk.hSk * rand.rSk + ipk.hRand * rand.rRNym)
  }

  /** The replies to the challenge, but for those about attributes. */
  function Reply(g: Group, p: Blinded, nym: Point, c: nat, cred: Credential, sk: Scalar, rNym: Scalar, rand: Randomness,
                 proofSAttrs: seq<nat>): Signature
    requires g.q > 0
  {
    var q := g.q;
    var r3 := Inverse(rand.r1, q);
    var sPrime := Modsub(cred.s, Modmul(rand.r2, r3, q), q);
    Signature(p.aPrime, p.aBar, p.bPrime, c,
              Modadd(rand.rSk, Modmul(c, sk, q), q),
              Modsub(rand.re, Modmul(c, cred.e, q), q),
              Modadd(rand.rR2, Modmul(c, rand.r2, q), q),
              Modsub(rand.rR3, Modmul(c, r3, q), q),
              Modadd(rand.rSPrime, Modmul(c, sPrime, q), q),
              proofSAttrs, rand.nonce, nym,
              Modadd(rand.rRNym, Modmul(c, rNym, q), q),
              ALG_NO_REVOCATION)
  }

  /** The signature made of the credential and the random choices. */
  function Sign(g: Group, cred: Credential, sk: Scalar, nym: Point, rNym: Scalar, ipk: IssuerPublicKey,
                disclosure: seq<nat>, msg: string, rand: Randomness): Signature
    requires g.q > 0 && |disclosure| <= |cred.attrs| && |disclosure| <= |ipk.hAttrs|
  {
    var hidden := Hidden(disclosure);
    var p := Blind(cred, ipk, rand.r1, rand.r2);
    var rAttrs := RandomAttrs(rand, |hidden|);
    var t := Commit(ipk, disclosure, p, rand, rAttrs);
    var c := Challenge(g, ipk, t, p.aPrime, p.aBar, p.bPrime, nym, disclosure, msg, rand.nonce);
    Reply(g, p, nym, c, cred, sk, rNym, rand, Responses(g, c, rAttrs, Pick(cred.attrs, hidden)))
  }

  method ComputeCommitments(ipk: IssuerPublicKey, disclosure: seq<nat>, p: Blinded, rand: Randomness,
                            rAttrs: seq<Scalar>)
    returns (t: Commitments)
    requires |disclosure| <= |ipk.hAttrs| && |rAttrs| == |Hidden(disclosure)|
    ensures t == Commit(ipk, disclosure, p, rand, rAttrs)
  {
    var t1 := p.aPrime * rand.re + ipk.hRand * rand.rR2;
    var t2 := ipk.hRand * rand.rSPrime;
    t2 := t2 + (p.bPrime * rand.rR3 + ipk.hSk * rand.rSk);
    t2 := AddPairwise(t2, HiddenBases(ipk, disclosure), rAttrs);
    var t3 := ipk.hSk * rand.rSk + ipk.hRand * rand.rRNym;
    t := Commitments(t1, t2, t3);
  }

  method NewSignature(g: Group, cred: Credential, sk: Scalar, nym: Point, rNym: Scalar, ipk: IssuerPublicKey,
                      disclosure: seq<nat>, msg: string, rhIndex: int, alg: int,
                      rand: Randomness) returns (r: Outcome<Signature>)
    requires g.q > 0 && ipk.Valid() && |cred.attrs| >= ipk.attributes
    ensures r.Invalid? <==>
      rhIndex < 0 || rhIndex >= ipk.attributes || |disclosure| != ipk.attributes || alg != ALG_NO_REVOCATION
    ensures r.Panics? <==> !BadInput(ipk, disclosure, rhIndex, alg) && NoHandle(disclosure, rhIndex)
    ensures r.Done? ==> r.value == Sign(g, cred, sk, nym, rNym, ipk, disclosure, msg, rand)
  {
    if rhIndex < 0 || rhIndex >= ipk.attributes || |disclosure| != ipk.attributes {
      return Invalid;
    }
    if alg != ALG_NO_REVOCATION && disclosure[rhIndex] == 1 {
      return Invalid;
    }
    var hidden := HiddenIndices(disclosure);
    var p := Blind(cred, ipk, rand.r1, rand.r2);
    var rAttrs := RandomAttrs(rand, |hidden|);
    if alg != ALG_NO_REVOCATION {
      return Invalid;
    }
    if SearchInts(hidden, rhIndex) == |hidden| {
      return Panics;
    }
    var t := ComputeCommitments(ipk, disclosure, p, rand, rAttrs);
    var c := Challenge(g, ipk, t, p.aPrime, p.aBar, p.bPrime, nym, disclosure, msg, rand.nonce);
    var proofSAttrs := Respond(g, c, rAttrs, cred.attrs, hidden);
    return Done(Reply(g, p, nym, c, cred, sk, rNym, rand, proofSAttrs));
  }

  method Respond(g: Group, c: nat, rAttrs: seq<Scalar>, attrs: seq<Scalar>, hidden: seq<nat>) returns (r: seq<nat>)
    requires g.q > 0 && |rAttrs| == |hidden| && forall k | 0 <= k < |hidden| :: hidden[k] < |attrs|
    ensures r == Responses(g, c, rAttrs, Pick(attrs, hidden))
  {
    r := [];
    for i := 0 to |hidden|
      invariant r == Responses(g, c, rAttrs, Pick(attrs, hidden))[..i]
    {
      r := r + [Modadd(rAttrs[i], Modmul(c, attrs[hidden[i]], g.q), g.q)];
    }
  }

  // ----- verifying -----

  /** The commitments as the verifier recomputes them. */
  function Recommit(sig: Signature, disclosure: seq<nat>, ipk: IssuerPublicKey, values: seq<Scalar>): Commitments
    requires |disclosure| <= |ipk.hAttrs| && |disclosure| <= |values| && |sig.proofSAttrs| == |Hidden(disclosure)|
  {
    Commitments(sig.aPrime * sig.proofSE + ipk.hRand * sig.proofSR2 - (sig.aBar - sig.bPrime) * sig.proofC,
                ipk.hRand * sig.proofSSPrime + (sig.bPrime * sig.proofSR3 + ipk.hSk * sig.proofSSk)
                + Dot(HiddenBases(ipk, disclosure), sig.proofSAttrs)
                + (GenG1 + DisclosedSum(disclosure, ipk.hAttrs, values)) * sig.proofC,
                ipk.hSk * sig.proofSSk + ipk.hRand * sig.proofSRNym - sig.nym * sig.proofC)
  }

  /** What an acceptable signature satisfies; the second part compares two pairings. */
  predicate Accepts(g: Group, sig: Signature, disclosure: seq<nat>, ipk: IssuerPublicKey, msg: string,
                    values: seq<Scalar>)
    requires g.q > 0 && |disclosure| <= |ipk.hAttrs| && |disclosure| <= |values|
      && |sig.proofSAttrs| == |Hidden(disclosure)|
  {
    && sig.aPrime % g.q != 0
    && g.Same(ipk.w * sig.aPrime, sig.aBar)
    && sig.proofC
      == Challenge(g, ipk, Recommit(sig, disclosure, ipk, values), sig.aPrime, sig.aBar, sig.bPrime, sig.nym,
                               disclosure, msg, sig.nonce)
  }

  /** Well-formed for this disclosure and key. */
  predicate Fits(sig: Signature, disclosure: seq<nat>, ipk: IssuerPublicKey, rhIndex: int) {
    && !BadInput(ipk, disclosure, rhIndex, sig.revocationAlg)
    && |sig.proofSAttrs| == |Hidden(disclosure)|
  }

  method RecomputeCommitments(sig: Signature, disclosure: seq<nat>, ipk: IssuerPublicKey, values: seq<Scalar>)
    returns (t: Commitments)
    requires |disclosure| <= |ipk.hAttrs| && |disclosure| <= |values| && |sig.proofSAttrs| == |Hidden(disclosure)|
    ensures t == Recommit(sig, disclosure, ipk, values)
  {
    var t1 := sig.aPrime * sig.proofSE + ipk.hRand * sig.proofSR2;
    t1 := t1 - (sig.aBar - sig.bPrime) * sig.proofC;
    var t2 := ipk.hRand * sig.proofSSPrime;
    t2 := t2 + (sig.bPrime * sig.proofSR3 + ipk.hSk * sig.proofSSk);
    t2 := AddPairwise(t2, HiddenBases(ipk, disclosure), sig.proofSAttrs);
    var temp := AddDisclosed(GenG1, disclosure, ipk.hAttrs, values);
    t2 := t2 + temp * sig.proofC;
    var t3 := ipk.hSk * sig.proofSSk + ipk.hRand * sig.proofSRNym;
    t3 := t3 - sig.nym * sig.proofC;
    t := Commitments(t1, t2, t3);
  }

  /** The pairing of W and A', times the inverse of the pairing of the generator and ABar, is one. */
  method ComparePairings(g: Group, w: Point, aPrime: Point, aBar: Point) returns (ok: bool)
    requires g.q > 0
    ensures ok <==> g.Same(w * aPrime, aBar)
  {
    var temp1 := w * aPrime;
    var temp2 := GenG1 * aBar;
    temp2 := -temp2;
    temp1 := temp1 + temp2;
    DifferenceZero(w * aPrime, aBar, g.q);
    ok := temp1 % g.q == 0;
  }

  method Ver(g: Group, sig: Signature, disclosure: seq<nat>, ipk: IssuerPublicKey, msg: string, values: seq<Scalar>,
             rhIndex: int)
    returns (r: Outcome<()>)
    requires g.q > 0 && ipk.Valid() && |values| >= ipk.attributes
    ensures r.Done? <==>
      && 0 <= rhIndex < ipk.attributes && |disclosure| == ipk.attributes && sig.revocationAlg == ALG_NO_REVOCATION
      && |sig.proofSAttrs| == |Hidden(disclosure)| && !NoHandle(disclosure, rhIndex)
      && Accepts(g, sig, disclosure, ipk, msg, values)
    ensures r.Panics? <==> Fits(sig, disclosure, ipk, rhIndex) && NoHandle(disclosure, rhIndex)
                           && sig.aPrime % g.q != 0 && g.Same(ipk.w * sig.aPrime, sig.aBar)
  {
    if rhIndex < 0 || rhIndex >= ipk.attributes || |disclosure| != ipk.attributes {
      return Invalid;
    }
    if sig.revocationAlg != ALG_NO_REVOCATION && disclosure[rhIndex] == 1 {
      return Invalid;
    }
    var hidden := HiddenIndices(disclosure);
    if |sig.proofSAttrs| != |hidden| {
      return Invalid;
    }
    if sig.aPrime % g.q == 0 {
      return Invalid;
    }
    var paired := ComparePairings(g, ipk.w, sig.aPrime, sig.aBar);
    if !paired {
      return Invalid;
    }
    var t := RecomputeCommitments(sig, disclosure, ipk, values);
    if sig.revocationAlg != ALG_NO_REVOCATION {
      return Invalid;
    }
    if SearchInts(hidden, rhIndex) == |hidden| {
      return Panics;
    }
    var c := Challenge(g, ipk, t, sig.aPrime, sig.aBar, sig.bPrime, sig.nym, disclosure, msg, sig.nonce);
    if sig.proofC != c {
      return Invalid;
    }
    return Done(());
  }

  lemma DifferenceZero(x: int, y: int, q: nat)
    requires q > 0
    ensures (x - y) % q == 0 <==> x % q == y % q
  {
    if x % q == y % q {
      var k := SameResidue(x, y, q);
      ModUnique(x - y, q, k, 0);
    }
    if (x - y) % q == 0 {
      var k := ModWitness(x - y, q);
      ModPlus(x, q, k);
    }
  }
}
