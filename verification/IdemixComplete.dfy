/** Signatures made from a valid credential are accepted. */
module IdemixComplete {
  import opened ModArith
  import opened Idemix
  import opened IdemixCredential
  import opened IdemixSignature

  // ----- identities between integers: every reduction has added some multiple of q -----

  /** The commitment to the blinded credential. */
  lemma FirstRing(aP: int, aBar: int, bP: int, b: int, e: int, hR: int, r1: int, r2: int, re: int, rR2: int, sE: int,
                  sR2: int, c: int, q: nat, k1: int, k2: int) returns (w: int)
    requires aBar == b * r1 - aP * e && bP == b * r1 - hR * r2
    requires sE == re - c * e + q * k1 && sR2 == rR2 + c * r2 + q * k2
    ensures aP * sE + hR * sR2 - (aBar - bP) * c == aP * re + hR * rR2 + q * w
  {
    w := aP * k1 + hR * k2;
    assert aP * sE == aP * re - aP * e * c + q * (aP * k1);
    assert hR * sR2 == hR * rR2 + hR * r2 * c + q * (hR * k2);
    assert (aBar - bP) * c == hR * r2 * c - aP * e * c;
    assert q * w == q * (aP * k1) + q * (hR * k2);
  }

  /** Unblinding B' gives B, less the part that s' makes up for. */
  lemma UnblindRing(b: int, hR: int, r1: int, r2: int, r3: int, bP: int, q: nat, k: int)
    requires bP == b * r1 - hR * r2 && r1 * r3 == 1 + q * k
    ensures bP * r3 == b - hR * (r2 * r3) + q * (b * k)
  {
    assert bP * r3 == b * (r1 * r3) - hR * (r2 * r3);
    assert b * (r1 * r3) == b + q * (b * k);
  }

  /** What the challenge multiplies cancels. */
  lemma CancelRing(b: int, hR: int, s: int, r23: int, sP: int, hSk: int, sk: int, hid: int, dis: int, bPr3: int, q: nat,
                   k: int, j: int, i: int)
    returns (w: int)
    requires bPr3 == b - hR * r23 + q * k && sP == s - r23 + q * j && b == 1 + hSk * sk + hR * s + (hid + dis) + q * i
    ensures hR * sP - bPr3 + hSk * sk + hid + (1 + dis) == q * w
  {
    w := hR * j - k - i;
    assert hR * sP == hR * s - hR * r23 + q * (hR * j);
    assert q * w == q * (hR * j) - q * k - q * i;
  }

  /** The commitment to the attributes. */
  lemma SecondRing(hR: int, bP: int, hSk: int, rS: int, rR3: int, rSk: int, sS: int, sR3: int, sSk: int, c: int,
                   sP: int, r3: int, sk: int, hidS: int, hidR: int, hid: int, dis: int, q: nat, kS: int, k3: int,
                   kk: int, kh: int, z: int)
    returns (w: int)
    requires sS == rS + c * sP + q * kS && sR3 == rR3 - c * r3 + q * k3 && sSk == rSk + c * sk + q * kk
    requires hidS == hidR + c * hid + q * kh
    requires hR * sP - bP * r3 + hSk * sk + hid + (1 + dis) == q * z
    ensures hR * sS + (bP * sR3 + hSk * sSk) + hidS + (1 + dis) * c == hR * rS + (bP * rR3 + hSk * rSk) + hidR + q * w
  {
    w := hR * kS + bP * k3 + hSk * kk + kh + z * c;
    assert hR * sS == hR * rS + hR * sP * c + q * (hR * kS);
    assert bP * sR3 == bP * rR3 - bP * r3 * c + q * (bP * k3);
    assert hSk * sSk == hSk * rSk + hSk * sk * c + q * (hSk * kk);
    assert (hR * sP - bP * r3 + hSk * sk + hid + (1 + dis)) * c == q * (z * c);
    assert q * w == q * (hR * kS) + q * (bP * k3) + q * (hSk * kk) + q * kh + q * (z * c);
  }

  /** The pairing equation survives blinding. */
  lemma PairingRing(w: int, a: int, b: int, e: int, r1: int, q: nat, k: int) returns (z: int)
    requires (e + w) * a == b + q * k
    ensures w * (a * r1) == b * r1 - a * r1 * e + q * z
  {
    z := k * r1;
    assert (e + w) * a * r1 == b * r1 + q * (k * r1);
  }

  /** The sum of the responses is the response of the sums. */
  lemma {:induction false} DotResponses(g: Group, bases: seq<Point>, c: nat, rs: seq<Scalar>, xs: seq<Scalar>)
    returns (k: int)
    requires g.q > 0 && |rs| == |xs| <= |bases|
    ensures Dot(bases, Responses(g, c, rs, xs)) == Dot(bases, rs) + c * Dot(bases, xs) + g.q * k
    decreases |xs|
  {
    if xs == [] {
      k := 0;
    } else {
      var last := |xs| - 1;
      var i := DotResponses(g, bases, c, rs[..last], xs[..last]);
      var j := AddMul(rs[last], c, xs[last], g.q);
      assert Responses(g, c, rs, xs)[..last] == Responses(g, c, rs[..last], xs[..last]);
      k := i + bases[last] * j;
      StepRing(bases[last], Responses(g, c, rs, xs)[last], rs[last], xs[last], c, Dot(bases, xs[..last]), g.q, i, j);
    }
  }

  lemma StepRing(h: int, s: int, r: int, x: int, c: int, d: int, q: nat, i: int, j: int)
    requires s == r + c * x + q * j
    ensures c * d + q * i + h * s == h * r + c * (d + h * x) + q * (i + h * j)
  {
    assert h * s == h * r + c * (h * x) + q * (h * j);
    assert c * (d + h * x) == c * d + c * (h * x);
    assert q * (i + h * j) == q * i + q * (h * j);
  }

  // ----- the commitments come out as they went in -----

  lemma FirstCommitment(g: Group, cred: Credential, ipk: IssuerPublicKey, p: Blinded, rand: Randomness, c: nat, sE: nat,
                        sR2: nat)
    requires g.q > 0 && p == Blind(cred, ipk, rand.r1, rand.r2)
    requires sE == Modsub(rand.re, Modmul(c, cred.e, g.q), g.q) && sR2 == Modadd(rand.rR2, Modmul(c, rand.r2, g.q), g.q)
    ensures g.Same(p.aPrime * sE + ipk.hRand * sR2 - (p.aBar - p.bPrime) * c, p.aPrime * rand.re + ipk.hRand * rand.rR2)
  {
    var k1 := SubMul(rand.re, c, cred.e, g.q);
    var k2 := AddMul(rand.rR2, c, rand.r2, g.q);
    var w := FirstRing(p.aPrime, p.aBar, p.bPrime, cred.b, cred.e, ipk.hRand, rand.r1, rand.r2, rand.re, rand.rR2, sE,
                       sR2, c, g.q, k1, k2);
    ModPlus(p.aPrime * rand.re + ipk.hRand * rand.rR2, g.q, w);
  }

  /** Everything the second commitment hides adds up to zero. */
  lemma Balance(g: Group, cred: Credential, sk: Scalar, ipk: IssuerPublicKey, disclosure: seq<nat>, values: seq<Scalar>,
                p: Blinded, r1: Scalar, r2: Scalar) returns (w: int)
    requires g.Valid() && |disclosure| == |cred.attrs| == |values| <= |ipk.hAttrs| && Verifies(g, cred, sk, ipk)
    requires forall i | 0 <= i < |disclosure| && disclosure[i] != 0 :: values[i] == cred.attrs[i]
    requires p == Blind(cred, ipk, r1, r2) && r1 % g.q != 0
    ensures var r3 := Inverse(r1, g.q);
            ipk.hRand * Modsub(cred.s, Modmul(r2, r3, g.q), g.q) - p.bPrime * r3 + ipk.hSk * sk
            + Dot(HiddenBases(ipk, disclosure), Pick(cred.attrs, Hidden(disclosure)))
            + (1 + DisclosedSum(disclosure, ipk.hAttrs, values)) == g.q * w
  {
    var q := g.q;
    var r3 := Inverse(r1, q);
    var k := InverseWitness(r1, q);
    UnblindRing(cred.b, ipk.hRand, r1, r2, r3, p.bPrime, q, k);
    var j := SubMul(cred.s, r2, r3, q);
    var i := SameResidue(cred.b, Signed(sk, cred.s, cred.attrs, ipk), q);
    SplitSum(disclosure, ipk.hAttrs, cred.attrs);
    DisclosedMore(disclosure, ipk.hAttrs, values, cred.attrs);
    w := CancelRing(cred.b, ipk.hRand, cred.s, r2 * r3, Modsub(cred.s, Modmul(r2, r3, q), q), ipk.hSk, sk,
                    Dot(HiddenBases(ipk, disclosure), Pick(cred.attrs, Hidden(disclosure))),
                    DisclosedSum(disclosure, ipk.hAttrs, values), p.bPrime * r3, q, cred.b * k, j, i);
  }

  lemma SecondSame(g: Group, hR: int, bP: int, hSk: int, rS: int, rR3: int, rSk: int, sS: int, sR3: int, sSk: int,
                   c: nat, sP: int, r3: int, sk: int, hidS: int, hidR: int, hid: int, dis: int, kh: int, z: int)
    requires g.q > 0 && sSk == Modadd(rSk, Modmul(c, sk, g.q), g.q)
    requires sR3 == Modsub(rR3, Modmul(c, r3, g.q), g.q) && sS == Modadd(rS, Modmul(c, sP, g.q), g.q)
    requires hidS == hidR + c * hid + g.q * kh
    requires hR * sP - bP * r3 + hSk * sk + hid + (1 + dis) == g.q * z
    ensures g.Same(hR * sS + (bP * sR3 + hSk * sSk) + hidS + (GenG1 + dis) * c, hR * rS + (bP * rR3 + hSk * rSk) + hidR)
  {
    var kS := AddMul(rS, c, sP, g.q);
    var k3 := SubMul(rR3, c, r3, g.q);
    var kk := AddMul(rSk, c, sk, g.q);
    var w := SecondRing(hR, bP, hSk, rS, rR3, rSk, sS, sR3, sSk, c, sP, r3, sk, hidS, hidR, hid, dis, g.q, kS, k3, kk,
                        kh, z);
    ModPlus(hR * rS + (bP * rR3 + hSk * rSk) + hidR, g.q, w);
  }

  lemma PairingKept(g: Group, cred: Credential, sk: Scalar, ipk: IssuerPublicKey, r1: Scalar, r2: Scalar)
    requires g.q > 0 && |cred.attrs| <= |ipk.hAttrs| && Verifies(g, cred, sk, ipk)
    ensures var p := Blind(cred, ipk, r1, r2); g.Same(ipk.w * p.aPrime, p.aBar)
  {
    var k := SameResidue((cred.e + ipk.w) * cred.a, cred.b, g.q);
    var z := PairingRing(ipk.w, cred.a, cred.b, cred.e, r1, g.q, k);
    ModPlus(Blind(cred, ipk, r1, r2).aBar, g.q, z);
  }

  /**
   * Whoever has a valid credential and the pseudonym's secrets makes signatures that are
   * accepted for the disclosed values, whatever is disclosed and whatever the random choices,
   * as long as r1 is invertible and A is not the identity; otherwise they are refused.
   */
  lemma SignatureComplete(g: Group, cred: Credential, sk: Scalar, nym: Point, rNym: Scalar, ipk: IssuerPublicKey,
                          disclosure: seq<nat>, msg: string, rand: Randomness, values: seq<Scalar>)
    requires g.Valid() && |disclosure| == |cred.attrs| == |values| <= |ipk.hAttrs| && Verifies(g, cred, sk, ipk)
    requires forall i | 0 <= i < |disclosure| && disclosure[i] != 0 :: values[i] == cred.attrs[i]
    requires g.Same(nym, MakeNym(sk, ipk, rNym))
    ensures var sig := Sign(g, cred, sk, nym, rNym, ipk, disclosure, msg, rand);
            && |sig.proofSAttrs| == |Hidden(disclosure)|
            && (Accepts(g, sig, disclosure, ipk, msg, values) <==> rand.r1 % g.q != 0 && cred.a % g.q != 0)
  {
    if rand.r1 % g.q != 0 && cred.a % g.q != 0 {
      GoodSignature(g, cred, sk, nym, rNym, ipk, disclosure, msg, rand, values);
    } else {
      ProductZero(cred.a, rand.r1, g.q);
    }
  }

  lemma GoodSignature(g: Group, cred: Credential, sk: Scalar, nym: Point, rNym: Scalar, ipk: IssuerPublicKey,
                      disclosure: seq<nat>, msg: string, rand: Randomness, values: seq<Scalar>)
    requires g.Valid() && |disclosure| == |cred.attrs| == |values| <= |ipk.hAttrs| && Verifies(g, cred, sk, ipk)
    requires forall i | 0 <= i < |disclosure| && disclosure[i] != 0 :: values[i] == cred.attrs[i]
    requires g.Same(nym, MakeNym(sk, ipk, rNym)) && rand.r1 % g.q != 0 && cred.a % g.q != 0
    ensures Accepts(g, Sign(g, cred, sk, nym, rNym, ipk, disclosure, msg, rand), disclosure, ipk, msg, values)
  {
    var sig := Sign(g, cred, sk, nym, rNym, ipk, disclosure, msg, rand);
    var p := Blind(cred, ipk, rand.r1, rand.r2);
    var rAttrs := RandomAttrs(rand, |Hidden(disclosure)|);
    ProductNonzero(cred.a, rand.r1, g.q);
    PairingKept(g, cred, sk, ipk, rand.r1, rand.r2);
    FirstCommitment(g, cred, ipk, p, rand, sig.proofC, sig.proofSE, sig.proofSR2);
    var bases, attrs := HiddenBases(ipk, disclosure), Pick(cred.attrs, Hidden(disclosure));
    var r3 := Inverse(rand.r1, g.q);
    var z := Balance(g, cred, sk, ipk, disclosure, values, p, rand.r1, rand.r2);
    var kh := DotResponses(g, bases, sig.proofC, rAttrs, attrs);
    SecondSame(g, ipk.hRand, p.bPrime, ipk.hSk, rand.rSPrime, rand.rR3, rand.rSk, sig.proofSSPrime, sig.proofSR3,
               sig.proofSSk, sig.proofC, Modsub(cred.s, Modmul(rand.r2, r3, g.q), g.q), r3, sk,
               Dot(bases, sig.proofSAttrs), Dot(bases, rAttrs), Dot(bases, attrs),
               DisclosedSum(disclosure, ipk.hAttrs, values), kh, z);
    NymRespond(g, ipk.hSk, ipk.hRand, nym, sk, rNym, sig.proofC, rand.rSk, rand.rRNym, sig.proofSSk, sig.proofSRNym);
    SameChallenge(g, ipk, Commit(ipk, disclosure, p, rand, rAttrs), Recommit(sig, disclosure, ipk, values), p, nym,
                  disclosure, msg, rand.nonce);
  }

  lemma SameChallenge(g: Group, ipk: IssuerPublicKey, t: Commitments, t': Commitments, p: Blinded, nym: Point,
                      disclosure: seq<nat>, msg: string, nonce: nat)
    requires g.q > 0 && g.Same(t'.t1, t.t1) && g.Same(t'.t2, t.t2) && g.Same(t'.t3, t.t3)
    ensures Challenge(g, ipk, t, p.aPrime, p.aBar, p.bPrime, nym, disclosure, msg, nonce)
         == Challenge(g, ipk, t', p.aPrime, p.aBar, p.bPrime, nym, disclosure, msg, nonce)
  {
  }

  /** The whole protocol: request, issuance, signature, with the disclosed values of the issued attributes. */
  lemma ProtocolComplete(g: Group, key: IssuerKey, sk: Scalar, issuerNonce: string, rSk: Scalar, cred: Credential,
                         nym: Point, rNym: Scalar, disclosure: seq<nat>, msg: string, rand: Randomness)
    requires g.Valid() && g.Same(key.ipk.w, key.isk) && (key.isk + cred.e) % g.q != 0
    requires IssuedFor(g, key, NewCredRequest(g, sk, issuerNonce, key.ipk, rSk).nym, cred) && cred.a % g.q != 0
    requires |disclosure| == |cred.attrs| && g.Same(nym, MakeNym(sk, key.ipk, rNym)) && rand.r1 % g.q != 0
    ensures Check(g, NewCredRequest(g, sk, issuerNonce, key.ipk, rSk), key.ipk)
    ensures var sig := Sign(g, cred, sk, nym, rNym, key.ipk, disclosure, msg, rand);
            |sig.proofSAttrs| == |Hidden(disclosure)| && Accepts(g, sig, disclosure, key.ipk, msg, cred.attrs)
  {
    IssuanceComplete(g, key, sk, issuerNonce, rSk, cred);
    SignatureComplete(g, cred, sk, nym, rNym, key.ipk, disclosure, msg, rand, cred.attrs);
  }

  /** What an issued credential's A is zero for: the point it signs. */
  lemma IssuedNonzero(g: Group, key: IssuerKey, sk: Scalar, cred: Credential)
    requires g.Valid() && (key.isk + cred.e) % g.q != 0 && IssuedFor(g, key, key.ipk.hSk * sk, cred)
    ensures cred.a % g.q != 0 <==> Signed(sk, cred.s, cred.attrs, key.ipk) % g.q != 0
  {
    ModTwice(key.isk + cred.e, g.q);
    TimesInverse(cred.b, Modadd(key.isk, cred.e, g.q), g.q);
    assert cred.b == Signed(sk, cred.s, cred.attrs, key.ipk);
  }

  /**
   * The protocol as it runs, from the request to the verification of a signature under a fresh pseudonym: for inputs of
   * the right sizes it ends well unless there is no hidden attribute at or after the revocation handle, r1 is zero or
   * the credential signs the identity; a hidden handle is enough for the first.
   */
  method RunProtocol(g: Group, key: IssuerKey, sk: Scalar, issuerNonce: string, rSk: Scalar,
                     attrs: seq<Scalar>, e: Scalar, s: Scalar, rNym: Scalar,
                     disclosure: seq<nat>, msg: string, rhIndex: nat, rand: Randomness)
    returns (r: Outcome<()>)
    requires g.Valid() && key.ipk.Valid() && g.Same(key.ipk.w, key.isk) && (key.isk + e) % g.q != 0
    requires |attrs| == |disclosure| == key.ipk.attributes && rhIndex < key.ipk.attributes
    ensures r.Panics? <==> NoHandle(disclosure, rhIndex)
    ensures r.Done? <==>
      && !NoHandle(disclosure, rhIndex)
      && rand.r1 % g.q != 0 && Signed(sk, s, attrs, key.ipk) % g.q != 0
    ensures disclosure[rhIndex] == 0 ==> !r.Panics?
  {
    if disclosure[rhIndex] == 0 { HandleFound(disclosure, rhIndex); }
    var request := NewCredRequest(g, sk, issuerNonce, key.ipk, rSk);
    RequestComplete(g, sk, issuerNonce, key.ipk, rSk);
    var issued := NewCredential(g, key, request, attrs, e, s);
    var cred := issued.value;
    IssuanceComplete(g, key, sk, issuerNonce, rSk, cred);
    IssuedNonzero(g, key, sk, cred);
    var nym := MakeNym(sk, key.ipk, rNym);
    var signed := NewSignature(g, cred, sk, nym, rNym, key.ipk, disclosure, msg, rhIndex, ALG_NO_REVOCATION, rand);
    if !signed.Done? { return Panics; }
    SignatureComplete(g, cred, sk, nym, rNym, key.ipk, disclosure, msg, rand, attrs);
    r := IdemixSignature.Ver(g, signed.value, disclosure, key.ipk, msg, attrs, rhIndex);
  }
}
