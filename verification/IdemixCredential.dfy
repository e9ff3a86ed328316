/** Credential requests, pseudonym signatures and credentials. */
module IdemixCredential {
  import opened Wrappers
  import opened ModArith
  import opened Idemix

  // ----- credential requests -----

  datatype CredRequest = CredRequest(nym: Point, issuerNonce: Option<string>, proofC: nat, proofS: nat)

  function RequestChallenge(g: Group, ipk: IssuerPublicKey, t: Point, nym: Point, nonce: string): nat
    requires g.q > 0
  {
    g.HashModOrder(RequestData(t % g.q, ipk.hSk % g.q, nym % g.q, nonce, ipk.hash))
  }

  function NewCredRequest(g: Group, sk: Scalar, nonce: string, ipk: IssuerPublicKey, rSk: Scalar): CredRequest
    requires g.q > 0
  {
    var nym := ipk.hSk * sk;
    var t := ipk.hSk * rSk;
    var proofC := RequestChallenge(g, ipk, t, nym, nonce);
    CredRequest(nym, Some(nonce), proofC, Modadd(Modmul(proofC, sk, g.q), rSk, g.q))
  }

  /** The commitment as the verifier recomputes it. */
  function RequestCommitment(m: CredRequest, ipk: IssuerPublicKey): Point {
    ipk.hSk * m.proofS - m.nym * m.proofC
  }

  predicate Check(g: Group, m: CredRequest, ipk: IssuerPublicKey)
    requires g.q > 0
  {
    && m.issuerNonce.Some?
    && m.proofC == RequestChallenge(g, ipk, RequestCommitment(m, ipk), m.nym, m.issuerNonce.value)
  }

  /** Honest requests pass. */
  lemma RequestComplete(g: Group, sk: Scalar, nonce: string, ipk: IssuerPublicKey, rSk: Scalar)
    requires g.q > 0
    ensures Check(g, NewCredRequest(g, sk, nonce, ipk, rSk), ipk)
  {
    var m := NewCredRequest(g, sk, nonce, ipk, rSk);
    var k := AddMul(rSk, m.proofC, sk, g.q);
    Respond(ipk.hSk, m.proofS, rSk, m.proofC, sk, g.q, k);
    ModPlus(ipk.hSk * rSk, g.q, ipk.hSk * k);
  }

  lemma Respond(h: int, s: int, r: int, c: int, x: int, q: nat, k: int)
    requires s == r + c * x + q * k
    ensures h * s - h * x * c == h * r + q * (h * k)
  {
    assert h * s == h * r + h * x * c + q * (h * k);
  }

  /** Dividing the difference of two responses by that of their challenges. */
  function Quotient(g: Group, s: Scalar, s': Scalar, c: nat, c': nat): Scalar
    requires g.q > 0
  {
    (s - s') * Inverse(c - c', g.q)
  }

  lemma DifferentChallenges(g: Group, c: nat, c': nat) returns (k: int)
    requires g.Valid() && c < g.q && c' < g.q && c != c'
    ensures (c - c') * Inverse(c - c', g.q) == 1 + g.q * k
  {
    var d := c - c';
    if d % g.q == 0 {
      if d > 0 {
        ModUnique(d, g.q, 0, d);
      } else {
        ModUnique(d, g.q, -1, d + g.q);
      }
    }
    k := InverseWitness(d, g.q);
  }

  /** From `x * d == y` up to multiples of q, `x == y * v` where v is the inverse of d. */
  lemma Divide(g: Group, x: int, y: int, d: int, v: int, k: int, j: int)
    requires g.q > 0 && d * v == 1 + g.q * k && x * d == y + g.q * j
    ensures g.Same(x, y * v)
  {
    var w := DivideRing(x, y, d, v, g.q, k, j);
    ModPlus(y * v, g.q, w);
  }

  lemma DivideRing(x: int, y: int, d: int, v: int, q: nat, k: int, j: int) returns (w: int)
    requires d * v == 1 + q * k && x * d == y + q * j
    ensures x == y * v + q * w
  {
    w := j * v - x * k;
    assert x * (d * v) == x + q * (x * k);
    assert x * d * v == y * v + q * (j * v);
    assert q * w == q * (j * v) - q * (x * k);
  }

  /** Two equations that differ in the challenge give away what it multiplies. */
  lemma Solve(g: Group, x: Point, c: nat, c': nat, l: int, l': int)
    requires g.Valid() && c < g.q && c' < g.q && c != c' && g.Same(l - x * c, l' - x * c')
    ensures g.Same(x, (l - l') * Inverse(c - c', g.q))
  {
    var k := DifferentChallenges(g, c, c');
    var j := SameResidue(l' - x * c', l - x * c, g.q);
    assert x * (c - c') == x * c - x * c';
    Divide(g, x, l - l', c - c', Inverse(c - c', g.q), k, j);
  }

  lemma NymExtract(g: Group, hSk: int, hRand: int, nym: Point, c: nat, c': nat, s: int, s': int, sNym: int, sNym': int)
    requires g.Valid() && c < g.q && c' < g.q && c != c'
    requires g.Same(hSk * s + hRand * sNym - nym * c, hSk * s' + hRand * sNym' - nym * c')
    ensures g.Same(nym, hSk * Quotient(g, s, s', c, c') + hRand * Quotient(g, sNym, sNym', c, c'))
  {
    Solve(g, nym, c, c', hSk * s + hRand * sNym, hSk * s' + hRand * sNym');
    QuotientRing(hSk, hRand, s, s', sNym, sNym', Inverse(c - c', g.q));
  }

  lemma QuotientRing(hSk: int, hRand: int, s: int, s': int, r: int, r': int, v: int)
    ensures (hSk * s + hRand * r - (hSk * s' + hRand * r')) * v == hSk * ((s - s') * v) + hRand * ((r - r') * v)
  {
  }

  /** Two accepted requests with one commitment and two challenges give away the secret key behind the pseudonym. */
  lemma RequestSound(g: Group, m: CredRequest, m': CredRequest, ipk: IssuerPublicKey)
    requires g.Valid() && Check(g, m, ipk) && Check(g, m', ipk)
    requires m.nym == m'.nym && m.proofC != m'.proofC
    requires g.Same(RequestCommitment(m, ipk), RequestCommitment(m', ipk))
    ensures g.Same(m.nym, ipk.hSk * Quotient(g, m.proofS, m'.proofS, m.proofC, m'.proofC))
  {
    NymExtract(g, ipk.hSk, 0, m.nym, m.proofC, m'.proofC, m.proofS, m'.proofS, 0, 0);
  }

  // ----- pseudonyms -----

  function MakeNym(sk: Scalar, ipk: IssuerPublicKey, r: Scalar): Point {
    ipk.hSk * sk + ipk.hRand * r
  }

  datatype NymSignature = NymSignature(proofC: nat, proofSSk: nat, proofSRNym: nat, nonce: nat)

  function NymChallenge(g: Group, ipk: IssuerPublicKey, t: Point, nym: Point, msg: string, nonce: nat): nat
    requires g.q > 0
  {
    var c := g.HashModOrder(NymSignData(t % g.q, nym % g.q, ipk.hash, msg));
    g.HashModOrder(NonceData(c, nonce))
  }

  function NewNymSignature(g: Group, sk: Scalar, nym: Point, rNym: Scalar, ipk: IssuerPublicKey, msg: string,
                           nonce: nat, rSk: Scalar, rRNym: Scalar): NymSignature
    requires g.q > 0
  {
    var t := ipk.hSk * rSk + ipk.hRand * rRNym;
    var proofC := NymChallenge(g, ipk, t, nym, msg, nonce);
    NymSignature(proofC,
                 Modadd(rSk, Modmul(proofC, sk, g.q), g.q),
                 Modadd(rRNym, Modmul(proofC, rNym, g.q), g.q),
                 nonce)
  }

  function NymCommitment(sig: NymSignature, nym: Point, ipk: IssuerPublicKey): Point {
    ipk.hSk * sig.proofSSk + ipk.hRand * sig.proofSRNym - nym * sig.proofC
  }

  predicate NymVer(g: Group, sig: NymSignature, nym: Point, ipk: IssuerPublicKey, msg: string)
    requires g.q > 0
  {
    sig.proofC == NymChallenge(g, ipk, NymCommitment(sig, nym, ipk), nym, msg, sig.nonce)
  }

  /** The commitment to a pseudonym comes out as it went in. */
  lemma NymRespond(g: Group, hSk: int, hRand: int, nym: Point, sk: Scalar, rNym: Scalar, c: nat, rSk: Scalar,
                   rRNym: Scalar, s: nat, sNym: nat)
    requires g.q > 0 && g.Same(nym, hSk * sk + hRand * rNym)
    requires s == Modadd(rSk, Modmul(c, sk, g.q), g.q) && sNym == Modadd(rRNym, Modmul(c, rNym, g.q), g.q)
    ensures g.Same(hSk * s + hRand * sNym - nym * c, hSk * rSk + hRand * rRNym)
  {
    var q := g.q;
    var i := AddMul(rSk, c, sk, q);
    var j := AddMul(rRNym, c, rNym, q);
    var k := SameResidue(nym, hSk * sk + hRand * rNym, q);
    var w := NymRespondRing(hSk, hRand, nym, sk, rNym, c, rSk, rRNym, s, sNym, q, i, j, k);
    ModPlus(hSk * rSk + hRand * rRNym, q, w);
  }

  lemma NymRespondRing(hSk: int, hRand: int, nym: int, sk: int, rNym: int, c: int, rSk: int, rRNym: int, s: int,
                       sNym: int, q: nat, i: int, j: int, k: int) returns (w: int)
    requires nym == hSk * sk + hRand * rNym + q * k
    requires s == rSk + c * sk + q * i && sNym == rRNym + c * rNym + q * j
    ensures hSk * s + hRand * sNym - nym * c == hSk * rSk + hRand * rRNym + q * w
  {
    w := hSk * i + hRand * j - k * c;
    Respond(hSk, s, rSk, c, sk, q, i);
    Respond(hRand, sNym, rRNym, c, rNym, q, j);
    assert nym * c == hSk * sk * c + hRand * rNym * c + q * (k * c);
    assert q * w == q * (hSk * i) + q * (hRand * j) - q * (k * c);
  }

  /** Signatures by the owner of the pseudonym pass. */
  lemma NymComplete(g: Group, sk: Scalar, nym: Point, rNym: Scalar, ipk: IssuerPublicKey, msg: string, nonce: nat,
                    rSk: Scalar, rRNym: Scalar)
    requires g.q > 0 && g.Same(nym, MakeNym(sk, ipk, rNym))
    ensures NymVer(g, NewNymSignature(g, sk, nym, rNym, ipk, msg, nonce, rSk, rRNym), nym, ipk, msg)
  {
    var sig := NewNymSignature(g, sk, nym, rNym, ipk, msg, nonce, rSk, rRNym);
    NymRespond(g, ipk.hSk, ipk.hRand, nym, sk, rNym, sig.proofC, rSk, rRNym, sig.proofSSk, sig.proofSRNym);
  }

  /** Two accepted signatures for one pseudonym, with one commitment and two
      challenges, give away what it is made of. */
  lemma NymSound(g: Group, sig: NymSignature, sig': NymSignature, nym: Point, ipk: IssuerPublicKey, msg: string,
                 msg': string)
    requires g.Valid() && NymVer(g, sig, nym, ipk, msg) && NymVer(g, sig', nym, ipk, msg')
    requires sig.proofC != sig'.proofC && g.Same(NymCommitment(sig, nym, ipk), NymCommitment(sig', nym, ipk))
    ensures g.Same(nym, MakeNym(Quotient(g, sig.proofSSk, sig'.proofSSk, sig.proofC, sig'.proofC), ipk,
                                Quotient(g, sig.proofSRNym, sig'.proofSRNym, sig.proofC, sig'.proofC)))
  {
    NymExtract(g, ipk.hSk, ipk.hRand, nym, sig.proofC, sig'.proofC, sig.proofSSk, sig'.proofSSk, sig.proofSRNym,
               sig'.proofSRNym);
  }

  // ----- credentials -----

  datatype Credential = Credential(a: Point, b: Point, e: Scalar, s: Scalar, attrs: seq<Scalar>)

  /** What a credential signs. */
  function Signed(sk: Scalar, s: Scalar, attrs: seq<Scalar>, ipk: IssuerPublicKey): Point
    requires |attrs| <= |ipk.hAttrs|
  {
    GenG1 + ipk.hSk * sk + ipk.hRand * s + Dot(ipk.hAttrs, attrs)
  }

  /** A signature on the key and the attributes; the second part compares two pairings. */
  predicate Verifies(g: Group, cred: Credential, sk: Scalar, ipk: IssuerPublicKey)
    requires g.q > 0 && |cred.attrs| <= |ipk.hAttrs|
  {
    && g.Same(cred.b, Signed(sk, cred.s, cred.attrs, ipk))
    && g.Same((cred.e + ipk.w) * cred.a, cred.b)
  }

  method NewCredential(g: Group, key: IssuerKey, m: CredRequest, attrs: seq<Scalar>, e: Scalar, s: Scalar)
    returns (r: Option<Credential>)
    requires g.q > 0 && key.ipk.Valid()
    ensures r.Some? <==> Check(g, m, key.ipk) && |attrs| == key.ipk.attributes
    ensures r.Some? ==> IssuedFor(g, key, m.nym, r.value) && r.value.attrs == attrs && r.value.e == e && r.value.s == s
  {
    if !Check(g, m, key.ipk) || |attrs| != key.ipk.attributes {
      return None;
    }
    var b := GenG1;
    b := b + m.nym;
    b := b + key.ipk.hRand * s;
    b := AddPairwise(b, key.ipk.hAttrs, attrs);
    var exp := Inverse(Modadd(key.isk, e, g.q), g.q);
    return Some(Credential(b * exp, b, e, s, attrs));
  }

  predicate IssuedFor(g: Group, key: IssuerKey, nym: Point, cred: Credential)
    requires g.q > 0
  {
    && |cred.attrs| <= |key.ipk.hAttrs|
    && cred.b == GenG1 + nym + key.ipk.hRand * cred.s + Dot(key.ipk.hAttrs, cred.attrs)
    && cred.a == cred.b * Inverse(Modadd(key.isk, cred.e, g.q), g.q)
  }

  method Ver(g: Group, cred: Credential, sk: Scalar, ipk: IssuerPublicKey) returns (ok: bool)
    requires g.q > 0 && |cred.attrs| <= |ipk.hAttrs|
    ensures ok <==> Verifies(g, cred, sk, ipk)
  {
    var bPrime := GenG1;
    bPrime := bPrime + (ipk.hSk * sk + ipk.hRand * cred.s);
    bPrime := AddPairwise(bPrime, ipk.hAttrs, cred.attrs);
    if !g.Same(cred.b, bPrime) {
      return false;
    }
    var a := GenG1 * cred.e;
    a := a + ipk.w;
    return g.Same(a * cred.a, GenG1 * cred.b);
  }

  /** What is issued for a pseudonym verifies under its secret key. */
  lemma IssuedVerifies(g: Group, key: IssuerKey, nym: Point, sk: Scalar, cred: Credential)
    requires g.Valid() && IssuedFor(g, key, nym, cred)
    requires g.Same(key.ipk.w, key.isk) && g.Same(nym, key.ipk.hSk * sk) && (key.isk + cred.e) % g.q != 0
    ensures Verifies(g, cred, sk, key.ipk)
  {
    var q := g.q;
    var n := SameResidue(nym, key.ipk.hSk * sk, q);
    ModPlus(Signed(sk, cred.s, cred.attrs, key.ipk), q, n);

    var x := Modadd(key.isk, cred.e, q);
    ModUnique(x, q, 0, x);
    var k := InverseWitness(x, q);
    var i := ModWitness(key.isk + cred.e, q);
    var j := SameResidue(key.ipk.w, key.isk, q);
    var w := Exponent(cred.e + key.ipk.w, cred.b, x, Inverse(x, q), q, k, j - i);
    ModPlus(cred.b, q, w);
  }

  lemma Exponent(z: int, b: int, x: int, v: int, q: nat, k: int, j: int) returns (w: int)
    requires x * v == 1 + q * k && z == x + q * j
    ensures z * (b * v) == b + q * w
  {
    w := b * k + j * b * v;
    assert z * (b * v) == (x * v) * b + q * (j * b * v);
    assert (x * v) * b == b + q * (b * k);
  }

  /** Issuance as a whole: an honest request is granted, and the credential verifies. */
  lemma IssuanceComplete(g: Group, key: IssuerKey, sk: Scalar, nonce: string, rSk: Scalar, cred: Credential)
    requires g.Valid() && g.Same(key.ipk.w, key.isk) && (key.isk + cred.e) % g.q != 0
    requires IssuedFor(g, key, NewCredRequest(g, sk, nonce, key.ipk, rSk).nym, cred)
    ensures Check(g, NewCredRequest(g, sk, nonce, key.ipk, rSk), key.ipk)
    ensures Verifies(g, cred, sk, key.ipk)
  {
    RequestComplete(g, sk, nonce, key.ipk, rSk);
    IssuedVerifies(g, key, key.ipk.hSk * sk, sk, cred);
  }
}
