/** Two signatures with the same commitments and different challenges give away a valid credential. */
module IdemixSound {
  import opened ModArith
  import opened Idemix
  import opened IdemixCredential
  import opened IdemixSignature

  /** The two signatures start the same way and answer two challenges. */
  predicate Forked(g: Group, sig: Signature, sig': Signature, disclosure: seq<nat>, ipk: IssuerPublicKey,
                   values: seq<Scalar>)
    requires g.q > 0 && |disclosure| <= |ipk.hAttrs| && |disclosure| <= |values|
    requires |sig.proofSAttrs| == |sig'.proofSAttrs| == |Hidden(disclosure)|
  {
    var t, t' := Recommit(sig, disclosure, ipk, values), Recommit(sig', disclosure, ipk, values);
    && sig.aPrime == sig'.aPrime && sig.aBar == sig'.aBar && sig.bPrime == sig'.bPrime && sig.nym == sig'.nym
    && sig.proofC != sig'.proofC
    && g.Same(t.t1, t'.t1) && g.Same(t.t2, t'.t2) && g.Same(t.t3, t'.t3)
  }

  function Quotients(g: Group, s: seq<Scalar>, s': seq<Scalar>, c: nat, c': nat): (r: seq<Scalar>)
    requires g.q > 0 && |s| == |s'|
    ensures |r| == |s|
  {
    seq(|s|, i requires 0 <= i < |s| => Quotient(g, s[i], s'[i], c, c'))
  }

  /** All attributes: the given hidden ones and the disclosed ones. */
  function FillIn(disclosure: seq<nat>, hidden: seq<Scalar>, values: seq<Scalar>): (r: seq<Scalar>)
    requires |hidden| == |Hidden(disclosure)| && |disclosure| <= |values|
    ensures |r| == |disclosure|
    ensures forall i | 0 <= i < |disclosure| && disclosure[i] != 0 :: r[i] == values[i]
  {
    if disclosure == [] then []
    else
      var last := |disclosure| - 1;
      var init := disclosure[..last];
      if disclosure[last] == 0 then FillIn(init, hidden[..|hidden| - 1], values) + [hidden[|hidden| - 1]]
      else FillIn(init, hidden, values) + [values[last]]
  }

  lemma PickPrefix(xs: seq<int>, ys: seq<int>, indices: seq<nat>)
    requires xs <= ys && forall k | 0 <= k < |indices| :: indices[k] < |xs|
    ensures Pick(xs, indices) == Pick(ys, indices)
  {
  }

  lemma {:induction false} FillInHidden(disclosure: seq<nat>, hidden: seq<Scalar>, values: seq<Scalar>)
    requires |hidden| == |Hidden(disclosure)| && |disclosure| <= |values|
    ensures Pick(FillIn(disclosure, hidden, values), Hidden(disclosure)) == hidden
  {
    if disclosure != [] {
      var last := |disclosure| - 1;
      var init := disclosure[..last];
      var all := FillIn(disclosure, hidden, values);
      if disclosure[last] == 0 {
        var front := hidden[..|hidden| - 1];
        FillInHidden(init, front, values);
        PickPrefix(FillIn(init, front, values), all, Hidden(init));
        PickSnoc(all, Hidden(init), last);
      } else {
        FillInHidden(init, hidden, values);
        PickPrefix(FillIn(init, hidden, values), all, Hidden(init));
      }
    }
  }

  lemma {:induction false} DotQuotients(g: Group, bases: seq<Point>, s: seq<Scalar>, s': seq<Scalar>, c: nat, c': nat)
    requires g.q > 0 && |s| == |s'| <= |bases|
    ensures Dot(bases, Quotients(g, s, s', c, c')) == (Dot(bases, s) - Dot(bases, s')) * Inverse(c - c', g.q)
    decreases |s|
  {
    if s != [] {
      var last := |s| - 1;
      DotQuotients(g, bases, s[..last], s'[..last], c, c');
      assert Quotients(g, s, s', c, c')[..last] == Quotients(g, s[..last], s'[..last], c, c');
      QuotientRing(1, bases[last], Dot(bases, s[..last]), Dot(bases, s'[..last]), s[last], s'[last],
                   Inverse(c - c', g.q));
    }
  }

  // ----- what is extracted -----

  /** The responses' differences, divided by that of the challenges; two responses subtract. */
  datatype Secrets = Secrets(sk: Scalar, rNym: Scalar, e: Scalar, r2: Scalar, r3: Scalar, sPrime: Scalar,
                             hidden: seq<Scalar>)

  function Extract(g: Group, sig: Signature, sig': Signature): (x: Secrets)
    requires g.q > 0 && |sig.proofSAttrs| == |sig'.proofSAttrs|
    ensures |x.hidden| == |sig.proofSAttrs|
  {
    var c, c' := sig.proofC, sig'.proofC;
    Secrets(Quotient(g, sig.proofSSk, sig'.proofSSk, c, c'),
            Quotient(g, sig.proofSRNym, sig'.proofSRNym, c, c'),
            -Quotient(g, sig.proofSE, sig'.proofSE, c, c'),
            Quotient(g, sig.proofSR2, sig'.proofSR2, c, c'),
            -Quotient(g, sig.proofSR3, sig'.proofSR3, c, c'),
            Quotient(g, sig.proofSSPrime, sig'.proofSSPrime, c, c'),
            Quotients(g, sig.proofSAttrs, sig'.proofSAttrs, c, c'))
  }

  /** A credential made of the secrets and the disclosed attributes. */
  function Rebuild(x: Secrets, aPrime: Point, disclosure: seq<nat>, ipk: IssuerPublicKey,
                   values: seq<Scalar>): (cred: Credential)
    requires |disclosure| <= |ipk.hAttrs| && |disclosure| <= |values| && |x.hidden| == |Hidden(disclosure)|
    ensures |cred.attrs| == |disclosure| && cred.b == Signed(x.sk, cred.s, cred.attrs, ipk)
    ensures forall i | 0 <= i < |disclosure| && disclosure[i] != 0 :: cred.attrs[i] == values[i]
  {
    var s := x.sPrime + x.r2 * x.r3;
    var attrs := FillIn(disclosure, x.hidden, values);
    Credential(aPrime * x.r3, Signed(x.sk, s, attrs, ipk), x.e, s, attrs)
  }

  /** The commitment to the attributes, solved. */
  lemma SecondSolved(g: Group, hR: int, bP: int, hSk: int, dis: int, c: nat, c': nat,
                     sS: int, sS': int, sR3: int, sR3': int, sSk: int, sSk': int, hid: int, hid': int) returns (k: int)
    requires g.Valid() && c < g.q && c' < g.q && c != c'
    requires g.Same(hR * sS + (bP * sR3 + hSk * sSk) + hid + (GenG1 + dis) * c,
                    hR * sS' + (bP * sR3' + hSk * sSk') + hid' + (GenG1 + dis) * c')
    ensures -(1 + dis) == hR * Quotient(g, sS, sS', c, c') + bP * Quotient(g, sR3, sR3', c, c')
                          + hSk * Quotient(g, sSk, sSk', c, c') + (hid - hid') * Inverse(c - c', g.q) + g.q * k
  {
    var l, l' := hR * sS + (bP * sR3 + hSk * sSk) + hid, hR * sS' + (bP * sR3' + hSk * sSk') + hid';
    NegateRing(1 + dis, c, c');
    Solve(g, -(1 + dis), c, c', l, l');
    k := SameResidue(-(1 + dis), (l - l') * Inverse(c - c', g.q), g.q);
    SecondQuotientRing(hR, bP, hSk, sS, sS', sR3, sR3', sSk, sSk', hid, hid', Inverse(c - c', g.q));
  }

  lemma NegateRing(x: int, c: int, c': int)
    ensures -(-x) * c == x * c && -x * c == -(x * c) && -x * c' == -(x * c')
  {
  }

  lemma SecondQuotientRing(hR: int, bP: int, hSk: int, a: int, a': int, b: int, b': int, d: int, d': int, h: int,
                           h': int, v: int)
    ensures (hR * a + (bP * b + hSk * d) + h - (hR * a' + (bP * b' + hSk * d') + h')) * v
         == hR * ((a - a') * v) + bP * ((b - b') * v) + hSk * ((d - d') * v) + (h - h') * v
  {
  }

  /** The three relations together are the signature equation of a credential. */
  lemma CredentialRing(w: int, aP: int, aBar: int, bP: int, hR: int, hSk: int, e: int, r2: int, r3: int, sP: int,
                       sk: int, hid: int, dis: int, q: nat, i: int, j: int, k: int) returns (z: int)
    requires w * aP == aBar + q * i
    requires aBar - bP == hR * r2 - aP * e + q * j
    requires -(1 + dis) == hR * sP - bP * r3 + hSk * sk + hid + q * k
    ensures (e + w) * (aP * r3) == 1 + hSk * sk + hR * (sP + r2 * r3) + (hid + dis) + q * z
  {
    z := (i + j) * r3 + k;
    var y := bP + hR * r2 + q * (i + j);
    assert (e + w) * aP == y by {
      assert (e + w) * aP == aP * e + w * aP;
      assert q * (i + j) == q * i + q * j;
    }
    UnblindedRing((e + w) * aP, bP, hR, r2, r3, q, i + j);
    assert (e + w) * (aP * r3) == ((e + w) * aP) * r3;
    assert hR * (sP + r2 * r3) == hR * sP + hR * (r2 * r3);
    assert q * z == q * ((i + j) * r3) + q * k;
  }

  lemma UnblindedRing(y: int, bP: int, hR: int, r2: int, r3: int, q: nat, k: int)
    requires y == bP + hR * r2 + q * k
    ensures y * r3 == bP * r3 + hR * (r2 * r3) + q * (k * r3)
  {
  }

  lemma FillInSum(disclosure: seq<nat>, bases: seq<Point>, hidden: seq<Scalar>, values: seq<Scalar>)
    requires |disclosure| <= |bases| && |disclosure| <= |values| && |hidden| == |Hidden(disclosure)|
    ensures Dot(bases, FillIn(disclosure, hidden, values))
         == Dot(Pick(bases, Hidden(disclosure)), hidden) + DisclosedSum(disclosure, bases, values)
  {
    var attrs := FillIn(disclosure, hidden, values);
    FillInHidden(disclosure, hidden, values);
    SplitSum(disclosure, bases, attrs);
    DisclosedMore(disclosure, bases, attrs, values);
  }

  lemma SolvedEquation(g: Group, sk: Scalar, ipk: IssuerPublicKey, aP: Point, aBar: Point, bP: Point, e: Scalar,
                       r2: Scalar, r3: Scalar, sP: Scalar, attrs: seq<Scalar>, hid: int, dis: int, i: int, j: int,
                       k: int) returns (z: int)
    requires |attrs| <= |ipk.hAttrs| && Dot(ipk.hAttrs, attrs) == hid + dis
    requires ipk.w * aP == aBar + g.q * i
    requires aBar - bP == ipk.hRand * r2 - aP * e + g.q * j
    requires -(1 + dis) == ipk.hRand * sP - bP * r3 + ipk.hSk * sk + hid + g.q * k
    ensures (e + ipk.w) * (aP * r3) == Signed(sk, sP + r2 * r3, attrs, ipk) + g.q * z
  {
    z := CredentialRing(ipk.w, aP, aBar, bP, ipk.hRand, ipk.hSk, e, r2, r3, sP, sk, hid, dis, g.q, i, j, k);
  }

  lemma EquationVerifies(g: Group, cred: Credential, sk: Scalar, ipk: IssuerPublicKey, z: int)
    requires g.q > 0 && |cred.attrs| <= |ipk.hAttrs| && cred.b == Signed(sk, cred.s, cred.attrs, ipk)
    requires (cred.e + ipk.w) * cred.a == cred.b + g.q * z
    ensures Verifies(g, cred, sk, ipk)
  {
    ModPlus(cred.b, g.q, z);
  }

  lemma SolvedVerifies(g: Group, sk: Scalar, ipk: IssuerPublicKey, aP: Point, aBar: Point, bP: Point, e: Scalar,
                       r2: Scalar, r3: Scalar, sP: Scalar, cred: Credential, hid: int, dis: int, i: int, j: int, k: int)
    requires g.q > 0 && |cred.attrs| <= |ipk.hAttrs| && Dot(ipk.hAttrs, cred.attrs) == hid + dis
    requires cred.a == aP * r3
    requires cred.e == e
    requires cred.s == sP + r2 * r3
    requires cred.b == Signed(sk, cred.s, cred.attrs, ipk)
    requires ipk.w * aP == aBar + g.q * i
    requires aBar - bP == ipk.hRand * r2 - aP * e + g.q * j
    requires -(1 + dis) == ipk.hRand * sP - bP * r3 + ipk.hSk * sk + hid + g.q * k
    ensures Verifies(g, cred, sk, ipk)
  {
    var z := SolvedEquation(g, sk, ipk, aP, aBar, bP, e, r2, r3, sP, cred.attrs, hid, dis, i, j, k);
    EquationVerifies(g, cred, sk, ipk, z);
  }

  lemma RebuiltVerifies(g: Group, x: Secrets, aPrime: Point, aBar: Point, bPrime: Point, disclosure: seq<nat>,
                        ipk: IssuerPublicKey, values: seq<Scalar>, i: int, j: int, k: int)
    requires g.q > 0 && |disclosure| <= |ipk.hAttrs| && |disclosure| <= |values| && |x.hidden| == |Hidden(disclosure)|
    requires ipk.w * aPrime == aBar + g.q * i
    requires aBar - bPrime == ipk.hRand * x.r2 - aPrime * x.e + g.q * j
    requires -(1 + DisclosedSum(disclosure, ipk.hAttrs, values))
          == ipk.hRand * x.sPrime - bPrime * x.r3 + ipk.hSk * x.sk + Dot(HiddenBases(ipk, disclosure), x.hidden)
            + g.q * k
    ensures Verifies(g, Rebuild(x, aPrime, disclosure, ipk, values), x.sk, ipk)
  {
    FillInSum(disclosure, ipk.hAttrs, x.hidden, values);
    SolvedVerifies(g, x.sk, ipk, aPrime, aBar, bPrime, x.e, x.r2, x.r3, x.sPrime,
                   Rebuild(x, aPrime, disclosure, ipk, values), Dot(HiddenBases(ipk, disclosure), x.hidden),
                   DisclosedSum(disclosure, ipk.hAttrs, values), i, j, k);
  }

  /** What acceptance says about the challenge and the blinded credential. */
  lemma Accepted(g: Group, sig: Signature, disclosure: seq<nat>, ipk: IssuerPublicKey, msg: string, values: seq<Scalar>)
    requires g.Valid() && |disclosure| <= |ipk.hAttrs| && |disclosure| <= |values|
      && |sig.proofSAttrs| == |Hidden(disclosure)|
    requires Accepts(g, sig, disclosure, ipk, msg, values)
    ensures sig.proofC < g.q && g.Same(ipk.w * sig.aPrime, sig.aBar)
  {
  }

  lemma FirstOpened(g: Group, sig: Signature, sig': Signature, disclosure: seq<nat>, ipk: IssuerPublicKey,
                    values: seq<Scalar>)
    returns (j: int)
    requires g.Valid() && |disclosure| <= |ipk.hAttrs| && |disclosure| <= |values|
    requires |sig.proofSAttrs| == |sig'.proofSAttrs| == |Hidden(disclosure)|
    requires sig.proofC < g.q && sig'.proofC < g.q && Forked(g, sig, sig', disclosure, ipk, values)
    ensures var x := Extract(g, sig, sig');
            sig.aBar - sig.bPrime == ipk.hRand * x.r2 - sig.aPrime * x.e + g.q * j
  {
    var qE := Quotient(g, sig.proofSE, sig'.proofSE, sig.proofC, sig'.proofC);
    var r2 := Quotient(g, sig.proofSR2, sig'.proofSR2, sig.proofC, sig'.proofC);
    NymExtract(g, sig.aPrime, ipk.hRand, sig.aBar - sig.bPrime, sig.proofC, sig'.proofC, sig.proofSE, sig'.proofSE,
               sig.proofSR2, sig'.proofSR2);
    j := SameResidue(sig.aBar - sig.bPrime, sig.aPrime * qE + ipk.hRand * r2, g.q);
    TimesNegated(sig.aPrime, qE);
  }

  lemma TimesNegated(a: int, b: int)
    ensures a * b == -(a * -b)
  {
  }

  lemma SecondOpened(g: Group, sig: Signature, sig': Signature, disclosure: seq<nat>, ipk: IssuerPublicKey,
                     values: seq<Scalar>)
    returns (k: int)
    requires g.Valid() && |disclosure| <= |ipk.hAttrs| && |disclosure| <= |values|
    requires |sig.proofSAttrs| == |sig'.proofSAttrs| == |Hidden(disclosure)|
    requires sig.proofC < g.q && sig'.proofC < g.q && Forked(g, sig, sig', disclosure, ipk, values)
    ensures var x := Extract(g, sig, sig');
            -(1 + DisclosedSum(disclosure, ipk.hAttrs, values)) ==
            ipk.hRand * x.sPrime - sig.bPrime * x.r3 + ipk.hSk * x.sk + Dot(HiddenBases(ipk, disclosure), x.hidden)
              + g.q * k
  {
    var bases := HiddenBases(ipk, disclosure);
    DotQuotients(g, bases, sig.proofSAttrs, sig'.proofSAttrs, sig.proofC, sig'.proofC);
    k := SecondSolved(g, ipk.hRand, sig.bPrime, ipk.hSk, DisclosedSum(disclosure, ipk.hAttrs, values), sig.proofC,
                      sig'.proofC, sig.proofSSPrime, sig'.proofSSPrime, sig.proofSR3, sig'.proofSR3, sig.proofSSk,
                      sig'.proofSSk, Dot(bases, sig.proofSAttrs), Dot(bases, sig'.proofSAttrs));
    TimesNegated(sig.bPrime, Quotient(g, sig.proofSR3, sig'.proofSR3, sig.proofC, sig'.proofC));
  }

  lemma ThirdOpened(g: Group, sig: Signature, sig': Signature, disclosure: seq<nat>, ipk: IssuerPublicKey,
                    values: seq<Scalar>)
    requires g.Valid() && |disclosure| <= |ipk.hAttrs| && |disclosure| <= |values|
    requires |sig.proofSAttrs| == |sig'.proofSAttrs| == |Hidden(disclosure)|
    requires sig.proofC < g.q && sig'.proofC < g.q && Forked(g, sig, sig', disclosure, ipk, values)
    ensures var x := Extract(g, sig, sig'); g.Same(sig.nym, MakeNym(x.sk, ipk, x.rNym))
  {
    NymExtract(g, ipk.hSk, ipk.hRand, sig.nym, sig.proofC, sig'.proofC, sig.proofSSk, sig'.proofSSk, sig.proofSRNym,
               sig'.proofSRNym);
  }

  lemma RebuiltFrom(g: Group, sig: Signature, sig': Signature, disclosure: seq<nat>, ipk: IssuerPublicKey,
                    values: seq<Scalar>)
    requires g.Valid() && |disclosure| <= |ipk.hAttrs| && |disclosure| <= |values|
    requires |sig.proofSAttrs| == |sig'.proofSAttrs| == |Hidden(disclosure)|
    requires sig.proofC < g.q && sig'.proofC < g.q && Forked(g, sig, sig', disclosure, ipk, values)
    requires g.Same(ipk.w * sig.aPrime, sig.aBar)
    ensures var x := Extract(g, sig, sig'); Verifies(g, Rebuild(x, sig.aPrime, disclosure, ipk, values), x.sk, ipk)
  {
    var i := SameResidue(ipk.w * sig.aPrime, sig.aBar, g.q);
    var j := FirstOpened(g, sig, sig', disclosure, ipk, values);
    var k := SecondOpened(g, sig, sig', disclosure, ipk, values);
    RebuiltVerifies(g, Extract(g, sig, sig'), sig.aPrime, sig.aBar, sig.bPrime, disclosure, ipk, values, i, j, k);
  }

  /**
   * Special soundness. Two accepted signatures that start the same way and answer two challenges give away a secret key
   * and a credential that verifies under it, with the disclosed values among its attributes, for the same key that the
   * pseudonym is made of. The credential is not the trivial one, unless the bases of the issuer's key are related.
   */
  lemma SignatureSound(g: Group, sig: Signature, sig': Signature, disclosure: seq<nat>, ipk: IssuerPublicKey,
                       msg: string, msg': string, values: seq<Scalar>)
    requires g.Valid() && |disclosure| <= |ipk.hAttrs| && |disclosure| <= |values|
    requires |sig.proofSAttrs| == |sig'.proofSAttrs| == |Hidden(disclosure)|
    requires Accepts(g, sig, disclosure, ipk, msg, values) && Accepts(g, sig', disclosure, ipk, msg', values)
    requires Forked(g, sig, sig', disclosure, ipk, values)
    ensures var x := Extract(g, sig, sig');
            var cred := Rebuild(x, sig.aPrime, disclosure, ipk, values);
            && Verifies(g, cred, x.sk, ipk)
            && g.Same(sig.nym, MakeNym(x.sk, ipk, x.rNym))
            && (forall i | 0 <= i < |disclosure| && disclosure[i] != 0 :: cred.attrs[i] == values[i])
            && (cred.a % g.q == 0 ==> g.Same(Signed(x.sk, cred.s, cred.attrs, ipk), 0))
  {
    Accepted(g, sig, disclosure, ipk, msg, values);
    Accepted(g, sig', disclosure, ipk, msg', values);
    ThirdOpened(g, sig, sig', disclosure, ipk, values);
    RebuiltFrom(g, sig, sig', disclosure, ipk, values);
    var x := Extract(g, sig, sig');
    TrivialCredential(g, Rebuild(x, sig.aPrime, disclosure, ipk, values), x.sk, ipk);
  }

  lemma TrivialCredential(g: Group, cred: Credential, sk: Scalar, ipk: IssuerPublicKey)
    requires g.q > 0 && |cred.attrs| <= |ipk.hAttrs| && Verifies(g, cred, sk, ipk)
    ensures cred.a % g.q == 0 ==> g.Same(Signed(sk, cred.s, cred.attrs, ipk), 0)
  {
    if cred.a % g.q == 0 {
      ProductZero(cred.e + ipk.w, cred.a, g.q);
      assert 0 % g.q == 0;
    }
  }
}
