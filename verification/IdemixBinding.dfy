/** What a proof is bound to: it passes for two different things only where the hashes of their two descriptions
    clash. */
module IdemixBinding {
  import opened Wrappers
  import opened ModArith
  import opened Idemix
  import opened IdemixCredential
  import opened IdemixSignature
  import opened IdemixComplete

  /** Two different inputs with one hash. */
  predicate Clash(g: Group, x: Transcript, y: Transcript)
    requires g.q > 0
  {
    x != y && g.HashModOrder(x) == g.HashModOrder(y)
  }

  /** The hashes of two descriptions clash, or those of their hashes with the nonces. */
  predicate ClashWithNonces(g: Group, x: Transcript, nonce: nat, y: Transcript, nonce': nat)
    requires g.q > 0
  {
    || Clash(g, x, y)
    || Clash(g, NonceData(g.HashModOrder(x), nonce), NonceData(g.HashModOrder(y), nonce'))
  }

  // ----- signatures -----

  predicate Checkable(sig: Signature, disclosure: seq<nat>, ipk: IssuerPublicKey, values: seq<Scalar>) {
    |disclosure| <= |ipk.hAttrs| && |disclosure| <= |values| && |sig.proofSAttrs| == |Hidden(disclosure)|
  }

  /** All that a signature is about, with the commitments it opens. */
  function Description(g: Group, sig: Signature, disclosure: seq<nat>, ipk: IssuerPublicKey, msg: string,
                       values: seq<Scalar>): Transcript
    requires g.q > 0 && Checkable(sig, disclosure, ipk, values)
  {
    var q, t := g.q, Recommit(sig, disclosure, ipk, values);
    SignData(t.t1 % q, t.t2 % q, t.t3 % q, sig.aPrime % q, sig.aBar % q, sig.bPrime % q, sig.nym % q,
             ipk.hash, disclosure, msg)
  }

  predicate SameOpenings(g: Group, t: Commitments, t': Commitments)
    requires g.q > 0
  {
    g.Same(t.t1, t'.t1) && g.Same(t.t2, t'.t2) && g.Same(t.t3, t'.t3)
  }

  /** Signatures with one challenge are accepted for the same message, disclosure, nonce, pseudonym, key and blinded
      credential and open the same commitments, or the hashes of the two descriptions clash. */
  lemma SignatureBinds(g: Group, sig: Signature, disclosure: seq<nat>, ipk: IssuerPublicKey, msg: string,
                       values: seq<Scalar>, sig': Signature, disclosure': seq<nat>, ipk': IssuerPublicKey, msg': string,
                       values': seq<Scalar>)
    requires g.q > 0 && sig.proofC == sig'.proofC
    requires Checkable(sig, disclosure, ipk, values) && Checkable(sig', disclosure', ipk', values')
    requires Accepts(g, sig, disclosure, ipk, msg, values) && Accepts(g, sig', disclosure', ipk', msg', values')
    ensures
      || (&& msg == msg' && disclosure == disclosure' && sig.nonce == sig'.nonce && g.Same(sig.nym, sig'.nym)
          && ipk.hash == ipk'.hash
          && g.Same(sig.aPrime, sig'.aPrime) && g.Same(sig.aBar, sig'.aBar) && g.Same(sig.bPrime, sig'.bPrime)
          && SameOpenings(g, Recommit(sig, disclosure, ipk, values), Recommit(sig', disclosure', ipk', values')))
      || ClashWithNonces(g, Description(g, sig, disclosure, ipk, msg, values), sig.nonce,
                         Description(g, sig', disclosure', ipk', msg', values'), sig'.nonce)
  {
    var x := Description(g, sig, disclosure, ipk, msg, values);
    var y := Description(g, sig', disclosure', ipk', msg', values');
    assert g.HashModOrder(NonceData(g.HashModOrder(x), sig.nonce)) == sig.proofC;
    assert g.HashModOrder(NonceData(g.HashModOrder(y), sig'.nonce)) == sig'.proofC;
  }

  /** Verifying one signature for two things, perhaps with another nonce or pseudonym put into it. */
  method VerTwice(g: Group, sig: Signature, nonce: nat, nym: Point,
                  disclosure: seq<nat>, ipk: IssuerPublicKey, msg: string, values: seq<Scalar>, rhIndex: int,
                  disclosure': seq<nat>, ipk': IssuerPublicKey, msg': string, values': seq<Scalar>, rhIndex': int)
    returns (both: bool)
    requires g.q > 0 && ipk.Valid() && |values| >= ipk.attributes && ipk'.Valid() && |values'| >= ipk'.attributes
    ensures both ==>
      var sig' := sig.(nonce := nonce, nym := nym);
      && Checkable(sig, disclosure, ipk, values) && Checkable(sig', disclosure', ipk', values')
      && (|| (&& msg == msg' && disclosure == disclosure' && sig.nonce == nonce && g.Same(sig.nym, nym)
              && ipk.hash == ipk'.hash)
          || ClashWithNonces(g, Description(g, sig, disclosure, ipk, msg, values), sig.nonce,
                             Description(g, sig', disclosure', ipk', msg', values'), nonce))
  {
    var sig' := sig.(nonce := nonce, nym := nym);
    var first := IdemixSignature.Ver(g, sig, disclosure, ipk, msg, values, rhIndex);
    var second := IdemixSignature.Ver(g, sig', disclosure', ipk', msg', values', rhIndex');
    both := first.Done? && second.Done?;
    if both {
      SignatureBinds(g, sig, disclosure, ipk, msg, values, sig', disclosure', ipk', msg', values');
    }
  }

  lemma TwoMessages(g: Group, sig: Signature, disclosure: seq<nat>, ipk: IssuerPublicKey, values: seq<Scalar>,
                    msg: string, msg': string)
    requires g.q > 0 && Checkable(sig, disclosure, ipk, values) && msg != msg'
    requires Accepts(g, sig, disclosure, ipk, msg, values) && Accepts(g, sig, disclosure, ipk, msg', values)
    ensures ClashWithNonces(g, Description(g, sig, disclosure, ipk, msg, values), sig.nonce,
                            Description(g, sig, disclosure, ipk, msg', values), sig.nonce)
  {
    SignatureBinds(g, sig, disclosure, ipk, msg, values, sig, disclosure, ipk, msg', values);
  }

  /** An honest signature is accepted for its own message, and for another one only if the descriptions that differ in
      the message clash. */
  lemma OtherMessageRefused(g: Group, cred: Credential, sk: Scalar, nym: Point, rNym: Scalar, ipk: IssuerPublicKey,
                            disclosure: seq<nat>, msg: string, rand: Randomness, values: seq<Scalar>, msg': string)
    requires g.Valid() && |disclosure| == |cred.attrs| == |values| <= |ipk.hAttrs| && Verifies(g, cred, sk, ipk)
    requires forall i | 0 <= i < |disclosure| && disclosure[i] != 0 :: values[i] == cred.attrs[i]
    requires g.Same(nym, MakeNym(sk, ipk, rNym)) && rand.r1 % g.q != 0 && cred.a % g.q != 0 && msg' != msg
    ensures var sig := Sign(g, cred, sk, nym, rNym, ipk, disclosure, msg, rand);
      && Checkable(sig, disclosure, ipk, values) && Accepts(g, sig, disclosure, ipk, msg, values)
      && (Accepts(g, sig, disclosure, ipk, msg', values) ==>
            ClashWithNonces(g, Description(g, sig, disclosure, ipk, msg, values), sig.nonce,
                            Description(g, sig, disclosure, ipk, msg', values), sig.nonce))
  {
    SignatureComplete(g, cred, sk, nym, rNym, ipk, disclosure, msg, rand, values);
    var sig := Sign(g, cred, sk, nym, rNym, ipk, disclosure, msg, rand);
    if Accepts(g, sig, disclosure, ipk, msg', values) {
      TwoMessages(g, sig, disclosure, ipk, values, msg, msg');
    }
  }

  // ----- pseudonym signatures and credential requests -----

  function NymDescription(g: Group, sig: NymSignature, nym: Point, ipk: IssuerPublicKey, msg: string): Transcript
    requires g.q > 0
  {
    NymSignData(NymCommitment(sig, nym, ipk) % g.q, nym % g.q, ipk.hash, msg)
  }

  /** Likewise for pseudonym signatures. */
  lemma NymBinds(g: Group, sig: NymSignature, nym: Point, ipk: IssuerPublicKey, msg: string,
                 sig': NymSignature, nym': Point, ipk': IssuerPublicKey, msg': string)
    requires g.q > 0 && sig.proofC == sig'.proofC && NymVer(g, sig, nym, ipk, msg) && NymVer(g, sig', nym', ipk', msg')
    ensures
      || (&& msg == msg' && g.Same(nym, nym') && sig.nonce == sig'.nonce && ipk.hash == ipk'.hash
          && g.Same(NymCommitment(sig, nym, ipk), NymCommitment(sig', nym', ipk')))
      || ClashWithNonces(g, NymDescription(g, sig, nym, ipk, msg), sig.nonce,
                         NymDescription(g, sig', nym', ipk', msg'), sig'.nonce)
  {
    var x, y := NymDescription(g, sig, nym, ipk, msg), NymDescription(g, sig', nym', ipk', msg');
    assert g.HashModOrder(NonceData(g.HashModOrder(x), sig.nonce)) == sig.proofC;
    assert g.HashModOrder(NonceData(g.HashModOrder(y), sig'.nonce)) == sig'.proofC;
  }

  function RequestDescription(g: Group, m: CredRequest, ipk: IssuerPublicKey): Transcript
    requires g.q > 0 && m.issuerNonce.Some?
  {
    RequestData(RequestCommitment(m, ipk) % g.q, ipk.hSk % g.q, m.nym % g.q, m.issuerNonce.value, ipk.hash)
  }

  /** Likewise for credential requests, which name the issuer's nonce. */
  lemma RequestBinds(g: Group, m: CredRequest, ipk: IssuerPublicKey, m': CredRequest, ipk': IssuerPublicKey)
    requires g.q > 0 && m.proofC == m'.proofC && Check(g, m, ipk) && Check(g, m', ipk')
    ensures m.issuerNonce.Some? && m'.issuerNonce.Some?
    ensures
      || (&& m.issuerNonce == m'.issuerNonce && g.Same(m.nym, m'.nym)
          && g.Same(ipk.hSk, ipk'.hSk) && ipk.hash == ipk'.hash
          && g.Same(RequestCommitment(m, ipk), RequestCommitment(m', ipk')))
      || Clash(g, RequestDescription(g, m, ipk), RequestDescription(g, m', ipk'))
  {
    var x, y := RequestDescription(g, m, ipk), RequestDescription(g, m', ipk');
    assert g.HashModOrder(x) == m.proofC && g.HashModOrder(y) == m'.proofC;
  }
}
