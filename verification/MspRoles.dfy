/** Which certificates are valid and which roles they have, in terms of the provider's own settings. */
module MspRoles {
  import opened Wrappers
  import opened Msp

  /** The unit is configured and has this name. */
  predicate Named(u: Option<OUIdentifier>, name: string) {
    u.Some? && u.value.ou == name
  }

  predicate IsNodeName(msp: Provider, name: string) {
    Named(msp.clientOU, name) || Named(msp.peerOU, name) || Named(msp.adminOU, name) || Named(msp.ordererOU, name)
  }

  /** The certifier asked for: of the orderers' unit if it has the name, else the admins', the peers', the clients'. */
  function AskedFor(msp: Provider, name: string): string
    requires IsNodeName(msp, name)
  {
    if Named(msp.ordererOU, name) then msp.ordererOU.value.certifiers
    else if Named(msp.adminOU, name) then msp.adminOU.value.certifiers
    else if Named(msp.peerOU, name) then msp.peerOU.value.certifiers
    else msp.clientOU.value.certifiers
  }

  lemma NodeUnitsAre(msp: Provider, name: string)
    ensures name in NodeUnits(msp) <==> IsNodeName(msp, name)
    ensures name in NodeUnits(msp) ==> NodeUnits(msp)[name].certifiers == AskedFor(msp, name)
  {
  }

  /** The only one of the units that is among the nodes'. */
  predicate OnlyOne(nodes: map<string, OUIdentifier>, us: seq<OUIdentifier>, i: nat) {
    i < |us| && us[i].ou in nodes && forall j | 0 <= j < |us| && j != i :: us[j].ou !in nodes
  }

  lemma {:induction false} CountNone(nodes: map<string, OUIdentifier>, us: seq<OUIdentifier>)
    ensures CountNodeUnits(nodes, us) == 0 <==> forall j | 0 <= j < |us| :: us[j].ou !in nodes
  {
    if us != [] {
      CountNone(nodes, us[..|us| - 1]);
      assert forall j | 0 <= j < |us| - 1 :: us[..|us| - 1][j] == us[j];
    }
  }

  lemma {:induction false} CountOne(nodes: map<string, OUIdentifier>, us: seq<OUIdentifier>)
    ensures CountNodeUnits(nodes, us) == 1 <==> exists i :: OnlyOne(nodes, us, i)
  {
    if us != [] {
      var last := |us| - 1;
      var init := us[..last];
      assert forall j | 0 <= j < last :: init[j] == us[j];
      if us[last].ou in nodes {
        CountNone(nodes, init);
        assert (forall j | 0 <= j < last :: us[j].ou !in nodes) <==> OnlyOne(nodes, us, last);
        assert forall i | 0 <= i < last :: !OnlyOne(nodes, us, i);
      } else {
        CountOne(nodes, init);
        if i :| OnlyOne(nodes, init, i) { assert OnlyOne(nodes, us, i); }
        if i :| OnlyOne(nodes, us, i) { assert OnlyOne(nodes, init, i); }
      }
    }
  }

  /** The place of the certificate's one unit that has a node unit's name, by the certifier asked for. */
  predicate NodeUnitAt(msp: Provider, cert: Cert, i: nat) {
    && i < |cert.units| && IsNodeName(msp, cert.units[i])
    && (forall j | 0 <= j < |cert.units| && j != i :: !IsNodeName(msp, cert.units[j]))
    && (AskedFor(msp, cert.units[i]) == "" || AskedFor(msp, cert.units[i]) == msp.chainId(cert))
  }

  /** Some unit of the certificate is configured with the certificate's chain, if any units are. */
  predicate UnitListed(msp: Provider, cert: Cert) {
    msp.ouIdentifiers != map[] ==>
      exists i | 0 <= i < |cert.units| ::
        cert.units[i] in msp.ouIdentifiers && msp.chainId(cert) in msp.ouIdentifiers[cert.units[i]]
  }

  lemma ListedIff(msp: Provider, cert: Cert)
    ensures UnitsV1Ok(msp, Units(msp, cert)) <==> UnitListed(msp, cert)
  {
    var us := Units(msp, cert);
    assert forall i | 0 <= i < |us| :: us[i] == OUIdentifier(msp.chainId(cert), cert.units[i]);
    if i :| 0 <= i < |us| && Recognized(msp, us[i]) {
      assert cert.units[i] in msp.ouIdentifiers;
    }
    forall i | 0 <= i < |cert.units| && cert.units[i] in msp.ouIdentifiers
      ensures msp.chainId(cert) in msp.ouIdentifiers[cert.units[i]] <==> Recognized(msp, us[i])
    {
    }
  }

  lemma OneNodeUnitIff(msp: Provider, cert: Cert)
    ensures (exists i :: NodeUnitAt(msp, cert, i)) <==>
            && CountNodeUnits(NodeUnits(msp), Units(msp, cert)) == 1
            && forall i | 0 <= i < |cert.units| :: CertifierOk(NodeUnits(msp), Units(msp, cert)[i])
  {
    var nodes, us := NodeUnits(msp), Units(msp, cert);
    forall i | 0 <= i < |cert.units|
      ensures us[i] == OUIdentifier(msp.chainId(cert), cert.units[i])
      ensures us[i].ou in nodes <==> IsNodeName(msp, us[i].ou)
      ensures us[i].ou in nodes ==> nodes[us[i].ou].certifiers == AskedFor(msp, us[i].ou)
    {
      NodeUnitsAre(msp, us[i].ou);
    }
    CountOne(nodes, us);
    if i :| NodeUnitAt(msp, cert, i) { assert OnlyOne(nodes, us, i); }
    if forall j | 0 <= j < |us| :: CertifierOk(nodes, us[j]) {
      if i: nat :| OnlyOne(nodes, us, i) {
        assert CertifierOk(nodes, us[i]);
        assert NodeUnitAt(msp, cert, i);
      }
    }
  }

  /** A certificate is valid if its chain is, one of its units is listed, if any are, and, under enforcement, exactly
      one of its units names a kind of node, certified as asked. */
  lemma ValidIff(msp: Provider, cert: Cert)
    ensures IsValid(msp, cert) <==>
            && msp.chainOk(cert) && UnitListed(msp, cert)
            && (msp.ouEnforcement ==> exists i :: NodeUnitAt(msp, cert, i))
  {
    ListedIff(msp, cert);
    OneNodeUnitIff(msp, cert);
  }

  /** Who has which role: clients, peers and orderers by their configured unit, admins by it or by the list. */
  lemma RolesAre(msp: Provider, cert: Cert)
    ensures Satisfies(msp, cert, RoleLeaf(msp.name, MEMBER)) <==> IsValid(msp, cert)
    ensures Satisfies(msp, cert, RoleLeaf(msp.name, CLIENT)) <==>
            msp.ouEnforcement && IsValid(msp, cert) && msp.clientOU.Some? && msp.clientOU.value.ou in cert.units
    ensures Satisfies(msp, cert, RoleLeaf(msp.name, PEER)) <==>
            msp.ouEnforcement && IsValid(msp, cert) && msp.peerOU.Some? && msp.peerOU.value.ou in cert.units
    ensures Satisfies(msp, cert, RoleLeaf(msp.name, ORDERER)) <==>
            msp.ouEnforcement && IsValid(msp, cert) && msp.ordererOU.Some? && msp.ordererOU.value.ou in cert.units
    ensures Satisfies(msp, cert, RoleLeaf(msp.name, ADMIN)) <==>
            || (exists i | 0 <= i < |msp.admins| :: msp.admins[i].raw == cert.raw)
            || (msp.ouEnforcement && IsValid(msp, cert) && msp.adminOU.Some? && msp.adminOU.value.ou in cert.units)
  {
  }

  /** Nobody satisfies a role of another provider or an unknown role. */
  lemma NoOtherRoles(msp: Provider, cert: Cert, name: string, role: int)
    requires name != msp.name || role < 0 || role > 4
    ensures !Satisfies(msp, cert, RoleLeaf(name, role))
  {
  }

  /** Under enforcement, the one node unit of a valid certificate decides which of the roles it has. */
  lemma RoleByUnit(msp: Provider, cert: Cert, i: nat)
    requires msp.ouEnforcement && IsValid(msp, cert) && NodeUnitAt(msp, cert, i)
    ensures Satisfies(msp, cert, RoleLeaf(msp.name, CLIENT)) <==> Named(msp.clientOU, cert.units[i])
    ensures Satisfies(msp, cert, RoleLeaf(msp.name, PEER)) <==> Named(msp.peerOU, cert.units[i])
    ensures Satisfies(msp, cert, RoleLeaf(msp.name, ORDERER)) <==> Named(msp.ordererOU, cert.units[i])
    ensures !IsAdmin(msp, cert) ==>
      (Satisfies(msp, cert, RoleLeaf(msp.name, ADMIN)) <==> Named(msp.adminOU, cert.units[i]))
  {
    RolesAre(msp, cert);
  }

  /** A certificate with the peers' unit alone is a peer's and not a client's, if the units have different names. */
  lemma PeerIsNoClient(msp: Provider, cert: Cert, client: OUIdentifier, peer: OUIdentifier)
    requires msp.ouEnforcement && msp.clientOU == Some(client) && msp.peerOU == Some(peer) && client.ou != peer.ou
    requires cert.units == [peer.ou]
    ensures !Satisfies(msp, cert, RoleLeaf(msp.name, CLIENT))
    ensures Satisfies(msp, cert, RoleLeaf(msp.name, PEER)) <==> IsValid(msp, cert)
  {
    RolesAre(msp, cert);
  }

  /** The principals that are no roles. */
  lemma OtherPrincipalsAre(msp: Provider, cert: Cert)
    ensures forall name, unit: OUIdentifier :: Satisfies(msp, cert, UnitLeaf(name, unit)) <==>
      name == msp.name && IsValid(msp, cert) && unit.ou in cert.units && unit.certifiers == msp.chainId(cert)
    ensures forall c :: Satisfies(msp, cert, IdentityLeaf(c)) <==> c.raw == cert.raw && IsValid(msp, c)
    ensures Satisfies(msp, cert, AnonymityLeaf(true)) && !Satisfies(msp, cert, AnonymityLeaf(false))
    ensures !Satisfies(msp, cert, Malformed)
  {
    forall name, unit: OUIdentifier
      ensures Satisfies(msp, cert, UnitLeaf(name, unit)) <==>
        name == msp.name && IsValid(msp, cert) && unit.ou in cert.units && unit.certifiers == msp.chainId(cert)
    {
      UnitIn(msp, cert, unit);
    }
  }

  lemma UnitIn(msp: Provider, cert: Cert, unit: OUIdentifier)
    ensures unit in Units(msp, cert) <==> unit.ou in cert.units && unit.certifiers == msp.chainId(cert)
  {
    var us := Units(msp, cert);
    if unit.ou in cert.units && unit.certifiers == msp.chainId(cert) {
      var i :| 0 <= i < |cert.units| && cert.units[i] == unit.ou;
      assert us[i] == unit;
    }
  }

  /** Version 1.4.3 only adds: orderers, admins by their unit, and nominal anonymity. */
  lemma OnlyAdded(msp: Provider, cert: Cert, leaf: Leaf)
    ensures BeforeV13(msp, cert, leaf) <==>
            && Satisfies(msp, cert, leaf)
            && !leaf.AnonymityLeaf? && !(leaf.RoleLeaf? && leaf.role == ORDERER)
            && (leaf.RoleLeaf? && leaf.role == ADMIN ==> IsAdmin(msp, cert))
  {
  }
}
