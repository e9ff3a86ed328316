/** Which identities satisfy which principals under a membership service provider of version 1.4.3. */
module Msp {
  import opened Wrappers

  datatype OUIdentifier = OUIdentifier(certifiers: string, ou: string)

  datatype Cert = Cert(raw: string, units: seq<string>)

  const MEMBER: int := 0
  const ADMIN: int := 1
  const CLIENT: int := 2
  const PEER: int := 3
  const ORDERER: int := 4

  /** A principal that is not a combination; `Malformed` has a payload that does not parse, an identity of
      another provider, or an unknown classification. */
  datatype Leaf =
    | RoleLeaf(mspid: string, role: int)
    | UnitLeaf(mspid: string, unit: OUIdentifier)
    | IdentityLeaf(cert: Cert)
    | AnonymityLeaf(nominal: bool)
    | Malformed

  /** The provider's configuration; whether a certificate has a trusted,
      unrevoked chain, and the chain's identifier, are given. */
  datatype Provider = Provider(name: string, ouEnforcement: bool,
                               clientOU: Option<OUIdentifier>, peerOU: Option<OUIdentifier>,
                               adminOU: Option<OUIdentifier>, ordererOU: Option<OUIdentifier>,
                               ouIdentifiers: map<string, seq<string>>, admins: seq<Cert>,
                               chainOk: Cert -> bool, chainId: Cert -> string)

  function Units(msp: Provider, cert: Cert): (r: seq<OUIdentifier>)
    ensures |r| == |cert.units|
  {
    seq(|cert.units|, i requires 0 <= i < |cert.units| => OUIdentifier(msp.chainId(cert), cert.units[i]))
  }

  // ----- validity -----

  predicate Recognized(msp: Provider, u: OUIdentifier) {
    u.ou in msp.ouIdentifiers && u.certifiers in msp.ouIdentifiers[u.ou]
  }

  function With(m: map<string, OUIdentifier>, u: Option<OUIdentifier>): map<string, OUIdentifier> {
    if u.Some? then m[u.value.ou := u.value] else m
  }

  /** The units that tell clients, peers, admins and orderers apart. */
  function NodeUnits(msp: Provider): map<string, OUIdentifier> {
    With(With(With(With(map[], msp.clientOU), msp.peerOU), msp.adminOU), msp.ordererOU)
  }

  function CountNodeUnits(nodes: map<string, OUIdentifier>, us: seq<OUIdentifier>): nat {
    if us == [] then 0 else CountNodeUnits(nodes, us[..|us| - 1]) + if us[|us| - 1].ou in nodes then 1 else 0
  }

  predicate CertifierOk(nodes: map<string, OUIdentifier>, u: OUIdentifier) {
    u.ou in nodes ==> nodes[u.ou].certifiers == "" || nodes[u.ou].certifiers == u.certifiers
  }

  predicate UnitsV1Ok(msp: Provider, us: seq<OUIdentifier>) {
    msp.ouIdentifiers != map[] ==> exists i | 0 <= i < |us| :: Recognized(msp, us[i])
  }

  /** Exactly one node unit, by the certifier the provider asks for. */
  predicate UnitsV142Ok(msp: Provider, us: seq<OUIdentifier>) {
    && UnitsV1Ok(msp, us)
    && (msp.ouEnforcement ==>
          && CountNodeUnits(NodeUnits(msp), us) == 1
          && forall i | 0 <= i < |us| :: CertifierOk(NodeUnits(msp), us[i]))
  }

  predicate IsValid(msp: Provider, cert: Cert) {
    msp.chainOk(cert) && UnitsV142Ok(msp, Units(msp, cert))
  }

  method ValidateUnitsV1(msp: Provider, us: seq<OUIdentifier>) returns (ok: bool)
    ensures ok <==> UnitsV1Ok(msp, us)
  {
    if |msp.ouIdentifiers| == 0 {
      return true;
    }
    var found := false;
    for i := 0 to |us|
      invariant found <==> exists k | 0 <= k < i :: Recognized(msp, us[k])
    {
      if us[i].ou in msp.ouIdentifiers {
        var certificationIDs := msp.ouIdentifiers[us[i].ou];
        var j := 0;
        while j < |certificationIDs|
          invariant 0 <= j <= |certificationIDs|
          invariant forall k | 0 <= k < j :: certificationIDs[k] != us[i].certifiers
          invariant found <==> exists k | 0 <= k < i :: Recognized(msp, us[k])
        {
          if certificationIDs[j] == us[i].certifiers {
            found := true;
            break;
          }
          j := j + 1;
        }
      }
    }
    return found;
  }

  lemma {:induction false} CountGrows(nodes: map<string, OUIdentifier>, us: seq<OUIdentifier>, i: nat)
    requires i <= |us|
    ensures CountNodeUnits(nodes, us[..i]) <= CountNodeUnits(nodes, us)
    decreases |us| - i
  {
    if i == |us| {
      assert us[..i] == us;
    } else {
      assert us[..i + 1][..i] == us[..i];
      CountGrows(nodes, us, i + 1);
    }
  }

  method ValidateUnitsV142(msp: Provider, us: seq<OUIdentifier>) returns (ok: bool)
    ensures ok <==> UnitsV142Ok(msp, us)
  {
    var v1 := ValidateUnitsV1(msp, us);
    if !v1 || !msp.ouEnforcement {
      return v1;
    }
    var validOUs: map<string, OUIdentifier> := map[];
    if msp.clientOU.Some? {
      validOUs := validOUs[msp.clientOU.value.ou := msp.clientOU.value];
    }
    if msp.peerOU.Some? {
      validOUs := validOUs[msp.peerOU.value.ou := msp.peerOU.value];
    }
    if msp.adminOU.Some? {
      validOUs := validOUs[msp.adminOU.value.ou := msp.adminOU.value];
    }
    if msp.ordererOU.Some? {
      validOUs := validOUs[msp.ordererOU.value.ou := msp.ordererOU.value];
    }
    ok := ExactlyOne(validOUs, us);
  }

  method ExactlyOne(nodes: map<string, OUIdentifier>, us: seq<OUIdentifier>) returns (ok: bool)
    ensures ok <==> CountNodeUnits(nodes, us) == 1 && forall i | 0 <= i < |us| :: CertifierOk(nodes, us[i])
  {
    var counter := 0;
    for i := 0 to |us|
      invariant counter == CountNodeUnits(nodes, us[..i]) <= 1
      invariant forall k | 0 <= k < i :: CertifierOk(nodes, us[k])
    {
      assert us[..i + 1][..i] == us[..i];
      if us[i].ou !in nodes {
        continue;
      }
      if nodes[us[i].ou].certifiers != "" && nodes[us[i].ou].certifiers != us[i].certifiers {
        return false;
      }
      counter := counter + 1;
      if counter > 1 {
        CountGrows(nodes, us, i + 1);
        return false;
      }
    }
    assert us[..|us|] == us;
    return counter == 1;
  }

  /** An identity remembers whether it was found valid. */
  class Identity {
    const cert: Cert
    var validated: bool
    var validationErr: bool

    constructor (cert: Cert)
      ensures this.cert == cert && !validated && !validationErr
    {
      this.cert := cert;
      validated, validationErr := false, false;
    }

    /** What is remembered is what validating again would find. */
    ghost predicate Remembers(msp: Provider)
      reads this
    {
      if validated then validationErr <==> !IsValid(msp, cert) else !validationErr
    }

    method Validate(msp: Provider) returns (ok: bool)
      requires Remembers(msp)
      modifies this
      ensures Remembers(msp) && validated && (ok <==> IsValid(msp, cert))
    {
      if validated {
        return !validationErr;
      }
      validated := true;
      if !msp.chainOk(cert) {
        validationErr := true;
        return false;
      }
      var unitsOk := ValidateUnitsV142(msp, Units(msp, cert));
      if !unitsOk {
        validationErr := true;
        return false;
      }
      return true;
    }
  }

  // ----- principals -----

  predicate HasUnit(msp: Provider, cert: Cert, node: Option<OUIdentifier>) {
    node.Some? && node.value.ou in cert.units
  }

  function NodeOU(msp: Provider, role: int): Option<OUIdentifier> {
    if role == CLIENT then msp.clientOU
    else if role == PEER then msp.peerOU
    else if role == ADMIN then msp.adminOU
    else if role == ORDERER then msp.ordererOU
    else None
  }

  predicate IsAdmin(msp: Provider, cert: Cert) {
    exists i | 0 <= i < |msp.admins| :: msp.admins[i].raw == cert.raw
  }

  predicate HasRole(msp: Provider, cert: Cert, role: int) {
    IsValid(msp, cert) && msp.ouEnforcement && HasUnit(msp, cert, NodeOU(msp, role))
  }

  /** What it takes to satisfy a principal. */
  predicate Satisfies(msp: Provider, cert: Cert, leaf: Leaf) {
    match leaf
    case RoleLeaf(mspid, role) =>
      && mspid == msp.name
      && (if role == MEMBER then IsValid(msp, cert)
          else if role == ADMIN then IsAdmin(msp, cert) || HasRole(msp, cert, ADMIN)
          else role in {CLIENT, PEER, ORDERER} && HasRole(msp, cert, role))
    case UnitLeaf(mspid, unit) => mspid == msp.name && IsValid(msp, cert) && unit in Units(msp, cert)
    case IdentityLeaf(c) => c.raw == cert.raw && IsValid(msp, c)
    case AnonymityLeaf(nominal) => nominal
    case Malformed => false
  }

  /** What it took before version 1.3. */
  predicate BeforeV13(msp: Provider, cert: Cert, leaf: Leaf) {
    match leaf
    case RoleLeaf(mspid, role) =>
      && mspid == msp.name
      && (if role == MEMBER then IsValid(msp, cert)
          else if role == ADMIN then IsAdmin(msp, cert)
          else role in {CLIENT, PEER} && HasRole(msp, cert, role))
    case UnitLeaf(mspid, unit) => mspid == msp.name && IsValid(msp, cert) && unit in Units(msp, cert)
    case IdentityLeaf(c) => c.raw == cert.raw && IsValid(msp, c)
    case AnonymityLeaf(_) => false
    case Malformed => false
  }

  method IsInAdmins(msp: Provider, cert: Cert) returns (r: bool)
    ensures r <==> IsAdmin(msp, cert)
  {
    for i := 0 to |msp.admins|
      invariant forall k | 0 <= k < i :: msp.admins[k].raw != cert.raw
    {
      if msp.admins[i].raw == cert.raw {
        return true;
      }
    }
    return false;
  }

  method HasOURole(msp: Provider, cert: Cert, role: int) returns (r: bool)
    ensures r <==> msp.ouEnforcement && HasUnit(msp, cert, NodeOU(msp, role))
  {
    if !msp.ouEnforcement {
      return false;
    }
    var node := NodeOU(msp, role);
    if node.None? {
      return false;
    }
    var us := Units(msp, cert);
    for i := 0 to |us|
      invariant node.value.ou !in cert.units[..i]
    {
      assert us[i].ou == cert.units[i];
      if us[i].ou == node.value.ou {
        return true;
      }
    }
    assert cert.units[..|us|] == cert.units;
    return false;
  }

  method ValidWithRole(msp: Provider, id: Identity, role: int) returns (ok: bool)
    requires id.Remembers(msp)
    modifies id
    ensures id.Remembers(msp) && (ok <==> HasRole(msp, id.cert, role))
  {
    ok := id.Validate(msp);
    if ok {
      ok := HasOURole(msp, id.cert, role);
    }
  }

  method SatisfiesPreV13(msp: Provider, id: Identity, leaf: Leaf) returns (ok: bool)
    requires id.Remembers(msp)
    modifies id
    ensures id.Remembers(msp) && (ok <==> BeforeV13(msp, id.cert, leaf))
  {
    match leaf
    case RoleLeaf(mspid, role) =>
      if mspid != msp.name {
        return false;
      }
      if role == MEMBER {
        ok := id.Validate(msp);
      } else if role == ADMIN {
        ok := IsInAdmins(msp, id.cert);
      } else if role == CLIENT || role == PEER {
        ok := ValidWithRole(msp, id, role);
      } else {
        return false;
      }
    case IdentityLeaf(c) =>
      var principalId := new Identity(c);
      if id.cert.raw == principalId.cert.raw {
        ok := principalId.Validate(msp);
        return;
      }
      return false;
    case UnitLeaf(mspid, unit) =>
      if mspid != msp.name {
        return false;
      }
      var valid := id.Validate(msp);
      if !valid {
        return false;
      }
      var us := Units(msp, id.cert);
      for i := 0 to |us|
        invariant unit !in us[..i]
      {
        if us[i] == unit {
          return true;
        }
      }
      assert us[..|us|] == us;
      return false;
    case AnonymityLeaf(_) => return false;
    case Malformed => return false;
  }

  method SatisfiesV142(msp: Provider, id: Identity, leaf: Leaf) returns (ok: bool)
    requires id.Remembers(msp)
    modifies id
    ensures id.Remembers(msp) && (ok <==> Satisfies(msp, id.cert, leaf))
  {
    if leaf.RoleLeaf? && msp.ouEnforcement {
      if leaf.mspid != msp.name {
        return false;
      }
      if leaf.role == ADMIN {
        ok := IsInAdmins(msp, id.cert);
        if !ok {
          ok := ValidWithRole(msp, id, ADMIN);
        }
        return;
      }
      if leaf.role == ORDERER {
        ok := ValidWithRole(msp, id, ORDERER);
        return;
      }
    }
    if leaf.AnonymityLeaf? {
      return leaf.nominal;
    }
    ok := SatisfiesPreV13(msp, id, leaf);
  }

  // ----- combined principals -----

  /** `Unreadable` is a combination whose payload does not parse. */
  datatype Principal = Single(leaf: Leaf) | Combined(parts: seq<Principal>) | Unreadable

  const MSP_V1_1: int := 1
  const MSP_V1_4_3: int := 3

  /** All the single principals of a combination, however deep. */
  function Leaves(p: Principal): (r: seq<Leaf>)
    decreases p, 1
  {
    match p
    case Single(leaf) => [leaf]
    case Combined(parts) => LeavesOf(parts)
    case Unreadable => []
  }

  function LeavesOf(parts: seq<Principal>): seq<Leaf>
    decreases parts, 0
  {
    if parts == [] then [] else LeavesOf(parts[..|parts| - 1]) + Leaves(parts[|parts| - 1])
  }

  /** No combination, at any depth, is unreadable or empty. */
  predicate NoEmptyNode(p: Principal)
    decreases p
  {
    match p
    case Single(_) => true
    case Combined(parts) => parts != [] && forall i | 0 <= i < |parts| :: NoEmptyNode(parts[i])
    case Unreadable => false
  }

  predicate Collectable(p: Principal, version: int) {
    if version <= MSP_V1_1 then p.Single? else NoEmptyNode(p)
  }

  method CollectPrincipals(p: Principal, version: int) returns (r: Result<seq<Leaf>>)
    ensures r == if Collectable(p, version) then Ok(Leaves(p)) else Err
    decreases p
  {
    match p
    case Single(leaf) => return Ok([leaf]);
    case Unreadable => return Err;
    case Combined(parts) =>
      if version <= MSP_V1_1 || parts == [] {
        return Err;
      }
      var collected: seq<Leaf> := [];
      for i := 0 to |parts|
        invariant collected == LeavesOf(parts[..i])
        invariant forall k | 0 <= k < i :: NoEmptyNode(parts[k])
      {
        var inner := CollectPrincipals(parts[i], version);
        if inner.Err? {
          return Err;
        }
        assert parts[..i + 1][..i] == parts[..i];
        collected := collected + inner.value;
      }
      assert parts[..|parts|] == parts;
      return Ok(collected);
  }

  /** The combination as a formula. */
  predicate SatisfiesAll(msp: Provider, cert: Cert, p: Principal)
    decreases p
  {
    match p
    case Single(leaf) => Satisfies(msp, cert, leaf)
    case Combined(parts) => parts != [] && forall i | 0 <= i < |parts| :: SatisfiesAll(msp, cert, parts[i])
    case Unreadable => false
  }

  predicate AllSatisfied(msp: Provider, cert: Cert, leaves: seq<Leaf>) {
    forall i | 0 <= i < |leaves| :: Satisfies(msp, cert, leaves[i])
  }

  lemma AllSatisfiedConcat(msp: Provider, cert: Cert, a: seq<Leaf>, b: seq<Leaf>)
    ensures AllSatisfied(msp, cert, a + b) <==> AllSatisfied(msp, cert, a) && AllSatisfied(msp, cert, b)
  {
    assert forall i | 0 <= i < |a| :: (a + b)[i] == a[i];
    assert forall i | 0 <= i < |b| :: (a + b)[|a| + i] == b[i];
  }

  /** Nested as it may be, a combination is satisfied when no part of it is empty and every leaf is satisfied. */
  lemma {:induction false} CombinedIff(msp: Provider, cert: Cert, p: Principal)
    ensures SatisfiesAll(msp, cert, p) <==> NoEmptyNode(p) && AllSatisfied(msp, cert, Leaves(p))
    decreases p, 1
  {
    match p
    case Single(leaf) =>
      assert Leaves(p)[0] == leaf;
    case Combined(parts) =>
      CombinedAll(msp, cert, parts);
    case Unreadable =>
  }

  lemma {:induction false} CombinedAll(msp: Provider, cert: Cert, parts: seq<Principal>)
    ensures (forall i | 0 <= i < |parts| :: SatisfiesAll(msp, cert, parts[i])) <==>
            (forall i | 0 <= i < |parts| :: NoEmptyNode(parts[i])) && AllSatisfied(msp, cert, LeavesOf(parts))
    decreases parts, 0
  {
    if parts != [] {
      var init, last := parts[..|parts| - 1], parts[|parts| - 1];
      CombinedAll(msp, cert, init);
      CombinedIff(msp, cert, last);
      AllSatisfiedConcat(msp, cert, LeavesOf(init), Leaves(last));
      assert forall i | 0 <= i < |init| :: parts[i] == init[i];
    }
  }

  method SatisfiesPrincipal(msp: Provider, id: Identity, p: Principal) returns (ok: bool)
    requires id.Remembers(msp)
    modifies id
    ensures id.Remembers(msp)
    ensures ok <==> SatisfiesAll(msp, id.cert, p)
  {
    CombinedIff(msp, id.cert, p);
    var principals := CollectPrincipals(p, MSP_V1_4_3);
    if principals.Err? {
      return false;
    }
    for i := 0 to |principals.value|
      invariant id.Remembers(msp)
      invariant AllSatisfied(msp, id.cert, principals.value[..i])
    {
      var satisfied := SatisfiesV142(msp, id, principals.value[i]);
      if !satisfied {
        return false;
      }
    }
    assert principals.value[..|principals.value|] == principals.value;
    return true;
  }

  // ----- node roles exclude each other -----

  ghost predicate DistinctNodeUnits(msp: Provider) {
    forall r, r' | IsNodeRole(r) && IsNodeRole(r') && r != r' :: !SameUnit(msp, r, r')
  }

  lemma NodeUnitsHas(msp: Provider, role: int)
    requires IsNodeRole(role) && NodeOU(msp, role).Some?
    ensures NodeOU(msp, role).value.ou in NodeUnits(msp)
  {
  }

  lemma {:induction false} CountTwo(nodes: map<string, OUIdentifier>, us: seq<OUIdentifier>, i: nat, j: nat)
    requires i < j < |us| && us[i].ou in nodes && us[j].ou in nodes
    ensures CountNodeUnits(nodes, us) >= 2
  {
    assert us[..i + 1][..i] == us[..i] && us[..j + 1][..j] == us[..j];
    assert us[..j][..i + 1] == us[..i + 1];
    CountGrows(nodes, us[..j], i + 1);
    CountGrows(nodes, us, j + 1);
  }

  predicate IsNodeRole(r: int) { r in {ADMIN, CLIENT, PEER, ORDERER} }

  /** The two roles are told apart by nothing: one unit is configured for both. */
  predicate SameUnit(msp: Provider, r: int, r': int) {
    NodeOU(msp, r).Some? && NodeOU(msp, r').Some? && NodeOU(msp, r).value.ou == NodeOU(msp, r').value.ou
  }

  /** Who has one node role has another one exactly if both stand for one unit name. */
  lemma SecondRoleIff(msp: Provider, cert: Cert, r: int, r': int)
    requires IsNodeRole(r) && IsNodeRole(r') && HasRole(msp, cert, r)
    ensures HasRole(msp, cert, r') <==> SameUnit(msp, r, r')
  {
    if HasRole(msp, cert, r') {
      var i :| 0 <= i < |cert.units| && cert.units[i] == NodeOU(msp, r).value.ou;
      var j :| 0 <= j < |cert.units| && cert.units[j] == NodeOU(msp, r').value.ou;
      NodeUnitsHas(msp, r);
      NodeUnitsHas(msp, r');
      if i != j {
        CountTwo(NodeUnits(msp), Units(msp, cert), if i < j then i else j, if i < j then j else i);
      }
    }
  }

  /** Two node roles exclude each other exactly if they have different unit names or nobody has the first. */
  lemma RolesExcludeIff(msp: Provider, r: int, r': int)
    requires IsNodeRole(r) && IsNodeRole(r')
    ensures (forall cert :: !(HasRole(msp, cert, r) && HasRole(msp, cert, r'))) <==>
            !SameUnit(msp, r, r') || forall cert :: !HasRole(msp, cert, r)
  {
    forall cert | HasRole(msp, cert, r) ensures HasRole(msp, cert, r') <==> SameUnit(msp, r, r') {
      SecondRoleIff(msp, cert, r, r');
    }
  }

  /** With node units told apart by name, nobody has two of the roles. */
  lemma OneRoleOnly(msp: Provider, cert: Cert, r: int, r': int)
    requires DistinctNodeUnits(msp) && IsNodeRole(r) && IsNodeRole(r') && r != r'
    ensures !(HasRole(msp, cert, r) && HasRole(msp, cert, r'))
  {
    if HasRole(msp, cert, r) {
      SecondRoleIff(msp, cert, r, r');
    }
  }

  /** A combination that asks for two of CLIENT, PEER and ORDERER with different units is never satisfied. */
  lemma TwoRolesUnsatisfiable(msp: Provider, cert: Cert, p: Principal, name: string, name': string, r: int, r': int)
    requires r in {CLIENT, PEER, ORDERER} && r' in {CLIENT, PEER, ORDERER} && !SameUnit(msp, r, r')
    requires RoleLeaf(name, r) in Leaves(p) && RoleLeaf(name', r') in Leaves(p)
    ensures !SatisfiesAll(msp, cert, p)
  {
    CombinedIff(msp, cert, p);
    if HasRole(msp, cert, r) { SecondRoleIff(msp, cert, r, r'); }
  }

  /** Who is an admin and has another role, with another unit, is an admin by certificate. */
  lemma AdminByName(msp: Provider, cert: Cert, name: string, name': string, r: int)
    requires r in {CLIENT, PEER, ORDERER} && !SameUnit(msp, r, ADMIN)
    requires Satisfies(msp, cert, RoleLeaf(name, ADMIN)) && Satisfies(msp, cert, RoleLeaf(name', r))
    ensures IsAdmin(msp, cert)
  {
    SecondRoleIff(msp, cert, r, ADMIN);
  }

  /** Roles that share a unit name go together, in every configuration: whoever has one has the other. */
  lemma SharedUnit(msp: Provider, cert: Cert, r: int, r': int)
    requires IsNodeRole(r) && IsNodeRole(r') && SameUnit(msp, r, r')
    ensures HasRole(msp, cert, r) <==> HasRole(msp, cert, r')
  {
    if HasRole(msp, cert, r) { SecondRoleIff(msp, cert, r, r'); }
    if HasRole(msp, cert, r') { SecondRoleIff(msp, cert, r', r); }
  }

  /** And somebody has them, if all that is configured is that unit and a chain is trusted. */
  lemma SharedUnitTaken(msp: Provider, cert: Cert, u: OUIdentifier)
    requires msp.ouEnforcement && msp.clientOU == Some(u) && msp.peerOU == Some(u) && msp.adminOU == None
      && msp.ordererOU == None
    requires u.certifiers == "" && msp.ouIdentifiers == map[] && msp.chainOk(cert) && cert.units == [u.ou]
    ensures HasRole(msp, cert, CLIENT) && HasRole(msp, cert, PEER)
  {
    var us := Units(msp, cert);
    assert us[..0] == [];
    assert us[0].ou == u.ou;
    SharedUnit(msp, cert, CLIENT, PEER);
  }
}
