/** Converting implicit meta policies to signature policies by merging their sub-policies. */
module PolicyMerge {
  import opened Wrappers
  import opened SignaturePolicy

  datatype Envelope = Envelope(rule: Rule, identities: seq<Principal>)

  // ----- keys of principals -----

  function Digit(d: nat): char
    requires d < 10
  {
    "0123456789"[d]
  }

  function Decimal(n: nat): string {
    if n < 10 then [Digit(n)] else Decimal(n / 10) + [Digit(n % 10)]
  }

  /** How a classification is rendered: by name, or as a number when it has none. */
  function ClassName(c: int): string {
    if c == 0 then "ROLE"
    else if c == 1 then "ORGANIZATION_UNIT"
    else if c == 2 then "IDENTITY"
    else if c == 3 then "ANONYMITY"
    else if c == 4 then "COMBINED"
    else if c < 0 then "-" + Decimal(-c)
    else Decimal(c)
  }

  function Key(p: Principal): string {
    ClassName(p.classification) + p.principal
  }

  predicate Defined(p: Principal) { 0 <= p.classification <= 4 }

  /** Keys tell these principals apart. */
  ghost predicate Apart(known: iset<Principal>) {
    forall p, q | p in known && q in known && Key(p) == Key(q) :: p == q
  }

  ghost predicate Within(ps: seq<Principal>, known: iset<Principal>) {
    forall i | 0 <= i < |ps| :: ps[i] in known
  }

  lemma FirstLetter(p: Principal)
    requires Defined(p)
    ensures |Key(p)| > 0 && Key(p)[0] == "ROIAC"[p.classification]
  {
    assert Key(p)[0] == ClassName(p.classification)[0];
  }

  /** Keys tell principals with named classifications apart. */
  lemma KeyInjective(p: Principal, q: Principal)
    requires Defined(p) && Defined(q) && Key(p) == Key(q)
    ensures p == q
  {
    FirstLetter(p);
    FirstLetter(q);
    var n := |ClassName(p.classification)|;
    assert p.principal == Key(p)[n..] && q.principal == Key(q)[n..];
  }

  lemma DefinedApart()
    ensures Apart(iset p: Principal | Defined(p))
  {
    forall p: Principal, q: Principal | Defined(p) && Defined(q) && Key(p) == Key(q) ensures p == q {
      KeyInjective(p, q);
    }
  }

  /** Keys of other classifications can coincide. */
  lemma KeysClash()
    ensures Key(Principal(7, "7x")) == Key(Principal(77, "x"))
  {
    assert Decimal(77) == Decimal(7) + [Digit(7)];
    assert Key(Principal(7, "7x")) == "77x";
    assert Key(Principal(77, "x")) == "77x";
  }

  // ----- merging -----

  /** `None` is a panic. */
  function Remap(rule: Rule, idRemap: map<int, nat>): Option<Rule> {
    match rule
    case NOutOf(n, rules) =>
      var remapped := RemapAll(rules, idRemap);
      if remapped.Some? then Some(NOutOf(n, remapped.value)) else None
    case SignedBy(index) =>
      if index in idRemap then Some(SignedBy(idRemap[index])) else None
    case Other => None
  }

  function RemapAll(rules: seq<Rule>, idRemap: map<int, nat>): (r: Option<seq<Rule>>)
    ensures r.Some? <==> forall j | 0 <= j < |rules| :: Remap(rules[j], idRemap).Some?
    ensures r.Some? ==>
      |r.value| == |rules| && forall j | 0 <= j < |rules| :: Remap(rules[j], idRemap) == Some(r.value[j])
  {
    if rules == [] then Some([])
    else
      var init := rules[..|rules| - 1];
      var front := RemapAll(init, idRemap);
      var last := Remap(rules[|rules| - 1], idRemap);
      assert forall j | 0 <= j < |init| :: rules[j] == init[j];
      if front.Some? && last.Some? then Some(front.value + [last.value]) else None
  }

  /** `idRemap` sends each of the `more` principals to the place of its key in
      `merged`, which adds to `ids` only what is new. */
  ghost predicate Deduplicates(ids: seq<Principal>, more: seq<Principal>, merged: seq<Principal>,
                               idRemap: map<int, nat>)
  {
    && ids <= merged
    && (forall i :: i in idRemap <==> 0 <= i < |more|)
    && (forall i | 0 <= i < |more| :: idRemap[i] < |merged| && Key(merged[idRemap[i]]) == Key(more[i]))
    && (forall j | |ids| <= j < |merged| :: merged[j] in more)
    && (forall i, j | 0 <= i < j < |merged| && |ids| <= j :: Key(merged[i]) != Key(merged[j]))
  }

  /** Remapping succeeds on exactly the rules that compile. */
  lemma {:induction false} RemapIffCompiles(rule: Rule, idRemap: map<int, nat>, more: seq<Principal>)
    requires forall i :: i in idRemap <==> 0 <= i < |more|
    ensures Remap(rule, idRemap).Some? <==> Compile(rule, more).Ok?
    decreases rule
  {
    if rule.NOutOf? {
      forall j | 0 <= j < |rule.rules|
        ensures Remap(rule.rules[j], idRemap).Some? <==> Compile(rule.rules[j], more).Ok?
      {
        RemapIffCompiles(rule.rules[j], idRemap, more);
      }
    }
  }

  /** Each of the `more` principals is found where it is sent. */
  ghost predicate Finds(more: seq<Principal>, merged: seq<Principal>, idRemap: map<int, nat>) {
    && (forall i :: i in idRemap <==> 0 <= i < |more|)
    && (forall i | 0 <= i < |more| :: idRemap[i] < |merged| && merged[idRemap[i]] == more[i])
  }

  /** A remapped rule means, over the merged principals, what it meant over its own. */
  lemma {:induction false} RemapPreserves(rule: Rule, more: seq<Principal>, merged: seq<Principal>,
                                          idRemap: map<int, nat>)
    requires Finds(more, merged, idRemap)
    requires Compile(rule, more).Ok?
    ensures Remap(rule, idRemap).Some? && Compile(Remap(rule, idRemap).value, merged) == Compile(rule, more)
    decreases rule
  {
    match rule
    case SignedBy(_) =>
    case NOutOf(n, rules) =>
      forall j | 0 <= j < |rules|
        ensures Remap(rules[j], idRemap).Some?
          && Compile(Remap(rules[j], idRemap).value, merged) == Compile(rules[j], more)
      {
        RemapPreserves(rules[j], more, merged, idRemap);
      }
      var remapped := RemapAll(rules, idRemap).value;
      assert CompileAll(remapped, merged).value == CompileAll(rules, more).value;
  }

  /** Merging keeps the meaning of every rule. */
  ghost predicate Faithful(more: seq<Principal>, merged: seq<Principal>, idRemap: map<int, nat>) {
    forall rule | Compile(rule, more).Ok? ::
      Remap(rule, idRemap).Some? && Compile(Remap(rule, idRemap).value, merged) == Compile(rule, more)
  }

  ghost predicate UniqueKeys(ids: seq<Principal>) {
    forall i, j | 0 <= i < j < |ids| :: Key(ids[i]) != Key(ids[j])
  }

  /** None of the `more` principals shares its key with a different principal. */
  ghost predicate NoClash(ids: seq<Principal>, more: seq<Principal>) {
    forall p, q | p in ids + more && q in more && Key(p) == Key(q) :: p == q
  }

  lemma FindsFaithful(more: seq<Principal>, merged: seq<Principal>, idRemap: map<int, nat>)
    requires Finds(more, merged, idRemap)
    ensures Faithful(more, merged, idRemap)
  {
    forall rule | Compile(rule, more).Ok?
      ensures Remap(rule, idRemap).Some? && Compile(Remap(rule, idRemap).value, merged) == Compile(rule, more)
    {
      RemapPreserves(rule, more, merged, idRemap);
    }
  }

  lemma FaithfulFinds(ids: seq<Principal>, more: seq<Principal>, merged: seq<Principal>, idRemap: map<int, nat>)
    requires Deduplicates(ids, more, merged, idRemap) && Faithful(more, merged, idRemap)
    ensures Finds(more, merged, idRemap)
  {
    forall i | 0 <= i < |more| ensures merged[idRemap[i]] == more[i] {
      assert Compile(SignedBy(i), more) == Ok(Leaf(more[i]));
      assert Remap(SignedBy(i), idRemap) == Some(SignedBy(idRemap[i]));
    }
  }

  /** Merging keeps keys unique. */
  lemma MergedUnique(ids: seq<Principal>, more: seq<Principal>, merged: seq<Principal>, idRemap: map<int, nat>)
    requires Deduplicates(ids, more, merged, idRemap) && UniqueKeys(ids)
    ensures UniqueKeys(merged)
  {
    forall i, j | 0 <= i < j < |merged| ensures Key(merged[i]) != Key(merged[j]) {
      if j < |ids| {
        assert merged[i] == ids[i] && merged[j] == ids[j];
      }
    }
  }

  lemma SameKeySamePlace(merged: seq<Principal>, i: nat, j: nat)
    requires UniqueKeys(merged) && i < |merged| && j < |merged| && Key(merged[i]) == Key(merged[j])
    ensures i == j
  {
  }

  /** Exactly then: when no two different principals share a key. */
  lemma FaithfulIff(ids: seq<Principal>, more: seq<Principal>, merged: seq<Principal>, idRemap: map<int, nat>)
    requires Deduplicates(ids, more, merged, idRemap) && UniqueKeys(ids)
    ensures Faithful(more, merged, idRemap) <==> NoClash(ids, more)
  {
    MergedUnique(ids, more, merged, idRemap);
    if Faithful(more, merged, idRemap) {
      FaithfulFinds(ids, more, merged, idRemap);
      forall p, q | p in ids + more && q in more && Key(p) == Key(q) ensures p == q {
        var i :| 0 <= i < |more| && more[i] == q;
        var j := Place(ids, more, merged, idRemap, p);
        SameKeySamePlace(merged, idRemap[i], j);
      }
    }
    if NoClash(ids, more) {
      forall i | 0 <= i < |more| ensures merged[idRemap[i]] == more[i] {
        assert merged[idRemap[i]] in ids + more by {
          var k := idRemap[i];
          if k < |ids| {
            assert merged[k] == ids[k];
          }
        }
      }
      FindsFaithful(more, merged, idRemap);
    }
  }

  /** Where a principal is to be found after merging. */
  lemma Place(ids: seq<Principal>, more: seq<Principal>, merged: seq<Principal>, idRemap: map<int, nat>, p: Principal)
    returns (j: nat)
    requires Deduplicates(ids, more, merged, idRemap) && Finds(more, merged, idRemap) && p in ids + more
    ensures j < |merged| && merged[j] == p
  {
    if p in ids {
      j :| 0 <= j < |ids| && ids[j] == p;
      assert merged[j] == ids[j];
    } else {
      var i :| 0 <= i < |more| && more[i] == p;
      j := idRemap[i];
    }
  }

  /** Remapped rules compile over the merged principals, whatever the classifications. */
  lemma {:induction false} RemapCompiles(rule: Rule, ids: seq<Principal>, more: seq<Principal>, merged: seq<Principal>,
                                         idRemap: map<int, nat>)
    requires Deduplicates(ids, more, merged, idRemap) && Remap(rule, idRemap).Some?
    ensures Compile(Remap(rule, idRemap).value, merged).Ok?
    decreases rule
  {
    if rule.NOutOf? {
      forall j | 0 <= j < |rule.rules| ensures Compile(Remap(rule.rules[j], idRemap).value, merged).Ok? {
        RemapCompiles(rule.rules[j], ids, more, merged, idRemap);
      }
    }
  }

  /** Adding principals leaves the rules that compile as they are. */
  lemma {:induction false} CompileMore(rule: Rule, ids: seq<Principal>, merged: seq<Principal>)
    requires ids <= merged && Compile(rule, ids).Ok?
    ensures Compile(rule, merged) == Compile(rule, ids)
    decreases rule
  {
    if rule.NOutOf? {
      forall j | 0 <= j < |rule.rules| ensures Compile(rule.rules[j], merged) == Compile(rule.rules[j], ids) {
        CompileMore(rule.rules[j], ids, merged);
      }
      assert CompileAll(rule.rules, merged).value == CompileAll(rule.rules, ids).value;
    }
  }

  /** Where the principals seen so far are found by key. */
  ghost predicate Indexes(idMap: map<string, nat>, ids: seq<Principal>) {
    && (forall k | k in idMap :: idMap[k] < |ids| && Key(ids[idMap[k]]) == k)
    && (forall i | 0 <= i < |ids| :: Key(ids[i]) in idMap)
  }

  lemma IndexOne(idMap: map<string, nat>, ids: seq<Principal>, p: Principal)
    requires Indexes(idMap, ids)
    ensures Indexes(idMap[Key(p) := |ids|], ids + [p])
  {
  }

  lemma SendOld(ids: seq<Principal>, more: seq<Principal>, merged: seq<Principal>, idRemap: map<int, nat>, p: Principal,
                j: nat)
    requires Deduplicates(ids, more, merged, idRemap) && j < |merged| && Key(merged[j]) == Key(p)
    ensures Deduplicates(ids, more + [p], merged, idRemap[|more| := j])
  {
    var idRemap' := idRemap[|more| := j];
    forall i | 0 <= i < |more + [p]|
      ensures idRemap'[i] < |merged| && Key(merged[idRemap'[i]]) == Key((more + [p])[i])
    {
      assert i < |more| ==> (more + [p])[i] == more[i];
    }
    forall i | |ids| <= i < |merged| ensures merged[i] in more + [p] {
      assert merged[i] in more;
    }
  }

  lemma SendNew(ids: seq<Principal>, more: seq<Principal>, merged: seq<Principal>, idRemap: map<int, nat>, p: Principal)
    requires Deduplicates(ids, more, merged, idRemap) && forall j | 0 <= j < |merged| :: Key(merged[j]) != Key(p)
    ensures Deduplicates(ids, more + [p], merged + [p], idRemap[|more| := |merged|])
  {
    assert forall q | q in more :: q in more + [p];
    assert (more + [p])[|more|] == p;
  }

  method IndexByKey(ids: seq<Principal>) returns (idMap: map<string, nat>)
    ensures Indexes(idMap, ids)
  {
    idMap := map[];
    for i := 0 to |ids|
      invariant Indexes(idMap, ids[..i])
    {
      IndexOne(idMap, ids[..i], ids[i]);
      assert ids[..i + 1] == ids[..i] + [ids[i]];
      idMap := idMap[Key(ids[i]) := i];
    }
    assert ids[..|ids|] == ids;
  }

  method Deduplicate(ids: seq<Principal>, more: seq<Principal>) returns (merged: seq<Principal>, idRemap: map<int, nat>)
    ensures Deduplicates(ids, more, merged, idRemap)
  {
    var idMap: map<string, nat> := IndexByKey(ids);
    merged, idRemap := ids, map[];
    for i := 0 to |more|
      invariant Indexes(idMap, merged) && Deduplicates(ids, more[..i], merged, idRemap)
    {
      var key := Key(more[i]);
      assert more[..i + 1] == more[..i] + [more[i]];
      if key in idMap {
        SendOld(ids, more[..i], merged, idRemap, more[i], idMap[key]);
        idRemap := idRemap[i := idMap[key]];
      } else {
        SendNew(ids, more[..i], merged, idRemap, more[i]);
        IndexOne(idMap, merged, more[i]);
        idRemap := idRemap[i := |merged|];
        idMap := idMap[key := |merged|];
        merged := merged + [more[i]];
      }
    }
    assert more[..|more|] == more;
  }

  class PolicyEnvelope {
    var rule: Rule
    var identities: seq<Principal>

    constructor (rule: Rule, identities: seq<Principal>)
      ensures this.rule == rule && this.identities == identities
    {
      this.rule, this.identities := rule, identities;
    }

    /** Adds `that` as one more rule; a panic is reported as false. */
    method Merge(that: Envelope) returns (ok: bool, ghost idRemap: map<int, nat>)
      modifies this
      ensures Deduplicates(old(identities), that.identities, identities, idRemap)
      ensures ok <==> old(rule).NOutOf? && Compile(that.rule, that.identities).Ok?
      ensures ok ==> var newEntry := Remap(that.rule, idRemap);
                     newEntry.Some? && rule == NOutOf(old(rule).n, old(rule).rules + [newEntry.value])
      ensures !ok ==> rule == old(rule)
    {
      var ids, remapping := Deduplicate(identities, that.identities);
      idRemap := remapping;
      identities := ids;
      RemapIffCompiles(that.rule, idRemap, that.identities);
      var newEntry := Remap(that.rule, remapping);
      if newEntry.None? || !rule.NOutOf? {
        return false, idRemap;
      }
      rule := NOutOf(rule.n, rule.rules + [newEntry.value]);
      ok := true;
    }
  }

  // ----- implicit meta policies -----

  /** `Rejecting` stands for policies that cannot be converted and are never satisfied. */
  datatype Policy = Rejecting | Signature(envelope: Envelope) | Meta(threshold: int, subPolicies: seq<Policy>)

  /** Signature policies are made only from rules that compile. */
  predicate Made(p: Policy) {
    match p
    case Rejecting => true
    case Signature(env) => Compile(env.rule, env.identities).Ok?
    case Meta(_, subs) => forall j | 0 <= j < |subs| :: Made(subs[j])
  }

  predicate Convertible(p: Policy) {
    match p
    case Rejecting => false
    case Signature(_) => true
    case Meta(_, subs) => forall j | 0 <= j < |subs| :: Convertible(subs[j])
  }

  /** All principals of the policy are among the known ones. */
  ghost predicate Mentions(p: Policy, known: iset<Principal>) {
    match p
    case Rejecting => true
    case Signature(env) => Within(env.identities, known)
    case Meta(_, subs) => forall j | 0 <= j < |subs| :: Mentions(subs[j], known)
  }

  ghost predicate AllMention(subs: seq<Policy>, known: iset<Principal>) {
    forall j | 0 <= j < |subs| :: Mentions(subs[j], known)
  }

  /** What the conversion stands for: each meta policy a gate over its sub-policies. */
  function Meaning(p: Policy): Evaluator
    requires Made(p) && Convertible(p)
    decreases p, 1
  {
    match p
    case Signature(env) => Compile(env.rule, env.identities).value
    case Meta(threshold, subs) => Gate(threshold, Meanings(subs))
  }

  predicate Ready(subs: seq<Policy>) {
    forall j | 0 <= j < |subs| :: Made(subs[j]) && Convertible(subs[j])
  }

  function Meanings(subs: seq<Policy>): (r: seq<Evaluator>)
    requires Ready(subs)
    ensures |r| == |subs|
    decreases subs, 0
  {
    if subs == [] then [] else Meanings(subs[..|subs| - 1]) + [Meaning(subs[|subs| - 1])]
  }

  /** The envelope built so far stands for the sub-policies merged so far. */
  ghost predicate Collected(rule: Rule, identities: seq<Principal>, threshold: int, subs: seq<Policy>,
                            known: iset<Principal>)
    requires Ready(subs)
  {
    && rule.NOutOf? && rule.n == threshold && CompileAll(rule.rules, identities).Ok?
    && (Apart(known) && AllMention(subs, known) ==>
          Within(identities, known) && CompileAll(rule.rules, identities) == Ok(Meanings(subs)))
  }

  lemma CompileAllSnoc(rules: seq<Rule>, last: Rule, identities: seq<Principal>)
    requires CompileAll(rules, identities).Ok? && Compile(last, identities).Ok?
    ensures CompileAll(rules + [last], identities)
         == Ok(CompileAll(rules, identities).value + [Compile(last, identities).value])
  {
    assert (rules + [last])[..|rules|] == rules;
  }

  lemma MeaningsSnoc(subs: seq<Policy>, last: Policy, known: iset<Principal>)
    requires Ready(subs) && Made(last) && Convertible(last)
    ensures Ready(subs + [last]) && Meanings(subs + [last]) == Meanings(subs) + [Meaning(last)]
    ensures AllMention(subs + [last], known) <==> AllMention(subs, known) && Mentions(last, known)
  {
    assert (subs + [last])[..|subs|] == subs;
    assert (subs + [last])[|subs|] == last;
    assert forall j | 0 <= j < |subs| :: subs[j] == (subs + [last])[j];
  }

  lemma MergedWithin(ids: seq<Principal>, more: seq<Principal>, merged: seq<Principal>, idRemap: map<int, nat>,
                     known: iset<Principal>)
    requires Deduplicates(ids, more, merged, idRemap) && Within(ids, known) && Within(more, known) && Apart(known)
    ensures Within(merged, known) && Finds(more, merged, idRemap)
  {
    forall j | 0 <= j < |merged| ensures merged[j] in known {
      assert j >= |ids| ==> merged[j] in more;
    }
  }

  /** The rules collected so far, and the next one, over the merged principals. */
  lemma CollectRules(before: Rule, ids: seq<Principal>, that: Envelope, merged: seq<Principal>, idRemap: map<int, nat>)
    requires before.NOutOf? && CompileAll(before.rules, ids).Ok?
    requires Deduplicates(ids, that.identities, merged, idRemap) && Remap(that.rule, idRemap).Some?
    ensures CompileAll(before.rules, merged) == CompileAll(before.rules, ids)
    ensures Compile(Remap(that.rule, idRemap).value, merged).Ok?
  {
    CompileMore(before, ids, merged);
    assert Compile(before, ids) == Ok(Gate(before.n, CompileAll(before.rules, ids).value));
    RemapCompiles(that.rule, ids, that.identities, merged, idRemap);
  }

  lemma CollectOne(before: Rule, ids: seq<Principal>, threshold: int, subs: seq<Policy>, last: Policy,
                   that: Envelope, merged: seq<Principal>, idRemap: map<int, nat>, known: iset<Principal>)
    requires Ready(subs)
    requires Made(last) && Convertible(last)
    requires Collected(before, ids, threshold, subs, known) && Deduplicates(ids, that.identities, merged, idRemap)
    requires Compile(that.rule, that.identities).Ok? && Remap(that.rule, idRemap).Some?
    requires Apart(known) && Mentions(last, known) ==>
        Within(that.identities, known) && Compile(that.rule, that.identities) == Ok(Meaning(last))
    ensures Ready(subs + [last])
    ensures Collected(NOutOf(before.n, before.rules + [Remap(that.rule, idRemap).value]), merged, threshold,
                      subs + [last], known)
  {
    CollectRules(before, ids, that, merged, idRemap);
    CompileAllSnoc(before.rules, Remap(that.rule, idRemap).value, merged);
    MeaningsSnoc(subs, last, known);
    if Apart(known) && AllMention(subs, known) && Mentions(last, known) {
      MergedWithin(ids, that.identities, merged, idRemap, known);
      RemapPreserves(that.rule, that.identities, merged, idRemap);
    }
  }

  lemma CollectStep(before: Rule, ids: seq<Principal>, threshold: int, subs: seq<Policy>, i: nat,
                    that: Envelope, merged: seq<Principal>, idRemap: map<int, nat>, known: iset<Principal>)
    requires i < |subs| && Ready(subs[..i]) && Made(subs[i]) && Convertible(subs[i])
    requires Collected(before, ids, threshold, subs[..i], known) && Deduplicates(ids, that.identities, merged, idRemap)
    requires Compile(that.rule, that.identities).Ok? && Remap(that.rule, idRemap).Some?
    requires Apart(known) && Mentions(subs[i], known) ==>
        Within(that.identities, known) && Compile(that.rule, that.identities) == Ok(Meaning(subs[i]))
    ensures Ready(subs[..i + 1])
    ensures Collected(NOutOf(before.n, before.rules + [Remap(that.rule, idRemap).value]), merged, threshold,
                      subs[..i + 1], known)
  {
    assert subs[..i + 1] == subs[..i] + [subs[i]];
    CollectOne(before, ids, threshold, subs[..i], subs[i], that, merged, idRemap, known);
  }

  /** Converting succeeds unless some sub-policy cannot be converted, and keeps
      the meaning if keys tell the principals apart. */
  method Convert(p: Policy, ghost known: iset<Principal>) returns (r: Result<Envelope>)
    requires Made(p)
    ensures r.Ok? <==> Convertible(p)
    ensures r.Ok? ==> Compile(r.value.rule, r.value.identities).Ok?
    ensures r.Ok? && Apart(known) && Mentions(p, known) ==>
      Within(r.value.identities, known) && Compile(r.value.rule, r.value.identities) == Ok(Meaning(p))
    decreases p
  {
    match p
    case Rejecting => return Err;
    case Signature(env) => return Ok(env);
    case Meta(threshold, subs) =>
      var converted := new PolicyEnvelope(NOutOf(threshold, []), []);
      for i := 0 to |subs|
        invariant Ready(subs[..i])
        invariant Collected(converted.rule, converted.identities, threshold, subs[..i], known)
      {
        var spe := Convert(subs[i], known);
        if spe.Err? {
          return Err;
        }
        ghost var rule, ids := converted.rule, converted.identities;
        var ok, idRemap := converted.Merge(spe.value);
        CollectStep(rule, ids, threshold, subs, i, spe.value, converted.identities, idRemap, known);
      }
      assert subs[..|subs|] == subs;
      return Ok(Envelope(converted.rule, converted.identities));
  }

  /** With principals of the defined classifications only, the conversion keeps the meaning. */
  method ConvertDefined(p: Policy) returns (r: Result<Envelope>)
    requires Made(p) && Mentions(p, iset q: Principal | Defined(q))
    ensures r.Ok? <==> Convertible(p)
    ensures r.Ok? ==> Compile(r.value.rule, r.value.identities) == Ok(Meaning(p))
  {
    DefinedApart();
    r := Convert(p, iset q: Principal | Defined(q));
  }
}
