/** The rules of implicit meta policies: any, all, a majority of the sub-policies. */
module ImplicitMetaRules {
  import opened SignaturePolicy
  import opened PolicyMerge
  import opened ImplicitMeta

  /** `Unknown` is any other number in the rule's place. */
  datatype MetaRule = ANY | ALL | MAJORITY | Unknown

  method NewImplicitMetaPolicy(rule: MetaRule, subs: seq<Policy>) returns (p: Policy)
    ensures p == Meta(Threshold(rule, |subs|), subs)
  {
    var threshold := 0;
    match rule {
      case ANY => threshold := 1;
      case ALL => threshold := |subs|;
      case MAJORITY => threshold := |subs| / 2 + 1;
      case Unknown =>
    }
    if |subs| == 0 {
      threshold := 0;
    }
    p := Meta(threshold, subs);
  }

  function Threshold(rule: MetaRule, n: nat): int {
    if n == 0 then 0
    else match rule
      case ANY => 1
      case ALL => n
      case MAJORITY => n / 2 + 1
      case Unknown => 0
  }

  lemma {:induction false} PassedBounds(sat: Satisfaction, subs: seq<Policy>, ids: seq<Identity>)
    ensures Passed(sat, subs, ids) <= |subs|
    ensures Passed(sat, subs, ids) >= 1 <==> exists j | 0 <= j < |subs| :: Evaluates(sat, subs[j], ids)
    ensures Passed(sat, subs, ids) == |subs| <==> forall j | 0 <= j < |subs| :: Evaluates(sat, subs[j], ids)
    decreases |subs|
  {
    if subs != [] {
      var init, last := subs[..|subs| - 1], |subs| - 1;
      PassedBounds(sat, init, ids);
      assert forall j | 0 <= j < last :: init[j] == subs[j];
      if Evaluates(sat, subs[last], ids) {
        assert exists j | 0 <= j < |subs| :: Evaluates(sat, subs[j], ids);
      }
    }
  }

  /** What the rules say: one sub-policy accepts, all do, more than half do; without sub-policies all are satisfied. A
      rule that is none of these is satisfied exactly if no sub-policy accepts. */
  lemma RulesMean(sat: Satisfaction, subs: seq<Policy>, ids: seq<Identity>)
    ensures Evaluates(sat, Meta(Threshold(ANY, |subs|), subs), ids) <==>
            subs == [] || exists j | 0 <= j < |subs| :: Evaluates(sat, subs[j], ids)
    ensures Evaluates(sat, Meta(Threshold(ALL, |subs|), subs), ids) <==>
            forall j | 0 <= j < |subs| :: Evaluates(sat, subs[j], ids)
    ensures Evaluates(sat, Meta(Threshold(MAJORITY, |subs|), subs), ids) <==>
            subs == [] || 2 * Passed(sat, subs, ids) > |subs|
    ensures Evaluates(sat, Meta(Threshold(Unknown, |subs|), subs), ids) <==>
            forall j | 0 <= j < |subs| :: !Evaluates(sat, subs[j], ids)
  {
    PassedBounds(sat, subs, ids);
  }

  lemma {:induction false} PassedApart(sat: Satisfaction, subs: seq<Policy>, ids: seq<Identity>, ids': seq<Identity>)
    requires forall j | 0 <= j < |subs| :: !(Evaluates(sat, subs[j], ids) && Evaluates(sat, subs[j], ids'))
    ensures Passed(sat, subs, ids) + Passed(sat, subs, ids') <= |subs|
    decreases |subs|
  {
    if subs != [] {
      PassedApart(sat, subs[..|subs| - 1], ids, ids');
    }
  }

  /** Two sets of signers that each have a majority share a sub-policy that accepts both. */
  lemma MajoritiesMeet(sat: Satisfaction, subs: seq<Policy>, ids: seq<Identity>, ids': seq<Identity>)
    requires subs != []
    requires Evaluates(sat, Meta(Threshold(MAJORITY, |subs|), subs), ids)
    requires Evaluates(sat, Meta(Threshold(MAJORITY, |subs|), subs), ids')
    ensures exists j | 0 <= j < |subs| :: Evaluates(sat, subs[j], ids) && Evaluates(sat, subs[j], ids')
  {
    RulesMean(sat, subs, ids);
    RulesMean(sat, subs, ids');
    if forall j | 0 <= j < |subs| :: !(Evaluates(sat, subs[j], ids) && Evaluates(sat, subs[j], ids')) {
      PassedApart(sat, subs, ids, ids');
    }
  }

  /** Policies made by the known rules have the thresholds under which a policy and its conversion are compared. */
  lemma KnownIsStandard(rule: MetaRule, subs: seq<Policy>)
    requires rule != Unknown && forall j | 0 <= j < |subs| :: Standard(subs[j])
    ensures Standard(Meta(Threshold(rule, |subs|), subs))
  {
  }
}
