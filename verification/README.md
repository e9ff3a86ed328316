# Proofs about configuration, access control and credentials in Fabric

This project models the parts of Hyperledger Fabric that decide who may change or read what, and proves what they
promise. Every main result is a statement about all inputs, all runs or all interleavings.

- **Channel configuration** (`Config*.dfy`, `PolicyManager.dfy`, `PolicyTree.dfy`, `ModPolicies.dfy`, `Indexing.dfy`). A
  channel's configuration is a tree of groups, values and policies, each with a version and a `mod_policy`. An update
  names what it read and what it writes. The validator flattens trees to maps keyed by path strings, compares, asks the
  policies, merges and rebuilds. Proved: flattening loses nothing and rebuilding undoes it; the flat policy index agrees
  with the tree of policy managers, and that with the config; an update is accepted exactly under a condition on its
  trees and the config, and what the new tree then has at each address; every difference between the old tree and the
  new one is a version step allowed by the `mod_policy` in force; the sequence number counts the updates; an update that
  depends on an element is refused once any later step has modified or removed it.
- **Authorization cache** (`AuthCache*.dfy`). Requests run concurrently, section by section, while configurations
  change. Proved over all interleavings: an answer is what the policy says at some instant of the request, and a request
  fails exactly if it has no key; the cache is bounded, and by what, exactly when a purge is to evict a number of
  entries other than zero. The methods of the class and the sections of the interleaved requests have the same
  functions on caches as their effect.
- **Combinations and permutations** (`Choose.dfy`, `SliceChoose.dfy`, `TreePermutations.dfy`, `Pruning.dfy`,
  `PermutationRule.dfy`, `Permute.dfy`). Choosing k of n appends to slices that may share memory, so the model keeps
  Go's slices and their capacity. Proved: exactly when the enumeration is right; that permuting a tree yields exactly
  the trees that keep, at every vertex, as many descendants as its threshold says, if at every vertex there is nothing
  to choose, pruning leaves nothing to choose or the last append of a group moves; and that otherwise some pruning
  makes it miss a tree.
- **Signature policies** (`SignaturePolicy.dfy`, `PolicyCompleteness.dfy`, `PolicyOrder.dfy`, `PolicyMerge.dfy`,
  `ImplicitMeta.dfy`, `ImplicitMetaRules.dfy`). A compiled policy marks the identities it uses. Proved: what is accepted
  is satisfied by distinct identities, and by enough of them; when the greedy order finds every way, and that it finds
  signers in the order of the leaves; that merging policies keeps their meaning, and exactly when; what the rules of
  meta policies say, and how evaluating one compares with evaluating its conversion.
- **Identity Mixer** (`ModArith.dfy`, `Idemix*.dfy`). Credentials, blind presentation and pseudonyms, over groups of
  prime order. Proved: honest requests, credentials and signatures pass, for every disclosure and all random choices but
  the degenerate ones; two accepted signatures that share commitments but not the challenge determine a secret key and a
  credential that passes verification; two that share the challenge are for the same message, disclosure, nonce,
  pseudonym and key, or two given inputs of the hash clash.
- **Deliver sessions** (`Deliver.dfy`), **log levels** (`Strings.dfy`, `Patterns.dfy`, `Logger*.dfy`) and
  **membership** (`Msp.dfy`, `MspRoles.dfy`). Proved: the blocks of a session are gapless and each follows an
  authorization at the highest configuration sequence seen, before the identity expires, and why each session ends; what
  any log specification means, that the level cache and the fast filter agree with it, and that the printed
  specification parses back, exactly when no level is PAYLOAD; who has which role, in terms of the certificate's units
  and the configured ones; nested principals mean the conjunction of their leaves, and whoever has one node role has
  another one exactly if both stand for one unit name.

Objects that the source changes in place are classes with the same fields, and its loops are loops. Each such method is
proved equal to a function or to a property of the state, and the theorems are about those. Where the code falls short
of what its name or comment suggests, the model follows the code, and a lemma gives an input beside the condition under
which the promise holds:

- `FourOutOfFive` and `ChosenExact`: the enumeration of k out of n overwrites groups it has recorded, unless the last
  append of each group moves to fresh memory;
- `FourOfFiveLeaves`, `AlwaysExactIff` and `Permute`: so permuting a tree can miss trees, and exactly when it may;
- `ContestedRefused` and `AcceptsIffSatisfied`: a satisfied policy can be refused when an identity satisfies two leaves;
- `ConversionDiffers`, `ConversionAcceptsMore` and `ConversionAgrees`: a meta policy counts an identity once per
  sub-policy, its conversion once; so each may accept what the other refuses, unless no identity satisfies two leaves;
- `KeysClash` and `FaithfulIff`: principals of unnamed classifications can be confused by merging;
- `FailureForgotten` and `UnsafeIff`: the session access control forgets a failed check, and exactly when an evaluation
  goes through on one; `StoppingIsSafe`: sessions are safe because they end at the first failure;
- `BoundedIff`: the cache grows without bound exactly when a purge is to evict zero entries, as with a retention ratio
  of one;
- `SharedUnitTaken` and `SecondRoleIff`: one certificate has two node roles exactly if both stand for one unit name;
- `NoHandleIff` and `RunProtocol`: on valid input, signing panics exactly when every attribute from the revocation handle
  on is disclosed;
- `RoundTrip` of the log levels: PAYLOAD is printed in a form that does not parse;
- `LostWriteExample`, `LostWrite` and `NewTreeExactly`: an accepted update can write an element that is not in the new
  tree, and exactly when: a group on the way down, as written or else as it was, does not declare the next key;
- `SeparatorIgnored` and `AbsoluteIds`: an absolute policy id is cut after the manager's path and one more character,
  which need not be a slash;
- `OrderMatters` and `InOrderAccepted`: the order of the signatures decides, unless they come in the order of the leaves;
- `RulesMean`: a meta policy whose rule is no known one is satisfied exactly if no sub-policy accepts.

## Model

| member | source | states |
|---|---|---|
| ConfigPaths.PathStringInjective | common/configtx/configmap.go:44-71 | paths of legal names are recovered from their joined strings |
| ConfigPaths.FqPathInjective | common/configtx/configmap.go:44-71 | two elements share a key of the flat map only if they have the same kind and address |
| ConfigMap.ItemsUnique | common/configtx/configmap.go:74-101 | in a tree of legal names no two elements compete for one key |
| ConfigMap.FlatMap.AddToMap | common/configtx/configmap.go:44-71 | adds exactly this element, or refuses an illegal name and changes nothing |
| ConfigMap.FlatMap.RecurseConfig | common/configtx/configmap.go:74-101 | succeeds exactly on trees of legal names, adding exactly the tree's elements |
| ConfigMap.MapConfig | common/configtx/configmap.go:32-41 | the flat map of a tree, the empty map for an absent tree, or an error for a bad root name or an illegal name |
| ConfigMap.FlattenEntry | common/configtx/configmap.go:32-101 | every entry is the element its own address names, under its own key |
| ConfigMap.FlattenElement | common/configtx/configmap.go:32-101 | every element of the tree is an entry |
| ConfigRebuild.RecurseConfigMap | common/configtx/configmap.go:112-190 | rebuilding by loops over the members of each group, with the filling of empty mod_policy fields, is the recursive reading of the map |
| ConfigRebuild.ConfigMapToConfig | common/configtx/configmap.go:105-108 | rebuilding from the root group |
| ConfigRebuild.RoomShrinks | common/configtx/configmap.go:112-190 | the recursion ends, also on maps that no tree flattens to |
| ConfigCoherence.RebuildSucceeds | common/configtx/configmap.go:112-157 | no member is missing or of the wrong type in a map whose groups' members are present |
| ConfigCoherence.RebuiltMirrors | common/configtx/configmap.go:112-190 | a rebuilt tree holds at each address what the map holds there |
| ConfigCoherence.RebuiltLegal | common/configtx/configmap.go:112-190 | a rebuilt tree can be flattened again |
| ConfigRoundTrip.FlattenCoherent | common/configtx/configmap.go:32-101 | a flattened tree has every member its groups name |
| ConfigRoundTrip.RoundTrip | common/configtx/configmap.go:32-190 | flatten, then rebuild: the same tree, with empty mod_policy fields filled exactly if the orderer Capabilities value is present |
| ConfigRoundTrip.FilledTreeHasNoEmptyModPolicy | common/configtx/configmap.go:159-187 | after filling no element lacks a mod_policy |
| ConfigRoundTrip.FilledTreeIs | common/configtx/configmap.go:159-187 | filling gives Admins to the elements that have no mod_policy, at every depth, and changes nothing else |
| PolicyManager.NewManagerImpl | common/policies/policy.go:187-247 | the loops over sub-managers and their policies build the flat index of the specification |
| PolicyManager.FlatIndexAgrees | common/policies/policy.go:187-247 | asking the root by a joined name is walking down and asking there |
| PolicyManager.PolicyIdsAgree | common/policies/policy.go:332-360 | relative and absolute names at the root give the policy, and the found flag, of the walk |
| PolicyManager.AbsoluteIds | common/policies/policy.go:332-360 | an absolute id finds a policy exactly if it is the manager's path, any one character and the policy's relative id; it panics exactly if it is the path alone |
| PolicyManager.ForeignIdsRejected | common/policies/policy.go:332-360 | an absolute id that does not begin with the manager's path gets the policy that rejects everything |
| PolicyManager.SeparatorIgnored | common/policies/policy.go:332-360 | the character after the path need not be a slash |
| PolicyTree.OwnPolicies | common/policies/policy.go:187-247 | a group's manager has exactly the group's policies, each compiled with the managers below |
| PolicyTree.WalkFindsTree | common/policies/policy.go:187-276 | walking to a group and asking there finds the compiled policy that the config has at that address, and none where it has none |
| PolicyTree.BuiltIff | common/policies/policy.go:187-247 | with providers that compile everything, building fails exactly if some policy of the tree is absent |
| ModPolicies.SubManagerIsBuilt | common/policies/policy.go:260-275 | the manager reached by a walk is the one built for the group reached by that walk |
| ModPolicies.RelativeModPolicy | common/configtx/update.go:161-190 | a relative mod_policy is looked up from the element's own group |
| ModPolicies.AbsoluteModPolicy | common/configtx/update.go:161-190 | an absolute mod_policy is looked up from the root |
| PolicyTree.AuthorityIs | common/configtx/update.go:161-190 | an element with a relative mod_policy may be changed by exactly the signers that satisfy the policy which the config has under the element's own group |
| PolicyTree.AbsoluteAuthorityIs | common/configtx/update.go:161-190 | with an absolute one, exactly the signers that satisfy the policy which the config has at that path from the root |
| ConfigUpdate.NewValidatorImpl | common/configtx/validator.go:83-129 | succeeds exactly on a present config with legal channel and element names, and yields a valid validator |
| ConfigNames.ConfigNamesAre | common/configtx/validator.go:48-68 | legal element names: up to 249 characters, neither a period nor two, all matched by the pattern |
| ConfigNames.ChannelNamesAre | common/configtx/validator.go:83-100 | legal channel names: up to 249 characters, a lower case letter first, all matched by the pattern |
| ConfigNames.ModPoliciesAre | common/configtx/update.go:48-66 | usable mod_policies are exactly the non-empty paths of legal names, with or without a slash in front |
| ConfigUpdate.VerifyReadSet | common/configtx/update.go:18-30 | all of the read set is there at the versions read |
| ConfigUpdate.ComputeDeltaSet | common/configtx/update.go:32-46 | what is written at another version than read |
| ConfigUpdate.VerifyDeltaSet | common/configtx/update.go:68-102 | something is written; new elements at version 0, existing ones one version up with their present mod_policy satisfied; all mod_policies well formed |
| ConfigUpdate.ComputeUpdateResult | common/configtx/update.go:193-203 | the current map with the written elements in place of old ones |
| ConfigUpdate.VerifyFullProposedConfig | common/configtx/update.go:104-111 | all of the write set is in the result |
| ConfigUpdate.AuthorizeUpdate | common/configtx/update.go:115-159 | the steps in order, each with its error |
| ConfigUpdate.ProposeConfigUpdate | common/configtx/validator.go:137-160 | the next of the 2^64 sequence numbers, the update itself and the rebuilt tree, or an error |
| ConfigUpdate.Validate | common/configtx/validator.go:163-197 | a config is valid exactly if it is what proposing its last update yields; so no other sequence number is |
| ConfigSafety.AcceptedIff | common/configtx/update.go:115-159 | an update is accepted exactly if its read and delta checks pass; the two later checks never refuse |
| ConfigAcceptance.AcceptedExactly | common/configtx/update.go:18-160 | the same in terms of the trees: the channel is this one, names are legal, everything read is there at the version read, something is written, and each element written has a usable mod_policy and is new at version 0, or one version up with its present mod_policy satisfied |
| ConfigAcceptance.NewTreeExactly | common/configtx/configmap.go:105-190 | the new tree has an address exactly if every group on the way down, as written or else as it was, declares the next key; then it has there what is written, or else what was there |
| ConfigAcceptance.LostWrite | common/configtx/update.go:68-203 | so a new element whose group is not written is not in the new tree, although the update is accepted |
| ConfigAcceptance.LostWriteExample | common/configtx/update.go:68-203 | as when an update repeats the root group, as read, around one new value, with any signatures |
| ConfigSafety.EveryChangeIsAuthorized | common/configtx/update.go:68-159 | every element is kept, or bumped by one with its mod_policy satisfied, or added at version 0 below a bumped group, or gone below one |
| ConfigSafety.NoAuthorityNoChange | common/configtx/update.go:68-159 | signatures that satisfy no mod_policy change nothing but empty mod_policy fields |
| ConfigMoves.KeptOrBumped | common/configtx/update.go:68-102 | an element present before and after has its version and own content, or was bumped with authority |
| ConfigMoves.ShapeChangeIsBump | common/configtx/update.go:68-102 | a group that gains or loses a member was bumped with authority |
| ConfigMoves.AddedBelowBump | common/configtx/update.go:68-102 | an added element hangs below its nearest existing group, which was bumped with authority |
| ConfigMoves.VanishedBelowBump | common/configtx/update.go:68-102 | a vanished element has a group above it that is still there and was bumped with authority |
| ConfigConflicts.SuccessorExists | common/configtx/validator.go:103-160 | after an accepted update there is always a valid validator for the new tree |
| ConfigConflicts.RunSequence | common/configtx/validator.go:137-160 | after i steps of any run the sequence number is i more than at its start, modulo 2^64 |
| ConfigConflicts.ModifiedSurvives | common/configtx/update.go:68-203 | an existing element that an accepted update modifies is still there, exactly one version higher |
| ConfigConflicts.RunVersions | common/configtx/update.go:18-203 | over a run, the version of an element that stays only steps up |
| ConfigConflicts.NoLostUpdate | common/configtx/update.go:18-102 | of two updates accepted in one state, the second is refused after the first if it reads or modifies what the first modified |
| ConfigConflicts.StaleUpdateRejected | common/configtx/update.go:18-102 | the same after any run of fewer than 2^64 steps in which some step modified the element, or removed it, whether or not it came back |
| ConfigConflicts.NoReplay | common/configtx/update.go:18-102 | an update that modified an existing element is refused when sent again |
| AuthCache.AccessCache.IsValid | discovery/authcache.go:168-172 | whether the sequence is the one of the cache, as the checking section of an interleaved request decides it |
| AuthCache.AccessCache.ConfigChange | discovery/authcache.go:174-180 | its effect on the cache is that of the invalidating section |
| AuthCache.AccessCache.Lookup | discovery/authcache.go:182-188 | the stored verdict, if any, as the lookup section finds it |
| AuthCache.AccessCache.PurgeEntriesIfNeeded | discovery/authcache.go:141-166 | the eviction loop leaves one of the sets of entries that the purging section may leave: exactly as many as the settings say, unchanged |
| AuthCache.AccessCache.Store | discovery/authcache.go:131-138 | its effect on the cache is that of the storing section |
| AuthCache.AccessCache.EligibleForService | discovery/authcache.go:102-139 | a request that nothing overlaps answers what the support says at the sequence given, remembers it, and keeps every entry coherent; without a key it fails and changes nothing |
| AuthCacheSafety.InvStep | discovery/authcache.go:67-139 | every locked or unlocked section of every request, and every config change, keeps the invariant |
| AuthCacheSafety.HitIsCurrent | discovery/authcache.go:102-139 | a cache hit is the verdict at some instant since the request began |
| AuthCacheSafety.AnswersAreCurrent | discovery/authcache.go:67-139 | over all interleavings, every answer is the policy's verdict at some instant of the request |
| AuthCacheSafety.KeyErrorIff | discovery/authcache.go:67-139 | over all interleavings, a request fails exactly if caching is enabled and its key cannot be computed |
| AuthCacheSize.PurgeShrinks | discovery/authcache.go:141-166 | a purge that is to evict a number of entries other than zero evicts at least one |
| AuthCacheSize.PurgeOfFullCache | discovery/authcache.go:141-166 | a purge comes exactly when the maximum is reached, and leaves a cache at its maximum the retained share of it, rounded down |
| AuthCacheSize.TruncIs | discovery/authcache.go:150-155 | conversion to an integer is rounding towards zero |
| AuthCacheSize.CacheSizeBound | discovery/authcache.go:118-166 | then, with at most T requests in flight, no cache holds more than its maximum (or one entry, if that is not positive) and T - 1 entries |
| AuthCacheSize.RatioBelowOne | discovery/authcache.go:150-155 | a positive maximum and a retention ratio below one make it so |
| AuthCacheGrowth.BoundedIff | discovery/authcache.go:102-166 | the cache is bounded over all runs exactly when the number to evict is not zero; if it is, a run of undisturbed requests exceeds any bound |
| AuthCacheGrowth.Serve | discovery/authcache.go:102-139 | an undisturbed request whose key is not there adds its entry, and if purges evict none, none is lost |
| AuthCacheGrowth.ServedAgain | discovery/authcache.go:102-139 | asked again, with nothing in between, the cache answers from the entry, without asking the support, and stays as it is |
| Choose.CombosExact | common/graph/choose.go:40-65 | the recursion finds exactly the increasing index groups of the size asked for |
| Choose.CombosSorted | common/graph/choose.go:40-65 | in lexicographic order, so none twice |
| Choose.CombosCount | common/graph/choose.go:29-65 | there are as many as the binomial coefficient says |
| Choose.BinomialIsQuotient | common/graph/choose.go:29-38 | the coefficient is the quotient of factorials |
| SliceChoose.Chooser.Append | common/graph/choose.go:50-65 | append writes in place or moves, as capacity demands |
| SliceChoose.Chooser.Choose | common/graph/choose.go:50-65 | what memory and the recorded groups hold after the recursion |
| SliceChoose.ChooseKoutOfN | common/graph/choose.go:40-48 | the groups as they read when the enumeration returns |
| SliceChoose.ChosenExact | common/graph/choose.go:40-65 | they are the groups to choose exactly if n is at most k or the last append of a group moves |
| SliceChoose.RecordedSound | common/graph/choose.go:40-65 | even otherwise each is one of the groups to choose |
| SliceChoose.DoublingMoves | common/graph/choose.go:50-65 | with doubling capacity that is so for sizes 0, 1 and one more than a power of two |
| SliceChoose.FourOutOfFive | common/graph/choose.go:50-65 | with doubling, the first of the groups of 4 out of 5 is lost |
| TreePermutations.FindIsMembership | common/graph/tree.go:55-71 | a vertex is found exactly if it is in the tree |
| TreePermutations.RewriteStage | common/graph/perm.go:39-93 | rewriting at the next vertex takes the list of trees from one stage to the next, both ways |
| TreePermutations.RewriteDistinct | common/graph/perm.go:39-93 | and repeats none |
| Permute.BfsIterator.Next | common/graph/tree.go:125-159 | the first of the queue, whose descendants go to its end |
| Pruning.Prune | common/graph/perm.go:97-123 | an increasing choice of descendants, of exactly the size at which dropping one after the other first brings the combinations within the bound |
| Pruning.GuardedExact | common/graph/perm.go:97-134 | if at every vertex there is nothing to choose, pruning leaves nothing to choose or the last append moves, the enumeration is right however the tree is pruned |
| Pruning.AlwaysExactIff | common/graph/perm.go:97-134 | and only then, where every inner vertex has a threshold between one and the number of its descendants |
| Permute.TreePermuter.ComputeDescendantPermutations | common/graph/perm.go:97-134 | records, at every vertex, the choices among the descendants it keeps |
| Permute.TreePermuter.PermutePruned | common/graph/perm.go:39-93 | the rewriting loop keeps its invariant to the end |
| Permute.TreePermuter.Permute | common/graph/perm.go:39-134 | the result lists exactly the permutations of a pruning of the tree; under the condition on the given tree, each once and exactly the trees that keep threshold many descendants at each vertex; otherwise exactly those only if the enumeration is right at every vertex of the pruning |
| PermutationRule.PermutationIsRule | common/graph/perm.go:39-93 | where the enumeration is right, permutations are the trees that keep threshold many descendants at each vertex |
| PermutationRule.MissingTree | common/graph/perm.go:39-93 | where it is wrong at some vertex, some such tree is not found |
| PermutationRule.FourOfFiveLeaves | common/graph/perm.go:39-134 | with doubling and a bound of at least five, the tree of the first four of five leaves is never found |
| SignaturePolicy.CompileAll | common/cauthdsl/cauthdsl.go:31-39 | rules compile together exactly if each compiles |
| SignaturePolicy.Evaluate | common/cauthdsl/cauthdsl.go:40-88 | marks in a shared array, with a scratch copy per gate, as the specification evaluates; what that is, the rows on soundness, order and completeness say |
| SignaturePolicy.EvaluateIdentities | common/cauthdsl/policy.go:99-109 | evaluation starts with no identity used |
| SignaturePolicy.EvalSound | common/cauthdsl/cauthdsl.go:40-88 | what is accepted has a witness: identities that satisfy their leaves, distinct and free before, and exactly those become used |
| SignaturePolicy.EvalAllSound | common/cauthdsl/cauthdsl.go:40-60 | at a gate, counted sub-policies are satisfied and failed ones use up nothing |
| SignaturePolicy.MinLeavesBound | common/cauthdsl/cauthdsl.go:40-60 | no witness names fewer leaves than the computed minimum |
| SignaturePolicy.MinLeavesAttained | common/cauthdsl/cauthdsl.go:40-60 | and some witness names that many |
| SignaturePolicy.AcceptanceCost | common/cauthdsl/cauthdsl.go:40-88 | acceptance uses up at least the minimum |
| SignaturePolicy.AcceptsOnlyEnough | common/cauthdsl/cauthdsl.go:40-88 | fewer identities than the minimum are never accepted |
| PolicyCompleteness.EvalUncontested | common/cauthdsl/cauthdsl.go:40-88 | if no identity satisfies two leaves, evaluation decides the policy as a formula |
| PolicyCompleteness.AcceptsIffSatisfied | common/cauthdsl/cauthdsl.go:40-88 | then acceptance is satisfaction, both ways |
| PolicyCompleteness.ContestedRefused | common/cauthdsl/cauthdsl.go:40-88 | two distinct signers that satisfy both parts of a policy can be refused |
| PolicyOrder.LeafTakesFirst | common/cauthdsl/cauthdsl.go:61-88 | a leaf marks exactly one identity, the first that is free and satisfies it, or refuses, marks none and there is none |
| PolicyOrder.InOrderAccepted | common/cauthdsl/cauthdsl.go:40-88 | a policy whose leaves are satisfied by signers in the leaves' order is accepted, whoever else signed, at any nesting |
| PolicyOrder.ListedAccepted | common/cauthdsl/cauthdsl.go:40-88 | so all of some principals are met by signers listed in their order |
| PolicyOrder.OrderMatters | common/cauthdsl/cauthdsl.go:40-88 | and the same two signers in the other order can be refused |
| PolicyMerge.KeyInjective | common/policies/convert.go:63-68 | keys tell principals of the named classifications apart |
| PolicyMerge.KeysClash | common/policies/convert.go:63-68 | keys of other classifications can coincide |
| PolicyMerge.RemapIffCompiles | common/policies/convert.go:21-56 | remapping panics on exactly the rules that do not compile |
| PolicyMerge.RemapPreserves | common/policies/convert.go:21-56 | a remapped rule compiles, over the merged principals, to what it was |
| PolicyMerge.CompileMore | common/policies/convert.go:61-94 | the rules merged before keep their meaning |
| PolicyMerge.Deduplicate | common/policies/convert.go:61-85 | only new keys are added, each once, and every principal is sent to its key's place |
| PolicyMerge.MergedUnique | common/policies/convert.go:61-85 | keys stay unique |
| PolicyMerge.FaithfulIff | common/policies/convert.go:61-94 | merging keeps the meaning of every rule exactly if no principal shares its key with a different one |
| PolicyMerge.PolicyEnvelope.Merge | common/policies/convert.go:61-94 | one more rule, remapped; refused exactly for rules that do not compile and targets that are no gates |
| PolicyMerge.Convert | common/policies/convert.go:98-129 | conversion fails exactly on a part that cannot be converted, and otherwise compiles to the gate over the parts' meanings, at any nesting |
| PolicyMerge.ConvertDefined | common/policies/convert.go:98-129 | with principals of the named classifications only, conversion keeps the meaning |
| ImplicitMeta.EvaluateIdentities | common/policies/implicitmeta.go:107-144 | counts the sub-policies that accept, each on all identities, against the threshold |
| ImplicitMetaRules.NewImplicitMetaPolicy | common/policies/implicitmeta.go:30-66 | the threshold of each rule, and 0 without sub-policies |
| ImplicitMetaRules.RulesMean | common/policies/implicitmeta.go:30-144 | ANY, ALL and MAJORITY accept exactly if one, all, more than half of the sub-policies do; any other rule exactly if none does |
| ImplicitMetaRules.MajoritiesMeet | common/policies/implicitmeta.go:30-144 | two sets of signers that each have a majority satisfy a common sub-policy |
| ImplicitMeta.ConversionAgrees | common/policies/implicitmeta.go:107-144 | if no identity satisfies two leaves, a meta policy and its conversion accept alike |
| ImplicitMeta.ConversionDiffers | common/policies/convert.go:98-129 | otherwise the meta policy may accept what its conversion refuses |
| ImplicitMeta.ConversionAcceptsMore | common/policies/convert.go:98-129 | and the conversion may accept what the meta policy refuses |
| ModArith.Inverse | idemix/credential.go:88-91 | the inverse modulo a prime |
| Idemix.AddPairwise | idemix/credential.go:70-85 | two at a time with an odd rest is the sum over all attributes |
| Idemix.HiddenIndices | idemix/signature.go:35-43 | exactly the places with a zero, in ascending order |
| Idemix.AddDisclosed | idemix/signature.go:318-325 | the sum over the disclosed attributes |
| Idemix.SplitSum | idemix/signature.go:316-326 | hidden and disclosed part make up the sum over all attributes |
| IdemixCredential.RequestComplete | idemix/credrequest.go:35-109 | an honest request passes |
| IdemixCredential.RequestSound | idemix/credrequest.go:76-109 | two accepted requests with one commitment and two challenges give away the secret key of the pseudonym |
| IdemixCredential.NymComplete | idemix/nymsignature.go:16-109 | the owner's pseudonym signatures pass |
| IdemixCredential.NymSound | idemix/nymsignature.go:74-109 | two accepted ones with one commitment and two challenges give away both secrets of the pseudonym |
| IdemixCredential.NewCredential | idemix/credential.go:37-107 | issues exactly for accepted requests with the right number of attributes, signing the pseudonym and the attributes |
| IdemixCredential.Ver | idemix/credential.go:111-160 | accepts exactly if B matches key and attributes and the pairing equation holds |
| IdemixCredential.IssuedVerifies | idemix/credential.go:37-160 | what is issued for a pseudonym verifies under its key, if isk + e is invertible |
| IdemixCredential.IssuanceComplete | idemix/credential.go:37-160 | request and issuance together |
| IdemixSignature.NewSignature | idemix/signature.go:50-236 | refuses exactly a handle out of range, a disclosure of the wrong length or another revocation algorithm, panics exactly if no hidden attribute is at or after the revocation handle, and otherwise makes the specified signature |
| IdemixSignature.NoHandleIff | idemix/signature.go:120-131 | that panic comes exactly when every attribute from the handle on is disclosed |
| IdemixSignature.HandleFound | idemix/signature.go:120-131 | with the revocation handle hidden there is no panic |
| IdemixSignature.RecomputeCommitments | idemix/signature.go:302-329 | the recomputation by loops is the specified one |
| IdemixSignature.Ver | idemix/signature.go:243-405 | accepts exactly if handle, disclosure, algorithm and number of responses fit, A' is not the identity, the pairings agree and the challenge comes out; when it refuses and when it panics |
| IdemixComplete.DotResponses | idemix/signature.go:203-209 | the sum of the attribute responses is the response of the sums |
| IdemixComplete.SignatureComplete | idemix/signature.go:50-405 | a signature from a valid credential and matching pseudonym is accepted for the disclosed values exactly if r1 is invertible and A is not the identity |
| IdemixComplete.ProtocolComplete | idemix/signature.go:50-405 | request, issuance and signature together, for every disclosure |
| IdemixComplete.RunProtocol | idemix/signature.go:50-405 | request, issuance, signing and verification run one after the other end well exactly if the handle is found, r1 is not zero and the credential does not sign the identity; they panic exactly if the handle is not found |
| IdemixSound.SignatureSound | idemix/signature.go:243-405 | two accepted signatures with the same commitments and different challenges give a key and a credential that verifies under it, with the disclosed values, for the key of the pseudonym; it is not the trivial one unless the issuer's bases are related |
| IdemixBinding.SignatureBinds | idemix/signature.go:243-405 | two accepted signatures with one challenge are for the same message, disclosure, nonce, pseudonym, key and blinded credential and open the same commitments, or their two hash inputs, given in full, clash |
| IdemixBinding.VerTwice | idemix/signature.go:243-405 | verification passes a signature for two different things, or with its nonce or pseudonym exchanged, only if those hash inputs clash |
| IdemixBinding.OtherMessageRefused | idemix/signature.go:50-405 | an honest signature passes for its message, and for another one only if the inputs that differ in the message clash |
| IdemixBinding.NymBinds | idemix/nymsignature.go:74-109 | likewise for the message, nonce, pseudonym and key of pseudonym signatures |
| IdemixBinding.RequestBinds | idemix/credrequest.go:76-109 | and for the issuer's nonce, pseudonym and key of credential requests |
| Deliver.SessionAccessControl.Evaluate | common/deliver/acl.go:58-76 | refuses an expired identity, checks on first use and on a higher sequence, otherwise answers from before |
| Deliver.EvaluatedIff | common/deliver/acl.go:58-76 | an evaluation succeeds exactly if the identity has not expired and the policy passes now, or was checked before at no lower sequence |
| Deliver.SessionAuthorized | common/deliver/acl.go:58-76 | while all evaluations succeed, the policy was checked, with success, at the highest sequence seen, and nothing was expired |
| Deliver.FailureForgotten | common/deliver/acl.go:58-76 | after a failed check the next evaluation succeeds exactly if it is not expired and finds no higher sequence or passes there |
| Deliver.LastCheckIs | common/deliver/acl.go:58-76 | after any evaluations, failed or not, the last check was made by the first, not expired, to meet the highest sequence |
| Deliver.UnsafeIff | common/deliver/acl.go:58-76 | an evaluation goes through on a failed check exactly if it is not expired, that check failed and no higher sequence is met |
| Deliver.StoppingIsSafe | common/deliver/acl.go:58-76 | which never happens to a session that ends at its first failure |
| Deliver.DeliverBlocks | common/deliver/deliver.go:229-346 | the session runs as the step machine says; what that is, the rows below say |
| Deliver.Loop | common/deliver/deliver.go:287-342 | the streaming loop is the step machine iterated |
| Deliver.StreamSends | common/deliver/deliver.go:287-346 | blocks are sent without gaps from the start; SUCCESS means exactly start to stop |
| Deliver.EndsAtStop | common/deliver/deliver.go:337-342 | SUCCESS comes only with the stop block, and nothing after it |
| Deliver.SentAfterEvaluation | common/deliver/deliver.go:316-335 | every block follows an evaluation that succeeded after it was read |
| Deliver.GivesUpIff | common/deliver/deliver.go:288-292 | a session that is not to wait gives up exactly if the ledger is not empty and lacks the block |
| Deliver.AskedWhenReady | common/deliver/deliver.go:287-301 | so it asks only for blocks that a non-empty ledger has |
| Deliver.SessionSafe | common/deliver/deliver.go:229-346 | the whole session: gapless from the start; SUCCESS exactly when the blocks up to the one asked for, to the newest as the session began or, for the oldest, the one at the cursor were sent; every block authorized at the highest sequence seen and not expired, and, if it is not to wait, no block asked for before it is there |
| Deliver.TurnedAwayIff | common/deliver/deliver.go:229-286 | a request is turned away before any block exactly for a consenter error without best effort, a failed first evaluation, a missing position or a stop below the start, each with its status |
| Deliver.CompleteIff | common/deliver/deliver.go:262-286 | the computed stop number is the one that the request means |
| Deliver.SentRounds | common/deliver/deliver.go:287-342 | every block comes from a round that is free of errors, ready, and read and authorized it |
| Deliver.EndRound | common/deliver/deliver.go:287-342 | a session without SUCCESS ends in the first round that sends nothing, with the status for the reason |
| Deliver.StillOpen | common/deliver/deliver.go:287-342 | it is open exactly while every round sent its block and none was the one to stop at |
| LoggerLevels.ParseField | common/flogging/loggerlevels.go:48-81 | one segment of a specification |
| LoggerParse.LevelTable | common/flogging/levels.go:28-68 | which level each name stands for, in lower and upper case |
| LoggerParse.LevelsOnly | common/flogging/levels.go:28-68 | no other name stands for one |
| LoggerParse.LoggerNamesAre | common/flogging/loggerlevels.go:98-107 | logger names are segments of the allowed characters, none empty, with periods between them |
| LoggerParse.AddFieldIs | common/flogging/loggerlevels.go:48-81 | a field is accepted exactly if it is empty, a level, or names and a level; it sets the default, or exactly the entries it names |
| LoggerParse.ParseMeans | common/flogging/loggerlevels.go:42-96 | any specification is accepted exactly if all its fields are; the default is that of the last field that sets it, else INFO, and each entry that of the last field that names it |
| LoggerLevels.LoggerLevels.ActivateSpec | common/flogging/loggerlevels.go:42-96 | takes effect as a whole or not at all, empties the cache and sets the minimum |
| LoggerLevels.MinLevel | common/flogging/loggerlevels.go:83-88 | the least of the default and all levels |
| LoggerLevels.LoggerLevels.CalculateLevel | common/flogging/loggerlevels.go:127-140 | the level of the exact name, else of the longest dotted prefix that has one, else the default |
| LoggerLevels.LoggerLevels.LookUp | common/flogging/loggerlevels.go:117-122 | the locked section keeps the cache right, whatever happened since the first look |
| LoggerLevels.LoggerLevels.Level | common/flogging/loggerlevels.go:112-123 | cached or not, that level |
| LoggerLevels.LevelUnique | common/flogging/loggerlevels.go:127-140 | there is one such level |
| LoggerParse.CandidatesAre | common/flogging/loggerlevels.go:127-142 | the entries that may apply to a logger are its name with a period and the first segments of its name |
| LoggerParse.ExactEntry | common/flogging/loggerlevels.go:127-142 | an entry that ends in a period is for the logger of that name alone, and comes before all others |
| LoggerLevels.LoggerLevels.FilterKeeps | common/flogging/loggerlevels.go:169-174 | the fast check never holds back what a logger's own level lets through |
| LoggerSpec.Spec | common/flogging/loggerlevels.go:152-165 | all fields in ascending order, then the default |
| LoggerSpec.RoundTrip | common/flogging/loggerlevels.go:42-165 | what is printed parses to what was printed, exactly if nothing is at PAYLOAD |
| LoggerSpec.PrintsUnique | common/flogging/loggerlevels.go:152-165 | the printed form depends on the levels alone |
| LoggerSpec.Reactivate | common/flogging/loggerlevels.go:42-165 | activating what was printed leaves levels, default and minimum as they were |
| Msp.ValidateUnitsV1 | msp/mspimplvalidate.go:142-170 | some unit is recognized, if any are configured |
| Msp.ValidateUnitsV142 | msp/mspimplvalidate.go:219-271 | under enforcement exactly one node unit, by the right certifier |
| Msp.Identity.Validate | msp/mspimplvalidate.go:21-51 | the remembered verdict is what validating again would find |
| Msp.HasOURole | msp/mspimpl.go:335-380 | the identity carries the unit configured for the role; which unit that is for each role, the next rows say |
| MspRoles.ValidIff | msp/mspimplvalidate.go:142-271 | a certificate is valid exactly if its chain is, one of its units is listed, if any are, and, under enforcement, exactly one of its units is one of the node units, by the certifiers asked for |
| MspRoles.RolesAre | msp/mspimpl.go:335-672 | CLIENT, PEER and ORDERER are the valid holders of the provider's client, peer and orderer unit, under enforcement; ADMIN those of the admin unit and the listed certificates; MEMBER the valid ones |
| MspRoles.NoOtherRoles | msp/mspimpl.go:582-672 | nobody satisfies a role of another provider or an unknown one |
| MspRoles.RoleByUnit | msp/mspimpl.go:335-380 | under enforcement the one node unit of a certificate decides which roles it has |
| MspRoles.PeerIsNoClient | msp/mspimpl.go:335-380 | a certificate with the peers' unit alone is a peer's and not a client's, if the units differ in name |
| Msp.SatisfiesPreV13 | msp/mspimpl.go:481-576 | what it takes before version 1.3 |
| Msp.SatisfiesV142 | msp/mspimpl.go:582-672 | what it takes from version 1.4.3 on |
| MspRoles.OtherPrincipalsAre | msp/mspimpl.go:481-672 | who satisfies unit, identity, anonymity and malformed principals |
| MspRoles.OnlyAdded | msp/mspimpl.go:481-672 | version 1.4.3 adds exactly orderers, admins by unit and nominal anonymity to what holds before version 1.3 |
| Msp.CollectPrincipals | msp/mspimpl.go:444-476 | the leaves of a combination, or an error for an empty or unreadable node, or for any combination before version 1.3 |
| Msp.CombinedIff | msp/mspimpl.go:429-476 | a combination of any depth holds exactly if no node is empty and every leaf is satisfied |
| Msp.SatisfiesPrincipal | msp/mspimpl.go:429-441 | decides the combination as a formula |
| Msp.SecondRoleIff | msp/mspimplvalidate.go:219-271 | whoever has a node role has another one exactly if both stand for one unit name |
| Msp.RolesExcludeIff | msp/mspimplvalidate.go:219-271 | two node roles exclude each other exactly if their unit names differ or nobody has the first |
| Msp.OneRoleOnly | msp/mspimplvalidate.go:219-271 | so with distinct unit names nobody has two node roles |
| Msp.TwoRolesUnsatisfiable | msp/mspimpl.go:429-476 | a combination that asks for two of CLIENT, PEER and ORDERER with different units is never satisfied |
| Msp.AdminByName | msp/mspimpl.go:611-672 | an admin with another role, of another unit, is one by certificate |
| Msp.SharedUnit | msp/mspimplvalidate.go:219-271 | roles that stand for one unit name go together |
| Msp.SharedUnitTaken | msp/mspimplvalidate.go:219-271 | and a certificate with that unit alone has both |

## Left out

- Parsing and printing of protocol messages, error texts, logging, metrics and clocks: messages are values, times and configuration sequences are inputs.
- Equality of unmarshalled messages (`proto.Equal` in `Validate`): equality of values.
- The other channel resources behind a configuration (bundles, capabilities, organization settings): only the tree and its policies.
- The order of Go map iteration: loops take any remaining key, and results do not depend on it.
- Hash collisions of the authorization cache's keys: keys are taken to tell requests apart.
- ConfigConflicts.StaleUpdateRejected: for fewer than 2^64 steps, after which a version may have come round to the same number; says nothing of updates that neither read nor modify an existing element.
- ConfigUpdate.VerifyDeltaSet: counts as a refusal what is a panic in the source, the lookup of a `mod_policy` that is exactly the manager's own path, as `/Channel` is; `PolicyManager.GetPolicy` tells the two apart.
- AuthCacheGrowth.BoundedIff: the half about growth assumes that caching is enabled, that some request may be in flight and that there is no end of requests with different keys.
- Permute.TreePermuter.Permute: assumes distinct vertex ids and a bound of at least one, without which the pruning loop or the lookup by id loses its meaning; that nothing else than the rule is missed is exact for thresholds between one and the number of descendants; thresholds are not compared, because cloning drops them.
- Choosing victims at random when pruning: any victim.
- The growth of slice capacity in the Go runtime: any growth that makes room; doubling as an example.
- PolicyCompleteness.AcceptsIffSatisfied: gives a sufficient condition; whether greedy evaluation accepts a given contested policy is what evaluating it tells.
- ImplicitMeta.ConversionAgrees: likewise, and for thresholds as the rules ANY, ALL and MAJORITY set them, which `NewImplicitMetaPolicy` does.
- Signature checks and deserialization before policies are evaluated (`EvaluateSignedData`).
- 32-bit overflow of counters in policies: more than two billion sub-policies.
- Elliptic curves, pairings and encodings of Identity Mixer: group elements are multiples of a generator of prime order, and a pairing multiplies.
- The byte layout of hash inputs: a hash is any function of the parts, so that two inputs that differ in a part are different inputs.
- Zero knowledge and unforgeability of Identity Mixer, which are statements about distributions and adversaries; revocation, of which only the empty proof is implemented; issuer key proofs and weak Boneh-Boyen signatures.
- Absent attribute values in a credential and nil arguments of the Identity Mixer functions.
- PolicyOrder.InOrderAccepted: for policies none of whose gates asks for more sub-policies than it has.
- IdemixBinding.SignatureBinds: whether hash inputs that clash can be found is no statement about these functions.
- Deliver.DeliverBlocks: starts after the envelope is parsed and the channel found.
- Deliver requests after the first on one stream: each is a session of its own.
- LoggerLevels.LoggerLevels.Level: assumes that some specification has been activated, because the cache cannot be written before.
- PolicyManager.NewManagerImpl: says nothing of trees with slashes in their names, which the validator refuses.
- Logger names with characters outside ASCII letters, digits and the listed signs, which the name pattern excludes.
- Certificate chains, revocation lists and the set-up of membership providers: whether a certificate has a trusted chain is an input.
- The rules of membership providers of versions 1.1 and 1.3 for organizational units, which are special cases of the one modelled.
