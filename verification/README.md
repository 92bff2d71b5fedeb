# Verification of the XDrop agent, data plane and controller

XDrop is a packet filter: XDP programs on each node match packets against rules in BPF maps, an
agent on the node stores the rules and publishes them, and a controller keeps the rules of all
nodes. This project models the logic of all three in Dafny and proves what they promise to each
other.

**The agent** (`Handlers` and the modules around it). The agent's memory is a class with the
fields of the original; all BPF maps sit behind one class, `Kernel.KernelMaps`, whose every write
may fail. A ghost log holds the maps after each single write, so a statement about every instant
is a statement about the entries of the log. Clean-up writes whose errors the agent only logs
(`Attempt`) take effect whenever they are possible. If the kernel is `reliable`, only impossible
writes fail; the contracts then say exactly when an operation succeeds.

- `Handlers.Valid` is the joint invariant: reverse indexes are inverses, each combo's count is the
  number of its rules, the active maps hold exactly the stored keys and values, ids are one per
  prefix and referenced once per rule and side, the selectors are tracked, and the published words
  cover what is stored. `AgentRuns.Run` keeps it over any sequence of twelve operations with any
  writes failing, until an operation in fact loses it in one of the ways listed below;
  `AgentRuns.EveryPacketAnswered` says what it means to a packet.
- That the words describe what is stored exactly, all counts included, is `Described`. It is kept over
  every run without failing writes, and otherwise by every operation but a deletion whose publish
  failed unnoticed.
- The whitelist bitmap is kept apart (`WlGated`): if a whitelist insertion fails and then the
  publish that should undo its words fails too, the bitmap may lack a combo of an old entry until
  the next publish. `CombosStay` is the exact condition.
- `AgentRuns.SyncUnderTraffic` states the zero-gap promise of an atomic sync: at every map write
  each lookup answers for the old rules until the selector write and for the new ones afterwards.

**The data plane** (`Lookup`, `CidrLookup`, `Kernel.GateHits`, `TokenBucket`, `DataPlane`). The
33-probe lookup, the two-stage CIDR lookup and the gate are proved to refine the plain question
"does some stored rule match", and the three programs' verdicts and counters are proved for any
traffic. `RateLimiting` puts the token bucket into the traffic: of the packets that a rate-limit
rule decides, which pass and which are dropped, and how many can pass in a time.

**The controller** (`RuleService`, `Admission`, `Merging`, `StatsCache`, `NodeClient`, `TcpFlags`,
`Prefixes`). `ControllerToNode` joins the two sides: which rules of the controller a node accepts, and
that a sync of the controller's rules is one that the agent handles well.

**What requests mean.** `Meaning` says in terms of a request's own fields (addresses, prefixes,
host-order ports, protocol names, length bounds, signed flag names, anomaly bits) which packets it
asks for, and proves that what is stored for it matches exactly those; `RequestMeaning` does this for
a controller's request, decoders included, through to the rule that a node holds. `Acceptance` says
exactly which requests and updates are accepted, check by check and without the code's own helpers. `Effects` says what
each of the twelve operations does to what the agent stores; `AgentRuns.Step` promises exactly that.

What is false of the code as it stands is proved as an exact condition, with a concrete instance:

- A batch rollback runs forward. It restores the agent exactly when no rule of the batch took a key
  that an earlier one gave up, and otherwise leaves it without its invariant
  (`BatchRollback.RollbackRestoresIff`). Some run of a batch comes to that exactly if one item of
  it moves a stored rule to a free key and a later item asks for the key that this rule has now, which
  can be read off the batch and the stored rules (`BatchLoss.CanLoseIff`; `RollbackCanLose`).
- An atomic sync does not reject a repeated id. After a success the agent's invariant holds exactly
  when no id is repeated among the request's acceptable exact rules and none among its acceptable
  CIDR rules; after an abort without failing writes exactly when the CIDR rules that could be stored
  have distinct ids (`AtomicSync.SyncOutcome`; `SyncRepeated`, `SyncLeaks`).
- An atomic sync ignores errors of its clears and of copies of words it does not own. The out
  parameter `clean` reports what the agent never asks: whether they had their effect. When the copies
  had, the invariant needs exactly that the clears left nothing (`AtomicSync.SyncedValidIff`,
  `WhitelistSync.WlSyncedValidIff`; `ShadowTables.LeftoverBreaksInv` for any entry left over).
- Adding a whitelist entry under a stored id can leave the published bitmap without a combo of an old
  entry, exactly if `CombosStay` fails (`Whitelist.AddWhitelist`; `MoveExample`).
- A deletion ignores the error of its publish. The words then still cover what is left, but they
  describe it exactly if and only if the publish went through (`AgentRuns.RunDelete`, `RunDeleteBatch`).
- Which of several matching rules wins can depend on which bits are published, exactly for packets
  that are not `Settled` (`Lookup.WinnerIndependentIffSettled`; `ClashSplitsWinner` for any two
  clashing probes).
- The CIDR lookup finds every matching rule exactly when the prefixes of each side are pairwise
  disjoint (`CidrLookup.CompleteIffDisjoint`; `OverlapMisses` for any two overlapping prefixes).
- A rule sent again under its own id and with its own key is always refused, although the agent
  means to replace it (`RulesMutation.AddExactRule`, `CidrRules.AddCidrRule`; `SendTwice`,
  `SendCidrTwice`).
- The node's flag parser refuses a flag given with both signs, the controller's takes the first; its
  own tests for contradictory flags cannot be reached (`TcpFlags.NodeAcceptsUncontradicted`;
  `BothSignsExample`).
- The controller stores rules that set no key field, and no node accepts them
  (`ControllerToNode.NodeAcceptsIff`; `MatchAllExample`).
- A request that is merged into a stored anomaly rule gets all the packets it asked for exactly if the
  stored rule's length bounds admit all that its own admit: its own are dropped
  (`RequestMeaning.MergeCoversIff`).
- An update cannot clear anomaly bits, and it is refused for a rule that names nothing but prefixes if
  the rule would have length bounds afterwards, although it was created with them
  (`RequestMeaning.UpdateReachesIff`; `StuckExample`).
- The batch path of the controller takes a rule without addresses for a duplicate of any CIDR rule with
  its ports and protocol; that is the only thing by which it refuses what the store could hold
  (`Admission.KeptIff`; `MistakenExample`).

Where comments and code differ the code is followed: `combo.go` names combos 20 and
32, which repeat the fields of 2 and 1, so that no key is ever classified as one of them
(`Combo.DeadCombos`); the rule lookups probe their rows, the gate does not. `BatchCreate` skips the
expiry check that `Create` makes, and its duplicate query for address rules also hits CIDR rules.

## Model

| member | source | states |
|---|---|---|
| Combo.ComboAgreesWithProbes | node/agent/api/combo.go:76-154 | every key but the all-zero one is classified, and the data plane's probe of that number copies exactly the key's fields, first in bit order |
| Combo.DeadCombos | node/agent/api/combo.go:28-63 | no key is ever classified as 19, 20 or 32, since those rows repeat others |
| Bits.RebuildBitmap | node/agent/api/config.go:46-52 | the rebuilt word has exactly the bits of the positive reference counts |
| Lookup.LookupRefinesMatch | node/bpf/xdrop_main.c:409-932 | behind covering gates the 33 gated probes find a rule iff some stored rule wildcard-matches and passes the post-match tests; what is found matches |
| Lookup.LookupIsSound | node/bpf/xdrop_main.c:409-932 | whatever the gates, a rule that is found matches |
| Lookup.SettledWinner | node/bpf/xdrop_main.c:409-932 | for settled packets (all five fields set, among others) the rule found is the first matching one in combo order |
| Lookup.WinnerIndependentIffSettled | node/bpf/xdrop_main.c:409-932 | the winner is the same under all covering gates iff the packet is settled, in ordinary mode and for each nonempty choice of anomaly bits; with no bits nothing is found |
| CidrLookup.LpmOfDisjoint | node/bpf/xdrop_main.c:2911-2971 | with disjoint prefixes the longest match is the id of any prefix that contains the address |
| CidrLookup.CidrSearchRefines | node/bpf/xdrop_main.c:1480-1999 | the two-stage lookup finds only directly matching rules, and with disjoint prefixes finds one iff some stored CIDR rule matches directly |
| CidrLookup.CompleteIffDisjoint | node/bpf/xdrop_main.c:2911-2971 | it misses no match, for any table and packet, iff the prefixes are pairwise disjoint; in ordinary mode and for each nonempty choice of anomaly bits |
| Kernel.GateRefinesMatch | node/bpf/xdrop_gate.c:209-217 | the gate's 31 probes hit iff some whitelisted key matches the packet |
| TcpFlags.ParseTcpFlags | node/agent/api/validate.go:88-138 | the loop with its table of seen signs computes the left-to-right meaning of the filter |
| TcpFlags.ParsePrinted | node/agent/api/validate.go:141-158 | parsing the printed form of any mask and value within it gives both back, on node and controller |
| TcpFlags.NormalizedIsStable | controller/internal/service/rule_service.go:1079-1131 | the normaliser is idempotent and its output means to the node what the input meant by first occurrences |
| TcpFlags.NodeAcceptsUncontradicted | controller/internal/service/rule_service.go:1104-1116 | of what the controller accepts the node refuses exactly the filters that give a flag both signs |
| Acceptance.NodeReads | node/agent/api/validate.go:88-138 | the node reads a filter iff every segment is blank or a flag name with or without "!", and no flag is named with both signs |
| TcpFlags.BothSignsExample | node/agent/api/validate.go:88-138 | "SYN,!SYN" is such a filter |
| Requests.RebuiltValueIsWrittenValue | node/agent/api/convert.go:182-229 | the value rebuilt from a stored rule for a rollback is the value first written, counters aside |
| Requests.PreparedIff | node/agent/api/rules_mutation.go:38-115 | exactly which exact requests pass the checks; a usable combo means only that some key field is named |
| Requests.PreparedWlIff | node/agent/api/whitelist.go:34-75 | exactly which whitelist entries pass theirs |
| Requests.HtonsIsInvolution | node/agent/api/validate.go:9-15 | the byte swap of a port is undone by itself and maps only 0 to 0 |
| Meaning.ExactMeaning | node/agent/api/convert.go:10-34 | an acceptable exact request is stored as a rule that matches a packet iff the packet meets each field that the request names, on its own side, with the requested action and rate |
| Meaning.CidrMeaning | node/agent/api/cidr_rules.go:20-135 | the same for a CIDR request and its own prefixes, whatever ids they get |
| Meaning.WlMeaning | node/agent/api/convert.go:36-68 | a usable whitelist entry whitelists exactly the packets that meet the fields it names |
| Acceptance.NodeTakesExact | node/agent/api/rules_mutation.go:38-115 | which exact requests a node accepts, by action, flags, anomaly bits, lengths, ports and named fields; readable flags with no flag under both signs |
| Acceptance.NodeTakesCidr | node/agent/api/cidr_rules.go:20-135 | the same for CIDR requests |
| Acceptance.NodeTakesWl | node/agent/api/whitelist.go:34-75 | and for whitelist entries |
| Meaning.FilterMeaning | node/agent/api/validate.go:88-138 | mask and value match exactly the flag sets that have every sign said in the text |
| Meaning.ReadIffSigned | node/agent/api/validate.go:88-138 | a segment is read as a flag iff it is the name, with "!" for a negated one, spaces and case aside |
| Meaning.StoredShows | node/agent/api/rules_mutation.go:38-115 | action, rate, lengths and anomaly bits are stored as sent, and the flags as sent or in canonical spelling |
| Prefixes.CheckOverlap | node/agent/cidr/manager.go:325-348 | reports a conflict iff a different existing prefix shares an address with the new one |
| Prefixes.FindCIDROverlap | controller/internal/service/rule_service.go:811-837 | the same, although it compares prefix lengths first |
| Prefixes.ShareIffNested | controller/internal/service/rule_service.go:811-837 | two prefixes share an address iff they are nested, which is what both checks test |
| CidrManager.Manager.Alloc | node/agent/cidr/manager.go:123-170 | a known prefix gains a reference and keeps its id; a new one gets a fresh id; a failed trie write changes neither ids nor references |
| CidrManager.Manager.Release | node/agent/cidr/manager.go:176-225 | one reference less, and the last one removes prefix and trie entry |
| CidrManager.AllocPair | node/agent/api/cidr_rules.go:76-95 | a reference per side of the rule, or none at all; fails only if a trie write fails |
| CidrManager.ReleaseConserves | node/agent/api/rules_mutation.go:305-311 | giving back a removed rule's references keeps them equal to the rules in use and every other rule's ids alive |
| RuleTable.PutKeepsInv | node/agent/api/rules_mutation.go:178-199 | storing under a free id and key keeps inverse index, combo counts and mirrored map |
| RuleTable.DropKeepsInv | node/agent/api/rules_mutation.go:259-280 | so does removing |
| RuleTable.PutUndoesDrop | node/agent/api/rules_mutation.go:202-229 | storing a removed rule again gives back the whole table |
| RuleTable.RulesDetermineTable | node/agent/api/bpf_types.go:124-192 | index, counts and map are determined by the stored rules |
| AgentConfig.CountAnomalyRules | node/agent/api/config.go:220-256 | counts exactly the stored rules, exact and CIDR, with anomaly bits |
| AgentConfig.PublishWords | node/agent/api/config.go:28-189 | one selector write switches to the words computed from the counts; any failure leaves the active words alone, and no earlier write is visible |
| AgentConfig.PublishedGates | node/agent/api/config.go:28-189 | the published words cover the rules and are exact in bitmaps and anomaly count, counts are shifted and never clamped, words 4, 5, 9 and 11 stay |
| AgentConfig.PublishConfigUpdate | node/agent/api/config.go:28-189 | the same as seen by the agent: tables untouched, words exact on success and unchanged on failure |
| AgentConfig.PublishConfigUpdateForWLSync | node/agent/api/config.go:282-347 | switches to words that differ from the old ones in slots 1, 3 and 8 only |
| AgentConfig.GatesShrink | node/agent/api/rules_mutation.go:281-283 | words that covered the rules still cover what a deletion leaves, so a failed publish after it is harmless |
| Handlers.Handlers.constructor | node/agent/api/bpf_types.go:124-192 | a new agent satisfies the joint invariant |
| RulesMutation.Insert | node/agent/api/rules_mutation.go:136-199 | new entry, old entry, memory: the replacement as a whole, or nothing |
| RulesMutation.AddExactRule | node/agent/api/rules_mutation.go:38-244 | each outcome's exact cause; a rule that is added matches exactly the packets its request asks for, one that is not changes nothing; with no write failing a rule with a free key is added |
| RulesMutation.StoreExact | node/agent/api/sync.go:93-190 | the part that AddRule and AddRuleFromSync share, with the same guarantees |
| RulesMutation.SendTwice | node/agent/api/rules_mutation.go:120-199 | a rule that was added and is sent again is refused, though nothing else stands in its way |
| RulesMutation.SendTwiceExample | node/agent/api/rules_mutation.go:38-115 | so is any rule on one destination port, sent twice to an empty agent |
| RulesMutation.PrepareBatch | node/agent/api/rules_mutation.go:389-490 | each id at the place of its first acceptable request with the contents of its last one, and how many were refused |
| RulesMutation.WonIsAsked | node/agent/api/rules_mutation.go:389-490 | what a batch wants under an id matches exactly the packets that the last acceptable request of that id asks for |
| RulesMutation.FirstIdsInOrder | node/agent/api/rules_mutation.go:389-490 | ids are tried in the order of their first acceptable requests |
| RulesMutation.TakenIff | node/agent/api/rules_mutation.go:493-568 | with no write failing an item goes in iff its key is free at its turn |
| RulesMutation.InsertAll | node/agent/api/rules_mutation.go:493-568 | the insertions that succeed one by one, in order, each with a key that was free; with no write failing, exactly those whose key is free at their turn |
| RulesMutation.AddRulesBatch | node/agent/api/rules_mutation.go:340-626 | the batch applied, each item with the packets its request asks for, or after a failed publish rolled back forward; the rollback restores agent and invariant iff no rule took over a key, and always unless the batch can lose |
| BatchLoss.CanLoseIff | node/agent/api/rules_mutation.go:493-607 | some run of a batch is not undone by its rollback iff an item moves a stored rule to a free key and a later one asks for the key that rule has now |
| BatchRollback.RollbackRestoresIff | node/agent/api/rules_mutation.go:579-607 | forward rollback restores the table, and its invariant, iff no insertion took a key that an earlier one gave up |
| BatchRollback.TakeOverLoses | node/agent/api/rules_mutation.go:579-607 | it fails for every stored rule that moves to a free key and any other rule that then goes to its old one |
| BatchRollback.RollbackCanLose | node/agent/api/rules_mutation.go:579-607 | a concrete batch of two whose rollback loses a rule's entry |
| RulesDeletion.DeleteRule | node/agent/api/rules_mutation.go:249-337 | removes the exact rule of the id, else the CIDR rule with its references; the ignored publish error leaves covering words; with no write failing words and counts are those of what is left |
| RulesDeletion.DeleteRulesBatch | node/agent/api/rules_mutation.go:631-749 | the agent without exactly the removed rules; with no write failing all stored ids asked for are gone |
| CidrRules.PassedKeepsDisjoint | node/agent/api/cidr_rules.go:52-74 | prefixes that pass the check keep each side pairwise disjoint |
| CidrRules.StoreCidr | node/agent/api/cidr_rules.go:135-275 | on every failing path memory, ids and references are those before the ids were taken |
| CidrRules.AddCidrRule | node/agent/api/cidr_rules.go:20-286 | each outcome's exact cause; a rule that is added matches exactly the packets its request asks for; anything but Added changes nothing; references are conserved, prefixes keep their ids and stay disjoint |
| CidrRules.SendCidrTwice | node/agent/api/cidr_rules.go:52-200 | a CIDR rule that was added and is sent again is refused |
| CidrRules.ReplaceConserves | node/agent/api/cidr_rules.go:344-534 | a replacement takes the new rule's references and gives back the old one's, so that counts stay exact |
| Views.ExactAnswers | node/bpf/xdrop_main.c:409-431 | at an instant at which the agent's view is in force the exact lookup answers the plain question |
| Views.CidrAnswers | node/bpf/xdrop_main.c:2911-2971 | so does the CIDR lookup, completely if the prefixes in the tries are disjoint |
| Views.WlAnswers | node/bpf/xdrop_gate.c:220-380 | so does the gate while the whitelist bitmap covers |
| Views.AnomalyGateHidesNothing | node/bpf/xdrop_main.c:3055-3090 | while the anomaly count is 0 the skipped anomaly lookups would find nothing |
| Views.AnswersThroughout | node/agent/api/sync.go:585-626 | at every write of a step-atomic operation lookups answer for the old rules before the selector write and for the new ones from it on |
| ShadowBuild.ClearRuleMap | node/agent/api/config.go:386-425 | clearing the inactive map disturbs no lookup, wherever it stops |
| ShadowBuild.BuildExact | node/agent/api/sync.go:411-475 | an exact rule enters shadow map and tables or leaves nothing; with no write failing iff it is acceptable and its key free |
| ShadowBuild.BuildCidr | node/agent/api/sync.go:332-409 | a CIDR rule likewise, with its references taken and given back; iff acceptable and its target free |
| ShadowBuild.BuildAll | node/agent/api/sync.go:262-487 | the tables built are those of the request in order, failures are counted, and nothing is visible meanwhile |
| ShadowBuild.DistinctMeansNoRepeat | node/agent/api/sync.go:262-487 | if all rules of a request are stored their ids are distinct only if the request repeats none among rules of one kind |
| ShadowTables.BuiltInvIff | node/agent/api/sync.go:397-463 | the built tables are sound iff no id was sent twice and the map had been cleared |
| ShadowTables.AbortBalancesIff | node/agent/api/sync.go:478-487 | an abort gives back all references iff no id was sent twice |
| AtomicSync.WriteShadowConfig | node/agent/api/sync.go:495-583 | slots 0, 2, 6, 7, 9 and 10 get the new words; the others are copies unless an ignored error occurred |
| AtomicSync.Abort | node/agent/api/sync.go:478-487 | memory, active maps and words are the old ones; so are ids and references if no id was repeated |
| AtomicSync.SyncedValidIff | node/agent/api/sync.go:585-626 | after a sync whose copies succeeded the invariant holds iff no id was repeated and the clears left nothing; words are then exact |
| AtomicSync.SyncOutcome | node/agent/api/sync.go:232-639 | told by the request: after a clean success the invariant holds iff no id is repeated among rules of one kind; after an abort iff all references came back, with no write failing iff the CIDR rules that can be stored have distinct ids |
| AtomicSync.SyncRepeated | node/agent/api/sync.go:411-475 | two rules on different ports under one id are both stored, and the invariant is lost |
| AtomicSync.SyncLeaks | node/agent/api/sync.go:332-487 | two rules on different prefixes under one id and a refused rule: the abort does not restore the agent |
| AtomicSync.DoAtomicSync | node/agent/api/sync.go:232-639 | all or nothing, step-atomic at its selector write; prefixes present before and after keep their ids; with no write failing it succeeds iff every rule can be stored beside those before it, and the old maps are empty |
| AtomicSync.SyncedEnds | node/agent/api/sync.go:596-603 | after a clean sync every known prefix is one of the request's |
| Whitelist.AddWhitelist | node/agent/api/whitelist.go:34-152 | each outcome's exact cause; an added entry whitelists exactly what it names and nothing else changes; the one failure that may uncover the bitmap, with its exact condition |
| Whitelist.MoveExample | node/agent/api/whitelist.go:122-139 | an only entry that moves from a destination port to a source port is such a case |
| Whitelist.CoverAfter | node/agent/api/whitelist.go:122-139 | the words published for the new entries cover the old ones iff every old combo is still in use |
| Whitelist.DeleteWhitelist | node/agent/api/whitelist.go:156-202 | removed and published, or completely undone |
| Whitelist.ClearAllWhitelistFromSync | node/agent/api/sync.go:748-790 | a subset of the old entries remains, consistently, and what is gone is published; success leaves none |
| WhitelistBatch.WlAllKeepsInv | node/agent/api/whitelist.go:273-300 | the planned replacements, one after another, keep the whitelist invariant |
| WhitelistBatch.PrepareAll | node/agent/api/whitelist.go:227-258 | the last entry of each id, or refusal of the whole batch for one bad entry |
| WhitelistBatch.Decide | node/agent/api/whitelist.go:227-300 | refused, clashing or empty, each exactly when it is; else a plan whose result is the old entries overridden by the batch |
| WhitelistBatch.PublishAndInsert | node/agent/api/whitelist.go:337-401 | after the publish all new keys enter, or all old ones are back |
| WhitelistBatch.AddWhitelistBatch | node/agent/api/whitelist.go:207-407 | all or nothing whichever step fails; on success old entries overridden by the batch, the last entry per id winning, and the number of ids that got something new |
| Effects.AskedOverrides | node/agent/api/whitelist.go:227-258 | what a batch asks for: for each id the packets that its last entry names, every other id as before |
| WhitelistBatch.DeleteWhitelistBatch | node/agent/api/whitelist.go:414-484 | exactly the deleted ids are gone, or after a failed publish all are back |
| WhitelistSync.Validate | node/agent/api/sync.go:804-848 | accepts iff all entries are usable and no id or key repeats |
| WhitelistSync.WlSyncedValidIff | node/agent/api/sync.go:849-901 | the invariant holds after the sync iff the clear left nothing; count and bitmap are exact anyway and only slots 1, 3 and 8 changed |
| WhitelistSync.DoWhitelistAtomicSync | node/agent/api/sync.go:796-901 | nothing visible changes, or the whitelist describes the input entries; step-atomic; with no write failing it succeeds iff the input is valid, and the old map is empty |
| AgentRuns.Step | node/agent/api/bpf_types.go:124-192 | any one operation does to the stored rules and entries what it is for, told by its request (Effects.Did), and keeps the invariant whatever fails, unless it is one of the two mishandled inputs and in fact did its harm, or ignored errors left something behind |
| AgentRuns.RunBatch | node/agent/api/rules_mutation.go:340-626 | the whole batch: each CIDR rule takes its turn, with no write failing it is stored iff it is acceptable and fits then; the exact rules go in together or not at all |
| Effects.BatchStores | node/agent/api/rules_mutation.go:352-387 | so with no write failing each CIDR rule that fits at its turn is in the end stored on its prefixes, unless a later one has its id, and the exact table is the old one with the batch's insertions |
| AgentRuns.RunSync | node/agent/api/sync.go:232-639 | a sync leaves the agent with exactly the requests' rules, each with the packets it asks for, or as it was; with no write failing iff all can be stored |
| AgentRuns.RunDelete | node/agent/api/rules_mutation.go:249-337 | deletes one rule and no more; words that described what was stored still do iff the publish, whose error is ignored, went through |
| AgentRuns.RunDeleteBatch | node/agent/api/rules_mutation.go:631-749 | the same for a batch of deletions |
| AgentRuns.Run | node/agent/api/bpf_types.go:124-192 | so does each of any sequence of operations, from an empty agent to its end or to such an operation; prefixes stay disjoint if each sync's are, and while no write fails the words describe what is stored |
| AgentRuns.EveryPacketAnswered | node/bpf/xdrop_main.c:409-431 | in every valid state exact, CIDR, whitelist and anomaly lookups answer the plain questions about what is stored |
| AgentRuns.SyncUnderTraffic | node/agent/api/sync.go:232-639 | at every map write of a sync all lookups answer for the old rules, then for the request's; an abort leaves the old ones in force throughout, whatever was asked for |
| TokenBucket.IdealStep | node/bpf/xdrop_main.c:2842-2908 | the capped 64-bit step equals the unbounded one for every 32-bit rate and elapsed time, and the clock update of a dropped packet is never reached |
| TokenBucket.StepKeepsSane | node/bpf/xdrop_main.c:2842-2908 | tokens never exceed twice the rate, a drop changes nothing, and a packet whose elapsed time earns a token is never dropped |
| TokenBucket.WindowOfRun | node/bpf/xdrop_main.c:2842-2908 | packets passed in any window T of any run are at most 2r + r*T/10^9 |
| TokenBucket.ShareIsCeiling | node/bpf/xdrop_main.c:248-258 | the per-CPU rate is the quotient rounded up |
| TokenBucket.ShareByDefault | node/bpf/xdrop_main.c:248-258 | without a configured divisor it is 256 |
| TokenBucket.AllCpusBound | node/agent/main.go:642-661 | n CPUs, no more than the divisor d, pass at most (R + d - 1)*(2 + T/10^9) packets of a rule of rate R |
| TokenBucket.Bucket.Police | node/bpf/xdrop_main.c:2981-3048 | the branch as written takes the ideal step, and drops iff the bucket has nothing for the packet |
| TokenBucket.RefusedIff | node/bpf/xdrop_main.c:2842-2908 | a packet is dropped iff there is neither a stored token nor one earned since, or no room for a new bucket |
| TokenBucket.BurstPasses | node/bpf/xdrop_main.c:2846-2853 | of any number of packets at one instant an unused bucket, or one that rested two seconds, passes exactly the first 2r |
| TokenBucket.DropInRun | node/bpf/xdrop_main.c:2842-2908 | in any run a dropped packet found no stored token and less than one earned since the last that passed |
| RateLimiting.Limited | node/bpf/xdrop_main.c:2829-2908 | over any traffic on one CPU, of the packets that a rate-limit rule decides no more than 2r + r*T/10^9 pass in a time T, and each is dropped iff the bucket, used by no others, has nothing for it |
| DataPlane.XdpPrograms.Enforce | node/bpf/xdrop_main.c:2829-2908 | a matched rule's counters, bucket and decision; no rule drops more than it matched |
| DataPlane.XdpPrograms.FirewallMain | node/bpf/xdrop_main.c:2638-3114 | the verdict: exact rule, else CIDR rule, else anomaly rule, else pass; a packet that is not judged is never dropped; only the deciding rule's bucket and counts change |
| DataPlane.XdpPrograms.Judge | node/bpf/xdrop_main.c:2829-3097 | from the lookups on: the verdict as a function of packet, maps, clock and buckets, the new buckets, exactly one counter for it, and one match (and drop) for the deciding rule |
| DataPlane.XdpPrograms.AnomalyVerify | node/bpf/xdrop_main.c:3149-3361 | drops iff an anomaly rule, exact or CIDR, decides |
| DataPlane.XdpPrograms.WhitelistGate | node/bpf/xdrop_gate.c:220-380 | a whitelisted packet passes unseen by any rule, others get the main program's verdict, and if that is not loaded they pass and one more failed tail call is counted |
| DataPlane.NoBitsNoHit | node/bpf/xdrop_gate.c:266-279 | the gate's fast path on an empty bitmap skips no hit |
| DataPlane.GateSees | node/bpf/xdrop_gate.c:280-380 | what the gate whitelists, by the fields an entry names; a packet without a next header has no protocol that an entry could name |
| DataPlane.VerdictForRules | node/bpf/xdrop_main.c:2638-3114 | the verdict in terms of the stored rules: unmatched packets pass, packets whose matching rules all drop are dropped |
| DataPlane.DeciderForRules | node/bpf/xdrop_main.c:2638-2980 | which stored rule decides: a matching exact one whenever there is any, else a matching CIDR one, else none |
| DataPlane.AcceptedOrders | node/agent/api/rules_mutation.go:38-115 | every rule that comes of an acceptable request decides: it drops, or limits to at least one packet per second |
| DataPlane.OneDrop | node/bpf/xdrop_main.c:2829-3097 | a dropped packet is counted as a drop of exactly one rule, any other of none |
| DataPlane.Traffic | node/bpf/xdrop_gate.c:219-380 | over any traffic total = passed + dropped + aborted, whitelisted <= passed, rate_limited <= dropped, drops per rule <= matches, and the drops of all rules together grow by exactly the packets dropped |
| RuleService.NewRuleIsGood | controller/internal/service/rule_service.go:37-206 | an accepted request yields a rule that satisfies every stored-rule condition |
| RequestMeaning.AcceptedMeansAsked | controller/internal/service/rule_service.go:37-206 | the rule that a node holds for an accepted request matches exactly the packets that the request asks for, field by field and shorthand included, with its action and rate |
| Acceptance.PostableIff | controller/internal/service/rule_service.go:37-206 | exactly which requests the controller accepts, the store aside; an anomaly request must exclude some address |
| RequestMeaning.ExpandedWants | controller/internal/service/decoder.go:106-196 | expanding a shorthand does not change which packets are asked for |
| RequestMeaning.GoodIsRequestable | controller/internal/service/rule_service.go:37-206 | every rule that the store may hold can be requested, so the checks refuse nothing else |
| Admission.CreatedIff | controller/internal/service/rule_service.go:108-160 | a rule with a free tuple is created iff the store with it satisfies the invariant and its expiry is good |
| Admission.TakenTuple | controller/internal/service/rule_service.go:225-270 | with a taken tuple it is accepted iff both are anomaly rules of one action |
| RuleService.UpdatedIsGood | controller/internal/service/rule_service.go:293-481 | so does an accepted update, which keeps the tuple |
| Acceptance.UpdateTakenIff | controller/internal/service/rule_service.go:293-481 | an update is accepted iff it names no other packets and the rule it asks for, spelled out, could be created (but for bounds of prefix-only rules); the result is the rule that creating it would give |
| RequestMeaning.UpdatedFields | controller/internal/service/rule_service.go:293-481 | each field that the update sets has its value afterwards, each that it leaves out the old one |
| RequestMeaning.UpdatedFlags | controller/internal/service/rule_service.go:293-481 | flags that it sets mean what was said first, or what the shorthand stands for |
| RequestMeaning.UpdateReachesIff | controller/internal/service/rule_service.go:293-481 | exactly which rules of the same tuple an update can make of a rule |
| RequestMeaning.StuckExample | controller/internal/service/rule_service.go:360-383 | a rule on a prefix with a least length is created and can then not be updated without giving up its bounds |
| RuleService.MergedIsGood | controller/internal/service/rule_service.go:225-270 | so does an anomaly merge |
| RequestMeaning.MergedMeans | controller/internal/service/rule_service.go:225-270 | a merged rule asks for what the stored one asked for, and what the new one asks for within the stored bounds |
| RequestMeaning.MergeCoversIff | controller/internal/service/rule_service.go:225-270 | so the new request gets all it asked for iff the stored bounds admit all that its own admit |
| Merging.CreateAll | controller/internal/service/rule_service.go:225-270 | any sequence of requests that merge into a stored rule gives that rule the bits of all and changes nothing else |
| Merging.MergeInAnyOrder | controller/internal/service/rule_service.go:225-270 | equal stores that get the same bits, in any order and number of requests, end up equal |
| RuleService.AddedKeepsInv | controller/internal/service/rule_service.go:787-807 | a good rule with a free tuple and fitting prefixes keeps rules good, tuples unique and prefixes equal or disjoint per side |
| RuleService.RuleService.CheckOverlap | controller/internal/service/rule_service.go:787-807 | passes iff no different stored prefix of the side shares an address |
| RuleService.RuleService.Create | controller/internal/service/rule_service.go:37-206 | created, merged or refused, each with its exact cause, keeping the invariant; a failed write changes nothing |
| RuleService.RuleService.Update | controller/internal/service/rule_service.go:293-505 | replaces the rule by the computed one or changes nothing |
| RuleService.RuleService.Delete | controller/internal/service/rule_service.go:512-544 | exactly the rules asked for are gone, or nothing changed; what is left keeps the invariant |
| RuleService.RuleService.BatchCreate | controller/internal/service/rule_service.go:547-764 | keeps exactly the items that are acceptable and fit store and earlier kept items, and inserts all of them or none |
| Admission.KeptIff | controller/internal/service/rule_service.go:551-690 | an item is kept iff the store with the earlier kept ones could take it in and it is not mistaken for a duplicate of a CIDR rule |
| Admission.MistakenExample | controller/internal/repository/sqlite.go:526-535 | beside a rule on TCP port 80 of a network no batch can add the one for all addresses |
| RuleService.InsertedKeepsInv | controller/internal/service/rule_service.go:551-738 | inserting such items together keeps the invariant, conflicts within the batch included |
| ControllerToNode.NodeAcceptsIff | controller/internal/model/rule.go:72-114 | a node takes every CIDR rule of the controller, and an exact one iff it sets some key field |
| ControllerToNode.MatchAllExample | controller/internal/model/rule.go:72-114 | an all-empty drop request is stored by the controller and refused by every node |
| ControllerToNode.FlagsAccepted | controller/internal/model/rule.go:72-114 | stored flags mean the same to the node |
| ControllerToNode.SyncFromControllerIsBenign | controller/internal/service/rule_service.go:787-807 | an atomic sync of the controller's rules repeats no id and brings disjoint prefixes |
| StatsCache.Aggregate | controller/internal/service/aggregated_stats.go:150-186 | per rule the sum over all rows of all nodes that answered, no other rules, and every node counted once |
| StatsCache.SumsByNumber | controller/internal/service/aggregated_stats.go:150-186 | matches, drops and drop rates are each added up over all rows of all nodes that answered |
| StatsCache.StatsCache.Refresh | controller/internal/service/stats_cache.go:302-413 | the state stays explained by the rounds so far: times, data, base status and failure counter |
| StatsCache.Rounds | controller/internal/service/stats_cache.go:302-413 | over any rounds: last full <= last snapshot <= last attempt, and the counter is the number of trailing rounds with nodes and no answer |
| StatsCache.StatusIff | controller/internal/service/stats_cache.go:470-489 | full or partial by the last round, stale or not by its age, each exactly when it is so |
| StatsCache.ShownIff | controller/internal/api/rules.go:127-159 | exactly when a rule's numbers are shown, and that they are the sum over the latest round with an answer; always if all nodes answered in a fresh last round |
| StatsCache.ShownIsLatest | controller/internal/api/rules.go:127-159 | shown data is the sum over the latest round with an answer |
| StatsCache.ShownZeroIsCertain | controller/internal/api/rules.go:127-159 | a shown 0/0/0 means every node configured in that round answered and none had a hit |
| NodeClient.AddChunks | controller/internal/client/node_client.go:447-584 | every id is sent in exactly one chunk of at most 1000, stopping at the first that is not acknowledged |
| NodeClient.DiffStore | controller/internal/client/node_client.go:447-584 | success leaves the target ids, entries already there untouched; all deletes are acknowledged before the first add |
| NodeClient.DiffSync | controller/internal/client/node_client.go:447-584 | the same for rules and whitelist, with the calls that each half made; without failing calls it succeeds |
| NodeClient.SnapshotRestores | controller/internal/client/node_client.go:385-425 | re-adding a snapshot to an emptied node gives back exactly what it held |
| NodeClient.FullStore | controller/internal/client/node_client.go:311-443 | exactly the targets, or after a refused add with listed residue exactly the snapshot; each outcome with the calls that account for it |
| NodeClient.FullSync | controller/internal/client/node_client.go:311-443 | the whitelist is touched only after the rules are done; success leaves exactly both targets |

## Left out

- AgentRuns.Run: ends after an operation that lost the agent's invariant, or whose ignored errors left residue; what the agent does from such a state on is not described. Which operations can do it is BatchLoss.CanLoseIff and AtomicSync.SyncOutcome.
- AgentRuns.SyncUnderTraffic: says nothing about packets that hold an old slot across the clear of the old maps, because the code gives them no grace period.
- Kernel.KernelMaps.Attempt: rollback writes take effect whenever they are possible, because the agent only logs their failure.
- CidrManager.Manager.Alloc: does not model the 32-bit wrap-around of the id counter; the manager's four tries are one map keyed by side and prefix.
- CidrManager.Manager.Release: does not model a failing trie delete, after which the prefix stays referenced (every caller ignores that error); releases happen before or after the old rule is restored as suits the model, with the same end state.
- AgentConfig.PublishWords: reads of config words do not fail in the model; the source skips the copy of a word whose active read fails and takes a count whose shadow read fails as 0.
- AgentConfig.PublishConfigUpdate: the same, since it is the publish as the agent sees it.
- TokenBucket.WindowOfRun: one CPU's bucket per rule with a positive clock that does not run backwards; eviction of bucket entries while rules are replaced is not modelled.
- DataPlane.Traffic: aborted packets, and the unreachable loss of a packet whose stash is missing, have ghost counters because the source has none for them.
- An empty id of a request is an id like any other in the model; the agent puts a fresh uuid in its place.
- DataPlane.XdpPrograms.FirewallMain: header parsing, including the computation of the anomaly bits from an IPv4 header, is an input; fast-forward redirects count as passing.
- StatsCache.StatsCache.Refresh: counters are natural numbers without 64-bit wrap and rates are reals; the top-rules sort, metadata copies and freshness ages are left out.
- NodeClient.DiffSync: JSON items without a string id and HTTP are left out; a store's calls fail in any way a batch reply can show.
- RuleService.RuleService.Create: ids, names, comments, timestamps, the fan-out to nodes and concurrent callers are left out; the SQLite table is a map and its calls are sequential.
- Config words, rule counts and reference counts are unbounded naturals.
- The agent's rule listing, PPS sampling, deletion of rate-limit state, capacity limits of maps, pinning and restart.
- Host names of addresses: an address field is absent, a wildcard, unparsable or a number; IPv4-mapped IPv6 prefixes are excluded, and flag strings are ASCII.
- Packet length bounds are not checked on CIDR rules and addCIDRRuleFromSync accepts a rule that also names an address, as in the code; the refusal of an unusable combo after ids were taken is omitted because an allocated id is never 0.
- HTTP handlers, authentication, the web interface, migrations, XDP attachment, interface setup, tickers and retries.
