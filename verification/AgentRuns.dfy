/** Whole runs of the agent: any sequence of operations, any of whose writes may fail. */
module AgentRuns {
  import opened Rules
  import opened Combo
  import opened Lookup
  import opened Requests
  import opened RuleTable
  import opened WlTable
  import opened CidrLookup
  import opened Kernel
  import opened CidrManager
  import opened Handlers
  import opened AgentConfig
  import opened Effects
  import opened Views
  import BatchLoss
  import BatchRollback
  import RulesMutation
  import RulesDeletion
  import CidrRules
  import Meaning
  import ShadowTables
  import AtomicSync
  import ShadowBuild
  import Whitelist
  import WhitelistBatch
  import WhitelistSync

  /** The operation is not one of the two that the agent mishandles: a batch that can lose a rule
      when it is rolled back, and an atomic sync that repeats an id among rules of one kind. */
  predicate Benign(op: Op, rules: map<Id, Stored>, index: map<Key, Id>) {
    match op
    case AddRulesBatch(reqs) => !BatchLoss.CanLose(rules, index, RulesMutation.AskedItems(ExactOnly(reqs)))
    case AtomicSync(reqs) => ShadowBuild.NoRepeat(reqs)
    case _ => true
  }

  /** The prefixes an operation brings in without an overlap check are disjoint themselves. */
  ghost predicate DisjointSync(op: Op) {
    op.AtomicSync? ==> Disjoint(ShadowBuild.AskedEnds(op.reqs))
  }

  /** The bitmap of the whitelist stays covering whenever the words stay or become exact. */
  lemma WlStaysGated(c: seq<nat>, c': seq<nat>, exact: map<Id, Stored>, cidr: map<Id, Stored>, wl: map<Id, Key>)
    requires |c| == CONFIG_MAP_ENTRIES && WlBitsCover(c[WL_BITMAP], wl) && WlUsable(wl)
    requires c' == c || GatesExact(c', exact, cidr, wl)
    ensures |c'| == CONFIG_MAP_ENTRIES && WlBitsCover(c'[WL_BITMAP], wl)
  {
    hide ComboType, WlBitsExact, WlBitsCover, BitsExact, AnomalyCount;
    if c' != c {
      Whitelist.ExactCovers(c'[WL_BITMAP], wl);
    }
  }

  /** An operation that leaves the whitelist alone, and the words alone or exact. */
  twostate lemma WlUntouched(h: Handlers)
    requires h.Valid() && h.Wl() == old(h.Wl())
    requires h.Config() == old(h.Config()) || GatesExact(h.Config(), h.rules, h.cidrRules, h.wlEntries)
    ensures old(h.WlGated()) ==> h.WlGated()
  {
    hide GatesExact, Gated, WlBitsCover, TableInv, AllKeyed, RefsConserved, WlUsable, WlCounted;
    if old(h.WlGated()) {
      WlStaysGated(old(h.Config()), h.Config(), h.rules, h.cidrRules, h.wlEntries);
    }
  }

  /** An operation behind which the words are what they were, or were published anew. */
  twostate lemma StillDescribed(h: Handlers)
    requires (h.Config() == old(h.Config()) && h.State() == old(h.State()))
             || (GatesExact(h.Config(), h.rules, h.cidrRules, h.wlEntries)
                 && SameExcess(old(h.Config()), old(h.State()), h.Config(), h.State()))
    ensures old(h.Described()) ==> h.Described()
  {
    hide GatesExact, SameExcess, WordsExact;
    if old(h.Described()) && GatesExact(h.Config(), h.rules, h.cidrRules, h.wlEntries)
       && SameExcess(old(h.Config()), old(h.State()), h.Config(), h.State()) {
      StillExact(old(h.Config()), old(h.State()), h.Config(), h.State());
    }
  }

  /** Whatever changed has been published. */
  twostate predicate PublishedIfChanged(h: Handlers)
    reads h, h.kernel, h.cidrMgr
  {
    h.State() == old(h.State()) || h.Config() != old(h.Config())
  }

  /** A deletion whose publish may have failed without notice: the words describe what is left
      exactly if it has not. */
  twostate lemma FewerDescribed(h: Handlers)
    requires h.Config() == old(h.Config()) || (GatesExact(h.Config(), h.rules, h.cidrRules, h.wlEntries)
                 && SameExcess(old(h.Config()), old(h.State()), h.Config(), h.State()))
    requires h.State() == old(h.State()) ==> h.Config() == old(h.Config())
    requires h.State() != old(h.State()) ==>
               |h.rules| + |h.cidrRules| + |h.wlEntries| < |old(h.rules)| + |old(h.cidrRules)| + |old(h.wlEntries)|
    ensures old(h.Described()) ==> (h.Described() <==> PublishedIfChanged(h))
  {
    hide GatesExact, SameExcess, WordsExact;
    if old(h.Described()) {
      if h.Config() != old(h.Config()) {
        StillExact(old(h.Config()), old(h.State()), h.Config(), h.State());
      } else if h.State() != old(h.State()) {
        NotExact(h.Config(), old(h.State()), h.State());
      }
    }
  }

  /** One rule, exact or CIDR, by the API or by the controller's sync. */
  method AddOne(h: Handlers, req: Rule, fromSync: bool)
    requires h.Valid()
    modifies h, h.kernel, h.cidrMgr
    ensures h.Valid() && (old(h.WlGated()) ==> h.WlGated()) && (old(h.Described()) ==> h.Described())
    ensures HasCIDR(req) ==> h.rules == old(h.rules) && h.ruleKeyIndex == old(h.ruleKeyIndex)
    ensures OneAdded(req, fromSync, old(h.State()), h.State(), h.kernel.reliable)
    ensures Disjoint(old(h.cidrMgr.ids).Keys) ==> Disjoint(h.cidrMgr.ids.Keys)
  {
    hide h.Valid, Disjoint, GatesExact, CidrRules.Stores, HasCIDR, PrepareExact, PrepareCIDR, CidrRules.OverlapsKnown,
         Replace, h.WlGated, Meaning.StoredExact, Meaning.StoredCidr, CidrRules.SameTarget, h.Described, SameExcess;
    if HasCIDR(req) {
      ghost var stored;
      var r;
      r, stored := CidrRules.AddCidrRule(h, req, !fromSync, !fromSync);
      if r == CidrRules.Added {
        StoresKeepsWl(old(h.State()), h.State(), req.id, stored);
        PreparedPrefixes(req, !fromSync, !fromSync);
      }
    } else {
      var r := RulesMutation.AddExactRule(h, req, !fromSync);
    }
    WlUntouched(h);
    StillDescribed(h);
  }

  lemma StoresKeepsWl(a: Agent, b: Agent, id: Id, st: Stored)
    requires CidrRules.Stores(a, b, id, st)
    ensures b == a.(cidr := b.cidr, ids := b.ids, refs := b.refs)
  {
  }

  lemma PreparedPrefixes(req: Rule, canonical: bool, refuseMixed: bool)
    ensures var p := PrepareCIDR(req, canonical, refuseMixed);
            p.Some? ==> p.value.stored.src == CidrOf(req.srcCIDR) && p.value.stored.dst == CidrOf(req.dstCIDR)
  {
    hide ActionOk, PortsAllowed, BuildValue, StoredFlags;
  }

  // ---- One operation ----

  ghost predicate TurnsSoFar(reqs: seq<Rule>, states: seq<Agent>, n: nat, reliable: bool)
    requires n <= |reqs| && |states| == n + 1
  {
    forall i :: 0 <= i < n ==>
      if HasCIDR(reqs[i]) then CidrTurn(reqs[i], false, false, states[i], states[i + 1], reliable)
      else states[i + 1] == states[i]
  }

  lemma TurnsDone(reqs: seq<Rule>, states: seq<Agent>, reliable: bool)
    requires |states| == |reqs| + 1 && TurnsSoFar(reqs, states, |reqs|, reliable)
    ensures CidrTurns(reqs, states, reliable)
  {
    hide CidrTurn, HasCIDR;
  }

  lemma OneMoreTurn(reqs: seq<Rule>, states: seq<Agent>, n: nat, b: Agent, reliable: bool)
    requires n < |reqs| && |states| == n + 1 && TurnsSoFar(reqs, states, n, reliable)
    requires if HasCIDR(reqs[n]) then CidrTurn(reqs[n], false, false, states[n], b, reliable) else b == states[n]
    ensures TurnsSoFar(reqs, states + [b], n + 1, reliable)
  {
    hide CidrTurn, HasCIDR;
  }

  lemma AddedCidr(req: Rule, fromSync: bool, a: Agent, b: Agent, reliable: bool)
    requires OneAdded(req, fromSync, a, b, reliable) && HasCIDR(req)
    ensures CidrTurn(req, !fromSync, !fromSync, a, b, reliable)
  {
  }

  /** The first part of AddRulesBatch: CIDR rules are added as they come, exact ones set aside. */
  method AddCidrRules(h: Handlers, reqs: seq<Rule>) returns (exactRules: seq<Rule>, ghost states: seq<Agent>)
    requires h.Valid()
    modifies h, h.kernel, h.cidrMgr
    ensures h.Valid() && (old(h.WlGated()) ==> h.WlGated()) && (old(h.Described()) ==> h.Described())
    ensures h.rules == old(h.rules) && h.ruleKeyIndex == old(h.ruleKeyIndex)
    ensures Disjoint(old(h.cidrMgr.ids).Keys) ==> Disjoint(h.cidrMgr.ids.Keys)
    ensures exactRules == ExactOnly(reqs)
    ensures CidrTurns(reqs, states, h.kernel.reliable) && states[0] == old(h.State()) && states[|reqs|] == h.State()
  {
    hide h.Valid, Disjoint, HasCIDR, h.WlGated, h.Described, CidrTurn, CidrTurns, OneAdded, TurnsSoFar, ExactOnly;
    exactRules := [];
    states := [h.State()];
    NoTurns(reqs, h.State(), h.kernel.reliable);
    NoMoreExact(reqs);
    for i := 0 to |reqs|
      invariant |states| == i + 1 && states[0] == old(h.State()) && states[i] == h.State()
      invariant TurnsSoFar(reqs, states, i, h.kernel.reliable)
      invariant h.Valid() && (old(h.WlGated()) ==> h.WlGated()) && (old(h.Described()) ==> h.Described())
      invariant h.rules == old(h.rules) && h.ruleKeyIndex == old(h.ruleKeyIndex)
      invariant Disjoint(old(h.cidrMgr.ids).Keys) ==> Disjoint(h.cidrMgr.ids.Keys)
      invariant exactRules + ExactOnly(reqs[i..]) == ExactOnly(reqs)
    {
      NextExact(reqs, i);
      if HasCIDR(reqs[i]) {
        AddOne(h, reqs[i], true);
        AddedCidr(reqs[i], true, states[i], h.State(), h.kernel.reliable);
      } else {
        exactRules := exactRules + [reqs[i]];
      }
      OneMoreTurn(reqs, states, i, h.State(), h.kernel.reliable);
      states := states + [h.State()];
    }
    NoMoreExact(reqs);
    TurnsDone(reqs, states, h.kernel.reliable);
    TurnsLength(reqs, states, h.kernel.reliable);
  }

  lemma NextExact(reqs: seq<Rule>, i: nat)
    requires i < |reqs|
    ensures HasCIDR(reqs[i]) ==> ExactOnly(reqs[i..]) == ExactOnly(reqs[i + 1..])
    ensures !HasCIDR(reqs[i]) ==> ExactOnly(reqs[i..]) == [reqs[i]] + ExactOnly(reqs[i + 1..])
  {
    hide HasCIDR;
    assert reqs[i..][0] == reqs[i] && reqs[i..][1..] == reqs[i + 1..];
  }

  lemma NoMoreExact(reqs: seq<Rule>)
    ensures ExactOnly(reqs[|reqs|..]) == [] && reqs[0..] == reqs
  {
  }

  lemma NoTurns(reqs: seq<Rule>, a: Agent, reliable: bool)
    ensures TurnsSoFar(reqs, [a], 0, reliable)
  {
  }

  lemma TurnsLength(reqs: seq<Rule>, states: seq<Agent>, reliable: bool)
    requires CidrTurns(reqs, states, reliable)
    ensures |states| == |reqs| + 1
  {
  }

  /** The second part: the exact rules together. `lost` tells, by comparing the agent with what it
      was, whether a rollback failed to restore it. */
  method AddExactRules(h: Handlers, reqs: seq<Rule>) returns (lost: bool, ghost items: seq<BatchRollback.Item>)
    requires h.Valid()
    modifies h, h.kernel
    ensures lost ==>
              !h.Valid() && BatchLoss.CanLose(old(h.rules), old(h.ruleKeyIndex), RulesMutation.AskedItems(reqs))
    ensures !lost ==> h.Valid() && (old(h.WlGated()) ==> h.WlGated()) && (old(h.Described()) ==> h.Described())
    ensures h.kernel.reliable ==> !lost
    ensures !lost ==> AddedTogether(reqs, old(h.State()), h.State(), items, h.kernel.reliable)
  {
    hide h.Valid, GatesExact, h.WlGated, BatchLoss.Drawn, BatchLoss.CanLose, RulesMutation.AskedItems,
         BatchRollback.HandsOver, RulesMutation.LastWins, BatchRollback.ApplyAll, BatchRollback.UndoAll,
         RulesMutation.Takes, h.Described, SameExcess;
    var before := h.State();
    var ok, added, failed;
    ok, added, failed, items := RulesMutation.AddRulesBatch(h, reqs);
    lost := !ok && h.State() != before;
    if !lost {
      WlUntouched(h);
      NothingApplied(before.exact);
      StillDescribed(h);
    }
  }

  lemma NothingApplied(t: Table)
    ensures BatchRollback.ApplyAll(t, []) == t
  {
  }

  /** AddRulesBatch: the CIDR rules one by one, then the exact rules. */
  method RunBatch(h: Handlers, reqs: seq<Rule>)
    returns (lost: bool, ghost states: seq<Agent>, ghost items: seq<BatchRollback.Item>)
    requires h.Valid()
    modifies h, h.kernel, h.cidrMgr
    ensures lost ==> !h.Valid() && !Benign(AddRulesBatch(reqs), old(h.rules), old(h.ruleKeyIndex))
    ensures !lost ==> h.Valid() && (old(h.WlGated()) ==> h.WlGated()) && (old(h.Described()) ==> h.Described())
    ensures !lost && Disjoint(old(h.cidrMgr.ids).Keys) ==> Disjoint(h.cidrMgr.ids.Keys)
    ensures h.kernel.reliable ==> !lost
    ensures CidrTurns(reqs, states, h.kernel.reliable) && states[0] == old(h.State())
    ensures !lost ==> ExactTogether(reqs, states[|reqs|], h.State(), items, h.kernel.reliable)
  {
    hide h.Valid, Disjoint, GatesExact, h.WlGated, BatchLoss.Drawn, BatchLoss.CanLose, RulesMutation.AskedItems,
         CidrTurns, ExactOnly, h.Described, AddedTogether;
    var exactRules;
    exactRules, states := AddCidrRules(h, reqs);
    TurnsLength(reqs, states, h.kernel.reliable);
    lost, items := AddExactRules(h, exactRules);
  }

  /** DoAtomicSync. `lost` tells, by the request and by comparing the agent with what it was,
      whether the invariant is lost, if the errors that the sync ignores left nothing behind. */
  method RunSync(h: Handlers, reqs: seq<Rule>) returns (lost: bool, residue: bool)
    requires h.Valid()
    modifies h, h.kernel, h.cidrMgr
    ensures residue ==> lost
    ensures lost && !residue ==> !h.Valid() && !Benign(AtomicSync(reqs), old(h.rules), old(h.ruleKeyIndex))
    ensures !lost ==> h.Valid() && (old(h.WlGated()) ==> h.WlGated()) && (old(h.Described()) ==> h.Described())
    ensures !lost && Disjoint(old(h.cidrMgr.ids).Keys) && DisjointSync(AtomicSync(reqs)) ==>
              Disjoint(h.cidrMgr.ids.Keys)
    ensures h.kernel.reliable ==> !residue
    ensures !lost ==> AllReplaced(reqs, old(h.State()), h.State(), h.kernel.reliable)
  {
    hide AgentInv, Gated, HoldsAll, ShadowBuild.AsAsked, ShadowBuild.Buildable, AtomicSync.Synced, AtomicSync.Aborted,
         StepAtomic, AllInForce, ViewOf, Disjoint, ShadowBuild.NoRepeat, ShadowTables.DistinctBuilt,
         ShadowBuild.AskedEnds, WlBitsCover, ShadowBuild.FromReqs, AtomicSync.KeptWords, ShadowBuild.Unkeyed,
         ShadowBuild.BuiltCidr, h.Valid, AtomicSync.CleanSync, WordsExact;
    var before := h.State();
    ghost var c := h.Config();
    ValidParts(h);
    var ok, added, failed, clean;
    ghost var t;
    ok, added, failed, clean, t := AtomicSync.DoAtomicSync(h, reqs);
    residue := ok && !clean;
    lost := if ok then !clean || !ShadowBuild.NoRepeat(reqs) else h.State() != before;
    if ok && clean {
      AtomicSync.SyncedKeepsIff(h, before, t, c, reqs);
      KeptBitmap(h.Config(), c);
      if !lost {
        AtomicSync.SyncedEnds(h, before, t, reqs);
        SyncedHoldsAll(h, before, t, reqs);
        AtomicSync.CleanIff(t, reqs);
        if old(h.Described()) {
          AtomicSync.SyncedExact(h, before, t, c);
        }
        if Disjoint(ShadowBuild.AskedEnds(reqs)) {
          DisjointSubset(h.cidrMgr.ids.Keys, ShadowBuild.AskedEnds(reqs));
        }
      }
    } else if !ok && ShadowBuild.NoRepeat(reqs) {
      AtomicSync.FromNoRepeat(t.cidr, reqs, true);
    }
  }

  lemma SyncedHoldsAll(h: Handlers, a: Agent, t: AtomicSync.SyncTrace, reqs: seq<Rule>)
    requires AtomicSync.Synced(h, a, t) && ShadowBuild.AsAsked(reqs, t.exact, t.cidr)
    requires ShadowBuild.FromReqs(t.exact, reqs, false) && ShadowBuild.FromReqs(t.cidr, reqs, true)
    requires ShadowBuild.NoRepeat(reqs) && t.leftExact == map[] && t.leftCidr == map[]
    ensures HoldsAll(reqs, h.State())
  {
    hide ShadowTables.PutAll, ShadowBuild.AsAsked, ShadowBuild.FromReqs, ShadowBuild.NoRepeat, HoldsAll,
         ShadowTables.FreshKeys, AtomicSync.NewWords, AtomicSync.RefsAfter;
    assert Leftover(map[]) == EMPTY;
    BuiltHoldsAll(h.State(), reqs, t.exact, t.cidr);
  }

  /** Tables built from everything that was asked for, no id repeated, hold just that. */
  lemma BuiltHoldsAll(b: Agent, reqs: seq<Rule>, exact: seq<ShadowTables.Built>, cidr: seq<ShadowTables.Built>)
    requires b.exact == ShadowTables.PutAll(EMPTY, exact) && b.cidr == ShadowTables.PutAll(EMPTY, cidr)
    requires ShadowBuild.AsAsked(reqs, exact, cidr) && ShadowBuild.NoRepeat(reqs)
    requires ShadowBuild.FromReqs(exact, reqs, false) && ShadowBuild.FromReqs(cidr, reqs, true)
    ensures HoldsAll(reqs, b)
  {
    hide ShadowTables.PutAll, ShadowBuild.ExactItems, ShadowBuild.CidrItems, ShadowBuild.Unkeyed, ShadowBuild.NoRepeat,
         PrepareExact, PrepareCIDR, HasCIDR, Meaning.StoredExact, Meaning.StoredCidr, ShadowTables.DistinctBuilt;
    ShadowTables.PutAllIds(EMPTY, exact);
    ShadowTables.PutAllIds(EMPTY, cidr);
    forall i | 0 <= i < |reqs|
      ensures !HasCIDR(reqs[i]) ==>
                reqs[i].id in b.exact.rules && Meaning.StoredExact(b.exact.rules[reqs[i].id], reqs[i])
      ensures HasCIDR(reqs[i]) ==>
                reqs[i].id in b.cidr.rules && Meaning.StoredCidr(b.cidr.rules[reqs[i].id], reqs[i])
    {
      HeldAsAsked(b, reqs, exact, cidr, i);
    }
  }

  lemma HeldAsAsked(b: Agent, reqs: seq<Rule>, exact: seq<ShadowTables.Built>, cidr: seq<ShadowTables.Built>, i: nat)
    requires b.exact == ShadowTables.PutAll(EMPTY, exact) && b.cidr == ShadowTables.PutAll(EMPTY, cidr)
    requires ShadowBuild.AsAsked(reqs, exact, cidr) && i < |reqs|
    requires ShadowTables.DistinctBuilt(exact) && ShadowTables.DistinctBuilt(cidr)
    ensures !HasCIDR(reqs[i]) ==>
              reqs[i].id in b.exact.rules && Meaning.StoredExact(b.exact.rules[reqs[i].id], reqs[i])
    ensures HasCIDR(reqs[i]) ==>
              reqs[i].id in b.cidr.rules && Meaning.StoredCidr(b.cidr.rules[reqs[i].id], reqs[i])
  {
    hide ShadowTables.PutAll, ShadowBuild.ExactItems, ShadowBuild.CidrItems, ShadowBuild.Unkeyed, PrepareExact,
         PrepareCIDR, HasCIDR, Meaning.StoredExact, Meaning.StoredCidr;
    var k := ShadowBuild.ItemOf(reqs, i);
    if HasCIDR(reqs[i]) {
      ShadowBuild.UnkeyedLength(cidr);
      ShadowBuild.UnkeyedAt(cidr, k);
      ShadowTables.PutAllHolds(cidr, k);
      var st := cidr[k].stored;
      assert st == WithIds(PrepareCIDR(reqs[i], false, true).value.stored, st.key.src, st.key.dst);
      Meaning.CidrMeaning(reqs[i], false, true, st.key.src, st.key.dst);
    } else {
      ShadowTables.PutAllHolds(exact, k);
      Meaning.ExactMeaning(reqs[i], false);
    }
  }

  lemma ValidParts(h: Handlers)
    requires h.Valid()
    ensures AgentInv(h.State()) && Gated(h.Config(), h.rules, h.cidrRules, h.wlEntries)
    ensures |h.Config()| == CONFIG_MAP_ENTRIES && h.Config()[WL_MAP_SELECTOR] == h.activeWLSlot.Number()
  {
    hide AgentInv;
  }

  lemma KeptBitmap(c: seq<nat>, o: seq<nat>)
    requires AtomicSync.KeptWords(c, o)
    ensures |c| == |o| == CONFIG_MAP_ENTRIES && c[WL_BITMAP] == o[WL_BITMAP]
  {
    assert AtomicSync.Kept(WL_BITMAP);
  }

  predicate OnWhitelist(op: Op) {
    || op.AddWhitelist? || op.DeleteWhitelist? || op.AddWhitelistBatch? || op.DeleteWhitelistBatch?
    || op.ClearWhitelist? || op.WhitelistSync?
  }

  /** AddWhitelist or AddWhitelistFromSync. */
  method RunWlAdd(h: Handlers, entry: WlEntry) returns (ghost uncovered: bool)
    requires h.Valid()
    modifies h, h.kernel
    ensures h.Valid() && (!uncovered && old(h.WlGated()) ==> h.WlGated())
    ensures !uncovered && old(h.Described()) ==> h.Described()
    ensures h.cidrMgr.ids == old(h.cidrMgr.ids)
    ensures h.kernel.reliable ==> !uncovered
    ensures OneWhitelisted(entry, old(h.State()), h.State(), h.kernel.reliable)
  {
    hide AgentInv, Gated, GatesExact, WhitelistedAs, Meaning.AsksWl, WildMatches, Whitelist.CombosStay, PrepareWl,
         WlReplace, WlBitsCover, h.Described, SameExcess;
    ghost var a := h.State();
    var r;
    ghost var republished;
    r, republished := Whitelist.AddWhitelist(h, entry);
    uncovered := r == Whitelist.InsertFailed && !republished;
    if !uncovered {
      StillDescribed(h);
    }
    if r in {Whitelist.Added, Whitelist.Unchanged} {
      NowListed(entry, a, h.State());
    }
  }

  /** AddWhitelistBatch. */
  method RunWlBatch(h: Handlers, entries: seq<WlEntry>) returns (ghost uncovered: bool)
    requires h.Valid()
    modifies h, h.kernel
    ensures h.Valid() && (!uncovered && old(h.WlGated()) ==> h.WlGated())
    ensures !uncovered && old(h.Described()) ==> h.Described()
    ensures h.cidrMgr.ids == old(h.cidrMgr.ids)
    ensures h.kernel.reliable ==> !uncovered
    ensures BatchWhitelisted(entries, old(h.State()), h.State(), h.kernel.reliable)
  {
    hide AgentInv, Gated, GatesExact, Whitelist.CombosStay, Overridden, WhitelistBatch.Asked, WhitelistBatch.Clashing,
         WlBitsCover, h.Described, SameExcess;
    ghost var a := h.State();
    var r, added;
    ghost var republished;
    r, added, republished := WhitelistBatch.AddWhitelistBatch(h, entries);
    if r == Whitelist.Added {
      AskedOverrides(entries, a.wl.entries);
    }
    uncovered := r == Whitelist.InsertFailed && !republished;
    if !uncovered {
      StillDescribed(h);
    }
  }

  /** DeleteWhitelistBatch. */
  method RunWlDeleteBatch(h: Handlers, ids: seq<Id>)
    requires h.Valid()
    modifies h, h.kernel
    ensures h.Valid() && (old(h.WlGated()) ==> h.WlGated()) && (old(h.Described()) ==> h.Described())
    ensures h.cidrMgr.ids == old(h.cidrMgr.ids)
    ensures EntriesDeleted(ids, old(h.State()), h.State(), h.kernel.reliable)
  {
    hide AgentInv, Gated, GatesExact, WlBitsCover, h.Described, SameExcess;
    var ok, deleted, failed;
    ghost var gone;
    ok, deleted, failed, gone := WhitelistBatch.DeleteWhitelistBatch(h, ids);
    StillDescribed(h);
  }

  /** DeleteWhitelist, DeleteWhitelistBatch and ClearAllWhitelistFromSync. Only the last may leave
      words that do not describe what is stored, if a write fails. */
  method RunWlDelete(h: Handlers, op: Op)
    requires h.Valid() && (op.DeleteWhitelist? || op.DeleteWhitelistBatch? || op.ClearWhitelist?)
    modifies h, h.kernel
    ensures h.Valid() && (old(h.WlGated()) ==> h.WlGated())
    ensures h.kernel.reliable || !op.ClearWhitelist? ==> old(h.Described()) ==> h.Described()
    ensures h.cidrMgr.ids == old(h.cidrMgr.ids)
    ensures Did(op, old(h.State()), h.State(), h.kernel.reliable)
  {
    hide AgentInv, Gated, GatesExact, WlDrop, WlBitsCover, h.Described, SameExcess;
    ghost var a := h.State();
    match op
    case DeleteWhitelist(id) =>
      var r := Whitelist.DeleteWhitelist(h, id);
      if r == Whitelist.Deleted {
        DroppedEntries(a.wl, id);
      }
      StillDescribed(h);
    case DeleteWhitelistBatch(ids) =>
      RunWlDeleteBatch(h, ids);
    case ClearWhitelist =>
      var ok := Whitelist.ClearAllWhitelistFromSync(h);
      if h.kernel.reliable {
        StillDescribed(h);
      }
  }

  /** The deletions whose publish may fail without notice. */
  predicate Unchecked(op: Op) {
    op.DeleteRule? || op.DeleteRulesBatch? || op.ClearWhitelist?
  }

  /** The whitelist operations. */
  method RunWhitelist(h: Handlers, op: Op) returns (residue: bool, ghost uncovered: bool)
    requires h.Valid()
    requires OnWhitelist(op)
    modifies h, h.kernel
    ensures uncovered ==> op.AddWhitelist? || op.AddWhitelistBatch?
    ensures !residue <==> h.Valid()
    ensures !residue && !uncovered && old(h.WlGated()) ==> h.WlGated()
    ensures h.cidrMgr.ids == old(h.cidrMgr.ids)
    ensures h.kernel.reliable ==> !uncovered && !residue
    ensures !residue && !uncovered && (h.kernel.reliable || !Unchecked(op)) ==> old(h.Described()) ==> h.Described()
    ensures !residue ==> Did(op, old(h.State()), h.State(), h.kernel.reliable)
  {
    hide AgentInv, h.Valid, h.WlGated, h.Described, WhitelistReplaced, OneWhitelisted, BatchWhitelisted, EntriesDeleted,
         Cleared;
    residue, uncovered := false, false;
    if op.AddWhitelist? {
      uncovered := RunWlAdd(h, op.entry);
    } else if op.AddWhitelistBatch? {
      uncovered := RunWlBatch(h, op.entries);
    } else if op.WhitelistSync? {
      residue := RunWlSync(h, op.entries);
    } else {
      RunWlDelete(h, op);
    }
  }

  /** DoWhitelistAtomicSync; the clear may have left something behind. */
  method RunWlSync(h: Handlers, entries: seq<WlEntry>) returns (residue: bool)
    requires h.Valid()
    modifies h, h.kernel
    ensures !residue <==> h.Valid()
    ensures !residue && old(h.WlGated()) ==> h.WlGated()
    ensures !residue && old(h.Described()) ==> h.Described()
    ensures h.cidrMgr.ids == old(h.cidrMgr.ids)
    ensures h.kernel.reliable ==> !residue
    ensures !residue ==> WhitelistReplaced(entries, old(h.State()), h.State(), h.kernel.reliable)
  {
    hide AgentInv, Gated, GatesExact, HoldsEntries, WhitelistSync.WlSynced, WhitelistSync.Syncable,
         WhitelistSync.Prepared, WhitelistSync.DistinctItems, StepAtomic, AllInForce, ViewOf, WlBitsCover, WordsExact;
    ghost var a, c := h.State(), h.Config();
    var r, clean;
    ghost var items, left, flip;
    r, clean, items, left, flip := WhitelistSync.DoWhitelistAtomicSync(h, entries);
    residue := r == WhitelistSync.Synced && !clean;
    if r == WhitelistSync.Synced {
      WhitelistSync.WlSyncedValidIff(h, a, c, items, left);
      WlSyncedIds(h, a, c, items, left);
      if left == {} {
        SyncedEntries(entries, items, h.State());
        if old(h.Described()) {
          WhitelistSync.WlSyncedExact(h, a, c, items);
        }
      }
    }
  }

  lemma WlSyncedIds(h: Handlers, a: Agent, c: seq<nat>, items: seq<WlItem>, left: set<Key>)
    requires WhitelistSync.WlSynced(h, a, c, items, left)
    ensures h.State() == a.(wl := WhitelistSync.Filled(items, left))
  {
  }

  lemma NowListed(e: WlEntry, a: Agent, b: Agent)
    requires b == a.(wl := b.wl) && e.id in b.wl.entries && b.wl.entries == a.wl.entries[e.id := b.wl.entries[e.id]]
    requires forall p :: WildMatches(b.wl.entries[e.id], p) <==> Meaning.AsksWl(e, p)
    ensures NowWhitelisted(e, a, b)
  {
    hide WildMatches, Meaning.AsksWl;
  }

  lemma DroppedEntries(w: WlTable, id: Id)
    requires id in w.entries
    ensures WlDrop(w, id).entries == w.entries - {id}
  {
  }

  lemma SyncedEntries(entries: seq<WlEntry>, items: seq<WlItem>, b: Agent)
    requires WhitelistSync.Prepared(items, entries) && WhitelistSync.DistinctItems(items, {})
    requires b.wl == WhitelistSync.Filled(items, {})
    ensures HoldsEntries(entries, b)
  {
    hide PrepareWl, WildMatches, Meaning.AsksWl, WhitelistSync.Filled;
    WhitelistSync.FilledMembers(items, {});
    forall i | 0 <= i < |entries|
      ensures entries[i].id in b.wl.entries && WhitelistedAs(b.wl.entries[entries[i].id], entries[i])
    {
      WhitelistSync.FilledHolds(items, {}, i);
      forall p ensures WildMatches(items[i].key, p) <==> Meaning.AsksWl(entries[i], p) {
        Meaning.WlMeaning(entries[i], p);
      }
    }
  }

  /** DeleteRule. */
  method RunDelete(h: Handlers, id: Id)
    requires h.Valid()
    modifies h, h.kernel, h.cidrMgr
    ensures h.Valid() && (old(h.WlGated()) ==> h.WlGated())
    ensures old(h.Described()) ==> (h.Described() <==> PublishedIfChanged(h)) && (h.kernel.reliable ==> h.Described())
    ensures Disjoint(old(h.cidrMgr.ids).Keys) ==> Disjoint(h.cidrMgr.ids.Keys)
    ensures OneDeleted(id, old(h.State()), h.State(), h.kernel.reliable)
  {
    hide h.Valid, Disjoint, GatesExact, h.WlGated, Drop, h.Described, SameExcess, Keeps, OneDeleted;
    ghost var a := h.State();
    var r := RulesDeletion.DeleteRule(h, id);
    DeletedFacts(a, h.State(), id, r == RulesDeletion.Deleted);
    WlUntouched(h);
    FewerDescribed(h);
    if h.kernel.reliable {
      StillDescribed(h);
    }
    if Disjoint(a.ids.Keys) {
      DisjointSubset(h.cidrMgr.ids.Keys, a.ids.Keys);
    }
  }

  /** DeleteRulesBatch. */
  method RunDeleteBatch(h: Handlers, ids: seq<Id>)
    requires h.Valid()
    modifies h, h.kernel, h.cidrMgr
    ensures h.Valid() && (old(h.WlGated()) ==> h.WlGated())
    ensures old(h.Described()) ==> (h.Described() <==> PublishedIfChanged(h)) && (h.kernel.reliable ==> h.Described())
    ensures Disjoint(old(h.cidrMgr.ids).Keys) ==> Disjoint(h.cidrMgr.ids.Keys)
    ensures ManyDeleted(ids, old(h.State()), h.State(), h.kernel.reliable)
  {
    hide h.Valid, Disjoint, GatesExact, h.WlGated, RulesDeletion.Shrunk, RulesDeletion.AllGone, h.Described, SameExcess;
    ghost var a := h.State();
    var deleted, failed;
    ghost var gone;
    deleted, failed, gone := RulesDeletion.DeleteRulesBatch(h, ids);
    ShrunkFacts(a, h.State(), gone, ids);
    WlUntouched(h);
    FewerDescribed(h);
    if h.kernel.reliable {
      StillDescribed(h);
    }
    if Disjoint(a.ids.Keys) {
      DisjointSubset(h.cidrMgr.ids.Keys, a.ids.Keys);
    }
  }

  /** One operation. Whatever fails inside it, the invariant is kept, unless the operation is one
      of the two that are not benign and did its harm, or an ignored error left something behind. */
  method Step(h: Handlers, op: Op) returns (lost: bool, residue: bool, ghost uncovered: bool)
    requires h.Valid()
    modifies h, h.kernel, h.cidrMgr
    ensures residue ==> lost
    ensures lost && !residue ==> !h.Valid() && !Benign(op, old(h.rules), old(h.ruleKeyIndex))
    ensures uncovered ==> op.AddWhitelist? || op.AddWhitelistBatch?
    ensures !lost ==> h.Valid()
    ensures !lost && !uncovered && old(h.WlGated()) ==> h.WlGated()
    ensures !lost && Disjoint(old(h.cidrMgr.ids).Keys) && DisjointSync(op) ==> Disjoint(h.cidrMgr.ids.Keys)
    ensures h.kernel.reliable ==> !uncovered && !residue
    ensures !lost && !uncovered && (h.kernel.reliable || !Unchecked(op)) ==> old(h.Described()) ==> h.Described()
    ensures !lost ==> Did(op, old(h.State()), h.State(), h.kernel.reliable)
  {
    hide h.Valid, Disjoint, GatesExact, h.WlGated, Benign, RulesDeletion.Shrunk, Drop, OneAdded, CidrTurns,
         ExactTogether, AllReplaced, RulesDeletion.AllGone, h.Described, SameExcess, AddedTogether;
    ghost var a := h.State();
    lost, residue, uncovered := false, false, false;
    if op.AddRule? {
      AddOne(h, op.req, false);
    } else if op.AddRuleFromSync? {
      AddOne(h, op.req, true);
    } else if op.AddRulesBatch? {
      ghost var states, items;
      lost, states, items := RunBatch(h, op.reqs);
    } else if op.DeleteRule? {
      RunDelete(h, op.id);
    } else if op.DeleteRulesBatch? {
      RunDeleteBatch(h, op.ids);
    } else if op.AtomicSync? {
      lost, residue := RunSync(h, op.reqs);
    } else {
      residue, uncovered := RunWhitelist(h, op);
      lost := residue;
    }
  }

  lemma DroppedRules(t: Table, id: Id)
    ensures id in t.rules ==> Drop(t, id).rules == t.rules - {id} && |Drop(t, id).rules| + 1 == |t.rules|
  {
    hide ComboType, Bump;
  }

  lemma DeletedFacts(a: Agent, b: Agent, id: Id, deleted: bool)
    requires !deleted ==> b == a
    requires deleted ==> id in a.exact.rules || id in a.cidr.rules
    requires deleted && id in a.exact.rules ==> b == a.(exact := Drop(a.exact, id))
    requires deleted && id !in a.exact.rules ==>
               b == a.(cidr := Drop(a.cidr, id), ids := b.ids, refs := b.refs) && Keeps(b.ids, a.ids)
    ensures b.wl == a.wl && b.ids.Keys <= a.ids.Keys
    ensures deleted ==> |b.exact.rules| + |b.cidr.rules| < |a.exact.rules| + |a.cidr.rules|
    ensures OneDeleted(id, a, b, deleted || (id !in a.exact.rules && id !in a.cidr.rules))
    ensures OneDeleted(id, a, b, false)
  {
    hide Drop;
    DroppedRules(a.exact, id);
    DroppedRules(a.cidr, id);
  }

  lemma ShrunkFacts(o: Agent, a: Agent, g: RulesDeletion.Gone, asked: seq<Id>)
    requires RulesDeletion.Shrunk(o, a, g, asked)
    ensures a.wl == o.wl && a.ids.Keys <= o.ids.Keys && (g.Size() == 0 ==> a == o)
    ensures |a.exact.rules| + |a.cidr.rules| + g.Size() == |o.exact.rules| + |o.cidr.rules|
  {
  }

  // ---- Whole runs ----

  /** The states of a run: the one it began in, and the one after each operation. All but perhaps
      the last satisfy the agent's invariant. */
  ghost predicate Traces(trace: seq<Agent>, first: Agent, last: Agent, done: nat) {
    && |trace| == done + 1 && trace[0] == first && trace[done] == last
    && forall i :: 0 <= i < done ==> AgentInv(trace[i])
  }

  lemma TracesMore(trace: seq<Agent>, first: Agent, done: nat, next: Agent)
    requires |trace| == done + 1 && Traces(trace, first, trace[done], done) && AgentInv(trace[done])
    ensures Traces(trace + [next], first, next, done + 1)
  {
    hide AgentInv;
  }

  /** Each of the first n operations did what it is for. */
  ghost predicate Does(ops: seq<Op>, trace: seq<Agent>, n: nat, reliable: bool) {
    n <= |ops| && n < |trace| && forall i :: 0 <= i < n ==> Did(ops[i], trace[i], trace[i + 1], reliable)
  }

  lemma DoesMore(ops: seq<Op>, trace: seq<Agent>, n: nat, b: Agent, reliable: bool)
    requires Does(ops, trace, n, reliable) && n < |ops| && |trace| == n + 1 && Did(ops[n], trace[n], b, reliable)
    ensures Does(ops, trace + [b], n + 1, reliable)
  {
    hide Did;
  }

  lemma DoesStill(ops: seq<Op>, trace: seq<Agent>, n: nat, b: Agent, reliable: bool)
    requires Does(ops, trace, n, reliable)
    ensures Does(ops, trace + [b], n, reliable)
  {
    hide Did;
  }

  /** Any sequence of operations, with any of their writes failing, from an empty agent. Each does
      what it is for, step by step (Did). The run
      goes on to the end, and the invariant holds there, unless an operation has in fact lost it:
      one that was not benign in the state it found, or one whose ignored errors left something
      behind. While no write fails only the former can be, and the whitelist stays covered. */
  method Run(h: Handlers, ops: seq<Op>)
    returns (done: nat, lost: bool, residue: bool, ghost uncovered: bool, ghost trace: seq<Agent>)
    requires h.Valid() && h.WlGated() && h.cidrMgr.ids == map[]
    modifies h, h.kernel, h.cidrMgr
    ensures done <= |ops| && Traces(trace, old(h.State()), h.State(), done)
    ensures !lost ==> done == |ops| && h.Valid() && !residue
    ensures lost ==> 0 < done
    ensures lost && !residue ==>
              !h.Valid() && !Benign(ops[done - 1], trace[done - 1].exact.rules, trace[done - 1].exact.index)
    ensures !lost && !uncovered ==> h.WlGated()
    ensures uncovered ==> exists i :: 0 <= i < done && (ops[i].AddWhitelist? || ops[i].AddWhitelistBatch?)
    ensures !lost && (forall op :: op in ops ==> DisjointSync(op)) ==> Disjoint(h.cidrMgr.ids.Keys)
    ensures h.kernel.reliable ==> !residue && !uncovered
    ensures !lost && (h.kernel.reliable || forall op :: op in ops ==> !Unchecked(op)) && !uncovered ==>
              old(h.Described()) ==> h.Described()
    ensures Does(ops, trace, if lost then done - 1 else done, h.kernel.reliable)
  {
    hide h.Valid, Disjoint, h.WlGated, Benign, DisjointSync, AgentInv, Does, Did, h.Described, Unchecked, Traces;
    lost, residue, uncovered, trace := false, false, false, [h.State()];
    NothingOverlaps();
    NothingDone(ops, h.State(), h.kernel.reliable);
    assert h.cidrMgr.ids.Keys == {};
    ghost var checked := h.kernel.reliable || forall op :: op in ops ==> !Unchecked(op);
    ghost var separate := forall op :: op in ops ==> DisjointSync(op);
    for i := 0 to |ops|
      invariant h.Valid() && (!uncovered ==> h.WlGated()) && (h.kernel.reliable ==> !uncovered)
      invariant checked && !uncovered ==> old(h.Described()) ==> h.Described()
      invariant uncovered ==> exists j :: 0 <= j < i && (ops[j].AddWhitelist? || ops[j].AddWhitelistBatch?)
      invariant separate ==> Disjoint(h.cidrMgr.ids.Keys)
      invariant |trace| == i + 1 && trace[i] == h.State() && Traces(trace, old(h.State()), h.State(), i)
      invariant Does(ops, trace, i, h.kernel.reliable)
    {
      ghost var missed;
      ValidParts(h);
      lost, residue, missed := Step(h, ops[i]);
      DoesStill(ops, trace, i, h.State(), h.kernel.reliable);
      if !lost {
        DoesMore(ops, trace, i, h.State(), h.kernel.reliable);
      }
      TracesMore(trace, old(h.State()), i, h.State());
      uncovered, trace := uncovered || missed, trace + [h.State()];
      if lost {
        return i + 1, true, residue, uncovered, trace;
      }
    }
    return |ops|, false, false, uncovered, trace;
  }

  lemma NothingDone(ops: seq<Op>, a: Agent, reliable: bool)
    ensures Does(ops, [a], 0, reliable) && Traces([a], a, a, 0)
  {
  }

  lemma NothingOverlaps()
    ensures Disjoint({})
  {
  }

  /** What every reachable valid state means to a packet: each lookup answers as the plain
      question about the stored rules would, at any instant, whatever gates were published. */
  lemma EveryPacketAnswered(h: Handlers, p: Packet, mode: Mode)
    requires h.Valid()
    ensures h.kernel.maps.ExactAnswer(p, mode).Some? <==> SomeExactMatch(h.rules, p, mode)
    ensures h.kernel.maps.CidrAnswer(p, mode).Some? ==> SomeDirectMatch(h.cidrRules, p, mode)
    ensures Disjoint(h.cidrMgr.ids.Keys) ==>
              (h.kernel.maps.CidrAnswer(p, mode).Some? <==> SomeDirectMatch(h.cidrRules, p, mode))
    ensures h.WlGated() ==> (h.kernel.maps.Whitelisted(p) <==> SomeWlMatch(h.wlEntries, p))
    ensures h.kernel.maps.Word(ANOMALY_RULE_COUNT) == 0 && mode.Anomalous? ==>
              !SomeExactMatch(h.rules, p, mode) && !SomeDirectMatch(h.cidrRules, p, mode)
  {
    hide AgentInv, Gated, SomeExactMatch, SomeDirectMatch, SomeWlMatch, Serves, InForce, Disjoint, WlBitsCover;
    var v := ViewOf(h.kernel.maps);
    ValidServes(h);
    InstantAnswers(h.kernel.maps, v, h.State(), h.cidrMgr.ids.Keys, p, mode);
    if mode.Anomalous? && h.kernel.maps.Word(ANOMALY_RULE_COUNT) == 0 {
      AnomalyGateHidesNothing(h.kernel.maps, h.State(), p, mode.bits);
    }
  }

  // ---- An atomic sync under traffic ----

  /** Each lookup answers for the rules of a, by the view v, at each entry of this part of the log. */
  ghost predicate AllAnswer(log: seq<Maps>, from: nat, to: nat, v: View, a: Agent, ends: set<Endpoint>)
    requires to <= |log|
  {
    forall i: nat, p: Packet, mode: Mode :: from <= i < to ==> AnswersFor(log[i], v, a, ends, p, mode)
  }

  lemma StepAnswers(before: seq<Maps>, log: seq<Maps>, flip: nat, v0: View, a0: Agent, v1: View, a1: Agent,
                    ends: set<Endpoint>)
    requires StepAtomic(before, log, flip, v0, a0.ids, v1, a1.ids, ends)
    requires AgentInv(a0) && Serves(v0, a0) && AgentInv(a1) && Serves(v1, a1)
    ensures |before| <= flip < |log|
    ensures AllAnswer(log, |before|, flip, v0, a0, ends) && AllAnswer(log, flip, |log|, v1, a1, ends)
  {
    hide AnswersFor, AgentInv, Serves, InForce;
    forall i: nat, p: Packet, mode: Mode | |before| <= i < |log|
      ensures if i < flip then AnswersFor(log[i], v0, a0, ends, p, mode) else AnswersFor(log[i], v1, a1, ends, p, mode)
    {
      AnswersThroughout(before, log, flip, v0, a0, v1, a1, ends, i, p, mode);
    }
  }

  lemma AbortAnswers(before: seq<Maps>, log: seq<Maps>, v: View, a: Agent, ends: set<Endpoint>)
    requires AllInForce(before, log, v, a.ids, ends) && AgentInv(a) && Serves(v, a)
    ensures |before| <= |log| && AllAnswer(log, |before|, |log|, v, a, ends)
  {
    hide AnswersFor, AgentInv, Serves, InForce;
    forall i: nat, p: Packet, mode: Mode | |before| <= i < |log|
      ensures AnswersFor(log[i], v, a, ends, p, mode)
    {
      AnswersOnAbort(before, log, v, a, ends, i, p, mode);
    }
  }

  /** The agent's rules are those of the request: the exact ones in order, and the CIDR ones with
      the ids that were taken for their prefixes. */
  ghost predicate HoldsRequest(h: Handlers, reqs: seq<Rule>, cidr: seq<ShadowTables.Built>)
    reads h, h.kernel
  {
    && h.Exact() == ShadowTables.PutAll(EMPTY, ShadowBuild.ExactItems(reqs))
    && h.Cidr() == ShadowTables.PutAll(EMPTY, cidr) && ShadowBuild.Unkeyed(cidr) == ShadowBuild.CidrItems(reqs)
  }

  lemma SyncedRequest(h: Handlers, a: Agent, t: AtomicSync.SyncTrace, reqs: seq<Rule>)
    requires AtomicSync.Synced(h, a, t) && ShadowBuild.AsAsked(reqs, t.exact, t.cidr) && t.leftExact == map[]
    requires t.leftCidr == map[]
    ensures HoldsRequest(h, reqs, t.cidr)
  {
    hide ShadowTables.PutAll, ShadowBuild.ExactItems, ShadowBuild.CidrItems, ShadowBuild.Unkeyed;
    assert Leftover(map[]) == EMPTY;
  }

  lemma OldUntilFlip(before: seq<Maps>, log: seq<Maps>, flip: nat, v0: View, a0: Agent, v1: View, low1: Trie,
                     ends: set<Endpoint>)
    requires StepAtomic(before, log, flip, v0, a0.ids, v1, low1, ends) && AgentInv(a0) && Serves(v0, a0)
    ensures |before| <= flip < |log| && AllAnswer(log, |before|, flip, v0, a0, ends)
  {
    hide InForce, AllInForce, AgentInv, Serves, AnswersFor;
    AbortAnswers(before, log[..flip], v0, a0, ends);
    assert forall i :: 0 <= i < flip ==> log[..flip][i] == log[i];
  }

  /** An atomic sync as packets meet it. At every single map write, whatever fails, each lookup
      answers as the old rules would until the selector write and as the new ones would from then
      on; an abort leaves the old rules in force throughout, whatever was asked for. `clean` is
      what the agent never asks: that the clears and copies whose errors it ignores had their
      effect. While no write fails they have, and the sync succeeds exactly if every rule can be
      stored beside the ones before it. Behind the selector write, and for the agent's memory,
      this needs that no id is repeated. */
  method SyncUnderTraffic(h: Handlers, reqs: seq<Rule>)
    returns (ok: bool, clean: bool, ghost flip: nat, ghost cidr: seq<ShadowTables.Built>)
    requires h.Valid()
    modifies h, h.kernel, h.cidrMgr
    ensures (!ok || clean) && ShadowBuild.NoRepeat(reqs) ==> h.Valid()
    ensures h.kernel.reliable ==> clean && (ok <==> ShadowBuild.Buildable(reqs))
    ensures |old(h.kernel.log)| <= |h.kernel.log|
    ensures !ok ==> h.Config() == old(h.Config()) && (ShadowBuild.NoRepeat(reqs) ==> h.State() == old(h.State()))
    ensures !ok ==>
              AllAnswer(h.kernel.log, |old(h.kernel.log)|, |h.kernel.log|, ViewOf(old(h.kernel.maps)), old(h.State()),
                        old(h.cidrMgr.ids).Keys + ShadowBuild.AskedEnds(reqs))
    ensures ok && clean ==> HoldsRequest(h, reqs, cidr)
    ensures ok ==>
              && |old(h.kernel.log)| <= flip < |h.kernel.log|
              && AllAnswer(h.kernel.log, |old(h.kernel.log)|, flip, ViewOf(old(h.kernel.maps)), old(h.State()),
                           old(h.cidrMgr.ids).Keys + ShadowBuild.AskedEnds(reqs))
    ensures ok && clean && ShadowBuild.NoRepeat(reqs) ==>
              AllAnswer(h.kernel.log, flip, |h.kernel.log|, ViewOf(h.kernel.maps), h.State(),
                        old(h.cidrMgr.ids).Keys + ShadowBuild.AskedEnds(reqs))
  {
    hide AgentInv, Gated, ShadowBuild.AsAsked, ShadowBuild.Buildable, AtomicSync.Synced, AtomicSync.Aborted, AllInForce,
         ViewOf, Disjoint, ShadowBuild.NoRepeat, ShadowTables.DistinctBuilt, ShadowBuild.AskedEnds, WlBitsCover, Serves,
         AllAnswer, InForce, HoldsRequest, ShadowBuild.FromReqs, AtomicSync.KeptWords, ShadowBuild.Unkeyed,
         ShadowBuild.BuiltCidr, h.Valid, StepAtomic;
    ghost var a, c, v, before := h.State(), h.Config(), ViewOf(h.kernel.maps), h.kernel.log;
    ghost var ends := h.cidrMgr.ids.Keys + ShadowBuild.AskedEnds(reqs);
    ValidServes(h);
    ValidParts(h);
    var added, failed;
    ghost var t;
    ok, added, failed, clean, t := AtomicSync.DoAtomicSync(h, reqs);
    flip, cidr := t.flip, t.cidr;
    if ok {
      OldUntilFlip(before, h.kernel.log, flip, v, a, ViewOf(h.kernel.maps), h.cidrMgr.ids, ends);
    }
    if ok && clean {
      SyncedRequest(h, a, t, reqs);
      AtomicSync.SyncedKeepsIff(h, a, t, c, reqs);
      if ShadowBuild.NoRepeat(reqs) {
        ValidServes(h);
        ValidParts(h);
        StepAnswers(before, h.kernel.log, flip, v, a, ViewOf(h.kernel.maps), h.State(), ends);
      }
    } else if !ok {
      AbortAnswers(before, h.kernel.log, v, a, ends);
      if ShadowBuild.NoRepeat(reqs) {
        AtomicSync.FromNoRepeat(t.cidr, reqs, true);
      }
    }
  }
}
