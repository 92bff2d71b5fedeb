/** sync.go: DoAtomicSync, the zero-gap replacement of all rules. The new tables, built on the
    inactive sides, come into force with one selector write. */
module AtomicSync {
  import opened Rules
  import opened Bits
  import opened Combo
  import opened Prefixes
  import opened Requests
  import opened RuleTable
  import opened WlTable
  import opened CidrLookup
  import opened Kernel
  import opened CidrManager
  import opened Handlers
  import opened AgentConfig
  import opened CidrRules
  import opened ShadowBuild
  import opened ShadowTables
  import opened Views

  // ---- Giving references back ----

  /** The loops that release the CIDR ids of a whole rule map. */
  method ReleaseAll(m: Manager, rules: map<Id, Stored>, ghost v: View, ghost ends: set<Endpoint>)
    requires m.Valid() && m.kernel.maps.Sized() && ViewOf(m.kernel.maps) == v && m.ids.Keys <= ends
    requires forall e :: Ref(m.refs, e) >= UseCount(rules, e)
    modifies m, m.kernel
    ensures m.Valid() && m.kernel.maps == old(m.kernel.maps).(trie := m.ids)
    ensures forall e :: Ref(m.refs, e) == Ref(old(m.refs), e) - UseCount(rules, e)
    ensures Keeps(m.ids, old(m.ids))
    ensures AllInForce(old(m.kernel.log), m.kernel.log, v, m.ids, ends)
  {
    hide TrieLog, AllInForce, UseCount, Users, UsesN, Ends, TrieIds;
    ghost var refs, o := m.refs, m.kernel.maps;
    var rest := rules;
    NothingLogged(m.kernel.log, v, m.ids, ends);
    while rest != map[]
      invariant m.Valid() && m.kernel.maps == o.(trie := m.ids)
      invariant forall e :: Ref(m.refs, e) == Ref(refs, e) - UseCount(rules, e) + UseCount(rest, e)
      invariant Keeps(m.ids, old(m.ids)) && m.ids.Keys <= ends
      invariant AllInForce(old(m.kernel.log), m.kernel.log, v, m.ids, ends)
      decreases rest.Keys
    {
      var id :| id in rest;
      var stored := rest[id];
      forall e | e in Ends(stored) ensures e in m.ids {
        UsedIsCounted(rest, id, e);
        assert Ref(m.refs, e) > 0;
      }
      ghost var held, log, o' := m.ids, m.kernel.log, m.kernel.maps;
      ProperIds(m);
      ReleasePair(m, stored);
      TrieLogInForce(log, m.kernel.log, o', m.ids, held, v, m.ids, ends);
      InForceLower(old(m.kernel.log), log, v, held, m.ids, ends);
      InForceJoins(old(m.kernel.log), log, m.kernel.log, v, m.ids, ends);
      forall e ensures UseCount(rest - {id}, e) + UsesN(stored, e) == UseCount(rest, e) {
        UseCountDrop(rest, id, e);
      }
      rest := rest - {id};
    }
    forall e ensures UseCount(map[], e) == 0 {
      NobodyUses(e);
    }
  }

  lemma NobodyUses(e: Endpoint)
    ensures UseCount(map[], e) == 0
  {
    assert Users(map[], e) == {};
  }

  // ---- The shadow config ----

  /** The words that the sync does not own; it copies them without a look at errors. */
  predicate Kept(i: nat) { i in {1, 3, 4, 5, 8, 11} }

  /** The words that the sync writes for its new tables. */
  ghost predicate NewWords(c: seq<nat>, exact: Shadow, cidr: Shadow, side: Side) {
    && |c| == CONFIG_MAP_ENTRIES
    && c[RULE_BITMAP] == BitmapOf(exact.combo, |exact.combo|) && c[BLACKLIST_COUNT] == exact.count
    && c[CIDR_BITMAP] == BitmapOf(cidr.combo, |cidr.combo|) && c[CIDR_RULE_COUNT] == cidr.count
    && c[RULE_MAP_SELECTOR] == side.Number()
    && c[ANOMALY_RULE_COUNT] == AnomalyCount(exact.rules) + AnomalyCount(cidr.rules)
  }

  /** The words that the sync does not own are the same. */
  ghost predicate KeptWords(c: seq<nat>, o: seq<nat>) {
    |c| == |o| == CONFIG_MAP_ENTRIES && forall i: nat :: Kept(i) ==> c[i] == o[i]
  }

  /** The words of the other config array, which no lookup reads. */
  function ShadowWords(h: Handlers): seq<nat>
    reads h, h.kernel
  {
    h.kernel.maps.Config(h.activeSlot.Other())
  }

  /** One write to the inactive words. */
  method PutShadowWord(h: Handlers, idx: nat, word: nat,
                       ghost a: Agent, ghost v: View, ghost ends: set<Endpoint>, ghost before: seq<Maps>)
    returns (ok: bool)
    requires Undisturbed(h, a, v, ends) && AllInForce(before, h.kernel.log, v, a.ids, ends) && idx < CONFIG_MAP_ENTRIES
    modifies h.kernel
    ensures Undisturbed(h, a, v, ends) && AllInForce(before, h.kernel.log, v, a.ids, ends)
    ensures |old(ShadowWords(h))| == CONFIG_MAP_ENTRIES
    ensures h.kernel.maps == old(h.kernel.maps).WithConfig(h.activeSlot.Other(), ShadowWords(h))
    ensures ShadowWords(h) == if ok then old(ShadowWords(h))[idx := word] else old(ShadowWords(h))
    ensures h.kernel.reliable ==> ok
  {
    hide Undisturbed, AllInForce, InForce;
    UndisturbedInForce(h, a, v, ends);
    ghost var log := h.kernel.log;
    ok := h.kernel.PutWord(h.activeSlot.Other(), idx, word);
    ShadowWritten(h, a, v, ends);
    LogOneMore(before, log, h.kernel.maps, v, a.ids, ends);
  }

  /** The active words are copied over the inactive ones; errors are ignored. */
  method CopyWords(h: Handlers, ghost a: Agent, ghost v: View, ghost ends: set<Endpoint>, ghost before: seq<Maps>)
    returns (copied: bool)
    requires Undisturbed(h, a, v, ends) && AllInForce(before, h.kernel.log, v, a.ids, ends)
    modifies h.kernel
    ensures Undisturbed(h, a, v, ends) && AllInForce(before, h.kernel.log, v, a.ids, ends)
    ensures h.kernel.maps == old(h.kernel.maps).WithConfig(h.activeSlot.Other(), ShadowWords(h))
    ensures copied ==> KeptWords(ShadowWords(h), h.Config())
    ensures h.kernel.reliable ==> copied
  {
    hide Undisturbed, AllInForce, InForce;
    UndisturbedInForce(h, a, v, ends);
    copied := true;
    for i := 0 to CONFIG_MAP_ENTRIES
      invariant Undisturbed(h, a, v, ends) && AllInForce(before, h.kernel.log, v, a.ids, ends)
      invariant h.kernel.maps == old(h.kernel.maps).WithConfig(h.activeSlot.Other(), ShadowWords(h))
      invariant h.kernel.maps.Sized() && (h.kernel.reliable ==> copied)
      invariant copied ==> forall j: nat :: j < i && Kept(j) ==> ShadowWords(h)[j] == h.Config()[j]
    {
      var done := PutShadowWord(h, i, h.Config()[i], a, v, ends, before);
      if !done && Kept(i) {
        copied := false;
      }
    }
  }

  /** Some inactive words are overwritten, or the first error ends it. */
  method Overwrite(h: Handlers, updates: seq<(nat, nat)>,
                   ghost a: Agent, ghost v: View, ghost ends: set<Endpoint>, ghost before: seq<Maps>)
    returns (ok: bool)
    requires Undisturbed(h, a, v, ends) && AllInForce(before, h.kernel.log, v, a.ids, ends)
    requires forall i :: 0 <= i < |updates| ==> updates[i].0 < CONFIG_MAP_ENTRIES
    requires forall i, j :: 0 <= i < j < |updates| ==> updates[i].0 != updates[j].0
    modifies h.kernel
    ensures Undisturbed(h, a, v, ends) && AllInForce(before, h.kernel.log, v, a.ids, ends)
    ensures h.kernel.maps == old(h.kernel.maps).WithConfig(h.activeSlot.Other(), ShadowWords(h))
    ensures |ShadowWords(h)| == |old(ShadowWords(h))| == CONFIG_MAP_ENTRIES
    ensures ok ==> forall i :: 0 <= i < |updates| ==> ShadowWords(h)[updates[i].0] == updates[i].1
    ensures forall j: nat :: j < CONFIG_MAP_ENTRIES && (forall i :: 0 <= i < |updates| ==> updates[i].0 != j) ==>
              ShadowWords(h)[j] == old(ShadowWords(h))[j]
    ensures h.kernel.reliable ==> ok
  {
    hide Undisturbed, AllInForce, InForce;
    UndisturbedInForce(h, a, v, ends);
    for n := 0 to |updates|
      invariant Undisturbed(h, a, v, ends) && AllInForce(before, h.kernel.log, v, a.ids, ends)
      invariant h.kernel.maps == old(h.kernel.maps).WithConfig(h.activeSlot.Other(), ShadowWords(h))
      invariant h.kernel.maps.Sized()
      invariant forall i :: 0 <= i < n ==> ShadowWords(h)[updates[i].0] == updates[i].1
      invariant forall j: nat :: j < CONFIG_MAP_ENTRIES && (forall i :: 0 <= i < |updates| ==> updates[i].0 != j) ==>
                  ShadowWords(h)[j] == old(ShadowWords(h))[j]
    {
      ok := PutShadowWord(h, updates[n].0, updates[n].1, a, v, ends, before);
      if !ok {
        return;
      }
    }
    ok := true;
  }

  /** The six words of the new tables, by their indices. */
  lemma SixWords(c: seq<nat>, updates: seq<(nat, nat)>, exact: Shadow, cidr: Shadow, side: Side)
    requires |c| == CONFIG_MAP_ENTRIES
    requires forall i :: 0 <= i < |updates| ==> updates[i].0 < |c| && c[updates[i].0] == updates[i].1
    requires updates == [(RULE_BITMAP, BitmapOf(exact.combo, |exact.combo|)), (BLACKLIST_COUNT, exact.count),
                         (CIDR_BITMAP, BitmapOf(cidr.combo, |cidr.combo|)), (CIDR_RULE_COUNT, cidr.count),
                         (RULE_MAP_SELECTOR, side.Number()),
                         (ANOMALY_RULE_COUNT, AnomalyCount(exact.rules) + AnomalyCount(cidr.rules))]
    ensures NewWords(c, exact, cidr, side)
  {
    hide BitmapOf, AnomalyCount;
    assert updates[0].0 == RULE_BITMAP && updates[1].0 == BLACKLIST_COUNT && updates[2].0 == CIDR_BITMAP;
    assert updates[3].0 == CIDR_RULE_COUNT && updates[4].0 == RULE_MAP_SELECTOR && updates[5].0 == ANOMALY_RULE_COUNT;
  }

  method WriteShadowConfig(h: Handlers, exact: Shadow, cidr: Shadow,
                           ghost a: Agent, ghost v: View, ghost ends: set<Endpoint>, ghost before: seq<Maps>)
    returns (ok: bool, copied: bool)
    requires Undisturbed(h, a, v, ends) && AllInForce(before, h.kernel.log, v, a.ids, ends)
    modifies h.kernel
    ensures Undisturbed(h, a, v, ends) && AllInForce(before, h.kernel.log, v, a.ids, ends)
    ensures h.kernel.maps == old(h.kernel.maps).WithConfig(h.activeSlot.Other(), ShadowWords(h))
    ensures ok ==> NewWords(ShadowWords(h), exact, cidr, h.activeRuleSlot.Other())
    ensures ok && copied ==> KeptWords(ShadowWords(h), h.Config())
    ensures h.kernel.reliable ==> ok && copied
  {
    hide Undisturbed, AllInForce, InForce, BitmapOf, AnomalyCount, NewWords;
    copied := CopyWords(h, a, v, ends, before);
    var bitmap := RebuildBitmap(exact.combo);
    var cidrBitmap := RebuildBitmap(cidr.combo);
    var anomalyCount := CountAnomalyRules(exact.rules, cidr.rules);
    var newRuleMapSel := h.activeRuleSlot.Other();
    var updates := [(RULE_BITMAP, bitmap), (BLACKLIST_COUNT, exact.count), (CIDR_BITMAP, cidrBitmap),
                    (CIDR_RULE_COUNT, cidr.count), (RULE_MAP_SELECTOR, newRuleMapSel.Number()),
                    (ANOMALY_RULE_COUNT, anomalyCount)];
    ok := Overwrite(h, updates, a, v, ends, before);
    if ok {
      SixWords(ShadowWords(h), updates, exact, cidr, newRuleMapSel);
    }
  }

  // ---- The whole ----

  /** Nothing but references may differ from a, and those by what the items took over what
      their id map gave back. */
  ghost predicate Aborted(h: Handlers, a: Agent, left: map<Key, RuleValue>, items: seq<Built>)
    reads h, h.kernel, h.cidrMgr
  {
    && h.Sound() && h.Exact() == a.exact && h.Cidr() == a.cidr && h.Wl() == a.wl
    && Keeps(a.ids, h.cidrMgr.ids)
    && forall e ::
         Ref(h.cidrMgr.refs, e) == Ref(a.refs, e) + UsesIn(items, e) - UseCount(PutAll(Leftover(left), items).rules, e)
  }

  /** A change of the tries and references is a change of nothing else. */
  twostate lemma OnlyTriesChanged(h: Handlers, new a: Agent, new v: View, new ends: set<Endpoint>)
    requires old(Undisturbed(h, a, v, ends)) && unchanged(h) && h.cidrMgr.Valid()
    requires h.kernel.maps == old(h.kernel.maps).(trie := h.cidrMgr.ids)
    ensures h.Sound() && h.Exact() == a.exact && h.Cidr() == a.cidr && h.Wl() == a.wl && h.Config() == old(h.Config())
  {
    hide ViewOf, Keeps;
  }

  /** Giving back references keeps the ids of the prefixes that are still referenced. */
  lemma StillHeld(low: Trie, held: Trie, ids: Trie, refs: Refs)
    requires Keeps(low, held) && Keeps(ids, held) && ids.Keys == refs.Keys
    requires forall e :: e in low ==> Ref(refs, e) > 0
    ensures Keeps(low, ids) && forall e :: e in ids && e in low ==> ids[e] == low[e]
  {
  }

  /** The abort paths. */
  method Abort(h: Handlers, rules: map<Id, Stored>, ghost left: map<Key, RuleValue>, ghost items: seq<Built>,
               ghost a: Agent, ghost v: View, ghost ends: set<Endpoint>, ghost before: seq<Maps>)
    requires Undisturbed(h, a, v, ends) && AllInForce(before, h.kernel.log, v, a.ids, ends)
    requires Referenced(h.cidrMgr, a, items) && rules == PutAll(Leftover(left), items).rules
    requires a.ids.Keys == a.refs.Keys && forall e :: e in a.refs ==> a.refs[e] > 0
    modifies h.kernel, h.cidrMgr
    ensures Aborted(h, a, left, items) && h.Config() == old(h.Config())
    ensures AllInForce(before, h.kernel.log, v, a.ids, ends)
    ensures DistinctBuilt(items) ==> h.State() == a
  {
    hide AllInForce, UseCount, Users, UsesIn, PutAll, Undisturbed, Keeps, DistinctBuilt, h.Sound;
    UndisturbedInForce(h, a, v, ends);
    UndisturbedIds(h, a, v, ends);
    forall e ensures UsesIn(items, e) >= UseCount(rules, e) { UsesAtLeast(left, items, e); }
    ghost var log, held := h.kernel.log, h.cidrMgr.ids;
    ReleaseAll(h.cidrMgr, rules, v, ends);
    StillHeld(a.ids, held, h.cidrMgr.ids, h.cidrMgr.refs);
    OnlyTriesChanged(h, a, v, ends);
    InForceLower(log, h.kernel.log, v, h.cidrMgr.ids, a.ids, ends);
    InForceJoins(before, log, h.kernel.log, v, a.ids, ends);
    if DistinctBuilt(items) {
      forall e ensures Ref(h.cidrMgr.refs, e) == Ref(a.refs, e) { UsesOfDistinct(left, items, e); }
      SameContents(h.cidrMgr.ids, h.cidrMgr.refs, a.ids, a.refs);
    }
  }

  /** The rule maps of a side are empty. */
  predicate NoRules(m: Maps, side: Side) {
    m.Blacklist(side) == map[] && m.CidrBlacklist(side) == map[]
  }

  /** The old rules' references are given back and their maps, no longer active, are cleared. */
  method RetireOld(m: Manager, oldCidrRules: map<Id, Stored>, side: Side, ghost v: View, ghost ends: set<Endpoint>)
    requires m.Valid() && m.ids.Keys <= ends
    requires m.kernel.maps.Sized() && ViewOf(m.kernel.maps) == v && m.kernel.maps.RuleSide() == side
    requires forall e :: Ref(m.refs, e) >= UseCount(oldCidrRules, e)
    modifies m, m.kernel
    ensures m.Valid() && Keeps(m.ids, old(m.ids))
    ensures forall e :: Ref(m.refs, e) == Ref(old(m.refs), e) - UseCount(oldCidrRules, e)
    ensures AfterFlip(m.kernel.maps, old(m.kernel.maps), side)
    ensures m.kernel.reliable ==> NoRules(m.kernel.maps, side.Other())
    ensures AllInForce(old(m.kernel.log), m.kernel.log, v, m.ids, ends)
  {
    hide AllInForce, UseCount, TrieIds, ViewOf, InForce;
    ghost var o, log := m.kernel.maps, m.kernel.log;
    ReleaseAll(m, oldCidrRules, v, ends);
    ghost var log1 := m.kernel.log;
    ManagedInForce(m, o, v, ends);
    ClearBoth(m.kernel, side.Other(), v, m.ids, ends);
    InForceJoins(log, log1, m.kernel.log, v, m.ids, ends);
  }

  /** Steps 5 and 6, after the selector has been written: memory, the old references, the old
      maps. Lookups read the new view throughout. */
  method Commit(h: Handlers, exact: Shadow, cidr: Shadow, ghost v: View, ghost ends: set<Endpoint>)
    requires h.cidrMgr.kernel == h.kernel && h.cidrMgr.Valid() && h.cidrMgr.ids.Keys <= ends
    requires h.kernel.maps.Sized() && ViewOf(h.kernel.maps) == v && h.kernel.maps.RuleSide() == h.activeRuleSlot
    requires forall e :: Ref(h.cidrMgr.refs, e) >= UseCount(h.cidrRules, e)
    modifies h`rules, h`ruleKeyIndex, h`comboRefCount, h`cidrRules, h`cidrRuleKeyIndex, h`cidrComboRefCount, h.kernel,
             h.cidrMgr
    ensures h.rules == exact.rules && h.ruleKeyIndex == exact.index && h.comboRefCount == exact.combo
    ensures h.cidrRules == cidr.rules && h.cidrRuleKeyIndex == cidr.index && h.cidrComboRefCount == cidr.combo
    ensures h.cidrMgr.Valid() && Keeps(h.cidrMgr.ids, old(h.cidrMgr.ids))
    ensures forall e :: Ref(h.cidrMgr.refs, e) == Ref(old(h.cidrMgr.refs), e) - UseCount(old(h.cidrRules), e)
    ensures AfterFlip(h.kernel.maps, old(h.kernel.maps), h.activeRuleSlot)
    ensures h.kernel.reliable ==> NoRules(h.kernel.maps, h.activeRuleSlot.Other())
    ensures AllInForce(old(h.kernel.log), h.kernel.log, v, h.cidrMgr.ids, ends)
  {
    hide AllInForce, UseCount, TrieIds, ViewOf, AfterFlip, Keeps;
    var oldCidrRules := h.cidrRules;
    h.rules, h.ruleKeyIndex, h.comboRefCount := exact.rules, exact.index, exact.combo;
    h.cidrRules, h.cidrRuleKeyIndex, h.cidrComboRefCount := cidr.rules, cidr.index, cidr.combo;
    RetireOld(h.cidrMgr, oldCidrRules, h.activeRuleSlot, v, ends);
  }

  lemma ManagedInForce(m: Manager, o: Maps, v: View, ends: set<Endpoint>)
    requires m.Valid() && o.Sized() && ViewOf(o) == v && m.ids.Keys <= ends
    requires m.kernel.maps == o.(trie := m.ids)
    ensures InForce(m.kernel.maps, v, m.ids, ends) && m.kernel.maps.RuleSide() == o.RuleSide()
  {
  }

  /** m is o except for the tries and the rule maps that are no longer active. */
  predicate AfterFlip(m: Maps, o: Maps, side: Side) {
    m == o.WithBlacklist(side.Other(), m.Blacklist(side.Other()))
          .WithCidrBlacklist(side.Other(), m.CidrBlacklist(side.Other())).(trie := m.trie)
  }

  /** How a sync went: what it stored, what the clears had left on the inactive side, whether
      every copy of a config word that the sync does not own succeeded, and how long the log
      was when the selector was written. */
  datatype SyncTrace = SyncTrace(exact: seq<Built>, cidr: seq<Built>, leftExact: map<Key, RuleValue>,
                                 leftCidr: map<Key, RuleValue>, copied: bool, flip: nat)

  /** No id twice, and nothing left over by the clears. */
  ghost predicate CleanSync(t: SyncTrace) {
    DistinctBuilt(t.exact) && DistinctBuilt(t.cidr) && t.leftExact == map[] && t.leftCidr == map[]
  }

  /** The references and ids after a sync without a repeated id. */
  lemma SyncedRefs(a: Agent, left: map<Key, RuleValue>, items: seq<Built>, held: Trie, ids: Trie, refs: Refs)
    requires RefsConserved(a.refs, a.cidr.rules) && DistinctBuilt(items)
    requires forall e :: Ref(refs, e) == Ref(a.refs, e) + UsesIn(items, e) - UseCount(a.cidr.rules, e)
    requires forall i :: 0 <= i < |items| ==> Keyed(items[i].stored, held)
    requires Keeps(ids, held) && ids.Keys == refs.Keys
    ensures RefsConserved(refs, PutAll(Leftover(left), items).rules)
    ensures AllKeyed(PutAll(Leftover(left), items).rules, ids)
  {
    hide UseCount, Users, UsesIn, PutAll, Keyed;
    var rules := PutAll(Leftover(left), items).rules;
    forall e ensures Ref(refs, e) == UseCount(rules, e) { UsesOfDistinct(left, items, e); }
    forall id | id in rules ensures Keyed(rules[id], held) { BuiltFrom(left, items, id); }
    UsedStayKeyed(rules, held, ids, refs);
  }

  /** The new words gate the new tables, and exactly. */
  lemma SyncedGates(c: seq<nat>, exact: Shadow, cidr: Shadow, side: Side, t: Table, u: Table, wl: map<Id, Key>)
    requires NewWords(c, exact, cidr, side) && TableInv(t) && TableInv(u) && c[WHITELIST_COUNT] >= |wl|
    requires t.rules == exact.rules && t.combo == exact.combo && exact.count == |t.rules|
    requires u.rules == cidr.rules && u.combo == cidr.combo && cidr.count == |u.rules|
    ensures Gated(c, t.rules, u.rules, wl)
    ensures BitsExact(c[RULE_BITMAP], t.rules) && BitsExact(c[CIDR_BITMAP], u.rules)
  {
    hide BitsExact, BitsCover, Inverse, Mirrors, Usable, AnomalyCount, BitmapOf;
    RebuiltBits(t.rules, t.combo);
    RebuiltBits(u.rules, u.combo);
  }

  /** The selector write. */
  method FlipSelector(h: Handlers, exact: Shadow, cidr: Shadow, ghost a: Agent, ghost v: View,
                      ghost ends: set<Endpoint>,
                      ghost before: seq<Maps>)
    returns (ok: bool)
    requires Undisturbed(h, a, v, ends) && AllInForce(before, h.kernel.log, v, a.ids, ends)
    requires NewWords(h.kernel.maps.Config(h.activeSlot.Other()), exact, cidr, h.activeRuleSlot.Other())
    modifies h`activeSlot, h`activeRuleSlot, h.kernel
    ensures !ok ==> unchanged(h) && Undisturbed(h, a, v, ends) && AllInForce(before, h.kernel.log, v, a.ids, ends)
    ensures !ok ==> h.kernel.maps == old(h.kernel.maps)
    ensures ok ==> h.activeSlot == old(h.activeSlot).Other() && h.activeRuleSlot == old(h.activeRuleSlot).Other()
    ensures ok ==> h.kernel.maps == old(h.kernel.maps).(selector := h.activeSlot.Number())
    ensures ok ==> h.kernel.maps.Sized() && h.kernel.maps.RuleSide() == h.activeRuleSlot
    ensures h.kernel.log == old(h.kernel.log) + [h.kernel.maps]
    ensures h.kernel.reliable ==> ok
  {
    hide AllInForce, InForce;
    UndisturbedInForce(h, a, v, ends);
    ghost var log := h.kernel.log;
    var newSlot := h.activeSlot.Other();
    ok := h.kernel.Do(Select(newSlot.Number()));
    if ok {
      h.activeSlot := newSlot;
      h.activeRuleSlot := h.activeRuleSlot.Other();
    } else {
      LogOneMore(before, log, h.kernel.maps, v, a.ids, ends);
    }
  }

  /** What a completed sync has done, whatever it was given. */
  ghost predicate Synced(h: Handlers, a: Agent, t: SyncTrace)
    reads h, h.kernel, h.cidrMgr
  {
    && h.cidrMgr.kernel == h.kernel && h.cidrMgr.Valid() && h.kernel.maps.Sized()
    && h.kernel.maps.selector == h.activeSlot.Number()
    && h.Exact() == PutAll(Leftover(t.leftExact), t.exact) && h.Cidr() == PutAll(Leftover(t.leftCidr), t.cidr)
    && h.Wl() == a.wl
    && FreshKeys(t.exact, t.leftExact) && FreshKeys(t.cidr, t.leftCidr)
    && NewWords(h.Config(), Shadow(h.rules, h.ruleKeyIndex, h.comboRefCount, |t.exact|),
                Shadow(h.cidrRules, h.cidrRuleKeyIndex, h.cidrComboRefCount, |t.cidr|), h.activeRuleSlot)
    && (forall e :: e in a.ids && e in h.cidrMgr.ids ==> a.ids[e] == h.cidrMgr.ids[e])
    && exists held :: Keeps(a.ids, held) && RefsAfter(h.cidrMgr, a, t.cidr, held)
  }

  ghost predicate RefsAfter(m: Manager, a: Agent, items: seq<Built>, held: Trie)
    reads m
  {
    && Keeps(m.ids, held)
    && (forall i :: 0 <= i < |items| ==> Keyed(items[i].stored, held))
    && forall e :: Ref(m.refs, e) == Ref(a.refs, e) + UsesIn(items, e) - UseCount(a.cidr.rules, e)
  }

  /** After a sync whose copies all succeeded the agent's invariant holds exactly when no id was
      sent twice and the clears had left nothing behind. */
  lemma SyncedValidIff(h: Handlers, a: Agent, t: SyncTrace, c: seq<nat>)
    requires Synced(h, a, t) && AgentInv(a) && KeptWords(h.Config(), c) && c[WHITELIST_COUNT] >= |a.wl.entries|
    requires c[WL_MAP_SELECTOR] == h.activeWLSlot.Number()
    ensures h.Valid() <==> CleanSync(t)
    ensures CleanSync(t) ==>
              BitsExact(h.Config()[RULE_BITMAP], h.rules) && BitsExact(h.Config()[CIDR_BITMAP], h.cidrRules)
    ensures CleanSync(t) ==> h.Config()[BLACKLIST_COUNT] == |h.rules| && h.Config()[CIDR_RULE_COUNT] == |h.cidrRules|
  {
    hide TableInv, Gated, BitsExact, AllKeyed, RefsConserved, WlInv, UsesIn, UseCount, PutAll, Keyed, FreshKeys,
         AnomalyCount, BitmapOf;
    BuiltInvIff(t.exact, t.leftExact);
    BuiltInvIff(t.cidr, t.leftCidr);
    if CleanSync(t) {
      var held :| Keeps(a.ids, held) && RefsAfter(h.cidrMgr, a, t.cidr, held);
      SyncedRefs(a, t.leftCidr, t.cidr, held, h.cidrMgr.ids, h.cidrMgr.refs);
      assert Leftover(map[]) == EMPTY;
      DistinctKeepsInv(t.exact);
      DistinctKeepsInv(t.cidr);
      SyncedGates(h.Config(), Shadow(h.rules, h.ruleKeyIndex, h.comboRefCount, |t.exact|),
                  Shadow(h.cidrRules, h.cidrRuleKeyIndex, h.cidrComboRefCount, |t.cidr|), h.activeRuleSlot,
                  h.Exact(), h.Cidr(), h.wlEntries);
    }
  }

  lemma ShownRules(s: Shadow, live: map<Key, RuleValue>, left: map<Key, RuleValue>, items: seq<Built>)
    requires Shows(s, live, left, items)
    ensures s.rules == PutAll(Leftover(left), items).rules && s.count == |items| && FreshKeys(items, left)
    ensures Table(s.rules, s.index, s.combo, live) == PutAll(Leftover(left), items)
  {
  }

  /** Steps 5 and 6 make the built tables the agent's. */
  method Settle(h: Handlers, exact: Shadow, cidr: Shadow, ghost t: SyncTrace, ghost a: Agent, ghost ends: set<Endpoint>)
    requires h.cidrMgr.kernel == h.kernel && h.cidrMgr.Valid() && Keeps(a.ids, h.cidrMgr.ids)
    requires h.cidrMgr.ids.Keys <= ends
    requires h.kernel.maps.Sized() && h.kernel.maps.RuleSide() == h.activeRuleSlot
    requires h.kernel.maps.selector == h.activeSlot.Number()
    requires h.cidrRules == a.cidr.rules && h.Wl() == a.wl && RefsConserved(a.refs, a.cidr.rules)
    requires NewWords(h.Config(), exact, cidr, h.activeRuleSlot)
    requires Shows(exact, h.kernel.maps.Blacklist(h.activeRuleSlot), t.leftExact, t.exact)
    requires Shows(cidr, h.kernel.maps.CidrBlacklist(h.activeRuleSlot), t.leftCidr, t.cidr)
    requires Referenced(h.cidrMgr, a, t.cidr)
    modifies h`rules, h`ruleKeyIndex, h`comboRefCount, h`cidrRules, h`cidrRuleKeyIndex, h`cidrComboRefCount, h.kernel,
             h.cidrMgr
    ensures Synced(h, a, t) && h.Config() == old(h.Config()) && ViewOf(h.kernel.maps) == old(ViewOf(h.kernel.maps))
    ensures AllInForce(old(h.kernel.log), h.kernel.log, ViewOf(h.kernel.maps), h.cidrMgr.ids, ends)
    ensures Keeps(h.cidrMgr.ids, old(h.cidrMgr.ids))
    ensures h.kernel.reliable ==> NoRules(h.kernel.maps, h.activeRuleSlot.Other())
  {
    hide AllInForce, InForce, UseCount, UsesIn, PutAll, Keyed, FreshKeys, NewWords, Shows, ViewOf, NoRules;
    ghost var m, held := h.kernel.maps, h.cidrMgr.ids;
    Commit(h, exact, cidr, ViewOf(m), ends);
    AfterFlipView(h.kernel.maps, m, h.activeRuleSlot);
    ShownRules(exact, h.kernel.maps.Blacklist(h.activeRuleSlot), t.leftExact, t.exact);
    ShownRules(cidr, h.kernel.maps.CidrBlacklist(h.activeRuleSlot), t.leftCidr, t.cidr);
    assert RefsAfter(h.cidrMgr, a, t.cidr, held);
  }

  /** Steps 4 to 6. */
  method Install(h: Handlers, exact: Shadow, cidr: Shadow, ghost t: SyncTrace, ghost a: Agent, ghost v: View,
                 ghost ends: set<Endpoint>, ghost before: seq<Maps>)
    returns (ok: bool)
    requires Undisturbed(h, a, v, ends) && AllInForce(before, h.kernel.log, v, a.ids, ends)
    requires NewWords(h.kernel.maps.Config(h.activeSlot.Other()), exact, cidr, h.activeRuleSlot.Other())
    requires Shows(exact, h.kernel.maps.Blacklist(h.activeRuleSlot.Other()), t.leftExact, t.exact)
    requires Shows(cidr, h.kernel.maps.CidrBlacklist(h.activeRuleSlot.Other()), t.leftCidr, t.cidr)
    requires Referenced(h.cidrMgr, a, t.cidr) && RefsConserved(a.refs, a.cidr.rules)
    modifies h, h.kernel, h.cidrMgr
    ensures !ok ==> unchanged(h) && unchanged(h.cidrMgr) && h.kernel.maps == old(h.kernel.maps)
                    && Undisturbed(h, a, v, ends) && AllInForce(before, h.kernel.log, v, a.ids, ends)
    ensures ok ==> Synced(h, a, t) && h.Config() == old(h.kernel.maps.Config(h.activeSlot.Other()))
                   && h.activeWLSlot == old(h.activeWLSlot)
    ensures ok ==> StepAtomic(before, h.kernel.log, |old(h.kernel.log)|, v, a.ids, ViewOf(h.kernel.maps),
                              h.cidrMgr.ids, ends)
    ensures h.kernel.reliable ==> ok && NoRules(h.kernel.maps, h.activeRuleSlot.Other())
  {
    hide AllInForce, InForce, RefsConserved, NewWords, Shows, Referenced, StepAtomic, ViewOf, Synced, NoRules;
    ghost var log, held := h.kernel.log, h.cidrMgr.ids;
    ok := FlipSelector(h, exact, cidr, a, v, ends, before);
    if !ok { return; }
    ghost var m := h.kernel.maps;
    HeldInForce(h.cidrMgr, m, ends);
    Settle(h, exact, cidr, t, a, ends);
    FlipLogged(before, log, m, h.kernel.log, v, a.ids, ViewOf(m), held, h.cidrMgr.ids, ends);
  }

  lemma HeldInForce(m: Manager, maps: Maps, ends: set<Endpoint>)
    requires m.Valid() && maps == m.kernel.maps && maps.Sized() && m.ids.Keys <= ends
    ensures InForce(maps, ViewOf(maps), m.ids, ends)
  {
  }

  lemma AfterFlipView(m: Maps, o: Maps, side: Side)
    requires AfterFlip(m, o, side) && o.Sized() && o.RuleSide() == side
    ensures m.Sized() && ViewOf(m) == ViewOf(o)
  {
  }

  lemma Begins(h: Handlers, ends: set<Endpoint>)
    requires h.Valid() && h.cidrMgr.ids.Keys <= ends
    ensures Undisturbed(h, h.State(), ViewOf(h.kernel.maps), ends)
    ensures h.cidrMgr.ids.Keys == h.cidrMgr.refs.Keys && forall e :: e in h.cidrMgr.refs ==> h.cidrMgr.refs[e] > 0
  {
    hide ViewOf, AgentInv, Gated;
    KeepsSelf(h.cidrMgr.ids);
    ManagedKeys(h.cidrMgr);
  }

  /** An abort leaves the agent's invariant as it was exactly if it gave back all references,
      which it did exactly if the CIDR rules built so far had distinct ids. */
  lemma AbortedValidIff(h: Handlers, a: Agent, c: seq<nat>, left: map<Key, RuleValue>, items: seq<Built>)
    requires Aborted(h, a, left, items) && h.Config() == c && OnPrefixes(items)
    requires AgentInv(a) && Gated(c, a.exact.rules, a.cidr.rules, a.wl.entries)
    requires DistinctBuilt(items) ==> h.State() == a
    ensures h.Valid() <==> h.State() == a
    ensures h.State() == a <==> DistinctBuilt(items)
  {
    hide TableInv, WlInv, AllKeyed, Gated, UseCount, UsesIn, PutAll, Keeps, h.Sound, DistinctBuilt;
    AbortBalancesIff(left, items);
    if h.Valid() || h.State() == a {
      forall e
        ensures UsesIn(items, e) == UseCount(PutAll(Leftover(left), items).rules, e)
      {
        assert Ref(h.cidrMgr.refs, e) == UseCount(a.cidr.rules, e) == Ref(a.refs, e);
      }
    }
  }

  /** Any of the three ways in which a sync is given up. */
  method GiveUp(h: Handlers, rules: map<Id, Stored>, ghost left: map<Key, RuleValue>, ghost items: seq<Built>,
                ghost a: Agent, ghost c: seq<nat>, ghost v: View, ghost ends: set<Endpoint>, ghost before: seq<Maps>)
    requires Undisturbed(h, a, v, ends) && AllInForce(before, h.kernel.log, v, a.ids, ends) && h.Config() == c
    requires Referenced(h.cidrMgr, a, items) && rules == PutAll(Leftover(left), items).rules && OnPrefixes(items)
    requires a.ids.Keys == a.refs.Keys && forall e :: e in a.refs ==> a.refs[e] > 0
    requires AgentInv(a) && Gated(c, a.exact.rules, a.cidr.rules, a.wl.entries)
    modifies h.kernel, h.cidrMgr
    ensures Aborted(h, a, left, items) && h.Config() == c
    ensures AllInForce(before, h.kernel.log, v, a.ids, ends)
    ensures h.Valid() <==> h.State() == a
    ensures h.State() == a <==> DistinctBuilt(items)
  {
    hide AllInForce, Undisturbed, Referenced, PutAll, DistinctBuilt, AgentInv, Gated, Aborted, OnPrefixes;
    Abort(h, rules, left, items, a, v, ends, before);
    AbortedValidIff(h, a, c, left, items);
  }

  lemma CidrFromReqs(items: seq<Built>, reqs: seq<Rule>)
    requires FromReqs(items, reqs, true)
    ensures OnPrefixes(items)
  {
  }

  lemma FromNoRepeat(items: seq<Built>, reqs: seq<Rule>, cidr: bool)
    requires FromReqs(items, reqs, cidr) && NoRepeat(reqs)
    ensures DistinctBuilt(items)
  {
  }

  /** DoAtomicSync. Throughout, lookups read what they read before, until the one selector write;
      from then on they read the new tables. An abort changes nothing but the inactive sides, and
      references exactly if CIDR rules built so far share an id. `clean` reports what the agent never asks:
      that the two clears and the config copies whose errors it ignores had their effect. Unless a
      write fails, they had, and the sync succeeds exactly if every rule can be stored beside
      the ones before it. */
  method DoAtomicSync(h: Handlers, reqs: seq<Rule>)
    returns (ok: bool, added: nat, failed: nat, clean: bool, ghost t: SyncTrace)
    requires h.Valid()
    modifies h, h.kernel, h.cidrMgr
    ensures added + failed == |reqs|
    ensures FromReqs(t.exact, reqs, false) && FromReqs(t.cidr, reqs, true)
    ensures ok ==> failed == 0 && AsAsked(reqs, t.exact, t.cidr) && Synced(h, old(h.State()), t)
    ensures ok ==> (clean <==> t.copied && t.leftExact == map[] && t.leftCidr == map[])
    ensures ok ==> h.activeWLSlot == old(h.activeWLSlot)
    ensures ok && h.kernel.reliable ==> NoRules(h.kernel.maps, h.activeRuleSlot.Other())
    ensures ok && t.copied ==> KeptWords(h.Config(), old(h.Config()))
    ensures ok ==> StepAtomic(old(h.kernel.log), h.kernel.log, t.flip, ViewOf(old(h.kernel.maps)), old(h.cidrMgr.ids),
                              ViewOf(h.kernel.maps), h.cidrMgr.ids, old(h.cidrMgr.ids).Keys + AskedEnds(reqs))
    ensures !ok ==> Aborted(h, old(h.State()), t.leftCidr, t.cidr) && h.Config() == old(h.Config())
    ensures !ok ==> AllInForce(old(h.kernel.log), h.kernel.log, ViewOf(old(h.kernel.maps)), old(h.cidrMgr.ids),
                               old(h.cidrMgr.ids).Keys + AskedEnds(reqs))
    ensures !ok ==> (h.Valid() <==> h.State() == old(h.State()))
    ensures !ok ==> (h.State() == old(h.State()) <==> DistinctBuilt(t.cidr))
    ensures h.kernel.reliable ==> clean && (ok <==> Buildable(reqs)) && Unkeyed(t.cidr) == BuiltCidr(reqs)
  {
    hide AllInForce, InForce, UseCount, Users, UsesIn, PutAll, AskedEnds, AsAsked, Buildable, Keyed, FreshKeys,
         NewWords, Shows, AgentInv, Gated, StepAtomic, ViewOf, Synced, Aborted, KeptWords, Keeps, Consistent,
         Undisturbed, Referenced, DistinctBuilt, FromReqs, OnPrefixes, Unkeyed, BuiltCidr, NoRules;
    var k, side := h.kernel, h.activeRuleSlot.Other();
    ghost var a, c, v, before := h.State(), h.Config(), ViewOf(k.maps), k.log;
    ghost var ends := h.cidrMgr.ids.Keys + AskedEnds(reqs);
    AgentParts(a);
    Begins(h, ends);
    UndisturbedInForce(h, a, v, ends);
    label Start:
    ClearBoth(k, side, v, a.ids, ends);
    ShadowWritten@Start(h, a, v, ends);
    t := SyncTrace([], [], k.maps.Blacklist(side), k.maps.CidrBlacklist(side), false, 0);
    clean := k.maps.Blacklist(side) == map[] && k.maps.CidrBlacklist(side) == map[];
    var exact, cidr;
    ghost var exactItems, cidrItems;
    exact, cidr, added, failed, exactItems, cidrItems := BuildAll(h, reqs, t.leftExact, t.leftCidr, a, v, ends, before);
    t := t.(exact := exactItems, cidr := cidrItems);
    ShownRules(cidr, k.maps.CidrBlacklist(side), t.leftCidr, t.cidr);
    CidrFromReqs(t.cidr, reqs);
    UndisturbedInForce(h, a, v, ends);
    if failed > 0 {
      GiveUp(h, cidr.rules, t.leftCidr, t.cidr, a, c, v, ends, before);
      return false, added, failed, clean, t;
    }
    var copied;
    ok, copied := WriteShadowConfig(h, exact, cidr, a, v, ends, before);
    t := t.(copied := copied, flip := |k.log|);
    clean := clean && copied;
    if !ok {
      GiveUp(h, cidr.rules, t.leftCidr, t.cidr, a, c, v, ends, before);
      return;
    }
    ok := Install(h, exact, cidr, t, a, v, ends, before);
    if !ok {
      GiveUp(h, cidr.rules, t.leftCidr, t.cidr, a, c, v, ends, before);
    }
  }

  // ---- Repeated ids ----

  /** When everything asked for was stored, the ids are distinct exactly if none is repeated. */
  lemma CleanIff(t: SyncTrace, reqs: seq<Rule>)
    requires AsAsked(reqs, t.exact, t.cidr) && FromReqs(t.exact, reqs, false) && FromReqs(t.cidr, reqs, true)
    ensures CleanSync(t) <==> NoRepeat(reqs) && t.leftExact == map[] && t.leftCidr == map[]
  {
    hide ExactItems, CidrItems, Unkeyed, Acceptable, NoRepeat, DistinctBuilt, FromReqs;
    UnkeyedDistinct(t.cidr);
    if NoRepeat(reqs) {
      FromNoRepeat(t.exact, reqs, false);
      FromNoRepeat(t.cidr, reqs, true);
    } else if CleanSync(t) {
      DistinctMeansNoRepeat(reqs);
    }
  }

  /** A sync that came into force, and whose ignored errors did no harm, keeps the invariant
      exactly if no id is repeated among the exact rules of the request and none among its CIDR rules. */
  lemma SyncedKeepsIff(h: Handlers, a: Agent, t: SyncTrace, c: seq<nat>, reqs: seq<Rule>)
    requires Synced(h, a, t) && AgentInv(a) && KeptWords(h.Config(), c)
    requires Gated(c, a.exact.rules, a.cidr.rules, a.wl.entries)
    requires c[WL_MAP_SELECTOR] == h.activeWLSlot.Number() && t.leftExact == map[] && t.leftCidr == map[]
    requires AsAsked(reqs, t.exact, t.cidr) && FromReqs(t.exact, reqs, false) && FromReqs(t.cidr, reqs, true)
    ensures h.Valid() <==> NoRepeat(reqs)
    ensures h.Wl() == a.wl
  {
    hide AgentInv, Gated, AsAsked, NoRepeat, DistinctBuilt, FromReqs, CleanSync, KeptWords, h.Valid, FreshKeys,
         NewWords, PutAll;
    GatedCounts(c, a.exact.rules, a.cidr.rules, a.wl.entries);
    SyncedValidIff(h, a, t, c);
    CleanIff(t, reqs);
  }

  /** If the words described the old rules and the whitelist, they describe the new ones. */
  lemma SyncedExact(h: Handlers, a: Agent, t: SyncTrace, c: seq<nat>)
    requires Synced(h, a, t) && AgentInv(a) && KeptWords(h.Config(), c) && CleanSync(t)
    requires c[WL_MAP_SELECTOR] == h.activeWLSlot.Number() && WordsExact(c, a)
    ensures h.Described()
  {
    hide TableInv, Gated, BitsExact, WlBitsExact, AllKeyed, RefsConserved, WlInv, PutAll, FreshKeys, AnomalyCount,
         BitmapOf, CleanSync, RefsAfter, Keeps;
    SyncedValidIff(h, a, t, c);
    assert Kept(WHITELIST_COUNT) && Kept(WL_BITMAP);
  }

  /** The words for fast-forward mode and its interfaces and the divisor of rate limits, which are
      set elsewhere. */
  predicate OthersKept(c: seq<nat>, o: seq<nat>) {
    |c| == |o| == 12 && c[4] == o[4] && c[5] == o[5] && c[11] == o[11]
  }

  lemma KeptAreOthers(c: seq<nat>, o: seq<nat>)
    requires KeptWords(c, o)
    ensures OthersKept(c, o)
  {
    assert Kept(4) && Kept(5) && Kept(11);
  }

  /** Whether a sync keeps the invariant, told by the request. After a success it does exactly if
      no id is repeated among the rules of either kind. After an abort it does if none is; while
      no write fails it does exactly if the CIDR rules that can be stored one after another
      have distinct ids, and else references stay taken that no rule of the agent uses. */
  method SyncOutcome(h: Handlers, reqs: seq<Rule>) returns (ok: bool, clean: bool)
    requires h.Valid()
    modifies h, h.kernel, h.cidrMgr
    ensures ok && clean ==> (h.Valid() <==> NoRepeat(reqs))
    ensures !ok ==> (h.Valid() <==> h.State() == old(h.State()))
    ensures !ok && NoRepeat(reqs) ==> h.Valid()
    ensures h.kernel.reliable ==> clean && (ok <==> Buildable(reqs))
    ensures h.kernel.reliable && !ok ==> (h.Valid() <==> DistinctBuilt(BuiltCidr(reqs)))
    ensures !ok ==> h.Config() == old(h.Config())
    ensures ok && clean ==> OthersKept(h.Config(), old(h.Config()))
  {
    hide AgentInv, Gated, AsAsked, Buildable, Synced, Aborted, StepAtomic, AllInForce, ViewOf, NoRepeat, DistinctBuilt,
         AskedEnds, FromReqs, Unkeyed, BuiltCidr, CleanSync, KeptWords;
    ghost var a, c := h.State(), h.Config();
    var added, failed;
    ghost var t;
    ok, added, failed, clean, t := DoAtomicSync(h, reqs);
    if ok && clean {
      SyncedKeepsIff(h, a, t, c, reqs);
      KeptAreOthers(h.Config(), c);
    } else if !ok {
      UnkeyedDistinct(t.cidr);
      if NoRepeat(reqs) {
        FromNoRepeat(t.cidr, reqs, true);
      }
    }
  }

  /** For example: two rules on different ports under one id can all be stored. */
  lemma RepeatExample()
    ensures Buildable([OnPort("r", 80), OnPort("r", 443)]) && !NoRepeat([OnPort("r", 80), OnPort("r", 443)])
  {
    hide PrepareExact, PrepareCIDR, HasCIDR, Htons;
    var r, s := OnPort("r", 80), OnPort("r", 443);
    OnPortPrepared("r", 80, false);
    OnPortPrepared("r", 443, false);
    HtonsIsInvolution(80);
    HtonsIsInvolution(443);
    assert [r][..0] == [] && [r, s][..1] == [r];
    assert Buildable([]) && Buildable([r]);
    assert ExactItems([r]) == [Built("r", PrepareExact(r, false).value.stored)];
    assert SameTable([r, s][0], [r, s][1]);
  }

  /** So this sync reports success, and the agent has lost its invariant. */
  method SyncRepeated(h: Handlers) returns (ok: bool, clean: bool)
    requires h.Valid()
    modifies h, h.kernel, h.cidrMgr
    ensures ok && clean ==> !h.Valid()
    ensures h.kernel.reliable ==> ok && !h.Valid()
  {
    hide h.Valid, Buildable, NoRepeat;
    RepeatExample();
    ok, clean := SyncOutcome(h, [OnPort("r", 80), OnPort("r", 443)]);
  }

  /** A drop rule of this id on one source prefix. */
  function OnPrefix(id: Id, p: Prefix): Rule {
    Rule(id, IpAbsent, IpAbsent, CidrNetwork(p), CidrAbsent, 0, 0, "", "drop", 0, 0, 0, "", 0)
  }

  lemma OnPrefixPrepared(id: Id, p: Prefix)
    ensures HasCIDR(OnPrefix(id, p)) && PrepareCIDR(OnPrefix(id, p), false, true).Some?
    ensures PrepareCIDR(OnPrefix(id, p), false, true).value.stored.src == Some(p)
  {
    hide Htons;
  }

  /** For example: two rules on different prefixes under one id, and a rule that names nothing. */
  lemma LeakExample(p: Prefix, q: Prefix)
    requires p != q
    ensures var reqs := [OnPrefix("r", p), OnPrefix("r", q), OnPort("x", 0)];
            !Buildable(reqs) && !DistinctBuilt(BuiltCidr(reqs))
  {
    hide PrepareExact, PrepareCIDR, HasCIDR;
    var r, s, x := OnPrefix("r", p), OnPrefix("r", q), OnPort("x", 0);
    OnPrefixPrepared("r", p);
    OnPrefixPrepared("r", q);
    OnPortPrepared("x", 0, false);
    assert [r][..0] == [] && [r, s][..1] == [r] && [r, s, x][..2] == [r, s];
    var u := Built("r", PrepareCIDR(r, false, true).value.stored);
    var v := Built("r", PrepareCIDR(s, false, true).value.stored);
    assert BuiltCidr([r]) == [u];
    assert BuiltCidr([r, s]) == [u, v];
    assert BuiltCidr([r, s, x]) == [u, v] && [u, v][0].id == [u, v][1].id;
  }

  /** So this sync is aborted, and does not leave the agent as it was. */
  method SyncLeaks(h: Handlers, p: Prefix, q: Prefix) returns (ok: bool, clean: bool)
    requires h.Valid() && p != q && h.kernel.reliable
    modifies h, h.kernel, h.cidrMgr
    ensures !ok && !h.Valid() && h.State() != old(h.State())
  {
    hide h.Valid, Buildable, BuiltCidr;
    LeakExample(p, q);
    ok, clean := SyncOutcome(h, [OnPrefix("r", p), OnPrefix("r", q), OnPort("x", 0)]);
  }

  // ---- The prefixes in use afterwards ----

  lemma {:induction false} CidrItemsEnds(reqs: seq<Rule>, i: nat)
    requires i < |CidrItems(reqs)|
    ensures Ends(CidrItems(reqs)[i].stored) <= AskedEnds(reqs)
  {
    hide HasCIDR, PrepareCIDR, Ends;
    var init := reqs[..|reqs| - 1];
    if i < |CidrItems(init)| {
      CidrItemsEnds(init, i);
    }
  }

  /** After a clean sync every known prefix is one that the request named. */
  lemma SyncedEnds(h: Handlers, a: Agent, t: SyncTrace, reqs: seq<Rule>)
    requires Synced(h, a, t) && AsAsked(reqs, t.exact, t.cidr) && h.Valid()
    ensures h.cidrMgr.ids.Keys <= AskedEnds(reqs)
  {
    hide Gated, TableInv, WlInv, AllKeyed, Ends, AskedEnds, CidrItems, Unkeyed, PutAll, ExactItems, FreshKeys, NewWords,
         UsesN, Acceptable;
    forall e | e in h.cidrMgr.ids.Keys ensures e in AskedEnds(reqs) {
      assert Ref(h.cidrMgr.refs, e) > 0;
      assert UseCount(h.cidrRules, e) > 0;
      var id := SomeUser(h.cidrRules, e);
      BuiltFrom(t.leftCidr, t.cidr, id);
      var i :| 0 <= i < |t.cidr| && t.cidr[i] == Built(id, h.cidrRules[id]);
      UnkeyedAt(t.cidr, i);
      CidrItemsEnds(reqs, i);
      SamePrefixes(h.cidrRules[id], WithIds(t.cidr[i].stored, 0, 0));
      UserEnds(h.cidrRules[id], e);
    }
  }

  lemma SomeUser(rules: map<Id, Stored>, e: Endpoint) returns (id: Id)
    requires UseCount(rules, e) > 0
    ensures id in rules && Uses(rules[id], e)
  {
    assert Users(rules, e) != {};
    id :| id in Users(rules, e);
  }

  lemma UserEnds(st: Stored, e: Endpoint)
    requires Uses(st, e)
    ensures e in Ends(st)
  {
  }
}
