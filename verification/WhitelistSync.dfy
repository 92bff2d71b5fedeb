/** sync.go: DoWhitelistAtomicSync, the zero-window replacement of the whitelist. */
module WhitelistSync {
  import opened Rules
  import opened Bits
  import opened Combo
  import opened Requests
  import opened RuleTable
  import opened WlTable
  import opened CidrLookup
  import opened Kernel
  import opened CidrManager
  import opened Handlers
  import opened AgentConfig
  import opened Views

  datatype WlSyncOutcome = Synced | Refused | Broken

  // ---- Phase 1: validation ----

  /** What one entry must satisfy. */
  predicate Usable(e: WlEntry) { e.id != "" && PrepareWl(e).Some? }

  ghost predicate Syncable(entries: seq<WlEntry>) {
    && (forall i :: 0 <= i < |entries| ==> Usable(entries[i]))
    && forall i, j :: 0 <= i < j < |entries| ==>
         entries[i].id != entries[j].id && PrepareWl(entries[i]) != PrepareWl(entries[j])
  }

  /** The items are the entries with their keys. */
  ghost predicate Prepared(items: seq<WlItem>, entries: seq<WlEntry>) {
    && |items| == |entries|
    && forall i :: 0 <= i < |items| ==> items[i].id == entries[i].id && PrepareWl(entries[i]) == Some(items[i].key)
  }

  method Validate(entries: seq<WlEntry>) returns (ok: bool, items: seq<WlItem>)
    ensures ok <==> Syncable(entries)
    ensures ok ==> Prepared(items, entries)
  {
    hide PrepareWl;
    items := [];
    var seenIDs: set<Id>, seenKeys: set<Key> := {}, {};
    for n := 0 to |entries|
      invariant Prepared(items, entries[..n]) && Syncable(entries[..n])
      invariant forall id :: id in seenIDs <==> exists i :: 0 <= i < n && entries[i].id == id
      invariant forall k :: k in seenKeys <==> exists i :: 0 <= i < n && PrepareWl(entries[i]) == Some(k)
    {
      var e := entries[n];
      assert forall i :: 0 <= i < n ==> entries[..n + 1][i] == entries[..n][i] == entries[i];
      if e.id == "" {
        return false, items;
      }
      if e.id in seenIDs {
        return false, items;
      }
      seenIDs := seenIDs + {e.id};
      var key := PrepareWl(e);
      if key.None? {
        assert !Usable(entries[n]);
        return false, items;
      }
      if key.value in seenKeys {
        return false, items;
      }
      seenKeys := seenKeys + {key.value};
      items := items + [WlItem(e.id, key.value)];
    }
    assert entries[..|entries|] == entries;
    ok := true;
  }

  // ---- The new tables ----

  /** The table of the first n items on top of a map that the clear left with `left`. */
  function Filled(items: seq<WlItem>, left: set<Key>): WlTable {
    if items == [] then WlTable(map[], map[], NO_COUNTS, left)
    else
      var last := items[|items| - 1];
      WlPut(Filled(items[..|items| - 1], left), last.id, last.key)
  }

  ghost predicate DistinctItems(items: seq<WlItem>, left: set<Key>) {
    && (forall i :: 0 <= i < |items| ==> items[i].key !in left && ValidCombo(ComboType(items[i].key)))
    && forall i, j :: 0 <= i < j < |items| ==> items[i].id != items[j].id && items[i].key != items[j].key
  }

  lemma {:induction false} FilledMembers(items: seq<WlItem>, left: set<Key>)
    ensures forall id :: id in Filled(items, left).entries <==> exists i :: 0 <= i < |items| && items[i].id == id
    ensures forall k :: k in Filled(items, left).index <==> exists i :: 0 <= i < |items| && items[i].key == k
    ensures Filled(items, left).live == left + Filled(items, left).index.Keys
  {
    hide ComboType;
    if items != [] {
      var n := |items| - 1;
      FilledMembers(items[..n], left);
      assert forall i :: 0 <= i < n ==> items[..n][i] == items[i];
    }
  }

  lemma {:induction false} FilledHolds(items: seq<WlItem>, left: set<Key>, i: nat)
    requires i < |items| && forall j :: i < j < |items| ==> items[j].id != items[i].id
    ensures items[i].id in Filled(items, left).entries && Filled(items, left).entries[items[i].id] == items[i].key
  {
    hide ComboType;
    var n := |items| - 1;
    if i < n {
      assert forall j :: 0 <= j < n ==> items[..n][j] == items[j];
      FilledHolds(items[..n], left, i);
    }
  }

  lemma {:induction false} FilledInv(items: seq<WlItem>, left: set<Key>)
    requires DistinctItems(items, left)
    ensures WlInv(Filled(items, left).(live := Filled(items, left).index.Keys))
    ensures |Filled(items, left).entries| == |items|
  {
    hide ComboType;
    if items == [] {
      forall c ensures KeysOfCombo(map[], c) == {} {}
    } else {
      var init, last := items[..|items| - 1], items[|items| - 1];
      assert forall j :: 0 <= j < |init| ==> init[j] == items[j];
      FilledInv(init, left);
      FilledMembers(init, left);
      var w := Filled(init, left);
      WlPutKeepsInv(w.(live := w.index.Keys), last.id, last.key);
      var all := Filled(items, left);
      assert WlPut(w.(live := w.index.Keys), last.id, last.key) == all.(live := all.index.Keys);
    }
  }

  /** The new table is sound exactly when the clear left nothing behind. */
  lemma FilledInvIff(items: seq<WlItem>, left: set<Key>)
    requires DistinctItems(items, left)
    ensures WlInv(Filled(items, left)) <==> left == {}
    ensures WlCounted(Filled(items, left).entries, Filled(items, left).combo) && WlUsable(Filled(items, left).entries)
  {
    hide ComboType, WlCounted, WlUsable;
    FilledInv(items, left);
    FilledMembers(items, left);
    assert left !! Filled(items, left).index.Keys;
  }

  lemma PreparedDistinct(items: seq<WlItem>, entries: seq<WlEntry>)
    requires Prepared(items, entries) && Syncable(entries)
    ensures DistinctItems(items, {})
  {
    hide PrepareWl, ComboType;
    forall i | 0 <= i < |items| ensures ValidCombo(ComboType(items[i].key)) {
      ValidKey(entries[i]);
    }
  }

  lemma ValidKey(e: WlEntry)
    ensures PrepareWl(e).Some? ==> ValidCombo(ComboType(PrepareWl(e).value))
  {
    hide ComboType;
  }

  // ---- Writing ----

  /** One delete from the inactive whitelist map. */
  method ClearKey(h: Handlers, key: Key, ghost a: Agent, ghost v: View, ghost before: seq<Maps>) returns (ok: bool)
    requires Undisturbed(h, a, v, a.ids.Keys) && AllInForce(before, h.kernel.log, v, a.ids, a.ids.Keys)
    modifies h.kernel
    ensures Undisturbed(h, a, v, a.ids.Keys) && AllInForce(before, h.kernel.log, v, a.ids, a.ids.Keys)
    ensures h.kernel.maps ==
              old(h.kernel.maps).WithWhitelist(h.activeWLSlot.Other(), h.kernel.maps.Whitelist(h.activeWLSlot.Other()))
    ensures h.kernel.maps.Whitelist(h.activeWLSlot.Other()) ==
            old(h.kernel.maps).Whitelist(h.activeWLSlot.Other()) - (if ok then {key} else {})
    ensures h.kernel.reliable && key in old(h.kernel.maps).Whitelist(h.activeWLSlot.Other()) ==> ok
  {
    hide Undisturbed, AllInForce, InForce;
    ghost var log := h.kernel.log;
    var side := h.activeWLSlot.Other();
    ok := h.kernel.DeleteWl(side, key);
    WlShadowWritten(h, a, v, a.ids.Keys);
    LogOneMore(before, log, h.kernel.maps, v, a.ids, a.ids.Keys);
  }

  /** clearMap on the inactive whitelist map; see ShadowBuild.ClearRuleMap. */
  method ClearWhitelist(h: Handlers, ghost a: Agent, ghost v: View, ghost before: seq<Maps>) returns (ok: bool)
    requires Undisturbed(h, a, v, a.ids.Keys) && AllInForce(before, h.kernel.log, v, a.ids, a.ids.Keys)
    modifies h.kernel
    ensures Undisturbed(h, a, v, a.ids.Keys) && AllInForce(before, h.kernel.log, v, a.ids, a.ids.Keys)
    ensures h.kernel.maps ==
              old(h.kernel.maps).WithWhitelist(h.activeWLSlot.Other(), h.kernel.maps.Whitelist(h.activeWLSlot.Other()))
    ensures h.kernel.reliable ==> ok && h.kernel.maps.Whitelist(h.activeWLSlot.Other()) == {}
  {
    hide Undisturbed, AllInForce, InForce;
    ok := true;
    var keys := h.kernel.maps.Whitelist(h.activeWLSlot.Other());
    while keys != {}
      invariant Undisturbed(h, a, v, a.ids.Keys) && AllInForce(before, h.kernel.log, v, a.ids, a.ids.Keys)
      invariant OnlyWhitelist(h.kernel.maps, old(h.kernel.maps), h.activeWLSlot.Other())
      invariant h.kernel.reliable ==> ok && h.kernel.maps.Whitelist(h.activeWLSlot.Other()) == keys
      decreases keys
    {
      var stops: bool := *;
      if stops && !h.kernel.reliable {
        break;
      }
      var key :| key in keys;
      keys := keys - {key};
      var deleted := ClearKey(h, key, a, v, before);
      ok := ok && deleted;
    }
  }

  /** Phase 3: every item goes into the inactive map and the new tables, or the sync ends. */
  method Fill(h: Handlers, items: seq<WlItem>, ghost left: set<Key>, ghost a: Agent, ghost v: View,
              ghost before: seq<Maps>)
    returns (ok: bool, entries: map<Id, Key>, index: map<Key, Id>, combo: seq<int>)
    requires Undisturbed(h, a, v, a.ids.Keys) && AllInForce(before, h.kernel.log, v, a.ids, a.ids.Keys)
    requires left == h.kernel.maps.Whitelist(h.activeWLSlot.Other()) && DistinctItems(items, {})
    modifies h.kernel
    ensures Undisturbed(h, a, v, a.ids.Keys) && AllInForce(before, h.kernel.log, v, a.ids, a.ids.Keys)
    ensures ok ==>
              WlTable(entries, index, combo, h.kernel.maps.Whitelist(h.activeWLSlot.Other())) == Filled(items, left)
    ensures ok ==> DistinctItems(items, left)
    ensures h.kernel.reliable && left == {} ==> ok
  {
    hide Undisturbed, AllInForce, InForce, ComboType, Bump;
    entries, index, combo := map[], map[], NO_COUNTS;
    var side := h.activeWLSlot.Other();
    for i := 0 to |items|
      invariant Undisturbed(h, a, v, a.ids.Keys) && AllInForce(before, h.kernel.log, v, a.ids, a.ids.Keys)
      invariant WlTable(entries, index, combo, h.kernel.maps.Whitelist(side)) == Filled(items[..i], left)
      invariant forall j :: 0 <= j < i ==> items[j].key !in left
    {
      var item := items[i];
      assert items[..i + 1][..i] == items[..i];
      FilledMembers(items[..i], left);
      ghost var log := h.kernel.log;
      label Insert:
      ok := h.kernel.InsertWl(side, item.key);
      WlShadowWritten@Insert(h, a, v, a.ids.Keys);
      LogOneMore(before, log, h.kernel.maps, v, a.ids, a.ids.Keys);
      if !ok {
        return;
      }
      entries := entries[item.id := item.key];
      index := index[item.key := item.id];
      combo := Bump(combo, ComboType(item.key), 1);
    }
    assert items[..|items|] == items;
    ok := true;
  }

  // ---- The whole ----

  /** What a completed sync has done, whatever the clear had left on the inactive side. Of the
      published words it changed those numbered 1, 3 and 8 only. */
  ghost predicate WlSynced(h: Handlers, a: Agent, c: seq<nat>, items: seq<WlItem>, left: set<Key>)
    reads h, h.kernel, h.cidrMgr
  {
    && h.Sound() && h.State() == a.(wl := Filled(items, left)) && |c| == CONFIG_MAP_ENTRIES
    && h.Config() == PublishedForWLSync(c, |items|, h.wlComboRefCount, h.activeWLSlot)
  }

  /** The agent's invariant after a completed sync. The published count is the number of entries
      and the published bitmap that of their combos in any case. */
  lemma WlSyncedValidIff(h: Handlers, a: Agent, c: seq<nat>, items: seq<WlItem>, left: set<Key>)
    requires WlSynced(h, a, c, items, left) && DistinctItems(items, left)
    requires AgentInv(a) && Gated(c, a.exact.rules, a.cidr.rules, a.wl.entries)
    ensures h.Valid() <==> left == {}
    ensures h.WlGated() && WlBitsExact(h.Config()[WL_BITMAP], h.wlEntries)
    ensures h.Config()[WHITELIST_COUNT] == |h.wlEntries|
    ensures forall i: nat :: i < CONFIG_MAP_ENTRIES && i !in {1, 3, 8} ==> h.Config()[i] == c[i]
  {
    hide TableInv, WlInv, AllKeyed, RefsConserved, BitsCover, AnomalyCount, WlBitsCover, WlBitsExact, BitmapOf,
         WlCounted, WlUsable, Filled, DistinctItems, ComboType;
    FilledInvIff(items, left);
    FilledSize(items, left);
    RebuiltWlBits(h.wlEntries, h.wlComboRefCount);
    WlCountedLength(h.wlEntries, h.wlComboRefCount);
  }

  /** If the words described what is stored, they still do. */
  lemma WlSyncedExact(h: Handlers, a: Agent, c: seq<nat>, items: seq<WlItem>)
    requires WlSynced(h, a, c, items, {}) && DistinctItems(items, {})
    requires AgentInv(a) && Gated(c, a.exact.rules, a.cidr.rules, a.wl.entries) && WordsExact(c, a)
    ensures h.Described()
  {
    hide AgentInv, Gated, BitsExact, AnomalyCount, WlBitsExact, WlBitsCover, BitmapOf, Filled, DistinctItems, h.Valid;
    WlSyncedValidIff(h, a, c, items, {});
  }

  lemma FilledSize(items: seq<WlItem>, left: set<Key>)
    requires DistinctItems(items, left)
    ensures |Filled(items, left).entries| == |items|
  {
    hide ComboType;
    FilledInv(items, left);
  }

  lemma WlCountedLength(entries: map<Id, Key>, combo: seq<int>)
    requires WlCounted(entries, combo)
    ensures |combo| == 64
  {
  }

  lemma PublishInForce(before: seq<Maps>, log: seq<Maps>, after: seq<Maps>, o: Maps, s: Side, ok: bool, v: View,
                       low: Trie, ends: set<Endpoint>)
    requires AllInForce(before, log, v, low, ends) && PublishLog(log, after, o, s, ok)
    requires InForce(o, v, low, ends) && s == SideOf(o.selector)
    ensures AllInForce(before, if ok then after[..|after| - 1] else after, v, low, ends)
  {
    hide TrieIds, Keeps;
    var log' := if ok then after[..|after| - 1] else after;
    assert log'[..|before|] == log[..|before|];
    forall i | |before| <= i < |log'|
      ensures InForce(log'[i], v, low, ends)
    {
      if i < |log| {
        assert log'[i] == after[..|log|][i];
      } else {
        assert OnlyConfig(after[i], o, s.Other());
        ConfigInForce(after[i], o, s, v, low, ends);
      }
    }
  }

  lemma ConfigInForce(m: Maps, o: Maps, s: Side, v: View, low: Trie, ends: set<Endpoint>)
    requires OnlyConfig(m, o, s.Other()) && InForce(o, v, low, ends) && s == SideOf(o.selector)
    ensures InForce(m, v, low, ends)
  {
  }

  /** Phase 6, after the selector has been written: the old map is cleared. */
  method ClearOld(h: Handlers, ghost before: seq<Maps>)
    requires h.Sound() && h.kernel.log == before
    modifies h.kernel
    ensures h.Sound() && h.State() == old(h.State()) && h.Config() == old(h.Config())
    ensures ViewOf(h.kernel.maps) == old(ViewOf(h.kernel.maps))
    ensures AllInForce(before, h.kernel.log, ViewOf(h.kernel.maps), h.cidrMgr.ids, h.cidrMgr.ids.Keys)
    ensures h.kernel.reliable ==> h.kernel.maps.Whitelist(h.activeWLSlot.Other()) == {}
  {
    hide AllInForce;
    ghost var a, v := h.State(), ViewOf(h.kernel.maps);
    NoLog(before, v, a.ids, a.ids.Keys);
    var _ := ClearWhitelist(h, a, v, before);
    UndisturbedInForce(h, a, v, a.ids.Keys);
  }

  lemma NoLog(log: seq<Maps>, v: View, low: Trie, ends: set<Endpoint>)
    ensures AllInForce(log, log, v, low, ends)
  {
  }

  lemma SwitchedView(h: Handlers)
    requires h.Sound()
    ensures InForce(h.kernel.maps, ViewOf(h.kernel.maps), h.cidrMgr.ids, h.cidrMgr.ids.Keys)
  {
  }

  lemma PublishedSelectors(c: seq<nat>, count: nat, combo: seq<int>, side: Side)
    requires |c| == CONFIG_MAP_ENTRIES
    ensures var r := PublishedForWLSync(c, count, combo, side);
            && |r| == CONFIG_MAP_ENTRIES
            && r[WL_MAP_SELECTOR] == side.Number() && r[RULE_MAP_SELECTOR] == c[RULE_MAP_SELECTOR]
  {
    hide BitmapOf;
  }

  /** A publish that failed leaves the agent as it was. */
  twostate lemma NotSwitched(h: Handlers)
    requires old(h.Sound()) && unchanged(h, h.cidrMgr)
    requires OnlyConfig(h.kernel.maps, old(h.kernel.maps), h.activeSlot.Other())
    ensures h.Sound() && h.State() == old(h.State()) && h.Config() == old(h.Config())
  {
    hide Consistent;
  }

  /** A publish that succeeded puts the other whitelist map in force, and nothing else changes. */
  twostate lemma SwitchedOver(h: Handlers, new count: nat, new combo: seq<int>)
    requires old(h.Sound()) && unchanged(h.cidrMgr)
    requires unchanged(h`activeRuleSlot, h`rules, h`ruleKeyIndex, h`comboRefCount,
                       h`cidrRules, h`cidrRuleKeyIndex, h`cidrComboRefCount)
    requires h.activeSlot == old(h.activeSlot).Other() && h.activeWLSlot == old(h.activeWLSlot).Other()
    requires h.kernel.maps == Switched(old(h.kernel.maps), old(h.activeSlot),
                                       PublishedForWLSync(old(h.Config()), count, combo, h.activeWLSlot))
    ensures h.Sound() && h.State() == old(h.State()).(wl := h.Wl())
    ensures h.Config() == PublishedForWLSync(old(h.Config()), count, combo, h.activeWLSlot)
    ensures |old(h.Config())| == CONFIG_MAP_ENTRIES
    ensures h.kernel.maps.Whitelist(h.activeWLSlot) == old(h.kernel.maps.Whitelist(h.activeWLSlot.Other()))
  {
    hide Consistent, PublishedForWLSync;
    PublishedSelectors(old(h.Config()), count, combo, h.activeWLSlot);
  }

  /** Phases 4 and 5: the publish, with the agent's own selector already moved, then memory. */
  method PublishSwitch(h: Handlers, count: nat, newEntries: map<Id, Key>, newIndex: map<Key, Id>, newCombo: seq<int>,
                       ghost items: seq<WlItem>, ghost left: set<Key>, ghost a: Agent)
    returns (ok: bool)
    requires h.Sound() && h.State() == a && count == |items|
    requires WlTable(newEntries, newIndex, newCombo, h.kernel.maps.Whitelist(h.activeWLSlot.Other())) ==
              Filled(items, left)
    modifies h, h.kernel
    ensures !ok ==> h.Sound() && h.State() == a && h.Config() == old(h.Config())
    ensures ok ==> WlSynced(h, a, old(h.Config()), items, left) && LastLogged(h.kernel.log, h.kernel.maps)
    ensures PublishLog(old(h.kernel.log), h.kernel.log, old(h.kernel.maps), old(h.activeSlot), ok)
    ensures h.kernel.reliable ==> ok
  {
    hide PublishLog, Filled, BitmapOf, LastLogged, Consistent, PublishedForWLSync, Switched;
    var oldWLSlot, oldWlComboRefCount := h.activeWLSlot, h.wlComboRefCount;
    h.activeWLSlot := oldWLSlot.Other();
    h.wlComboRefCount := newCombo;
    ok := PublishConfigUpdateForWLSync(h, count, newCombo);
    if !ok {
      h.activeWLSlot := oldWLSlot;
      h.wlComboRefCount := oldWlComboRefCount;
      NotSwitched(h);
    } else {
      h.wlEntries, h.wlKeyIndex := newEntries, newIndex;
      SwitchedOver(h, count, newCombo);
    }
  }

  lemma LogSplits(log: seq<Maps>, m: Maps)
    requires LastLogged(log, m)
    ensures log == log[..|log| - 1] + [m]
  {
  }

  /** Phases 4 to 6. */
  method Switch(h: Handlers, count: nat, newEntries: map<Id, Key>, newIndex: map<Key, Id>, newCombo: seq<int>,
                ghost items: seq<WlItem>, ghost left: set<Key>, ghost a: Agent, ghost v: View, ghost before: seq<Maps>)
    returns (r: WlSyncOutcome, ghost flip: nat)
    requires Undisturbed(h, a, v, a.ids.Keys) && AllInForce(before, h.kernel.log, v, a.ids, a.ids.Keys)
    requires h.State() == a
    requires WlTable(newEntries, newIndex, newCombo, h.kernel.maps.Whitelist(h.activeWLSlot.Other())) ==
              Filled(items, left)
    requires count == |items|
    modifies h, h.kernel
    ensures r in {Synced, Broken} && (h.kernel.reliable ==> r == Synced)
    ensures r != Synced ==> h.Sound() && h.State() == a && h.Config() == old(h.Config())
    ensures r != Synced ==> AllInForce(before, h.kernel.log, v, a.ids, a.ids.Keys)
    ensures r == Synced ==> WlSynced(h, a, old(h.Config()), items, left)
    ensures r == Synced && h.kernel.reliable ==> h.kernel.maps.Whitelist(h.activeWLSlot.Other()) == {}
    ensures r == Synced ==> StepAtomic(before, h.kernel.log, flip, v, a.ids, ViewOf(h.kernel.maps), a.ids, a.ids.Keys)
  {
    hide AllInForce, InForce, PublishLog, StepAtomic, ViewOf, Filled, Keeps, PublishedForWLSync, LastLogged;
    flip := 0;
    UndisturbedInForce(h, a, v, a.ids.Keys);
    ghost var o, log := h.kernel.maps, h.kernel.log;
    var ok := PublishSwitch(h, count, newEntries, newIndex, newCombo, items, left, a);
    PublishInForce(before, log, h.kernel.log, o, SideOf(o.selector), ok, v, a.ids, a.ids.Keys);
    if !ok {
      return Broken, flip;
    }
    ghost var m, log1 := h.kernel.maps, h.kernel.log;
    LogSplits(log1, m);
    flip := |log1| - 1;
    SwitchedView(h);
    ClearOld(h, log1);
    IdsKept(a.ids);
    FlipLogged(before, log1[..flip], m, h.kernel.log, v, a.ids, ViewOf(m), a.ids, a.ids, a.ids.Keys);
    r := Synced;
  }

  lemma IdsKept(ids: Trie)
    ensures Keeps(ids, ids)
  {
  }

  /** DoWhitelistAtomicSync. Either nothing changes that the gate or the agent can see, or the
      whitelist is replaced; and every lookup made in between reads the one or the other. `clean` reports
      that the clear, whose iterator may stop early, left nothing behind. */
  method DoWhitelistAtomicSync(h: Handlers, entries: seq<WlEntry>)
    returns (r: WlSyncOutcome, clean: bool, ghost items: seq<WlItem>, ghost left: set<Key>, ghost flip: nat)
    requires h.Valid()
    modifies h, h.kernel
    ensures r == Refused <==> !Syncable(entries)
    ensures h.kernel.reliable ==> r != Broken && clean
    ensures r != Synced ==> h.Valid() && h.State() == old(h.State()) && h.Config() == old(h.Config())
    ensures r != Synced ==>
              AllInForce(old(h.kernel.log), h.kernel.log, ViewOf(old(h.kernel.maps)), h.cidrMgr.ids, h.cidrMgr.ids.Keys)
    ensures r == Synced ==> (clean <==> left == {}) && Prepared(items, entries) && DistinctItems(items, left)
    ensures r == Synced ==> WlSynced(h, old(h.State()), old(h.Config()), items, left)
    ensures r == Synced && h.kernel.reliable ==> h.kernel.maps.Whitelist(h.activeWLSlot.Other()) == {}
    ensures r == Synced ==> StepAtomic(old(h.kernel.log), h.kernel.log, flip, ViewOf(old(h.kernel.maps)), h.cidrMgr.ids,
                                       ViewOf(h.kernel.maps), h.cidrMgr.ids, h.cidrMgr.ids.Keys)
  {
    hide AllInForce, InForce, AgentInv, Gated, PublishLog, StepAtomic, ViewOf, Filled, Syncable, Prepared,
         DistinctItems, PublishedForWLSync;
    flip, clean := 0, true;
    ghost var a, v, before := h.State(), ViewOf(h.kernel.maps), h.kernel.log;
    left := {};
    NoLog(before, v, a.ids, a.ids.Keys);
    var ok, prepared := Validate(entries);
    items := prepared;
    if !ok {
      return Refused, clean, items, left, flip;
    }
    PreparedDistinct(items, entries);
    ok := ClearWhitelist(h, a, v, before);
    UndisturbedInForce(h, a, v, a.ids.Keys);
    if !ok {
      return Broken, clean, items, left, flip;
    }
    left := h.kernel.maps.Whitelist(h.activeWLSlot.Other());
    clean := h.kernel.maps.Whitelist(h.activeWLSlot.Other()) == {};
    var newEntries, newIndex, newCombo;
    ok, newEntries, newIndex, newCombo := Fill(h, prepared, left, a, v, before);
    UndisturbedInForce(h, a, v, a.ids.Keys);
    if !ok {
      return Broken, clean, items, left, flip;
    }
    r, flip := Switch(h, |prepared|, newEntries, newIndex, newCombo, items, left, a, v, before);
  }
}
