/** config.go: the double-buffered publish of the config words. */
module AgentConfig {
  import opened Rules
  import opened Bits
  import opened Combo
  import opened Requests
  import opened RuleTable
  import opened WlTable
  import opened Kernel
  import opened CidrManager
  import opened Handlers

  /** A published count after an increment; the agent clamps it at zero. */
  function Shifted(word: nat, delta: int): nat {
    if delta == 0 then word else if word + delta < 0 then 0 else word + delta
  }

  /** The words of publishConfigUpdate: bitmaps, whitelist selector and anomaly count rebuilt
      from memory, the three counts shifted, the other words copied. */
  ghost function Published(c: seq<nat>, dBl: int, dWl: int, dCidr: int, exact: seq<int>, cidr: seq<int>, wl: seq<int>,
                           wlSide: Side, anomalies: nat): (r: seq<nat>)
    requires |c| == CONFIG_MAP_ENTRIES
    ensures |r| == CONFIG_MAP_ENTRIES
  {
    c[RULE_BITMAP := BitmapOf(exact, |exact|)]
     [WL_BITMAP := BitmapOf(wl, |wl|)]
     [WL_MAP_SELECTOR := wlSide.Number()]
     [BLACKLIST_COUNT := Shifted(c[BLACKLIST_COUNT], dBl)]
     [WHITELIST_COUNT := Shifted(c[WHITELIST_COUNT], dWl)]
     [CIDR_BITMAP := BitmapOf(cidr, |cidr|)]
     [CIDR_RULE_COUNT := Shifted(c[CIDR_RULE_COUNT], dCidr)]
     [ANOMALY_RULE_COUNT := anomalies]
  }

  /** The words of publishConfigUpdateForWLSync: only the three that the whitelist owns. */
  ghost function PublishedForWLSync(c: seq<nat>, count: nat, wl: seq<int>, wlSide: Side): (r: seq<nat>)
    requires |c| == CONFIG_MAP_ENTRIES
    ensures |r| == CONFIG_MAP_ENTRIES
  {
    c[WHITELIST_COUNT := count][WL_BITMAP := BitmapOf(wl, |wl|)][WL_MAP_SELECTOR := wlSide.Number()]
  }

  /** m is o except perhaps for the config array of side s. */
  predicate OnlyConfig(m: Maps, o: Maps, s: Side) {
    m == o.WithConfig(s, m.Config(s)) && m.Sized()
  }

  /** The words of the inactive array are replaced and the selector points to it. */
  function Switched(o: Maps, s: Side, c: seq<nat>): Maps {
    o.WithConfig(s.Other(), c).(selector := s.Other().Number())
  }

  /** Every write of a publish but a last successful one touched the inactive array only. */
  ghost predicate PublishLog(before: seq<Maps>, after: seq<Maps>, o: Maps, s: Side, ok: bool) {
    && |before| + (if ok then 1 else 0) <= |after| && after[..|before|] == before
    && forall i :: |before| <= i < |after| - (if ok then 1 else 0) ==> OnlyConfig(after[i], o, s.Other())
  }

  /** The log ends with the maps as they are. */
  predicate LastLogged(log: seq<Maps>, m: Maps) {
    log != [] && log[|log| - 1] == m
  }

  /** A publish in progress: the maps are o with c as the inactive words, and no write since
      `before` touched anything else. */
  ghost predicate Building(k: KernelMaps, o: Maps, s: Side, c: seq<nat>, before: seq<Maps>)
    reads k
  {
    && |c| == CONFIG_MAP_ENTRIES && o.Sized()
    && k.maps == o.WithConfig(s.Other(), c)
    && PublishLog(before, k.log, o, s, false)
  }

  method WriteWord(k: KernelMaps, s: Side, idx: nat, word: nat, ghost o: Maps, ghost c: seq<nat>,
                   ghost before: seq<Maps>)
    returns (ok: bool)
    requires Building(k, o, s, c, before) && idx < CONFIG_MAP_ENTRIES
    modifies k
    ensures ok ==> Building(k, o, s, c[idx := word], before)
    ensures OnlyConfig(k.maps, o, s.Other()) && PublishLog(before, k.log, o, s, false)
    ensures k.reliable ==> ok
  {
    ok := k.Do(ConfigWrite(s.Other(), idx, word));
  }

  /** A bitmap word is rebuilt from the reference counts. */
  method WriteBitmap(k: KernelMaps, s: Side, idx: nat, counts: seq<int>, ghost o: Maps, ghost c: seq<nat>,
                     ghost before: seq<Maps>)
    returns (ok: bool)
    requires Building(k, o, s, c, before) && idx < CONFIG_MAP_ENTRIES
    modifies k
    ensures ok ==> Building(k, o, s, c[idx := BitmapOf(counts, |counts|)], before)
    ensures OnlyConfig(k.maps, o, s.Other()) && PublishLog(before, k.log, o, s, false)
    ensures k.reliable ==> ok
  {
    var bitmap := RebuildBitmap(counts);
    ok := WriteWord(k, s, idx, bitmap, o, c, before);
  }

  /** A count word is shifted, if there is anything to shift. */
  method ShiftCount(k: KernelMaps, s: Side, idx: nat, delta: int, ghost o: Maps, ghost c: seq<nat>,
                    ghost before: seq<Maps>)
    returns (ok: bool)
    requires Building(k, o, s, c, before) && idx < CONFIG_MAP_ENTRIES
    modifies k
    ensures ok ==> Building(k, o, s, c[idx := Shifted(c[idx], delta)], before)
    ensures OnlyConfig(k.maps, o, s.Other()) && PublishLog(before, k.log, o, s, false)
    ensures k.reliable ==> ok
  {
    if delta == 0 {
      assert c[idx := c[idx]] == c;
      return true;
    }
    ok := WriteWord(k, s, idx, Shifted(k.maps.Config(s.Other())[idx], delta), o, c, before);
  }

  /** Step 1 of every publish: the active words are copied over the inactive ones. */
  method CopyConfig(k: KernelMaps, s: Side, ghost o: Maps) returns (ok: bool)
    requires k.maps == o && o.Sized()
    modifies k
    ensures ok ==> Building(k, o, s, o.Config(s), old(k.log))
    ensures OnlyConfig(k.maps, o, s.Other()) && PublishLog(old(k.log), k.log, o, s, false)
    ensures k.reliable ==> ok
  {
    for i := 0 to CONFIG_MAP_ENTRIES
      invariant Building(k, o, s, k.maps.Config(s.Other()), old(k.log))
      invariant forall j :: 0 <= j < i ==> k.maps.Config(s.Other())[j] == o.Config(s)[j]
    {
      ok := WriteWord(k, s, i, k.maps.Config(s)[i], o, k.maps.Config(s.Other()), old(k.log));
      if !ok {
        return;
      }
    }
    ok := true;
  }

  /** The last write of a publish: the selector. */
  method Flip(h: Handlers, ghost o: Maps, ghost c: seq<nat>, ghost before: seq<Maps>) returns (ok: bool)
    requires Building(h.kernel, o, h.activeSlot, c, before)
    modifies h`activeSlot, h.kernel
    ensures ok ==> h.activeSlot == old(h.activeSlot).Other() && h.kernel.maps == Switched(o, old(h.activeSlot), c)
    ensures !ok ==> h.activeSlot == old(h.activeSlot) && OnlyConfig(h.kernel.maps, o, h.activeSlot.Other())
    ensures PublishLog(before, h.kernel.log, o, old(h.activeSlot), ok) && LastLogged(h.kernel.log, h.kernel.maps)
    ensures h.kernel.reliable ==> ok
  {
    var newSlot := h.activeSlot.Other();
    ok := h.kernel.Do(Select(newSlot.Number()));
    if ok {
      h.activeSlot := newSlot;
    }
  }

  /** countAnomalyRulesLocked and countAnomalyRulesIn, one loop per table. */
  method CountAnomalyRules(rules: map<Id, Stored>, cidrRules: map<Id, Stored>) returns (n: nat)
    ensures n == AnomalyCount(rules) + AnomalyCount(cidrRules)
  {
    var exact := CountIn(rules);
    var cidr := CountIn(cidrRules);
    n := exact + cidr;
  }

  method CountIn(rules: map<Id, Stored>) returns (n: nat)
    ensures n == AnomalyCount(rules)
  {
    n := 0;
    var todo := rules.Keys;
    ghost var counted: set<Id> := {};
    while todo != {}
      invariant todo <= rules.Keys
      invariant counted == (set id | id in rules && id !in todo && rules[id].anomaly != 0)
      invariant n == |counted|
      decreases todo
    {
      var id :| id in todo;
      todo := todo - {id};
      if rules[id].anomaly != 0 {
        n := n + 1;
        counted := counted + {id};
      }
    }
    assert counted == AnomalyRules(rules);
  }

  /** publishConfigUpdate, as to the maps. Until its last write the data plane reads what it read before; that
      write switches it to the published words. A failure leaves the active words alone. */
  method PublishWords(h: Handlers, dBl: int, dWl: int, dCidr: int) returns (ok: bool)
    requires h.Tracked()
    modifies h`activeSlot, h.kernel
    ensures ok ==> h.activeSlot == old(h.activeSlot).Other()
    ensures ok ==> h.kernel.maps == Switched(old(h.kernel.maps), old(h.activeSlot),
              Published(old(h.Config()), dBl, dWl, dCidr, h.comboRefCount, h.cidrComboRefCount, h.wlComboRefCount,
                        h.activeWLSlot, AnomalyCount(h.rules) + AnomalyCount(h.cidrRules)))
    ensures !ok ==>
              h.activeSlot == old(h.activeSlot) && OnlyConfig(h.kernel.maps, old(h.kernel.maps), h.activeSlot.Other())
    ensures PublishLog(old(h.kernel.log), h.kernel.log, old(h.kernel.maps), old(h.activeSlot), ok)
    ensures h.kernel.reliable ==> ok
    ensures ok ==> LastLogged(h.kernel.log, h.kernel.maps)
  {
    hide LastLogged, PublishLog, OnlyConfig, Building, BitmapOf, AnomalyCount, Shifted, Switched;
    var k, s := h.kernel, h.activeSlot;
    ghost var o, before := k.maps, k.log;
    ok := CopyConfig(k, s, o);
    if !ok { return; }
    ghost var c := o.Config(s);
    ok := WriteBitmap(k, s, RULE_BITMAP, h.comboRefCount, o, c, before);
    if !ok { return; }
    c := c[RULE_BITMAP := BitmapOf(h.comboRefCount, |h.comboRefCount|)];
    ok := WriteBitmap(k, s, WL_BITMAP, h.wlComboRefCount, o, c, before);
    if !ok { return; }
    c := c[WL_BITMAP := BitmapOf(h.wlComboRefCount, |h.wlComboRefCount|)];
    ok := WriteWord(k, s, WL_MAP_SELECTOR, h.activeWLSlot.Number(), o, c, before);
    if !ok { return; }
    c := c[WL_MAP_SELECTOR := h.activeWLSlot.Number()];
    ok := ShiftCount(k, s, BLACKLIST_COUNT, dBl, o, c, before);
    if !ok { return; }
    c := c[BLACKLIST_COUNT := Shifted(c[BLACKLIST_COUNT], dBl)];
    ok := ShiftCount(k, s, WHITELIST_COUNT, dWl, o, c, before);
    if !ok { return; }
    c := c[WHITELIST_COUNT := Shifted(c[WHITELIST_COUNT], dWl)];
    ok := WriteBitmap(k, s, CIDR_BITMAP, h.cidrComboRefCount, o, c, before);
    if !ok { return; }
    c := c[CIDR_BITMAP := BitmapOf(h.cidrComboRefCount, |h.cidrComboRefCount|)];
    ok := ShiftCount(k, s, CIDR_RULE_COUNT, dCidr, o, c, before);
    if !ok { return; }
    c := c[CIDR_RULE_COUNT := Shifted(c[CIDR_RULE_COUNT], dCidr)];
    var anomalies := CountAnomalyRules(h.rules, h.cidrRules);
    ok := WriteWord(k, s, ANOMALY_RULE_COUNT, anomalies, o, c, before);
    if !ok { return; }
    ok := Flip(h, o, c[ANOMALY_RULE_COUNT := anomalies], before);
  }

  /** publishConfigUpdateForWLSync. The agent's whitelist selector is already the new one. */
  method PublishConfigUpdateForWLSync(h: Handlers, wlAbsoluteCount: nat, newWLComboRefCount: seq<int>)
    returns (ok: bool)
    requires h.kernel.maps.Sized() && h.kernel.maps.selector == h.activeSlot.Number()
    modifies h`activeSlot, h.kernel
    ensures ok ==> h.activeSlot == old(h.activeSlot).Other()
    ensures ok ==> h.kernel.maps == Switched(old(h.kernel.maps), old(h.activeSlot),
              PublishedForWLSync(old(h.Config()), wlAbsoluteCount, newWLComboRefCount, h.activeWLSlot))
    ensures !ok ==>
              h.activeSlot == old(h.activeSlot) && OnlyConfig(h.kernel.maps, old(h.kernel.maps), h.activeSlot.Other())
    ensures PublishLog(old(h.kernel.log), h.kernel.log, old(h.kernel.maps), old(h.activeSlot), ok)
    ensures h.kernel.reliable ==> ok
    ensures ok ==> LastLogged(h.kernel.log, h.kernel.maps)
  {
    hide LastLogged, PublishLog, OnlyConfig, Building, BitmapOf, AnomalyCount, Shifted, Switched;
    var k, s := h.kernel, h.activeSlot;
    ghost var o, before := k.maps, k.log;
    ok := CopyConfig(k, s, o);
    if !ok { return; }
    ghost var c := o.Config(s);
    ok := WriteWord(k, s, WHITELIST_COUNT, wlAbsoluteCount, o, c, before);
    if !ok { return; }
    c := c[WHITELIST_COUNT := wlAbsoluteCount];
    ok := WriteBitmap(k, s, WL_BITMAP, newWLComboRefCount, o, c, before);
    if !ok { return; }
    c := c[WL_BITMAP := BitmapOf(newWLComboRefCount, |newWLComboRefCount|)];
    ok := WriteWord(k, s, WL_MAP_SELECTOR, h.activeWLSlot.Number(), o, c, before);
    if !ok { return; }
    ok := Flip(h, o, c[WL_MAP_SELECTOR := h.activeWLSlot.Number()], before);
  }

  // ---- What a publish gives the data plane ----

  lemma RebuiltBits(rules: map<Id, Stored>, combo: seq<int>)
    requires Counted(rules, combo)
    ensures BitsExact(BitmapOf(combo, 64), rules)
    ensures Usable(rules) ==> BitsCover(BitmapOf(combo, 64), rules)
  {
    hide ComboType;
    BitmapBits(combo, 64);
    forall id | id in rules && ValidCombo(ComboType(rules[id].key))
      ensures Bit(BitmapOf(combo, 64), ComboType(rules[id].key))
    {
      assert id in OfCombo(rules, ComboType(rules[id].key));
    }
  }

  lemma RebuiltWlBits(entries: map<Id, Key>, combo: seq<int>)
    requires WlCounted(entries, combo)
    ensures WlBitsExact(BitmapOf(combo, 64), entries)
    ensures WlUsable(entries) ==> WlBitsCover(BitmapOf(combo, 64), entries)
  {
    hide ComboType;
    BitmapBits(combo, 64);
    forall id | id in entries && ValidCombo(ComboType(entries[id]))
      ensures Bit(BitmapOf(combo, 64), ComboType(entries[id]))
    {
      assert id in KeysOfCombo(entries, ComboType(entries[id]));
    }
  }

  /** What a publish does to the words it does not rebuild: three counts are shifted, never
      clamped, and four words stay. */
  predicate WordsKept(c: seq<nat>, o: seq<nat>, dBl: int, dWl: int, dCidr: int) {
    && |c| == |o| == CONFIG_MAP_ENTRIES
    && c[BLACKLIST_COUNT] == o[BLACKLIST_COUNT] + dBl && c[WHITELIST_COUNT] == o[WHITELIST_COUNT] + dWl
    && c[CIDR_RULE_COUNT] == o[CIDR_RULE_COUNT] + dCidr
    && c[4] == o[4] && c[5] == o[5]
    && c[RULE_MAP_SELECTOR] == o[RULE_MAP_SELECTOR] && c[RL_CPU_DIVISOR] == o[RL_CPU_DIVISOR]
  }

  lemma ShiftedWithRules(c: seq<nat>, a: Agent, c': seq<nat>, a': Agent, dBl: int, dWl: int, dCidr: int)
    requires WordsKept(c', c, dBl, dWl, dCidr)
    requires |a'.exact.rules| == |a.exact.rules| + dBl && |a'.cidr.rules| == |a.cidr.rules| + dCidr
    requires |a'.wl.entries| == |a.wl.entries| + dWl
    ensures SameExcess(c, a, c', a')
  {
  }

  lemma ShiftedBack(c: seq<nat>, c': seq<nat>, c'': seq<nat>, dWl: int)
    requires WordsKept(c', c, 0, dWl, 0) && WordsKept(c'', c', 0, -dWl, 0)
    ensures WordsKept(c'', c, 0, 0, 0)
  {
  }

  /** The words a publish computes from consistent tables cover the rules, and are exact about
      combos and anomalies. While every count is at least what is stored, so that the shifted
      count is too, the clamp at zero never changes a count. */
  lemma PublishedGates(c: seq<nat>, dBl: int, dWl: int, dCidr: int, exact: Table, cidr: Table, wl: map<Id, Key>,
                       wlCombo: seq<int>, wlSide: Side)
    requires |c| == CONFIG_MAP_ENTRIES && TableInv(exact) && TableInv(cidr) && WlCounted(wl, wlCombo) && WlUsable(wl)
    requires c[BLACKLIST_COUNT] + dBl >= |exact.rules| && c[WHITELIST_COUNT] + dWl >= |wl|
    requires c[CIDR_RULE_COUNT] + dCidr >= |cidr.rules|
    ensures var r := Published(c, dBl, dWl, dCidr, exact.combo, cidr.combo, wlCombo, wlSide,
                               AnomalyCount(exact.rules) + AnomalyCount(cidr.rules));
            && Gated(r, exact.rules, cidr.rules, wl) && WlBitsCover(r[WL_BITMAP], wl)
            && GatesExact(r, exact.rules, cidr.rules, wl)
            && WordsKept(r, c, dBl, dWl, dCidr) && r[WL_MAP_SELECTOR] == wlSide.Number()
  {
    hide BitsExact, BitsCover, WlBitsExact, WlBitsCover, Inverse, Mirrors, WlInverse, Usable, WlUsable, BitmapOf,
         AnomalyRules;
    RebuiltBits(exact.rules, exact.combo);
    RebuiltBits(cidr.rules, cidr.combo);
    RebuiltWlBits(wl, wlCombo);
  }

  lemma GatedCounts(c: seq<nat>, exact: map<Id, Stored>, cidr: map<Id, Stored>, wl: map<Id, Key>)
    requires Gated(c, exact, cidr, wl)
    ensures |c| == CONFIG_MAP_ENTRIES
    ensures c[BLACKLIST_COUNT] >= |exact| && c[CIDR_RULE_COUNT] >= |cidr| && c[WHITELIST_COUNT] >= |wl|
  {
  }

  /** Removing rules never uncovers the remaining ones: the old words still do. */
  lemma GatesShrink(c: seq<nat>, exact: map<Id, Stored>, cidr: map<Id, Stored>, wl: map<Id, Key>,
                    exact': map<Id, Stored>, cidr': map<Id, Stored>)
    requires Gated(c, exact, cidr, wl)
    requires forall id :: id in exact' ==> id in exact && exact'[id] == exact[id]
    requires forall id :: id in cidr' ==> id in cidr && cidr'[id] == cidr[id]
    ensures Gated(c, exact', cidr', wl)
  {
    hide ComboType;
    SubsetSize(exact'.Keys, exact.Keys);
    SubsetSize(cidr'.Keys, cidr.Keys);
    SubsetSize(AnomalyRules(exact'), AnomalyRules(exact));
    SubsetSize(AnomalyRules(cidr'), AnomalyRules(cidr));
  }

  lemma SubsetSize<T>(small: set<T>, big: set<T>)
    requires small <= big
    ensures |small| <= |big|
  {
    assert big == small + (big - small);
  }

  /** m and o differ in config words and selector only. */
  predicate SameTables(m: Maps, o: Maps) {
    m == o.(configA := m.configA, configB := m.configB, selector := m.selector)
  }

  /** publishConfigUpdate, as to the agent. It may be called with consistent rule tables, and
      whitelist counts that describe some entries wl, whose number the shifted words cover. A
      success makes the gates exact about combos and anomalies; a failure leaves the words the
      data plane reads as they were. */
  method PublishConfigUpdate(h: Handlers, dBl: int, dWl: int, dCidr: int, ghost wl: map<Id, Key>) returns (ok: bool)
    requires h.Sound() && TableInv(h.Exact()) && TableInv(h.Cidr()) && WlCounted(wl, h.wlComboRefCount) && WlUsable(wl)
    requires h.Config()[BLACKLIST_COUNT] + dBl >= |h.rules| && h.Config()[WHITELIST_COUNT] + dWl >= |wl|
    requires h.Config()[CIDR_RULE_COUNT] + dCidr >= |h.cidrRules|
    modifies h`activeSlot, h.kernel
    ensures h.Sound() && SameTables(h.kernel.maps, old(h.kernel.maps)) && h.State() == old(h.State())
    ensures !ok ==> h.Config() == old(h.Config())
    ensures ok ==> Gated(h.Config(), h.rules, h.cidrRules, wl) && GatesExact(h.Config(), h.rules, h.cidrRules, wl)
    ensures ok ==> WordsKept(h.Config(), old(h.Config()), dBl, dWl, dCidr) && WlBitsCover(h.Config()[WL_BITMAP], wl)
    ensures PublishLog(old(h.kernel.log), h.kernel.log, old(h.kernel.maps), old(h.activeSlot), ok)
    ensures h.kernel.reliable ==> ok
  {
    hide Gated, GatesExact, Published, PublishLog, WlBitsCover, WlCounted, WlUsable, TableInv, Consistent, BitmapOf,
         Shifted;
    ghost var c := h.Config();
    ok := PublishWords(h, dBl, dWl, dCidr);
    if ok {
      PublishedGates(c, dBl, dWl, dCidr, h.Exact(), h.Cidr(), wl, h.wlComboRefCount, h.activeWLSlot);
    }
  }
}
