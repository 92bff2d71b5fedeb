/** The agent's state: its memory, its view of which side of each pair is active, and the joint
    invariant that ties both to the BPF maps. */
module Handlers {
  import opened Rules
  import opened Bits
  import opened Combo
  import opened Requests
  import opened RuleTable
  import opened WlTable
  import opened CidrLookup
  import opened Kernel
  import opened CidrManager

  /** Everything an operation of the agent is about. Left aside are the inactive sides of the
      pairs, the published config words and the next CIDR id. */
  datatype Agent = Agent(exact: Table, cidr: Table, ids: Trie, refs: Refs, wl: WlTable)

  ghost function AnomalyRules(rules: map<Id, Stored>): set<Id> {
    set id | id in rules && rules[id].anomaly != 0
  }

  ghost function AnomalyCount(rules: map<Id, Stored>): nat {
    |AnomalyRules(rules)|
  }

  ghost predicate BitsCover(bitmap: nat, rules: map<Id, Stored>) {
    forall id :: id in rules ==> ValidCombo(ComboType(rules[id].key)) && Bit(bitmap, ComboType(rules[id].key))
  }

  ghost predicate WlBitsCover(bitmap: nat, entries: map<Id, Key>) {
    forall id :: id in entries ==> ValidCombo(ComboType(entries[id])) && Bit(bitmap, ComboType(entries[id]))
  }

  /** What the published words owe the stored rules: every live rule combo has its bit, no count
      is too small, and the anomaly gate counts at least the anomaly rules. */
  ghost predicate Gated(c: seq<nat>, exact: map<Id, Stored>, cidr: map<Id, Stored>, wl: map<Id, Key>) {
    && |c| == CONFIG_MAP_ENTRIES
    && BitsCover(c[RULE_BITMAP], exact) && BitsCover(c[CIDR_BITMAP], cidr)
    && c[BLACKLIST_COUNT] >= |exact| && c[CIDR_RULE_COUNT] >= |cidr| && c[WHITELIST_COUNT] >= |wl|
    && c[ANOMALY_RULE_COUNT] >= AnomalyCount(exact) + AnomalyCount(cidr)
  }

  ghost predicate BitsExact(bitmap: nat, rules: map<Id, Stored>) {
    forall c: nat :: c < 64 ==> (Bit(bitmap, c) <==> OfCombo(rules, c) != {})
  }

  ghost predicate WlBitsExact(bitmap: nat, entries: map<Id, Key>) {
    forall c: nat :: c < 64 ==> (Bit(bitmap, c) <==> KeysOfCombo(entries, c) != {})
  }

  /** What a successful publish restores: bitmaps and anomaly count describe the rules exactly. */
  ghost predicate GatesExact(c: seq<nat>, exact: map<Id, Stored>, cidr: map<Id, Stored>, wl: map<Id, Key>) {
    && |c| == CONFIG_MAP_ENTRIES
    && BitsExact(c[RULE_BITMAP], exact) && BitsExact(c[CIDR_BITMAP], cidr) && WlBitsExact(c[WL_BITMAP], wl)
    && c[ANOMALY_RULE_COUNT] == AnomalyCount(exact) + AnomalyCount(cidr)
  }

  /** The published counts exceed the numbers of rules and entries by as much as they did. */
  predicate SameExcess(c: seq<nat>, a: Agent, c': seq<nat>, a': Agent) {
    && |c| == |c'| == CONFIG_MAP_ENTRIES
    && c'[BLACKLIST_COUNT] - |a'.exact.rules| == c[BLACKLIST_COUNT] - |a.exact.rules|
    && c'[CIDR_RULE_COUNT] - |a'.cidr.rules| == c[CIDR_RULE_COUNT] - |a.cidr.rules|
    && c'[WHITELIST_COUNT] - |a'.wl.entries| == c[WHITELIST_COUNT] - |a.wl.entries|
  }

  /** The published words describe what is stored: bitmaps, anomaly count and the three counts. */
  ghost predicate WordsExact(c: seq<nat>, a: Agent) {
    && GatesExact(c, a.exact.rules, a.cidr.rules, a.wl.entries)
    && c[BLACKLIST_COUNT] == |a.exact.rules| && c[CIDR_RULE_COUNT] == |a.cidr.rules|
    && c[WHITELIST_COUNT] == |a.wl.entries|
  }

  lemma StillExact(c: seq<nat>, a: Agent, c': seq<nat>, a': Agent)
    requires WordsExact(c, a) && SameExcess(c, a, c', a')
    requires GatesExact(c', a'.exact.rules, a'.cidr.rules, a'.wl.entries)
    ensures WordsExact(c', a')
  {
    hide GatesExact;
  }

  /** They no longer do if rules or entries go and the words stay. */
  lemma NotExact(c: seq<nat>, a: Agent, a': Agent)
    requires WordsExact(c, a)
    requires |a'.exact.rules| + |a'.cidr.rules| + |a'.wl.entries| < |a.exact.rules| + |a.cidr.rules| + |a.wl.entries|
    ensures !WordsExact(c, a')
  {
    hide GatesExact;
  }

  ghost predicate AgentInv(a: Agent) {
    && TableInv(a.exact)
    && TableInv(a.cidr) && AllKeyed(a.cidr.rules, a.ids) && RefsConserved(a.refs, a.cidr.rules)
    && WlInv(a.wl)
  }

  lemma AgentParts(a: Agent)
    requires AgentInv(a)
    ensures TableInv(a.exact) && TableInv(a.cidr) && WlInv(a.wl) && WlCounted(a.wl.entries, a.wl.combo)
    ensures WlUsable(a.wl.entries)
    ensures AllKeyed(a.cidr.rules, a.ids) && RefsConserved(a.refs, a.cidr.rules)
  {
    hide TableInv, AllKeyed, RefsConserved;
  }

  lemma FreshAgent(c: seq<nat>)
    requires c == seq(CONFIG_MAP_ENTRIES, _ => 0)
    ensures AgentInv(Agent(EMPTY, EMPTY, map[], map[], WL_EMPTY))
    ensures Gated(c, map[], map[], map[])
    ensures WordsExact(c, Agent(EMPTY, EMPTY, map[], map[], WL_EMPTY))
  {
    EmptyInv();
    assert AnomalyRules(map[]) == {};
    forall e ensures UseCount(map[], e) == 0 { assert Users(map[], e) == {}; }
    forall x ensures KeysOfCombo(map[], x) == {} {}
    forall x: nat ensures !Bit(0, x) && OfCombo(map[], x) == {} { NoBits(x); }
  }

  class Handlers {
    const kernel: KernelMaps
    const cidrMgr: Manager

    var activeSlot: Side
    var activeRuleSlot: Side
    var activeWLSlot: Side

    var rules: map<Id, Stored>
    var ruleKeyIndex: map<Key, Id>
    var comboRefCount: seq<int>

    var cidrRules: map<Id, Stored>
    var cidrRuleKeyIndex: map<Key, Id>
    var cidrComboRefCount: seq<int>

    var wlEntries: map<Id, Key>
    var wlKeyIndex: map<Key, Id>
    var wlComboRefCount: seq<int>

    function Exact(): Table
      reads this, kernel
    {
      Table(rules, ruleKeyIndex, comboRefCount, kernel.maps.Blacklist(activeRuleSlot))
    }

    function Cidr(): Table
      reads this, kernel
    {
      Table(cidrRules, cidrRuleKeyIndex, cidrComboRefCount, kernel.maps.CidrBlacklist(activeRuleSlot))
    }

    function Wl(): WlTable
      reads this, kernel
    {
      WlTable(wlEntries, wlKeyIndex, wlComboRefCount, kernel.maps.Whitelist(activeWLSlot))
    }

    function State(): Agent
      reads this, kernel, cidrMgr
    {
      Agent(Exact(), Cidr(), cidrMgr.ids, cidrMgr.refs, Wl())
    }

    function Config(): seq<nat>
      reads this, kernel
    {
      kernel.maps.Config(activeSlot)
    }

    /** The agent's three selectors are the ones the data plane follows. */
    ghost predicate Tracked()
      reads this, kernel
    {
      && kernel.maps.Sized()
      && kernel.maps.selector == activeSlot.Number()
      && Config()[RULE_MAP_SELECTOR] == activeRuleSlot.Number()
      && Config()[WL_MAP_SELECTOR] == activeWLSlot.Number()
    }

    /** The CIDR manager is this agent's, its tries are the kernel's, and selectors are tracked. */
    ghost predicate Sound()
      reads this, kernel, cidrMgr
    {
      cidrMgr.kernel == kernel && cidrMgr.Valid() && Tracked()
    }

    ghost predicate Valid()
      reads this, kernel, cidrMgr
    {
      && Sound()
      && AgentInv(State())
      && Gated(Config(), rules, cidrRules, wlEntries)
    }

    /** The published whitelist bitmap admits every whitelisted key. Kept apart from Valid,
        because one failure path of the whitelist operations loses it until the next publish. */
    ghost predicate WlGated()
      reads this, kernel
    {
      |Config()| == CONFIG_MAP_ENTRIES && WlBitsCover(Config()[WL_BITMAP], wlEntries)
    }

    /** The published words describe what is stored. Also kept apart, because the agent ignores a
        failed publish after a deletion. */
    ghost predicate Described()
      reads this, kernel, cidrMgr
    {
      WordsExact(Config(), State())
    }

    constructor (reliable: bool)
      ensures Valid() && WlGated() && Described() && fresh(kernel) && fresh(cidrMgr) && kernel.reliable == reliable
      ensures rules == map[] && cidrRules == map[] && wlEntries == map[]
    {
      var k := new KernelMaps(reliable);
      var m := new Manager(k);
      kernel := k;
      cidrMgr := m;
      activeSlot, activeRuleSlot, activeWLSlot := A, A, A;
      rules, ruleKeyIndex, comboRefCount := map[], map[], NO_COUNTS;
      cidrRules, cidrRuleKeyIndex, cidrComboRefCount := map[], map[], NO_COUNTS;
      wlEntries, wlKeyIndex, wlComboRefCount := map[], map[], NO_COUNTS;
      new;
      FreshAgent(Config());
      assert State() == Agent(EMPTY, EMPTY, map[], map[], WL_EMPTY);
    }
  }

  lemma SoundParts(h: Handlers)
    requires h.Sound()
    ensures h.cidrMgr.kernel == h.kernel && h.cidrMgr.Valid() && h.kernel.maps.trie == h.cidrMgr.ids
    ensures h.cidrMgr.refs.Keys == h.cidrMgr.ids.Keys
  {
  }

  /** m is o except perhaps for the exact rule map of side s. */
  predicate OnlyBlacklist(m: Maps, o: Maps, s: Side) {
    m == o.WithBlacklist(s, m.Blacklist(s))
  }

  /** A change of the exact rules, in memory and in their active map, is a change of nothing else. */
  twostate lemma OnlyExactChanged(h: Handlers)
    requires OnlyBlacklist(h.kernel.maps, old(h.kernel.maps), h.activeRuleSlot)
    requires unchanged(h`activeSlot, h`activeRuleSlot, h`activeWLSlot,
                       h`cidrRules, h`cidrRuleKeyIndex, h`cidrComboRefCount,
                       h`wlEntries, h`wlKeyIndex, h`wlComboRefCount, h.cidrMgr)
    ensures h.State() == old(h.State()).(exact := h.Exact())
    ensures h.Config() == old(h.Config())
    ensures old(h.Sound()) ==> h.Sound()
  {
  }

  /** m is o except perhaps for the CIDR rule map of side s and the tries. */
  predicate OnlyCidrMaps(m: Maps, o: Maps, s: Side) {
    m == o.WithCidrBlacklist(s, m.CidrBlacklist(s)).(trie := m.trie)
  }

  /** A change of the CIDR rules, their active map and their prefixes is a change of nothing else. */
  twostate lemma OnlyCidrChanged(h: Handlers)
    requires OnlyCidrMaps(h.kernel.maps, old(h.kernel.maps), h.activeRuleSlot)
    requires unchanged(h`activeSlot, h`activeRuleSlot, h`activeWLSlot, h`rules, h`ruleKeyIndex, h`comboRefCount,
                       h`wlEntries, h`wlKeyIndex, h`wlComboRefCount)
    ensures h.State() == old(h.State()).(cidr := h.Cidr(), ids := h.cidrMgr.ids, refs := h.cidrMgr.refs)
    ensures h.Config() == old(h.Config())
    ensures old(h.Sound()) && h.cidrMgr.Valid() ==> h.Sound()
    ensures old(h.Sound()) && unchanged(h.cidrMgr) && h.kernel.maps.trie == old(h.kernel.maps.trie) ==> h.Sound()
  {
  }

  /** m is o except perhaps for the whitelist map of side s. */
  predicate OnlyWhitelist(m: Maps, o: Maps, s: Side) {
    m == o.WithWhitelist(s, m.Whitelist(s))
  }

  /** A change of the whitelist tables and their active map is a change of nothing else. */
  twostate lemma OnlyWlChanged(h: Handlers)
    requires OnlyWhitelist(h.kernel.maps, old(h.kernel.maps), h.activeWLSlot)
    requires unchanged(h`activeSlot, h`activeRuleSlot, h`activeWLSlot, h`rules, h`ruleKeyIndex, h`comboRefCount,
                       h`cidrRules, h`cidrRuleKeyIndex, h`cidrComboRefCount, h.cidrMgr)
    ensures h.State() == old(h.State()).(wl := h.Wl())
    ensures h.Config() == old(h.Config())
    ensures old(h.Sound()) ==> h.Sound()
  {
  }
}
