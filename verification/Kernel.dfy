/** The BPF maps as the agent writes them and as the data plane reads them. */
module Kernel {
  import opened Rules
  import opened Bits
  import opened Combo
  import opened Lookup
  import opened CidrLookup

  /** Config map indices. */
  const BLACKLIST_COUNT: nat := 0
  const WHITELIST_COUNT: nat := 1
  const RULE_BITMAP: nat := 2
  const WL_BITMAP: nat := 3
  const CIDR_RULE_COUNT: nat := 6
  const CIDR_BITMAP: nat := 7
  const WL_MAP_SELECTOR: nat := 8
  const RULE_MAP_SELECTOR: nat := 9
  const ANOMALY_RULE_COUNT: nat := 10
  const RL_CPU_DIVISOR: nat := 11
  const CONFIG_MAP_ENTRIES: nat := 12

  /** One of the two maps of a double-buffered pair. */
  datatype Side = A | B {
    function Other(): Side { if this == A then B else A }
    function Number(): nat { if this == A then 0 else 1 }
  }

  /** The data plane's choice: 0 selects the first map, anything else the second. */
  function SideOf(n: nat): Side { if n == 0 then A else B }

  /** Two rule map pairs, one whitelist pair, two config arrays, the active-config selector,
      and the LPM tries, which are shared and not doubled. */
  datatype Maps = Maps(
    blacklistA: map<Key, RuleValue>, blacklistB: map<Key, RuleValue>,
    cidrBlacklistA: map<Key, RuleValue>, cidrBlacklistB: map<Key, RuleValue>,
    whitelistA: set<Key>, whitelistB: set<Key>,
    configA: seq<nat>, configB: seq<nat>, selector: nat, trie: Trie)
  {
    function Blacklist(s: Side): map<Key, RuleValue> { if s == A then blacklistA else blacklistB }
    function CidrBlacklist(s: Side): map<Key, RuleValue> { if s == A then cidrBlacklistA else cidrBlacklistB }
    function Whitelist(s: Side): set<Key> { if s == A then whitelistA else whitelistB }
    function Config(s: Side): seq<nat> { if s == A then configA else configB }

    function WithBlacklist(s: Side, m: map<Key, RuleValue>): Maps {
      if s == A then this.(blacklistA := m) else this.(blacklistB := m)
    }
    function WithCidrBlacklist(s: Side, m: map<Key, RuleValue>): Maps {
      if s == A then this.(cidrBlacklistA := m) else this.(cidrBlacklistB := m)
    }
    function WithWhitelist(s: Side, m: set<Key>): Maps {
      if s == A then this.(whitelistA := m) else this.(whitelistB := m)
    }
    function WithConfig(s: Side, c: seq<nat>): Maps {
      if s == A then this.(configA := c) else this.(configB := c)
    }

    predicate Sized() {
      |configA| == CONFIG_MAP_ENTRIES && |configB| == CONFIG_MAP_ENTRIES
    }

    // ---- What the data plane reads, at one instant ----

    function ActiveConfig(): seq<nat> { Config(SideOf(selector)) }

    function Word(i: nat): nat
      requires Sized() && i < CONFIG_MAP_ENTRIES
    {
      ActiveConfig()[i]
    }

    function RuleSide(): Side
      requires Sized()
    {
      SideOf(Word(RULE_MAP_SELECTOR))
    }

    function WlSide(): Side
      requires Sized()
    {
      SideOf(Word(WL_MAP_SELECTOR))
    }

    /** The exact lookup of a packet: the matched key, if any. */
    function ExactAnswer(p: Packet, mode: Mode): Option<Key>
      requires Sized()
    {
      LookupRule(Blacklist(RuleSide()), Word(BLACKLIST_COUNT), Word(RULE_BITMAP), p.key, Meta(p.len, p.flags, mode))
    }

    /** The two-stage CIDR lookup of a packet. */
    function CidrAnswer(p: Packet, mode: Mode): Option<Key>
      requires Sized()
    {
      CidrSearch(trie, CidrBlacklist(RuleSide()), Word(CIDR_RULE_COUNT), Word(CIDR_BITMAP), p, mode)
    }

    /** The whitelist gate. */
    function Whitelisted(p: Packet): bool
      requires Sized()
    {
      GateHits(Whitelist(WlSide()), Word(WL_BITMAP), p.key, 0)
    }
  }

  // ---- The whitelist gate's 31 probes ----

  /** Rows 19, 20 and 32 are not probed by the gate. */
  predicate GateRow(wl: set<Key>, bitmap: nat, p: Key, b: nat) {
    && b != 19 && b != 20 && b != 32
    && ProbeShape(b).Some? && Bit(bitmap, b) && Masked(p, ProbeShape(b).value) in wl
  }

  predicate GateHits(wl: set<Key>, bitmap: nat, p: Key, b: nat)
    requires b <= COMBO_MAX
    decreases COMBO_MAX - b
  {
    b < COMBO_MAX && (GateRow(wl, bitmap, p, b) || GateHits(wl, bitmap, p, b + 1))
  }

  lemma {:induction false} GateHitsSomeRow(wl: set<Key>, bitmap: nat, p: Key, b: nat)
    requires b <= COMBO_MAX
    ensures GateHits(wl, bitmap, p, b) <==> exists c: nat :: b <= c < COMBO_MAX && GateRow(wl, bitmap, p, c)
    decreases COMBO_MAX - b
  {
    hide ProbeShape, Masked;
    if b < COMBO_MAX {
      GateHitsSomeRow(wl, bitmap, p, b + 1);
    }
  }

  /** The gate passes a packet exactly when some whitelisted key matches it, although it skips
      the rows 20 and 32 that the rule lookups probe. */
  lemma GateRefinesMatch(wl: set<Key>, bitmap: nat, p: Key)
    requires forall k :: k in wl ==> ValidCombo(ComboType(k)) && Bit(bitmap, ComboType(k))
    ensures GateHits(wl, bitmap, p, 0) <==> exists k :: k in wl && WildMatches(k, p)
  {
    hide GateHits;
    GateHitsSomeRow(wl, bitmap, p, 0);
    if c: nat :| c < COMBO_MAX && GateRow(wl, bitmap, p, c) {
      hide ProbeShape;
      assert WildMatches(Masked(p, ProbeShape(c).value), p);
    }
    if k :| k in wl && WildMatches(k, p) {
      ComboAgreesWithProbes(ShapeOf(k));
      DeadCombos(ShapeOf(k));
      assert Masked(p, ShapeOf(k)) == k;
      assert GateRow(wl, bitmap, p, ComboType(k));
    }
  }

  // ---- Writes ----

  /** One bpf(2) write. Inserts carry BPF_NOEXIST, config writes BPF_EXIST, trie puts overwrite. */
  datatype Write =
    | RuleInsert(side: Side, key: Key, value: RuleValue)
    | RuleDelete(side: Side, key: Key)
    | CidrInsert(side: Side, key: Key, value: RuleValue)
    | CidrDelete(side: Side, key: Key)
    | WlInsert(side: Side, key: Key)
    | WlDelete(side: Side, key: Key)
    | ConfigWrite(side: Side, idx: nat, word: nat)
    | Select(word: nat)
    | TriePut(end: Endpoint, id: nat)
    | TrieDelete(end: Endpoint)

  predicate Possible(m: Maps, w: Write) {
    match w
    case RuleInsert(s, k, _) => k !in m.Blacklist(s)
    case RuleDelete(s, k) => k in m.Blacklist(s)
    case CidrInsert(s, k, _) => k !in m.CidrBlacklist(s)
    case CidrDelete(s, k) => k in m.CidrBlacklist(s)
    case WlInsert(s, k) => k !in m.Whitelist(s)
    case WlDelete(s, k) => k in m.Whitelist(s)
    case ConfigWrite(s, i, _) => i < |m.Config(s)|
    case Select(_) => true
    case TriePut(_, _) => true
    case TrieDelete(e) => e in m.trie
  }

  function Apply(m: Maps, w: Write): Maps
    requires Possible(m, w)
  {
    match w
    case RuleInsert(s, k, v) => m.WithBlacklist(s, m.Blacklist(s)[k := v])
    case RuleDelete(s, k) => m.WithBlacklist(s, m.Blacklist(s) - {k})
    case CidrInsert(s, k, v) => m.WithCidrBlacklist(s, m.CidrBlacklist(s)[k := v])
    case CidrDelete(s, k) => m.WithCidrBlacklist(s, m.CidrBlacklist(s) - {k})
    case WlInsert(s, k) => m.WithWhitelist(s, m.Whitelist(s) + {k})
    case WlDelete(s, k) => m.WithWhitelist(s, m.Whitelist(s) - {k})
    case ConfigWrite(s, i, n) => m.WithConfig(s, m.Config(s)[i := n])
    case Select(n) => m.(selector := n)
    case TriePut(e, id) => m.(trie := m.trie[e := id])
    case TrieDelete(e) => m.(trie := m.trie - {e})
  }

  /** All the maps behind one write interface. Any write may fail, unless the kernel is
      `reliable`, in which case only impossible ones do. `log` records the maps after every
      single write, so that a property of each instant is a property of its entries. */
  class KernelMaps {
    const reliable: bool
    var maps: Maps
    ghost var log: seq<Maps>

    constructor (reliable: bool)
      ensures this.reliable == reliable
      ensures maps == Maps(map[], map[], map[], map[], {}, {}, seq(CONFIG_MAP_ENTRIES, _ => 0),
                           seq(CONFIG_MAP_ENTRIES, _ => 0), 0, map[])
      ensures log == []
    {
      this.reliable := reliable;
      maps := Maps(map[], map[], map[], map[], {}, {}, seq(CONFIG_MAP_ENTRIES, _ => 0),
                   seq(CONFIG_MAP_ENTRIES, _ => 0), 0, map[]);
      log := [];
    }

    /** A write whose error the caller sees. */
    method Do(w: Write) returns (ok: bool)
      modifies this
      ensures ok ==> Possible(old(maps), w) && maps == Apply(old(maps), w)
      ensures !ok ==> maps == old(maps)
      ensures reliable && Possible(old(maps), w) ==> ok
      ensures log == old(log) + [maps]
    {
      ok := *;
      ok := (ok || reliable) && Possible(maps, w);
      if ok {
        maps := Apply(maps, w);
      }
      log := log + [maps];
    }

    /** A clean-up write whose error is only logged: it takes effect whenever it is possible. */
    method Attempt(w: Write)
      modifies this
      ensures maps == if Possible(old(maps), w) then Apply(old(maps), w) else old(maps)
      ensures log == old(log) + [maps]
    {
      if Possible(maps, w) {
        maps := Apply(maps, w);
      }
      log := log + [maps];
    }

    // ---- The writes by map ----

    method InsertRule(s: Side, k: Key, v: RuleValue) returns (ok: bool)
      modifies this
      ensures ok ==> k !in old(maps).Blacklist(s) && maps == old(maps).WithBlacklist(s, old(maps).Blacklist(s)[k := v])
      ensures !ok ==> maps == old(maps)
      ensures reliable && k !in old(maps).Blacklist(s) ==> ok
      ensures log == old(log) + [maps]
    {
      ok := Do(RuleInsert(s, k, v));
    }

    method DeleteRule(s: Side, k: Key) returns (ok: bool)
      modifies this
      ensures ok ==> k in old(maps).Blacklist(s) && maps == old(maps).WithBlacklist(s, old(maps).Blacklist(s) - {k})
      ensures !ok ==> maps == old(maps)
      ensures reliable && k in old(maps).Blacklist(s) ==> ok
      ensures log == old(log) + [maps]
    {
      ok := Do(RuleDelete(s, k));
    }

    method TryInsertRule(s: Side, k: Key, v: RuleValue)
      modifies this
      ensures var live := old(maps).Blacklist(s);
              maps == old(maps).WithBlacklist(s, if k in live then live else live[k := v])
      ensures log == old(log) + [maps]
    {
      Attempt(RuleInsert(s, k, v));
    }

    method TryDeleteRule(s: Side, k: Key)
      modifies this
      ensures maps == old(maps).WithBlacklist(s, old(maps).Blacklist(s) - {k})
      ensures log == old(log) + [maps]
    {
      Attempt(RuleDelete(s, k));
      assert k !in old(maps).Blacklist(s) ==> old(maps).Blacklist(s) - {k} == old(maps).Blacklist(s);
    }

    method InsertCidrRule(s: Side, k: Key, v: RuleValue) returns (ok: bool)
      modifies this
      ensures ok ==>
                && k !in old(maps).CidrBlacklist(s)
                && maps == old(maps).WithCidrBlacklist(s, old(maps).CidrBlacklist(s)[k := v])
      ensures !ok ==> maps == old(maps)
      ensures reliable && k !in old(maps).CidrBlacklist(s) ==> ok
      ensures log == old(log) + [maps]
    {
      ok := Do(CidrInsert(s, k, v));
    }

    method DeleteCidrRule(s: Side, k: Key) returns (ok: bool)
      modifies this
      ensures ok ==>
                && k in old(maps).CidrBlacklist(s)
                && maps == old(maps).WithCidrBlacklist(s, old(maps).CidrBlacklist(s) - {k})
      ensures !ok ==> maps == old(maps)
      ensures reliable && k in old(maps).CidrBlacklist(s) ==> ok
      ensures log == old(log) + [maps]
    {
      ok := Do(CidrDelete(s, k));
    }

    method TryInsertCidrRule(s: Side, k: Key, v: RuleValue)
      modifies this
      ensures var live := old(maps).CidrBlacklist(s);
              maps == old(maps).WithCidrBlacklist(s, if k in live then live else live[k := v])
      ensures log == old(log) + [maps]
    {
      Attempt(CidrInsert(s, k, v));
    }

    method TryDeleteCidrRule(s: Side, k: Key)
      modifies this
      ensures maps == old(maps).WithCidrBlacklist(s, old(maps).CidrBlacklist(s) - {k})
      ensures log == old(log) + [maps]
    {
      Attempt(CidrDelete(s, k));
      assert k !in old(maps).CidrBlacklist(s) ==> old(maps).CidrBlacklist(s) - {k} == old(maps).CidrBlacklist(s);
    }

    method InsertWl(s: Side, k: Key) returns (ok: bool)
      modifies this
      ensures ok ==> k !in old(maps).Whitelist(s) && maps == old(maps).WithWhitelist(s, old(maps).Whitelist(s) + {k})
      ensures !ok ==> maps == old(maps)
      ensures reliable && k !in old(maps).Whitelist(s) ==> ok
      ensures log == old(log) + [maps]
    {
      ok := Do(WlInsert(s, k));
    }

    method DeleteWl(s: Side, k: Key) returns (ok: bool)
      modifies this
      ensures ok ==> k in old(maps).Whitelist(s) && maps == old(maps).WithWhitelist(s, old(maps).Whitelist(s) - {k})
      ensures !ok ==> maps == old(maps)
      ensures reliable && k in old(maps).Whitelist(s) ==> ok
      ensures log == old(log) + [maps]
    {
      ok := Do(WlDelete(s, k));
    }

    method TryInsertWl(s: Side, k: Key)
      modifies this
      ensures var live := old(maps).Whitelist(s);
              maps == old(maps).WithWhitelist(s, if k in live then live else live + {k})
      ensures log == old(log) + [maps]
    {
      Attempt(WlInsert(s, k));
    }

    method TryDeleteWl(s: Side, k: Key)
      modifies this
      ensures maps == old(maps).WithWhitelist(s, old(maps).Whitelist(s) - {k})
      ensures log == old(log) + [maps]
    {
      Attempt(WlDelete(s, k));
      assert k !in old(maps).Whitelist(s) ==> old(maps).Whitelist(s) - {k} == old(maps).Whitelist(s);
    }

    method PutWord(s: Side, idx: nat, word: nat) returns (ok: bool)
      requires maps.Sized() && idx < CONFIG_MAP_ENTRIES
      modifies this
      ensures maps == if ok then old(maps).WithConfig(s, old(maps).Config(s)[idx := word]) else old(maps)
      ensures reliable ==> ok
      ensures log == old(log) + [maps]
    {
      ok := Do(ConfigWrite(s, idx, word));
    }

    method PutTrie(e: Endpoint, id: nat) returns (ok: bool)
      modifies this
      ensures maps == if ok then old(maps).(trie := old(maps).trie[e := id]) else old(maps)
      ensures reliable ==> ok
      ensures log == old(log) + [maps]
    {
      ok := Do(TriePut(e, id));
    }

    method TryDeleteTrie(e: Endpoint)
      modifies this
      ensures maps == old(maps).(trie := old(maps).trie - {e})
      ensures log == old(log) + [maps]
    {
      Attempt(TrieDelete(e));
      assert e !in old(maps).trie ==> old(maps).trie - {e} == old(maps).trie;
    }
  }
}
