/** What a data-plane lookup reads at one instant, and what it answers about the agent's rules. */
module Views {
  import opened Rules
  import opened Bits
  import opened Combo
  import opened Lookup
  import opened Prefixes
  import opened Requests
  import opened RuleTable
  import opened WlTable
  import opened CidrLookup
  import opened Kernel
  import opened CidrManager
  import opened Handlers

  /** Everything a lookup reads but the tries: the active words, and the maps they select. */
  datatype View = View(config: seq<nat>, exact: map<Key, RuleValue>, cidr: map<Key, RuleValue>, wl: set<Key>)

  function ViewOf(m: Maps): View {
    if m.Sized()
    then View(m.ActiveConfig(), m.Blacklist(m.RuleSide()), m.CidrBlacklist(m.RuleSide()), m.Whitelist(m.WlSide()))
    else View([], map[], map[], {})
  }

  /** At this instant lookups read v, and tries with proper ids for at least the prefixes in
      `low`, unchanged, and for none outside of `ends`. */
  ghost predicate InForce(m: Maps, v: View, low: Trie, ends: set<Endpoint>) {
    && m.Sized() && ViewOf(m) == v
    && Keeps(low, m.trie) && m.trie.Keys <= ends && TrieIds(m.trie)
  }

  /** v shows the agent's rules, behind gates that cover them. */
  ghost predicate Serves(v: View, a: Agent) {
    && v.exact == a.exact.live && v.cidr == a.cidr.live && v.wl == a.wl.live
    && Gated(v.config, a.exact.rules, a.cidr.rules, a.wl.entries)
  }

  ghost predicate SomeExactMatch(rules: map<Id, Stored>, p: Packet, mode: Mode) {
    exists id :: id in rules && ExactMatch(rules[id], p, mode)
  }

  ghost predicate SomeWlMatch(entries: map<Id, Key>, p: Packet) {
    exists id :: id in entries && WildMatches(entries[id], p.key)
  }

  lemma GatesCover(t: Table, count: nat, bitmap: nat)
    requires TableInv(t) && BitsCover(bitmap, t.rules) && count >= |t.rules|
    ensures GateCovers(count, bitmap, t.live.Keys)
  {
    hide ComboType, ValueOf, Counted;
    forall k | k in t.live.Keys
      ensures ValidCombo(ComboType(k)) && Bit(bitmap, ComboType(k)) && count != 0
    {
      assert t.rules[t.index[k]].key == k;
    }
  }

  /** The exact lookup finds a rule exactly when some stored rule matches the packet. */
  lemma ExactAnswers(m: Maps, a: Agent, p: Packet, mode: Mode)
    requires m.Sized() && AgentInv(a) && Serves(ViewOf(m), a)
    ensures m.ExactAnswer(p, mode).Some? <==> SomeExactMatch(a.exact.rules, p, mode)
    ensures m.ExactAnswer(p, mode).Some? ==>
              var k := m.ExactAnswer(p, mode).value;
              k in a.exact.index && ExactMatch(a.exact.rules[a.exact.index[k]], p, mode)
  {
    hide ComboType, ValueOf, PostMatch, WildMatches, BitsCover, LookupRule, Counted, Usable, AnomalyCount, WlInv,
         AllKeyed, RefsConserved, GateCovers;
    var count, bitmap, t := m.Word(BLACKLIST_COUNT), m.Word(RULE_BITMAP), a.exact;
    GatesCover(t, count, bitmap);
    LookupRefinesMatch(t.live, count, bitmap, p.key, Meta(p.len, p.flags, mode));
    if id :| id in t.rules && ExactMatch(t.rules[id], p, mode) {
      assert Matches(t.live, p.key, Meta(p.len, p.flags, mode), t.rules[id].key);
    }
  }

  /** So does the two-stage CIDR lookup, provided the prefixes in the tries are disjoint; and
      what it finds always matches. */
  lemma CidrAnswers(m: Maps, a: Agent, p: Packet, mode: Mode)
    requires m.Sized() && AgentInv(a) && Serves(ViewOf(m), a) && Keeps(a.ids, m.trie) && TrieIds(m.trie)
    ensures Disjoint(m.trie.Keys) ==> (m.CidrAnswer(p, mode).Some? <==> SomeDirectMatch(a.cidr.rules, p, mode))
    ensures m.CidrAnswer(p, mode).Some? ==>
              var k := m.CidrAnswer(p, mode).value;
              k in a.cidr.index && DirectMatch(a.cidr.rules[a.cidr.index[k]], p, mode)
  {
    hide ComboType, ValueOf, CidrSearch, BitsCover, AnomalyCount, WlInv, RefsConserved, GateCovers, TableInv, TrieIds,
         Disjoint, DirectMatch;
    var count, bitmap, t := m.Word(CIDR_RULE_COUNT), m.Word(CIDR_BITMAP), a.cidr;
    GatesCover(t, count, bitmap);
    KeyedInMore(t.rules, a.ids, m.trie);
    CidrSearchRefines(m.trie, t, count, bitmap, p, mode);
  }

  lemma KeyedInMore(rules: map<Id, Stored>, ids: Trie, more: Trie)
    requires AllKeyed(rules, ids) && Keeps(ids, more)
    ensures AllKeyed(rules, more)
  {
  }

  /** The gate passes exactly the packets that some entry matches, while its bitmap covers. */
  lemma WlAnswers(m: Maps, a: Agent, p: Packet)
    requires m.Sized() && AgentInv(a) && Serves(ViewOf(m), a) && WlBitsCover(m.Word(WL_BITMAP), a.wl.entries)
    ensures m.Whitelisted(p) <==> SomeWlMatch(a.wl.entries, p)
  {
    hide ComboType, WildMatches, GateHits, Gated, TableInv, AllKeyed, RefsConserved, WlCounted;
    forall k | k in a.wl.live
      ensures ValidCombo(ComboType(k)) && Bit(m.Word(WL_BITMAP), ComboType(k))
    {
      assert a.wl.entries[a.wl.index[k]] == k;
    }
    GateRefinesMatch(a.wl.live, m.Word(WL_BITMAP), p.key);
    if id :| id in a.wl.entries && WildMatches(a.wl.entries[id], p.key) {
      assert a.wl.entries[id] in a.wl.live;
    }
    if k :| k in a.wl.live && WildMatches(k, p.key) {
      assert a.wl.entries[a.wl.index[k]] == k;
    }
  }

  /** While the anomaly count word is 0 the anomaly lookups, which are then skipped, would have
      found nothing. */
  lemma AnomalyGateHidesNothing(m: Maps, a: Agent, p: Packet, bits: bv8)
    requires m.Sized() && AgentInv(a) && Serves(ViewOf(m), a)
    requires m.Word(ANOMALY_RULE_COUNT) == 0
    ensures !SomeExactMatch(a.exact.rules, p, Anomalous(bits)) && !SomeDirectMatch(a.cidr.rules, p, Anomalous(bits))
  {
    hide TableInv, AllKeyed, RefsConserved, WlInv, BitsCover, ParseAction, WildMatches, SideMatches;
    NoAnomalyRules(a.exact.rules);
    NoAnomalyRules(a.cidr.rules);
    forall id | id in a.exact.rules ensures !ExactMatch(a.exact.rules[id], p, Anomalous(bits)) {}
    forall id | id in a.cidr.rules ensures !DirectMatch(a.cidr.rules[id], p, Anomalous(bits)) {}
  }

  lemma NoAnomalyRules(rules: map<Id, Stored>)
    requires AnomalyCount(rules) == 0
    ensures forall id :: id in rules ==> rules[id].anomaly == 0
  {
    forall id | id in rules ensures rules[id].anomaly == 0 {
      assert id !in AnomalyRules(rules);
    }
  }

  // ---- Every instant of an operation ----

  /** After every write since `before`, lookups read v. */
  ghost predicate AllInForce(before: seq<Maps>, after: seq<Maps>, v: View, low: Trie, ends: set<Endpoint>) {
    && |before| <= |after| && after[..|before|] == before
    && forall i :: |before| <= i < |after| ==> InForce(after[i], v, low, ends)
  }

  lemma InForceJoins(before: seq<Maps>, mid: seq<Maps>, after: seq<Maps>, v: View, low: Trie, ends: set<Endpoint>)
    requires AllInForce(before, mid, v, low, ends) && AllInForce(mid, after, v, low, ends)
    ensures AllInForce(before, after, v, low, ends)
  {
    hide InForce;
    assert after[..|before|] == mid[..|before|];
    forall i | |before| <= i < |after|
      ensures InForce(after[i], v, low, ends)
    {
      if i < |mid| {
        assert after[i] == after[..|mid|][i];
      }
    }
  }

  lemma InForceLower(before: seq<Maps>, after: seq<Maps>, v: View, low: Trie, low': Trie, ends: set<Endpoint>)
    requires AllInForce(before, after, v, low, ends) && Keeps(low', low)
    ensures AllInForce(before, after, v, low', ends)
  {
    hide ViewOf, TrieIds;
  }

  /** Writes to the tries do not disturb the view. */
  lemma TrieLogInForce(before: seq<Maps>, after: seq<Maps>, o: Maps, lo: Trie, hi: Trie, v: View, low: Trie,
                       ends: set<Endpoint>)
    requires TrieLog(before, after, o, lo, hi) && o.Sized() && ViewOf(o) == v
    requires Keeps(low, lo) && hi.Keys <= ends && TrieIds(hi)
    ensures AllInForce(before, after, v, low, ends)
  {
    forall i | |before| <= i < |after|
      ensures InForce(after[i], v, low, ends)
    {
      assert TrieBetween(after[i], o, lo, hi);
      assert Keeps(low, after[i].trie);
    }
  }

  // ---- Writes to the inactive sides ----

  /** m and o agree on everything but the rule maps of the inactive side and the inactive words. */
  predicate SameButShadow(m: Maps, o: Maps, slot: Side, side: Side) {
    && m.Sized()
    && m == o.WithConfig(slot.Other(), m.Config(slot.Other()))
             .WithBlacklist(side.Other(), m.Blacklist(side.Other()))
             .WithCidrBlacklist(side.Other(), m.CidrBlacklist(side.Other()))
  }

  /** Until the log has length flip lookups read v0, from then on v1. */
  ghost predicate StepAtomic(before: seq<Maps>, after: seq<Maps>, flip: nat, v0: View, low0: Trie, v1: View, low1: Trie,
                             ends: set<Endpoint>) {
    && |before| <= flip < |after|
    && AllInForce(before, after[..flip], v0, low0, ends) && AllInForce(after[..flip], after, v1, low1, ends)
  }

  /** The agent still shows v and its rules are those of a; at most some prefixes were added. */
  ghost predicate Undisturbed(h: Handlers, a: Agent, v: View, ends: set<Endpoint>)
    reads h, h.kernel, h.cidrMgr
  {
    && h.Sound() && ViewOf(h.kernel.maps) == v
    && h.Exact() == a.exact && h.Cidr() == a.cidr && h.Wl() == a.wl
    && Keeps(a.ids, h.cidrMgr.ids) && h.cidrMgr.ids.Keys <= ends
  }

  lemma UndisturbedInForce(h: Handlers, a: Agent, v: View, ends: set<Endpoint>)
    requires Undisturbed(h, a, v, ends)
    ensures InForce(h.kernel.maps, v, a.ids, ends) && h.kernel.maps.Sized() && h.Config() == v.config
    ensures SideOf(h.kernel.maps.selector) == h.activeSlot && h.kernel.maps.RuleSide() == h.activeRuleSlot
  {
  }

  twostate lemma ShadowWritten(h: Handlers, new a: Agent, new v: View, new ends: set<Endpoint>)
    requires old(Undisturbed(h, a, v, ends)) && unchanged(h, h.cidrMgr)
    requires SameButShadow(h.kernel.maps, old(h.kernel.maps), h.activeSlot, h.activeRuleSlot)
    ensures Undisturbed(h, a, v, ends) && InForce(h.kernel.maps, v, a.ids, ends)
  {
    hide Consistent, Keeps, TrieIds;
    ProperIds(h.cidrMgr);
  }

  twostate lemma WlShadowWritten(h: Handlers, new a: Agent, new v: View, new ends: set<Endpoint>)
    requires old(Undisturbed(h, a, v, ends)) && unchanged(h, h.cidrMgr)
    requires h.kernel.maps ==
              old(h.kernel.maps).WithWhitelist(h.activeWLSlot.Other(), h.kernel.maps.Whitelist(h.activeWLSlot.Other()))
    ensures Undisturbed(h, a, v, ends) && InForce(h.kernel.maps, v, a.ids, ends)
  {
    hide Consistent, Keeps, TrieIds;
    ProperIds(h.cidrMgr);
  }

  lemma LogOneMore(before: seq<Maps>, mid: seq<Maps>, m: Maps, v: View, low: Trie, ends: set<Endpoint>)
    requires AllInForce(before, mid, v, low, ends) && InForce(m, v, low, ends)
    ensures AllInForce(before, mid + [m], v, low, ends)
  {
    hide InForce;
  }

  lemma FlipLogged(before: seq<Maps>, log: seq<Maps>, m: Maps, after: seq<Maps>, v0: View, low0: Trie, v1: View,
                   held: Trie, low1: Trie, ends: set<Endpoint>)
    requires AllInForce(before, log, v0, low0, ends) && InForce(m, v1, held, ends) && Keeps(low1, held)
    requires AllInForce(log + [m], after, v1, low1, ends)
    ensures StepAtomic(before, after, |log|, v0, low0, v1, low1, ends)
  {
    assert after[..|log|] == (log + [m])[..|log|] == log;
    assert InForce(m, v1, low1, ends);
    assert after[|log|] == after[..|log| + 1][|log|] == m;
  }

  // ---- What lookups answer, at one instant and throughout ----

  /** The exact lookup as a function of the view. */
  function ExactAnswerIn(v: View, p: Packet, mode: Mode): Option<Key>
    requires |v.config| == CONFIG_MAP_ENTRIES
  {
    LookupRule(v.exact, v.config[BLACKLIST_COUNT], v.config[RULE_BITMAP], p.key, Meta(p.len, p.flags, mode))
  }

  /** A valid agent is served at this instant. */
  lemma ValidServes(h: Handlers)
    requires h.Valid()
    ensures Serves(ViewOf(h.kernel.maps), h.State())
    ensures InForce(h.kernel.maps, ViewOf(h.kernel.maps), h.cidrMgr.ids, h.cidrMgr.ids.Keys)
  {
    hide AgentInv, Gated;
  }

  /** What an instant at which v is in force answers, if v shows the rules of a. */
  ghost predicate AnswersFor(m: Maps, v: View, a: Agent, ends: set<Endpoint>, p: Packet, mode: Mode) {
    && m.Sized() && |v.config| == CONFIG_MAP_ENTRIES
    && m.ExactAnswer(p, mode) == ExactAnswerIn(v, p, mode)
    && (m.ExactAnswer(p, mode).Some? <==> SomeExactMatch(a.exact.rules, p, mode))
    && (m.CidrAnswer(p, mode).Some? ==> SomeDirectMatch(a.cidr.rules, p, mode))
    && (Disjoint(ends) ==> (m.CidrAnswer(p, mode).Some? <==> SomeDirectMatch(a.cidr.rules, p, mode)))
    && (WlBitsCover(v.config[WL_BITMAP], a.wl.entries) ==> (m.Whitelisted(p) <==> SomeWlMatch(a.wl.entries, p)))
  }

  lemma InstantAnswers(m: Maps, v: View, a: Agent, ends: set<Endpoint>, p: Packet, mode: Mode)
    requires InForce(m, v, a.ids, ends) && AgentInv(a) && Serves(v, a)
    ensures AnswersFor(m, v, a, ends, p, mode)
  {
    hide AgentInv, Gated, TrieIds, SomeExactMatch, SomeDirectMatch, SomeWlMatch, LookupRule, CidrSearch, GateHits,
         WlBitsCover, DirectMatch, ExactMatch, Keeps;
    ExactAnswers(m, a, p, mode);
    CidrAnswers(m, a, p, mode);
    if m.CidrAnswer(p, mode).Some? {
      var k := m.CidrAnswer(p, mode).value;
      SomeDirect(a.cidr, a.cidr.index[k], p, mode) by { IndexStored(a, k); }
    }
    if WlBitsCover(v.config[WL_BITMAP], a.wl.entries) {
      WlAnswers(m, a, p);
    }
    if Disjoint(ends) {
      DisjointSubset(m.trie.Keys, ends);
    }
  }

  lemma IndexStored(a: Agent, k: Key)
    requires AgentInv(a) && k in a.cidr.index
    ensures a.cidr.index[k] in a.cidr.rules
  {
    hide Counted, Mirrors, Usable, AllKeyed, RefsConserved, WlInv;
  }

  lemma SomeDirect(t: Table, id: Id, p: Packet, mode: Mode)
    requires id in t.rules && DirectMatch(t.rules[id], p, mode)
    ensures SomeDirectMatch(t.rules, p, mode)
  {
  }

  lemma DisjointSubset(small: set<Endpoint>, big: set<Endpoint>)
    requires small <= big && Disjoint(big)
    ensures Disjoint(small)
  {
    hide ShareAddress;
  }

  /** Step-level atomicity: at every single write of an operation, lookups answer for the old
      rules before the selector write and for the new ones from then on. */
  lemma AnswersThroughout(before: seq<Maps>, after: seq<Maps>, flip: nat, v0: View, a0: Agent, v1: View, a1: Agent,
                          ends: set<Endpoint>, i: nat, p: Packet, mode: Mode)
    requires StepAtomic(before, after, flip, v0, a0.ids, v1, a1.ids, ends)
    requires AgentInv(a0) && Serves(v0, a0) && AgentInv(a1) && Serves(v1, a1)
    requires |before| <= i < |after|
    ensures if i < flip then AnswersFor(after[i], v0, a0, ends, p, mode)
            else AnswersFor(after[i], v1, a1, ends, p, mode)
  {
    hide InForce, AgentInv, Serves, AnswersFor;
    if i < flip {
      assert after[..flip][i] == after[i];
      InstantAnswers(after[i], v0, a0, ends, p, mode);
    } else {
      InstantAnswers(after[i], v1, a1, ends, p, mode);
    }
  }

  /** The same for an operation that is aborted: every instant answers for the old rules. */
  lemma AnswersOnAbort(before: seq<Maps>, after: seq<Maps>, v: View, a: Agent, ends: set<Endpoint>, i: nat, p: Packet,
                       mode: Mode)
    requires AllInForce(before, after, v, a.ids, ends) && AgentInv(a) && Serves(v, a)
    requires |before| <= i < |after|
    ensures AnswersFor(after[i], v, a, ends, p, mode)
  {
    hide InForce, AgentInv, Serves, AnswersFor;
    InstantAnswers(after[i], v, a, ends, p, mode);
  }
}
