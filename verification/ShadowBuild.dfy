/** sync.go: how DoAtomicSync builds the new tables on the inactive sides, rule by rule. */
module ShadowBuild {
  import opened Rules
  import opened Combo
  import opened Requests
  import opened RuleTable
  import opened CidrLookup
  import opened Kernel
  import opened CidrManager
  import opened Handlers
  import opened CidrRules
  import opened ShadowTables
  import opened Views

  /** The keys of a rule map. */
  function RuleKeys(m: Maps, cidr: bool, side: Side): set<Key> {
    if cidr then m.CidrBlacklist(side).Keys else m.Blacklist(side).Keys
  }

  /** m is o except perhaps for that rule map. */
  predicate OnlyRuleMap(m: Maps, o: Maps, cidr: bool, side: Side) {
    if cidr then m == o.WithCidrBlacklist(side, m.CidrBlacklist(side))
    else m == o.WithBlacklist(side, m.Blacklist(side))
  }

  /** One entry of a rule map of the inactive side. */
  method DeleteEntry(k: KernelMaps, cidr: bool, side: Side, key: Key,
                     ghost v: View, ghost low: Trie, ghost ends: set<Endpoint>)
    returns (ok: bool)
    requires InForce(k.maps, v, low, ends) && side != k.maps.RuleSide()
    modifies k
    ensures InForce(k.maps, v, low, ends) && AllInForce(old(k.log), k.log, v, low, ends)
    ensures OnlyRuleMap(k.maps, old(k.maps), cidr, side) && side != k.maps.RuleSide()
    ensures RuleKeys(k.maps, cidr, side) == RuleKeys(old(k.maps), cidr, side) - if ok then {key} else {}
    ensures k.reliable && key in RuleKeys(old(k.maps), cidr, side) ==> ok
  {
    if cidr {
      ok := k.DeleteCidrRule(side, key);
    } else {
      ok := k.DeleteRule(side, key);
    }
  }

  /** clearMap on a rule map of the inactive side. The iterator may stop early and deletes may
      fail; ok says only that no delete failed. */
  method ClearRuleMap(k: KernelMaps, cidr: bool, side: Side, ghost v: View, ghost low: Trie, ghost ends: set<Endpoint>)
    returns (ok: bool)
    requires InForce(k.maps, v, low, ends) && side != k.maps.RuleSide()
    modifies k
    ensures InForce(k.maps, v, low, ends) && AllInForce(old(k.log), k.log, v, low, ends)
    ensures OnlyRuleMap(k.maps, old(k.maps), cidr, side)
    ensures k.reliable ==> ok && RuleKeys(k.maps, cidr, side) == {}
  {
    hide AllInForce, RuleKeys, Keeps, TrieIds, ViewOf;
    ok := true;
    var keys := RuleKeys(k.maps, cidr, side);
    NothingLogged(k.log, v, low, ends);
    while keys != {}
      invariant InForce(k.maps, v, low, ends) && AllInForce(old(k.log), k.log, v, low, ends)
      invariant OnlyRuleMap(k.maps, old(k.maps), cidr, side) && side != k.maps.RuleSide()
      invariant k.reliable ==> ok && keys == RuleKeys(k.maps, cidr, side)
      decreases keys
    {
      var stops: bool := *;
      if stops && !k.reliable {
        break;
      }
      var key :| key in keys;
      keys := keys - {key};
      ghost var log := k.log;
      var deleted := DeleteEntry(k, cidr, side, key, v, low, ends);
      InForceJoins(old(k.log), log, k.log, v, low, ends);
      ok := ok && deleted;
    }
  }

  lemma NothingLogged(log: seq<Maps>, v: View, low: Trie, ends: set<Endpoint>)
    ensures AllInForce(log, log, v, low, ends)
  {
  }

  /** Both rule maps of the inactive side; the errors only matter to the log file. */
  method ClearBoth(k: KernelMaps, side: Side, ghost v: View, ghost low: Trie, ghost ends: set<Endpoint>)
    requires InForce(k.maps, v, low, ends) && side != k.maps.RuleSide()
    modifies k
    ensures InForce(k.maps, v, low, ends) && AllInForce(old(k.log), k.log, v, low, ends)
    ensures k.maps == old(k.maps).WithBlacklist(side, k.maps.Blacklist(side))
                      .WithCidrBlacklist(side, k.maps.CidrBlacklist(side))
    ensures k.reliable ==> k.maps.Blacklist(side) == map[] && k.maps.CidrBlacklist(side) == map[]
  {
    hide AllInForce, Keeps, TrieIds;
    ghost var log := k.log;
    var _ := ClearRuleMap(k, false, side, v, low, ends);
    ghost var mid := k.log;
    var _ := ClearRuleMap(k, true, side, v, low, ends);
    InForceJoins(log, mid, k.log, v, low, ends);
  }

  // ---- Building ----

  /** The local tables of one kind that the sync fills. */
  datatype Shadow = Shadow(rules: map<Id, Stored>, index: map<Key, Id>, combo: seq<int>, count: nat)

  const NO_SHADOW := Shadow(map[], map[], NO_COUNTS, 0)

  function Grow(s: Shadow, id: Id, st: Stored): Shadow {
    Shadow(s.rules[id := st], s.index[st.key := id], Bump(s.combo, ComboType(st.key), 1), s.count + 1)
  }

  /** The local tables and the shadow map hold the items, on top of what the clear left over. */
  ghost predicate Shows(s: Shadow, live: map<Key, RuleValue>, left: map<Key, RuleValue>, items: seq<Built>) {
    && Table(s.rules, s.index, s.combo, live) == PutAll(Leftover(left), items)
    && s.count == |items| && FreshKeys(items, left)
  }

  lemma ShowsNothing(left: map<Key, RuleValue>)
    ensures Shows(NO_SHADOW, left, left, [])
  {
  }

  lemma ShowsOneMore(s: Shadow, live: map<Key, RuleValue>, left: map<Key, RuleValue>, items: seq<Built>, id: Id,
                     st: Stored)
    requires Shows(s, live, left, items) && st.key !in live && ValidCombo(ComboType(st.key))
    ensures Shows(Grow(s, id, st), live[st.key := ValueOf(st)], left, items + [Built(id, st)])
  {
    hide ComboType, ValueOf;
    var items' := items + [Built(id, st)];
    assert items'[..|items|] == items;
    PutAllIds(Leftover(left), items);
  }

  twostate lemma TriesWritten(h: Handlers, new a: Agent, new v: View, new ends: set<Endpoint>, new low: Trie,
                              new peak: Trie)
    requires old(Undisturbed(h, a, v, ends)) && unchanged(h) && h.cidrMgr.Valid()
    requires h.kernel.maps == old(h.kernel.maps).(trie := h.cidrMgr.ids)
    requires Keeps(a.ids, h.cidrMgr.ids) && h.cidrMgr.ids.Keys <= ends && peak.Keys <= ends && TrieIds(peak)
    requires Keeps(a.ids, low) && TrieLog(old(h.kernel.log), h.kernel.log, old(h.kernel.maps), low, peak)
    ensures Undisturbed(h, a, v, ends) && AllInForce(old(h.kernel.log), h.kernel.log, v, a.ids, ends)
  {
    hide TrieLog, AllInForce, TrieIds;
    TrieLogInForce(old(h.kernel.log), h.kernel.log, old(h.kernel.maps), low, peak, v, a.ids, ends);
  }

  /** None of the items has the key, or the target. */
  ghost predicate KeyFree(items: seq<Built>, k: Key) {
    forall i :: 0 <= i < |items| ==> items[i].stored.key != k
  }

  ghost predicate TargetFree(items: seq<Built>, st: Stored) {
    forall i :: 0 <= i < |items| ==> !SameTarget(items[i].stored, st)
  }

  /** On a map that had been cleared exactly the items' keys are taken. */
  lemma ShownKeys(s: Shadow, live: map<Key, RuleValue>, items: seq<Built>, k: Key)
    requires Shows(s, live, map[], items)
    ensures k in live <==> !KeyFree(items, k)
  {
    hide ComboType, ValueOf, PutAll;
    PutAllIds(Leftover(map[]), items);
  }

  /** One exact rule of the request: checked, written to the shadow map, entered in the tables. */
  method BuildExact(h: Handlers, r: Rule, s: Shadow, ghost items: seq<Built>, ghost left: map<Key, RuleValue>,
                    ghost a: Agent, ghost v: View, ghost ends: set<Endpoint>, ghost before: seq<Maps>)
    returns (ok: bool, s': Shadow, ghost items': seq<Built>)
    requires Undisturbed(h, a, v, ends) && AllInForce(before, h.kernel.log, v, a.ids, ends)
    requires Shows(s, h.kernel.maps.Blacklist(h.activeRuleSlot.Other()), left, items)
    modifies h.kernel
    ensures Undisturbed(h, a, v, ends) && AllInForce(before, h.kernel.log, v, a.ids, ends)
    ensures Shows(s', h.kernel.maps.Blacklist(h.activeRuleSlot.Other()), left, items')
    ensures OnlyBlacklist(h.kernel.maps, old(h.kernel.maps), h.activeRuleSlot.Other())
    ensures ok ==> PrepareExact(r, false).Some? && items' == items + [Built(r.id, PrepareExact(r, false).value.stored)]
    ensures !ok ==> items' == items
    ensures h.kernel.reliable && left == map[] ==>
              (ok <==> PrepareExact(r, false).Some? && KeyFree(items, PrepareExact(r, false).value.stored.key))
  {
    hide KeyFree, Shows, ComboType, ValueOf, PrepareExact, AllInForce, InForce, Undisturbed, Grow;
    s', items' := s, items;
    var p := PrepareExact(r, false);
    if p.None? {
      return false, s, items;
    }
    RebuiltValueIsWrittenValue(r, false, false, 0, 0);
    UndisturbedInForce(h, a, v, ends);
    var key, side := p.value.stored.key, h.activeRuleSlot.Other();
    ghost var live, log := h.kernel.maps.Blacklist(side), h.kernel.log;
    if left == map[] {
      ShownKeys(s, live, items, key);
    }
    ok := h.kernel.InsertRule(side, key, p.value.value);
    ShadowWritten(h, a, v, ends);
    LogOneMore(before, log, h.kernel.maps, v, a.ids, ends);
    if ok {
      ShowsOneMore(s, live, left, items, r.id, p.value.stored);
      s', items' := Grow(s, r.id, p.value.stored), items + [Built(r.id, p.value.stored)];
    }
  }

  /** The references taken so far, over those of a, and the ids in the keys. */
  ghost predicate ReferencedIn(ids: Trie, refs: Refs, a: Agent, items: seq<Built>) {
    && (forall e :: Ref(refs, e) == Ref(a.refs, e) + UsesIn(items, e))
    && forall i :: 0 <= i < |items| ==> Keyed(items[i].stored, ids)
  }

  ghost predicate Referenced(m: Manager, a: Agent, items: seq<Built>)
    reads m
  {
    ReferencedIn(m.ids, m.refs, a, items)
  }

  lemma ReferencedOneMore(ids: Trie, refs: Refs, m: Manager, a: Agent, items: seq<Built>, it: Built)
    requires ReferencedIn(ids, refs, a, items) && Took(m, ids, refs, it.stored)
    ensures Referenced(m, a, items + [it])
  {
    hide UsesN;
    assert (items + [it])[..|items|] == items;
  }

  /** The manager holds, over ids and refs, one reference on each prefix of st. */
  ghost predicate Took(m: Manager, ids: Trie, refs: Refs, st: Stored)
    reads m
  {
    && Keeps(ids, m.ids) && Keyed(st, m.ids)
    && forall e :: Ref(m.refs, e) == Ref(refs, e) + UsesN(st, e)
  }

  method TakeShadowIds(h: Handlers, p: Stored, ghost a: Agent, ghost v: View, ghost ends: set<Endpoint>,
                       ghost before: seq<Maps>)
    returns (ok: bool, st: Stored)
    requires Undisturbed(h, a, v, ends) && AllInForce(before, h.kernel.log, v, a.ids, ends)
    requires (p.src.Some? || p.dst.Some?) && Ends(p) <= ends
    modifies h.kernel, h.cidrMgr
    ensures Undisturbed(h, a, v, ends) && AllInForce(before, h.kernel.log, v, a.ids, ends)
    ensures h.kernel.maps == old(h.kernel.maps).(trie := h.cidrMgr.ids)
    ensures !ok ==> h.cidrMgr.ids == old(h.cidrMgr.ids) && h.cidrMgr.refs == old(h.cidrMgr.refs)
    ensures ok ==>
              st == WithIds(p, st.key.src, st.key.dst) && Took(h.cidrMgr, old(h.cidrMgr.ids), old(h.cidrMgr.refs), st)
    ensures ok ==> ValidCombo(ComboType(st.key)) && TrieIds(h.cidrMgr.ids)
    ensures h.kernel.reliable ==> ok
  {
    hide ComboType, AllInForce, InForce, TrieLog, TrieIds, UsesN, Ends;
    ghost var ids, log := h.cidrMgr.ids, h.kernel.log;
    var srcID, dstID;
    ghost var peak;
    label Start:
    ok, srcID, dstID, peak := AllocPair(h.cidrMgr, p);
    TriesWritten@Start(h, a, v, ends, ids, peak);
    InForceJoins(before, log, h.kernel.log, v, a.ids, ends);
    st := WithIds(p, srcID, dstID);
    SamePrefixes(p, st);
    if ok {
      ProperIds(h.cidrMgr);
      KeyedIsUsable(st, h.cidrMgr.ids);
    }
  }

  method ReturnShadowIds(h: Handlers, st: Stored, ghost ids: Trie, ghost refs: Refs, ghost a: Agent, ghost v: View,
                         ghost ends: set<Endpoint>, ghost before: seq<Maps>)
    requires Undisturbed(h, a, v, ends) && AllInForce(before, h.kernel.log, v, a.ids, ends)
    requires Took(h.cidrMgr, ids, refs, st) && Keeps(a.ids, ids)
    requires ids.Keys == refs.Keys && forall e :: e in refs ==> refs[e] > 0
    modifies h.kernel, h.cidrMgr
    ensures Undisturbed(h, a, v, ends) && AllInForce(before, h.kernel.log, v, a.ids, ends)
    ensures h.kernel.maps == old(h.kernel.maps).(trie := h.cidrMgr.ids)
    ensures h.cidrMgr.ids == ids && h.cidrMgr.refs == refs
  {
    hide AllInForce, InForce, TrieLog, TrieIds, UsesN, Ends;
    KeyedEnds(st, h.cidrMgr.ids);
    ProperIds(h.cidrMgr);
    ghost var held, log := h.cidrMgr.ids, h.kernel.log;
    label Start:
    ReleasePair(h.cidrMgr, st);
    SameContents(h.cidrMgr.ids, h.cidrMgr.refs, ids, refs);
    TriesWritten@Start(h, a, v, ends, h.cidrMgr.ids, held);
    InForceJoins(before, log, h.kernel.log, v, a.ids, ends);
  }

  /** Under ids that are one per prefix, the same target is the same key. */
  lemma TargetByKey(x: Stored, y: Stored, ids: Trie)
    requires Keyed(x, ids) && Keyed(y, ids) && TrieIds(ids)
    ensures SameTarget(x, y) <==> x.key == y.key
  {
    hide TrieIds;
    if x.key == y.key {
      SameKeySameTarget(x, y, ids);
    }
  }

  lemma TargetsByKey(items: seq<Built>, ids: Trie, m: Manager, a: Agent, refs: Refs, p: Stored, st: Stored)
    requires ReferencedIn(ids, refs, a, items) && Took(m, ids, refs, st) && TrieIds(m.ids)
    requires st == WithIds(p, st.key.src, st.key.dst)
    ensures KeyFree(items, st.key) <==> TargetFree(items, p)
  {
    hide TrieIds, Ref, UsesN, UsesIn;
    forall i | 0 <= i < |items|
      ensures SameTarget(items[i].stored, p) <==> items[i].stored.key == st.key
    {
      assert Keyed(items[i].stored, m.ids);
      TargetByKey(items[i].stored, st, m.ids);
    }
  }

  /** One CIDR rule of the request: ids are taken for it, and given back if it is not stored. */
  method BuildCidr(h: Handlers, r: Rule, s: Shadow, ghost items: seq<Built>, ghost left: map<Key, RuleValue>,
                   ghost a: Agent, ghost v: View, ghost ends: set<Endpoint>, ghost before: seq<Maps>)
    returns (ok: bool, s': Shadow, ghost items': seq<Built>)
    requires Undisturbed(h, a, v, ends) && AllInForce(before, h.kernel.log, v, a.ids, ends)
    requires Shows(s, h.kernel.maps.CidrBlacklist(h.activeRuleSlot.Other()), left, items)
    requires Referenced(h.cidrMgr, a, items)
    requires PrepareCIDR(r, false, true).Some? ==> Ends(PrepareCIDR(r, false, true).value.stored) <= ends
    modifies h.kernel, h.cidrMgr
    ensures Undisturbed(h, a, v, ends) && AllInForce(before, h.kernel.log, v, a.ids, ends)
    ensures Shows(s', h.kernel.maps.CidrBlacklist(h.activeRuleSlot.Other()), left, items')
    ensures Referenced(h.cidrMgr, a, items')
    ensures h.kernel.maps.Blacklist(h.activeRuleSlot.Other()) == old(h.kernel.maps).Blacklist(h.activeRuleSlot.Other())
    ensures ok ==> PrepareCIDR(r, false, true).Some? && |items'| == |items| + 1 && items'[..|items|] == items
                   && items'[|items|].id == r.id
                   && WithIds(items'[|items|].stored, 0, 0) == PrepareCIDR(r, false, true).value.stored
    ensures !ok ==> items' == items
    ensures h.kernel.reliable && left == map[] ==>
              (ok <==> PrepareCIDR(r, false, true).Some? && TargetFree(items, PrepareCIDR(r, false, true).value.stored))
  {
    hide KeyFree, TargetFree, TrieIds, Shows, ComboType, ValueOf, PrepareCIDR, AllInForce, InForce, Ends, Grow,
         Undisturbed, Took, ReferencedIn;
    s', items' := s, items;
    var prepared := PrepareCIDR(r, false, true);
    if prepared.None? {
      return false, s, items;
    }
    var p := prepared.value;
    ghost var ids, refs := h.cidrMgr.ids, h.cidrMgr.refs;
    UndisturbedIds(h, a, v, ends);
    var st;
    ok, st := TakeShadowIds(h, p.stored, a, v, ends, before);
    if !ok {
      return;
    }
    RebuiltValueIsWrittenValue(r, false, true, st.key.src, st.key.dst);
    UndisturbedInForce(h, a, v, ends);
    ghost var live, log := h.kernel.maps.CidrBlacklist(h.activeRuleSlot.Other()), h.kernel.log;
    TargetsByKey(items, ids, h.cidrMgr, a, refs, p.stored, st);
    if left == map[] {
      ShownKeys(s, live, items, st.key);
    }
    label Taken:
    ok := h.kernel.InsertCidrRule(h.activeRuleSlot.Other(), st.key, p.value);
    ShadowWritten@Taken(h, a, v, ends);
    LogOneMore(before, log, h.kernel.maps, v, a.ids, ends);
    if ok {
      ShowsOneMore(s, live, left, items, r.id, st);
      s', items' := Grow(s, r.id, st), items + [Built(r.id, st)];
      ReferencedOneMore(ids, refs, h.cidrMgr, a, items, Built(r.id, st));
    } else {
      ReturnShadowIds(h, st, ids, refs, a, v, ends, before);
    }
  }

  lemma UndisturbedIds(h: Handlers, a: Agent, v: View, ends: set<Endpoint>)
    requires Undisturbed(h, a, v, ends)
    ensures h.cidrMgr.ids.Keys == h.cidrMgr.refs.Keys && (forall e :: e in h.cidrMgr.refs ==> h.cidrMgr.refs[e] > 0)
    ensures Keeps(a.ids, h.cidrMgr.ids) && h.cidrMgr.ids.Keys <= ends
    ensures h.cidrMgr.kernel == h.kernel && h.cidrMgr.Valid() && ViewOf(h.kernel.maps) == v
  {
    hide ViewOf, Keeps;
  }

  // ---- What was asked for ----

  predicate Acceptable(r: Rule) {
    if HasCIDR(r) then PrepareCIDR(r, false, true).Some? else PrepareExact(r, false).Some?
  }

  /** The exact rules of the request in order, as they are stored. */
  function ExactItems(reqs: seq<Rule>): seq<Built> {
    if reqs == [] then []
    else
      var rest, r := ExactItems(reqs[..|reqs| - 1]), reqs[|reqs| - 1];
      if !HasCIDR(r) && PrepareExact(r, false).Some? then rest + [Built(r.id, PrepareExact(r, false).value.stored)]
      else rest
  }

  /** The CIDR rules of the request in order, with the ids in their keys left open. */
  function CidrItems(reqs: seq<Rule>): seq<Built> {
    if reqs == [] then []
    else
      var rest, r := CidrItems(reqs[..|reqs| - 1]), reqs[|reqs| - 1];
      if HasCIDR(r) && PrepareCIDR(r, false, true).Some?
      then rest + [Built(r.id, PrepareCIDR(r, false, true).value.stored)] else rest
  }

  /** The prefixes that the request names. */
  function AskedEnds(reqs: seq<Rule>): set<Endpoint> {
    if reqs == [] then {}
    else
      var rest, r := AskedEnds(reqs[..|reqs| - 1]), reqs[|reqs| - 1];
      if HasCIDR(r) && PrepareCIDR(r, false, true).Some? then rest + Ends(PrepareCIDR(r, false, true).value.stored)
      else rest
  }

  function Unkeyed(items: seq<Built>): seq<Built> {
    if items == [] then []
    else
      var last := items[|items| - 1];
      Unkeyed(items[..|items| - 1]) + [Built(last.id, WithIds(last.stored, 0, 0))]
  }

  lemma {:induction false} UnkeyedAt(items: seq<Built>, i: nat)
    requires i < |items|
    ensures |Unkeyed(items)| == |items| && Unkeyed(items)[i] == Built(items[i].id, WithIds(items[i].stored, 0, 0))
  {
    if i < |items| - 1 {
      UnkeyedAt(items[..|items| - 1], i);
    } else if |items| > 1 {
      UnkeyedAt(items[..|items| - 1], 0);
    }
  }

  /** Every rule of the request can be stored beside the ones before it: it is acceptable, and an
      exact rule's key, or a CIDR rule's target, is not that of an earlier one. */
  ghost predicate Buildable(reqs: seq<Rule>) {
    reqs == [] ||
    var init, r := reqs[..|reqs| - 1], reqs[|reqs| - 1];
    && Buildable(init) && Acceptable(r)
    && if HasCIDR(r) then TargetFree(CidrItems(init), PrepareCIDR(r, false, true).value.stored)
       else KeyFree(ExactItems(init), PrepareExact(r, false).value.stored.key)
  }

  /** The next rule after some that all went well. */
  lemma BuildableNext(reqs: seq<Rule>, r: Rule, exact: seq<Built>, cidr: seq<Built>)
    requires AsAsked(reqs, exact, cidr)
    ensures Buildable(reqs + [r]) <==>
            && Buildable(reqs) && Acceptable(r)
            && if HasCIDR(r) then TargetFree(cidr, PrepareCIDR(r, false, true).value.stored)
               else KeyFree(exact, PrepareExact(r, false).value.stored.key)
  {
    hide PrepareCIDR, PrepareExact, HasCIDR, KeyFree, TargetFree, ExactItems, CidrItems, Unkeyed;
    assert (reqs + [r])[..|reqs|] == reqs;
    if HasCIDR(r) && Acceptable(r) {
      UnkeyedTargets(cidr, PrepareCIDR(r, false, true).value.stored);
    }
  }

  /** The ids in the keys do not matter to the targets. */
  lemma UnkeyedTargets(items: seq<Built>, st: Stored)
    ensures TargetFree(Unkeyed(items), st) <==> TargetFree(items, st)
  {
    hide Unkeyed;
    forall i | 0 <= i < |items|
      ensures |Unkeyed(items)| == |items|
      ensures (SameTarget(Unkeyed(items)[i].stored, st) <==> SameTarget(items[i].stored, st))
    {
      UnkeyedAt(items, i);
    }
    UnkeyedLength(items);
  }

  /** Nor to their ids. */
  lemma UnkeyedDistinct(items: seq<Built>)
    ensures DistinctBuilt(Unkeyed(items)) <==> DistinctBuilt(items)
  {
    hide Unkeyed;
    UnkeyedLength(items);
    forall i | 0 <= i < |items|
      ensures Unkeyed(items)[i].id == items[i].id
    {
      UnkeyedAt(items, i);
    }
  }

  lemma UnkeyedLength(items: seq<Built>)
    ensures |Unkeyed(items)| == |items|
  {
    if items != [] {
      UnkeyedAt(items, 0);
    }
  }

  /** The CIDR rules that are stored if no write fails, each unless an earlier one has its target. */
  ghost function BuiltCidr(reqs: seq<Rule>): seq<Built> {
    if reqs == [] then []
    else
      var rest, r := BuiltCidr(reqs[..|reqs| - 1]), reqs[|reqs| - 1];
      if HasCIDR(r) && PrepareCIDR(r, false, true).Some? && TargetFree(rest, PrepareCIDR(r, false, true).value.stored)
      then rest + [Built(r.id, PrepareCIDR(r, false, true).value.stored)]
      else rest
  }

  /** One CIDR rule has been stored, or was refused because it must be. */
  lemma {:induction false} BuiltCidrNext(reqs: seq<Rule>, r: Rule, cidr: seq<Built>, cidr': seq<Built>, ok: bool)
    requires Unkeyed(cidr) == BuiltCidr(reqs) && HasCIDR(r)
    requires ok <==> PrepareCIDR(r, false, true).Some? && TargetFree(cidr, PrepareCIDR(r, false, true).value.stored)
    requires ok ==> |cidr'| == |cidr| + 1 && cidr'[..|cidr|] == cidr && cidr'[|cidr|].id == r.id
                    && WithIds(cidr'[|cidr|].stored, 0, 0) == PrepareCIDR(r, false, true).value.stored
    requires !ok ==> cidr' == cidr
    ensures Unkeyed(cidr') == BuiltCidr(reqs + [r])
  {
    hide PrepareCIDR, HasCIDR, WithIds, TargetFree;
    assert (reqs + [r])[..|reqs|] == reqs;
    if PrepareCIDR(r, false, true).Some? {
      UnkeyedTargets(cidr, PrepareCIDR(r, false, true).value.stored);
    }
  }

  lemma BuiltCidrSkips(reqs: seq<Rule>, r: Rule)
    requires !HasCIDR(r)
    ensures BuiltCidr(reqs + [r]) == BuiltCidr(reqs)
  {
    hide PrepareCIDR, HasCIDR, TargetFree;
    assert (reqs + [r])[..|reqs|] == reqs;
  }

  lemma BuildablePrefix(reqs: seq<Rule>, r: Rule)
    ensures Buildable(reqs + [r]) ==> Buildable(reqs)
  {
    hide PrepareCIDR, PrepareExact, HasCIDR, KeyFree, TargetFree, ExactItems, CidrItems;
    assert (reqs + [r])[..|reqs|] == reqs;
  }

  lemma {:induction false} AskedEndsOf(reqs: seq<Rule>, i: nat)
    requires i < |reqs| && HasCIDR(reqs[i]) && PrepareCIDR(reqs[i], false, true).Some?
    ensures Ends(PrepareCIDR(reqs[i], false, true).value.stored) <= AskedEnds(reqs)
  {
    hide PrepareCIDR, HasCIDR, Ends;
    if i < |reqs| - 1 {
      AskedEndsOf(reqs[..|reqs| - 1], i);
    }
  }

  /** The items stored so far are, while nothing failed, those asked for so far. */
  ghost predicate AsAsked(reqs: seq<Rule>, exact: seq<Built>, cidr: seq<Built>) {
    && exact == ExactItems(reqs) && Unkeyed(cidr) == CidrItems(reqs)
    && forall i :: 0 <= i < |reqs| ==> Acceptable(reqs[i])
  }

  lemma AsAskedExact(reqs: seq<Rule>, exact: seq<Built>, cidr: seq<Built>, r: Rule)
    requires AsAsked(reqs, exact, cidr) && !HasCIDR(r) && PrepareExact(r, false).Some?
    ensures AsAsked(reqs + [r], exact + [Built(r.id, PrepareExact(r, false).value.stored)], cidr)
  {
    hide PrepareCIDR, PrepareExact, HasCIDR;
    assert (reqs + [r])[..|reqs|] == reqs;
  }

  lemma AsAskedCidr(reqs: seq<Rule>, exact: seq<Built>, cidr: seq<Built>, r: Rule, cidr': seq<Built>)
    requires AsAsked(reqs, exact, cidr) && HasCIDR(r) && PrepareCIDR(r, false, true).Some?
    requires |cidr'| == |cidr| + 1 && cidr'[..|cidr|] == cidr && cidr'[|cidr|].id == r.id
    requires WithIds(cidr'[|cidr|].stored, 0, 0) == PrepareCIDR(r, false, true).value.stored
    ensures AsAsked(reqs + [r], exact, cidr')
  {
    hide PrepareCIDR, PrepareExact, HasCIDR, WithIds;
    assert (reqs + [r])[..|reqs|] == reqs;
  }

  // ---- Repeated ids ----

  /** Both rules are acceptable, and they go into the same table. */
  predicate SameTable(r: Rule, s: Rule) {
    Acceptable(r) && Acceptable(s) && (HasCIDR(r) <==> HasCIDR(s))
  }

  /** No id is repeated among the acceptable exact rules, and none among the acceptable CIDR rules.
      A rule of each kind may share an id, and a refused rule may repeat any. */
  predicate NoRepeat(reqs: seq<Rule>) {
    forall i, j :: 0 <= i < j < |reqs| && SameTable(reqs[i], reqs[j]) ==> reqs[i].id != reqs[j].id
  }

  /** An acceptable rule of this kind has the id. */
  ghost predicate Requested(id: Id, reqs: seq<Rule>, cidr: bool) {
    exists j :: 0 <= j < |reqs| && reqs[j].id == id && Acceptable(reqs[j]) && (HasCIDR(reqs[j]) <==> cidr)
  }

  ghost predicate OnPrefixes(items: seq<Built>) {
    forall x :: 0 <= x < |items| ==> items[x].stored.src.Some? || items[x].stored.dst.Some?
  }

  /** The items come from acceptable rules of one kind, so that no id is among them twice if none
      is repeated in the request. */
  ghost predicate FromReqs(items: seq<Built>, reqs: seq<Rule>, cidr: bool) {
    && (forall k :: 0 <= k < |items| ==> Requested(items[k].id, reqs, cidr))
    && (NoRepeat(reqs) ==> DistinctBuilt(items))
    && (cidr ==> OnPrefixes(items))
  }

  lemma RequestedMore(id: Id, reqs: seq<Rule>, r: Rule, cidr: bool)
    ensures Requested(id, reqs, cidr) ==> Requested(id, reqs + [r], cidr)
    ensures Acceptable(r) && (HasCIDR(r) <==> cidr) ==> Requested(r.id, reqs + [r], cidr)
    ensures NoRepeat(reqs + [r]) ==> NoRepeat(reqs)
    ensures NoRepeat(reqs + [r]) && Requested(id, reqs, cidr) && Acceptable(r) && (HasCIDR(r) <==> cidr) ==> id != r.id
  {
    hide Acceptable, HasCIDR;
    var reqs' := reqs + [r];
    assert reqs'[|reqs|] == r && forall j :: 0 <= j < |reqs| ==> reqs'[j] == reqs[j];
    if NoRepeat(reqs') && Requested(id, reqs, cidr) {
      var j :| 0 <= j < |reqs| && reqs[j].id == id && Acceptable(reqs[j]) && (HasCIDR(reqs[j]) <==> cidr);
      assert SameTable(reqs'[j], reqs'[|reqs|]) ==> reqs'[j].id != reqs'[|reqs|].id;
    }
  }

  lemma FromReqsSkip(items: seq<Built>, reqs: seq<Rule>, r: Rule, cidr: bool)
    requires FromReqs(items, reqs, cidr)
    ensures FromReqs(items, reqs + [r], cidr)
  {
    hide Requested, NoRepeat, OnPrefixes;
    RequestedMore(r.id, reqs, r, cidr);
    forall k | 0 <= k < |items|
      ensures Requested(items[k].id, reqs + [r], cidr)
    {
      RequestedMore(items[k].id, reqs, r, cidr);
    }
  }

  lemma FromReqsMore(items: seq<Built>, items': seq<Built>, reqs: seq<Rule>, r: Rule, cidr: bool)
    requires FromReqs(items, reqs, cidr) && Acceptable(r) && (HasCIDR(r) <==> cidr)
    requires |items'| == |items| + 1 && items'[..|items|] == items && items'[|items|].id == r.id
    requires cidr ==> items'[|items|].stored.src.Some? || items'[|items|].stored.dst.Some?
    ensures FromReqs(items', reqs + [r], cidr)
  {
    hide Requested, NoRepeat, Acceptable, HasCIDR;
    RequestedMore(r.id, reqs, r, cidr);
    forall k | 0 <= k < |items'|
      ensures Requested(items'[k].id, reqs + [r], cidr)
      ensures k < |items| && NoRepeat(reqs + [r]) ==> items'[k].id != r.id
      ensures cidr ==> items'[k].stored.src.Some? || items'[k].stored.dst.Some?
    {
      if k < |items| {
        assert items'[k] == items'[..|items|][k];
        RequestedMore(items[k].id, reqs, r, cidr);
      }
    }
    assert forall k :: 0 <= k < |items| ==> items'[k] == items'[..|items|][k];
  }

  lemma {:induction false} ItemOf(reqs: seq<Rule>, i: nat) returns (k: nat)
    requires i < |reqs| && Acceptable(reqs[i])
    ensures var items := if HasCIDR(reqs[i]) then CidrItems(reqs) else ExactItems(reqs);
            k < |items| && items[k].id == reqs[i].id
            && items[k].stored == if HasCIDR(reqs[i]) then PrepareCIDR(reqs[i], false, true).value.stored
                                  else PrepareExact(reqs[i], false).value.stored
  {
    hide PrepareCIDR, PrepareExact, HasCIDR;
    var n := |reqs| - 1;
    if i < n {
      k := ItemOf(reqs[..n], i);
    } else {
      k := if HasCIDR(reqs[i]) then |CidrItems(reqs)| - 1 else |ExactItems(reqs)| - 1;
    }
  }

  /** If all rules of the request are stored, their ids are distinct only if none is repeated. */
  lemma {:induction false} DistinctMeansNoRepeat(reqs: seq<Rule>)
    requires DistinctBuilt(ExactItems(reqs)) && DistinctBuilt(CidrItems(reqs))
    ensures NoRepeat(reqs)
  {
    hide Acceptable, HasCIDR, ExactItems, CidrItems;
    if reqs != [] {
      var n := |reqs| - 1;
      DistinctInit(reqs);
      DistinctMeansNoRepeat(reqs[..n]);
      forall i | 0 <= i < n && SameTable(reqs[i], reqs[n])
        ensures reqs[i].id != reqs[n].id
      {
        var k := ItemOf(reqs[..n], i);
        LastItem(reqs);
        if HasCIDR(reqs[n]) {
          assert CidrItems(reqs)[k] == CidrItems(reqs[..n])[k];
        } else {
          assert ExactItems(reqs)[k] == ExactItems(reqs[..n])[k];
        }
      }
      assert forall i :: 0 <= i < n ==> reqs[..n][i] == reqs[i];
    }
  }

  lemma LastItem(reqs: seq<Rule>)
    requires reqs != [] && Acceptable(reqs[|reqs| - 1])
    ensures var r, init := reqs[|reqs| - 1], reqs[..|reqs| - 1];
            if HasCIDR(r) then
              |CidrItems(reqs)| == |CidrItems(init)| + 1 && CidrItems(reqs)[..|CidrItems(init)|] == CidrItems(init)
              && CidrItems(reqs)[|CidrItems(init)|].id == r.id
            else
              |ExactItems(reqs)| == |ExactItems(init)| + 1 && ExactItems(reqs)[..|ExactItems(init)|] == ExactItems(init)
              && ExactItems(reqs)[|ExactItems(init)|].id == r.id
  {
    hide PrepareCIDR, PrepareExact, HasCIDR;
  }

  lemma DistinctInit(reqs: seq<Rule>)
    requires reqs != [] && DistinctBuilt(ExactItems(reqs)) && DistinctBuilt(CidrItems(reqs))
    ensures DistinctBuilt(ExactItems(reqs[..|reqs| - 1])) && DistinctBuilt(CidrItems(reqs[..|reqs| - 1]))
  {
    hide PrepareCIDR, PrepareExact, HasCIDR;
    var n := |reqs| - 1;
    assert forall i :: 0 <= i < |ExactItems(reqs[..n])| ==> ExactItems(reqs)[i] == ExactItems(reqs[..n])[i];
    assert forall i :: 0 <= i < |CidrItems(reqs[..n])| ==> CidrItems(reqs)[i] == CidrItems(reqs[..n])[i];
  }

  /** What a step of the loop keeps about the items, for a rule of each kind. */
  lemma {:induction false} CidrRecorded(reqs: seq<Rule>, r: Rule, exact: seq<Built>, cidr: seq<Built>,
                                        cidr': seq<Built>, ok: bool)
    requires FromReqs(exact, reqs, false) && FromReqs(cidr, reqs, true) && HasCIDR(r)
    requires ok ==> PrepareCIDR(r, false, true).Some? && |cidr'| == |cidr| + 1 && cidr'[..|cidr|] == cidr
                    && cidr'[|cidr|].id == r.id
                    && WithIds(cidr'[|cidr|].stored, 0, 0) == PrepareCIDR(r, false, true).value.stored
    requires !ok ==> cidr' == cidr
    ensures FromReqs(exact, reqs + [r], false) && FromReqs(cidr', reqs + [r], true)
    ensures ok && AsAsked(reqs, exact, cidr) ==> AsAsked(reqs + [r], exact, cidr')
  {
    hide HasCIDR, FromReqs, AsAsked;
    FromReqsSkip(exact, reqs, r, false);
    if ok {
      FromReqsMore(cidr, cidr', reqs, r, true);
      if AsAsked(reqs, exact, cidr) {
        AsAskedCidr(reqs, exact, cidr, r, cidr');
      }
    } else {
      FromReqsSkip(cidr, reqs, r, true);
    }
  }

  lemma {:induction false} ExactRecorded(reqs: seq<Rule>, r: Rule, exact: seq<Built>, exact': seq<Built>,
                                         cidr: seq<Built>, ok: bool)
    requires FromReqs(exact, reqs, false) && FromReqs(cidr, reqs, true) && !HasCIDR(r)
    requires ok ==> PrepareExact(r, false).Some? && exact' == exact + [Built(r.id, PrepareExact(r, false).value.stored)]
    requires !ok ==> exact' == exact
    ensures FromReqs(exact', reqs + [r], false) && FromReqs(cidr, reqs + [r], true)
    ensures ok && AsAsked(reqs, exact, cidr) ==> AsAsked(reqs + [r], exact', cidr)
  {
    hide HasCIDR, FromReqs, AsAsked, PrepareExact;
    FromReqsSkip(cidr, reqs, r, true);
    if ok {
      FromReqsMore(exact, exact', reqs, r, false);
      if AsAsked(reqs, exact, cidr) {
        AsAskedExact(reqs, exact, cidr, r);
      }
    } else {
      FromReqsSkip(exact, reqs, r, false);
    }
  }

  /** The loop over the request. A rule that fails is counted and leaves nothing behind. */
  method BuildAll(h: Handlers, reqs: seq<Rule>, ghost leftExact: map<Key, RuleValue>, ghost leftCidr: map<Key,
                  RuleValue>,
                  ghost a: Agent, ghost v: View, ghost ends: set<Endpoint>, ghost before: seq<Maps>)
    returns (exact: Shadow, cidr: Shadow, added: nat, failed: nat,
             ghost exactItems: seq<Built>, ghost cidrItems: seq<Built>)
    requires Undisturbed(h, a, v, ends) && AllInForce(before, h.kernel.log, v, a.ids, ends)
    requires h.cidrMgr.refs == a.refs && AskedEnds(reqs) <= ends
    requires h.kernel.maps.Blacklist(h.activeRuleSlot.Other()) == leftExact
    requires h.kernel.maps.CidrBlacklist(h.activeRuleSlot.Other()) == leftCidr
    modifies h.kernel, h.cidrMgr
    ensures Undisturbed(h, a, v, ends) && AllInForce(before, h.kernel.log, v, a.ids, ends)
    ensures Shows(exact, h.kernel.maps.Blacklist(h.activeRuleSlot.Other()), leftExact, exactItems)
    ensures Shows(cidr, h.kernel.maps.CidrBlacklist(h.activeRuleSlot.Other()), leftCidr, cidrItems)
    ensures Referenced(h.cidrMgr, a, cidrItems)
    ensures added + failed == |reqs|
    ensures failed == 0 ==> AsAsked(reqs, exactItems, cidrItems)
    ensures FromReqs(exactItems, reqs, false) && FromReqs(cidrItems, reqs, true)
    ensures h.kernel.reliable && leftCidr == map[] ==> Unkeyed(cidrItems) == BuiltCidr(reqs)
    ensures h.kernel.reliable && leftExact == map[] && leftCidr == map[] ==> (failed == 0 <==> Buildable(reqs))
  {
    hide Buildable, BuiltCidr, Unkeyed, KeyFree, TargetFree, FromReqs, Undisturbed, AllInForce, Shows, AsAsked,
         AskedEnds, PrepareCIDR, PrepareExact, HasCIDR, Ends, Referenced;
    exact, cidr, added, failed := NO_SHADOW, NO_SHADOW, 0, 0;
    exactItems, cidrItems := [], [];
    NothingBuilt(h.cidrMgr, a, leftExact, leftCidr);
    for i := 0 to |reqs|
      invariant Undisturbed(h, a, v, ends) && AllInForce(before, h.kernel.log, v, a.ids, ends)
      invariant Shows(exact, h.kernel.maps.Blacklist(h.activeRuleSlot.Other()), leftExact, exactItems)
      invariant Shows(cidr, h.kernel.maps.CidrBlacklist(h.activeRuleSlot.Other()), leftCidr, cidrItems)
      invariant Referenced(h.cidrMgr, a, cidrItems)
      invariant added + failed == i
      invariant failed == 0 ==> AsAsked(reqs[..i], exactItems, cidrItems)
      invariant FromReqs(exactItems, reqs[..i], false) && FromReqs(cidrItems, reqs[..i], true)
      invariant h.kernel.reliable && leftCidr == map[] ==> Unkeyed(cidrItems) == BuiltCidr(reqs[..i])
      invariant h.kernel.reliable && leftExact == map[] && leftCidr == map[] ==> (failed == 0 <==> Buildable(reqs[..i]))
    {
      var r := reqs[i];
      assert reqs[..i + 1] == reqs[..i] + [r];
      ghost var exactItems0, cidrItems0 := exactItems, cidrItems;
      BuildablePrefix(reqs[..i], r);
      if failed == 0 {
        BuildableNext(reqs[..i], r, exactItems, cidrItems);
      }
      var ok;
      if HasCIDR(r) {
        if PrepareCIDR(r, false, true).Some? {
          AskedEndsOf(reqs, i);
        }
        ok, cidr, cidrItems := BuildCidr(h, r, cidr, cidrItems, leftCidr, a, v, ends, before);
        CidrRecorded(reqs[..i], r, exactItems, cidrItems0, cidrItems, ok);
        if h.kernel.reliable && leftCidr == map[] {
          BuiltCidrNext(reqs[..i], r, cidrItems0, cidrItems, ok);
        }
      } else {
        ok, exact, exactItems := BuildExact(h, r, exact, exactItems, leftExact, a, v, ends, before);
        assert Referenced(h.cidrMgr, a, cidrItems);
        ExactRecorded(reqs[..i], r, exactItems0, exactItems, cidrItems, ok);
        BuiltCidrSkips(reqs[..i], r);
      }
      if ok {
        added := added + 1;
      } else {
        failed := failed + 1;
      }
    }
    assert reqs[..|reqs|] == reqs;
  }

  lemma NothingBuilt(m: Manager, a: Agent, leftExact: map<Key, RuleValue>, leftCidr: map<Key, RuleValue>)
    requires m.refs == a.refs
    ensures Shows(NO_SHADOW, leftExact, leftExact, []) && Shows(NO_SHADOW, leftCidr, leftCidr, [])
    ensures Referenced(m, a, []) && AsAsked([], [], []) && FromReqs([], [], false) && FromReqs([], [], true)
    ensures Buildable([]) && Unkeyed([]) == BuiltCidr([])
  {
    ShowsNothing(leftExact);
    ShowsNothing(leftCidr);
  }
}
