/** cidr_rules.go: adding CIDR rules. An id is referenced before the rule is stored and given
    back on every path on which it is not. */
module CidrRules {
  import opened Rules
  import opened Combo
  import opened Prefixes
  import opened Requests
  import opened Meaning
  import opened RuleTable
  import opened WlTable
  import opened BatchRollback
  import opened CidrLookup
  import opened Kernel
  import opened CidrManager
  import opened Handlers
  import opened AgentConfig

  datatype CidrOutcome =
    Added | Rejected | Overlapping | AllocFailed | KeyTaken | InsertFailed | OldDeleteFailed | PublishFailed

  // ---- The overlap checks ----

  /** Some other known prefix of the side shares an address with the rule's. */
  ghost predicate SideOverlaps(ids: Trie, dir: Dir, side: Option<Prefix>) {
    side.Some? && exists e :: e in ids && e.dir == dir && e.prefix != side.value && ShareAddress(side.value, e.prefix)
  }

  ghost predicate OverlapsKnown(ids: Trie, st: Stored) {
    SideOverlaps(ids, Src, st.src) || SideOverlaps(ids, Dst, st.dst)
  }

  /** ListSrcCIDRs and ListDstCIDRs, in any order. */
  method ListCIDRs(m: Manager, dir: Dir) returns (list: seq<Prefix>)
    ensures forall p :: p in list <==> Endpoint(dir, p) in m.ids
  {
    list := [];
    var todo := m.ids.Keys;
    while todo != {}
      invariant todo <= m.ids.Keys
      invariant forall p :: p in list <==> Endpoint(dir, p) in m.ids.Keys - todo
      decreases todo
    {
      var e :| e in todo;
      todo := todo - {e};
      if e.dir == dir {
        list := list + [e.prefix];
      }
    }
  }

  method SideCheck(m: Manager, dir: Dir, side: Option<Prefix>) returns (overlap: bool)
    ensures overlap <==> SideOverlaps(m.ids, dir, side)
  {
    if side.None? {
      return false;
    }
    var existing := ListCIDRs(m, dir);
    var conflict := CheckOverlap(side.value, existing);
    overlap := conflict.Some?;
    if overlap {
      assert Endpoint(dir, conflict.value) in m.ids;
    }
    if SideOverlaps(m.ids, dir, side) {
      var e :| e in m.ids && e.dir == dir && e.prefix != side.value && ShareAddress(side.value, e.prefix);
      assert e.prefix in existing by { assert e == Endpoint(dir, e.prefix); }
    }
  }

  /** Prefixes that pass the check keep the prefixes of each side pairwise disjoint. */
  lemma PassedKeepsDisjoint(ids: Trie, ids': Trie, st: Stored)
    requires Disjoint(ids.Keys) && !OverlapsKnown(ids, st)
    requires ids'.Keys <= ids.Keys + Ends(st)
    ensures Disjoint(ids'.Keys)
  {
    forall e, f | e in ids'.Keys && f in ids'.Keys && e.dir == f.dir && e != f
      ensures !ShareAddress(e.prefix, f.prefix)
    {
      ShareSymmetric(e.prefix, f.prefix);
    }
  }

  // ---- Storing with the ids in hand ----

  /** The rule is inserted, the old one of the same id goes, memory follows. */
  method InsertCidr(h: Handlers, it: Item, value: RuleValue) returns (r: CidrOutcome)
    requires value == ValueOf(it.stored) && it.old_ == Held(h.cidrRules, it.id)
    requires TableInv(h.Cidr())
    modifies h`cidrRules, h`cidrRuleKeyIndex, h`cidrComboRefCount, h.kernel
    ensures r in {Added, InsertFailed, OldDeleteFailed}
    ensures r == Added ==> it.stored.key !in old(h.Cidr().live) && h.Cidr() == Replace(old(h.Cidr()), it.id, it.stored)
    ensures r != Added ==> h.Cidr() == old(h.Cidr())
    ensures it.stored.key in old(h.cidrRuleKeyIndex) ==> r == InsertFailed
    ensures h.kernel.reliable && it.stored.key !in old(h.cidrRuleKeyIndex) ==> r == Added
    ensures OnlyCidrMaps(h.kernel.maps, old(h.kernel.maps), h.activeRuleSlot)
    ensures h.kernel.maps.trie == old(h.kernel.maps.trie)
  {
    hide ValueOf, ComboType, Counted, Usable;
    var ck, side := it.stored.key, h.activeRuleSlot;
    ghost var t := h.Cidr();
    var ok := h.kernel.InsertCidrRule(side, ck, value);
    if !ok {
      return InsertFailed;
    }
    if it.old_.Some? && it.old_.value.key != ck {
      ok := h.kernel.DeleteCidrRule(side, it.old_.value.key);
      if !ok {
        h.kernel.TryDeleteCidrRule(side, ck);
        assert t.live[ck := value] - {ck} == t.live;
        return OldDeleteFailed;
      }
    }
    if it.old_.Some? {
      h.cidrComboRefCount := Bump(h.cidrComboRefCount, ComboType(it.old_.value.key), -1);
      h.cidrRuleKeyIndex := h.cidrRuleKeyIndex - {it.old_.value.key};
      assert t.live[ck := value] - {it.old_.value.key} == (t.live - {it.old_.value.key})[ck := value];
      assert t.rules[it.id := it.stored] == (t.rules - {it.id})[it.id := it.stored];
    }
    h.cidrComboRefCount := Bump(h.cidrComboRefCount, ComboType(ck), 1);
    h.cidrRules := h.cidrRules[it.id := it.stored];
    h.cidrRuleKeyIndex := h.cidrRuleKeyIndex[ck := it.id];
    r := Added;
  }

  /** The rollback after a failed publish, but for the references. */
  method RollBackCidr(h: Handlers, it: Item)
    requires it.old_.Some? ==> it.old_.value.key != it.stored.key
    modifies h`cidrRules, h`cidrRuleKeyIndex, h`cidrComboRefCount, h.kernel
    ensures h.Cidr() == Undo(old(h.Cidr()), it)
    ensures OnlyCidrMaps(h.kernel.maps, old(h.kernel.maps), h.activeRuleSlot)
    ensures h.kernel.maps.trie == old(h.kernel.maps.trie)
  {
    hide ValueOf, ComboType;
    var ck, side := it.stored.key, h.activeRuleSlot;
    h.kernel.TryDeleteCidrRule(side, ck);
    h.cidrComboRefCount := Bump(h.cidrComboRefCount, ComboType(ck), -1);
    h.cidrRules := h.cidrRules - {it.id};
    h.cidrRuleKeyIndex := h.cidrRuleKeyIndex - {ck};
    if it.old_.Some? {
      var o := it.old_.value;
      h.kernel.TryInsertCidrRule(side, o.key, ValueOf(o));
      h.cidrComboRefCount := Bump(h.cidrComboRefCount, ComboType(o.key), 1);
      h.cidrRules := h.cidrRules[it.id := o];
      h.cidrRuleKeyIndex := h.cidrRuleKeyIndex[o.key := it.id];
    }
  }

  /** One reference more on each prefix of st than in a, where nothing else differs. */
  ghost predicate Holding(a: Agent, b: Agent, st: Stored) {
    && b == a.(ids := b.ids, refs := b.refs)
    && Keeps(a.ids, b.ids) && b.ids.Keys <= a.ids.Keys + Ends(st) && b.ids.Keys == b.refs.Keys
    && (forall e :: Ref(b.refs, e) == Ref(a.refs, e) + UsesN(st, e))
    && Keyed(st, b.ids)
  }

  lemma HoldingIsFrame(a: Agent, b: Agent, st: Stored)
    requires Holding(a, b, st)
    ensures b == a.(ids := b.ids, refs := b.refs)
  {
  }

  /** The references are given back: memory and maps are those of a again. */
  method GiveBack(h: Handlers, st: Stored, ghost a: Agent)
    requires h.Sound() && Holding(a, h.State(), st)
    requires a.ids.Keys == a.refs.Keys && forall e :: e in a.refs ==> a.refs[e] > 0
    modifies h.kernel, h.cidrMgr
    ensures h.Sound() && h.State() == a && h.Config() == old(h.Config())
  {
    hide TrieLog, UsesN, Ends;
    KeyedEnds(st, h.cidrMgr.ids);
    ReleasePair(h.cidrMgr, st);
    OnlyCidrChanged(h);
    SameContents(h.cidrMgr.ids, h.cidrMgr.refs, a.ids, a.refs);
  }

  /** A rule replaces what its id held: its references are taken, the old ones given back. */
  lemma ReplaceConserves(rules: map<Id, Stored>, id: Id, st: Stored, ids: Trie, refs: Refs, held: Trie, ids': Trie,
                         refs': Refs)
    requires AllKeyed(rules, ids) && RefsConserved(refs, rules)
    requires Keeps(ids, held) && Keyed(st, held)
    requires Keeps(ids', held) && ids'.Keys == refs'.Keys
    requires forall e :: Ref(refs', e) == Ref(refs, e) + UsesN(st, e) - (if id in rules then UsesN(rules[id], e) else 0)
    ensures RefsConserved(refs', rules[id := st]) && AllKeyed(rules[id := st], ids')
  {
    hide UseCount, Users, UsesN;
    forall e ensures Ref(refs', e) == UseCount(rules[id := st], e) {
      assert (rules - {id})[id := st] == rules[id := st];
      UseCountPut(rules - {id}, id, st, e);
      if id in rules {
        UseCountDrop(rules, id, e);
      } else {
        assert rules - {id} == rules;
      }
    }
    UsedStayKeyed(rules[id := st], held, ids', refs');
  }

  lemma KeyedIsUsable(st: Stored, ids: Trie)
    requires Keyed(st, ids) && forall e :: e in ids ==> ids[e] > 0
    ensures ValidCombo(ComboType(st.key))
  {
    ComboAgreesWithProbes(ShapeOf(st.key));
  }

  /** The agent after a CIDR rule was stored in place of what its id held. */
  ghost predicate Stores(a: Agent, b: Agent, id: Id, st: Stored) {
    && b == a.(cidr := Replace(a.cidr, id, st), ids := b.ids, refs := b.refs)
    && Keyed(st, b.ids)
    && b.ids.Keys <= a.ids.Keys + Ends(st)
    && forall e :: e in a.ids && e in b.ids ==> a.ids[e] == b.ids[e]
  }

  lemma StoredRules(a: Agent, b: Agent, id: Id, st: Stored)
    requires Stores(a, b, id, st)
    ensures b.cidr.rules == a.cidr.rules[id := st]
  {
    hide Replace;
    ReplacedRules(a.cidr, id, st);
  }

  lemma StoredKeepsInv(a: Agent, held: Trie, id: Id, st: Stored, b: Agent)
    requires AgentInv(a) && st.key !in a.cidr.live && ValidCombo(ComboType(st.key))
    requires Keeps(a.ids, held) && Keyed(st, held) && held.Keys <= a.ids.Keys + Ends(st)
    requires b == a.(cidr := Replace(a.cidr, id, st), ids := b.ids, refs := b.refs)
    requires Keeps(b.ids, held) && b.ids.Keys == b.refs.Keys
    requires forall e :: Ref(b.refs, e) ==
              Ref(a.refs, e) + UsesN(st, e) - (if id in a.cidr.rules then UsesN(a.cidr.rules[id], e) else 0)
    ensures AgentInv(b) && Stores(a, b, id, st)
  {
    hide TableInv, Replace, UsesN, Ends, ComboType, RefsConserved, AllKeyed, WlInv;
    ReplaceKeepsInv(a.cidr, id, st);
    ReplacedRules(a.cidr, id, st);
    ReplaceConserves(a.cidr.rules, id, st, a.ids, a.refs, held, b.ids, b.refs);
    assert Keyed(st, b.ids) by {
      KeyedHere(b.cidr.rules, id, b.ids);
    }
  }

  lemma KeyedHere(rules: map<Id, Stored>, id: Id, ids: Trie)
    requires AllKeyed(rules, ids) && id in rules
    ensures Keyed(rules[id], ids)
  {
  }

  /** The references of the rule that was replaced are given back. */
  method ReleaseOld(h: Handlers, it: Item, ghost a: Agent, ghost held: Agent)
    requires h.Sound() && AgentInv(a) && Holding(a, held, it.stored) && it.old_ == Held(a.cidr.rules, it.id)
    requires h.State() == held.(cidr := Replace(a.cidr, it.id, it.stored))
    requires it.stored.key !in a.cidr.live && ValidCombo(ComboType(it.stored.key))
    modifies h.kernel, h.cidrMgr
    ensures h.Sound() && AgentInv(h.State()) && Stores(a, h.State(), it.id, it.stored) && h.Config() == old(h.Config())
  {
    hide AgentInv, Replace, UsesN, Ends, ComboType, TrieLog, Stores, Keyed, ValueOf;
    if it.old_.Some? {
      OldHasEnds(a, held, it);
      ReleasePair(h.cidrMgr, it.old_.value);
    }
    OnlyCidrChanged(h);
    StoredKeepsInv(a, held.ids, it.id, it.stored, h.State());
  }

  lemma OldHasEnds(a: Agent, held: Agent, it: Item)
    requires AgentInv(a) && Keeps(a.ids, held.ids) && it.old_ == Held(a.cidr.rules, it.id)
    ensures it.old_.Some? ==> Ends(it.old_.value) <= held.ids.Keys
  {
    hide TableInv, Ends, WlInv, RefsConserved;
    if it.old_.Some? {
      KeyedHere(a.cidr.rules, it.id, a.ids);
      KeyedEnds(it.old_.value, a.ids);
    }
  }

  /** From the publish on, with the new rule in memory and in the map: publish, then give the old
      rule's references back, or else undo everything. */
  method FinishCidr(h: Handlers, it: Item, ghost a: Agent, ghost held: Agent) returns (r: CidrOutcome)
    requires h.Sound() && AgentInv(a) && Holding(a, held, it.stored) && it.old_ == Held(a.cidr.rules, it.id)
    requires h.State() == held.(cidr := Replace(a.cidr, it.id, it.stored))
    requires Gated(h.Config(), a.exact.rules, a.cidr.rules, a.wl.entries)
    requires a.ids.Keys == a.refs.Keys && forall e :: e in a.refs ==> a.refs[e] > 0
    requires it.stored.key !in a.cidr.live && ValidCombo(ComboType(it.stored.key))
    modifies h, h.kernel, h.cidrMgr
    ensures h.Sound() && r in {Added, PublishFailed} && (h.kernel.reliable ==> r == Added)
    ensures r == Added ==> AgentInv(h.State()) && Stores(a, h.State(), it.id, it.stored)
    ensures r == Added ==>
              && Gated(h.Config(), h.rules, h.cidrRules, h.wlEntries)
              && GatesExact(h.Config(), h.rules, h.cidrRules, h.wlEntries)
    ensures r == Added ==> SameExcess(old(h.Config()), a, h.Config(), h.State())
    ensures r != Added ==> h.State() == a && h.Config() == old(h.Config())
  {
    hide ValueOf, ComboType, TableInv, WlInv, AllKeyed, RefsConserved, Undo, Replace, Stores, Holding, h.Sound, Gated,
         GatesExact, PublishLog, SameTables, WlBitsCover, WlCounted, WlUsable, OnlyCidrMaps, AgentInv;
    HoldingIsFrame(a, held, it.stored);
    GatedCounts(h.Config(), a.exact.rules, a.cidr.rules, a.wl.entries);
    AgentParts(a);
    ReplaceKeepsInv(a.cidr, it.id, it.stored);
    var countDelta := if it.old_.Some? then 0 else 1;
    var ok := PublishConfigUpdate(h, 0, 0, countDelta, h.wlEntries);
    if !ok {
      UndoReplace(a.cidr, it);
      label Published:
      RollBackCidr(h, it);
      OnlyCidrChanged@Published(h);
      GiveBack(h, it.stored, a);
      return PublishFailed;
    }
    ReleaseOld(h, it, a, held);
    r := Added;
  }

  /** From the key check on, with the references of the new rule already taken. */
  method StoreCidr(h: Handlers, id: Id, st: Stored, value: RuleValue, ghost a: Agent) returns (r: CidrOutcome)
    requires h.Sound() && AgentInv(a) && Holding(a, h.State(), st)
    requires Gated(h.Config(), a.exact.rules, a.cidr.rules, a.wl.entries)
    requires a.ids.Keys == a.refs.Keys && forall e :: e in a.refs ==> a.refs[e] > 0
    requires ValidCombo(ComboType(st.key)) && value == ValueOf(st)
    modifies h, h.kernel, h.cidrMgr
    ensures h.Sound() && r in {Added, KeyTaken, InsertFailed, OldDeleteFailed, PublishFailed}
    ensures r == Added ==> AgentInv(h.State()) && Stores(a, h.State(), id, st)
    ensures r == Added ==>
              && Gated(h.Config(), h.rules, h.cidrRules, h.wlEntries)
              && GatesExact(h.Config(), h.rules, h.cidrRules, h.wlEntries)
    ensures r == Added ==> SameExcess(old(h.Config()), a, h.Config(), h.State())
    ensures r != Added ==> h.State() == a && h.Config() == old(h.Config())
    ensures st.key in a.cidr.index ==> r == if a.cidr.index[st.key] == id then InsertFailed else KeyTaken
    ensures st.key !in a.cidr.index ==> r != KeyTaken && (h.kernel.reliable ==> r == Added)
  {
    hide ValueOf, ComboType, Replace, Stores, Holding, h.Sound, Gated, GatesExact, OnlyCidrMaps, AgentInv, TableInv;
    HoldingIsFrame(a, h.State(), st);
    AgentParts(a);
    if st.key in h.cidrRuleKeyIndex && h.cidrRuleKeyIndex[st.key] != id {
      GiveBack(h, st, a);
      return KeyTaken;
    }
    var it := Item(id, st, Held(h.cidrRules, id));
    ghost var held := h.State();
    label Start:
    r := InsertCidr(h, it, value);
    OnlyCidrChanged@Start(h);
    if r != Added {
      GiveBack(h, st, a);
      return;
    }
    r := FinishCidr(h, it, a, held);
  }

  /** The two rules match the same packets by address, port and protocol. */
  predicate SameTarget(x: Stored, y: Stored) {
    && x.src == y.src && x.dst == y.dst
    && x.key.sport == y.key.sport && x.key.dport == y.key.dport && x.key.proto == y.key.proto
  }

  /** Rules with the same target get the same key, since a prefix keeps its id. */
  lemma SameTargetSameKey(a: Agent, held: Trie, x: Id, st: Stored)
    requires AgentInv(a) && x in a.cidr.rules && SameTarget(a.cidr.rules[x], st)
    requires Keeps(a.ids, held) && Keyed(st, held)
    ensures st.key in a.cidr.index && a.cidr.index[st.key] == x
  {
    hide Counted, Mirrors, Usable, WlInv, RefsConserved;
    KeyedHere(a.cidr.rules, x, a.ids);
    assert a.cidr.rules[x].key == st.key;
  }

  lemma TakenHolding(a: Agent, b: Agent, st: Stored)
    requires b == a.(ids := b.ids, refs := b.refs) && b.ids.Keys == b.refs.Keys
    requires Keeps(a.ids, b.ids) && b.ids.Keys <= a.ids.Keys + Ends(st)
    requires forall e :: Ref(b.refs, e) == Ref(a.refs, e) + UsesN(st, e)
    requires (st.src.Some? || st.dst.Some?) && SideKeyed(st.src, Src, st.key.src, b.ids)
    requires SideKeyed(st.dst, Dst, st.key.dst, b.ids)
    ensures Holding(a, b, st)
  {
  }

  /** References on the rule's prefixes are taken, and their ids become part of its key. */
  method TakeIds(h: Handlers, p: Stored) returns (ok: bool, st: Stored)
    requires h.Sound() && (p.src.Some? || p.dst.Some?)
    modifies h.kernel, h.cidrMgr
    ensures h.Sound() && h.Config() == old(h.Config())
    ensures ok ==> Holding(old(h.State()), h.State(), st) && st == WithIds(p, st.key.src, st.key.dst)
    ensures ok ==> ValidCombo(ComboType(st.key))
    ensures !ok ==> h.State() == old(h.State())
    ensures Ends(p) <= old(h.cidrMgr.ids).Keys || h.kernel.reliable ==> ok
  {
    hide ComboType, TrieLog, UsesN, Ends, SideKeyed, Holding;
    ghost var a := h.State();
    var srcID, dstID;
    ghost var peak;
    ok, srcID, dstID, peak := AllocPair(h.cidrMgr, p);
    OnlyCidrChanged(h);
    st := WithIds(p, srcID, dstID);
    if ok {
      SamePrefixes(p, st);
      TakenHolding(a, h.State(), st);
      assert Keyed(st, h.cidrMgr.ids);
      KeyedIsUsable(st, h.cidrMgr.ids);
    }
  }

  lemma SamePrefixes(p: Stored, st: Stored)
    requires p.src == st.src && p.dst == st.dst
    ensures Ends(p) == Ends(st) && forall e :: UsesN(p, e) == UsesN(st, e)
  {
  }

  /** Rules with the same key have the same target, since different prefixes have different ids. */
  lemma SameKeySameTarget(x: Stored, y: Stored, held: Trie)
    requires Keyed(x, held) && Keyed(y, held) && x.key == y.key && TrieIds(held)
    ensures SameTarget(x, y)
  {
  }

  /** The rules with the new rule's target, told apart by the key that it gets. */
  lemma TwinsByKey(a: Agent, b: Agent, st: Stored)
    requires AgentInv(a) && Holding(a, b, st) && TrieIds(b.ids)
    ensures st.key in a.cidr.index ==>
              a.cidr.index[st.key] in a.cidr.rules && SameTarget(a.cidr.rules[a.cidr.index[st.key]], st)
    ensures forall x :: x in a.cidr.rules && SameTarget(a.cidr.rules[x], st) ==>
              st.key in a.cidr.index && a.cidr.index[st.key] == x
  {
    hide AgentInv, SameTarget, Keyed;
    forall x | x in a.cidr.rules && SameTarget(a.cidr.rules[x], st)
      ensures st.key in a.cidr.index && a.cidr.index[st.key] == x
    {
      SameTargetSameKey(a, b.ids, x, st);
    }
    if st.key in a.cidr.index {
      TwinOfKey(a, b.ids, st);
    }
  }

  lemma TwinOfKey(a: Agent, held: Trie, st: Stored)
    requires AgentInv(a) && Keeps(a.ids, held) && Keyed(st, held) && TrieIds(held) && st.key in a.cidr.index
    ensures a.cidr.index[st.key] in a.cidr.rules && SameTarget(a.cidr.rules[a.cidr.index[st.key]], st)
  {
    hide Counted, Mirrors, Usable, WlInv, RefsConserved, SameTarget, TrieIds;
    var x := a.cidr.index[st.key];
    KeyedHere(a.cidr.rules, x, a.ids);
    SameKeySameTarget(a.cidr.rules[x], st, held);
  }

  lemma TwinsAreKnown(a: Agent, st: Stored)
    requires AgentInv(a)
    ensures (exists x :: x in a.cidr.rules && SameTarget(a.cidr.rules[x], st)) ==> Ends(st) <= a.ids.Keys
  {
    hide TableInv, Keyed, Ends, WlInv, RefsConserved;
    if x :| x in a.cidr.rules && SameTarget(a.cidr.rules[x], st) {
      KeyedHere(a.cidr.rules, x, a.ids);
      KeyedEnds(a.cidr.rules[x], a.ids);
      SamePrefixes(a.cidr.rules[x], st);
    }
  }

  lemma StoredKeepsDisjoint(a: Agent, b: Agent, id: Id, p: Stored, st: Stored)
    requires Stores(a, b, id, st) && p.src == st.src && p.dst == st.dst
    requires Disjoint(a.ids.Keys) && !OverlapsKnown(a.ids, p)
    ensures Disjoint(b.ids.Keys)
  {
    hide Disjoint, Ends, OverlapsKnown, Replace;
    SamePrefixes(p, st);
    PassedKeepsDisjoint(a.ids, b.ids, p);
  }

  /** addCIDRRule and addCIDRRuleFromSync. What is stored under the id matches exactly the packets
      that the request asks for. They differ in two ways: the first stores canonical
      flags and is never handed a rule that also names an address. Every path that does not end
      in Added leaves memory, ids, references and active maps as they were. After Added the
      prefixes are still pairwise disjoint if they were, and each known prefix has kept its id.
      A rule whose target is taken is refused, and an acceptable one that overlaps no known
      prefix and whose target is free is added, unless a write fails. The refusal of an unusable combo between
      allocation and storing cannot happen: an allocated id is never 0. */
  method AddCidrRule(h: Handlers, req: Rule, canonical: bool, refuseMixed: bool)
    returns (r: CidrOutcome, ghost stored: Stored)
    requires h.Valid()
    modifies h, h.kernel, h.cidrMgr
    ensures h.Valid()
    ensures r == Rejected <==> PrepareCIDR(req, canonical, refuseMixed).None?
    ensures PrepareCIDR(req, canonical, refuseMixed).Some? ==>
              (r == Overlapping <==>
               OverlapsKnown(old(h.cidrMgr.ids), PrepareCIDR(req, canonical, refuseMixed).value.stored))
    ensures r != Added ==> h.State() == old(h.State()) && h.Config() == old(h.Config())
    ensures r == Added ==> Stores(old(h.State()), h.State(), req.id, stored)
                           && stored == WithIds(PrepareCIDR(req, canonical, refuseMixed).value.stored,
                                                stored.key.src, stored.key.dst)
    ensures r == Added ==> h.cidrRules == old(h.cidrRules)[req.id := stored] && StoredCidr(stored, req)
    ensures r == Added ==> GatesExact(h.Config(), h.rules, h.cidrRules, h.wlEntries)
    ensures r == Added ==> SameExcess(old(h.Config()), old(h.State()), h.Config(), h.State())
    ensures Disjoint(old(h.cidrMgr.ids).Keys) ==> Disjoint(h.cidrMgr.ids.Keys)
    ensures r !in {Rejected, Overlapping} ==>
              forall x :: x in old(h.cidrRules)
                          && SameTarget(old(h.cidrRules)[x], PrepareCIDR(req, canonical, refuseMixed).value.stored) ==>
                          r == if x == req.id then InsertFailed else KeyTaken
    ensures h.kernel.reliable && r !in {Added, Rejected, Overlapping} ==>
              exists x :: x in old(h.cidrRules)
                          && SameTarget(old(h.cidrRules)[x], PrepareCIDR(req, canonical, refuseMixed).value.stored)
  {
    hide ValueOf, ComboType, PrepareCIDR, AgentInv, Gated, GatesExact, Ends, OverlapsKnown, Disjoint, Stores, Holding,
         SideOverlaps, StoredCidr;
    ghost var a := h.State();
    stored := Stored(Key(0, 0, 0, 0, 0), None, None, "", 0, 0, 0, "", 0);
    var prepared := PrepareCIDR(req, canonical, refuseMixed);
    if prepared.None? {
      return Rejected, stored;
    }
    var p := prepared.value;
    var srcOverlap := SideCheck(h.cidrMgr, Src, p.stored.src);
    var dstOverlap := SideCheck(h.cidrMgr, Dst, p.stored.dst);
    assert OverlapsKnown(a.ids, p.stored) <==> srcOverlap || dstOverlap by { OverlapsBySide(a.ids, p.stored); }
    if srcOverlap || dstOverlap {
      return Overlapping, stored;
    }
    TwinsAreKnown(a, p.stored);
    var ok, st := TakeIds(h, p.stored);
    stored := st;
    if !ok {
      return AllocFailed, stored;
    }
    ProperIds(h.cidrMgr);
    TwinsByKey(a, h.State(), st);
    HoldingIsFrame(a, h.State(), st);
    RebuiltValueIsWrittenValue(req, canonical, refuseMixed, st.key.src, st.key.dst);
    r := StoreCidr(h, req.id, st, p.value, a);
    if r == Added {
      StoredRules(a, h.State(), req.id, st);
      CidrMeaning(req, canonical, refuseMixed, st.key.src, st.key.dst);
      if Disjoint(a.ids.Keys) {
        StoredKeepsDisjoint(a, h.State(), req.id, p.stored, st);
      }
    }
  }

  /** The same for a CIDR rule: sent again under its own id it fails on its own entry. */
  method SendCidrTwice(h: Handlers, req: Rule, canonical: bool, refuseMixed: bool)
    returns (first: CidrOutcome, second: CidrOutcome)
    requires h.Valid() && Disjoint(h.cidrMgr.ids.Keys)
    modifies h, h.kernel, h.cidrMgr
    ensures h.Valid()
    ensures first == Added ==> second == InsertFailed
  {
    hide PrepareCIDR, AgentInv, Gated, GatesExact, Ends, Disjoint, Holding, h.Sound, Stores, OverlapsKnown;
    ghost var a := h.State();
    ghost var stored, again;
    first, stored := AddCidrRule(h, req, canonical, refuseMixed);
    if first == Added {
      StoredIsKnown(a, h.State(), req.id, stored);
      KnownOverlapsNothing(h.State(), req.id, PrepareCIDR(req, canonical, refuseMixed).value.stored);
    }
    second, again := AddCidrRule(h, req, canonical, refuseMixed);
  }

  lemma StoredIsKnown(a: Agent, b: Agent, id: Id, st: Stored)
    requires Stores(a, b, id, st)
    ensures id in b.cidr.rules && b.cidr.rules[id] == st
  {
    hide ValueOf, ComboType;
  }

  /** The prefixes of a stored rule overlap no other known one. */
  lemma KnownOverlapsNothing(a: Agent, id: Id, p: Stored)
    requires AgentInv(a) && Disjoint(a.ids.Keys) && id in a.cidr.rules
    requires a.cidr.rules[id].src == p.src && a.cidr.rules[id].dst == p.dst
    ensures !OverlapsKnown(a.ids, p)
  {
    hide TableInv, WlInv, RefsConserved, ShareAddress;
    KeyedHere(a.cidr.rules, id, a.ids);
    var st := a.cidr.rules[id];
    forall e | e in a.ids.Keys && e.dir == Src && p.src.Some? && e.prefix != p.src.value
      ensures !ShareAddress(p.src.value, e.prefix)
    {
      assert Endpoint(Src, p.src.value) in a.ids.Keys;
    }
    forall e | e in a.ids.Keys && e.dir == Dst && p.dst.Some? && e.prefix != p.dst.value
      ensures !ShareAddress(p.dst.value, e.prefix)
    {
      assert Endpoint(Dst, p.dst.value) in a.ids.Keys;
    }
  }

  lemma OverlapsBySide(ids: Trie, st: Stored)
    ensures OverlapsKnown(ids, st) <==> SideOverlaps(ids, Src, st.src) || SideOverlaps(ids, Dst, st.dst)
  {
    hide SideOverlaps;
  }
}
