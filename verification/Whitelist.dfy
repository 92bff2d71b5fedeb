/** whitelist.go: adding and deleting whitelist entries one by one and in batches; also the
    incremental whitelist operations of sync.go. */
module Whitelist {
  import opened Rules
  import opened Bits
  import opened Combo
  import opened Requests
  import opened Lookup
  import opened Meaning
  import opened RuleTable
  import opened WlTable
  import opened CidrLookup
  import opened Kernel
  import opened CidrManager
  import opened Handlers
  import opened AgentConfig

  datatype WlOutcome = Added | Unchanged | Rejected | KeyTaken | OldDeleteFailed | PublishFailed | InsertFailed

  lemma WlReplaced(w: WlTable, id: Id, k: Key)
    requires WlInv(w) && k !in w.live && ValidCombo(ComboType(k))
    ensures WlInv(WlReplace(w, id, k)) && WlReplace(w, id, k).entries == w.entries[id := k]
    ensures WlCounted(w.entries[id := k], WlReplace(w, id, k).combo) && WlUsable(w.entries[id := k])
    ensures |w.entries[id := k]| == |w.entries| + (if id in w.entries then 0 else 1)
  {
    hide ComboType, WlInv, WlReplace;
    WlReplaceKeepsInv(w, id, k);
    ReplacedEntries(w, id, k);
    WlParts(WlReplace(w, id, k));
  }

  lemma ReplacedEntries(w: WlTable, id: Id, k: Key)
    ensures WlReplace(w, id, k).entries == w.entries[id := k]
  {
    hide ComboType, Bump;
    assert (w.entries - {id})[id := k] == w.entries[id := k];
  }

  lemma WlParts(w: WlTable)
    requires WlInv(w)
    ensures WlCounted(w.entries, w.combo) && WlUsable(w.entries)
  {
  }

  /** Every combo of an old entry is still the combo of some new entry. */
  ghost predicate CombosStay(entries: map<Id, Key>, wl: map<Id, Key>) {
    forall id :: id in entries ==> KeysOfCombo(wl, ComboType(entries[id])) != {}
  }

  /** The exact bits of new entries cover the old ones exactly when all their combos stay. */
  lemma CoverAfter(bitmap: nat, entries: map<Id, Key>, wl: map<Id, Key>)
    requires WlBitsExact(bitmap, wl) && WlUsable(entries)
    ensures WlBitsCover(bitmap, entries) <==> CombosStay(entries, wl)
  {
    hide ComboType;
  }

  /** An entry that moves to another combo leaves its old combo without an entry, unless another
      one has it. */
  lemma MoveUncovers(entries: map<Id, Key>, id: Id, k: Key)
    requires id in entries && ComboType(k) != ComboType(entries[id])
    requires forall x :: x in entries && x != id ==> ComboType(entries[x]) != ComboType(entries[id])
    ensures !CombosStay(entries, entries[id := k])
  {
    hide ComboType;
    assert KeysOfCombo(entries[id := k], ComboType(entries[id])) == {};
  }

  function OnPorts(sport: Port, dport: Port): WlEntry {
    WlEntry("w", IpAbsent, IpAbsent, sport, dport, "")
  }

  lemma OnPortsKey(sport: Port, dport: Port)
    requires sport != 0 || dport != 0
    ensures PrepareWl(OnPorts(sport, dport)) == Some(Key(0, 0, Htons(sport), Htons(dport), 0))
  {
    hide Htons, ComboType;
    PreparedWlIff(OnPorts(sport, dport));
  }

  /** For example: the only entry moves from destination port 80 to source port 80. */
  lemma MoveExample()
    ensures PrepareWl(OnPorts(0, 80)) == Some(Key(0, 0, 0, 20480, 0))
    ensures PrepareWl(OnPorts(80, 0)) == Some(Key(0, 0, 20480, 0, 0))
    ensures !CombosStay(map["w" := Key(0, 0, 0, 20480, 0)], map["w" := Key(0, 0, 20480, 0, 0)])
  {
    hide CombosStay, PrepareWl;
    OnPortsKey(0, 80);
    OnPortsKey(80, 0);
    var from, to := Key(0, 0, 0, 20480, 0), Key(0, 0, 20480, 0, 0);
    assert ComboType(from) == 7 && ComboType(to) == 6;
    assert map["w" := from]["w" := to] == map["w" := to];
    MoveUncovers(map["w" := from], "w", to);
  }

  lemma ExactCovers(bitmap: nat, wl: map<Id, Key>)
    requires WlBitsExact(bitmap, wl) && WlUsable(wl)
    ensures WlBitsCover(bitmap, wl)
  {
    hide ComboType;
    forall x | x in wl
      ensures Bit(bitmap, ComboType(wl[x]))
    {
      assert x in KeysOfCombo(wl, ComboType(wl[x]));
    }
  }

  lemma WlOwner(w: WlTable, id: Id, k: Key)
    requires WlInv(w)
    ensures id in w.entries && w.entries[id] == k <==> k in w.index && w.index[k] == id
    ensures k in w.live <==> k in w.index
    ensures id in w.entries ==> w.entries[id] in w.live
  {
  }

  /** A replacement halfway: the counts have moved to the new combo, the old key has left the
      map, the new one is not in it yet. */
  function HalfWay(w: WlTable, id: Id, key: Key): WlTable {
    w.(combo := WlReplace(w, id, key).combo, live := if id in w.entries then w.live - {w.entries[id]} else w.live)
  }

  /** Steps before the publish: the old key leaves the map, the counts move to the new combo. */
  method BeginReplace(h: Handlers, id: Id, key: Key) returns (ok: bool)
    requires h.Sound() && WlInv(h.Wl()) && key !in h.wlKeyIndex
    modifies h`wlComboRefCount, h.kernel
    ensures h.Sound() && OnlyWhitelist(h.kernel.maps, old(h.kernel.maps), h.activeWLSlot)
    ensures h.Config() == old(h.Config())
    ensures h.Wl() == if ok then HalfWay(old(h.Wl()), id, key) else old(h.Wl())
    ensures h.kernel.reliable ==> ok
  {
    hide ComboType, WlInv, Bump;
    if id in h.wlEntries {
      WlOwner(h.Wl(), id, h.wlEntries[id]);
      ok := h.kernel.DeleteWl(h.activeWLSlot, h.wlEntries[id]);
      if !ok { return; }
      h.wlComboRefCount := Bump(h.wlComboRefCount, ComboType(h.wlEntries[id]), -1);
    }
    h.wlComboRefCount := Bump(h.wlComboRefCount, ComboType(key), 1);
    ok := true;
  }

  /** The rollback of those steps. */
  method RestoreOld(h: Handlers, id: Id, key: Key, ghost w: WlTable)
    requires h.Sound() && WlInv(w) && h.Wl() == HalfWay(w, id, key)
    modifies h`wlComboRefCount, h.kernel
    ensures h.Sound() && OnlyWhitelist(h.kernel.maps, old(h.kernel.maps), h.activeWLSlot)
    ensures h.Config() == old(h.Config())
    ensures h.Wl() == w
  {
    hide ComboType, WlInv, h.Sound;
    h.wlComboRefCount := Bump(h.wlComboRefCount, ComboType(key), -1);
    if id in h.wlEntries {
      WlOwner(w, id, w.entries[id]);
      h.wlComboRefCount := Bump(h.wlComboRefCount, ComboType(h.wlEntries[id]), 1);
      h.kernel.TryInsertWl(h.activeWLSlot, h.wlEntries[id]);
      assert w.live - {w.entries[id]} + {w.entries[id]} == w.live;
    }
    OnlyWlChanged(h);
  }

  lemma HalfWayIs(w: WlTable, id: Id, key: Key)
    ensures HalfWay(w, id, key).entries == w.entries && HalfWay(w, id, key).index == w.index
    ensures HalfWay(w, id, key).combo == WlReplace(w, id, key).combo
    ensures HalfWay(w, id, key).live <= w.live
  {
    hide WlReplace;
  }

  /** The last steps, once the new key is in the map: memory. */
  method Remember(h: Handlers, id: Id, key: Key, ghost w: WlTable)
    requires WlInv(w) && key !in w.live && h.Wl() == HalfWay(w, id, key).(live := HalfWay(w, id, key).live + {key})
    modifies h`wlEntries, h`wlKeyIndex
    ensures h.Wl() == WlReplace(w, id, key)
  {
    hide ComboType, WlInv, WlReplace;
    if id in h.wlEntries {
      h.wlKeyIndex := h.wlKeyIndex - {h.wlEntries[id]};
    }
    h.wlEntries := h.wlEntries[id := key];
    h.wlKeyIndex := h.wlKeyIndex[key := id];
    ReplacedTable(w, id, key, h.Wl());
  }

  /** The rollback after a failed insertion, behind words that were published for the new entries. */
  method TakeBack(h: Handlers, id: Id, key: Key, ghost a: Agent, ghost c: seq<nat>) returns (republished: bool)
    requires WordsKept(h.Config(), c, 0, if id in a.wl.entries then 0 else 1, 0)
    requires h.Sound() && AgentInv(a) && key !in a.wl.live && ValidCombo(ComboType(key))
    requires h.State() == a.(wl := HalfWay(a.wl, id, key))
    requires Gated(h.Config(), h.rules, h.cidrRules, h.wlEntries[id := key])
    requires GatesExact(h.Config(), h.rules, h.cidrRules, h.wlEntries[id := key])
    modifies h, h.kernel
    ensures h.Sound() && h.State() == a && Gated(h.Config(), h.rules, h.cidrRules, h.wlEntries)
    ensures republished ==> SameExcess(c, a, h.Config(), h.State())
    ensures republished ==> h.WlGated() && GatesExact(h.Config(), h.rules, h.cidrRules, h.wlEntries)
    ensures !republished ==> (h.WlGated() <==> CombosStay(h.wlEntries, h.wlEntries[id := key]))
  {
    hide ComboType, TableInv, WlInv, AllKeyed, RefsConserved, Gated, GatesExact, WlBitsCover, WlBitsExact, WlCounted,
         WlUsable, PublishLog, SameTables, h.Sound, WlReplace, HalfWay, CombosStay, SameExcess, WordsKept;
    ghost var c' := h.Config();
    AgentParts(a);
    HalfWayIs(a.wl, id, key);
    WlReplaced(a.wl, id, key);
    ghost var wl := h.wlEntries[id := key];
    GatedCounts(h.Config(), h.rules, h.cidrRules, wl);
    RestoreOld(h, id, key, a.wl);
    OnlyWlChanged(h);
    GatedByCounts(h.Config(), h.rules, h.cidrRules, wl, h.wlEntries);
    var wlCountDelta := if id in h.wlEntries then 0 else 1;
    republished := PublishConfigUpdate(h, 0, -wlCountDelta, 0, h.wlEntries);
    if !republished {
      CoverAfter(h.Config()[WL_BITMAP], h.wlEntries, wl) by { ExactWlBits(h.Config(), h.rules, h.cidrRules, wl); }
    } else {
      ShiftedBack(c, c', h.Config(), wlCountDelta);
      ShiftedWithRules(c, a, h.Config(), h.State(), 0, 0, 0);
    }
  }

  /** After the publish: insert and remember, or undo everything. */
  method Enter(h: Handlers, id: Id, key: Key, ghost a: Agent, ghost c: seq<nat>)
    returns (r: WlOutcome, ghost republished: bool)
    requires WordsKept(h.Config(), c, 0, if id in a.wl.entries then 0 else 1, 0)
    requires h.Sound() && AgentInv(a) && key !in a.wl.live && ValidCombo(ComboType(key))
    requires h.State() == a.(wl := HalfWay(a.wl, id, key))
    requires Gated(h.Config(), h.rules, h.cidrRules, h.wlEntries[id := key])
    requires GatesExact(h.Config(), h.rules, h.cidrRules, h.wlEntries[id := key])
    requires WlBitsCover(h.Config()[WL_BITMAP], h.wlEntries[id := key])
    modifies h, h.kernel
    ensures h.Sound() && Gated(h.Config(), h.rules, h.cidrRules, h.wlEntries)
    ensures r in {Added, InsertFailed} && (h.kernel.reliable ==> r == Added)
    ensures h.State() == if r == Added then a.(wl := WlReplace(a.wl, id, key)) else a
    ensures r == Added || republished ==> h.WlGated() && GatesExact(h.Config(), h.rules, h.cidrRules, h.wlEntries)
    ensures r == Added || republished ==> SameExcess(c, a, h.Config(), h.State())
    ensures r == InsertFailed && !republished ==> (h.WlGated() <==> CombosStay(h.wlEntries, h.wlEntries[id := key]))
  {
    hide ComboType, TableInv, WlInv, AllKeyed, RefsConserved, Gated, GatesExact, WlBitsCover, h.Sound, WlReplace,
         HalfWay, CombosStay, SameExcess, WordsKept;
    republished := false;
    HalfWayIs(a.wl, id, key);
    WlReplaced(a.wl, id, key);
    AgentParts(a);
    var ok := h.kernel.InsertWl(h.activeWLSlot, key);
    OnlyWlChanged(h);
    if !ok {
      republished := TakeBack(h, id, key, a, c);
      return InsertFailed, republished;
    }
    Remember(h, id, key, a.wl);
    OnlyWlChanged(h);
    ShiftedWithRules(c, a, h.Config(), h.State(), 0, if id in a.wl.entries then 0 else 1, 0);
    r := Added;
  }

  /** From the publish on: publish, insert, remember, or undo everything. */
  method FinishReplace(h: Handlers, id: Id, key: Key, ghost a: Agent) returns (r: WlOutcome, ghost republished: bool)
    requires h.Sound() && AgentInv(a) && key !in a.wl.live && ValidCombo(ComboType(key))
    requires h.State() == a.(wl := HalfWay(a.wl, id, key)) && Gated(h.Config(), h.rules, h.cidrRules, h.wlEntries)
    modifies h, h.kernel
    ensures h.Sound() && Gated(h.Config(), h.rules, h.cidrRules, h.wlEntries)
    ensures r in {Added, PublishFailed, InsertFailed} && (h.kernel.reliable ==> r == Added)
    ensures h.State() == if r == Added then a.(wl := WlReplace(a.wl, id, key)) else a
    ensures r == PublishFailed ==> h.Config() == old(h.Config())
    ensures r == Added || (r == InsertFailed && republished) ==>
              h.WlGated() && GatesExact(h.Config(), h.rules, h.cidrRules, h.wlEntries)
    ensures r == Added || (r == InsertFailed && republished) ==> SameExcess(old(h.Config()), a, h.Config(), h.State())
    ensures r == InsertFailed && !republished ==> (h.WlGated() <==> CombosStay(h.wlEntries, h.wlEntries[id := key]))
  {
    hide ComboType, TableInv, WlInv, AllKeyed, RefsConserved, Gated, GatesExact, WlBitsCover, WlBitsExact, WlCounted,
         WlUsable, PublishLog, SameTables, h.Sound, WlReplace, HalfWay, CombosStay, SameExcess, WordsKept;
    republished := false;
    ghost var w, c := a.wl, h.Config();
    HalfWayIs(w, id, key);
    AgentParts(a);
    GatedCounts(h.Config(), h.rules, h.cidrRules, h.wlEntries);
    WlReplaced(w, id, key);
    var wlCountDelta := if id in h.wlEntries then 0 else 1;
    ghost var wl := h.wlEntries[id := key];
    var ok := PublishConfigUpdate(h, 0, wlCountDelta, 0, wl);
    label Published:
    if !ok {
      RestoreOld(h, id, key, w);
      OnlyWlChanged@Published(h);
      return PublishFailed, false;
    }
    r, republished := Enter(h, id, key, a, c);
  }

  /** AddWhitelist and AddWhitelistFromSync. What is stored under the id whitelists exactly the
      packets that the entry names. An entry that is not added leaves everything as it
      was, with one exception: if the insertion fails and then the second publish fails too, the
      published bitmap stays that of the new entries. It then still admits the old ones exactly
      if every combo of an old entry is still that of some new one. Unless a write fails, an
      acceptable entry with a free key is added. */
  method AddWhitelist(h: Handlers, e: WlEntry) returns (r: WlOutcome, ghost republished: bool)
    requires h.Valid()
    modifies h, h.kernel
    ensures h.Valid()
    ensures r == Rejected <==> PrepareWl(e) == None
    ensures r == KeyTaken <==>
              && PrepareWl(e).Some? && PrepareWl(e).value in old(h.wlKeyIndex)
              && old(h.wlKeyIndex)[PrepareWl(e).value] != e.id
    ensures r == Unchanged <==>
              PrepareWl(e).Some? && e.id in old(h.wlEntries) && old(h.wlEntries)[e.id] == PrepareWl(e).value
    ensures r == Added ==> h.State() == old(h.State()).(wl := WlReplace(old(h.Wl()), e.id, PrepareWl(e).value))
    ensures r == Added ==> e.id in h.wlEntries && h.wlEntries == old(h.wlEntries)[e.id := h.wlEntries[e.id]]
    ensures r in {Added, Unchanged} ==>
              e.id in h.wlEntries && forall p :: WildMatches(h.wlEntries[e.id], p) <==> AsksWl(e, p)
    ensures r != Added ==> h.State() == old(h.State())
    ensures r !in {Added, InsertFailed} ==> h.Config() == old(h.Config())
    ensures r == Added || (r == InsertFailed && republished) ==>
              h.WlGated() && GatesExact(h.Config(), h.rules, h.cidrRules, h.wlEntries)
    ensures r == Added || (r == InsertFailed && republished) ==>
              SameExcess(old(h.Config()), old(h.State()), h.Config(), h.State())
    ensures r == InsertFailed && !republished ==>
              (h.WlGated() <==> CombosStay(h.wlEntries, h.wlEntries[e.id := PrepareWl(e).value]))
    ensures h.kernel.reliable ==> r in {Added, Unchanged, Rejected, KeyTaken}
  {
    hide PrepareWl, ComboType, TableInv, WlInv, AllKeyed, RefsConserved, Gated, GatesExact, WlBitsCover, HalfWay,
         WlReplace, CombosStay, h.Sound, WildMatches, AsksWl;
    republished := false;
    var prepared := PrepareWl(e);
    if prepared.None? {
      return Rejected, false;
    }
    var key, id := prepared.value, e.id;
    ghost var a := h.State();
    forall p ensures WildMatches(key, p) <==> AsksWl(e, p) { WlMeaning(e, p); }
    WlOwner(a.wl, id, key);
    if key in h.wlKeyIndex && h.wlKeyIndex[key] != id {
      return KeyTaken, false;
    }
    if id in h.wlEntries && h.wlEntries[id] == key {
      return Unchanged, false;
    }
    WlReplaced(a.wl, id, key);
    label Start:
    var ok := BeginReplace(h, id, key);
    OnlyWlChanged@Start(h);
    if !ok {
      return OldDeleteFailed, false;
    }
    r, republished := FinishReplace(h, id, key, a);
  }

  lemma ReplacedTable(w: WlTable, id: Id, k: Key, x: WlTable)
    requires WlInv(w) && k !in w.live
    requires x.entries == w.entries[id := k] && x.combo == WlReplace(w, id, k).combo
    requires x.index == (if id in w.entries then w.index - {w.entries[id]} else w.index)[k := id]
    requires x.live == (if id in w.entries then w.live - {w.entries[id]} else w.live) + {k}
    ensures x == WlReplace(w, id, k)
  {
    hide ComboType, Bump;
    assert (w.entries - {id})[id := k] == w.entries[id := k];
  }

  lemma ExactWlBits(c: seq<nat>, exact: map<Id, Stored>, cidr: map<Id, Stored>, wl: map<Id, Key>)
    requires GatesExact(c, exact, cidr, wl)
    ensures |c| == CONFIG_MAP_ENTRIES && WlBitsExact(c[WL_BITMAP], wl)
  {
  }

  lemma GatedByCounts(c: seq<nat>, exact: map<Id, Stored>, cidr: map<Id, Stored>, wl: map<Id, Key>, wl': map<Id, Key>)
    requires Gated(c, exact, cidr, wl) && c[WHITELIST_COUNT] >= |wl'|
    ensures Gated(c, exact, cidr, wl')
  {
  }

  // ---- Deleting ----

  datatype WlDeleteOutcome = Deleted | NotFound | DeleteFailed | Unpublished

  /** The map entry and the memory of one entry, without a publish. */
  method RemoveWl(h: Handlers, id: Id) returns (ok: bool)
    requires h.Sound() && WlInv(h.Wl()) && id in h.wlEntries
    modifies h`wlEntries, h`wlKeyIndex, h`wlComboRefCount, h.kernel
    ensures h.Sound() && OnlyWhitelist(h.kernel.maps, old(h.kernel.maps), h.activeWLSlot)
    ensures h.Config() == old(h.Config())
    ensures h.Wl() == if ok then WlDrop(old(h.Wl()), id) else old(h.Wl())
    ensures h.kernel.reliable ==> ok
  {
    hide ComboType, Bump;
    var key := h.wlEntries[id];
    ok := h.kernel.DeleteWl(h.activeWLSlot, key);
    if ok {
      h.wlComboRefCount := Bump(h.wlComboRefCount, ComboType(key), -1);
      h.wlKeyIndex := h.wlKeyIndex - {key};
      h.wlEntries := h.wlEntries - {id};
    }
  }

  /** The rollback of a removal. */
  method PutBackWl(h: Handlers, id: Id, key: Key)
    requires h.Sound() && WlInv(h.Wl()) && id !in h.wlEntries && key !in h.Wl().live
    modifies h`wlEntries, h`wlKeyIndex, h`wlComboRefCount, h.kernel
    ensures h.Sound() && OnlyWhitelist(h.kernel.maps, old(h.kernel.maps), h.activeWLSlot)
    ensures h.Config() == old(h.Config())
    ensures h.Wl() == WlPut(old(h.Wl()), id, key)
  {
    hide ComboType, Bump, WlInv;
    h.wlComboRefCount := Bump(h.wlComboRefCount, ComboType(key), 1);
    h.wlEntries := h.wlEntries[id := key];
    h.wlKeyIndex := h.wlKeyIndex[key := id];
    h.kernel.TryInsertWl(h.activeWLSlot, key);
  }

  lemma WlPutUndoesDrop(w: WlTable, id: Id)
    requires WlInv(w) && id in w.entries
    ensures WlInv(WlDrop(w, id)) && |WlDrop(w, id).entries| + 1 == |w.entries|
    ensures w.entries[id] !in WlDrop(w, id).live && WlPut(WlDrop(w, id), id, w.entries[id]) == w
  {
    hide ComboType, WlCounted, Bump, WlUsable;
    WlDropKeepsInv(w, id);
    BumpUndone(w.combo, ComboType(w.entries[id]), -1);
    assert w.entries == (w.entries - {id})[id := w.entries[id]];
    assert w.index == (w.index - {w.entries[id]})[w.entries[id] := id];
    assert w.live - {w.entries[id]} + {w.entries[id]} == w.live;
  }

  /** Fewer entries are still covered by the old words. */
  lemma WlCoverShrinks(bitmap: nat, entries: map<Id, Key>, entries': map<Id, Key>)
    requires WlBitsCover(bitmap, entries)
    requires forall id :: id in entries' ==> id in entries && entries'[id] == entries[id]
    ensures WlBitsCover(bitmap, entries')
  {
  }

  /** DeleteWhitelist. Unlike the deletion of a rule, it is undone if the publish fails. */
  method DeleteWhitelist(h: Handlers, id: Id) returns (r: WlDeleteOutcome)
    requires h.Valid()
    modifies h, h.kernel
    ensures h.Valid()
    ensures r == NotFound <==> id !in old(h.wlEntries)
    ensures r == Deleted ==> h.State() == old(h.State()).(wl := WlDrop(old(h.Wl()), id))
    ensures r == Deleted ==> h.WlGated() && GatesExact(h.Config(), h.rules, h.cidrRules, h.wlEntries)
    ensures r == Deleted ==> SameExcess(old(h.Config()), old(h.State()), h.Config(), h.State())
    ensures r != Deleted ==> h.State() == old(h.State()) && h.Config() == old(h.Config())
    ensures h.kernel.reliable ==> r in {Deleted, NotFound}
  {
    hide ComboType, TableInv, WlInv, AllKeyed, RefsConserved, Gated, GatesExact, WlBitsCover, WlBitsExact, WlCounted,
         WlUsable, PublishLog, SameTables, h.Sound, WlDrop, Bump;
    if id !in h.wlEntries {
      return NotFound;
    }
    var key := h.wlEntries[id];
    ghost var w := h.Wl();
    AgentParts(h.State());
    GatedCounts(h.Config(), h.rules, h.cidrRules, h.wlEntries);
    WlPutUndoesDrop(w, id);
    DroppedEntry(w, id);
    label Start:
    var ok := RemoveWl(h, id);
    OnlyWlChanged@Start(h);
    if !ok {
      return DeleteFailed;
    }
    AgentParts(h.State());
    ok := PublishConfigUpdate(h, 0, -1, 0, h.wlEntries);
    if !ok {
      label Failed:
      PutBackWl(h, id, key);
      OnlyWlChanged@Failed(h);
      return Unpublished;
    }
    r := Deleted;
  }

  lemma DroppedEntry(w: WlTable, id: Id)
    requires id in w.entries
    ensures id !in WlDrop(w, id).entries
  {
  }

  /** Some entry goes, if it can be deleted. */
  method RemoveOne(h: Handlers) returns (gone: bool)
    requires h.Sound() && WlInv(h.Wl()) && h.wlEntries != map[]
    modifies h`wlEntries, h`wlKeyIndex, h`wlComboRefCount, h.kernel
    ensures h.Sound() && h.Config() == old(h.Config()) && h.State() == old(h.State()).(wl := h.Wl()) && WlInv(h.Wl())
    ensures forall id :: id in h.wlEntries ==> id in old(h.wlEntries) && h.wlEntries[id] == old(h.wlEntries)[id]
    ensures |h.wlEntries| + (if gone then 1 else 0) == |old(h.wlEntries)| && (!gone ==> h.Wl() == old(h.Wl()))
    ensures h.kernel.reliable ==> gone
  {
    hide ComboType, WlInv, h.Sound, WlDrop, Bump;
    var id :| id in h.wlEntries;
    ghost var w := h.Wl();
    WlPutUndoesDrop(w, id);
    DroppedIsSmaller(w, id);
    gone := RemoveWl(h, id);
    OnlyWlChanged(h);
  }

  /** Entries go one by one, in any order, until one cannot be deleted. */
  method RemoveUntilFailure(h: Handlers) returns (deleted: nat, broken: bool)
    requires h.Sound() && WlInv(h.Wl())
    modifies h`wlEntries, h`wlKeyIndex, h`wlComboRefCount, h.kernel
    ensures h.Sound() && h.Config() == old(h.Config()) && h.State() == old(h.State()).(wl := h.Wl()) && WlInv(h.Wl())
    ensures forall id :: id in h.wlEntries ==> id in old(h.wlEntries) && h.wlEntries[id] == old(h.wlEntries)[id]
    ensures |h.wlEntries| + deleted == |old(h.wlEntries)| && (!broken ==> h.wlEntries == map[])
    ensures deleted == 0 ==> h.Wl() == old(h.Wl())
    ensures h.kernel.reliable ==> !broken
  {
    hide ComboType, WlInv, h.Sound, WlDrop, Bump;
    deleted, broken := 0, false;
    while h.wlEntries != map[] && !broken
      invariant h.Sound() && h.Config() == old(h.Config()) && h.State() == old(h.State()).(wl := h.Wl())
      invariant WlInv(h.Wl())
      invariant forall id :: id in h.wlEntries ==> id in old(h.wlEntries) && h.wlEntries[id] == old(h.wlEntries)[id]
      invariant |h.wlEntries| + deleted == |old(h.wlEntries)| && (h.kernel.reliable ==> !broken)
      invariant deleted == 0 ==> h.Wl() == old(h.Wl())
      decreases |h.wlEntries|, !broken
    {
      var gone := RemoveOne(h);
      if gone {
        deleted := deleted + 1;
      } else {
        broken := true;
      }
    }
  }

  /** ClearAllWhitelistFromSync: the first failing delete ends it, and what is gone by then is
      published. */
  method ClearAllWhitelistFromSync(h: Handlers) returns (ok: bool)
    requires h.Valid()
    modifies h, h.kernel
    ensures h.Valid()
    ensures h.State() == old(h.State()).(wl := h.Wl())
    ensures forall id :: id in h.wlEntries ==> id in old(h.wlEntries) && h.wlEntries[id] == old(h.wlEntries)[id]
    ensures ok ==> h.Wl() == WL_EMPTY
    ensures h.kernel.reliable ==> ok
    ensures h.State() == old(h.State()) ==> h.Config() == old(h.Config())
    ensures (ok && h.State() != old(h.State())) || h.Config() != old(h.Config()) ==>
              && h.WlGated() && GatesExact(h.Config(), h.rules, h.cidrRules, h.wlEntries)
              && SameExcess(old(h.Config()), old(h.State()), h.Config(), h.State())
    ensures old(h.WlGated()) ==> h.WlGated()
  {
    hide ComboType, TableInv, WlInv, AllKeyed, RefsConserved, Gated, GatesExact, WlBitsCover, WlBitsExact, WlCounted,
         WlUsable, PublishLog, SameTables, h.Sound, SameExcess, WordsKept;
    ghost var a, c, entries := h.State(), h.Config(), h.wlEntries;
    GatedCounts(c, h.rules, h.cidrRules, h.wlEntries);
    AgentParts(h.State());
    var deleted, broken := RemoveUntilFailure(h);
    if !broken {
      EmptyWl(h.Wl());
      label Cleared:
      h.wlComboRefCount := NO_COUNTS;
      OnlyWlChanged@Cleared(h);
    }
    AgentParts(h.State());
    GatedByCounts(c, h.rules, h.cidrRules, entries, h.wlEntries);
    if old(h.WlGated()) {
      WlCoverShrinks(c[WL_BITMAP], entries, h.wlEntries);
    }
    ok := true;
    if deleted > 0 {
      ok := PublishConfigUpdate(h, 0, -(deleted as int), 0, h.wlEntries);
      if ok {
        ShiftedWithRules(c, a, h.Config(), h.State(), 0, -(deleted as int), 0);
      }
    }
    ok := ok && !broken;
  }

  lemma DroppedIsSmaller(w: WlTable, id: Id)
    requires id in w.entries
    ensures forall x :: x in WlDrop(w, id).entries ==> x in w.entries && WlDrop(w, id).entries[x] == w.entries[x]
  {
  }

  lemma EmptyWl(w: WlTable)
    requires WlInv(w) && w.entries == map[]
    ensures w == WL_EMPTY && w.combo == NO_COUNTS && WlInv(WL_EMPTY)
  {
    hide ComboType;
    forall c ensures KeysOfCombo(map[], c) == {} {}
    assert w.index == map[];
  }
}
