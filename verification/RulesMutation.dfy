/** rules_mutation.go: adding and deleting rules one by one and in batches. */
module RulesMutation {
  import opened Rules
  import opened Combo
  import opened Requests
  import opened Meaning
  import opened RuleTable
  import opened WlTable
  import opened BatchLoss
  import opened BatchRollback
  import opened CidrLookup
  import opened Kernel
  import opened CidrManager
  import opened Handlers
  import opened AgentConfig

  datatype AddOutcome = Added | Rejected | KeyTaken | InsertFailed | OldDeleteFailed | PublishFailed

  /** The rollback steps of one insertion, in memory and in the map. */
  method RollBack(h: Handlers, it: Item)
    modifies h`rules, h`ruleKeyIndex, h`comboRefCount, h.kernel
    ensures h.Exact() == Undo(old(h.Exact()), it)
    ensures OnlyBlacklist(h.kernel.maps, old(h.kernel.maps), h.activeRuleSlot)
  {
    hide ValueOf, ComboType;
    var k, side := it.stored.key, h.activeRuleSlot;
    h.kernel.TryDeleteRule(side, k);
    h.comboRefCount := Bump(h.comboRefCount, ComboType(k), -1);
    h.rules := h.rules - {it.id};
    h.ruleKeyIndex := h.ruleKeyIndex - {k};
    if it.old_.Some? {
      var o := it.old_.value;
      h.comboRefCount := Bump(h.comboRefCount, ComboType(o.key), 1);
      h.rules := h.rules[it.id := o];
      h.ruleKeyIndex := h.ruleKeyIndex[o.key := it.id];
      if o.key != k {
        h.kernel.TryInsertRule(side, o.key, ValueOf(o));
      }
    }
  }

  /** Steps 1 to 3 of an insertion: the new entry, the old entry, memory. The old entry goes
      after the new one is in; if it cannot go, the new one is taken out again. */
  method Insert(h: Handlers, it: Item, value: RuleValue) returns (r: AddOutcome)
    requires value == ValueOf(it.stored) && it.old_ == Held(h.rules, it.id)
    requires TableInv(h.Exact())
    modifies h`rules, h`ruleKeyIndex, h`comboRefCount, h.kernel
    ensures r in {Added, InsertFailed, OldDeleteFailed}
    ensures r == Added ==>
              it.stored.key !in old(h.Exact().live) && h.Exact() == Replace(old(h.Exact()), it.id, it.stored)
    ensures r != Added ==> h.Exact() == old(h.Exact())
    ensures it.stored.key in old(h.ruleKeyIndex) ==> r == InsertFailed
    ensures h.kernel.reliable && it.stored.key !in old(h.ruleKeyIndex) ==> r == Added
    ensures OnlyBlacklist(h.kernel.maps, old(h.kernel.maps), h.activeRuleSlot)
  {
    hide ValueOf, ComboType, Counted, Usable;
    var key, side := it.stored.key, h.activeRuleSlot;
    ghost var t := h.Exact();
    var ok := h.kernel.InsertRule(side, key, value);
    if !ok {
      return InsertFailed;
    }
    if it.old_.Some? && it.old_.value.key != key {
      ok := h.kernel.DeleteRule(side, it.old_.value.key);
      if !ok {
        h.kernel.TryDeleteRule(side, key);
        assert t.live[key := value] - {key} == t.live;
        return OldDeleteFailed;
      }
    }
    if it.old_.Some? {
      h.comboRefCount := Bump(h.comboRefCount, ComboType(it.old_.value.key), -1);
      h.ruleKeyIndex := h.ruleKeyIndex - {it.old_.value.key};
      assert t.live[key := value] - {it.old_.value.key} == (t.live - {it.old_.value.key})[key := value];
      assert t.rules[it.id := it.stored] == (t.rules - {it.id})[it.id := it.stored];
    }
    h.comboRefCount := Bump(h.comboRefCount, ComboType(key), 1);
    h.rules := h.rules[it.id := it.stored];
    h.ruleKeyIndex := h.ruleKeyIndex[key := it.id];
    r := Added;
  }

  /** The end of it, once the rule is in: the publish, and the rollback if that fails. */
  method FinishExact(h: Handlers, it: Item, ghost a: Agent) returns (ok: bool)
    requires h.Sound() && AgentInv(a) && Gated(h.Config(), a.exact.rules, a.cidr.rules, a.wl.entries)
    requires it.old_ == Held(a.exact.rules, it.id) && it.stored.key !in a.exact.live
    requires ValidCombo(ComboType(it.stored.key))
    requires h.State() == a.(exact := Replace(a.exact, it.id, it.stored))
    modifies h, h.kernel
    ensures h.Sound() && Gated(h.Config(), h.rules, h.cidrRules, h.wlEntries)
    ensures ok ==> h.State() == old(h.State()) && GatesExact(h.Config(), h.rules, h.cidrRules, h.wlEntries)
    ensures ok ==> SameExcess(old(h.Config()), a, h.Config(), h.State())
    ensures !ok ==> h.State() == a && h.Config() == old(h.Config())
    ensures h.kernel.reliable ==> ok
  {
    hide ValueOf, ComboType, BitsCover, WlBitsCover, AnomalyCount, GatesExact, WlInv, AllKeyed, RefsConserved, Undo,
         Replace, TableInv, PublishLog, SameTables, h.Sound, OnlyBlacklist, WlCounted, WlUsable, Gated, ValidCombo;
    AgentParts(a);
    ReplaceKeepsInv(a.exact, it.id, it.stored);
    GatedCounts(h.Config(), a.exact.rules, a.cidr.rules, a.wl.entries);
    var countDelta := if it.old_.Some? then 0 else 1;
    ok := PublishConfigUpdate(h, countDelta, 0, 0, h.wlEntries);
    if !ok {
      UndoReplace(a.exact, it);
      label Published:
      RollBack(h, it);
      OnlyExactChanged@Published(h);
    }
  }

  /** The part of AddRule and AddRuleFromSync that runs with the locks held. */
  method StoreExact(h: Handlers, id: Id, p: Prepared) returns (r: AddOutcome)
    requires h.Valid()
    requires ValidCombo(ComboType(p.stored.key)) && p.value == ValueOf(p.stored)
    modifies h, h.kernel
    ensures h.Valid() && r != Rejected
    ensures r == Added ==> h.State() == old(h.State()).(exact := Replace(old(h.Exact()), id, p.stored))
    ensures r == Added ==> GatesExact(h.Config(), h.rules, h.cidrRules, h.wlEntries)
    ensures r == Added ==> SameExcess(old(h.Config()), old(h.State()), h.Config(), h.State())
    ensures r != Added ==> h.State() == old(h.State()) && h.Config() == old(h.Config())
    ensures p.stored.key in old(h.ruleKeyIndex) ==>
              r == if old(h.ruleKeyIndex)[p.stored.key] == id then InsertFailed else KeyTaken
    ensures p.stored.key !in old(h.ruleKeyIndex) ==> r != KeyTaken && (h.kernel.reliable ==> r == Added)
  {
    hide ValueOf, ComboType, GatesExact, WlInv, AllKeyed, RefsConserved, Replace, TableInv, h.Sound, OnlyBlacklist,
         Gated, ValidCombo;
    var key := p.stored.key;
    ghost var a := h.State();
    AgentParts(a);
    if key in h.ruleKeyIndex && h.ruleKeyIndex[key] != id {
      return KeyTaken;
    }
    var it := Item(id, p.stored, Held(h.rules, id));
    label Start:
    r := Insert(h, it, p.value);
    OnlyExactChanged@Start(h);
    if r == Added {
      ReplaceKeepsInv(a.exact, id, p.stored);
      var ok := FinishExact(h, it, a);
      if !ok {
        r := PublishFailed;
      }
    }
  }

  /** AddRule and AddRuleFromSync on an exact rule. What is stored under its id matches exactly the
      packets that the request asks for. A rule that is not added leaves the agent's
      memory and the active maps as they were. A rule sent again under its own id with the same
      key is always refused, because its new entry must not exist yet; every other acceptable
      rule with a free key is added, unless a write fails. */
  method AddExactRule(h: Handlers, req: Rule, canonical: bool) returns (r: AddOutcome)
    requires h.Valid()
    modifies h, h.kernel
    ensures h.Valid()
    ensures r == Rejected <==> PrepareExact(req, canonical) == None
    ensures r == Added ==>
              h.State() ==
              old(h.State()).(exact := Replace(old(h.Exact()), req.id, PrepareExact(req, canonical).value.stored))
    ensures r == Added ==> req.id in h.rules && h.rules == old(h.rules)[req.id := h.rules[req.id]]
    ensures r == Added ==> StoredExact(h.rules[req.id], req)
    ensures r == Added ==> GatesExact(h.Config(), h.rules, h.cidrRules, h.wlEntries)
    ensures r == Added ==> SameExcess(old(h.Config()), old(h.State()), h.Config(), h.State())
    ensures r != Added ==> h.State() == old(h.State()) && h.Config() == old(h.Config())
    ensures r == KeyTaken ==> PrepareExact(req, canonical).value.stored.key in old(h.ruleKeyIndex)
    ensures r != Rejected && PrepareExact(req, canonical).value.stored.key in old(h.ruleKeyIndex) ==>
              r == if old(h.ruleKeyIndex)[PrepareExact(req, canonical).value.stored.key] == req.id
                   then InsertFailed else KeyTaken
    ensures h.kernel.reliable && FreeKey(req, canonical, old(h.ruleKeyIndex)) ==> r == Added
  {
    hide ValueOf, ComboType, PrepareExact, TableInv, Gated, GatesExact, WlInv, AllKeyed, RefsConserved, Undo, Replace,
         StoredExact;
    var p := PrepareExact(req, canonical);
    if p.None? {
      return Rejected;
    }
    RebuiltValueIsWrittenValue(req, canonical, false, 0, 0);
    ReplacedRules(h.Exact(), req.id, p.value.stored);
    ExactMeaning(req, canonical);
    r := StoreExact(h, req.id, p.value);
  }

  /** The rule is acceptable and its key is not in use. */
  predicate FreeKey(req: Rule, canonical: bool, index: map<Key, Id>) {
    PrepareExact(req, canonical).Some? && PrepareExact(req, canonical).value.stored.key !in index
  }

  /** A rule that was added and is sent again is refused by its own entry, with no write failing
      for any other reason: nothing can change it in place but its key. */
  method SendTwice(h: Handlers, req: Rule, canonical: bool) returns (first: AddOutcome, second: AddOutcome)
    requires h.Valid()
    modifies h, h.kernel
    ensures h.Valid()
    ensures first == Added ==> second == InsertFailed
    ensures h.kernel.reliable && FreeKey(req, canonical, old(h.ruleKeyIndex)) ==>
              first == Added && second == InsertFailed
  {
    hide ValueOf, ComboType, PrepareExact, TableInv, Gated, GatesExact, WlInv, AllKeyed, RefsConserved, h.Sound;
    ghost var t := h.Exact();
    first := AddExactRule(h, req, canonical);
    if first == Added {
      ReplacedKey(t, req.id, PrepareExact(req, canonical).value.stored);
    }
    second := AddExactRule(h, req, canonical);
  }

  lemma ReplacedKey(t: Table, id: Id, st: Stored)
    ensures st.key in Replace(t, id, st).index && Replace(t, id, st).index[st.key] == id
  {
    hide ValueOf, ComboType;
  }

  /** For example: any rule on one destination port, on an agent without rules. */
  lemma SendTwiceExample(id: Id, dport: Port, canonical: bool)
    requires 0 < dport
    ensures FreeKey(OnPort(id, dport), canonical, map[])
  {
    hide PrepareExact;
    OnPortPrepared(id, dport, canonical);
  }

  // ---- Batches ----

  /** What a batch asks for: the acceptable requests, the last one of each id. */
  function LastWins(reqs: seq<Rule>): map<Id, Prepared> {
    if reqs == [] then map[]
    else
      var r := reqs[|reqs| - 1];
      var m := LastWins(reqs[..|reqs| - 1]);
      if PrepareExact(r, true).Some? then m[r.id := PrepareExact(r, true).value] else m
  }

  /** Its ids, in the order of their first acceptable requests. */
  function FirstIds(reqs: seq<Rule>): (ids: seq<Id>)
    ensures forall id :: id in ids <==> id in LastWins(reqs)
  {
    if reqs == [] then []
    else
      var r := reqs[|reqs| - 1];
      var ids := FirstIds(reqs[..|reqs| - 1]);
      if PrepareExact(r, true).None? || r.id in ids then ids else ids + [r.id]
  }

  function ItemsFor(ids: seq<Id>, m: map<Id, Prepared>): (items: seq<BatchItem>)
    requires forall id :: id in ids ==> id in m
    ensures |items| == |ids| && forall i :: 0 <= i < |ids| ==> items[i] == BatchItem(ids[i], m[ids[i]])
  {
    if ids == [] then [] else [BatchItem(ids[0], m[ids[0]])] + ItemsFor(ids[1..], m)
  }

  /** The rules that a batch tries to insert, in the order in which it does: each id has the place
      of its first acceptable request and the contents of its last one. */
  function AskedItems(reqs: seq<Rule>): seq<BatchItem> {
    ItemsFor(FirstIds(reqs), LastWins(reqs))
  }

  /** How many requests of a batch are refused. */
  function RefusedIn(reqs: seq<Rule>): (n: nat)
    ensures n <= |reqs|
  {
    if reqs == [] then 0
    else RefusedIn(reqs[..|reqs| - 1]) + (if PrepareExact(reqs[|reqs| - 1], true).None? then 1 else 0)
  }

  lemma {:induction false} FirstIdsOnce(reqs: seq<Rule>)
    ensures forall i, j :: 0 <= i < j < |FirstIds(reqs)| ==> FirstIds(reqs)[i] != FirstIds(reqs)[j]
    ensures |FirstIds(reqs)| == |LastWins(reqs)|
  {
    hide PrepareExact;
    if reqs != [] {
      FirstIdsOnce(reqs[..|reqs| - 1]);
      var m, r := LastWins(reqs[..|reqs| - 1]), reqs[|reqs| - 1];
      if r.id in m && PrepareExact(r, true).Some? {
        assert m[r.id := PrepareExact(r, true).value].Keys == m.Keys;
        assert |m[r.id := PrepareExact(r, true).value]| == |m|;
      }
    }
  }

  lemma PreparedIsAcceptable(r: Rule)
    ensures var p := PrepareExact(r, true); p.Some? ==> Acceptable(BatchItem(r.id, p.value))
  {
    hide ValueOf, ComboType, PrepareExact;
    RebuiltValueIsWrittenValue(r, true, false, 0, 0);
  }

  lemma {:induction false} WonIsAcceptable(reqs: seq<Rule>, id: Id)
    requires id in LastWins(reqs)
    ensures Acceptable(BatchItem(id, LastWins(reqs)[id]))
  {
    hide PrepareExact, Acceptable;
    var r := reqs[|reqs| - 1];
    if PrepareExact(r, true).Some? && r.id == id {
      PreparedIsAcceptable(r);
    } else {
      WonIsAcceptable(reqs[..|reqs| - 1], id);
    }
  }

  lemma AskedIsProper(reqs: seq<Rule>)
    ensures Proper(AskedItems(reqs)) && |AskedItems(reqs)| == |LastWins(reqs)|
  {
    hide Acceptable, FirstIds, LastWins;
    FirstIdsOnce(reqs);
    forall i | 0 <= i < |AskedItems(reqs)|
      ensures Acceptable(AskedItems(reqs)[i])
    {
      WonIsAcceptable(reqs, FirstIds(reqs)[i]);
    }
  }

  /** No later acceptable request has the id of this one, which is acceptable. */
  predicate LastOf(reqs: seq<Rule>, i: nat)
    requires i < |reqs|
  {
    && PrepareExact(reqs[i], true).Some?
    && forall j :: i < j < |reqs| && reqs[j].id == reqs[i].id ==> PrepareExact(reqs[j], true).None?
  }

  /** The rule matches exactly the packets that the last acceptable request of its id asks for. */
  ghost predicate AskedBy(id: Id, st: Stored, reqs: seq<Rule>) {
    exists i: nat :: i < |reqs| && LastOf(reqs, i) && reqs[i].id == id && StoredExact(st, reqs[i])
  }

  lemma {:induction false} WonIsAsked(reqs: seq<Rule>, id: Id)
    requires id in LastWins(reqs)
    ensures AskedBy(id, LastWins(reqs)[id].stored, reqs)
  {
    hide PrepareExact, StoredExact;
    var n := |reqs| - 1;
    if PrepareExact(reqs[n], true).Some? && reqs[n].id == id {
      ExactMeaning(reqs[n], true);
      assert LastOf(reqs, n);
    } else {
      WonIsAsked(reqs[..n], id);
      var i: nat :| i < n && LastOf(reqs[..n], i) && reqs[i].id == id &&
                    StoredExact(LastWins(reqs)[id].stored, reqs[i]);
      assert forall j :: i < j < n ==> reqs[..n][j] == reqs[j];
      assert LastOf(reqs, i);
    }
  }

  /** Rules are tried in the order in which their ids are first asked for acceptably. */
  lemma {:induction false} FirstIdsInOrder(reqs: seq<Rule>, i: nat, j: nat) returns (a: nat, b: nat)
    requires i < j < |FirstIds(reqs)|
    ensures a < b < |reqs| && FirstOf(reqs, a) && FirstOf(reqs, b)
    ensures reqs[a].id == FirstIds(reqs)[i] && reqs[b].id == FirstIds(reqs)[j]
  {
    hide PrepareExact;
    var n := |reqs| - 1;
    var ids := FirstIds(reqs[..n]);
    if j < |ids| {
      a, b := FirstIdsInOrder(reqs[..n], i, j);
      FirstStays(reqs, a);
      FirstStays(reqs, b);
    } else {
      a := FirstIdAt(reqs[..n], i);
      b := n;
      FirstStays(reqs, a);
      NotWonBefore(reqs[..n], reqs[n].id);
      assert forall k :: 0 <= k < n ==> reqs[..n][k] == reqs[k];
    }
  }

  /** No earlier acceptable request has the id of this one, which is acceptable. */
  predicate FirstOf(reqs: seq<Rule>, i: nat)
    requires i < |reqs|
  {
    && PrepareExact(reqs[i], true).Some?
    && forall j :: 0 <= j < i && reqs[j].id == reqs[i].id ==> PrepareExact(reqs[j], true).None?
  }

  lemma FirstStays(reqs: seq<Rule>, a: nat)
    requires reqs != [] && a < |reqs| - 1 && FirstOf(reqs[..|reqs| - 1], a)
    ensures FirstOf(reqs, a)
  {
    hide PrepareExact;
    assert forall k :: 0 <= k < |reqs| - 1 ==> reqs[..|reqs| - 1][k] == reqs[k];
  }

  lemma {:induction false} FirstIdAt(reqs: seq<Rule>, i: nat) returns (a: nat)
    requires i < |FirstIds(reqs)|
    ensures a < |reqs| && FirstOf(reqs, a) && reqs[a].id == FirstIds(reqs)[i]
  {
    hide PrepareExact;
    var n := |reqs| - 1;
    if i < |FirstIds(reqs[..n])| {
      a := FirstIdAt(reqs[..n], i);
      FirstStays(reqs, a);
    } else {
      a := n;
      NotWonBefore(reqs[..n], reqs[n].id);
      assert forall k :: 0 <= k < n ==> reqs[..n][k] == reqs[k];
    }
  }

  lemma {:induction false} NotWonBefore(reqs: seq<Rule>, id: Id)
    ensures id !in LastWins(reqs) ==>
              forall k :: 0 <= k < |reqs| && reqs[k].id == id ==> PrepareExact(reqs[k], true).None?
  {
    hide PrepareExact;
    if reqs != [] {
      var n := |reqs| - 1;
      NotWonBefore(reqs[..n], id);
      assert forall k :: 0 <= k < n ==> reqs[..n][k] == reqs[k];
    }
  }

  /** What is drawn from a batch is what its requests ask for. */
  lemma DrawnIsAsked(t: Table, reqs: seq<Rule>, items: seq<Item>)
    requires Drawn(t, AskedItems(reqs), items)
    ensures forall it :: it in items ==> AskedBy(it.id, it.stored, reqs)
  {
    hide Drawn, AskedBy, FirstIds, LastWins;
    forall it | it in items
      ensures AskedBy(it.id, it.stored, reqs)
    {
      var a :| 0 <= a < |items| && items[a] == it;
      var i := DrawnAt(t, AskedItems(reqs), items, a);
      WonIsAsked(reqs, it.id);
    }
  }

  /** The table of ids seen so far says where each id's item is. */
  ghost predicate Indexed(items: seq<BatchItem>, seen: map<Id, nat>, ids: seq<Id>, m: map<Id, Prepared>) {
    && |items| == |ids|
    && (forall id :: id in m <==> id in seen)
    && (forall id :: id in seen ==> seen[id] < |ids| && ids[seen[id]] == id)
    && (forall i :: 0 <= i < |ids| ==> ids[i] in seen && seen[ids[i]] == i && items[i] == BatchItem(ids[i], m[ids[i]]))
  }

  lemma NothingIndexed()
    ensures Indexed([], map[], [], map[])
  {
  }

  lemma StaysIndexed(items: seq<BatchItem>, seen: map<Id, nat>, ids: seq<Id>, m: map<Id, Prepared>, it: BatchItem)
    requires Indexed(items, seen, ids, m)
    ensures it.id in ids <==> it.id in seen
    ensures it.id in seen ==> seen[it.id] < |items| && Indexed(items[seen[it.id] := it], seen, ids, m[it.id := it.p])
    ensures it.id !in seen ==> Indexed(items + [it], seen[it.id := |items|], ids + [it.id], m[it.id := it.p])
  {
    if it.id in seen {
      assert ids[seen[it.id]] == it.id;
    }
  }

  lemma IndexedIsAsked(items: seq<BatchItem>, seen: map<Id, nat>, reqs: seq<Rule>)
    requires Indexed(items, seen, FirstIds(reqs), LastWins(reqs))
    ensures items == AskedItems(reqs)
  {
    hide FirstIds, LastWins;
  }

  /** The preparation loop of AddRulesBatch: a repeated id replaces the earlier item in place. */
  method PrepareBatch(reqs: seq<Rule>) returns (prepared: seq<BatchItem>, failed: nat)
    ensures prepared == AskedItems(reqs) && failed == RefusedIn(reqs)
  {
    hide PrepareExact, Indexed, AskedItems;
    NothingIndexed();
    prepared, failed := [], 0;
    var seenIDs: map<Id, nat> := map[];
    for n := 0 to |reqs|
      invariant Indexed(prepared, seenIDs, FirstIds(reqs[..n]), LastWins(reqs[..n])) && failed == RefusedIn(reqs[..n])
    {
      var r := reqs[n];
      assert reqs[..n + 1][..n] == reqs[..n];
      var p := PrepareExact(r, true);
      if p.None? {
        failed := failed + 1;
      } else {
        StaysIndexed(prepared, seenIDs, FirstIds(reqs[..n]), LastWins(reqs[..n]), BatchItem(r.id, p.value));
        if r.id in seenIDs {
          prepared := prepared[seenIDs[r.id] := BatchItem(r.id, p.value)];
        } else {
          seenIDs := seenIDs[r.id := |prepared|];
          prepared := prepared + [BatchItem(r.id, p.value)];
        }
      }
    }
    assert reqs[..|reqs|] == reqs;
    IndexedIsAsked(prepared, seenIDs, reqs);
  }

  /** The insertions that succeed if no write fails: an item is skipped only if its key is in
      use at that moment. */
  ghost function Takes(t: Table, prepared: seq<BatchItem>): seq<Item> {
    if prepared == [] then []
    else
      var before, p := Takes(t, prepared[..|prepared| - 1]), prepared[|prepared| - 1];
      var u := ApplyAll(t, before);
      if p.p.stored.key in u.index then before else before + [ItemIn(u, p)]
  }

  lemma {:induction false} TakenFrom(t: Table, asked: seq<BatchItem>, it: Item)
    requires it in Takes(t, asked)
    ensures exists j :: 0 <= j < |asked| && it.id == asked[j].id
  {
    hide ApplyAll;
    var n := |asked| - 1;
    if it in Takes(t, asked[..n]) {
      TakenFrom(t, asked[..n], it);
      var j :| 0 <= j < n && it.id == asked[..n][j].id;
      assert it.id == asked[j].id;
    } else {
      assert it.id == asked[n].id;
    }
  }

  predicate Taken(items: seq<Item>, p: BatchItem) {
    exists k :: 0 <= k < |items| && items[k].id == p.id && items[k].stored == p.p.stored
  }

  /** While no write fails an item goes in exactly if its key is free at its turn. */
  lemma {:induction false} TakenIff(t: Table, asked: seq<BatchItem>, i: nat)
    requires i < |asked| && forall j, k :: 0 <= j < k < |asked| ==> asked[j].id != asked[k].id
    ensures Taken(Takes(t, asked), asked[i]) <==>
            asked[i].p.stored.key !in ApplyAll(t, Takes(t, asked[..i])).index
    decreases |asked|
  {
    hide ApplyAll;
    var n := |asked| - 1;
    var init, before := asked[..n], Takes(t, asked[..n]);
    assert forall j :: 0 <= j < n ==> init[j] == asked[j];
    if i < n {
      TakenIff(t, init, i);
      assert asked[..i] == init[..i];
      assert Takes(t, asked)[..|before|] == before;
      assert Taken(before, asked[i]) ==> Taken(Takes(t, asked), asked[i]);
    } else {
      forall it | it in before
        ensures it.id != asked[n].id
      {
        TakenFrom(t, init, it);
      }
      if |Takes(t, asked)| > |before| {
        assert Takes(t, asked)[|before|] == ItemIn(ApplyAll(t, before), asked[n]);
      }
    }
  }

  lemma TakesNext(t: Table, asked: seq<BatchItem>, p: BatchItem)
    ensures var u := ApplyAll(t, Takes(t, asked));
            Takes(t, asked + [p]) == Takes(t, asked) + (if p.p.stored.key in u.index then [] else [ItemIn(u, p)])
  {
    hide ApplyAll;
    assert (asked + [p])[..|asked|] == asked;
  }

  /** The insertion loop of AddRulesBatch: items fail one by one, without effect. */
  method InsertAll(h: Handlers, prepared: seq<BatchItem>) returns (items: seq<Item>, failed: nat)
    requires h.Sound() && TableInv(h.Exact()) && Proper(prepared)
    modifies h`rules, h`ruleKeyIndex, h`comboRefCount, h.kernel
    ensures h.Sound() && h.Config() == old(h.Config())
    ensures Drawn(old(h.Exact()), prepared, items) && Applicable(old(h.Exact()), items) && DistinctIds(items)
    ensures h.State() == old(h.State()).(exact := ApplyAll(old(h.Exact()), items))
    ensures failed + |items| == |prepared|
    ensures h.kernel.reliable ==> items == Takes(old(h.Exact()), prepared)
  {
    hide TableInv, ApplyAll, Applicable, Replace, ComboType, ValueOf, h.Sound, OnlyBlacklist, NetNew, Drawn, Takes,
         DistinctIds;
    ghost var t := h.Exact();
    items, failed := [], 0;
    EmptyBatch(t);
    for i := 0 to |prepared|
      invariant h.Sound() && h.Config() == old(h.Config())
      invariant Drawn(t, prepared[..i], items)
      invariant h.State() == old(h.State()).(exact := ApplyAll(t, items))
      invariant failed + |items| == i
      invariant h.kernel.reliable ==> items == Takes(t, prepared[..i])
    {
      var p := prepared[i];
      assert prepared[..i + 1] == prepared[..i] + [p];
      assert Proper(prepared[..i]) && Acceptable(p);
      DrawnApplies(t, prepared[..i], items);
      ApplyAllKeepsInv(t, items);
      SameKeys(h.Exact());
      DrawnSkip(t, prepared[..i], p, items);
      TakesNext(t, prepared[..i], p);
      var it := Item(p.id, p.p.stored, Held(h.rules, p.id));
      if it.stored.key in h.ruleKeyIndex && h.ruleKeyIndex[it.stored.key] != p.id {
        failed := failed + 1;
      } else {
        label Start:
        var r := Insert(h, it, p.p.value);
        OnlyExactChanged@Start(h);
        if r != Added {
          failed := failed + 1;
        } else {
          DrawnTake(t, prepared[..i], p, items);
          ApplyAllSnoc(t, items, it);
          items := items + [it];
        }
      }
    }
    assert prepared[..|prepared|] == prepared;
    DrawnApplies(t, prepared, items);
  }

  lemma EmptyBatch(t: Table)
    ensures Drawn(t, [], []) && Takes(t, []) == [] && Applicable(t, []) && ApplyAll(t, []) == t && DistinctIds([])
  {
  }

  /** The rollback loop of AddRulesBatch, first item first. */
  method RollBackAll(h: Handlers, items: seq<Item>)
    requires h.Sound()
    modifies h`rules, h`ruleKeyIndex, h`comboRefCount, h.kernel
    ensures h.Sound() && h.Config() == old(h.Config())
    ensures h.State() == old(h.State()).(exact := UndoAll(old(h.Exact()), items))
  {
    hide h.Sound, Undo, OnlyBlacklist;
    ghost var t := h.Exact();
    assert items[0..] == items;
    for i := 0 to |items|
      invariant h.Sound() && h.Config() == old(h.Config())
      invariant h.State() == old(h.State()).(exact := h.Exact())
      invariant UndoAll(h.Exact(), items[i..]) == UndoAll(t, items)
    {
      label Start:
      RollBack(h, items[i]);
      OnlyExactChanged@Start(h);
      assert items[i..][1..] == items[i + 1..];
    }
  }

  /** The exact rules of AddRulesBatch. On success the batch's insertions are in force. On a
      failed publish the whole batch is rolled back, first item first, and that restores the
      agent exactly when no rule took over a key another rule of the batch had given up. Whether
      it can come to that is known beforehand: exactly if the batch CanLose. */
  method AddRulesBatch(h: Handlers, reqs: seq<Rule>)
    returns (ok: bool, added: nat, failed: nat, ghost items: seq<Item>)
    requires h.Valid()
    modifies h, h.kernel
    ensures Drawn(old(h.Exact()), AskedItems(reqs), items)
    ensures forall it :: it in items ==> AskedBy(it.id, it.stored, reqs)
    ensures ok ==> h.Valid() && h.State() == old(h.State()).(exact := ApplyAll(old(h.Exact()), items))
    ensures ok ==> added == |items| && failed + added == RefusedIn(reqs) + |LastWins(reqs)|
    ensures if ok && items != [] then GatesExact(h.Config(), h.rules, h.cidrRules, h.wlEntries)
            else h.Config() == old(h.Config())
    ensures ok && items != [] ==> SameExcess(old(h.Config()), old(h.State()), h.Config(), h.State())
    ensures !ok ==> h.State() == old(h.State()).(exact := UndoAll(ApplyAll(old(h.Exact()), items), items)) && added == 0
    ensures !ok ==> (h.State() == old(h.State()) <==> !HandsOver(items))
    ensures !ok ==> (h.Valid() <==> h.State() == old(h.State()))
    ensures !ok && !CanLose(old(h.rules), old(h.ruleKeyIndex), AskedItems(reqs)) ==> h.State() == old(h.State())
    ensures h.kernel.reliable ==> ok && items == Takes(old(h.Exact()), AskedItems(reqs))
  {
    hide TableInv, ApplyAll, UndoAll, Applicable, Replace, ComboType, ValueOf, h.Sound, NetNew, Proper, GatesExact,
         BitsCover, WlBitsCover, AnomalyCount, WlInv, AllKeyed, RefsConserved, PublishLog, SameTables, LastWins,
         HandsOver, DistinctIds, WlCounted, WlUsable, Takes, Drawn, AskedItems, CanLose,
         AskedBy;
    ghost var t := h.Exact();
    var prepared;
    prepared, failed := PrepareBatch(reqs);
    AskedIsProper(reqs);
    var done, rejected := InsertAll(h, prepared);
    failed := failed + rejected;
    items := done;
    DrawnIsAsked(t, reqs, items);
    added := |done|;
    ApplyAllKeepsInv(t, items);
    var netNew := CountNew(done);
    if |done| > 0 {
      AgentParts(h.State());
      ok := PublishConfigUpdate(h, netNew, 0, 0, h.wlEntries);
      if !ok {
        RollBackAll(h, done);
        RollbackRestoresIff(t, items);
        CanLoseIff(t, prepared);
        added := 0;
        return;
      }
    }
    EmptyBatch(t);
    ok := true;
  }

  method CountNew(items: seq<Item>) returns (n: nat)
    ensures n == NetNew(items)
  {
    n := 0;
    assert items[0..] == items;
    for i := 0 to |items|
      invariant n + NetNew(items[i..]) == NetNew(items)
    {
      assert items[i..][1..] == items[i + 1..];
      if items[i].old_.None? {
        n := n + 1;
      }
    }
  }
}
