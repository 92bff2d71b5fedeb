/** whitelist.go: the all-or-nothing batch of additions and the batch of deletions. */
module WhitelistBatch {
  import opened Rules
  import opened Combo
  import opened Requests
  import opened RuleTable
  import opened WlTable
  import opened CidrLookup
  import opened Kernel
  import opened CidrManager
  import opened Handlers
  import opened AgentConfig
  import opened Whitelist

  // ---- What a batch of changes amounts to ----

  /** An entry of the batch that changes something, and the key its id had. */
  datatype Change = Change(id: Id, key: Key, old_: Option<Key>)

  function HeldKey(entries: map<Id, Key>, id: Id): Option<Key> {
    if id in entries then Some(entries[id]) else None
  }

  /** No two changes share an id or a key, every key is new, and the old keys are remembered. */
  ghost predicate Planned(w: WlTable, cs: seq<Change>) {
    && (forall i :: 0 <= i < |cs| ==> cs[i].old_ == HeldKey(w.entries, cs[i].id) && cs[i].key !in w.live
                                      && ValidCombo(ComboType(cs[i].key)))
    && forall i, j :: 0 <= i < j < |cs| ==> cs[i].id != cs[j].id && cs[i].key != cs[j].key
  }

  /** The entries replaced one by one. */
  function WlAll(w: WlTable, cs: seq<Change>): WlTable {
    if cs == [] then w
    else
      var last := cs[|cs| - 1];
      WlReplace(WlAll(w, cs[..|cs| - 1]), last.id, last.key)
  }

  function OldKey(c: Change): set<Key> {
    if c.old_.Some? then {c.old_.value} else {}
  }

  function Olds(cs: seq<Change>): set<Key> {
    if cs == [] then {} else Olds(cs[..|cs| - 1]) + OldKey(cs[|cs| - 1])
  }

  function News(cs: seq<Change>): set<Key> {
    if cs == [] then {} else News(cs[..|cs| - 1]) + {cs[|cs| - 1].key}
  }

  /** How much the count of a combo changes. */
  function Delta(cs: seq<Change>, c: int): int {
    if cs == [] then 0 else Delta(cs[..|cs| - 1], c) + DeltaOf(cs[|cs| - 1], c)
  }

  function DeltaOf(x: Change, c: int): int {
    (if ComboType(x.key) == c then 1 else 0) - (if x.old_.Some? && ComboType(x.old_.value) == c then 1 else 0)
  }

  function NewIds(cs: seq<Change>): nat {
    if cs == [] then 0 else NewIds(cs[..|cs| - 1]) + (if cs[|cs| - 1].old_.None? then 1 else 0)
  }

  lemma PlannedPrefix(w: WlTable, cs: seq<Change>, n: nat)
    requires Planned(w, cs) && n <= |cs|
    ensures Planned(w, cs[..n])
  {
  }

  lemma {:induction false} NewsAre(cs: seq<Change>)
    ensures forall k :: k in News(cs) <==> exists i :: 0 <= i < |cs| && cs[i].key == k
  {
    if cs != [] {
      NewsAre(cs[..|cs| - 1]);
    }
  }

  lemma {:induction false} OldsAre(cs: seq<Change>)
    ensures forall k :: k in Olds(cs) <==> exists i :: 0 <= i < |cs| && cs[i].old_ == Some(k)
  {
    if cs != [] {
      OldsAre(cs[..|cs| - 1]);
    }
  }

  /** Ids outside of the changes keep their keys. */
  lemma {:induction false} WlAllElsewhere(w: WlTable, cs: seq<Change>, id: Id)
    requires forall i :: 0 <= i < |cs| ==> cs[i].id != id
    ensures HeldKey(WlAll(w, cs).entries, id) == HeldKey(w.entries, id)
  {
    hide ComboType;
    if cs != [] {
      WlAllElsewhere(w, cs[..|cs| - 1], id);
    }
  }

  /** The last change of a plan, as one replacement in the table of the others. */
  lemma LastChange(w: WlTable, cs: seq<Change>)
    requires Planned(w, cs) && cs != []
    requires WlInv(WlAll(w, cs[..|cs| - 1]))
    requires WlAll(w, cs[..|cs| - 1]).live == w.live - Olds(cs[..|cs| - 1]) + News(cs[..|cs| - 1])
    ensures var x, last := WlAll(w, cs[..|cs| - 1]), cs[|cs| - 1];
            last.old_ == HeldKey(x.entries, last.id) && last.key !in x.live
  {
    hide ComboType, WlAll, WlInv;
    var init, last := cs[..|cs| - 1], cs[|cs| - 1];
    WlAllElsewhere(w, init, last.id);
    NewsAre(init);
  }

  lemma {:induction false} WlAllKeepsInv(w: WlTable, cs: seq<Change>)
    requires WlInv(w) && Planned(w, cs)
    ensures WlInv(WlAll(w, cs))
    ensures WlAll(w, cs).live == w.live - Olds(cs) + News(cs)
    ensures |WlAll(w, cs).entries| == |w.entries| + NewIds(cs)
  {
    hide ComboType, WlInv, WlReplace, OldKey;
    if cs == [] {
    } else {
      var init, last := cs[..|cs| - 1], cs[|cs| - 1];
      PlannedPrefix(w, cs, |cs| - 1);
      WlAllKeepsInv(w, init);
      LastChange(w, cs);
      WlReplaced(WlAll(w, init), last.id, last.key);
      ReplacedLive(WlAll(w, init), last.id, last.key);
      OldNotNew(w, cs);
      KeyNotOld(w, cs);
      LiveStep(w.live, Olds(init), News(init), OldKey(last), last.key);
    }
  }

  lemma LiveStep(live: set<Key>, olds: set<Key>, news: set<Key>, old_: set<Key>, key: Key)
    requires old_ !! news && key !in olds + old_
    ensures live - olds + news - old_ + {key} == live - (olds + old_) + (news + {key})
  {
  }

  lemma ReplacedLive(x: WlTable, id: Id, k: Key)
    ensures WlReplace(x, id, k).live == x.live - OldKey(Change(id, k, HeldKey(x.entries, id))) + {k}
  {
    hide ComboType, Bump;
  }

  lemma OldIsLive(w: WlTable, cs: seq<Change>, i: nat)
    requires WlInv(w) && Planned(w, cs) && i < |cs|
    ensures OldKey(cs[i]) <= w.live
  {
    hide ComboType;
  }

  lemma OldNotNew(w: WlTable, cs: seq<Change>)
    requires WlInv(w) && Planned(w, cs) && cs != []
    ensures OldKey(cs[|cs| - 1]) !! News(cs[..|cs| - 1])
  {
    hide ComboType;
    NewsAre(cs[..|cs| - 1]);
    OldIsLive(w, cs, |cs| - 1);
  }

  lemma KeyNotOld(w: WlTable, cs: seq<Change>)
    requires WlInv(w) && Planned(w, cs) && cs != []
    ensures cs[|cs| - 1].key !in Olds(cs)
  {
    hide ComboType, WlInv;
    OldsAre(cs);
    forall i | 0 <= i < |cs| ensures cs[i].old_ != Some(cs[|cs| - 1].key) {
      OldIsLive(w, cs, i);
    }
  }

  /** The counts of the result. */
  lemma {:induction false} WlAllCombo(w: WlTable, cs: seq<Change>, c: int)
    requires WlInv(w) && Planned(w, cs) && 0 <= c < 64
    ensures |WlAll(w, cs).combo| == |w.combo| == 64
    ensures WlAll(w, cs).combo[c] == w.combo[c] + Delta(cs, c)
  {
    hide ComboType, WlInverse, WlUsable;
    if cs != [] {
      PlannedPrefix(w, cs, |cs| - 1);
      WlAllCombo(w, cs[..|cs| - 1], c);
      WlAllKeepsInv(w, cs[..|cs| - 1]);
      LastChange(w, cs);
    }
  }

  // ---- Preparation ----

  /** What the batch asks for, the last entry of each id; None if some entry is refused. */
  function Asked(entries: seq<WlEntry>): Option<map<Id, Key>> {
    if entries == [] then Some(map[])
    else
      var rest, k := Asked(entries[..|entries| - 1]), PrepareWl(entries[|entries| - 1]);
      if rest.Some? && k.Some? then Some(rest.value[entries[|entries| - 1].id := k.value]) else None
  }

  /** A batch is refused for one bad entry. */
  lemma {:induction false} AskedIs(entries: seq<WlEntry>)
    ensures Asked(entries).None? <==> exists i :: 0 <= i < |entries| && PrepareWl(entries[i]).None?
    ensures Asked(entries).Some? ==>
              forall id :: id in Asked(entries).value <==> exists i :: 0 <= i < |entries| && entries[i].id == id
  {
    hide PrepareWl;
    if entries != [] {
      var n := |entries| - 1;
      AskedIs(entries[..n]);
      assert forall i :: 0 <= i < n ==> entries[..n][i] == entries[i];
    }
  }

  /** Of several entries under one id the last one counts. */
  lemma {:induction false} AskedAt(entries: seq<WlEntry>, i: nat)
    requires Asked(entries).Some? && i < |entries| && forall j :: i < j < |entries| ==> entries[j].id != entries[i].id
    ensures entries[i].id in Asked(entries).value
    ensures PrepareWl(entries[i]) == Some(Asked(entries).value[entries[i].id])
  {
    hide PrepareWl;
    var n := |entries| - 1;
    if i < n {
      assert forall j :: 0 <= j < n ==> entries[..n][j] == entries[j];
      AskedAt(entries[..n], i);
    }
  }

  /** The items are the entries of m, each once. */
  ghost predicate Lists(items: seq<WlItem>, m: map<Id, Key>) {
    && (forall i, j :: 0 <= i < j < |items| ==> items[i].id != items[j].id)
    && (forall i :: 0 <= i < |items| ==> items[i].id in m && m[items[i].id] == items[i].key)
    && (forall id :: id in m ==> exists i :: 0 <= i < |items| && items[i].id == id)
  }

  ghost predicate Indexed(items: seq<WlItem>, seen: map<Id, nat>, m: map<Id, Key>) {
    && seen.Keys == m.Keys
    && (forall id :: id in seen ==> seen[id] < |items| && items[seen[id]] == WlItem(id, m[id]))
    && (forall i :: 0 <= i < |items| ==> items[i].id in seen && seen[items[i].id] == i)
  }

  lemma NothingIndexed()
    ensures Indexed([], map[], map[])
  {
  }

  lemma IndexedNext(items: seq<WlItem>, seen: map<Id, nat>, m: map<Id, Key>, it: WlItem)
    requires Indexed(items, seen, m)
    ensures it.id in seen ==> seen[it.id] < |items| && Indexed(items[seen[it.id] := it], seen, m[it.id := it.key])
    ensures it.id !in seen ==> Indexed(items + [it], seen[it.id := |items|], m[it.id := it.key])
  {
  }

  lemma IndexedLists(items: seq<WlItem>, seen: map<Id, nat>, m: map<Id, Key>)
    requires Indexed(items, seen, m)
    ensures Lists(items, m)
  {
    forall id | id in m
      ensures exists i :: 0 <= i < |items| && items[i].id == id
    {
      assert items[seen[id]].id == id;
    }
  }

  lemma {:induction false} RefusedStays(entries: seq<WlEntry>, n: nat)
    requires n <= |entries| && Asked(entries[..n]).None?
    ensures Asked(entries).None?
  {
    hide PrepareWl;
    if n < |entries| {
      assert entries[..|entries| - 1][..n] == entries[..n];
      RefusedStays(entries[..|entries| - 1], n);
    } else {
      assert entries[..n] == entries;
    }
  }

  /** Phase 1: every entry is checked; a repeated id replaces the earlier item in place. */
  method PrepareAll(entries: seq<WlEntry>) returns (ok: bool, prepared: seq<WlItem>)
    ensures ok <==> Asked(entries).Some?
    ensures ok ==> Lists(prepared, Asked(entries).value)
    ensures forall i :: 0 <= i < |prepared| ==> ValidCombo(ComboType(prepared[i].key))
  {
    hide PrepareWl, ComboType, Lists, Indexed;
    prepared := [];
    NothingIndexed();
    var seenIDs: map<Id, nat> := map[];
    for n := 0 to |entries|
      invariant Asked(entries[..n]).Some? && Indexed(prepared, seenIDs, Asked(entries[..n]).value)
      invariant forall i :: 0 <= i < |prepared| ==> ValidCombo(ComboType(prepared[i].key))
    {
      var e := entries[n];
      assert entries[..n + 1][..n] == entries[..n];
      var key := PrepareWl(e);
      if key.None? {
        RefusedStays(entries, n + 1);
        return false, prepared;
      }
      var item := WlItem(e.id, key.value);
      IndexedNext(prepared, seenIDs, Asked(entries[..n]).value, item);
      if e.id in seenIDs {
        prepared := prepared[seenIDs[e.id] := item];
      } else {
        seenIDs := seenIDs[e.id := |prepared|];
        prepared := prepared + [item];
      }
    }
    assert entries[..|entries|] == entries;
    IndexedLists(prepared, seenIDs, Asked(entries).value);
    ok := true;
  }

  /** Two items share a key, or one wants a key that another id owns. */
  ghost predicate Conflicting(items: seq<WlItem>, index: map<Key, Id>) {
    || (exists i, j :: 0 <= i < j < |items| && items[i].key == items[j].key)
    || (exists i :: 0 <= i < |items| && items[i].key in index && index[items[i].key] != items[i].id)
  }

  /** Two of the asked entries share a key, or one wants a key that another id owns. */
  ghost predicate Clashing(m: map<Id, Key>, index: map<Key, Id>) {
    || (exists x, y :: x in m && y in m && x != y && m[x] == m[y])
    || (exists x :: x in m && m[x] in index && index[m[x]] != x)
  }

  lemma ConflictClashes(items: seq<WlItem>, m: map<Id, Key>, index: map<Key, Id>)
    requires Lists(items, m) && Conflicting(items, index)
    ensures Clashing(m, index)
  {
    if i, j :| 0 <= i < j < |items| && items[i].key == items[j].key {
      assert items[i].id in m && items[j].id in m;
    } else {
      var i :| 0 <= i < |items| && items[i].key in index && index[items[i].key] != items[i].id;
      assert items[i].id in m;
    }
  }

  lemma ItemOf(items: seq<WlItem>, m: map<Id, Key>, x: Id) returns (i: nat)
    requires Lists(items, m) && x in m
    ensures i < |items| && items[i] == WlItem(x, m[x])
  {
    i :| i < |items| && items[i].id == x;
  }

  lemma ClashConflicts(items: seq<WlItem>, m: map<Id, Key>, index: map<Key, Id>)
    requires Lists(items, m) && Clashing(m, index)
    ensures Conflicting(items, index)
  {
    hide Lists;
    if x, y :| x in m && y in m && x != y && m[x] == m[y] {
      var i := ItemOf(items, m, x);
      var j := ItemOf(items, m, y);
      assert items[if i < j then i else j].key == items[if i < j then j else i].key;
    } else {
      var x :| x in m && m[x] in index && index[m[x]] != x;
      var i := ItemOf(items, m, x);
    }
  }

  lemma ConflictsAreClashes(items: seq<WlItem>, m: map<Id, Key>, index: map<Key, Id>)
    requires Lists(items, m)
    ensures Conflicting(items, index) <==> Clashing(m, index)
  {
    hide Lists, Conflicting, Clashing;
    if Conflicting(items, index) {
      ConflictClashes(items, m, index);
    }
    if Clashing(m, index) {
      ClashConflicts(items, m, index);
    }
  }

  /** The changes are the items whose id does not have their key already. */
  ghost predicate Covers(cs: seq<Change>, items: seq<WlItem>, entries: map<Id, Key>) {
    && (forall i :: 0 <= i < |cs| ==> WlItem(cs[i].id, cs[i].key) in items)
    && (forall x :: x in items ==>
          HeldKey(entries, x.id) == Some(x.key) || exists i :: 0 <= i < |cs| && cs[i].id == x.id && cs[i].key == x.key)
  }

  function KeysOf(items: seq<WlItem>): set<Key> {
    if items == [] then {} else KeysOf(items[..|items| - 1]) + {items[|items| - 1].key}
  }

  lemma {:induction false} KeysOfAre(items: seq<WlItem>)
    ensures forall k :: k in KeysOf(items) <==> exists i :: 0 <= i < |items| && items[i].key == k
  {
    if items != [] {
      KeysOfAre(items[..|items| - 1]);
    }
  }

  lemma ConflictGrows(items: seq<WlItem>, n: nat, index: map<Key, Id>)
    requires n < |items| && !Conflicting(items[..n], index)
    ensures Conflicting(items[..n + 1], index) <==>
            items[n].key in KeysOf(items[..n]) || (items[n].key in index && index[items[n].key] != items[n].id)
    ensures Conflicting(items[..n + 1], index) ==> Conflicting(items, index)
    ensures KeysOf(items[..n + 1]) == KeysOf(items[..n]) + {items[n].key}
  {
    KeysOfAre(items[..n]);
    var p := items[..n + 1];
    assert p[..n] == items[..n];
    if i :| 0 <= i < n && items[..n][i].key == items[n].key {
      assert p[i].key == p[n].key;
    }
  }

  /** One more change, of an item whose id and key no earlier item has. */
  lemma PlannedMore(w: WlTable, cs: seq<Change>, items: seq<WlItem>, n: nat)
    requires WlInv(w) && Planned(w, cs) && n < |items| && Covers(cs, items[..n], w.entries)
    requires forall i, j :: 0 <= i < j < |items| ==> items[i].id != items[j].id
    requires !Conflicting(items[..n + 1], w.index) && ValidCombo(ComboType(items[n].key))
    requires HeldKey(w.entries, items[n].id) != Some(items[n].key)
    ensures Planned(w, cs + [Change(items[n].id, items[n].key, HeldKey(w.entries, items[n].id))])
  {
    hide ComboType, WlCounted;
    forall i | 0 <= i < |cs|
      ensures cs[i].id != items[n].id && cs[i].key != items[n].key
    {
      var k :| 0 <= k < n && items[..n][k] == WlItem(cs[i].id, cs[i].key);
      assert items[..n + 1][k] == items[k] && items[..n + 1][n] == items[n];
    }
    assert items[n].key !in w.live by {
      assert items[..n + 1][n] == items[n];
    }
  }

  /** Phase 2: conflicts, then what is to be done for each item. */
  method Plan(h: Handlers, items: seq<WlItem>) returns (ok: bool, cs: seq<Change>)
    requires WlInv(h.Wl())
    requires forall i, j :: 0 <= i < j < |items| ==> items[i].id != items[j].id
    requires forall i :: 0 <= i < |items| ==> ValidCombo(ComboType(items[i].key))
    ensures ok <==> !Conflicting(items, h.wlKeyIndex)
    ensures ok ==> Planned(h.Wl(), cs) && Covers(cs, items, h.wlEntries)
  {
    hide ComboType, WlInv, Planned, Covers, Conflicting, KeysOf;
    ghost var w := h.Wl();
    cs := [];
    var seenKeysInBatch: set<Key> := {};
    PlanNothing(w);
    for n := 0 to |items|
      invariant seenKeysInBatch == KeysOf(items[..n])
      invariant !Conflicting(items[..n], h.wlKeyIndex)
      invariant Planned(w, cs) && Covers(cs, items[..n], h.wlEntries)
    {
      var p := items[n];
      assert items[..n + 1] == items[..n] + [p];
      ConflictGrows(items, n, h.wlKeyIndex);
      if p.key in seenKeysInBatch {
        return false, cs;
      }
      if p.key in h.wlKeyIndex && h.wlKeyIndex[p.key] != p.id {
        return false, cs;
      }
      seenKeysInBatch := seenKeysInBatch + {p.key};
      var change := Change(p.id, p.key, HeldKey(h.wlEntries, p.id));
      if p.id in h.wlEntries && h.wlEntries[p.id] == p.key {
        CoversAlready(cs, items[..n], h.wlEntries, p);
      } else {
        PlannedMore(w, cs, items, n);
        CoversMore(cs, items[..n], h.wlEntries, change, p);
        cs := cs + [change];
      }
    }
    assert items[..|items|] == items;
    ok := true;
  }

  lemma PlanNothing(w: WlTable)
    ensures Planned(w, []) && Covers([], [], w.entries) && !Conflicting([], w.index) && KeysOf([]) == {}
  {
  }

  lemma CoversAlready(cs: seq<Change>, items: seq<WlItem>, entries: map<Id, Key>, p: WlItem)
    requires Covers(cs, items, entries) && HeldKey(entries, p.id) == Some(p.key)
    ensures Covers(cs, items + [p], entries)
  {
  }

  lemma CoversMore(cs: seq<Change>, items: seq<WlItem>, entries: map<Id, Key>, c: Change, p: WlItem)
    requires Covers(cs, items, entries) && c.id == p.id && c.key == p.key
    ensures Covers(cs + [c], items + [p], entries)
  {
    var cs' := cs + [c];
    assert cs'[|cs|] == c;
    forall x | x in items && HeldKey(entries, x.id) != Some(x.key)
      ensures exists i :: 0 <= i < |cs'| && cs'[i].id == x.id && cs'[i].key == x.key
    {
      var i :| 0 <= i < |cs| && cs[i].id == x.id && cs[i].key == x.key;
      assert cs'[i] == cs[i];
    }
  }

  // ---- The phases ----

  /** The maps are o but for the active whitelist map, which holds live. */
  predicate WlHolds(h: Handlers, o: Maps, live: set<Key>)
    reads h, h.kernel
  {
    h.kernel.maps == o.WithWhitelist(h.activeWLSlot, live)
  }

  lemma OldsStep(cs: seq<Change>, i: nat)
    requires i < |cs|
    ensures Olds(cs[..i + 1]) == Olds(cs[..i]) + OldKey(cs[i])
    ensures News(cs[..i + 1]) == News(cs[..i]) + {cs[i].key}
    ensures forall c :: Delta(cs[..i + 1], c) == Delta(cs[..i], c) + DeltaOf(cs[i], c)
    ensures NewIds(cs[..i + 1]) == NewIds(cs[..i]) + (if cs[i].old_.None? then 1 else 0)
    ensures forall w :: WlAll(w, cs[..i + 1]) == WlReplace(WlAll(w, cs[..i]), cs[i].id, cs[i].key)
  {
    hide WlReplace, DeltaOf, OldKey;
    assert cs[..i + 1][..i] == cs[..i];
  }

  lemma OldsGrow(w: WlTable, cs: seq<Change>, i: nat)
    requires i <= |cs|
    ensures Olds(cs[..i]) <= Olds(cs)
    ensures News(cs[..i]) <= News(cs)
  {
    OldsAre(cs);
    OldsAre(cs[..i]);
    NewsAre(cs);
    NewsAre(cs[..i]);
  }

  /** The old key of one change is put back, if it had one and it is missing. */
  method PutOldBack(h: Handlers, c: Change, ghost o: Maps, ghost live: set<Key>)
    requires WlHolds(h, o, live)
    modifies h.kernel
    ensures WlHolds(h, o, live + OldKey(c))
  {
    if c.old_.Some? {
      h.kernel.TryInsertWl(h.activeWLSlot, c.old_.value);
      assert c.old_.value in live ==> live + OldKey(c) == live;
    } else {
      assert live + OldKey(c) == live;
    }
  }

  /** The old keys of the first n changes are put back, whichever of them are missing. */
  method PutOldsBack(h: Handlers, cs: seq<Change>, n: nat, ghost o: Maps, ghost live: set<Key>)
    requires n <= |cs| && WlHolds(h, o, live)
    modifies h.kernel
    ensures WlHolds(h, o, live + Olds(cs[..n]))
  {
    assert live + Olds(cs[..0]) == live;
    for i := 0 to n
      invariant WlHolds(h, o, live + Olds(cs[..i]))
    {
      OldsStep(cs, i);
      PutOldBack(h, cs[i], o, live + Olds(cs[..i]));
      assert live + Olds(cs[..i]) + OldKey(cs[i]) == live + Olds(cs[..i + 1]);
    }
  }

  /** No key is old or new twice. */
  ghost predicate KeysDiffer(cs: seq<Change>) {
    forall i, j :: 0 <= i < j < |cs| ==> cs[i].key != cs[j].key && (cs[i].old_.Some? ==> cs[i].old_ != cs[j].old_)
  }

  lemma OldIsLeft(cs: seq<Change>, i: nat)
    requires i < |cs| && KeysDiffer(cs)
    ensures cs[i].old_.Some? ==> cs[i].old_.value in Olds(cs) && cs[i].old_.value !in Olds(cs[..i])
    ensures cs[i].key !in News(cs[..i])
  {
    OldsAre(cs);
    OldsAre(cs[..i]);
    NewsAre(cs[..i]);
  }

  /** Phase 3: the old keys leave the map, or none of them does. */
  method DeleteOlds(h: Handlers, cs: seq<Change>, ghost o: Maps, ghost live: set<Key>) returns (ok: bool)
    requires WlHolds(h, o, live) && Olds(cs) <= live && KeysDiffer(cs)
    modifies h.kernel
    ensures WlHolds(h, o, if ok then live - Olds(cs) else live)
    ensures h.kernel.reliable ==> ok
  {
    hide KeysDiffer;
    assert live - Olds(cs[..0]) == live;
    for i := 0 to |cs|
      invariant WlHolds(h, o, live - Olds(cs[..i]))
    {
      OldsStep(cs, i);
      OldIsLeft(cs, i);
      if cs[i].old_.Some? {
        var gone := h.kernel.DeleteWl(h.activeWLSlot, cs[i].old_.value);
        if !gone {
          PutOldsBack(h, cs, i, o, live - Olds(cs[..i]));
          OldsGrow(WL_EMPTY, cs, i);
          assert live - Olds(cs[..i]) + Olds(cs[..i]) == live;
          return false;
        }
        assert live - Olds(cs[..i]) - {cs[i].old_.value} == live - Olds(cs[..i + 1]);
      } else {
        assert live - Olds(cs[..i]) == live - Olds(cs[..i + 1]);
      }
    }
    assert cs[..|cs|] == cs;
    ok := true;
  }

  /** The counts are base changed by cs. */
  ghost predicate Shifted(combo: seq<int>, base: seq<int>, cs: seq<Change>) {
    |combo| == |base| == 64 && forall c :: 0 <= c < 64 ==> combo[c] == base[c] + Delta(cs, c)
  }

  /** Phase 4. */
  method CountChanges(h: Handlers, cs: seq<Change>) returns (netNew: nat)
    requires |h.wlComboRefCount| == 64
    modifies h`wlComboRefCount
    ensures Shifted(h.wlComboRefCount, old(h.wlComboRefCount), cs) && netNew == NewIds(cs)
  {
    hide ComboType;
    netNew := 0;
    for i := 0 to |cs|
      invariant Shifted(h.wlComboRefCount, old(h.wlComboRefCount), cs[..i]) && netNew == NewIds(cs[..i])
    {
      OldsStep(cs, i);
      if cs[i].old_.Some? {
        h.wlComboRefCount := Bump(h.wlComboRefCount, ComboType(cs[i].old_.value), -1);
      }
      h.wlComboRefCount := Bump(h.wlComboRefCount, ComboType(cs[i].key), 1);
      if cs[i].old_.None? {
        netNew := netNew + 1;
      }
    }
    assert cs[..|cs|] == cs;
  }

  /** The rollback loop: counts and old keys, change by change. */
  method UndoChanges(h: Handlers, cs: seq<Change>, ghost o: Maps, ghost live: set<Key>, ghost base: seq<int>)
    requires WlHolds(h, o, live) && Shifted(h.wlComboRefCount, base, cs)
    modifies h`wlComboRefCount, h.kernel
    ensures WlHolds(h, o, live + Olds(cs)) && h.wlComboRefCount == base
  {
    hide ComboType, OldKey, Olds;
    assert live + Olds(cs[..0]) == live by { AllOfNone(WL_EMPTY); }
    for i := 0 to |cs|
      invariant WlHolds(h, o, live + Olds(cs[..i]))
      invariant |h.wlComboRefCount| == |base| == 64
      invariant forall c :: 0 <= c < 64 ==> h.wlComboRefCount[c] == base[c] + Delta(cs, c) - Delta(cs[..i], c)
    {
      OldsStep(cs, i);
      h.wlComboRefCount := Bump(h.wlComboRefCount, ComboType(cs[i].key), -1);
      if cs[i].old_.Some? {
        h.wlComboRefCount := Bump(h.wlComboRefCount, ComboType(cs[i].old_.value), 1);
      }
      PutOldBack(h, cs[i], o, live + Olds(cs[..i]));
      assert live + Olds(cs[..i]) + OldKey(cs[i]) == live + Olds(cs[..i + 1]);
    }
    assert cs[..|cs|] == cs;
    assert h.wlComboRefCount == base;
  }

  method InsertNew(h: Handlers, key: Key, ghost o: Maps, ghost live: set<Key>) returns (ok: bool)
    requires WlHolds(h, o, live)
    modifies h.kernel
    ensures WlHolds(h, o, if ok then live + {key} else live)
    ensures h.kernel.reliable && key !in live ==> ok
  {
    ok := h.kernel.InsertWl(h.activeWLSlot, key);
  }

  /** Phase 6: the new keys enter the map, or none of them stays. */
  method InsertNews(h: Handlers, cs: seq<Change>, ghost o: Maps, ghost live: set<Key>) returns (ok: bool)
    requires WlHolds(h, o, live) && News(cs) !! live && KeysDiffer(cs)
    modifies h.kernel
    ensures WlHolds(h, o, if ok then live + News(cs) else live)
    ensures h.kernel.reliable ==> ok
  {
    hide KeysDiffer, Olds, News, WlReplace, Delta, DeltaOf, OldKey;
    AllOfNone(WL_EMPTY);
    assert cs[..0] == [] && live + News([]) == live;
    for i := 0 to |cs|
      invariant WlHolds(h, o, live + News(cs[..i]))
    {
      OldsStep(cs, i);
      OldIsLeft(cs, i);
      OldsGrow(WL_EMPTY, cs, i + 1);
      var entered := InsertNew(h, cs[i].key, o, live + News(cs[..i]));
      if !entered {
        TakeNewsOut(h, cs, i, o, live);
        return false;
      }
      assert live + News(cs[..i]) + {cs[i].key} == live + News(cs[..i + 1]);
    }
    assert cs[..|cs|] == cs;
    ok := true;
  }

  lemma OneOut(cs: seq<Change>, n: nat, i: nat, live: set<Key>)
    requires i < n <= |cs| && News(cs) !! live
    ensures var all := News(cs[..n]);
            live + (all - News(cs[..i])) - {cs[i].key} == live + (all - News(cs[..i + 1]))
  {
    hide News;
    OldsStep(cs, i);
    OldsGrow(WL_EMPTY, cs, i + 1);
    assert cs[i].key in News(cs[..i + 1]);
  }

  method TakeNewsOut(h: Handlers, cs: seq<Change>, n: nat, ghost o: Maps, ghost live: set<Key>)
    requires n <= |cs| && News(cs) !! live && WlHolds(h, o, live + News(cs[..n]))
    modifies h.kernel
    ensures WlHolds(h, o, live)
  {
    hide ComboType;
    ghost var all := News(cs[..n]);
    assert live + (all - News(cs[..0])) == live + all;
    for i := 0 to n
      invariant WlHolds(h, o, live + (all - News(cs[..i])))
    {
      OneOut(cs, n, i, live);
      h.kernel.TryDeleteWl(h.activeWLSlot, cs[i].key);
    }
    assert live + (all - News(cs[..n])) == live;
  }

  /** One change of a plan is one replacement in the table of those before it. */
  lemma PlanStep(w: WlTable, cs: seq<Change>, i: nat)
    requires WlInv(w) && Planned(w, cs) && i < |cs|
    ensures var x, c := WlAll(w, cs[..i]), cs[i];
            c.old_ == HeldKey(x.entries, c.id) && WlAll(w, cs[..i + 1]) == WlReplace(x, c.id, c.key)
  {
    hide ComboType, WlInv, WlAll, Planned, WlReplace, HeldKey;
    OldsStep(cs, i);
    PlannedPrefix(w, cs, i + 1);
    PlannedPrefix(w, cs, i);
    assert cs[..i + 1][..i] == cs[..i];
    WlAllKeepsInv(w, cs[..i]);
    LastChange(w, cs[..i + 1]);
  }

  lemma ReplacedIndex(x: WlTable, id: Id, k: Key)
    ensures WlReplace(x, id, k).index == (if id in x.entries then x.index - {x.entries[id]} else x.index)[k := id]
  {
    hide ComboType, Bump;
  }

  /** Phase 7. */
  method CommitChanges(h: Handlers, cs: seq<Change>, ghost w: WlTable)
    requires WlInv(w) && Planned(w, cs) && h.wlEntries == w.entries && h.wlKeyIndex == w.index
    modifies h`wlEntries, h`wlKeyIndex
    ensures h.wlEntries == WlAll(w, cs).entries && h.wlKeyIndex == WlAll(w, cs).index
  {
    hide ComboType, WlInv, WlAll, WlReplace, Planned;
    AllOfNone(w);
    for i := 0 to |cs|
      invariant h.wlEntries == WlAll(w, cs[..i]).entries && h.wlKeyIndex == WlAll(w, cs[..i]).index
    {
      PlanStep(w, cs, i);
      ReplacedEntries(WlAll(w, cs[..i]), cs[i].id, cs[i].key);
      ReplacedIndex(WlAll(w, cs[..i]), cs[i].id, cs[i].key);
      if cs[i].old_.Some? {
        h.wlKeyIndex := h.wlKeyIndex - {cs[i].old_.value};
      }
      h.wlEntries := h.wlEntries[cs[i].id := cs[i].key];
      h.wlKeyIndex := h.wlKeyIndex[cs[i].key := cs[i].id];
    }
    assert cs[..|cs|] == cs;
  }

  lemma AllOfNone(w: WlTable)
    ensures WlAll(w, []) == w && Olds([]) == {} && News([]) == {}
  {
  }

  // ---- The whole batch ----

  lemma CombosOfAll(w: WlTable, cs: seq<Change>, combo: seq<int>)
    requires WlInv(w) && Planned(w, cs) && Shifted(combo, w.combo, cs)
    ensures combo == WlAll(w, cs).combo
  {
    hide ComboType, WlInverse, WlUsable, Delta, WlAll, Planned, WlInv;
    WlAllCombo(w, cs, 0);
    forall c | 0 <= c < 64
      ensures combo[c] == WlAll(w, cs).combo[c]
    {
      WlAllCombo(w, cs, c);
    }
  }

  lemma PlanFacts(w: WlTable, cs: seq<Change>)
    requires WlInv(w) && Planned(w, cs)
    ensures Olds(cs) <= w.live && News(cs) !! w.live && |w.combo| == 64 && KeysDiffer(cs)
  {
    hide ComboType;
    OldsAre(cs);
    NewsAre(cs);
    forall i | 0 <= i < |cs| ensures OldKey(cs[i]) <= w.live {
      OldIsLive(w, cs, i);
    }
  }

  /** Each changed id ends up with its new key. */
  lemma {:induction false} WlAllAt(w: WlTable, cs: seq<Change>, i: nat)
    requires i < |cs| && forall j :: i < j < |cs| ==> cs[j].id != cs[i].id
    ensures HeldKey(WlAll(w, cs).entries, cs[i].id) == Some(cs[i].key)
  {
    hide ComboType, Bump;
    if i < |cs| - 1 {
      WlAllAt(w, cs[..|cs| - 1], i);
    }
  }

  /** The new entries: the old ones overridden by what was asked for. */
  lemma OverriddenEntries(w: WlTable, cs: seq<Change>, items: seq<WlItem>, m: map<Id, Key>)
    requires Planned(w, cs) && Covers(cs, items, w.entries) && Lists(items, m)
    ensures WlAll(w, cs).entries == w.entries + m
  {
    hide ComboType, WlAll;
    forall id
      ensures HeldKey(WlAll(w, cs).entries, id) == HeldKey(w.entries + m, id)
    {
      if j: nat :| j < |cs| && cs[j].id == id {
        WlAllAt(w, cs, j);
        assert WlItem(cs[j].id, cs[j].key) in items;
      } else {
        WlAllElsewhere(w, cs, id);
        if id in m {
          var i :| 0 <= i < |items| && items[i].id == id;
          assert items[i] in items;
        }
      }
    }
    SameHeld(WlAll(w, cs).entries, w.entries + m);
  }

  /** The ids for which the batch asks something new. */
  ghost function ChangedIds(entries: map<Id, Key>, m: map<Id, Key>): set<Id> {
    set id | id in m && HeldKey(entries, id) != Some(m[id])
  }

  ghost function IdsIn(cs: seq<Change>): set<Id> {
    if cs == [] then {} else IdsIn(cs[..|cs| - 1]) + {cs[|cs| - 1].id}
  }

  lemma {:induction false} IdsInAre(cs: seq<Change>)
    ensures forall id :: id in IdsIn(cs) <==> exists i :: 0 <= i < |cs| && cs[i].id == id
  {
    if cs != [] {
      IdsInAre(cs[..|cs| - 1]);
    }
  }

  lemma {:induction false} IdsInSize(cs: seq<Change>)
    requires forall i, j :: 0 <= i < j < |cs| ==> cs[i].id != cs[j].id
    ensures |IdsIn(cs)| == |cs|
  {
    if cs != [] {
      var init := cs[..|cs| - 1];
      assert forall i :: 0 <= i < |init| ==> init[i] == cs[i];
      IdsInSize(init);
      IdsInAre(init);
    }
  }

  /** The changes are one for each id that gets something new. */
  lemma ChangesCounted(w: WlTable, cs: seq<Change>, items: seq<WlItem>, m: map<Id, Key>)
    requires WlInv(w) && Planned(w, cs) && Covers(cs, items, w.entries) && Lists(items, m)
    ensures |cs| == |ChangedIds(w.entries, m)|
  {
    hide ComboType, WlCounted, WlUsable;
    IdsInAre(cs);
    IdsInSize(cs);
    forall id ensures id in IdsIn(cs) <==> id in ChangedIds(w.entries, m) {
      if i :| 0 <= i < |cs| && cs[i].id == id {
        assert WlItem(id, cs[i].key) in items;
        assert HeldKey(w.entries, id) != Some(cs[i].key);
      }
      if id in m {
        var i :| 0 <= i < |items| && items[i].id == id;
        assert items[i] in items;
      }
    }
    assert IdsIn(cs) == ChangedIds(w.entries, m);
  }

  lemma SameHeld(x: map<Id, Key>, y: map<Id, Key>)
    requires forall id :: HeldKey(x, id) == HeldKey(y, id)
    ensures x == y
  {
    forall id
      ensures id in x <==> id in y
      ensures id in x ==> x[id] == y[id]
    {
      assert HeldKey(x, id) == HeldKey(y, id);
    }
  }

  /** The batch halfway: the counts have moved, the old keys have left the map. */
  function HalfDone(w: WlTable, cs: seq<Change>, combo: seq<int>): WlTable {
    w.(combo := combo, live := w.live - Olds(cs))
  }

  /** The rollback after a failed insertion, behind words that were published for the new entries. */
  method TakeBackAll(h: Handlers, cs: seq<Change>, netNew: int, ghost a: Agent, ghost c: seq<nat>)
    returns (republished: bool)
    requires WordsKept(h.Config(), c, 0, netNew, 0)
    requires h.Sound() && AgentInv(a) && Planned(a.wl, cs) && netNew == NewIds(cs)
    requires Shifted(h.wlComboRefCount, a.wl.combo, cs)
    requires h.State() == a.(wl := HalfDone(a.wl, cs, h.wlComboRefCount))
    requires Gated(h.Config(), h.rules, h.cidrRules, WlAll(a.wl, cs).entries)
    requires GatesExact(h.Config(), h.rules, h.cidrRules, WlAll(a.wl, cs).entries)
    modifies h, h.kernel
    ensures h.Sound() && h.State() == a && Gated(h.Config(), h.rules, h.cidrRules, h.wlEntries)
    ensures republished ==> SameExcess(c, a, h.Config(), h.State())
    ensures republished ==> h.WlGated() && GatesExact(h.Config(), h.rules, h.cidrRules, h.wlEntries)
    ensures !republished ==> (h.WlGated() <==> CombosStay(h.wlEntries, WlAll(a.wl, cs).entries))
  {
    hide ComboType, TableInv, WlInv, AllKeyed, RefsConserved, Gated, GatesExact, WlBitsCover, WlBitsExact, WlCounted,
         WlUsable, PublishLog, SameTables, h.Sound, WlAll, Planned, Olds, News, Shifted, CombosStay, NewIds, KeysDiffer,
         SameExcess, WordsKept;
    ghost var c' := h.Config();
    AgentParts(a);
    PlanFacts(a.wl, cs);
    WlAllKeepsInv(a.wl, cs);
    ghost var wl := WlAll(a.wl, cs).entries;
    GatedCounts(h.Config(), h.rules, h.cidrRules, wl);
    assert a.wl.live - Olds(cs) + Olds(cs) == a.wl.live;
    UndoChanges(h, cs, h.kernel.maps, a.wl.live - Olds(cs), a.wl.combo);
    OnlyWlChanged(h);
    GatedByCounts(h.Config(), h.rules, h.cidrRules, wl, h.wlEntries);
    republished := PublishConfigUpdate(h, 0, -netNew, 0, h.wlEntries);
    if !republished {
      ExactWlBits(h.Config(), h.rules, h.cidrRules, wl);
      CoverAfter(h.Config()[WL_BITMAP], h.wlEntries, wl);
    } else {
      ShiftedBack(c, c', h.Config(), netNew);
      ShiftedWithRules(c, a, h.Config(), h.State(), 0, 0, 0);
    }
  }

  /** Phases 6 and 7, behind words that were published for the new entries. */
  method EnterAll(h: Handlers, cs: seq<Change>, netNew: int, ghost a: Agent, ghost c: seq<nat>)
    returns (r: WlOutcome, ghost republished: bool)
    requires WordsKept(h.Config(), c, 0, netNew, 0)
    requires h.Sound() && AgentInv(a) && Planned(a.wl, cs) && netNew == NewIds(cs)
    requires Shifted(h.wlComboRefCount, a.wl.combo, cs)
    requires h.State() == a.(wl := HalfDone(a.wl, cs, h.wlComboRefCount))
    requires Gated(h.Config(), h.rules, h.cidrRules, WlAll(a.wl, cs).entries)
    requires GatesExact(h.Config(), h.rules, h.cidrRules, WlAll(a.wl, cs).entries)
    requires WlBitsCover(h.Config()[WL_BITMAP], WlAll(a.wl, cs).entries)
    modifies h, h.kernel
    ensures h.Sound() && Gated(h.Config(), h.rules, h.cidrRules, h.wlEntries)
    ensures r in {Added, InsertFailed} && (h.kernel.reliable ==> r == Added)
    ensures h.State() == if r == Added then a.(wl := WlAll(a.wl, cs)) else a
    ensures r == Added || republished ==> h.WlGated() && GatesExact(h.Config(), h.rules, h.cidrRules, h.wlEntries)
    ensures r == Added || republished ==> SameExcess(c, a, h.Config(), h.State())
    ensures r == InsertFailed && !republished ==> (h.WlGated() <==> CombosStay(h.wlEntries, WlAll(a.wl, cs).entries))
  {
    hide ComboType, TableInv, WlInv, AllKeyed, RefsConserved, Gated, GatesExact, WlBitsCover, h.Sound, WlAll, Planned,
         Olds, News, Shifted, CombosStay, AgentInv, NewIds, KeysDiffer, SameExcess, WordsKept;
    republished := false;
    ghost var w, left := a.wl, a.wl.live - Olds(cs);
    AgentParts(a);
    PlanFacts(w, cs);
    WlAllKeepsInv(w, cs);
    CombosOfAll(w, cs, h.wlComboRefCount);
    var ok := InsertNews(h, cs, h.kernel.maps, left);
    if !ok {
      OnlyWlChanged(h);
      republished := TakeBackAll(h, cs, netNew, a, c);
      return InsertFailed, republished;
    }
    CommitChanges(h, cs, w);
    OnlyWlChanged(h);
    assert h.Wl() == WlAll(w, cs);
    ShiftedWithRules(c, a, h.Config(), h.State(), 0, netNew, 0);
    r := Added;
  }

  /** Phases 5 to 7, after the old keys have left the map and the counts have been changed. */
  method PublishAndInsert(h: Handlers, cs: seq<Change>, netNew: int, ghost a: Agent)
    returns (r: WlOutcome, ghost republished: bool)
    requires h.Sound() && AgentInv(a) && Planned(a.wl, cs) && netNew == NewIds(cs)
    requires h.State() == a.(wl := HalfDone(a.wl, cs, h.wlComboRefCount))
    requires Shifted(h.wlComboRefCount, a.wl.combo, cs) && Gated(h.Config(), h.rules, h.cidrRules, h.wlEntries)
    modifies h, h.kernel
    ensures h.Sound() && Gated(h.Config(), h.rules, h.cidrRules, h.wlEntries)
    ensures r in {Added, PublishFailed, InsertFailed} && (h.kernel.reliable ==> r == Added)
    ensures h.State() == if r == Added then a.(wl := WlAll(a.wl, cs)) else a
    ensures r == PublishFailed ==> h.Config() == old(h.Config())
    ensures r == Added || (r == InsertFailed && republished) ==>
              h.WlGated() && GatesExact(h.Config(), h.rules, h.cidrRules, h.wlEntries)
    ensures r == Added || (r == InsertFailed && republished) ==> SameExcess(old(h.Config()), a, h.Config(), h.State())
    ensures r == InsertFailed && !republished ==> (h.WlGated() <==> CombosStay(h.wlEntries, WlAll(a.wl, cs).entries))
  {
    hide ComboType, TableInv, WlInv, AllKeyed, RefsConserved, Gated, GatesExact, WlBitsCover, WlBitsExact, WlCounted,
         WlUsable, PublishLog, SameTables, h.Sound, WlAll, Planned, Olds, News, Shifted, CombosStay, AgentInv, NewIds,
         KeysDiffer, SameExcess, WordsKept;
    republished := false;
    ghost var w, left, c := a.wl, a.wl.live - Olds(cs), h.Config();
    AgentParts(a);
    GatedCounts(h.Config(), h.rules, h.cidrRules, h.wlEntries);
    PlanFacts(w, cs);
    WlAllKeepsInv(w, cs);
    CombosOfAll(w, cs, h.wlComboRefCount);
    ghost var wl := WlAll(w, cs).entries;
    WlParts(WlAll(w, cs));
    var ok := PublishConfigUpdate(h, 0, netNew, 0, wl);
    label Published:
    ghost var o := h.kernel.maps;
    assert left + Olds(cs) == w.live;
    if !ok {
      UndoChanges(h, cs, o, left, w.combo);
      OnlyWlChanged@Published(h);
      return PublishFailed, false;
    }
    r, republished := EnterAll(h, cs, netNew, a, c);
  }

  /** Phases 1 and 2. Added means that the changes cs are to be made, Unchanged that the batch
      is empty. */
  method Decide(h: Handlers, entries: seq<WlEntry>) returns (r: WlOutcome, cs: seq<Change>)
    requires WlInv(h.Wl())
    ensures r in {Rejected, KeyTaken, Unchanged, Added}
    ensures r == Rejected <==> Asked(entries).None?
    ensures r == KeyTaken <==> Asked(entries).Some? && Clashing(Asked(entries).value, h.wlKeyIndex)
    ensures r == Unchanged <==> Asked(entries) == Some(map[])
    ensures r == Added ==> Planned(h.Wl(), cs) && WlAll(h.Wl(), cs).entries == h.wlEntries + Asked(entries).value
    ensures r == Added ==> |cs| == |ChangedIds(h.wlEntries, Asked(entries).value)|
  {
    hide ComboType, WlInv, WlAll, Planned, Asked, Covers, Conflicting, Clashing, Lists, ChangedIds;
    cs := [];
    NoClash(h.wlKeyIndex);
    var ok, prepared := PrepareAll(entries);
    if !ok {
      return Rejected, cs;
    }
    ListedOnce(prepared, Asked(entries).value);
    ConflictsAreClashes(prepared, Asked(entries).value, h.wlKeyIndex);
    if prepared == [] {
      return Unchanged, cs;
    }
    ok, cs := Plan(h, prepared);
    if !ok {
      return KeyTaken, cs;
    }
    OverriddenEntries(h.Wl(), cs, prepared, Asked(entries).value);
    ChangesCounted(h.Wl(), cs, prepared, Asked(entries).value);
    r := Added;
  }

  /** Phases 3 to 7 for a plan: the old keys, the counts, the publish, the new keys. */
  method CarryOut(h: Handlers, cs: seq<Change>, ghost a: Agent) returns (r: WlOutcome, ghost republished: bool)
    requires h.Sound() && AgentInv(a) && h.State() == a && Planned(a.wl, cs)
    requires Gated(h.Config(), h.rules, h.cidrRules, h.wlEntries)
    modifies h, h.kernel
    ensures h.Sound() && Gated(h.Config(), h.rules, h.cidrRules, h.wlEntries)
    ensures r in {Added, OldDeleteFailed, PublishFailed, InsertFailed} && (h.kernel.reliable ==> r == Added)
    ensures h.State() == if r == Added then a.(wl := WlAll(a.wl, cs)) else a
    ensures r in {OldDeleteFailed, PublishFailed} ==> h.Config() == old(h.Config())
    ensures r == Added || (r == InsertFailed && republished) ==>
              h.WlGated() && GatesExact(h.Config(), h.rules, h.cidrRules, h.wlEntries)
    ensures r == Added || (r == InsertFailed && republished) ==> SameExcess(old(h.Config()), a, h.Config(), h.State())
    ensures r == InsertFailed && !republished ==> (h.WlGated() <==> CombosStay(h.wlEntries, WlAll(a.wl, cs).entries))
  {
    hide ComboType, TableInv, WlInv, AllKeyed, RefsConserved, Gated, GatesExact, WlBitsCover, h.Sound, WlAll, Planned,
         Olds, News, Shifted, CombosStay, NewIds, KeysDiffer;
    AgentParts(a);
    PlanFacts(a.wl, cs);
    label Start:
    var ok := DeleteOlds(h, cs, h.kernel.maps, a.wl.live);
    OnlyWlChanged@Start(h);
    if !ok {
      return OldDeleteFailed, false;
    }
    label Counting:
    var netNew := CountChanges(h, cs);
    OnlyWlChanged@Counting(h);
    r, republished := PublishAndInsert(h, cs, netNew, a);
  }

  /** AddWhitelistBatch: all or nothing. Whichever step fails, map, counts, entries and index are
      what they were; on success the entries are the old ones overridden by the batch, the last
      entry of each id winning, and the rest of the state follows from them. */
  method AddWhitelistBatch(h: Handlers, entries: seq<WlEntry>)
    returns (r: WlOutcome, added: nat, ghost republished: bool)
    requires h.Valid()
    modifies h, h.kernel
    ensures h.Valid()
    ensures r == Rejected <==> Asked(entries).None?
    ensures r == KeyTaken <==> Asked(entries).Some? && Clashing(Asked(entries).value, old(h.wlKeyIndex))
    ensures r == Added ==>
              && Asked(entries).Some? && h.wlEntries == old(h.wlEntries) + Asked(entries).value
              && h.State() == old(h.State()).(wl := h.Wl())
              && added == |ChangedIds(old(h.wlEntries), Asked(entries).value)|
    ensures r != Added ==> h.State() == old(h.State()) && added == 0
    ensures r !in {Added, InsertFailed} ==> h.Config() == old(h.Config())
    ensures (r == Added && Asked(entries).value != map[]) || (r == InsertFailed && republished) ==>
              h.WlGated() && GatesExact(h.Config(), h.rules, h.cidrRules, h.wlEntries)
    ensures (r == Added && Asked(entries).value != map[]) || (r == InsertFailed && republished) ==>
              SameExcess(old(h.Config()), old(h.State()), h.Config(), h.State())
    ensures r == Added && Asked(entries).value == map[] ==> h.State() == old(h.State()) && h.Config() == old(h.Config())
    ensures r == InsertFailed && !republished ==>
              Asked(entries).Some? && (h.WlGated() <==> CombosStay(h.wlEntries, h.wlEntries + Asked(entries).value))
    ensures h.kernel.reliable ==> r in {Added, Rejected, KeyTaken}
  {
    hide ComboType, TableInv, WlInv, AllKeyed, RefsConserved, Gated, GatesExact, WlBitsCover, WlCounted, WlUsable,
         h.Sound, WlAll, Planned, Olds, News, Asked, Shifted, Clashing, CombosStay, NewIds, KeysDiffer;
    republished, added := false, 0;
    ghost var a, w := h.State(), h.Wl();
    AgentParts(a);
    var cs;
    r, cs := Decide(h, entries);
    if r == Unchanged {
      assert w.entries + map[] == w.entries && ChangedIds(w.entries, map[]) == {};
      return Added, 0, false;
    }
    if r != Added {
      return;
    }
    r, republished := CarryOut(h, cs, a);
    WlAllKeepsInv(w, cs);
    added := if r == Added then |cs| else 0;
  }

  lemma ListedOnce(items: seq<WlItem>, m: map<Id, Key>)
    requires Lists(items, m)
    ensures forall i, j :: 0 <= i < j < |items| ==> items[i].id != items[j].id
    ensures items == [] <==> m == map[]
  {
    if items == [] {
      assert forall id :: id !in m;
    } else {
      assert items[0].id in m;
    }
  }

  lemma NoClash(index: map<Key, Id>)
    ensures !Clashing(map[], index)
  {
  }

  // ---- The batch of deletions ----

  function IdsOf(items: seq<WlItem>): set<Id> {
    if items == [] then {} else {items[0].id} + IdsOf(items[1..])
  }

  lemma {:induction false} IdsOfSnoc(items: seq<WlItem>, it: WlItem)
    ensures IdsOf(items + [it]) == IdsOf(items) + {it.id}
  {
    if items != [] {
      assert (items + [it])[1..] == items[1..] + [it];
      IdsOfSnoc(items[1..], it);
    } else {
      assert ([it])[1..] == [];
    }
  }

  /** The items are different entries of the table. */
  ghost predicate EntriesOf(w: WlTable, items: seq<WlItem>)
    decreases |items|
  {
    if items == [] then true
    else
      && items[0].id in w.entries && w.entries[items[0].id] == items[0].key
      && items[0].id !in IdsOf(items[1..]) && EntriesOf(w, items[1..])
  }

  lemma {:induction false} EntriesOfSnoc(w: WlTable, items: seq<WlItem>, it: WlItem)
    requires EntriesOf(w, items) && it.id in w.entries && w.entries[it.id] == it.key && it.id !in IdsOf(items)
    ensures EntriesOf(w, items + [it])
  {
    if items != [] {
      assert (items + [it])[1..] == items[1..] + [it];
      EntriesOfSnoc(w, items[1..], it);
      IdsOfSnoc(items[1..], it);
    } else {
      assert ([it])[1..] == [];
    }
  }

  lemma {:induction false} EntriesOfSize(w: WlTable, items: seq<WlItem>)
    requires EntriesOf(w, items)
    ensures IdsOf(items) <= w.entries.Keys && |IdsOf(items)| == |items|
  {
    if items != [] {
      EntriesOfSize(w, items[1..]);
    }
  }

  /** Putting one removed entry back. */
  lemma PutBackKeepsInv(w: WlTable, x: WlTable, items: seq<WlItem>)
    requires WlInv(w) && WlInv(x) && items != [] && EntriesOf(w, items) && x.entries == w.entries - IdsOf(items)
    ensures items[0].id !in x.entries && items[0].key !in x.live
    ensures WlInv(WlPut(x, items[0].id, items[0].key))
    ensures WlPut(x, items[0].id, items[0].key).entries == w.entries - IdsOf(items[1..])
  {
    hide ComboType, WlCounted;
    var it := items[0];
    forall k | k in x.live
      ensures k != it.key
    {
      assert x.entries[x.index[k]] == w.entries[x.index[k]] == k;
    }
    assert ValidCombo(ComboType(it.key));
    WlPutKeepsInv(x, it.id, it.key);
  }

  /** The rollback loop: all the entries come back, and with them the whole table. */
  method PutAllBack(h: Handlers, items: seq<WlItem>, ghost w: WlTable)
    requires h.Sound() && WlInv(w) && WlInv(h.Wl()) && EntriesOf(w, items) && h.wlEntries == w.entries - IdsOf(items)
    modifies h`wlEntries, h`wlKeyIndex, h`wlComboRefCount, h.kernel
    ensures h.Sound() && h.Config() == old(h.Config()) && h.State() == old(h.State()).(wl := w)
  {
    hide ComboType, WlInv, WlPut, h.Sound;
    assert items[0..] == items;
    for i := 0 to |items|
      invariant h.Sound() && h.Config() == old(h.Config()) && h.State() == old(h.State()).(wl := h.Wl())
      invariant WlInv(h.Wl()) && EntriesOf(w, items[i..]) && h.wlEntries == w.entries - IdsOf(items[i..])
    {
      assert items[i..][1..] == items[i + 1..];
      PutBackKeepsInv(w, h.Wl(), items[i..]);
      label Start:
      PutBackWl(h, items[i].id, items[i].key);
      OnlyWlChanged@Start(h);
    }
    WlDetermined(w, h.Wl());
  }

  /** One entry is removed and listed, or nothing happens. */
  method RemoveEntry(h: Handlers, id: Id, items: seq<WlItem>, ghost w: WlTable) returns (items': seq<WlItem>)
    requires h.Sound() && WlInv(h.Wl()) && id in h.wlEntries
    requires EntriesOf(w, items) && h.wlEntries == w.entries - IdsOf(items)
    modifies h`wlEntries, h`wlKeyIndex, h`wlComboRefCount, h.kernel
    ensures h.Sound() && h.Config() == old(h.Config()) && h.State() == old(h.State()).(wl := h.Wl()) && WlInv(h.Wl())
    ensures EntriesOf(w, items') && h.wlEntries == w.entries - IdsOf(items')
    ensures |h.wlEntries| + |items'| == |old(h.wlEntries)| + |items|
    ensures h.kernel.reliable ==> items' != items
    ensures if items' == items then h.Wl() == old(h.Wl())
            else |items'| == |items| + 1 && IdsOf(items') == IdsOf(items) + {id}
  {
    hide ComboType, WlInv, h.Sound, WlDrop, EntriesOf, IdsOf;
    items' := items;
    var item := WlItem(id, h.wlEntries[id]);
    WlPutUndoesDrop(h.Wl(), id);
    DropEntries(h.Wl(), id);
    EntriesOfSnoc(w, items, item);
    IdsOfSnoc(items, item);
    var done := RemoveWl(h, id);
    OnlyWlChanged(h);
    if done {
      items' := items + [item];
    }
  }

  /** Every asked id that has an entry is gone. */
  predicate AllListed(ids: seq<Id>, entries: map<Id, Key>, gone: set<Id>) {
    forall id :: id in ids && id in entries ==> id in gone
  }

  lemma ListedMore(ids: seq<Id>, entries: map<Id, Key>, gone: set<Id>, id: Id, gone': set<Id>)
    requires AllListed(ids, entries, gone) && gone <= gone' && (id in entries ==> id in gone')
    ensures AllListed(ids + [id], entries, gone')
  {
  }

  /** All that is gone was asked for. */
  predicate AllFrom(gone: set<Id>, ids: seq<Id>) {
    forall id :: id in gone ==> id in ids
  }

  lemma FromMore(ids: seq<Id>, gone: set<Id>, id: Id, gone': set<Id>)
    requires AllFrom(gone, ids) && gone' <= gone + {id}
    ensures AllFrom(gone', ids + [id])
  {
  }

  /** The loop over the ids: unknown ids and failing deletes are counted and skipped. */
  method RemoveListed(h: Handlers, ids: seq<Id>) returns (deletedItems: seq<WlItem>, failed: nat)
    requires h.Sound() && WlInv(h.Wl())
    modifies h`wlEntries, h`wlKeyIndex, h`wlComboRefCount, h.kernel
    ensures h.Sound() && h.Config() == old(h.Config()) && h.State() == old(h.State()).(wl := h.Wl()) && WlInv(h.Wl())
    ensures EntriesOf(old(h.Wl()), deletedItems) && h.wlEntries == old(h.wlEntries) - IdsOf(deletedItems)
    ensures |deletedItems| + failed == |ids| && |h.wlEntries| + |deletedItems| == |old(h.wlEntries)|
    ensures AllFrom(IdsOf(deletedItems), ids)
    ensures deletedItems == [] ==> h.Wl() == old(h.Wl())
    ensures h.kernel.reliable ==> AllListed(ids, old(h.wlEntries), IdsOf(deletedItems))
  {
    hide ComboType, WlInv, h.Sound, EntriesOf, IdsOf, AllListed, AllFrom;
    ghost var w := h.Wl();
    deletedItems, failed := [], 0;
    NoEntries(w);
    for i := 0 to |ids|
      invariant h.Sound() && h.Config() == old(h.Config()) && h.State() == old(h.State()).(wl := h.Wl())
      invariant WlInv(h.Wl())
      invariant EntriesOf(w, deletedItems) && h.wlEntries == w.entries - IdsOf(deletedItems)
      invariant |deletedItems| + failed == i && |h.wlEntries| + |deletedItems| == |w.entries|
      invariant AllFrom(IdsOf(deletedItems), ids[..i])
      invariant deletedItems == [] ==> h.Wl() == w
      invariant h.kernel.reliable ==> AllListed(ids[..i], w.entries, IdsOf(deletedItems))
    {
      assert ids[..i + 1] == ids[..i] + [ids[i]];
      ghost var gone := IdsOf(deletedItems);
      if ids[i] !in h.wlEntries {
        failed := failed + 1;
      } else {
        var items := RemoveEntry(h, ids[i], deletedItems, w);
        if |items| == |deletedItems| {
          failed := failed + 1;
        }
        deletedItems := items;
      }
      FromMore(ids[..i], gone, ids[i], IdsOf(deletedItems));
      if h.kernel.reliable {
        ListedMore(ids[..i], w.entries, gone, ids[i], IdsOf(deletedItems));
      }
    }
    assert ids[..|ids|] == ids;
  }

  /** DeleteWhitelistBatch: one publish for all that was deleted; if it fails, everything comes back. */
  method DeleteWhitelistBatch(h: Handlers, ids: seq<Id>)
    returns (ok: bool, deleted: nat, failed: nat, ghost gone: set<Id>)
    requires h.Valid()
    modifies h, h.kernel
    ensures h.Valid()
    ensures ok ==> h.wlEntries == old(h.wlEntries) - gone && h.State() == old(h.State()).(wl := h.Wl())
    ensures gone <= old(h.wlEntries).Keys && forall id :: id in gone ==> id in ids
    ensures ok ==> deleted == |gone| && deleted + failed == |ids|
    ensures ok && gone != {} ==> h.WlGated() && GatesExact(h.Config(), h.rules, h.cidrRules, h.wlEntries)
    ensures ok && gone != {} ==> SameExcess(old(h.Config()), old(h.State()), h.Config(), h.State())
    ensures !ok || gone == {} ==> h.State() == old(h.State()) && h.Config() == old(h.Config())
    ensures h.kernel.reliable ==> ok && AllListed(ids, old(h.wlEntries), gone)
  {
    hide ComboType, TableInv, WlInv, AllKeyed, RefsConserved, Gated, GatesExact, WlBitsCover, WlBitsExact, WlCounted,
         WlUsable, PublishLog, SameTables, h.Sound, EntriesOf, IdsOf;
    ghost var w := h.Wl();
    AgentParts(h.State());
    GatedCounts(h.Config(), h.rules, h.cidrRules, h.wlEntries);
    ghost var c, exact, cidr, entries := h.Config(), h.rules, h.cidrRules, h.wlEntries;
    var deletedItems;
    deletedItems, failed := RemoveListed(h, ids);
    GatedByCounts(c, exact, cidr, entries, h.wlEntries);
    deleted, gone := |deletedItems|, IdsOf(deletedItems);
    EntriesOfSize(w, deletedItems);
    ok := true;
    if deleted > 0 {
      AgentParts(h.State());
      ok := PublishConfigUpdate(h, 0, -(deleted as int), 0, h.wlEntries);
      if !ok {
        PutAllBack(h, deletedItems, w);
      }
    }
  }

  lemma DropEntries(w: WlTable, id: Id)
    requires id in w.entries
    ensures WlDrop(w, id).entries == w.entries - {id}
  {
  }

  lemma NoEntries(w: WlTable)
    ensures EntriesOf(w, []) && IdsOf([]) == {} && w.entries - {} == w.entries
    ensures AllFrom({}, []) && AllListed([], w.entries, {})
  {
  }
}
