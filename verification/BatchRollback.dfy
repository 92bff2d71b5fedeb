/** The forward rollback of a batch of insertions: what it restores, and when. */
module BatchRollback {
  import opened Rules
  import opened Combo
  import opened Requests
  import opened RuleTable

  /** An insertion that succeeded: the rule, and what its id held before. */
  datatype Item = Item(id: Id, stored: Stored, old_: Option<Stored>)

  function Held(rules: map<Id, Stored>, id: Id): Option<Stored> {
    if id in rules then Some(rules[id]) else None
  }

  /** The rollback of one insertion, write by write. The old entry is put back unless its key
      is taken at that moment; the error of that attempt is ignored. */
  function Undo(t: Table, it: Item): Table {
    var k := it.stored.key;
    var t1 := Table(t.rules - {it.id}, t.index - {k}, Bump(t.combo, ComboType(k), -1), t.live - {k});
    match it.old_
    case None => t1
    case Some(o) =>
      Table(t1.rules[it.id := o], t1.index[o.key := it.id], Bump(t1.combo, ComboType(o.key), 1),
            if o.key != k && o.key !in t1.live then t1.live[o.key := ValueOf(o)] else t1.live)
  }

  function ApplyAll(t: Table, items: seq<Item>): Table
    decreases |items|
  {
    if items == [] then t else ApplyAll(Replace(t, items[0].id, items[0].stored), items[1..])
  }

  function UndoAll(t: Table, items: seq<Item>): Table
    decreases |items|
  {
    if items == [] then t else UndoAll(Undo(t, items[0]), items[1..])
  }

  /** Each insertion found its key free, and remembers what its id held at that moment. */
  ghost predicate Applicable(t: Table, items: seq<Item>)
    decreases |items|
  {
    items == [] ||
    var it := items[0];
    && it.old_ == Held(t.rules, it.id)
    && it.stored.key !in t.live && ValidCombo(ComboType(it.stored.key))
    && Applicable(Replace(t, it.id, it.stored), items[1..])
  }

  ghost predicate DistinctIds(items: seq<Item>) {
    forall i, j :: 0 <= i < j < |items| ==> items[i].id != items[j].id
  }

  /** Some insertion took a key that an earlier one of the batch gave up. */
  ghost predicate HandsOver(items: seq<Item>) {
    exists i, j :: 0 <= i < j < |items| && items[i].old_.Some? && items[j].stored.key == items[i].old_.value.key
  }

  function NetNew(items: seq<Item>): nat {
    if items == [] then 0 else (if items[0].old_.None? then 1 else 0) + NetNew(items[1..])
  }

  lemma {:induction false} ApplyAllKeepsInv(t: Table, items: seq<Item>)
    requires TableInv(t) && Applicable(t, items)
    ensures TableInv(ApplyAll(t, items))
    ensures |ApplyAll(t, items).rules| == |t.rules| + NetNew(items)
    decreases |items|
  {
    hide TableInv, Replace;
    if items != [] {
      ReplaceKeepsInv(t, items[0].id, items[0].stored);
      ApplyAllKeepsInv(Replace(t, items[0].id, items[0].stored), items[1..]);
    }
  }

  // ---- Insertions and removals of different rules commute ----

  lemma BumpsCommute(combo: seq<int>, c: int, d: int, c': int, d': int)
    ensures Bump(Bump(combo, c, d), c', d') == Bump(Bump(combo, c', d'), c, d)
  {
  }

  lemma PutsCommute(t: Table, a: Id, s: Stored, b: Id, u: Stored)
    requires a != b && s.key != u.key
    ensures Put(Put(t, a, s), b, u) == Put(Put(t, b, u), a, s)
  {
    hide ValueOf, ComboType;
    BumpsCommute(t.combo, ComboType(s.key), 1, ComboType(u.key), 1);
    assert t.rules[a := s][b := u] == t.rules[b := u][a := s];
    assert t.index[s.key := a][u.key := b] == t.index[u.key := b][s.key := a];
    assert t.live[s.key := ValueOf(s)][u.key := ValueOf(u)] == t.live[u.key := ValueOf(u)][s.key := ValueOf(s)];
  }

  lemma DropsCommute(t: Table, a: Id, b: Id)
    requires a != b && a in t.rules && b in t.rules
    ensures Drop(Drop(t, a), b) == Drop(Drop(t, b), a)
  {
    hide ValueOf, ComboType;
    var s, u := t.rules[a], t.rules[b];
    BumpsCommute(t.combo, ComboType(s.key), -1, ComboType(u.key), -1);
    assert t.rules - {a} - {b} == t.rules - {b} - {a};
    assert t.index - {s.key} - {u.key} == t.index - {u.key} - {s.key};
    assert t.live - {s.key} - {u.key} == t.live - {u.key} - {s.key};
  }

  lemma DropPutCommute(t: Table, a: Id, b: Id, u: Stored)
    requires a != b && a in t.rules && t.rules[a].key != u.key
    ensures Drop(Put(t, b, u), a) == Put(Drop(t, a), b, u)
  {
    hide ValueOf, ComboType;
    var s := t.rules[a];
    BumpsCommute(t.combo, ComboType(s.key), -1, ComboType(u.key), 1);
    assert t.rules[b := u] - {a} == (t.rules - {a})[b := u];
    assert t.index[u.key := b] - {s.key} == (t.index - {s.key})[u.key := b];
    assert t.live[u.key := ValueOf(u)] - {s.key} == (t.live - {s.key})[u.key := ValueOf(u)];
  }

  /** The rollback of an insertion whose rule is still stored and whose old key is free. */
  function Restored(t: Table, it: Item): Table
    requires it.id in t.rules
  {
    match it.old_
    case None => Drop(t, it.id)
    case Some(o) => Put(Drop(t, it.id), it.id, o)
  }

  ghost predicate Undoable(t: Table, it: Item) {
    && it.id in t.rules && t.rules[it.id].key == it.stored.key
    && (it.old_.Some? ==> it.old_.value.key != it.stored.key && it.old_.value.key !in t.live)
  }

  lemma UndoIsRestored(t: Table, it: Item)
    requires Undoable(t, it)
    ensures Undo(t, it) == Restored(t, it)
  {
    hide ValueOf, ComboType;
  }

  /** Undoing an insertion right away restores the table: the rollback of a single rule. */
  lemma UndoReplace(t: Table, it: Item)
    requires TableInv(t) && it.old_ == Held(t.rules, it.id) && it.stored.key !in t.live
    ensures Undoable(Replace(t, it.id, it.stored), it)
    ensures Undo(Replace(t, it.id, it.stored), it) == t
  {
    hide ValueOf, ComboType, Counted, Usable;
    UndoIsRestored(Replace(t, it.id, it.stored), it);
    if it.old_.Some? {
      var d := Drop(t, it.id);
      assert d.rules[it.id := it.stored] - {it.id} == d.rules;
      DropUndoesPut(d, it.id, it.stored);
      PutUndoesDrop(t, it.id);
    } else {
      DropUndoesPut(t, it.id, it.stored);
    }
  }

  // ---- The forward rollback of a whole batch ----

  /** b was inserted while a was in place; it has another id and did not take the key a gave up. */
  ghost predicate Independent(a: Item, b: Item) {
    a.id != b.id && (a.old_.Some? ==> a.old_.value.key != b.stored.key)
  }

  /** Undoing a first and then inserting b is inserting b and then undoing a. */
  lemma UndoCommutes(t: Table, a: Item, b: Item)
    requires Inverse(t.rules, t.index) && Mirrors(t) && Undoable(t, a)
    requires Independent(a, b) && b.stored.key !in t.live
    ensures Undoable(Replace(t, b.id, b.stored), a)
    ensures Undo(Replace(t, b.id, b.stored), a) == Replace(Undo(t, a), b.id, b.stored)
    ensures Held(Undo(t, a).rules, b.id) == Held(t.rules, b.id) && b.stored.key !in Undo(t, a).live
  {
    hide ValueOf, ComboType;
    var r := Replace(t, b.id, b.stored);
    assert Undoable(r, a);
    UndoIsRestored(t, a);
    UndoIsRestored(r, a);
    RestoredCommutes(t, a, b);
  }

  lemma RestoredCommutes(t: Table, a: Item, b: Item)
    requires Inverse(t.rules, t.index) && Mirrors(t) && Undoable(t, a)
    requires Independent(a, b) && b.stored.key !in t.live
    requires a.id in Replace(t, b.id, b.stored).rules
    ensures Restored(Replace(t, b.id, b.stored), a) == Replace(Restored(t, a), b.id, b.stored)
  {
    hide ValueOf, ComboType;
    var x := if b.id in t.rules then Drop(t, b.id) else t;
    DropPutCommute(x, a.id, b.id, b.stored);
    if b.id in t.rules {
      DropsCommute(t, a.id, b.id);
    }
    if a.old_.Some? {
      PutsCommute(Drop(x, a.id), a.id, a.old_.value, b.id, b.stored);
      if b.id in t.rules {
        DropPutCommute(Drop(t, a.id), b.id, a.id, a.old_.value);
      }
    }
  }

  lemma {:induction false} UndoPastRest(t: Table, a: Item, rest: seq<Item>)
    requires TableInv(t) && Undoable(t, a) && Applicable(t, rest)
    requires forall b :: b in rest ==> Independent(a, b)
    ensures Undo(ApplyAll(t, rest), a) == ApplyAll(Undo(t, a), rest)
    ensures Applicable(Undo(t, a), rest)
    decreases |rest|
  {
    hide Undo, Undoable, Replace, Independent;
    if rest != [] {
      var b := rest[0];
      UndoCommutes(t, a, b);
      ReplaceKeepsInv(t, b.id, b.stored);
      UndoPastRest(Replace(t, b.id, b.stored), a, rest[1..]);
    }
  }

  /** Without a hand-over the forward rollback restores the table exactly. */
  lemma {:induction false} RollbackRestores(t: Table, items: seq<Item>)
    requires TableInv(t) && Applicable(t, items) && DistinctIds(items) && !HandsOver(items)
    ensures UndoAll(ApplyAll(t, items), items) == t
    decreases |items|
  {
    hide Undo, Undoable, Replace;
    if items != [] {
      var a, rest := items[0], items[1..];
      forall b | b in rest ensures Independent(a, b) {
        var j :| 0 <= j < |rest| && rest[j] == b;
        assert items[j + 1] == b;
      }
      ReplaceKeepsInv(t, a.id, a.stored);
      UndoReplace(t, a);
      UndoPastRest(Replace(t, a.id, a.stored), a, rest);
      assert !HandsOver(rest) by {
        assert forall j :: 0 <= j < |rest| ==> rest[j] == items[j + 1];
      }
      assert DistinctIds(rest);
      RollbackRestores(t, rest);
    }
  }

  /** Old rules are the ones the table held before the batch. */
  lemma {:induction false} OldsAreOriginal(t: Table, items: seq<Item>)
    requires Applicable(t, items) && DistinctIds(items)
    ensures forall i :: 0 <= i < |items| ==> items[i].old_ == Held(t.rules, items[i].id)
    decreases |items|
  {
    hide ValueOf, ComboType;
    if items != [] {
      var t', rest := Replace(t, items[0].id, items[0].stored), items[1..];
      assert DistinctIds(rest);
      OldsAreOriginal(t', rest);
      forall i | 0 < i < |items|
        ensures items[i].old_ == Held(t.rules, items[i].id)
      {
        assert rest[i - 1] == items[i];
      }
    }
  }

  /** A key that no later rollback step puts back stays out of the index. */
  lemma {:induction false} StaysOut(t: Table, items: seq<Item>, k: Key)
    requires k !in t.index && forall it :: it in items && it.old_.Some? ==> it.old_.value.key != k
    ensures k !in UndoAll(t, items).index
    decreases |items|
  {
    hide ValueOf, ComboType;
    if items != [] {
      StaysOut(Undo(t, items[0]), items[1..], k);
    }
  }

  lemma {:induction false} UndoAllSplits(t: Table, xs: seq<Item>, ys: seq<Item>)
    ensures UndoAll(t, xs + ys) == UndoAll(UndoAll(t, xs), ys)
    decreases |xs|
  {
    hide Undo;
    if xs == [] {
      assert xs + ys == ys;
    } else {
      assert (xs + ys)[1..] == xs[1..] + ys;
      UndoAllSplits(Undo(t, xs[0]), xs[1..], ys);
    }
  }

  /** After a hand-over the rollback loses the key that changed hands: undoing the taker
      removes it after undoing the giver had put it back. */
  lemma HandOverLosesKey(t: Table, final: Table, items: seq<Item>, i: nat, j: nat)
    requires Inverse(t.rules, t.index) && Applicable(t, items) && DistinctIds(items)
    requires i < j < |items| && items[i].old_.Some? && items[j].stored.key == items[i].old_.value.key
    ensures items[j].stored.key in t.index
    ensures items[j].stored.key !in UndoAll(final, items).index
  {
    hide ValueOf, ComboType, UndoAll, Applicable;
    OldsAreOriginal(t, items);
    var k, before, rest := items[j].stored.key, items[..j], items[j + 1..];
    assert items == before + ([items[j]] + rest);
    UndoAllSplits(final, before, [items[j]] + rest);
    var mid := UndoAll(final, before);
    assert UndoAll(mid, [items[j]] + rest) == UndoAll(Undo(mid, items[j]), rest) by { UndoFirst(mid, items[j], rest); }
    assert items[j].old_.Some? ==> items[j].old_.value.key != k;
    assert k !in Undo(mid, items[j]).index;
    forall it | it in rest && it.old_.Some? ensures it.old_.value.key != k {
      var l :| 0 <= l < |rest| && rest[l] == it;
      assert items[j + 1 + l] == it;
    }
    StaysOut(Undo(mid, items[j]), rest, k);
  }

  lemma UndoFirst(t: Table, it: Item, rest: seq<Item>)
    ensures UndoAll(t, [it] + rest) == UndoAll(Undo(t, it), rest)
  {
    hide Undo;
    assert ([it] + rest)[1..] == rest;
  }

  lemma {:induction false} AppliedElsewhere(t: Table, items: seq<Item>, id: Id)
    requires forall it :: it in items ==> it.id != id
    ensures Held(ApplyAll(t, items).rules, id) == Held(t.rules, id)
    decreases |items|
  {
    hide ValueOf, ComboType;
    if items != [] {
      AppliedElsewhere(Replace(t, items[0].id, items[0].stored), items[1..], id);
    }
  }

  lemma {:induction false} UndoneRules(t: Table, u: Table, items: seq<Item>, id: Id)
    requires forall it :: it in items ==> it.old_ == Held(t.rules, it.id)
    requires (forall it :: it in items ==> it.id != id) ==> Held(u.rules, id) == Held(t.rules, id)
    ensures Held(UndoAll(u, items).rules, id) == Held(t.rules, id)
    decreases |items|
  {
    hide ValueOf, ComboType;
    if items != [] {
      UndoneRules(t, Undo(u, items[0]), items[1..], id);
    }
  }

  /** The rollback always puts the rules themselves back; what it can miss is the rest. */
  lemma RulesComeBack(t: Table, items: seq<Item>)
    requires Applicable(t, items) && DistinctIds(items)
    ensures UndoAll(ApplyAll(t, items), items).rules == t.rules
  {
    hide ApplyAll, UndoAll, Applicable;
    OldsAreOriginal(t, items);
    var u := UndoAll(ApplyAll(t, items), items);
    forall id
      ensures Held(u.rules, id) == Held(t.rules, id)
    {
      if forall it :: it in items ==> it.id != id {
        AppliedElsewhere(t, items, id);
      }
      UndoneRules(t, ApplyAll(t, items), items, id);
    }
    SameHeld(u.rules, t.rules);
  }

  lemma SameHeld(rules: map<Id, Stored>, rules': map<Id, Stored>)
    requires forall id :: Held(rules, id) == Held(rules', id)
    ensures rules == rules'
  {
    assert forall id :: id in rules <==> Held(rules, id).Some?;
    assert forall id :: id in rules' <==> Held(rules', id).Some?;
  }

  /** The rollback of a batch restores the table exactly when no rule of the batch took a key
      that an earlier rule of the batch gave up; otherwise it leaves a table without its invariant. */
  lemma RollbackRestoresIff(t: Table, items: seq<Item>)
    requires TableInv(t) && Applicable(t, items) && DistinctIds(items)
    ensures UndoAll(ApplyAll(t, items), items) == t <==> !HandsOver(items)
    ensures TableInv(UndoAll(ApplyAll(t, items), items)) <==> !HandsOver(items)
  {
    hide Applicable, UndoAll, ApplyAll, TableInv;
    if HandsOver(items) {
      var i, j :| 0 <= i < j < |items| && items[i].old_.Some? && items[j].stored.key == items[i].old_.value.key;
      TableParts(t);
      HandOverLosesKey(t, ApplyAll(t, items), items, i, j);
    } else {
      RollbackRestores(t, items);
    }
    RulesComeBack(t, items);
    if TableInv(UndoAll(ApplyAll(t, items), items)) {
      RulesDetermineTable(t, UndoAll(ApplyAll(t, items), items));
    }
  }

  lemma TableParts(t: Table)
    requires TableInv(t)
    ensures Inverse(t.rules, t.index) && Mirrors(t)
  {
  }

  /** It does happen, whenever a stored rule a moves to a free key and another rule b of the
      batch, stored before or new, then goes to the key that a had. */
  lemma TakeOverLoses(t: Table, a: Id, b: Id, x: Stored, y: Stored)
    requires TableInv(t) && a in t.rules && a != b && x.key !in t.live && y.key == t.rules[a].key
    requires ValidCombo(ComboType(x.key)) && ValidCombo(ComboType(y.key))
    ensures var items := [Item(a, x, Some(t.rules[a])), Item(b, y, Held(t.rules, b))];
            Applicable(t, items) && DistinctIds(items) && UndoAll(ApplyAll(t, items), items) != t
  {
    hide ValueOf, UndoAll, ApplyAll, ComboType, Counted, Usable, Applicable;
    var i, j := Item(a, x, Some(t.rules[a])), Item(b, y, Held(t.rules, b));
    var t1 := Replace(t, a, x);
    assert y.key !in t1.live;
    OneApplicable(t1, j);
    PairApplicable(t, i, j);
    assert HandsOver([i, j]) by {
      assert [i, j][1].stored.key == [i, j][0].old_.value.key;
    }
    RollbackRestoresIff(t, [i, j]);
  }

  lemma OneApplicable(t: Table, it: Item)
    requires it.old_ == Held(t.rules, it.id) && it.stored.key !in t.live && ValidCombo(ComboType(it.stored.key))
    ensures Applicable(t, [it])
  {
    hide ComboType;
    assert ([it])[1..] == [];
  }

  lemma PairApplicable(t: Table, it: Item, next: Item)
    requires it.old_ == Held(t.rules, it.id) && it.stored.key !in t.live && ValidCombo(ComboType(it.stored.key))
    requires Applicable(Replace(t, it.id, it.stored), [next])
    ensures Applicable(t, [it, next])
  {
    hide ComboType, Replace;
    assert ([it, next])[1..] == [next];
  }

  function Dropping(sport: nat): Stored {
    Stored(Key(0, 0, sport, 0, 0), None, None, "drop", 0, 0, 0, "", 0)
  }

  /** For example: a moves from source port 1 to 3, and b from 2 to 1. */
  lemma RollbackCanLose()
    ensures var t := Put(Put(EMPTY, "a", Dropping(1)), "b", Dropping(2));
            var items := [Item("a", Dropping(3), Some(Dropping(1))), Item("b", Dropping(1), Some(Dropping(2)))];
            TableInv(t) && Applicable(t, items) && UndoAll(ApplyAll(t, items), items) != t
  {
    hide ValueOf, UndoAll, ApplyAll, Applicable, TableInv;
    var t0, t := Put(EMPTY, "a", Dropping(1)), Put(Put(EMPTY, "a", Dropping(1)), "b", Dropping(2));
    EmptyInv();
    PutKeepsInv(EMPTY, "a", Dropping(1));
    PutKeepsInv(t0, "b", Dropping(2));
    TakeOverLoses(t, "a", "b", Dropping(3), Dropping(1));
  }

  // ---- Extending a batch at its end ----

  lemma {:induction false} ApplyAllSnoc(t: Table, items: seq<Item>, it: Item)
    requires Applicable(t, items)
    requires var u := ApplyAll(t, items);
             it.old_ == Held(u.rules, it.id) && it.stored.key !in u.live && ValidCombo(ComboType(it.stored.key))
    ensures Applicable(t, items + [it])
    ensures ApplyAll(t, items + [it]) == Replace(ApplyAll(t, items), it.id, it.stored)
    ensures NetNew(items + [it]) == NetNew(items) + (if it.old_.None? then 1 else 0)
    decreases |items|
  {
    hide Replace, ComboType;
    if items == [] {
      assert ([it])[1..] == [];
    } else {
      assert (items + [it])[1..] == items[1..] + [it];
      ApplyAllSnoc(Replace(t, items[0].id, items[0].stored), items[1..], it);
    }
  }
}
