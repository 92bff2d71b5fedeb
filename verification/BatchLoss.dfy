/** Which batches of insertions can lose state when they are rolled back, told by what the batch
    asks for and what is stored, before anything is inserted. */
module BatchLoss {
  import opened Rules
  import opened Combo
  import opened Requests
  import opened RuleTable
  import opened BatchRollback

  datatype BatchItem = BatchItem(id: Id, p: Prepared)

  predicate Acceptable(b: BatchItem) {
    ValidCombo(ComboType(b.p.stored.key)) && b.p.value == ValueOf(b.p.stored)
  }

  /** Acceptable items, no id twice. */
  ghost predicate Proper(asked: seq<BatchItem>) {
    && (forall i :: 0 <= i < |asked| ==> Acceptable(asked[i]))
    && forall i, j :: 0 <= i < j < |asked| ==> asked[i].id != asked[j].id
  }

  /** The insertion of an item into a table. */
  function ItemIn(t: Table, p: BatchItem): Item {
    Item(p.id, p.p.stored, Held(t.rules, p.id))
  }

  /** The insertions that a run of the batch may make: each item in turn is left out, or goes in
      if its key is free at that moment. */
  ghost predicate Drawn(t: Table, asked: seq<BatchItem>, items: seq<Item>)
    decreases |asked|
  {
    if asked == [] then items == []
    else
      var init, p := asked[..|asked| - 1], asked[|asked| - 1];
      Drawn(t, init, items) || (items != [] && Drawn(t, init, items[..|items| - 1]) && Goes(t, p, items))
  }

  /** The last insertion is that of p, whose key was free. */
  ghost predicate Goes(t: Table, p: BatchItem, items: seq<Item>)
    requires items != []
  {
    var u := ApplyAll(t, items[..|items| - 1]);
    p.p.stored.key !in u.index && items[|items| - 1] == ItemIn(u, p)
  }

  lemma DrawnSkip(t: Table, asked: seq<BatchItem>, p: BatchItem, items: seq<Item>)
    requires Drawn(t, asked, items)
    ensures Drawn(t, asked + [p], items)
  {
    assert (asked + [p])[..|asked|] == asked;
  }

  lemma DrawnTake(t: Table, asked: seq<BatchItem>, p: BatchItem, items: seq<Item>)
    requires Drawn(t, asked, items) && p.p.stored.key !in ApplyAll(t, items).index
    ensures Drawn(t, asked + [p], items + [ItemIn(ApplyAll(t, items), p)])
  {
    hide ApplyAll;
    assert (asked + [p])[..|asked|] == asked;
    var items' := items + [ItemIn(ApplyAll(t, items), p)];
    assert items'[..|items|] == items;
  }

  lemma {:induction false} DrawnNothing(t: Table, asked: seq<BatchItem>)
    ensures Drawn(t, asked, [])
  {
    if asked != [] {
      DrawnNothing(t, asked[..|asked| - 1]);
    }
  }

  /** Each insertion is that of an item of the batch. */
  lemma {:induction false} DrawnAt(t: Table, asked: seq<BatchItem>, items: seq<Item>, a: nat) returns (i: nat)
    requires Drawn(t, asked, items) && a < |items|
    ensures i < |asked| && asked[i].id == items[a].id && asked[i].p.stored == items[a].stored
    decreases |asked|
  {
    hide ApplyAll;
    var n, m := |asked| - 1, |items| - 1;
    if Drawn(t, asked[..n], items) {
      i := DrawnAt(t, asked[..n], items, a);
    } else if a < m {
      i := DrawnAt(t, asked[..n], items[..m], a);
    } else {
      i := n;
    }
  }

  /** The insertions are in the order of the batch. */
  lemma {:induction false} DrawnPair(t: Table, asked: seq<BatchItem>, items: seq<Item>, a: nat, b: nat)
    returns (i: nat, j: nat)
    requires Drawn(t, asked, items) && a < b < |items|
    ensures i < j < |asked|
    ensures asked[i].id == items[a].id && asked[i].p.stored == items[a].stored
    ensures asked[j].id == items[b].id && asked[j].p.stored == items[b].stored
    decreases |asked|
  {
    hide ApplyAll;
    var n, m := |asked| - 1, |items| - 1;
    if Drawn(t, asked[..n], items) {
      i, j := DrawnPair(t, asked[..n], items, a, b);
    } else if b < m {
      i, j := DrawnPair(t, asked[..n], items[..m], a, b);
    } else {
      i := DrawnAt(t, asked[..n], items[..m], a);
      j := n;
    }
  }

  /** What is drawn can be applied, one insertion after the other. */
  lemma {:induction false} DrawnApplies(t: Table, asked: seq<BatchItem>, items: seq<Item>)
    requires TableInv(t) && Proper(asked) && Drawn(t, asked, items)
    ensures Applicable(t, items) && DistinctIds(items)
    decreases |asked|
  {
    hide ApplyAll, Applicable, TableInv, ComboType, ValueOf;
    if asked == [] {
      NothingApplies(t);
    } else {
      var n, m := |asked| - 1, |items| - 1;
      assert Proper(asked[..n]);
      if Drawn(t, asked[..n], items) {
        DrawnApplies(t, asked[..n], items);
      } else {
        DrawnApplies(t, asked[..n], items[..m]);
        ApplyAllKeepsInv(t, items[..m]);
        SameKeys(ApplyAll(t, items[..m]));
        assert Acceptable(asked[n]);
        ApplyAllSnoc(t, items[..m], items[m]);
        assert items[..m] + [items[m]] == items;
        forall a | 0 <= a < m
          ensures items[a].id != items[m].id
        {
          var i := DrawnAt(t, asked[..n], items[..m], a);
        }
        DistinctSnoc(items);
      }
    }
  }

  lemma NothingApplies(t: Table)
    ensures Applicable(t, []) && ApplyAll(t, []) == t && DistinctIds([])
  {
  }

  lemma SameKeys(t: Table)
    requires TableInv(t)
    ensures forall k :: k in t.index <==> k in t.live
  {
    assert t.live.Keys == t.index.Keys;
  }

  lemma DistinctSnoc(items: seq<Item>)
    requires items != [] && DistinctIds(items[..|items| - 1])
    requires forall a :: 0 <= a < |items| - 1 ==> items[a].id != items[|items| - 1].id
    ensures DistinctIds(items)
  {
    assert forall a :: 0 <= a < |items| - 1 ==> items[..|items| - 1][a] == items[a];
  }

  // ---- The condition ----

  /** Item i moves its stored rule to a key that is free, and j comes later and asks for the key
      that i's rule has now. */
  predicate TakesOver(rules: map<Id, Stored>, index: map<Key, Id>, asked: seq<BatchItem>, i: nat, j: nat)
    requires i < j < |asked|
  {
    && asked[i].id in rules && asked[i].p.stored.key !in index
    && asked[j].p.stored.key == rules[asked[i].id].key
  }

  predicate CanLose(rules: map<Id, Stored>, index: map<Key, Id>, asked: seq<BatchItem>) {
    exists i: nat, j: nat :: i < j < |asked| && TakesOver(rules, index, asked, i, j)
  }

  /** A stored key that was free for an insertion was given up by an earlier one. */
  lemma {:induction false} KeyGivenUp(t: Table, items: seq<Item>, a: nat) returns (c: nat)
    requires TableInv(t) && Applicable(t, items) && a < |items| && items[a].stored.key in t.index
    ensures c < a && items[c].old_.Some? && items[c].old_.value.key == items[a].stored.key
    decreases a
  {
    hide TableInv, ComboType, ValueOf;
    SameKeys(t);
    var it, k := items[0], items[a].stored.key;
    var t' := Replace(t, it.id, it.stored);
    if k in t'.index {
      ReplaceKeepsInv(t, it.id, it.stored);
      var d := KeyGivenUp(t', items[1..], a - 1);
      c := d + 1;
    } else {
      c := 0;
    }
  }

  /** Among the insertions of which a later one took over a key there is one that moved to a
      key that was free before the batch. */
  lemma {:induction false} FirstTaker(t: Table, items: seq<Item>, a: nat, b: nat) returns (c: nat, d: nat)
    requires TableInv(t) && Applicable(t, items)
    requires a < b < |items| && items[a].old_.Some? && items[b].stored.key == items[a].old_.value.key
    ensures c < d < |items| && items[c].old_.Some? && items[d].stored.key == items[c].old_.value.key
    ensures items[c].stored.key !in t.index
    decreases a
  {
    hide TableInv, Applicable;
    if items[a].stored.key in t.index {
      var e := KeyGivenUp(t, items, a);
      c, d := FirstTaker(t, items, e, a);
    } else {
      c, d := a, b;
    }
  }

  lemma LossIsTold(t: Table, asked: seq<BatchItem>, items: seq<Item>)
    requires TableInv(t) && Proper(asked) && Drawn(t, asked, items)
    requires UndoAll(ApplyAll(t, items), items) != t
    ensures CanLose(t.rules, t.index, asked)
  {
    hide TableInv, Applicable, UndoAll, ApplyAll, Drawn, Proper;
    DrawnApplies(t, asked, items);
    RollbackRestoresIff(t, items);
    var a: nat, b: nat :| a < b < |items| && items[a].old_.Some? && items[b].stored.key == items[a].old_.value.key;
    var c, d := FirstTaker(t, items, a, b);
    OldsAreOriginal(t, items);
    var i, j := DrawnPair(t, asked, items, c, d);
    assert TakesOver(t.rules, t.index, asked, i, j);
  }

  // ---- The run that loses ----

  /** The run that makes no insertion but that of item i. */
  lemma {:induction false} DrawnOne(t: Table, asked: seq<BatchItem>, i: nat)
    requires i < |asked| && asked[i].p.stored.key !in t.index
    ensures Drawn(t, asked, [ItemIn(t, asked[i])])
    decreases |asked|
  {
    hide Drawn;
    var n := |asked| - 1;
    assert asked[..n] + [asked[n]] == asked;
    if i < n {
      DrawnOne(t, asked[..n], i);
      DrawnSkip(t, asked[..n], asked[n], [ItemIn(t, asked[i])]);
    } else {
      DrawnNothing(t, asked[..n]);
      NothingApplies(t);
      DrawnTake(t, asked[..n], asked[n], []);
      assert [] + [ItemIn(t, asked[n])] == [ItemIn(t, asked[n])];
    }
  }

  lemma {:induction false} DrawnTwo(t: Table, asked: seq<BatchItem>, i: nat, j: nat, it: Item, next: Item)
    requires i < j < |asked| && asked[i].p.stored.key !in t.index && it == ItemIn(t, asked[i])
    requires asked[j].p.stored.key !in ApplyAll(t, [it]).index && next == ItemIn(ApplyAll(t, [it]), asked[j])
    ensures Drawn(t, asked, [it, next])
    decreases |asked|
  {
    hide Drawn, ApplyAll;
    var n := |asked| - 1;
    assert asked[..n] + [asked[n]] == asked;
    if j < n {
      DrawnTwo(t, asked[..n], i, j, it, next);
      DrawnSkip(t, asked[..n], asked[n], [it, next]);
    } else {
      DrawnOne(t, asked[..n], i);
      DrawnTake(t, asked[..n], asked[n], [it]);
      assert [it] + [next] == [it, next];
    }
  }

  lemma ApplyOne(t: Table, it: Item)
    ensures ApplyAll(t, [it]) == Replace(t, it.id, it.stored)
  {
    hide Replace;
    assert ([it])[1..] == [];
  }

  lemma LossHappens(t: Table, asked: seq<BatchItem>, i: nat, j: nat) returns (items: seq<Item>)
    requires TableInv(t) && Proper(asked) && i < j < |asked| && TakesOver(t.rules, t.index, asked, i, j)
    ensures Drawn(t, asked, items) && UndoAll(ApplyAll(t, items), items) != t
  {
    hide Drawn, ApplyAll, UndoAll, Applicable, ComboType, ValueOf, Counted, Usable;
    var it, p := ItemIn(t, asked[i]), asked[j];
    ApplyOne(t, it);
    var u := Replace(t, it.id, it.stored);
    assert p.p.stored.key !in u.index && Held(u.rules, p.id) == Held(t.rules, p.id);
    items := [it, ItemIn(u, p)];
    DrawnTwo(t, asked, i, j, it, ItemIn(u, p));
    TakeOverLoses(t, it.id, p.id, it.stored, p.p.stored);
  }

  /** Exactly these batches can lose state: there is a run of the batch whose rollback does not
      restore the table, iff some item moves a stored rule to a free key and a later item asks
      for the key which that rule has now. */
  lemma CanLoseIff(t: Table, asked: seq<BatchItem>)
    requires TableInv(t) && Proper(asked)
    ensures CanLose(t.rules, t.index, asked) <==>
            exists items :: Drawn(t, asked, items) && UndoAll(ApplyAll(t, items), items) != t
  {
    hide Drawn, ApplyAll, UndoAll, TableInv, Proper, TakesOver;
    if CanLose(t.rules, t.index, asked) {
      var i: nat, j: nat :| i < j < |asked| && TakesOver(t.rules, t.index, asked, i, j);
      var items := LossHappens(t, asked, i, j);
    }
    forall items | Drawn(t, asked, items) && UndoAll(ApplyAll(t, items), items) != t
      ensures CanLose(t.rules, t.index, asked)
    {
      LossIsTold(t, asked, items);
    }
  }
}
