/** The tables that an atomic sync builds beside the ones in force, and when they are sound. */
module ShadowTables {
  import opened Rules
  import opened Combo
  import opened Prefixes
  import opened Requests
  import opened RuleTable
  import opened CidrLookup
  import opened CidrManager

  /** One rule written to the shadow side. */
  datatype Built = Built(id: Id, stored: Stored)

  /** Storing without a look at what the id or the key held before: plain assignments. */
  function PutAll(t: Table, items: seq<Built>): Table {
    if items == [] then t
    else
      var last := items[|items| - 1];
      Put(PutAll(t, items[..|items| - 1]), last.id, last.stored)
  }

  ghost predicate DistinctBuilt(items: seq<Built>) {
    forall i, j :: 0 <= i < j < |items| ==> items[i].id != items[j].id
  }

  /** What "must not exist" writes into a map that held `left` guarantee. */
  ghost predicate FreshKeys(items: seq<Built>, left: map<Key, RuleValue>) {
    && (forall i :: 0 <= i < |items| ==> items[i].stored.key !in left && ValidCombo(ComboType(items[i].stored.key)))
    && forall i, j :: 0 <= i < j < |items| ==> items[i].stored.key != items[j].stored.key
  }

  lemma {:induction false} PutAllIds(t: Table, items: seq<Built>)
    ensures forall id ::
              id in PutAll(t, items).rules <==> id in t.rules || exists i :: 0 <= i < |items| && items[i].id == id
    ensures forall k ::
              k in PutAll(t, items).index <==> k in t.index || exists i :: 0 <= i < |items| && items[i].stored.key == k
    ensures forall k ::
              k in PutAll(t, items).live <==> k in t.live || exists i :: 0 <= i < |items| && items[i].stored.key == k
  {
    hide ComboType, ValueOf;
    if items != [] {
      var n := |items| - 1;
      PutAllIds(t, items[..n]);
      assert forall i :: 0 <= i < n ==> items[..n][i] == items[i];
    }
  }

  /** With fresh keys the index says which id came with each key. */
  lemma {:induction false} PutAllIndex(t: Table, items: seq<Built>, i: nat)
    requires i < |items| && forall j :: i < j < |items| ==> items[i].stored.key != items[j].stored.key
    ensures items[i].stored.key in PutAll(t, items).index && PutAll(t, items).index[items[i].stored.key] == items[i].id
  {
    hide ComboType, ValueOf;
    var n := |items| - 1;
    if i < n {
      assert forall j :: 0 <= j < n ==> items[..n][j] == items[j];
      PutAllIndex(t, items[..n], i);
    }
  }

  lemma LastIsNew(items: seq<Built>)
    requires items != [] && DistinctBuilt(items) && FreshKeys(items, map[])
    ensures var init, last := items[..|items| - 1], items[|items| - 1];
            DistinctBuilt(init) && FreshKeys(init, map[])
            && last.id !in PutAll(EMPTY, init).rules && last.stored.key !in PutAll(EMPTY, init).index
  {
    hide ComboType, ValueOf, PutAll;
    var n := |items| - 1;
    assert forall j :: 0 <= j < n ==> items[..n][j] == items[j];
    PutAllIds(EMPTY, items[..n]);
  }

  lemma {:induction false} DistinctKeepsInv(items: seq<Built>)
    requires DistinctBuilt(items) && FreshKeys(items, map[])
    ensures TableInv(PutAll(EMPTY, items)) && |PutAll(EMPTY, items).rules| == |items|
  {
    hide ComboType, ValueOf, TableInv, Put, DistinctBuilt;
    if items == [] {
      EmptyInv();
    } else {
      var n := |items| - 1;
      LastIsNew(items);
      DistinctKeepsInv(items[..n]);
      PutKeepsInv(PutAll(EMPTY, items[..n]), items[n].id, items[n].stored);
    }
  }

  /** Two keys under one id: the reverse index cannot be an inverse. */
  lemma RepeatedIdBreaksInv(left: map<Key, RuleValue>, items: seq<Built>, i: nat, j: nat)
    requires FreshKeys(items, left) && i < j < |items| && items[i].id == items[j].id
    ensures !TableInv(PutAll(Leftover(left), items))
  {
    hide ComboType, ValueOf, Counted, Usable, Put, PutAll, Mirrors;
    PutAllIndex(Leftover(left), items, i);
    PutAllIndex(Leftover(left), items, j);
  }

  /** What the clear left over is in the map but not in the index. */
  lemma LeftoverBreaksInv(left: map<Key, RuleValue>, items: seq<Built>, k: Key)
    requires FreshKeys(items, left) && k in left
    ensures !TableInv(PutAll(Leftover(left), items))
  {
    hide ComboType, ValueOf, Counted, Usable, Put, PutAll, Inverse;
    var t := PutAll(Leftover(left), items);
    PutAllIds(Leftover(left), items);
    assert k in t.live.Keys && k !in t.index.Keys;
  }

  /** The tables built beside a map that was left with `left` satisfy the table invariant
      exactly when no id was sent twice and the map had been cleared. */
  lemma BuiltInvIff(items: seq<Built>, left: map<Key, RuleValue>)
    requires FreshKeys(items, left)
    ensures TableInv(PutAll(Leftover(left), items)) <==> DistinctBuilt(items) && left == map[]
  {
    hide ComboType, ValueOf, TableInv, PutAll, FreshKeys;
    if left != map[] {
      var k :| k in left;
      LeftoverBreaksInv(left, items, k);
    } else if DistinctBuilt(items) {
      DistinctKeepsInv(items);
    } else {
      var i, j :| 0 <= i < j < |items| && items[i].id == items[j].id;
      RepeatedIdBreaksInv(left, items, i, j);
    }
  }

  // ---- References taken while building, and those an abort gives back ----

  function UsesIn(items: seq<Built>, e: Endpoint): nat {
    if items == [] then 0 else UsesIn(items[..|items| - 1], e) + UsesN(items[|items| - 1].stored, e)
  }

  lemma {:induction false} UsesOfDistinct(left: map<Key, RuleValue>, items: seq<Built>, e: Endpoint)
    requires DistinctBuilt(items)
    ensures UsesIn(items, e) == UseCount(PutAll(Leftover(left), items).rules, e)
  {
    hide UsesN;
    if items == [] {
      assert Users(map[], e) == {};
    } else {
      var n := |items| - 1;
      var init := items[..n];
      assert forall j :: 0 <= j < n ==> init[j] == items[j];
      UsesOfDistinct(left, init, e);
      PutAllIds(Leftover(left), init);
      UseCountPut(PutAll(Leftover(left), init).rules, items[n].id, items[n].stored, e);
    }
  }

  /** Only the last rule of an id is given back; the others' references can only be too many. */
  lemma {:induction false} UsesAtLeast(left: map<Key, RuleValue>, items: seq<Built>, e: Endpoint)
    ensures UsesIn(items, e) >= UseCount(PutAll(Leftover(left), items).rules, e)
  {
    hide UsesN, ComboType, ValueOf;
    if items == [] {
      assert Users(map[], e) == {};
    } else {
      var init, last := items[..|items| - 1], items[|items| - 1];
      UsesAtLeast(left, init, e);
      var rules := PutAll(Leftover(left), init).rules;
      assert (rules - {last.id})[last.id := last.stored] == rules[last.id := last.stored];
      UseCountPut(rules - {last.id}, last.id, last.stored, e);
      if last.id in rules {
        UseCountDrop(rules, last.id, e);
      } else {
        assert rules - {last.id} == rules;
      }
    }
  }

  /** A rule that was overwritten by a later one of its id leaks its references. */
  lemma {:induction false} OverwrittenLeaks(left: map<Key, RuleValue>, items: seq<Built>, i: nat, j: nat)
    returns (e: Endpoint)
    requires i < j < |items| && items[i].id == items[j].id
    requires forall x :: 0 <= x < |items| ==> items[x].stored.src.Some? || items[x].stored.dst.Some?
    ensures UsesIn(items, e) > UseCount(PutAll(Leftover(left), items).rules, e)
  {
    hide ComboType, ValueOf, UsesN;
    var n := |items| - 1;
    var init, last := items[..n], items[n];
    assert forall x :: 0 <= x < n ==> init[x] == items[x];
    var rules := PutAll(Leftover(left), init).rules;
    if j < n {
      e := OverwrittenLeaks(left, init, i, j);
    } else {
      PutAllIds(Leftover(left), init);
      assert init[i].id == last.id;
      BuiltRulesUse(left, init, last.id);
      var st := rules[last.id];
      e := if st.src.Some? then Endpoint(Src, st.src.value) else Endpoint(Dst, st.dst.value);
      assert UsesN(st, e) == 1 by { UsesOwnEnd(st, e); }
      UsesAtLeast(left, init, e);
    }
    assert (rules - {last.id})[last.id := last.stored] == rules[last.id := last.stored];
    UseCountPut(rules - {last.id}, last.id, last.stored, e);
    if last.id in rules {
      UseCountDrop(rules, last.id, e);
    } else {
      assert rules - {last.id} == rules;
    }
  }

  lemma UsesOwnEnd(st: Stored, e: Endpoint)
    requires e.dir == Src ==> st.src == Some(e.prefix)
    requires e.dir == Dst ==> st.dst == Some(e.prefix)
    ensures UsesN(st, e) == 1
  {
  }

  lemma {:induction false} BuiltRulesUse(left: map<Key, RuleValue>, items: seq<Built>, id: Id)
    requires forall x :: 0 <= x < |items| ==> items[x].stored.src.Some? || items[x].stored.dst.Some?
    requires id in PutAll(Leftover(left), items).rules
    ensures var st := PutAll(Leftover(left), items).rules[id]; st.src.Some? || st.dst.Some?
  {
    hide ComboType, ValueOf;
    if items != [] && id != items[|items| - 1].id {
      assert forall x :: 0 <= x < |items| - 1 ==> items[..|items| - 1][x] == items[x];
      BuiltRulesUse(left, items[..|items| - 1], id);
    }
  }

  /** An abort that gives back the references of the rules in the new id map gives back all
      references exactly when no id was sent twice. */
  lemma AbortBalancesIff(left: map<Key, RuleValue>, items: seq<Built>)
    requires forall x :: 0 <= x < |items| ==> items[x].stored.src.Some? || items[x].stored.dst.Some?
    ensures (forall e :: UsesIn(items, e) == UseCount(PutAll(Leftover(left), items).rules, e)) <==> DistinctBuilt(items)
  {
    hide UsesIn, UseCount, PutAll;
    if DistinctBuilt(items) {
      forall e ensures UsesIn(items, e) == UseCount(PutAll(Leftover(left), items).rules, e) {
        UsesOfDistinct(left, items, e);
      }
    } else {
      var i, j :| 0 <= i < j < |items| && items[i].id == items[j].id;
      var e := OverwrittenLeaks(left, items, i, j);
    }
  }

  /** Each rule of the built table is one of the items. */
  lemma {:induction false} BuiltFrom(left: map<Key, RuleValue>, items: seq<Built>, id: Id)
    requires id in PutAll(Leftover(left), items).rules
    ensures exists i :: 0 <= i < |items| && items[i] == Built(id, PutAll(Leftover(left), items).rules[id])
  {
    hide ComboType, ValueOf;
    var n := |items| - 1;
    if items != [] && id != items[n].id {
      BuiltFrom(left, items[..n], id);
      var i :| 0 <= i < n && items[..n][i] == Built(id, PutAll(Leftover(left), items[..n]).rules[id]);
      assert items[i] == Built(id, PutAll(Leftover(left), items).rules[id]);
    }
  }

  /** With distinct ids the table holds each item. */
  lemma PutAllHolds(items: seq<Built>, k: nat)
    requires DistinctBuilt(items) && k < |items|
    ensures items[k].id in PutAll(EMPTY, items).rules && PutAll(EMPTY, items).rules[items[k].id] == items[k].stored
  {
    hide PutAll;
    assert Leftover(map[]) == EMPTY;
    PutAllIds(EMPTY, items);
    BuiltFrom(map[], items, items[k].id);
    var i :| 0 <= i < |items| && items[i] == Built(items[k].id, PutAll(EMPTY, items).rules[items[k].id]);
    assert i == k;
  }
}
