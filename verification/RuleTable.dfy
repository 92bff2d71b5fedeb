/** One rule table of the agent (exact or CIDR): the id map, its reverse index, the combo
    reference counts, and the BPF map that must hold exactly the stored rules. */
module RuleTable {
  import opened Rules
  import opened Combo
  import opened Requests

  datatype Table = Table(rules: map<Id, Stored>, index: map<Key, Id>, combo: seq<int>, live: map<Key, RuleValue>)

  ghost function OfCombo(rules: map<Id, Stored>, c: int): set<Id> {
    set id | id in rules && ComboType(rules[id].key) == c
  }

  /** The reverse index is the inverse of the id map. */
  ghost predicate Inverse(rules: map<Id, Stored>, index: map<Key, Id>) {
    && (forall id :: id in rules ==> rules[id].key in index && index[rules[id].key] == id)
    && (forall k :: k in index ==> index[k] in rules && rules[index[k]].key == k)
  }

  /** Each combo's reference count is the number of stored rules of that combo. */
  ghost predicate Counted(rules: map<Id, Stored>, combo: seq<int>) {
    && |combo| == 64
    && forall c :: 0 <= c < 64 ==> combo[c] == |OfCombo(rules, c)|
  }

  /** The map holds, under each stored key and nowhere else, the value of the stored rule. */
  ghost predicate Mirrors(t: Table) {
    && t.live.Keys == t.index.Keys
    && forall id :: id in t.rules ==> t.rules[id].key in t.live && t.live[t.rules[id].key] == ValueOf(t.rules[id])
  }

  ghost predicate Usable(rules: map<Id, Stored>) {
    forall id :: id in rules ==> ValidCombo(ComboType(rules[id].key))
  }

  ghost predicate TableInv(t: Table) {
    Inverse(t.rules, t.index) && Counted(t.rules, t.combo) && Mirrors(t) && Usable(t.rules)
  }

  function Zeros(n: nat): (z: seq<int>)
    ensures |z| == n && forall i :: 0 <= i < n ==> z[i] == 0
  {
    if n == 0 then [] else Zeros(n - 1) + [0]
  }

  const NO_COUNTS: seq<int> := Zeros(64)
  const EMPTY := Table(map[], map[], NO_COUNTS, map[])

  /** No rules, beside a map that still holds entries. */
  function Leftover(left: map<Key, RuleValue>): Table {
    Table(map[], map[], NO_COUNTS, left)
  }

  function Bump(combo: seq<int>, c: int, delta: int): (r: seq<int>)
    ensures |r| == |combo|
  {
    if 0 <= c < |combo| then combo[c := combo[c] + delta] else combo
  }

  /** The net effect of storing a rule under a new id. */
  function Put(t: Table, id: Id, st: Stored): Table {
    Table(t.rules[id := st], t.index[st.key := id], Bump(t.combo, ComboType(st.key), 1), t.live[st.key := ValueOf(st)])
  }

  /** The net effect of removing the rule of an id. */
  function Drop(t: Table, id: Id): Table
    requires id in t.rules
  {
    var k := t.rules[id].key;
    Table(t.rules - {id}, t.index - {k}, Bump(t.combo, ComboType(k), -1), t.live - {k})
  }

  /** Storing under an id that may already hold another rule. */
  function Replace(t: Table, id: Id, st: Stored): Table {
    Put(if id in t.rules then Drop(t, id) else t, id, st)
  }

  lemma EmptyInv()
    ensures TableInv(EMPTY)
  {
  }

  lemma PutCounts(rules: map<Id, Stored>, id: Id, st: Stored, c: int)
    requires id !in rules
    ensures |OfCombo(rules[id := st], c)| == |OfCombo(rules, c)| + (if ComboType(st.key) == c then 1 else 0)
  {
    assert OfCombo(rules[id := st], c) == OfCombo(rules, c) + if ComboType(st.key) == c then {id} else {};
  }

  lemma DropCounts(rules: map<Id, Stored>, id: Id, c: int)
    requires id in rules
    ensures |OfCombo(rules - {id}, c)| == |OfCombo(rules, c)| - (if ComboType(rules[id].key) == c then 1 else 0)
  {
    PutCounts(rules - {id}, id, rules[id], c);
    assert (rules - {id})[id := rules[id]] == rules;
  }

  lemma PutKeepsInverse(rules: map<Id, Stored>, index: map<Key, Id>, id: Id, st: Stored)
    requires Inverse(rules, index) && id !in rules && st.key !in index
    ensures Inverse(rules[id := st], index[st.key := id])
  {
  }

  lemma PutKeepsMirror(t: Table, id: Id, st: Stored)
    requires Inverse(t.rules, t.index) && Mirrors(t) && id !in t.rules && st.key !in t.index
    ensures Mirrors(Put(t, id, st))
  {
    hide ValueOf, ComboType;
  }

  lemma PutKeepsInv(t: Table, id: Id, st: Stored)
    requires TableInv(t) && id !in t.rules && st.key !in t.index && ValidCombo(ComboType(st.key))
    ensures TableInv(Put(t, id, st))
    ensures |Put(t, id, st).rules| == |t.rules| + 1
  {
    hide ValueOf, ComboType, Inverse, Mirrors;
    PutKeepsInverse(t.rules, t.index, id, st);
    PutKeepsMirror(t, id, st);
    var t' := Put(t, id, st);
    forall c | 0 <= c < 64
      ensures t'.combo[c] == |OfCombo(t'.rules, c)|
    {
      PutCounts(t.rules, id, st, c);
    }
  }

  lemma DropKeepsInverse(rules: map<Id, Stored>, index: map<Key, Id>, id: Id)
    requires Inverse(rules, index) && id in rules
    ensures Inverse(rules - {id}, index - {rules[id].key})
  {
  }

  lemma DropKeepsMirror(t: Table, id: Id)
    requires Inverse(t.rules, t.index) && Mirrors(t) && id in t.rules
    ensures Mirrors(Drop(t, id))
  {
    hide ValueOf, ComboType;
  }

  lemma DropKeepsInv(t: Table, id: Id)
    requires TableInv(t) && id in t.rules
    ensures TableInv(Drop(t, id))
    ensures |Drop(t, id).rules| == |t.rules| - 1
  {
    hide ValueOf, ComboType, Inverse, Mirrors;
    DropKeepsInverse(t.rules, t.index, id);
    DropKeepsMirror(t, id);
    var t' := Drop(t, id);
    forall c | 0 <= c < 64
      ensures t'.combo[c] == |OfCombo(t'.rules, c)|
    {
      DropCounts(t.rules, id, c);
    }
    assert t.rules == t'.rules[id := t.rules[id]];
  }

  /** A key that the agent does not know is not in the map either, so that writing it with
      "must not exist" is possible; a key it knows can never be written that way again. */
  lemma ReplaceKeepsInv(t: Table, id: Id, st: Stored)
    requires TableInv(t) && ValidCombo(ComboType(st.key)) && st.key !in t.live
    ensures TableInv(Replace(t, id, st))
    ensures |Replace(t, id, st).rules| == |t.rules| + (if id in t.rules then 0 else 1)
  {
    if id in t.rules {
      DropKeepsInv(t, id);
      PutKeepsInv(Drop(t, id), id, st);
    } else {
      PutKeepsInv(t, id, st);
    }
  }

  lemma ReplacedRules(t: Table, id: Id, st: Stored)
    ensures Replace(t, id, st).rules == t.rules[id := st]
  {
    hide ComboType, ValueOf;
    assert (t.rules - {id})[id := st] == t.rules[id := st];
  }

  lemma StoredIsLive(t: Table, id: Id)
    requires TableInv(t) && id in t.rules
    ensures t.rules[id].key in t.live && t.rules[id].key in t.index
  {
  }

  lemma BumpUndone(combo: seq<int>, c: int, delta: int)
    ensures Bump(Bump(combo, c, delta), c, -delta) == combo
  {
  }

  /** Removing what was just stored gives back the table. */
  lemma DropUndoesPut(t: Table, id: Id, st: Stored)
    requires Mirrors(t) && id !in t.rules && st.key !in t.index
    ensures Drop(Put(t, id, st), id) == t
  {
    hide ValueOf, ComboType;
    BumpUndone(t.combo, ComboType(st.key), 1);
    assert t.rules[id := st] - {id} == t.rules;
    assert t.index[st.key := id] - {st.key} == t.index;
    assert t.live[st.key := ValueOf(st)] - {st.key} == t.live;
  }

  /** Storing a removed rule again gives back the table. */
  lemma PutUndoesDrop(t: Table, id: Id)
    requires Inverse(t.rules, t.index) && Mirrors(t) && id in t.rules
    ensures Put(Drop(t, id), id, t.rules[id]) == t
  {
    hide ValueOf, ComboType;
    var st := t.rules[id];
    BumpUndone(t.combo, ComboType(st.key), -1);
    assert (t.rules - {id})[id := st] == t.rules;
    assert (t.index - {st.key})[st.key := id] == t.index;
    assert (t.live - {st.key})[st.key := ValueOf(st)] == t.live;
  }

  /** The stored rules determine the reverse index, the counts and the map. */
  lemma RulesDetermineTable(t: Table, u: Table)
    requires TableInv(t) && TableInv(u) && t.rules == u.rules
    ensures t == u
  {
    hide ComboType, ValueOf;
    assert forall c :: 0 <= c < 64 ==> t.combo[c] == u.combo[c];
    assert t.index == u.index;
    forall k | k in t.live
      ensures k in u.live && t.live[k] == u.live[k]
    {
      assert t.rules[t.index[k]].key == k;
    }
    assert t.live == u.live;
  }
}
