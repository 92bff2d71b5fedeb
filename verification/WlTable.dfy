/** The whitelist tables of the agent and the whitelist map that must hold exactly their keys. */
module WlTable {
  import opened Rules
  import opened Combo
  import opened RuleTable

  datatype WlTable = WlTable(entries: map<Id, Key>, index: map<Key, Id>, combo: seq<int>, live: set<Key>)

  ghost function KeysOfCombo(entries: map<Id, Key>, c: int): set<Id> {
    set id | id in entries && ComboType(entries[id]) == c
  }

  ghost predicate WlInverse(entries: map<Id, Key>, index: map<Key, Id>) {
    && (forall id :: id in entries ==> entries[id] in index && index[entries[id]] == id)
    && (forall k :: k in index ==> index[k] in entries && entries[index[k]] == k)
  }

  ghost predicate WlCounted(entries: map<Id, Key>, combo: seq<int>) {
    && |combo| == 64
    && forall c :: 0 <= c < 64 ==> combo[c] == |KeysOfCombo(entries, c)|
  }

  ghost predicate WlUsable(entries: map<Id, Key>) {
    forall id :: id in entries ==> ValidCombo(ComboType(entries[id]))
  }

  ghost predicate WlInv(w: WlTable) {
    WlInverse(w.entries, w.index) && WlCounted(w.entries, w.combo) && w.live == w.index.Keys && WlUsable(w.entries)
  }

  const WL_EMPTY := WlTable(map[], map[], NO_COUNTS, {})

  function WlPut(w: WlTable, id: Id, k: Key): WlTable {
    WlTable(w.entries[id := k], w.index[k := id], Bump(w.combo, ComboType(k), 1), w.live + {k})
  }

  function WlDrop(w: WlTable, id: Id): WlTable
    requires id in w.entries
  {
    var k := w.entries[id];
    WlTable(w.entries - {id}, w.index - {k}, Bump(w.combo, ComboType(k), -1), w.live - {k})
  }

  /** Whitelisting a key under an id that may already hold another one. */
  function WlReplace(w: WlTable, id: Id, k: Key): WlTable {
    WlPut(if id in w.entries then WlDrop(w, id) else w, id, k)
  }

  lemma WlPutCounts(entries: map<Id, Key>, id: Id, k: Key, c: int)
    requires id !in entries
    ensures |KeysOfCombo(entries[id := k], c)| == |KeysOfCombo(entries, c)| + (if ComboType(k) == c then 1 else 0)
  {
    hide ComboType;
    assert KeysOfCombo(entries[id := k], c) == KeysOfCombo(entries, c) + if ComboType(k) == c then {id} else {};
  }

  lemma WlDropCounts(entries: map<Id, Key>, id: Id, c: int)
    requires id in entries
    ensures |KeysOfCombo(entries - {id}, c)| ==
              |KeysOfCombo(entries, c)| - (if ComboType(entries[id]) == c then 1 else 0)
  {
    hide ComboType;
    WlPutCounts(entries - {id}, id, entries[id], c);
    assert (entries - {id})[id := entries[id]] == entries;
  }

  lemma WlPutKeepsInv(w: WlTable, id: Id, k: Key)
    requires WlInv(w) && id !in w.entries && k !in w.live && ValidCombo(ComboType(k))
    ensures WlInv(WlPut(w, id, k))
  {
    hide ComboType;
    var w' := WlPut(w, id, k);
    forall c | 0 <= c < 64
      ensures w'.combo[c] == |KeysOfCombo(w'.entries, c)|
    {
      WlPutCounts(w.entries, id, k, c);
    }
  }

  lemma WlDropKeepsInv(w: WlTable, id: Id)
    requires WlInv(w) && id in w.entries
    ensures WlInv(WlDrop(w, id))
  {
    hide ComboType;
    var w' := WlDrop(w, id);
    forall c | 0 <= c < 64
      ensures w'.combo[c] == |KeysOfCombo(w'.entries, c)|
    {
      WlDropCounts(w.entries, id, c);
    }
  }

  lemma WlReplaceKeepsInv(w: WlTable, id: Id, k: Key)
    requires WlInv(w) && k !in w.live && ValidCombo(ComboType(k))
    ensures WlInv(WlReplace(w, id, k))
  {
    if id in w.entries {
      WlDropKeepsInv(w, id);
      WlPutKeepsInv(WlDrop(w, id), id, k);
    } else {
      WlPutKeepsInv(w, id, k);
    }
  }

  /** The entries determine everything else. */
  lemma WlDetermined(w: WlTable, x: WlTable)
    requires WlInv(w) && WlInv(x) && w.entries == x.entries
    ensures w == x
  {
    hide ComboType;
    assert forall c :: 0 <= c < 64 ==> w.combo[c] == x.combo[c];
    forall k
      ensures k in w.index <==> k in x.index
      ensures k in w.index ==> w.index[k] == x.index[k]
    {
    }
    assert w.index == x.index;
  }
}
