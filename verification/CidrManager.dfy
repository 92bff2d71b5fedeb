/** Reference-counted CIDR ids and the LPM trie entries that carry them. */
module CidrManager {
  import opened Rules
  import opened Prefixes
  import opened Requests
  import opened CidrLookup
  import opened Kernel

  type Refs = map<Endpoint, nat>

  function Ref(refs: Refs, e: Endpoint): nat {
    if e in refs then refs[e] else 0
  }

  predicate Uses(st: Stored, e: Endpoint) {
    match e.dir
    case Src => st.src == Some(e.prefix)
    case Dst => st.dst == Some(e.prefix)
  }

  function UsesN(st: Stored, e: Endpoint): nat {
    if Uses(st, e) then 1 else 0
  }

  /** How many stored rules use a prefix on its side. */
  ghost function UseCount(rules: map<Id, Stored>, e: Endpoint): nat {
    |Users(rules, e)|
  }

  ghost function Users(rules: map<Id, Stored>, e: Endpoint): set<Id> {
    set id | id in rules && Uses(rules[id], e)
  }

  lemma UseCountPut(rules: map<Id, Stored>, id: Id, st: Stored, e: Endpoint)
    requires id !in rules
    ensures UseCount(rules[id := st], e) == UseCount(rules, e) + UsesN(st, e)
  {
    hide Uses;
    assert Users(rules[id := st], e) == Users(rules, e) + if Uses(st, e) then {id} else {};
  }

  lemma UseCountDrop(rules: map<Id, Stored>, id: Id, e: Endpoint)
    requires id in rules
    ensures UseCount(rules - {id}, e) + UsesN(rules[id], e) == UseCount(rules, e)
  {
    hide Uses;
    UseCountPut(rules - {id}, id, rules[id], e);
    assert (rules - {id})[id := rules[id]] == rules;
  }

  lemma UsedIsCounted(rules: map<Id, Stored>, id: Id, e: Endpoint)
    requires id in rules && Uses(rules[id], e)
    ensures UseCount(rules, e) > 0
  {
    assert id in Users(rules, e);
  }

  /** Every prefix keeps the id it has while it is known. */
  predicate Keeps(small: Trie, big: Trie) {
    forall e :: e in small ==> e in big && big[e] == small[e]
  }

  lemma KeepsJoins(ids: Trie, mid: Trie, o: Trie)
    requires Keeps(ids, mid) && Keeps(mid, o)
    ensures Keeps(ids, o)
  {
  }

  lemma KeepsSelf(ids: Trie)
    ensures Keeps(ids, ids)
  {
  }

  /** Ids are positive, below next and pairwise different; a prefix is known exactly while it
      is referenced. */
  ghost predicate Consistent(ids: Trie, refs: Refs, next: nat) {
    && refs.Keys == ids.Keys
    && next > 0
    && (forall e :: e in refs ==> refs[e] > 0)
    && (forall e :: e in ids ==> 0 < ids[e] < next)
    && (forall e, f :: e in ids && f in ids && ids[e] == ids[f] ==> e == f)
  }

  lemma ReferencedAgain(ids: Trie, refs: Refs, next: nat, e: Endpoint, n: nat)
    requires Consistent(ids, refs, next) && e in ids && n > 0
    ensures Consistent(ids, refs[e := n], next) && ids[e := ids[e]] == ids
  {
    assert refs[e := n].Keys == refs.Keys;
  }

  lemma NewPrefix(ids: Trie, refs: Refs, next: nat, e: Endpoint)
    requires Consistent(ids, refs, next) && e !in ids
    ensures Consistent(ids, refs, next + 1) && Consistent(ids[e := next], refs[e := 1], next + 1)
  {
    assert ids[e := next].Keys == refs[e := 1].Keys;
  }

  class Manager {
    const kernel: KernelMaps
    var ids: Trie
    var refs: Refs
    var nextID: nat

    /** The tries hold exactly the known ids. */
    ghost predicate Valid()
      reads this, kernel
    {
      kernel.maps.trie == ids && Consistent(ids, refs, nextID)
    }

    constructor (kernel: KernelMaps)
      requires kernel.maps.trie == map[]
      ensures this.kernel == kernel && ids == map[] && refs == map[] && nextID == 1
      ensures Valid()
    {
      this.kernel := kernel;
      ids, refs, nextID := map[], map[], 1;
    }

    /** AllocSrcID and AllocDstID: one more reference, and a fresh id for an unknown prefix.
        A failed trie write leaves ids and references alone. */
    method Alloc(e: Endpoint) returns (ok: bool, id: nat)
      requires Valid()
      modifies this, kernel
      ensures Valid() && nextID >= old(nextID)
      ensures kernel.maps == old(kernel.maps).(trie := ids)
      ensures kernel.log == old(kernel.log) || kernel.log == old(kernel.log) + [kernel.maps]
      ensures !ok ==> ids == old(ids) && refs == old(refs)
      ensures ok ==> ids == old(ids)[e := id] && refs == old(refs)[e := Ref(old(refs), e) + 1]
      ensures ok ==> if e in old(ids) then id == old(ids)[e] else id == old(nextID)
      ensures e in old(ids) || kernel.reliable ==> ok
    {
      hide Consistent;
      ManagedKeys(this);
      if e in ids {
        ReferencedAgain(ids, refs, nextID, e, refs[e] + 1);
        refs := refs[e := refs[e] + 1];
        return true, ids[e];
      }
      NewPrefix(ids, refs, nextID, e);
      id := nextID;
      nextID := nextID + 1;
      ok := kernel.PutTrie(e, id);
      if !ok {
        return false, 0;
      }
      ids := ids[e := id];
      refs := refs[e := 1];
    }

    /** ReleaseSrcID and ReleaseDstID: one reference less; the last one removes the prefix. */
    method Release(e: Endpoint)
      requires Valid() && e in ids
      modifies this, kernel
      ensures Valid() && nextID == old(nextID)
      ensures kernel.maps == old(kernel.maps).(trie := ids)
      ensures kernel.log == old(kernel.log) || kernel.log == old(kernel.log) + [kernel.maps]
      ensures refs == if old(refs)[e] == 1 then old(refs) - {e} else old(refs)[e := old(refs)[e] - 1]
      ensures ids == if old(refs)[e] == 1 then old(ids) - {e} else old(ids)
    {
      if refs[e] <= 1 {
        kernel.TryDeleteTrie(e);
        ids := ids - {e};
        refs := refs - {e};
      } else {
        refs := refs[e := refs[e] - 1];
      }
    }
  }

  lemma ManagedKeys(m: Manager)
    requires m.Valid()
    ensures m.kernel.maps.trie == m.ids && m.refs.Keys == m.ids.Keys && forall e :: e in m.refs ==> m.refs[e] > 0
  {
  }

  // ---- The prefixes of one rule ----

  function Ends(st: Stored): (ends: set<Endpoint>)
    ensures forall e :: e in ends <==> Uses(st, e)
  {
    (match st.src case Some(p) => {Endpoint(Src, p)} case None => {})
    + (match st.dst case Some(p) => {Endpoint(Dst, p)} case None => {})
  }

  /** The maps differ from o in the tries only, which lie between two given ones. */
  ghost predicate TrieBetween(m: Maps, o: Maps, low: Trie, high: Trie) {
    m == o.(trie := m.trie) && Keeps(low, m.trie) && Keeps(m.trie, high)
  }

  /** Every write since `before` left the tries between low and high and touched nothing else. */
  ghost predicate TrieLog(before: seq<Maps>, after: seq<Maps>, o: Maps, low: Trie, high: Trie) {
    && |before| <= |after| && after[..|before|] == before
    && forall i :: |before| <= i < |after| ==> TrieBetween(after[i], o, low, high)
  }

  lemma TrieLogJoins(before: seq<Maps>, mid: seq<Maps>, after: seq<Maps>, o: Maps, o': Maps,
                     low: Trie, high: Trie, low1: Trie, high1: Trie, low2: Trie, high2: Trie)
    requires TrieLog(before, mid, o, low1, high1) && TrieLog(mid, after, o', low2, high2)
    requires o' == o.(trie := o'.trie)
    requires Keeps(low, low1) && Keeps(low, low2) && Keeps(high1, high) && Keeps(high2, high)
    ensures TrieLog(before, after, o, low, high)
  {
    assert after[..|before|] == mid[..|before|];
    forall i | |before| <= i < |after|
      ensures TrieBetween(after[i], o, low, high)
    {
      if i < |mid| {
        assert after[i] == after[..|mid|][i];
      }
    }
  }

  /** The prefix of one side. */
  function SideEnds(dir: Dir, side: Option<Prefix>): set<Endpoint> {
    match side case Some(p) => {Endpoint(dir, p)} case None => {}
  }

  /** AllocSrcID or AllocDstID if the rule names a prefix on that side. */
  method AllocSide(m: Manager, dir: Dir, side: Option<Prefix>) returns (ok: bool, id: nat)
    requires m.Valid()
    modifies m, m.kernel
    ensures m.Valid() && m.nextID >= old(m.nextID)
    ensures m.kernel.maps == old(m.kernel.maps).(trie := m.ids)
    ensures TrieLog(old(m.kernel.log), m.kernel.log, old(m.kernel.maps), old(m.ids), m.ids)
    ensures !ok ==> m.ids == old(m.ids) && m.refs == old(m.refs)
    ensures ok ==> SideKeyed(side, dir, id, m.ids)
    ensures ok ==> forall e :: Ref(m.refs, e) == Ref(old(m.refs), e) + (if e in SideEnds(dir, side) then 1 else 0)
    ensures Keeps(old(m.ids), m.ids) && m.ids.Keys <= old(m.ids).Keys + SideEnds(dir, side)
    ensures ok ==> m.ids.Keys == old(m.ids).Keys + SideEnds(dir, side)
    ensures SideEnds(dir, side) <= old(m.ids).Keys || m.kernel.reliable ==> ok
  {
    hide m.Valid;
    ManagedKeys(m);
    ok, id := true, 0;
    if side.Some? {
      ok, id := m.Alloc(Endpoint(dir, side.value));
    }
  }

  /** ReleaseSrcID or ReleaseDstID if the rule names a prefix on that side. */
  method ReleaseSide(m: Manager, dir: Dir, side: Option<Prefix>)
    requires m.Valid() && SideEnds(dir, side) <= m.ids.Keys
    modifies m, m.kernel
    ensures m.Valid() && m.nextID == old(m.nextID)
    ensures m.kernel.maps == old(m.kernel.maps).(trie := m.ids)
    ensures TrieLog(old(m.kernel.log), m.kernel.log, old(m.kernel.maps), m.ids, old(m.ids))
    ensures forall e :: Ref(m.refs, e) == Ref(old(m.refs), e) - (if e in SideEnds(dir, side) then 1 else 0)
    ensures Keeps(m.ids, old(m.ids))
  {
    hide m.Valid;
    ManagedKeys(m);
    if side.Some? {
      m.Release(Endpoint(dir, side.value));
    }
  }

  lemma EndsBySide(st: Stored)
    ensures Ends(st) == SideEnds(Src, st.src) + SideEnds(Dst, st.dst)
  {
  }

  lemma UsesBySide(st: Stored, e: Endpoint)
    ensures UsesN(st, e) ==
              (if e in SideEnds(Src, st.src) then 1 else 0) + (if e in SideEnds(Dst, st.dst) then 1 else 0)
  {
  }

  /** Equal reference counts and agreeing ids: the same manager contents. */
  lemma SameContents(ids: Trie, refs: Refs, ids': Trie, refs': Refs)
    requires ids.Keys == refs.Keys && ids'.Keys == refs'.Keys
    requires (forall e :: e in refs ==> refs[e] > 0) && (forall e :: e in refs' ==> refs'[e] > 0)
    requires forall e :: Ref(refs, e) == Ref(refs', e)
    requires forall e :: e in ids && e in ids' ==> ids[e] == ids'[e]
    ensures ids == ids' && refs == refs'
  {
    forall e
      ensures e in refs <==> e in refs'
      ensures e in refs ==> refs[e] == refs'[e]
    {
      assert Ref(refs, e) == Ref(refs', e);
    }
  }

  lemma ProperIds(m: Manager)
    requires m.Valid()
    ensures TrieIds(m.ids)
  {
  }

  /** A reference on the prefix of each side that the rule names. If the second one fails the
      first is given back, so that a failure leaves ids and references as they were. */
  method AllocPair(m: Manager, st: Stored) returns (ok: bool, srcID: nat, dstID: nat, ghost peak: Trie)
    requires m.Valid()
    modifies m, m.kernel
    ensures m.Valid() && m.nextID >= old(m.nextID)
    ensures m.kernel.maps == old(m.kernel.maps).(trie := m.ids)
    ensures !ok ==> m.ids == old(m.ids) && m.refs == old(m.refs)
    ensures Ends(st) <= old(m.ids).Keys || m.kernel.reliable ==> ok
    ensures ok ==> SideKeyed(st.src, Src, srcID, m.ids) && SideKeyed(st.dst, Dst, dstID, m.ids) && peak == m.ids
    ensures ok ==> forall e :: Ref(m.refs, e) == Ref(old(m.refs), e) + UsesN(st, e)
    ensures Keeps(old(m.ids), m.ids) && Keeps(m.ids, peak) && peak.Keys <= old(m.ids).Keys + Ends(st) && TrieIds(peak)
    ensures TrieLog(old(m.kernel.log), m.kernel.log, old(m.kernel.maps), old(m.ids), peak)
  {
    hide TrieLog, TrieIds, Keeps, Ends, SideEnds, SideKeyed, UsesN, m.Valid;
    srcID, dstID := 0, 0;
    ManagedKeys(m);
    EndsBySide(st);
    ghost var o, ids0, log0 := m.kernel.maps, m.ids, m.kernel.log;
    ok, srcID := AllocSide(m, Src, st.src);
    peak := m.ids;
    ProperIds(m);
    KeepsSelf(ids0);
    KeepsSelf(peak);
    if !ok { return; }
    ghost var o1, ids1, log1 := m.kernel.maps, m.ids, m.kernel.log;
    ok, dstID := AllocSide(m, Dst, st.dst);
    peak := m.ids;
    ProperIds(m);
    KeepsSelf(ids1);
    KeepsSelf(peak);
    KeepsJoins(ids0, ids1, peak);
    ghost var o2, log2 := m.kernel.maps, m.kernel.log;
    TrieLogJoins(log0, log1, log2, o, o1, ids0, peak, ids0, ids1, ids1, peak);
    if ok {
      SideStays(st.src, Src, srcID, ids1, peak);
      forall e ensures Ref(m.refs, e) == Ref(old(m.refs), e) + UsesN(st, e) {
        UsesBySide(st, e);
      }
    } else {
      ReleaseSide(m, Src, st.src);
      Agree(ids0, m.ids, peak);
      ManagedKeys(m);
      forall e ensures Ref(m.refs, e) == Ref(old(m.refs), e) {}
      SameContents(m.ids, m.refs, ids0, old(m.refs));
      TrieLogJoins(log0, log2, m.kernel.log, o, o2, ids0, peak, ids0, peak, m.ids, peak);
    }
  }

  lemma SideStays(side: Option<Prefix>, dir: Dir, id: nat, ids: Trie, more: Trie)
    requires SideKeyed(side, dir, id, ids) && Keeps(ids, more)
    ensures SideKeyed(side, dir, id, more)
  {
  }

  lemma Agree(ids: Trie, ids': Trie, peak: Trie)
    requires Keeps(ids, peak) && Keeps(ids', peak)
    ensures forall e :: e in ids && e in ids' ==> ids[e] == ids'[e]
  {
  }

  /** The references of one rule are given back. */
  method ReleasePair(m: Manager, st: Stored)
    requires m.Valid() && Ends(st) <= m.ids.Keys
    modifies m, m.kernel
    ensures m.Valid() && m.nextID == old(m.nextID)
    ensures m.kernel.maps == old(m.kernel.maps).(trie := m.ids)
    ensures forall e :: Ref(m.refs, e) == Ref(old(m.refs), e) - UsesN(st, e)
    ensures Keeps(m.ids, old(m.ids))
    ensures TrieLog(old(m.kernel.log), m.kernel.log, old(m.kernel.maps), m.ids, old(m.ids))
  {
    hide TrieLog;
    ghost var o, ids0, log0 := m.kernel.maps, m.ids, m.kernel.log;
    ReleaseSide(m, Src, st.src);
    ghost var o1, ids1, log1 := m.kernel.maps, m.ids, m.kernel.log;
    assert forall e :: e in SideEnds(Dst, st.dst) ==> Ref(m.refs, e) == Ref(old(m.refs), e);
    ReleaseSide(m, Dst, st.dst);
    TrieLogJoins(log0, log1, m.kernel.log, o, o1, m.ids, ids0, ids1, ids0, m.ids, ids1);
    forall e ensures Ref(m.refs, e) == Ref(old(m.refs), e) - UsesN(st, e) {
      hide SideEnds, UsesN;
      UsesBySide(st, e);
    }
  }

  // ---- Conservation ----

  /** The references held on each prefix are the stored CIDR rules that use it. */
  ghost predicate RefsConserved(refs: Refs, cidr: map<Id, Stored>) {
    forall e :: Ref(refs, e) == UseCount(cidr, e)
  }

  /** Giving back the references of a rule that is removed keeps the count exact, and every
      prefix of the remaining rules keeps its id. */
  lemma ReleaseConserves(rules: map<Id, Stored>, id: Id, ids: Trie, refs: Refs, ids': Trie, refs': Refs)
    requires id in rules && AllKeyed(rules, ids) && RefsConserved(refs, rules)
    requires forall e :: Ref(refs', e) == Ref(refs, e) - UsesN(rules[id], e)
    requires Keeps(ids', ids) && ids'.Keys == refs'.Keys
    ensures RefsConserved(refs', rules - {id})
    ensures AllKeyed(rules - {id}, ids')
  {
    hide UseCount, Users, UsesN;
    forall e ensures Ref(refs', e) == UseCount(rules - {id}, e) {
      UseCountDrop(rules, id, e);
    }
    UsedStayKeyed(rules - {id}, ids, ids', refs');
  }

  lemma UsedStayKeyed(rules: map<Id, Stored>, ids: Trie, ids': Trie, refs': Refs)
    requires AllKeyed(rules, ids) && RefsConserved(refs', rules)
    requires Keeps(ids', ids) && ids'.Keys == refs'.Keys
    ensures AllKeyed(rules, ids')
  {
    hide UseCount, Users;
    forall id | id in rules ensures Keyed(rules[id], ids') {
      forall e | Uses(rules[id], e) ensures e in ids' {
        UsedIsCounted(rules, id, e);
      }
      var st := rules[id];
      if st.src.Some? { assert Uses(st, Endpoint(Src, st.src.value)); }
      if st.dst.Some? { assert Uses(st, Endpoint(Dst, st.dst.value)); }
    }
  }

  lemma KeyedEnds(st: Stored, ids: Trie)
    requires Keyed(st, ids)
    ensures Ends(st) <= ids.Keys
  {
  }
}
