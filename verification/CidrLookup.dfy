/** The two-stage CIDR lookup: longest prefix match of each address to an id, then the gated
    probes on the ids; and what it refines, matching the stored prefixes directly. */
module CidrLookup {
  import opened Rules
  import opened Prefixes
  import opened Bits
  import opened Combo
  import opened Lookup
  import opened Requests
  import opened RuleTable

  datatype Dir = Src | Dst

  /** A prefix on the source or on the destination side. The four LPM tries (two sides, two
      families) are one map from endpoints to ids. */
  datatype Endpoint = Endpoint(dir: Dir, prefix: Prefix)

  type Trie = map<Endpoint, nat>

  /** The parsed packet: its five-tuple with 16-byte addresses as numbers, the addresses as
      the tries see them, L3 length and TCP flags. */
  datatype Packet = Packet(key: Key, src: Address, dst: Address, len: nat, flags: set<Flag>)

  /** Longest prefix match among the prefixes of at most n bits; 0 if there is none. */
  function LpmFrom(trie: Trie, dir: Dir, a: Address, n: nat): nat
    requires n <= |a.bits|
  {
    var e := Endpoint(dir, Net(a.v6, a.bits[..n]));
    if e in trie then trie[e]
    else if n == 0 then 0
    else LpmFrom(trie, dir, a, n - 1)
  }

  function Lpm(trie: Trie, dir: Dir, a: Address): nat {
    LpmFrom(trie, dir, a, |a.bits|)
  }

  function CidrKey(trie: Trie, p: Packet): Key {
    Key(Lpm(trie, Src, p.src), Lpm(trie, Dst, p.dst), p.key.sport, p.key.dport, p.key.proto)
  }

  /** Both stages; skipped when neither address has an id. */
  function CidrSearch(trie: Trie, live: map<Key, RuleValue>, count: nat, bitmap: nat, p: Packet,
                      mode: Mode): Option<Key> {
    var k := CidrKey(trie, p);
    if k.src == 0 && k.dst == 0 then None
    else LookupRule(live, count, bitmap, k, Meta(p.len, p.flags, mode))
  }

  // ---- The plain question ----

  predicate SideMatches(side: Option<Prefix>, a: Address) {
    side.Some? ==> Contains(side.value, a)
  }

  /** The stored exact rule matches the packet: every field of its key is 0 or the packet's, and
      the post-match tests. */
  predicate ExactMatch(st: Stored, p: Packet, mode: Mode) {
    WildMatches(st.key, p.key) && PostMatch(ValueOf(st), p.key.proto, Meta(p.len, p.flags, mode))
  }

  /** The stored CIDR rule matches the packet: addresses in its prefixes, ports and protocol
      equal or wildcard, and the post-match tests. */
  predicate DirectMatch(st: Stored, p: Packet, mode: Mode) {
    && SideMatches(st.src, p.src)
    && SideMatches(st.dst, p.dst)
    && (st.key.sport == 0 || st.key.sport == p.key.sport)
    && (st.key.dport == 0 || st.key.dport == p.key.dport)
    && (st.key.proto == 0 || st.key.proto == p.key.proto)
    && PostMatch(ValueOf(st), p.key.proto, Meta(p.len, p.flags, mode))
  }

  // ---- What makes the two agree ----

  ghost predicate Disjoint(ends: set<Endpoint>) {
    forall e, f :: e in ends && f in ends && e.dir == f.dir && e != f ==> !ShareAddress(e.prefix, f.prefix)
  }

  /** Ids are never 0 and never shared by two prefixes of one side. */
  ghost predicate TrieIds(trie: Trie) {
    && (forall e :: e in trie ==> trie[e] != 0)
    && (forall e, f :: e in trie && f in trie && e.dir == f.dir && trie[e] == trie[f] ==> e == f)
  }

  predicate SideKeyed(side: Option<Prefix>, dir: Dir, id: nat, trie: Trie) {
    match side
    case None => id == 0
    case Some(p) => Endpoint(dir, p) in trie && id == trie[Endpoint(dir, p)]
  }

  /** The rule names a prefix, and its key carries the ids of its prefixes. */
  predicate Keyed(st: Stored, trie: Trie) {
    && (st.src.Some? || st.dst.Some?)
    && SideKeyed(st.src, Src, st.key.src, trie)
    && SideKeyed(st.dst, Dst, st.key.dst, trie)
  }

  ghost predicate AllKeyed(rules: map<Id, Stored>, trie: Trie) {
    forall id :: id in rules ==> Keyed(rules[id], trie)
  }

  /** The found id belongs to a prefix that contains the address, or there is none such. */
  lemma {:induction false} LpmSound(trie: Trie, dir: Dir, a: Address, n: nat)
    requires n <= |a.bits| && TrieIds(trie)
    ensures LpmFrom(trie, dir, a, n) != 0 ==>
              exists e :: e in trie && e.dir == dir && Contains(e.prefix, a) && trie[e] == LpmFrom(trie, dir, a, n)
  {
    var e := Endpoint(dir, Net(a.v6, a.bits[..n]));
    if e in trie {
      assert Contains(e.prefix, a);
    } else if n > 0 {
      LpmSound(trie, dir, a, n - 1);
    }
  }

  /** It is the longest one: no longer prefix of the side contains the address. */
  lemma {:induction false} LpmLongest(trie: Trie, dir: Dir, a: Address, n: nat, e: Endpoint)
    requires n <= |a.bits| && e in trie && e.dir == dir && Contains(e.prefix, a) && |e.prefix.bits| <= n
    requires TrieIds(trie)
    ensures exists f :: f in trie && f.dir == dir && Contains(f.prefix, a) && |f.prefix.bits| >= |e.prefix.bits|
                        && LpmFrom(trie, dir, a, n) == trie[f]
  {
    var f := Endpoint(dir, Net(a.v6, a.bits[..n]));
    if f in trie {
      assert Contains(f.prefix, a);
    } else {
      assert |e.prefix.bits| == n ==> e == f;
      LpmLongest(trie, dir, a, n - 1, e);
    }
  }

  /** With pairwise disjoint prefixes, the match is the id of any prefix that contains it. */
  lemma LpmOfDisjoint(trie: Trie, dir: Dir, a: Address, e: Endpoint)
    requires TrieIds(trie) && Disjoint(trie.Keys)
    requires e in trie && e.dir == dir && Contains(e.prefix, a)
    ensures Lpm(trie, dir, a) == trie[e]
  {
    LpmLongest(trie, dir, a, |a.bits|, e);
    var f :| f in trie && f.dir == dir && Contains(f.prefix, a) && Lpm(trie, dir, a) == trie[f];
    assert e in trie.Keys && f in trie.Keys;
    assert e != f ==> ShareAddress(e.prefix, f.prefix);
  }

  /** One side: the stored id is wildcard or the packet's exactly when the prefix matches. */
  lemma SideAgrees(trie: Trie, side: Option<Prefix>, dir: Dir, id: nat, a: Address)
    requires TrieIds(trie) && SideKeyed(side, dir, id, trie)
    ensures id == 0 || id == Lpm(trie, dir, a) ==> SideMatches(side, a)
    ensures Disjoint(trie.Keys) && SideMatches(side, a) ==> id == 0 || id == Lpm(trie, dir, a)
    ensures side.Some? ==> id != 0
  {
    LpmSound(trie, dir, a, |a.bits|);
    if side.Some? && Contains(side.value, a) && Disjoint(trie.Keys) {
      LpmOfDisjoint(trie, dir, a, Endpoint(dir, side.value));
    }
  }

  lemma KeyMatchIsDirect(trie: Trie, t: Table, id: Id, p: Packet, mode: Mode)
    requires TrieIds(trie) && TableInv(t) && id in t.rules && Keyed(t.rules[id], trie)
    ensures Matches(t.live, CidrKey(trie, p), Meta(p.len, p.flags, mode), t.rules[id].key) ==>
              DirectMatch(t.rules[id], p, mode)
    ensures Disjoint(trie.Keys) && DirectMatch(t.rules[id], p, mode) ==>
              Matches(t.live, CidrKey(trie, p), Meta(p.len, p.flags, mode), t.rules[id].key)
    ensures WildMatches(t.rules[id].key, CidrKey(trie, p)) ==> CidrKey(trie, p).src != 0 || CidrKey(trie, p).dst != 0
  {
    hide ValueOf, PostMatch, Lpm, Disjoint, ComboType, ShareAddress;
    var st := t.rules[id];
    SideAgrees(trie, st.src, Src, st.key.src, p.src);
    SideAgrees(trie, st.dst, Dst, st.key.dst, p.dst);
  }

  ghost predicate SomeDirectMatch(rules: map<Id, Stored>, p: Packet, mode: Mode) {
    exists id :: id in rules && DirectMatch(rules[id], p, mode)
  }

  /** The two-stage lookup refines direct matching. Whatever it finds is a stored rule that
      matches; and when the prefixes of each side are pairwise disjoint it finds a rule exactly
      when some stored rule matches. */
  lemma CidrSearchRefines(trie: Trie, t: Table, count: nat, bitmap: nat, p: Packet, mode: Mode)
    requires TrieIds(trie) && TableInv(t) && AllKeyed(t.rules, trie)
    requires GateCovers(count, bitmap, t.live.Keys)
    ensures var r := CidrSearch(trie, t.live, count, bitmap, p, mode);
            r.Some? ==> r.value in t.index && DirectMatch(t.rules[t.index[r.value]], p, mode)
    ensures Disjoint(trie.Keys) ==>
              (CidrSearch(trie, t.live, count, bitmap, p, mode).Some? <==> SomeDirectMatch(t.rules, p, mode))
  {
    hide ValueOf, PostMatch, DirectMatch, Lpm, Disjoint, GateCovers, LookupRule, ComboType;
    var k, meta := CidrKey(trie, p), Meta(p.len, p.flags, mode);
    LookupRefinesMatch(t.live, count, bitmap, k, meta);
    var r := CidrSearch(trie, t.live, count, bitmap, p, mode);
    if r.Some? {
      KeyMatchIsDirect(trie, t, t.index[r.value], p, mode);
    }
    if SomeDirectMatch(t.rules, p, mode) && Disjoint(trie.Keys) {
      var id :| id in t.rules && DirectMatch(t.rules[id], p, mode);
      KeyMatchIsDirect(trie, t, id, p, mode);
      assert Matches(t.live, k, meta, t.rules[id].key);
    }
  }

  // ---- Disjointness is needed exactly ----

  /** The lookup misses no direct match, for any table keyed by this trie and any packet. */
  ghost predicate Complete(trie: Trie, mode: Mode) {
    forall t: Table, count: nat, bitmap: nat, p: Packet ::
      TableInv(t) && AllKeyed(t.rules, trie) && GateCovers(count, bitmap, t.live.Keys) &&
      SomeDirectMatch(t.rules, p, mode) ==>
        CidrSearch(trie, t.live, count, bitmap, p, mode).Some?
  }

  /** A drop rule on one prefix, with nothing else set. */
  function OneSided(e: Endpoint, id: nat, mode: Mode): Stored {
    if e.dir == Src then Stored(Key(id, 0, 0, 0, 0), Some(e.prefix), None, "drop", 0, 0, 0, "", BitsFor(mode))
    else Stored(Key(0, id, 0, 0, 0), None, Some(e.prefix), "drop", 0, 0, 0, "", BitsFor(mode))
  }

  lemma OneSidedValue(e: Endpoint, id: nat, mode: Mode)
    ensures ValueOf(OneSided(e, id, mode)) == DropAll(mode)
  {
  }

  lemma OneRuleTable(e: Endpoint, id: nat, mode: Mode)
    requires id != 0
    ensures var st, t := OneSided(e, id, mode), Put(EMPTY, "r", OneSided(e, id, mode));
            && ComboType(st.key) >= 0 && TableInv(t)
            && t.rules == map["r" := st] && t.live == map[st.key := DropAll(mode)]
            && GateCovers(1, Pow2(ComboType(st.key)), t.live.Keys)
  {
    hide ValueOf;
    var st := OneSided(e, id, mode);
    OneSidedValue(e, id, mode);
    EmptyInv();
    PutKeepsInv(EMPTY, "r", st);
    AddHighBit(0, ComboType(st.key), ComboType(st.key));
  }

  /** The address of a longer prefix never gets the id of a shorter one. */
  lemma LongerWins(trie: Trie, e: Endpoint, f: Endpoint)
    requires TrieIds(trie) && e in trie && f in trie && e.dir == f.dir
    requires |e.prefix.bits| < |f.prefix.bits|
    ensures Lpm(trie, e.dir, NetworkIP(f.prefix)) != trie[e]
  {
    hide LpmFrom;
    var a := NetworkIP(f.prefix);
    assert Contains(f.prefix, a);
    LpmLongest(trie, e.dir, a, |a.bits|, f);
  }

  /** With overlapping prefixes a rule on the shorter one is missed for some packet. */
  lemma OverlapMisses(trie: Trie, e: Endpoint, f: Endpoint, mode: Mode)
    requires Alive(mode)
    requires TrieIds(trie) && e in trie && f in trie && e.dir == f.dir && e != f
    requires e.prefix.v6 == f.prefix.v6 && e.prefix.bits <= f.prefix.bits
    ensures !Complete(trie, mode)
  {
    hide ValueOf, PostMatch, LookupRule, Lpm, TableInv, Put, ComboType, GateCovers;
    var st, t := OneSided(e, trie[e], mode), Put(EMPTY, "r", OneSided(e, trie[e], mode));
    OneRuleTable(e, trie[e], mode);
    LongerWins(trie, e, f);
    var a := NetworkIP(f.prefix);
    var p := Packet(Key(0, 0, 0, 0, 0), a, a, 0, {});
    assert t.rules["r"] == st;
    assert DirectMatch(st, p, mode) by {
      OneSidedValue(e, trie[e], mode);
      DropAllMatches(0, Meta(0, {}, mode));
      assert Contains(e.prefix, a);
    }
    assert SomeDirectMatch(t.rules, p, mode);
    LookupIsSound(t.live, 1, Pow2(ComboType(st.key)), CidrKey(trie, p), Meta(0, {}, mode));
    assert CidrSearch(trie, t.live, 1, Pow2(ComboType(st.key)), p, mode).None?;
  }

  lemma DeadModeMatchesNothing(rules: map<Id, Stored>, p: Packet, mode: Mode)
    requires !Alive(mode)
    ensures !SomeDirectMatch(rules, p, mode)
  {
  }

  /** The lookup is complete for every table and packet exactly when the trie's prefixes are
      pairwise disjoint on each side (or no anomaly is looked for, so that nothing can match). */
  lemma CompleteIffDisjoint(trie: Trie, mode: Mode)
    requires TrieIds(trie)
    ensures Complete(trie, mode) <==> Disjoint(trie.Keys) || !Alive(mode)
  {
    hide CidrSearch, SomeDirectMatch;
    if Disjoint(trie.Keys) || !Alive(mode) {
      forall t: Table, count: nat, bitmap: nat, p: Packet
        | TableInv(t) && AllKeyed(t.rules, trie) && GateCovers(count, bitmap, t.live.Keys)
          && SomeDirectMatch(t.rules, p, mode)
        ensures CidrSearch(trie, t.live, count, bitmap, p, mode).Some?
      {
        if Alive(mode) {
          CidrSearchRefines(trie, t, count, bitmap, p, mode);
        } else {
          DeadModeMatchesNothing(t.rules, p, mode);
        }
      }
    } else {
      var e, f :| e in trie.Keys && f in trie.Keys && e.dir == f.dir && e != f && ShareAddress(e.prefix, f.prefix);
      ShareIffNested(e.prefix, f.prefix);
      if e.prefix.bits <= f.prefix.bits {
        OverlapMisses(trie, e, f, mode);
      } else {
        OverlapMisses(trie, f, e, mode);
      }
    }
  }
}
