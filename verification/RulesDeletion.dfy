/** rules_mutation.go: deleting rules one by one and in batches. */
module RulesDeletion {
  import opened Rules
  import opened Combo
  import opened Requests
  import opened RuleTable
  import opened WlTable
  import opened CidrLookup
  import opened Kernel
  import opened CidrManager
  import opened Handlers
  import opened AgentConfig

  datatype DeleteOutcome = Deleted | NotFound | DeleteFailed

  /** The map entry and the memory of one exact rule, without a publish. */
  method RemoveExact(h: Handlers, id: Id) returns (ok: bool)
    requires h.Sound() && AgentInv(h.State()) && id in h.rules
    modifies h`rules, h`ruleKeyIndex, h`comboRefCount, h.kernel
    ensures h.Sound() && AgentInv(h.State()) && h.Config() == old(h.Config())
    ensures h.State() == if ok then old(h.State()).(exact := Drop(old(h.Exact()), id)) else old(h.State())
    ensures ok ==> |h.rules| + 1 == |old(h.rules)|
    ensures h.kernel.reliable ==> ok
  {
    hide ComboType, ValueOf, h.Sound, TableInv, WlInv, AllKeyed, RefsConserved;
    var key := h.rules[id].key;
    ghost var t := h.Exact();
    StoredIsLive(t, id);
    ok := h.kernel.DeleteRule(h.activeRuleSlot, key);
    if ok {
      h.comboRefCount := Bump(h.comboRefCount, ComboType(key), -1);
      h.ruleKeyIndex := h.ruleKeyIndex - {key};
      h.rules := h.rules - {id};
      DropKeepsInv(t, id);
    }
    OnlyExactChanged(h);
  }

  /** The map entry and the memory of one CIDR rule, and its references, without a publish. */
  method RemoveCidr(h: Handlers, id: Id) returns (ok: bool)
    requires h.Sound() && AgentInv(h.State()) && id in h.cidrRules
    modifies h`cidrRules, h`cidrRuleKeyIndex, h`cidrComboRefCount, h.kernel, h.cidrMgr
    ensures h.Sound() && AgentInv(h.State()) && h.Config() == old(h.Config())
    ensures ok ==> h.Cidr() == Drop(old(h.Cidr()), id) && Keeps(h.cidrMgr.ids, old(h.cidrMgr.ids))
    ensures h.State() == if ok then old(h.State()).(cidr := h.Cidr(), ids := h.cidrMgr.ids, refs := h.cidrMgr.refs)
                         else old(h.State())
    ensures ok ==> |h.cidrRules| + 1 == |old(h.cidrRules)|
    ensures h.kernel.reliable ==> ok
  {
    hide ComboType, ValueOf, AgentInv, UsesN, TrieLog, Ends, h.Sound, Consistent, Keeps;
    SoundParts(h);
    var stored := h.cidrRules[id];
    ghost var a := h.State();
    CidrRuleHoldsEnds(a, id);
    ok := h.kernel.DeleteCidrRule(h.activeRuleSlot, stored.key);
    if ok {
      h.cidrComboRefCount := Bump(h.cidrComboRefCount, ComboType(stored.key), -1);
      h.cidrRuleKeyIndex := h.cidrRuleKeyIndex - {stored.key};
      h.cidrRules := h.cidrRules - {id};
      ReleasePair(h.cidrMgr, stored);
    }
    if ok {
      ManagedKeys(h.cidrMgr);
    }
    OnlyCidrChanged(h);
    if ok {
      CidrRuleDropped(a, id, h.cidrMgr.ids, h.cidrMgr.refs);
    }
  }

  lemma CidrRuleHoldsEnds(a: Agent, id: Id)
    requires AgentInv(a) && id in a.cidr.rules
    ensures Ends(a.cidr.rules[id]) <= a.ids.Keys && a.cidr.rules[id].key in a.cidr.live
  {
    StoredIsLive(a.cidr, id);
    KeyedEnds(a.cidr.rules[id], a.ids);
  }

  /** A CIDR rule is taken out of the tables and its references are given back. */
  lemma CidrRuleDropped(a: Agent, id: Id, ids': Trie, refs': Refs)
    requires AgentInv(a) && id in a.cidr.rules
    requires forall e :: Ref(refs', e) == Ref(a.refs, e) - UsesN(a.cidr.rules[id], e)
    requires Keeps(ids', a.ids) && ids'.Keys == refs'.Keys
    ensures AgentInv(a.(cidr := Drop(a.cidr, id), ids := ids', refs := refs'))
    ensures |Drop(a.cidr, id).rules| + 1 == |a.cidr.rules|
  {
    hide TableInv, WlInv, AllKeyed, RefsConserved, Ref, UsesN, Keeps, Bump, ComboType;
    DropKeepsInv(a.cidr, id);
    ReleaseConserves(a.cidr.rules, id, a.ids, a.refs, ids', refs');
  }

  /** The publish after a deletion, whose error is ignored: the words in force cover what is left
      in any case, and describe it exactly after a success. */
  method PublishFewer(h: Handlers, exactCount: int, cidrCount: int, ghost o: Agent)
    requires h.Sound() && AgentInv(h.State()) && h.wlEntries == o.wl.entries
    requires Gated(h.Config(), o.exact.rules, o.cidr.rules, o.wl.entries)
    requires |h.rules| + exactCount == |o.exact.rules| && |h.cidrRules| + cidrCount == |o.cidr.rules|
    requires forall id :: id in h.rules ==> id in o.exact.rules && h.rules[id] == o.exact.rules[id]
    requires forall id :: id in h.cidrRules ==> id in o.cidr.rules && h.cidrRules[id] == o.cidr.rules[id]
    modifies h`activeSlot, h.kernel
    ensures h.Valid() && h.State() == old(h.State())
    ensures h.kernel.reliable || h.Config() != old(h.Config()) ==>
              && GatesExact(h.Config(), h.rules, h.cidrRules, h.wlEntries)
              && SameExcess(old(h.Config()), o, h.Config(), h.State())
  {
    hide h.Sound, AgentInv, GatesExact, Gated, PublishLog, SameTables, TableInv, WlInv, WlCounted, WlUsable,
         WlBitsCover, AllKeyed, RefsConserved;
    GatedCounts(h.Config(), o.exact.rules, o.cidr.rules, o.wl.entries);
    GatesShrink(h.Config(), o.exact.rules, o.cidr.rules, o.wl.entries, h.rules, h.cidrRules);
    AgentParts(h.State());
    var _ := PublishConfigUpdate(h, -exactCount, 0, -cidrCount, h.wlEntries);
  }

  /** DeleteRule: an exact rule of that id, or else a CIDR rule. A failed publish is ignored;
      the words in force then still cover what is left. */
  method DeleteRule(h: Handlers, id: Id) returns (r: DeleteOutcome)
    requires h.Valid()
    modifies h, h.kernel, h.cidrMgr
    ensures h.Valid()
    ensures r == NotFound <==> id !in old(h.rules) && id !in old(h.cidrRules)
    ensures h.kernel.reliable ==> r != DeleteFailed
    ensures r != Deleted ==> h.State() == old(h.State()) && h.Config() == old(h.Config())
    ensures r == Deleted && id in old(h.rules) ==> h.State() == old(h.State()).(exact := Drop(old(h.Exact()), id))
    ensures r == Deleted && id !in old(h.rules) ==>
              h.State() ==
              old(h.State()).(cidr := Drop(old(h.Cidr()), id), ids := h.cidrMgr.ids, refs := h.cidrMgr.refs)
              && Keeps(h.cidrMgr.ids, old(h.cidrMgr.ids))
    ensures (h.kernel.reliable && r == Deleted) || h.Config() != old(h.Config()) ==>
              && GatesExact(h.Config(), h.rules, h.cidrRules, h.wlEntries)
              && SameExcess(old(h.Config()), old(h.State()), h.Config(), h.State())
  {
    hide h.Sound, AgentInv, GatesExact, Gated, ComboType, ValueOf, SameExcess, Bump;
    ghost var o := h.State();
    if id in h.rules {
      var ok := RemoveExact(h, id);
      if !ok { return DeleteFailed; }
      PublishFewer(h, 1, 0, o);
    } else if id in h.cidrRules {
      var ok := RemoveCidr(h, id);
      if !ok { return DeleteFailed; }
      PublishFewer(h, 0, 1, o);
    } else {
      return NotFound;
    }
    r := Deleted;
  }

  /** The ids whose exact rule, and those whose CIDR rule, a batch removed. */
  datatype Gone = Gone(exact: set<Id>, cidr: set<Id>) {
    ghost function Size(): nat { |exact| + |cidr| }
  }

  /** a is o without the ids that are gone. */
  predicate Lost(o: map<Id, Stored>, a: map<Id, Stored>, gone: set<Id>) {
    a == o - gone && gone <= o.Keys && |a| + |gone| == |o|
  }

  /** a is o without the rules that are gone, which were all asked for. Because a table that
      satisfies its invariant is determined by its rules, this fixes the rule tables of a. */
  ghost predicate Shrunk(o: Agent, a: Agent, g: Gone, asked: seq<Id>) {
    && Lost(o.exact.rules, a.exact.rules, g.exact) && Lost(o.cidr.rules, a.cidr.rules, g.cidr) && a.wl == o.wl
    && (forall id :: id in g.exact + g.cidr ==> id in asked)
    && (forall id :: id in g.cidr && id in o.exact.rules ==> id in g.exact)
    && Keeps(a.ids, o.ids)
    && (g.Size() == 0 ==> a == o)
  }

  lemma LostOneMore(o: map<Id, Stored>, a: map<Id, Stored>, gone: set<Id>, id: Id)
    requires Lost(o, a, gone) && id in a
    ensures Lost(o, a - {id}, gone + {id}) && id !in gone
  {
    assert o - gone - {id} == o - (gone + {id});
    assert a.Keys == (a - {id}).Keys + {id};
  }

  lemma ShrunkByExact(o: Agent, a: Agent, g: Gone, asked: seq<Id>, id: Id)
    requires Shrunk(o, a, g, asked) && id in a.exact.rules
    ensures Shrunk(o, a.(exact := Drop(a.exact, id)), Gone(g.exact + {id}, g.cidr), asked + [id])
  {
    hide ComboType, Bump, Keeps, Lost;
    LostOneMore(o.exact.rules, a.exact.rules, g.exact, id);
  }

  lemma ShrunkByCidr(o: Agent, a: Agent, g: Gone, asked: seq<Id>, id: Id, a': Agent)
    requires Shrunk(o, a, g, asked) && id in a.cidr.rules && id !in a.exact.rules
    requires a' == a.(cidr := Drop(a.cidr, id), ids := a'.ids, refs := a'.refs) && Keeps(a'.ids, a.ids)
    ensures Shrunk(o, a', Gone(g.exact, g.cidr + {id}), asked + [id])
  {
    hide ComboType, Bump, Keeps, Lost;
    LostOneMore(o.cidr.rules, a.cidr.rules, g.cidr, id);
    KeepsJoins(a'.ids, a.ids, o.ids);
    assert id in o.exact.rules ==> id in g.exact by { NotLost(o.exact.rules, a.exact.rules, g.exact, id); }
  }

  lemma NotLost(o: map<Id, Stored>, a: map<Id, Stored>, gone: set<Id>, id: Id)
    requires Lost(o, a, gone)
    ensures id in a <==> id in o && id !in gone
  {
  }

  lemma ShrunkByNone(o: Agent, a: Agent, g: Gone, asked: seq<Id>, id: Id)
    requires Shrunk(o, a, g, asked)
    ensures Shrunk(o, a, g, asked + [id])
  {
  }

  /** Every stored rule that was asked for is gone; of an exact and a CIDR rule with one id, the
      exact one. */
  ghost predicate AllGone(o: Agent, g: Gone, asked: seq<Id>) {
    forall id :: id in asked ==>
      (id in o.exact.rules ==> id in g.exact) && (id in o.cidr.rules && id !in o.exact.rules ==> id in g.cidr)
  }

  lemma AllGoneMore(o: Agent, a: Agent, g: Gone, asked: seq<Id>, id: Id)
    requires Shrunk(o, a, g, asked) && AllGone(o, g, asked)
    ensures id in a.exact.rules ==> AllGone(o, Gone(g.exact + {id}, g.cidr), asked + [id])
    ensures id !in a.exact.rules && id in a.cidr.rules ==> AllGone(o, Gone(g.exact, g.cidr + {id}), asked + [id])
    ensures id !in a.exact.rules && id !in a.cidr.rules ==> AllGone(o, g, asked + [id])
  {
    hide Keeps, Lost;
    NotLost(o.exact.rules, a.exact.rules, g.exact, id);
    NotLost(o.cidr.rules, a.cidr.rules, g.cidr, id);
  }

  /** One step of the batch loop. */
  method RemoveAny(h: Handlers, id: Id, ghost o: Agent, ghost gone: Gone, ghost asked: seq<Id>)
    returns (exact: bool, cidr: bool, ghost gone': Gone)
    requires h.Sound() && AgentInv(h.State()) && Shrunk(o, h.State(), gone, asked)
    modifies h`rules, h`ruleKeyIndex, h`comboRefCount, h`cidrRules, h`cidrRuleKeyIndex, h`cidrComboRefCount,
             h.kernel, h.cidrMgr
    ensures h.Sound() && AgentInv(h.State()) && h.Config() == old(h.Config())
    ensures Shrunk(o, h.State(), gone', asked + [id])
    ensures !(exact && cidr)
    ensures |gone'.exact| == |gone.exact| + (if exact then 1 else 0)
    ensures |gone'.cidr| == |gone.cidr| + (if cidr then 1 else 0)
    ensures h.kernel.reliable && AllGone(o, gone, asked) ==> AllGone(o, gone', asked + [id])
  {
    hide h.Sound, AgentInv, ComboType, ValueOf, Shrunk, Keeps, AllGone;
    exact, cidr, gone' := false, false, gone;
    ghost var a := h.State();
    NotGoneYet(o, a, gone, asked, id);
    ShrunkByNone(o, a, gone, asked, id);
    if AllGone(o, gone, asked) {
      AllGoneMore(o, a, gone, asked, id);
    }
    if id in h.rules {
      exact := RemoveExact(h, id);
      if exact {
        ShrunkByExact(o, a, gone, asked, id);
        gone' := Gone(gone.exact + {id}, gone.cidr);
      }
    } else if id in h.cidrRules {
      cidr := RemoveCidr(h, id);
      if cidr {
        ShrunkByCidr(o, a, gone, asked, id, h.State());
        gone' := Gone(gone.exact, gone.cidr + {id});
      }
    }
  }

  /** DeleteRulesBatch: ids that are not stored, or whose map entry cannot be deleted, are
      counted and skipped; the others go, with one publish for all of them. */
  method DeleteRulesBatch(h: Handlers, ids: seq<Id>) returns (deleted: nat, failed: nat, ghost gone: Gone)
    requires h.Valid()
    modifies h, h.kernel, h.cidrMgr
    ensures h.Valid()
    ensures Shrunk(old(h.State()), h.State(), gone, ids)
    ensures deleted == gone.Size() && deleted + failed == |ids|
    ensures h.kernel.reliable ==> AllGone(old(h.State()), gone, ids)
    ensures gone.Size() == 0 ==> h.Config() == old(h.Config())
    ensures (h.kernel.reliable && gone.Size() > 0) || h.Config() != old(h.Config()) ==>
              && GatesExact(h.Config(), h.rules, h.cidrRules, h.wlEntries)
              && SameExcess(old(h.Config()), old(h.State()), h.Config(), h.State())
  {
    hide h.Sound, AgentInv, GatesExact, Gated, Shrunk, SameExcess;
    ghost var o, c := h.State(), h.Config();
    var exactCount: int, cidrCount: int := 0, 0;
    failed, gone := 0, Gone({}, {});
    NoneGone(o);
    for i := 0 to |ids|
      invariant h.Sound() && AgentInv(h.State()) && h.Config() == c
      invariant Shrunk(o, h.State(), gone, ids[..i]) && (h.kernel.reliable ==> AllGone(o, gone, ids[..i]))
      invariant exactCount == |gone.exact| && cidrCount == |gone.cidr| && exactCount + cidrCount + failed == i
    {
      assert ids[..i + 1] == ids[..i] + [ids[i]];
      var exact, cidr;
      exact, cidr, gone := RemoveAny(h, ids[i], o, gone, ids[..i]);
      if exact {
        exactCount := exactCount + 1;
      } else if cidr {
        cidrCount := cidrCount + 1;
      } else {
        failed := failed + 1;
      }
    }
    assert ids[..|ids|] == ids;
    ShrunkSizes(o, h.State(), gone, ids);
    if exactCount > 0 || cidrCount > 0 {
      PublishFewer(h, exactCount, cidrCount, o);
    }
    deleted := exactCount + cidrCount;
  }

  lemma NoneGone(o: Agent)
    ensures Shrunk(o, o, Gone({}, {}), [])
  {
    assert o.exact.rules - {} == o.exact.rules && o.cidr.rules - {} == o.cidr.rules;
  }

  lemma NotGoneYet(o: Agent, a: Agent, g: Gone, asked: seq<Id>, id: Id)
    requires Shrunk(o, a, g, asked)
    ensures id in a.exact.rules ==> |g.exact + {id}| == |g.exact| + 1
    ensures id in a.cidr.rules ==> |g.cidr + {id}| == |g.cidr| + 1
  {
  }

  lemma ShrunkSizes(o: Agent, a: Agent, g: Gone, asked: seq<Id>)
    requires Shrunk(o, a, g, asked)
    ensures |a.exact.rules| + |g.exact| == |o.exact.rules| && |a.cidr.rules| + |g.cidr| == |o.cidr.rules|
    ensures a.wl == o.wl && (|g.exact| == |g.cidr| == 0 ==> a == o)
    ensures forall id :: id in a.exact.rules ==> id in o.exact.rules && a.exact.rules[id] == o.exact.rules[id]
    ensures forall id :: id in a.cidr.rules ==> id in o.cidr.rules && a.cidr.rules[id] == o.cidr.rules[id]
  {
  }
}
