/** What each operation of the agent does to what it stores, told by the request and the state it
    finds. */
module Effects {
  import opened Rules
  import opened Lookup
  import opened Requests
  import opened Meaning
  import opened RuleTable
  import opened WlTable
  import opened CidrLookup
  import opened CidrManager
  import opened Handlers
  import BatchLoss
  import BatchRollback
  import RulesMutation
  import RulesDeletion
  import CidrRules
  import ShadowBuild
  import WhitelistBatch
  import WhitelistSync

  datatype Op =
    | AddRule(req: Rule)
    | AddRuleFromSync(req: Rule)
    | AddRulesBatch(reqs: seq<Rule>)
    | DeleteRule(id: Id)
    | DeleteRulesBatch(ids: seq<Id>)
    | AtomicSync(reqs: seq<Rule>)
    | AddWhitelist(entry: WlEntry)
    | DeleteWhitelist(id: Id)
    | AddWhitelistBatch(entries: seq<WlEntry>)
    | DeleteWhitelistBatch(ids: seq<Id>)
    | ClearWhitelist
    | WhitelistSync(entries: seq<WlEntry>)

  // ---- One rule ----

  /** Besides a's rules, b holds under the request's id an exact rule that does what it asks. */
  ghost predicate NowExact(req: Rule, a: Agent, b: Agent) {
    && b == a.(exact := b.exact) && req.id in b.exact.rules
    && b.exact.rules == a.exact.rules[req.id := b.exact.rules[req.id]] && StoredExact(b.exact.rules[req.id], req)
  }

  /** Nothing or the whole happens; and without failing writes the whole, exactly if the request is
      acceptable and its key is free. */
  ghost predicate ExactTurn(req: Rule, canonical: bool, a: Agent, b: Agent, reliable: bool) {
    && (b == a || NowExact(req, a, b))
    && (!RulesMutation.FreeKey(req, canonical, a.exact.index) ==> b == a)
    && (reliable && RulesMutation.FreeKey(req, canonical, a.exact.index) ==> NowExact(req, a, b))
  }

  /** The same for a CIDR rule, on the request's own prefixes. */
  ghost predicate NowCidr(req: Rule, a: Agent, b: Agent) {
    && b == a.(cidr := b.cidr, ids := b.ids, refs := b.refs) && req.id in b.cidr.rules
    && b.cidr.rules == a.cidr.rules[req.id := b.cidr.rules[req.id]] && StoredCidr(b.cidr.rules[req.id], req)
    && b.cidr.rules[req.id].src == CidrOf(req.srcCIDR) && b.cidr.rules[req.id].dst == CidrOf(req.dstCIDR)
  }

  /** The request is acceptable, overlaps no known prefix, and no stored rule has its target. */
  ghost predicate Fits(req: Rule, canonical: bool, refuseMixed: bool, a: Agent) {
    && PrepareCIDR(req, canonical, refuseMixed).Some?
    && !CidrRules.OverlapsKnown(a.ids, PrepareCIDR(req, canonical, refuseMixed).value.stored)
    && forall x :: x in a.cidr.rules ==>
         !CidrRules.SameTarget(a.cidr.rules[x], PrepareCIDR(req, canonical, refuseMixed).value.stored)
  }

  ghost predicate CidrTurn(req: Rule, canonical: bool, refuseMixed: bool, a: Agent, b: Agent, reliable: bool) {
    && (b == a || NowCidr(req, a, b))
    && (!Fits(req, canonical, refuseMixed, a) ==> b == a)
    && (reliable && Fits(req, canonical, refuseMixed, a) ==> NowCidr(req, a, b))
  }

  ghost predicate OneAdded(req: Rule, fromSync: bool, a: Agent, b: Agent, reliable: bool) {
    if HasCIDR(req) then CidrTurn(req, !fromSync, !fromSync, a, b, reliable)
    else ExactTurn(req, !fromSync, a, b, reliable)
  }

  // ---- A batch of rules ----

  function ExactOnly(reqs: seq<Rule>): seq<Rule> {
    if reqs == [] then [] else (if HasCIDR(reqs[0]) then [] else [reqs[0]]) + ExactOnly(reqs[1..])
  }

  /** The CIDR rules of a batch take their turns one after another. */
  ghost predicate CidrTurns(reqs: seq<Rule>, states: seq<Agent>, reliable: bool) {
    && |states| == |reqs| + 1
    && forall i :: 0 <= i < |reqs| ==>
         if HasCIDR(reqs[i]) then CidrTurn(reqs[i], false, false, states[i], states[i + 1], reliable)
         else states[i + 1] == states[i]
  }

  /** Exact rules go in together, or not at all. */
  ghost predicate AddedTogether(reqs: seq<Rule>, a: Agent, b: Agent, items: seq<BatchRollback.Item>, reliable: bool) {
    && BatchLoss.Drawn(a.exact, RulesMutation.AskedItems(reqs), items)
    && (forall it :: it in items ==> RulesMutation.AskedBy(it.id, it.stored, reqs))
    && (b == a || b == a.(exact := BatchRollback.ApplyAll(a.exact, items)))
    && (reliable ==> items == RulesMutation.Takes(a.exact, RulesMutation.AskedItems(reqs))
                     && b == a.(exact := BatchRollback.ApplyAll(a.exact, items)))
  }

  /** Then those of the batch do. */
  ghost predicate ExactTogether(reqs: seq<Rule>, a: Agent, b: Agent, items: seq<BatchRollback.Item>, reliable: bool) {
    AddedTogether(ExactOnly(reqs), a, b, items, reliable)
  }

  ghost predicate BatchAdded(reqs: seq<Rule>, a: Agent, b: Agent, reliable: bool) {
    exists states: seq<Agent>, items: seq<BatchRollback.Item> ::
      CidrTurns(reqs, states, reliable) && states[0] == a && ExactTogether(reqs, states[|reqs|], b, items, reliable)
  }

  /** A CIDR rule that a batch stored at its turn is still stored at the end, with the packets it
      asks for, unless a later CIDR rule of the batch has its id. */
  lemma {:induction false} StaysStored(reqs: seq<Rule>, states: seq<Agent>, reliable: bool, i: nat, k: nat)
    requires CidrTurns(reqs, states, reliable) && i < k <= |reqs| && HasCIDR(reqs[i])
    requires NowCidr(reqs[i], states[i], states[i + 1])
    requires forall j :: i < j < k && HasCIDR(reqs[j]) ==> reqs[j].id != reqs[i].id
    ensures reqs[i].id in states[k].cidr.rules && StoredCidr(states[k].cidr.rules[reqs[i].id], reqs[i])
    ensures states[k].cidr.rules[reqs[i].id].src == CidrOf(reqs[i].srcCIDR)
    ensures states[k].cidr.rules[reqs[i].id].dst == CidrOf(reqs[i].dstCIDR)
    ensures states[k].exact == states[i].exact
    decreases k
  {
    hide HasCIDR, StoredCidr, Fits;
    if k > i + 1 {
      StaysStored(reqs, states, reliable, i, k - 1);
    }
  }

  lemma {:induction false} TurnsKeepExact(reqs: seq<Rule>, states: seq<Agent>, reliable: bool, k: nat)
    requires CidrTurns(reqs, states, reliable) && k <= |reqs|
    ensures states[k].exact == states[0].exact && states[k].wl == states[0].wl
    decreases k
  {
    hide HasCIDR, StoredCidr, Fits;
    if k > 0 {
      TurnsKeepExact(reqs, states, reliable, k - 1);
    }
  }

  /** A whole batch while no write fails: each CIDR rule that fits at its turn, and whose id no later
      one has, is stored with what it asks for; and the exact rules are the old ones with the
      insertions whose keys are free at their turn. */
  lemma BatchStores(reqs: seq<Rule>, states: seq<Agent>, a: Agent, b: Agent, items: seq<BatchRollback.Item>, i: nat)
    requires CidrTurns(reqs, states, true) && states[0] == a && ExactTogether(reqs, states[|reqs|], b, items, true)
    requires i < |reqs| && HasCIDR(reqs[i]) && Fits(reqs[i], false, false, states[i])
    requires forall j :: i < j < |reqs| && HasCIDR(reqs[j]) ==> reqs[j].id != reqs[i].id
    ensures reqs[i].id in b.cidr.rules && StoredCidr(b.cidr.rules[reqs[i].id], reqs[i])
    ensures b.cidr.rules[reqs[i].id].src == CidrOf(reqs[i].srcCIDR)
    ensures b.cidr.rules[reqs[i].id].dst == CidrOf(reqs[i].dstCIDR)
    ensures b.exact ==
            BatchRollback.ApplyAll(a.exact, RulesMutation.Takes(a.exact, RulesMutation.AskedItems(ExactOnly(reqs))))
  {
    hide HasCIDR, StoredCidr, Fits, ExactOnly, BatchRollback.ApplyAll, BatchLoss.Drawn, RulesMutation.Takes,
         RulesMutation.AskedItems;
    StaysStored(reqs, states, true, i, |reqs|);
    TurnsKeepExact(reqs, states, true, |reqs|);
  }

  // ---- Deletions ----

  ghost predicate OneDeleted(id: Id, a: Agent, b: Agent, reliable: bool) {
    if id in a.exact.rules then
      && (b == a || (b == a.(exact := b.exact) && b.exact.rules == a.exact.rules - {id}))
      && (reliable ==> id !in b.exact.rules)
    else
      && (b == a || (b == a.(cidr := b.cidr, ids := b.ids, refs := b.refs) && b.cidr.rules == a.cidr.rules - {id}))
      && (reliable ==> id !in b.cidr.rules)
  }

  ghost predicate ManyDeleted(ids: seq<Id>, a: Agent, b: Agent, reliable: bool) {
    exists g :: RulesDeletion.Shrunk(a, b, g, ids) && (reliable ==> RulesDeletion.AllGone(a, g, ids))
  }

  // ---- Replacing all rules ----

  /** The rules of a request of which none repeats an id, and no others. */
  ghost predicate HoldsAll(reqs: seq<Rule>, b: Agent) {
    && (forall i :: 0 <= i < |reqs| && !HasCIDR(reqs[i]) ==>
          reqs[i].id in b.exact.rules && StoredExact(b.exact.rules[reqs[i].id], reqs[i]))
    && (forall i :: 0 <= i < |reqs| && HasCIDR(reqs[i]) ==>
          reqs[i].id in b.cidr.rules && StoredCidr(b.cidr.rules[reqs[i].id], reqs[i]))
    && (forall id :: id in b.exact.rules ==> exists i :: 0 <= i < |reqs| && !HasCIDR(reqs[i]) && reqs[i].id == id)
    && (forall id :: id in b.cidr.rules ==> exists i :: 0 <= i < |reqs| && HasCIDR(reqs[i]) && reqs[i].id == id)
  }

  ghost predicate AllReplaced(reqs: seq<Rule>, a: Agent, b: Agent, reliable: bool) {
    && b.wl == a.wl && (b == a || HoldsAll(reqs, b))
    && (reliable ==> if ShadowBuild.Buildable(reqs) then HoldsAll(reqs, b) else b == a)
  }

  // ---- The whitelist ----

  ghost predicate WhitelistedAs(k: Key, e: WlEntry) {
    forall p :: WildMatches(k, p) <==> AsksWl(e, p)
  }

  ghost predicate NowWhitelisted(e: WlEntry, a: Agent, b: Agent) {
    && e.id in b.wl.entries && b.wl.entries == a.wl.entries[e.id := b.wl.entries[e.id]]
    && WhitelistedAs(b.wl.entries[e.id], e)
  }

  /** The entry is usable and its key belongs to no other id. */
  predicate FreeEntry(e: WlEntry, w: WlTable) {
    PrepareWl(e).Some? && (PrepareWl(e).value in w.index ==> w.index[PrepareWl(e).value] == e.id)
  }

  ghost predicate OneWhitelisted(e: WlEntry, a: Agent, b: Agent, reliable: bool) {
    && b == a.(wl := b.wl) && (b == a || NowWhitelisted(e, a, b))
    && (!FreeEntry(e, a.wl) ==> b == a)
    && (reliable && FreeEntry(e, a.wl) ==> NowWhitelisted(e, a, b))
  }

  /** The entries of b are those of a, overridden by the last entry of each id in the batch. */
  ghost predicate Overridden(entries: seq<WlEntry>, a: map<Id, Key>, b: map<Id, Key>) {
    && (forall i :: 0 <= i < |entries| && (forall j :: i < j < |entries| ==> entries[j].id != entries[i].id) ==>
          entries[i].id in b && WhitelistedAs(b[entries[i].id], entries[i]))
    && (forall id :: id in b <==> id in a || exists i :: 0 <= i < |entries| && entries[i].id == id)
    && (forall id :: id in b && (forall i :: 0 <= i < |entries| ==> entries[i].id != id) ==> b[id] == a[id])
  }

  lemma AskedOverrides(entries: seq<WlEntry>, a: map<Id, Key>)
    requires WhitelistBatch.Asked(entries).Some?
    ensures Overridden(entries, a, a + WhitelistBatch.Asked(entries).value)
  {
    hide WhitelistBatch.Asked, PrepareWl, WildMatches, AsksWl;
    var m := WhitelistBatch.Asked(entries).value;
    WhitelistBatch.AskedIs(entries);
    forall i | 0 <= i < |entries| && forall j :: i < j < |entries| ==> entries[j].id != entries[i].id
      ensures entries[i].id in m && WhitelistedAs(m[entries[i].id], entries[i])
    {
      WhitelistBatch.AskedAt(entries, i);
      forall p ensures WildMatches(m[entries[i].id], p) <==> AsksWl(entries[i], p) { WlMeaning(entries[i], p); }
    }
  }

  /** The old entries, overridden by what the batch asks for. */
  ghost predicate BatchWhitelisted(entries: seq<WlEntry>, a: Agent, b: Agent, reliable: bool) {
    var asked := WhitelistBatch.Asked(entries);
    && b == a.(wl := b.wl)
    && (b == a || (asked.Some? && b.wl.entries == a.wl.entries + asked.value
                   && Overridden(entries, a.wl.entries, b.wl.entries)))
    && (reliable ==> if asked.Some? && !WhitelistBatch.Clashing(asked.value, a.wl.index)
                     then b.wl.entries == a.wl.entries + asked.value
                     else b == a)
  }

  ghost predicate EntriesDeleted(ids: seq<Id>, a: Agent, b: Agent, reliable: bool) {
    && b == a.(wl := b.wl)
    && (forall id :: id in b.wl.entries ==> id in a.wl.entries && b.wl.entries[id] == a.wl.entries[id])
    && (forall id :: id in a.wl.entries && id !in ids ==> id in b.wl.entries)
    && (reliable ==> forall id :: id in ids ==> id !in b.wl.entries)
  }

  /** Some entries are gone; without failing writes all of them. */
  ghost predicate Cleared(a: Agent, b: Agent, reliable: bool) {
    && b == a.(wl := b.wl)
    && (forall id :: id in b.wl.entries ==> id in a.wl.entries && b.wl.entries[id] == a.wl.entries[id])
    && (reliable ==> b.wl.entries == map[])
  }

  ghost predicate HoldsEntries(entries: seq<WlEntry>, b: Agent) {
    && (forall i :: 0 <= i < |entries| ==>
          entries[i].id in b.wl.entries && WhitelistedAs(b.wl.entries[entries[i].id], entries[i]))
    && (forall id :: id in b.wl.entries ==> exists i :: 0 <= i < |entries| && entries[i].id == id)
  }

  ghost predicate WhitelistReplaced(entries: seq<WlEntry>, a: Agent, b: Agent, reliable: bool) {
    && b == a.(wl := b.wl) && (b == a || HoldsEntries(entries, b))
    && (!WhitelistSync.Syncable(entries) ==> b == a)
    && (reliable && WhitelistSync.Syncable(entries) ==> HoldsEntries(entries, b))
  }

  /** What an operation did to the agent a, with no write failing if `reliable`. */
  ghost predicate Did(op: Op, a: Agent, b: Agent, reliable: bool) {
    match op
    case AddRule(req) => OneAdded(req, false, a, b, reliable)
    case AddRuleFromSync(req) => OneAdded(req, true, a, b, reliable)
    case AddRulesBatch(reqs) => BatchAdded(reqs, a, b, reliable)
    case DeleteRule(id) => OneDeleted(id, a, b, reliable)
    case DeleteRulesBatch(ids) => ManyDeleted(ids, a, b, reliable)
    case AtomicSync(reqs) => AllReplaced(reqs, a, b, reliable)
    case AddWhitelist(entry) => OneWhitelisted(entry, a, b, reliable)
    case DeleteWhitelist(id) => EntriesDeleted([id], a, b, reliable)
    case AddWhitelistBatch(entries) => BatchWhitelisted(entries, a, b, reliable)
    case DeleteWhitelistBatch(ids) => EntriesDeleted(ids, a, b, reliable)
    case ClearWhitelist => Cleared(a, b, reliable)
    case WhitelistSync(entries) => WhitelistReplaced(entries, a, b, reliable)
  }
}
