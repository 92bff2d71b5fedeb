/** node_client.go: bringing a node's rules and whitelist to a target, by difference or in full,
    over batch calls that may fail, or be carried out in part. */
module NodeClient {
  import opened Rules

  datatype Item<T> = Item(id: Id, body: T)

  /** What is known of a call: a transport error, or a reply that counts the refused items. */
  datatype Response = TransportError | Reply(failed: nat)

  datatype Kind = Adds | Deletes

  datatype Call = Call(kind: Kind, ids: seq<Id>, accepted: bool)

  const CHUNK: nat := 1000

  function Over<T>(base: map<Id, T>, items: seq<Item<T>>): map<Id, T> {
    if items == [] then base
    else Over(base, items[..|items| - 1])[items[|items| - 1].id := items[|items| - 1].body]
  }

  function Names<T>(items: seq<Item<T>>): (ids: seq<Id>)
    ensures |ids| == |items| && forall i :: 0 <= i < |items| ==> ids[i] == items[i].id
  {
    if items == [] then [] else Names(items[..|items| - 1]) + [items[|items| - 1].id]
  }

  ghost predicate Distinct(ids: seq<Id>) {
    forall i, j :: 0 <= i < j < |ids| ==> ids[i] != ids[j]
  }

  lemma DistinctMore(ids: seq<Id>, id: Id)
    requires Distinct(ids) && id !in ids
    ensures Distinct(ids + [id])
  {
  }

  /** m differs from o at most in the listed ids. */
  ghost predicate OnlyAt<T(!new)>(m: map<Id, T>, o: map<Id, T>, ids: seq<Id>) {
    forall id :: id !in ids ==> (id in m <==> id in o) && (id in m ==> m[id] == o[id])
  }

  /** One of the two stores of a node, its rules or its whitelist, behind the batch API. Calls
      may fail in whole or in part, unless the node is `reliable`. */
  class Store<T(==, !new)> {
    const reliable: bool
    var entries: map<Id, T>
    ghost var log: seq<Call>

    constructor (entries: map<Id, T>, reliable: bool)
      ensures this.entries == entries && log == [] && this.reliable == reliable
    {
      this.entries, this.reliable := entries, reliable;
      log := [];
    }

    /** Every id once, in any order, or an error. */
    method List() returns (ids: Option<seq<Id>>)
      ensures ids.Some? ==> Distinct(ids.value)
      ensures ids.Some? ==> forall id :: id in ids.value <==> id in entries
      ensures reliable ==> ids.Some?
    {
      var fails: bool := *;
      if fails && !reliable {
        return None;
      }
      var list: seq<Id> := [];
      var todo := entries.Keys;
      while todo != {}
        invariant todo <= entries.Keys
        invariant Distinct(list)
        invariant forall id :: id in list <==> id in entries.Keys - todo
        decreases todo
      {
        var id :| id in todo;
        todo := todo - {id};
        DistinctMore(list, id);
        list := list + [id];
      }
      ids := Some(list);
    }

    /** A reply without failures means that all items are stored; otherwise any of them may be. */
    method AddBatch(items: seq<Item<T>>) returns (r: Response)
      modifies this
      ensures log == old(log) + [Call(Adds, Names(items), r == Reply(0))]
      ensures r == Reply(0) ==> entries == Over(old(entries), items)
      ensures reliable ==> r == Reply(0)
      ensures OnlyAt(entries, old(entries), Names(items))
    {
      var failed := 0;
      for i := 0 to |items|
        invariant log == old(log) && (reliable ==> failed == 0)
        invariant failed == 0 ==> entries == Over(old(entries), items[..i])
        invariant OnlyAt(entries, old(entries), Names(items))
      {
        assert items[..i + 1][..i] == items[..i];
        assert Names(items)[i] == items[i].id;
        var refused: bool := *;
        if refused && !reliable {
          failed := failed + 1;
        } else {
          entries := entries[items[i].id := items[i].body];
        }
      }
      assert items[..|items|] == items;
      var lost: bool := *;
      if lost && !reliable {
        r := TransportError;
      } else {
        r := Reply(failed);
      }
      log := log + [Call(Adds, Names(items), r == Reply(0))];
    }

    method DeleteBatch(ids: seq<Id>) returns (r: Response)
      modifies this
      ensures log == old(log) + [Call(Deletes, ids, r == Reply(0))]
      ensures r == Reply(0) ==> entries == old(entries) - (set id | id in ids)
      ensures forall id :: id in entries ==> id in old(entries) && entries[id] == old(entries)[id]
      ensures reliable ==> r == Reply(0)
      ensures OnlyAt(entries, old(entries), ids)
    {
      var failed := 0;
      for i := 0 to |ids|
        invariant log == old(log) && (reliable ==> failed == 0)
        invariant failed == 0 ==> entries == old(entries) - (set id | id in ids[..i])
        invariant forall id :: id in entries ==> id in old(entries) && entries[id] == old(entries)[id]
        invariant OnlyAt(entries, old(entries), ids)
      {
        assert ids[..i + 1] == ids[..i] + [ids[i]];
        var refused: bool := *;
        if refused && !reliable {
          failed := failed + 1;
        } else {
          entries := entries - {ids[i]};
        }
      }
      assert ids[..|ids|] == ids;
      var lost: bool := *;
      if lost && !reliable {
        r := TransportError;
      } else {
        r := Reply(failed);
      }
      log := log + [Call(Deletes, ids, r == Reply(0))];
    }
  }

  // ---- Chunked calls ----

  function Sent(calls: seq<Call>): seq<Id> {
    if calls == [] then [] else Sent(calls[..|calls| - 1]) + calls[|calls| - 1].ids
  }

  /** Calls of one kind, none empty or above the chunk size, of which only the last can have failed. */
  ghost predicate Chunked(calls: seq<Call>, kind: Kind, ok: bool) {
    && (forall i :: 0 <= i < |calls| ==> calls[i].kind == kind && 0 < |calls[i].ids| <= 1000)
    && (forall i :: 0 <= i < |calls| - (if ok then 0 else 1) ==> calls[i].accepted)
    && (!ok ==> calls != [] && !calls[|calls| - 1].accepted)
  }

  lemma NamesOfPart<T>(items: seq<Item<T>>, lo: nat, hi: nat)
    requires lo <= hi <= |items|
    ensures Names(items[lo..hi]) == Names(items)[lo..hi]
  {
    hide Names;
    var part := items[lo..hi];
    forall i | 0 <= i < hi - lo
      ensures Names(part)[i] == Names(items)[lo..hi][i]
    {
      assert part[i] == items[lo + i];
    }
  }

  lemma {:induction false} OverSplits<T>(base: map<Id, T>, xs: seq<Item<T>>, ys: seq<Item<T>>)
    ensures Over(base, xs + ys) == Over(Over(base, xs), ys)
  {
    if ys == [] {
      assert xs + ys == xs;
    } else {
      assert (xs + ys)[..|xs + ys| - 1] == xs + ys[..|ys| - 1];
      OverSplits(base, xs, ys[..|ys| - 1]);
    }
  }

  /** One chunk more of a longer list. */
  lemma ChunkStep<T(!new)>(base: map<Id, T>, items: seq<Item<T>>, i: nat, end: nat)
    requires i <= end <= |items|
    ensures Over(Over(base, items[..i]), items[i..end]) == Over(base, items[..end])
    ensures Names(items[..end]) == Names(items[..i]) + Names(items[i..end])
    ensures forall id :: id in Names(items[i..end]) ==> id in Names(items)
  {
    assert items[..end] == items[..i] + items[i..end];
    OverSplits(base, items[..i], items[i..end]);
    NamesOfPart(items, i, end);
    NamesOfPart(items, 0, i);
    NamesOfPart(items, 0, end);
    assert Names(items)[..end] == Names(items)[..i] + Names(items)[i..end];
  }

  lemma CallsMore(calls: seq<Call>, call: Call, kind: Kind)
    requires Chunked(calls, kind, true) && call.kind == kind && 0 < |call.ids| <= CHUNK
    ensures Sent(calls + [call]) == Sent(calls) + call.ids && Chunked(calls + [call], kind, call.accepted)
  {
    assert (calls + [call])[..|calls|] == calls;
  }

  lemma OnlyAtJoins<T(!new)>(m: map<Id, T>, mid: map<Id, T>, o: map<Id, T>, part: seq<Id>, ids: seq<Id>)
    requires OnlyAt(m, mid, part) && OnlyAt(mid, o, ids) && forall id :: id in part ==> id in ids
    ensures OnlyAt(m, o, ids)
  {
  }

  method AddChunks<T(==, !new)>(s: Store<T>, items: seq<Item<T>>) returns (ok: bool, ghost calls: seq<Call>)
    modifies s
    ensures s.log == old(s.log) + calls && Chunked(calls, Adds, ok) && (s.reliable ==> ok)
    ensures ok ==> s.entries == Over(old(s.entries), items) && Sent(calls) == Names(items)
    ensures OnlyAt(s.entries, old(s.entries), Names(items))
  {
    hide Over, Sent, OnlyAt, Chunked;
    calls := [];
    var i := 0;
    NoItems(s.entries, items);
    while i < |items|
      invariant 0 <= i <= |items|
      invariant s.log == old(s.log) + calls && Chunked(calls, Adds, true)
      invariant s.entries == Over(old(s.entries), items[..i]) && Sent(calls) == Names(items[..i])
      invariant OnlyAt(s.entries, old(s.entries), Names(items))
    {
      var end := i + CHUNK;
      if end > |items| {
        end := |items|;
      }
      ghost var before := s.entries;
      var r := s.AddBatch(items[i..end]);
      ghost var call := Call(Adds, Names(items[i..end]), r == Reply(0));
      ChunkStep(old(s.entries), items, i, end);
      CallsMore(calls, call, Adds);
      OnlyAtJoins(s.entries, before, old(s.entries), Names(items[i..end]), Names(items));
      calls := calls + [call];
      if r != Reply(0) {
        return false, calls;
      }
      i := end;
    }
    assert items[..|items|] == items;
    ok := true;
  }

  lemma NoItems<T(!new)>(base: map<Id, T>, items: seq<Item<T>>)
    ensures Over(base, items[..0]) == base && Names(items[..0]) == [] && Sent([]) == [] && Chunked([], Adds, true)
    ensures OnlyAt(base, base, Names(items))
  {
  }

  method DeleteChunks<T(==, !new)>(s: Store<T>, ids: seq<Id>) returns (ok: bool, ghost calls: seq<Call>)
    modifies s
    ensures s.log == old(s.log) + calls && Chunked(calls, Deletes, ok) && (s.reliable ==> ok)
    ensures ok ==> s.entries == old(s.entries) - (set id | id in ids) && Sent(calls) == ids
    ensures OnlyAt(s.entries, old(s.entries), ids)
  {
    hide Sent, OnlyAt, Chunked;
    calls := [];
    var i := 0;
    NoIds(s.entries, ids);
    while i < |ids|
      invariant 0 <= i <= |ids|
      invariant s.log == old(s.log) + calls && Chunked(calls, Deletes, true)
      invariant s.entries == old(s.entries) - (set id | id in ids[..i]) && Sent(calls) == ids[..i]
      invariant OnlyAt(s.entries, old(s.entries), ids)
    {
      var end := i + CHUNK;
      if end > |ids| {
        end := |ids|;
      }
      ghost var before := s.entries;
      var r := s.DeleteBatch(ids[i..end]);
      ghost var call := Call(Deletes, ids[i..end], r == Reply(0));
      CallsMore(calls, call, Deletes);
      OnlyAtJoins(s.entries, before, old(s.entries), ids[i..end], ids);
      calls := calls + [call];
      if r != Reply(0) {
        return false, calls;
      }
      assert ids[..end] == ids[..i] + ids[i..end];
      i := end;
    }
    assert ids[..|ids|] == ids;
    ok := true;
  }

  lemma NoIds<T(!new)>(base: map<Id, T>, ids: seq<Id>)
    ensures base - (set id | id in ids[..0]) == base && Sent([]) == [] && Chunked([], Deletes, true)
    ensures OnlyAt(base, base, ids)
  {
  }

  // ---- By difference ----

  /** The node holds exactly the target ids; entries it had keep their bodies, the others have
      the target's, which is that of the last item of the id. */
  ghost predicate Reconciled<T(!new)>(m: map<Id, T>, o: map<Id, T>, target: map<Id, T>) {
    && m.Keys == target.Keys
    && forall id :: id in target ==> m[id] == if id in o then o[id] else target[id]
  }

  /** What was sent: first deletes of what is not wanted, all of them acknowledged before the
      first add, then adds of what is missing, every id in exactly one chunk. */
  ghost predicate DiffCalls<T(!new)>(o: map<Id, T>, target: map<Id, T>, dels: seq<Call>, adds: seq<Call>, ok: bool) {
    && (if adds != [] || ok then Chunked(dels, Deletes, true)
        else dels == [] || Chunked(dels, Deletes, true) || Chunked(dels, Deletes, false))
    && (adds != [] || ok ==> Distinct(Sent(dels)) && (forall id :: id in Sent(dels) <==> id in o && id !in target))
    && (Chunked(adds, Adds, true) || Chunked(adds, Adds, false))
    && (ok ==> Chunked(adds, Adds, true) && Distinct(Sent(adds)))
    && (ok ==> forall id :: id in Sent(adds) <==> id in target && id !in o)
  }

  method Unwanted<T(==, !new)>(ids: seq<Id>, target: map<Id, T>) returns (del: seq<Id>)
    requires Distinct(ids)
    ensures Distinct(del) && forall id :: id in del <==> id in ids && id !in target
  {
    del := [];
    for i := 0 to |ids|
      invariant Distinct(del) && forall id :: id in del <==> id in ids[..i] && id !in target
    {
      assert ids[..i + 1] == ids[..i] + [ids[i]];
      assert ids[i] !in ids[..i];
      if ids[i] !in target {
        DistinctMore(del, ids[i]);
        del := del + [ids[i]];
      }
    }
    assert ids[..|ids|] == ids;
  }

  lemma NamesMore<T>(items: seq<Item<T>>, it: Item<T>)
    ensures Names(items + [it]) == Names(items) + [it.id]
  {
    assert (items + [it])[..|items|] == items;
  }

  method Missing<T(==, !new)>(ids: set<Id>, target: map<Id, T>) returns (add: seq<Item<T>>)
    ensures Distinct(Names(add)) && forall id :: id in Names(add) <==> id in target && id !in ids
    ensures forall it :: it in add ==> it.id in target && it.body == target[it.id]
  {
    hide Names, Distinct;
    add := [];
    var todo := target.Keys;
    DistinctNone();
    while todo != {}
      invariant todo <= target.Keys
      invariant Distinct(Names(add)) && forall id :: id in Names(add) <==> id in target.Keys - todo && id !in ids
      invariant forall it :: it in add ==> it.id in target && it.body == target[it.id]
      decreases todo
    {
      var id :| id in todo;
      todo := todo - {id};
      if id !in ids {
        DistinctMore(Names(add), id);
        NamesMore(add, Item(id, target[id]));
        add := add + [Item(id, target[id])];
      }
    }
  }

  lemma DistinctNone()
    ensures Distinct([])
  {
  }

  lemma {:induction false} OverListed<T(!new)>(base: map<Id, T>, items: seq<Item<T>>, target: map<Id, T>)
    requires forall it :: it in items ==> it.id in target && it.body == target[it.id]
    ensures forall id :: id in Over(base, items) <==> id in base || id in Names(items)
    ensures forall id :: id in Over(base, items) ==>
              Over(base, items)[id] == if id in Names(items) then target[id] else base[id]
  {
    if items != [] {
      OverListed(base, items[..|items| - 1], target);
      assert items[|items| - 1] in items;
    }
  }

  /** One half of DiffSync. */
  method DiffStore<T(==, !new)>(s: Store<T>, targets: seq<Item<T>>)
    returns (ok: bool, ghost dels: seq<Call>, ghost adds: seq<Call>)
    modifies s
    ensures s.log == old(s.log) + dels + adds && (s.reliable ==> ok)
    ensures DiffCalls(old(s.entries), Over(map[], targets), dels, adds, ok)
    ensures ok ==> Reconciled(s.entries, old(s.entries), Over(map[], targets))
    ensures forall id :: id in old(s.entries) && id in Over(map[], targets) ==>
              id in s.entries && s.entries[id] == old(s.entries)[id]
  {
    hide Over, OnlyAt, Sent, Chunked;
    dels, adds := [], [];
    ghost var o := s.entries;
    NothingSent();
    var target := Collect(targets);
    var ids := s.List();
    if ids.None? {
      return false, dels, adds;
    }
    var toDelete := Unwanted(ids.value, target);
    var nodeSet := set id | id in ids.value;
    var toAdd := Missing(nodeSet, target);
    ok, dels := DeleteChunks(s, toDelete);
    OutsideSame(s.entries, o, toDelete);
    if !ok {
      return;
    }
    ghost var mid := s.entries;
    ok, adds := AddChunks(s, toAdd);
    OutsideSame(s.entries, mid, Names(toAdd));
    if ok {
      OverListed(mid, toAdd, target);
    }
  }

  lemma NothingSent()
    ensures Sent([]) == [] && Chunked([], Adds, true) && Chunked([], Deletes, true)
  {
  }

  lemma OutsideSame<T(!new)>(m: map<Id, T>, o: map<Id, T>, ids: seq<Id>)
    requires OnlyAt(m, o, ids)
    ensures forall id :: id in o && id !in ids ==> id in m && m[id] == o[id]
  {
  }

  /** The map of targets by id. */
  method Collect<T(==, !new)>(targets: seq<Item<T>>) returns (m: map<Id, T>)
    ensures m == Over(map[], targets)
  {
    m := map[];
    for i := 0 to |targets|
      invariant m == Over(map[], targets[..i])
    {
      assert targets[..i + 1][..i] == targets[..i];
      m := m[targets[i].id := targets[i].body];
    }
    assert targets[..|targets|] == targets;
  }

  /** The calls of both halves of a DiffSync. */
  datatype BothHalves = BothHalves(ruleDels: seq<Call>, ruleAdds: seq<Call>, wlDels: seq<Call>, wlAdds: seq<Call>)

  /** DiffSync: the rules, then, only if all went well, the whitelist. */
  method DiffSync<R(==, !new), W(==, !new)>(rules: Store<R>, whitelist: Store<W>,
                                            targetRules: seq<Item<R>>, targetWhitelist: seq<Item<W>>)
    returns (ok: bool, ghost sent: BothHalves)
    requires (rules as object) != (whitelist as object)
    modifies rules, whitelist
    ensures rules.log == old(rules.log) + sent.ruleDels + sent.ruleAdds
    ensures whitelist.log == old(whitelist.log) + sent.wlDels + sent.wlAdds
    ensures DiffCalls(old(rules.entries), Over(map[], targetRules), sent.ruleDels, sent.ruleAdds,
                      ok || whitelist.log != old(whitelist.log))
    ensures whitelist.log != old(whitelist.log) || ok ==>
              DiffCalls(old(whitelist.entries), Over(map[], targetWhitelist), sent.wlDels, sent.wlAdds, ok)
    ensures ok ==> Reconciled(rules.entries, old(rules.entries), Over(map[], targetRules))
    ensures ok ==> Reconciled(whitelist.entries, old(whitelist.entries), Over(map[], targetWhitelist))
    ensures rules.reliable && whitelist.reliable ==> ok
    ensures forall id :: id in old(rules.entries) && id in Over(map[], targetRules) ==>
              id in rules.entries && rules.entries[id] == old(rules.entries)[id]
    ensures forall id :: id in old(whitelist.entries) && id in Over(map[], targetWhitelist) ==>
              id in whitelist.entries && whitelist.entries[id] == old(whitelist.entries)[id]
  {
    hide Over, Reconciled;
    ghost var dels, adds, wlDels, wlAdds: seq<Call> := [], [], [], [];
    ok, dels, adds := DiffStore(rules, targetRules);
    if ok {
      ok, wlDels, wlAdds := DiffStore(whitelist, targetWhitelist);
    }
    sent := BothHalves(dels, adds, wlDels, wlAdds);
  }

  // ---- In full, with a snapshot ----

  datatype FullOutcome = Done | SnapshotFailed | DeleteFailed | AddFailed | RolledBack | RollbackFailed

  /** The items are the entries of m, each once. */
  ghost predicate SnapshotOf<T(!new)>(items: seq<Item<T>>, m: map<Id, T>) {
    && Distinct(Names(items))
    && (forall id :: id in Names(items) <==> id in m)
    && forall it :: it in items ==> it.id in m && it.body == m[it.id]
  }

  /** The raw listing that serves as a snapshot. */
  method Snapshot<T(==, !new)>(s: Store<T>) returns (items: Option<seq<Item<T>>>)
    ensures items.Some? ==> SnapshotOf(items.value, s.entries)
    ensures s.reliable ==> items.Some?
  {
    var fails: bool := *;
    if fails && !s.reliable {
      return None;
    }
    var list := Missing({}, s.entries);
    items := Some(list);
  }

  lemma SnapshotRestores<T(!new)>(base: map<Id, T>, items: seq<Item<T>>, m: map<Id, T>)
    requires SnapshotOf(items, m)
    ensures forall id :: id in m ==> id in Over(base, items) && Over(base, items)[id] == m[id]
    ensures forall id :: id in Over(base, items) ==> id in m || id in base
    ensures base == map[] ==> Over(base, items) == m
    ensures items == [] <==> m == map[]
  {
    OverListed(base, items, m);
    if items == [] {
      assert forall id :: id !in m;
    } else {
      assert Names(items)[0] in m;
    }
  }

  /** The calls that account for each outcome: a rollback follows a refused add of the targets, and
      fails only by a refused call of its own. */
  ghost predicate Accounts(r: FullOutcome, sent: seq<Call>, targets: seq<Id>) {
    match r
    case SnapshotFailed => sent == []
    case Done => forall call :: call in sent ==> call.accepted
    case DeleteFailed => |sent| == 1 && sent[0].kind == Deletes && !sent[0].accepted
    case AddFailed => sent == [Call(Adds, targets, false)]
    case RolledBack => RollsBack(sent, targets) && sent[|sent| - 1].accepted
    case RollbackFailed => RollsBack(sent, targets) && !sent[|sent| - 1].accepted
  }

  ghost predicate RollsBack(sent: seq<Call>, targets: seq<Id>) {
    && |sent| in {3, 4} && sent[0].kind == Deletes && sent[0].accepted && sent[1] == Call(Adds, targets, false)
    && (|sent| == 4 ==> sent[2].kind == Deletes && sent[2].accepted && sent[3].kind == Adds)
  }

  /** The rollback of a full sync, once the targets have been refused. */
  method RestoreSnapshot<T(==, !new)>(s: Store<T>, snapshot: seq<Item<T>>, ghost o: map<Id, T>)
    returns (ok: bool, listed: bool, ghost sent: seq<Call>)
    requires SnapshotOf(snapshot, o)
    modifies s
    ensures s.log == old(s.log) + sent && |sent| in {1, 2} && (ok <==> sent[|sent| - 1].accepted)
    ensures |sent| == 2 ==> sent[0].kind == Deletes && sent[0].accepted && sent[1].kind == Adds
    ensures ok && listed ==> s.entries == o
    ensures ok ==> forall id :: id in o ==> id in s.entries && s.entries[id] == o[id]
    ensures ok ==> forall id :: id in s.entries ==> id in o || id in old(s.entries)
  {
    hide Over, Names;
    sent := [];
    var currentIDs := s.List();
    listed := currentIDs.Some?;
    if listed && currentIDs.value != [] {
      var reply := s.DeleteBatch(currentIDs.value);
      sent := [Call(Deletes, currentIDs.value, reply == Reply(0))];
      if reply != Reply(0) {
        return false, listed, sent;
      }
    }
    assert listed ==> s.entries == map[];
    SnapshotRestores(s.entries, snapshot, o);
    var reply := s.AddBatch(snapshot);
    sent := sent + [Call(Adds, Names(snapshot), reply == Reply(0))];
    ok := reply == Reply(0);
  }

  /** One half of FullSync. It ends in Done with exactly the targets, or in RolledBack with what
      the node held before, provided that the residue of the failed add could be listed; if it
      could not, residue of the targets may remain beside it. `listed` says which. */
  method FullStore<T(==, !new)>(s: Store<T>, targets: seq<Item<T>>)
    returns (r: FullOutcome, listed: bool, ghost sent: seq<Call>)
    modifies s
    ensures s.log == old(s.log) + sent && Accounts(r, sent, Names(targets))
    ensures r == Done ==> s.entries == Over(map[], targets)
    ensures s.reliable ==> r == Done
    ensures r == SnapshotFailed ==> s.entries == old(s.entries)
    ensures r == AddFailed ==> old(s.entries) == map[] && forall id :: id in s.entries ==> id in Names(targets)
    ensures r == DeleteFailed ==>
              forall id :: id in s.entries ==> id in old(s.entries) && s.entries[id] == old(s.entries)[id]
    ensures r == RolledBack && listed ==> s.entries == old(s.entries)
    ensures r == RolledBack ==>
              forall id :: id in old(s.entries) ==> id in s.entries && s.entries[id] == old(s.entries)[id]
    ensures r == RolledBack ==> forall id :: id in s.entries ==> id in old(s.entries) || id in Names(targets)
    ensures r in {RolledBack, RollbackFailed} ==> old(s.entries) != map[]
  {
    hide Over, Names;
    listed, sent := true, [];
    ghost var o := s.entries;
    var snapshot := Snapshot(s);
    if snapshot.None? {
      return SnapshotFailed, listed, sent;
    }
    SnapshotRestores(map[], snapshot.value, o);
    if snapshot.value != [] {
      var reply := s.DeleteBatch(Names(snapshot.value));
      sent := [Call(Deletes, Names(snapshot.value), reply == Reply(0))];
      if reply != Reply(0) {
        return DeleteFailed, listed, sent;
      }
    }
    assert s.entries == map[];
    if targets == [] {
      assert Over<T>(map[], []) == map[] by { OverNothing<T>(); }
      return Done, listed, sent;
    }
    var reply := s.AddBatch(targets);
    sent := sent + [Call(Adds, Names(targets), reply == Reply(0))];
    if reply == Reply(0) {
      return Done, listed, sent;
    }
    if snapshot.value == [] {
      return AddFailed, listed, sent;
    }
    ghost var first := sent;
    ghost var more;
    var restored;
    restored, listed, more := RestoreSnapshot(s, snapshot.value, o);
    sent := first + more;
    r := if restored then RolledBack else RollbackFailed;
  }

  lemma OverNothing<T(!new)>()
    ensures Over<T>(map[], []) == map[]
  {
  }

  /** FullSync: the rules, then, only after Done, the whitelist. */
  method FullSync<R(==, !new), W(==, !new)>(rules: Store<R>, whitelist: Store<W>, targetRules: seq<Item<R>>,
                    targetWhitelist: seq<Item<W>>)
    returns (ok: bool, forRules: FullOutcome, listed: bool)
    requires (rules as object) != (whitelist as object)
    modifies rules, whitelist
    ensures ok ==> rules.entries == Over(map[], targetRules) && whitelist.entries == Over(map[], targetWhitelist)
    ensures rules.reliable && whitelist.reliable ==> ok
    ensures forRules != Done ==>
              !ok && whitelist.entries == old(whitelist.entries) && whitelist.log == old(whitelist.log)
    ensures forRules == RolledBack && listed ==> rules.entries == old(rules.entries)
  {
    hide Over;
    ghost var sent;
    forRules, listed, sent := FullStore(rules, targetRules);
    if forRules != Done {
      return false, forRules, listed;
    }
    var forWhitelist, _, _ := FullStore(whitelist, targetWhitelist);
    ok := forWhitelist == Done;
  }
}
