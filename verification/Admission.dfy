/** What the controller's store takes in: exactly what its invariant allows, but for one mistake of
    the batch path. */
module Admission {
  import opened Rules
  import opened Prefixes
  import Requests
  import opened RuleService

  lemma SeparateIff(f: Requests.CidrField, nets: set<Prefix>)
    requires Separate(nets)
    ensures Separate(nets + Nets(f)) <==> Fits(f, nets)
  {
    hide ShareAddress;
    if Fits(f, nets) {
      FitsKeepsSeparate(f, nets);
    }
  }

  /** A good rule can join the store exactly if its tuple is free and its prefixes fit. */
  lemma JoinsIff(repo: Repo, id: Id, r: ControllerRule)
    requires RepoInv(repo) && id !in repo && Good(r)
    ensures RepoInv(repo[id := r]) <==>
            TupleFree(repo, r) && Fits(r.srcCIDR, SrcNets(repo)) && Fits(r.dstCIDR, DstNets(repo))
  {
    hide Good, ShareAddress, Fits, Nets, TupleOf, Separate, SrcNets, DstNets;
    NetsAdded(repo, id, r);
    SeparateIff(r.srcCIDR, SrcNets(repo));
    SeparateIff(r.dstCIDR, DstNets(repo));
    var new_ := repo[id := r];
    if RepoInv(new_) {
      forall x | x in repo
        ensures TupleOf(repo[x]) != TupleOf(r)
      {
        assert new_[x] == repo[x] && new_[id] == r;
      }
    }
  }

  /** Create makes a rule of its own exactly if the store with it satisfies the invariant, and the
      expiry is good. */
  lemma CreatedIff(repo: Repo, id: Id, r: ControllerRule, expiryOk: bool)
    requires RepoInv(repo) && Good(r) && TupleFree(repo, r)
    ensures Creatable(repo, id, r, expiryOk) <==> expiryOk && id !in repo && RepoInv(repo[id := r])
  {
    hide Good, Fits, RepoInv, SrcNets, DstNets, TupleOf, Mergeable;
    if id !in repo {
      JoinsIff(repo, id, r);
    }
  }

  /** A taken tuple is refused unless both rules are anomaly rules of one action. */
  lemma TakenTuple(repo: Repo, id: Id, x: Id, r: ControllerRule, expiryOk: bool)
    requires RepoInv(repo) && Good(r) && x in repo && TupleOf(repo[x]) == TupleOf(r)
    ensures Creatable(repo, id, r, expiryOk) <==>
            repo[x].anomaly != 0 && r.anomaly != 0 && repo[x].action == r.action
  {
    hide Good, ShareAddress, TupleOf;
    SameTupleFits(repo, x, r);
  }

  lemma SameTupleFits(repo: Repo, x: Id, r: ControllerRule)
    requires RepoInv(repo) && x in repo && TupleOf(repo[x]) == TupleOf(r)
    ensures Fits(r.srcCIDR, SrcNets(repo)) && Fits(r.dstCIDR, DstNets(repo))
  {
    hide Good, ShareAddress;
    assert Nets(r.srcCIDR) <= SrcNets(repo) && Nets(r.dstCIDR) <= DstNets(repo);
  }

  // ---- The batch path ----

  predicate Bare(r: ControllerRule) {
    r.srcIP == NoIp && r.dstIP == NoIp && r.srcCIDR == Requests.CidrAbsent && r.dstCIDR == Requests.CidrAbsent
  }

  /** A rule without addresses, and a stored CIDR rule with its ports and protocol: the batch path
      takes the one for a duplicate of the other. */
  ghost predicate Mistaken(repo: Repo, r: ControllerRule) {
    && Bare(r)
    && exists x :: x in repo && (repo[x].srcCIDR != Requests.CidrAbsent || repo[x].dstCIDR != Requests.CidrAbsent)
                   && repo[x].sport == r.sport && repo[x].dport == r.dport && repo[x].protocol == r.protocol
  }

  predicate MistakenFor(s: ControllerRule, r: ControllerRule) {
    && Bare(r) && (s.srcCIDR != Requests.CidrAbsent || s.dstCIDR != Requests.CidrAbsent)
    && s.sport == r.sport && s.dport == r.dport && s.protocol == r.protocol
  }

  lemma OneTaken(s: ControllerRule, r: ControllerRule)
    requires Good(s) && Good(r)
    ensures TakenFor(s, r) <==> TupleOf(s) == TupleOf(r) || MistakenFor(s, r)
  {
  }

  lemma TakenIs(repo: Repo, r: ControllerRule)
    requires RepoInv(repo) && Good(r)
    ensures Taken(repo, r) <==> !TupleFree(repo, r) || Mistaken(repo, r)
  {
    hide Good, TupleOf, TakenFor, Separate;
    forall x | x in repo
      ensures TakenFor(repo[x], r) <==> TupleOf(repo[x]) == TupleOf(r) || MistakenFor(repo[x], r)
    {
      OneTaken(repo[x], r);
    }
    assert Mistaken(repo, r) <==> exists x :: x in repo && MistakenFor(repo[x], r);
  }

  /** An item of a batch is kept exactly if the store with the items kept before it could take it
      in, and it is not mistaken for a duplicate. */
  lemma KeptIff(repo: Repo, drafts: seq<Draft>, r: ControllerRule, id: Id)
    requires RepoInv(repo) && DraftsFit(repo, drafts) && FreshIds(drafts, repo)
    requires Good(r) && id !in Inserted(repo, drafts)
    ensures Admissible(repo, drafts, r) <==>
            RepoInv(Inserted(repo, drafts)[id := r]) && !Mistaken(repo, r)
  {
    hide Good, RepoInv, Fits, SrcNets, DstNets, DraftSrc, DraftDst, Inserted, TupleOf, Taken, Mistaken, DraftsFit;
    InsertedKeepsInv(repo, drafts);
    JoinsIff(Inserted(repo, drafts), id, r);
    TakenIs(repo, r);
    FreeOfBoth(repo, drafts, r);
  }

  lemma {:induction false} FreeOfBoth(repo: Repo, drafts: seq<Draft>, r: ControllerRule)
    requires FreshIds(drafts, repo)
    ensures TupleFree(Inserted(repo, drafts), r) <==>
            TupleFree(repo, r) && forall i :: 0 <= i < |drafts| ==> TupleOf(drafts[i].rule) != TupleOf(r)
  {
    hide TupleOf;
    if drafts != [] {
      var init, last := drafts[..|drafts| - 1], drafts[|drafts| - 1];
      assert forall i :: 0 <= i < |init| ==> init[i] == drafts[i];
      FreeOfBoth(repo, init, r);
      LastIdIsNew(repo, drafts);
      var mid := Inserted(repo, init);
      assert Inserted(repo, drafts) == mid[last.id := last.rule];
      if TupleFree(Inserted(repo, drafts), r) {
        forall x | x in mid
          ensures TupleOf(mid[x]) != TupleOf(r)
        {
          assert x in Inserted(repo, drafts) && Inserted(repo, drafts)[x] == mid[x];
        }
        assert last.id in Inserted(repo, drafts);
      }
    }
  }

  lemma LastIdIsNew(repo: Repo, drafts: seq<Draft>)
    requires drafts != [] && FreshIds(drafts, repo)
    ensures drafts[|drafts| - 1].id !in Inserted(repo, drafts[..|drafts| - 1])
  {
    var init, last := drafts[..|drafts| - 1], drafts[|drafts| - 1];
    if last.id in Inserted(repo, init) {
      InsertedFrom(repo, init, last.id);
    }
  }

  /** For example: while a rule on TCP port 80 of some network is stored, no batch can add the rule
      on TCP port 80 of all addresses, though Create can. */
  lemma MistakenExample(p: Prefix)
    ensures var net := ControllerRule(NoIp, NoIp, Requests.CidrNetwork(p), Requests.CidrAbsent, 0, 80, "tcp", "drop",
                                      0, 0, 0, "", 0, true);
            var bare := net.(srcCIDR := Requests.CidrAbsent);
            && RepoInv(map["n" := net]) && Good(bare) && RepoInv(map["n" := net]["b" := bare])
            && !Admissible(map["n" := net], [], bare)
  {
    hide ShareAddress;
    var net := ControllerRule(NoIp, NoIp, Requests.CidrNetwork(p), Requests.CidrAbsent, 0, 80, "tcp", "drop",
                              0, 0, 0, "", 0, true);
    var bare := net.(srcCIDR := Requests.CidrAbsent);
    var repo := map["n" := net];
    assert SrcNets(map[]) == {} && DstNets(map[]) == {};
    assert map[]["n" := net] == repo;
    JoinsIff(map[], "n", net);
    JoinsIff(repo, "b", bare);
    assert TakenFor(repo["n"], bare);
  }
}
