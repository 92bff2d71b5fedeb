/** What the controller's invariant means to a node: which rules it accepts, and that a sync of
    the controller's rules is one the agent handles well. */
module ControllerToNode {
  import opened Rules
  import opened Combo
  import opened Prefixes
  import opened Requests
  import opened TcpFlags
  import opened CidrLookup
  import opened CidrManager
  import opened RuleService
  import ShadowBuild
  import AgentRuns
  import Effects

  /** IPv4 addresses are keyed as IPv4-mapped IPv6 ones. */
  const MAPPED: nat := 0xFFFF_0000_0000

  function NodeIP(f: IpText): IpField {
    match f
    case NoIp => IpAbsent
    case BadIp => IpInvalid
    case Ip(v6, value) => if value == 0 then IpWildcard else IpAddress(if v6 then value else MAPPED + value, v6, false)
  }

  /** ToNodeRule; "all" and zero fields are left out. */
  function NodeRule(id: Id, r: ControllerRule): Rule
    requires Good(r)
  {
    Rule(id, NodeIP(r.srcIP), NodeIP(r.dstIP), r.srcCIDR, r.dstCIDR, r.sport, r.dport,
         if r.protocol == "all" then ""
         else r.protocol, r.action, r.rateLimit, r.lenMin, r.lenMax, r.tcpFlags, r.anomaly as bv8)
  }

  /** Some field of the key is set: an address other than the unspecified one, a port, a protocol. */
  predicate SetsKey(r: ControllerRule) {
    BoundedText(r.srcIP) || BoundedText(r.dstIP) || r.sport != 0 || r.dport != 0 || r.protocol != "all"
  }

  predicate IsCIDR(r: ControllerRule) { r.srcCIDR != CidrAbsent || r.dstCIDR != CidrAbsent }

  lemma ActionAccepted(id: Id, r: ControllerRule)
    requires Good(r)
    ensures ActionOk(NodeRule(id, r))
  {
    hide NormalizeTcpFlags;
    FlagsAccepted(r);
    assert r.anomaly in {0, 1, 2, 3};
  }

  /** Stored flags mean to the node what they mean to the controller. */
  lemma FlagsAccepted(r: ControllerRule)
    requires Good(r)
    ensures FilterOf(r.tcpFlags).Filter? && (FilterOf(r.tcpFlags).mask != {} ==> r.protocol == "tcp")
    ensures FilterOf(r.tcpFlags) == FirstMeaning(r.tcpFlags)
  {
    if r.tcpFlags != "" {
      NormalizedIsStable(r.tcpFlags);
    }
  }

  lemma ShapeAccepted(id: Id, r: ControllerRule)
    requires Good(r)
    ensures PortsAllowed(NodeRule(id, r))
    ensures !IsCIDR(r) ==> RuleShapeOk(NodeRule(id, r))
  {
    hide NormalizeTcpFlags;
    assert ToLower(NodeRule(id, r).protocol) == NodeRule(id, r).protocol by { LowerCase(r.protocol); }
  }

  lemma LowerCase(p: string)
    requires ValidProtocol(p)
    ensures ToLower(p) == p && ToLower("") == ""
  {
    LowerStays(p);
  }

  lemma {:induction false} LowerStays(p: string)
    requires forall i :: 0 <= i < |p| ==> !('A' <= p[i] <= 'Z')
    ensures ToLower(p) == p
  {
    if p != "" {
      LowerStays(p[1..]);
    }
  }

  function KeyFor(n: Rule): Key {
    Key(KeyField(n.srcIP), KeyField(n.dstIP), Htons(n.sport), Htons(n.dport), ParseProtocol(n.protocol))
  }

  lemma KeyIsSet(id: Id, r: ControllerRule)
    requires Good(r)
    ensures ValidCombo(ComboType(KeyFor(NodeRule(id, r)))) <==> SetsKey(r)
  {
    hide Good, ComboOf, ValidCombo, Htons;
    FieldsOf(r);
    var n := NodeRule(id, r);
    HtonsIsInvolution(n.sport);
    HtonsIsInvolution(n.dport);
    ComboAgreesWithProbes(ShapeOf(KeyFor(n)));
    assert ParseProtocol(n.protocol) != 0 <==> r.protocol != "all";
  }

  /** A CIDR rule of the controller passes all checks of every node path before ids are taken. An
      exact one passes them exactly if its key sets something: the controller stores rules that
      match every packet, and no node takes them. */
  lemma NodeAcceptsIff(id: Id, r: ControllerRule, canonical: bool, refuseMixed: bool)
    requires Good(r)
    ensures IsCIDR(r) ==> PrepareCIDR(NodeRule(id, r), canonical, refuseMixed).Some?
    ensures !IsCIDR(r) ==> (PrepareExact(NodeRule(id, r), canonical).Some? <==> SetsKey(r))
  {
    hide Good, ActionOk, RuleShapeOk, PortsAllowed, StoredFlags, BuildValue, ComboType, ValidCombo, SetsKey, Htons,
         ParseProtocol;
    ActionAccepted(id, r);
    ShapeAccepted(id, r);
    FieldsOf(r);
    KeyIsSet(id, r);
    NodeFields(id, r);
  }

  const MATCH_ALL :=
    RuleRequest(NoIp, NoIp, CidrAbsent, CidrAbsent, 0, 0, "", "drop", 0, None, None, None, "", 0, true, None)

  /** For example: an all-empty drop request is stored by the controller and taken by no node. */
  lemma MatchAllExample(id: Id, canonical: bool)
    ensures NewRule(MATCH_ALL).Some? && !SetsKey(NewRule(MATCH_ALL).value) && Good(NewRule(MATCH_ALL).value)
    ensures PrepareExact(NodeRule(id, NewRule(MATCH_ALL).value), canonical) == None
  {
    hide PrepareExact;
    NewRuleIsGood(MATCH_ALL);
    NodeAcceptsIff(id, NewRule(MATCH_ALL).value, canonical, true);
  }

  lemma NodeFields(id: Id, r: ControllerRule)
    requires Good(r)
    ensures var n := NodeRule(id, r);
            && !n.srcIP.IpInvalid? && !n.dstIP.IpInvalid? && !n.srcCIDR.CidrInvalid? && !n.dstCIDR.CidrInvalid?
            && (HasCIDR(n) <==> IsCIDR(r)) && (IsCIDR(r) ==> !HasExactIP(n))
  {
    hide Good;
    FieldsOf(r);
  }

  lemma FieldsOf(r: ControllerRule)
    requires Good(r)
    ensures !r.srcIP.BadIp? && !r.dstIP.BadIp? && !r.srcCIDR.CidrInvalid? && !r.dstCIDR.CidrInvalid?
    ensures 0 <= r.sport < 0x1_0000 && 0 <= r.dport < 0x1_0000 && ValidProtocol(r.protocol)
    ensures IsCIDR(r) ==> r.srcIP == NoIp && r.dstIP == NoIp
  {
  }

  // ---- A sync of the whole store ----

  /** The request lists rules of the store, each id once. */
  ghost predicate ListsRepo(reqs: seq<Rule>, ids: seq<Id>, repo: Repo) {
    && RepoInv(repo) && |ids| == |reqs|
    && (forall i :: 0 <= i < |ids| ==> ids[i] in repo && reqs[i] == NodeRule(ids[i], repo[ids[i]]))
    && forall i, j :: 0 <= i < j < |ids| ==> ids[i] != ids[j]
  }

  /** Each endpoint of such a request is a prefix of the store, on its side. */
  lemma {:induction false} AskedOfRepo(reqs: seq<Rule>, ids: seq<Id>, repo: Repo, e: Endpoint)
    requires ListsRepo(reqs, ids, repo) && e in ShadowBuild.AskedEnds(reqs)
    ensures e.prefix in (if e.dir == Src then SrcNets(repo) else DstNets(repo))
  {
    hide Good, Separate;
    var n := |reqs| - 1;
    var r := repo[ids[n]];
    if PrepareCIDR(reqs[n], false, true).Some? && e in Ends(PrepareCIDR(reqs[n], false, true).value.stored) {
      assert e.prefix in Nets(if e.dir == Src then r.srcCIDR else r.dstCIDR);
    } else {
      assert forall i :: 0 <= i < n ==> reqs[..n][i] == reqs[i] && ids[..n][i] == ids[i];
      AskedOfRepo(reqs[..n], ids[..n], repo, e);
    }
  }

  /** An atomic sync of the controller's rules meets both conditions under which the agent keeps
      its invariant and the CIDR lookup stays complete: no id twice, disjoint prefixes. */
  lemma SyncFromControllerIsBenign(reqs: seq<Rule>, ids: seq<Id>, repo: Repo, rules: map<Id, Stored>, index: map<Key,
                                   Id>)
    requires ListsRepo(reqs, ids, repo)
    ensures AgentRuns.Benign(Effects.AtomicSync(reqs), rules, index)
    ensures AgentRuns.DisjointSync(Effects.AtomicSync(reqs))
  {
    hide Good, ShareAddress, ShadowBuild.AskedEnds;
    forall e, f | e in ShadowBuild.AskedEnds(reqs) && f in ShadowBuild.AskedEnds(reqs) && e.dir == f.dir && e != f
      ensures !ShareAddress(e.prefix, f.prefix)
    {
      AskedOfRepo(reqs, ids, repo, e);
      AskedOfRepo(reqs, ids, repo, f);
    }
  }
}
