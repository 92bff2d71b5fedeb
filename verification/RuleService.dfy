/** rule_service.go and decoder.go: the controller's rule store, what it accepts, and the
    invariant that all its operations keep. */
module RuleService {
  import opened Rules
  import opened Prefixes
  import opened Requests
  import opened TcpFlags

  const MAX16: int := 65535
  const MAX32: int := 0xFFFF_FFFF

  /** An address field: empty, unparsable, or an address in canonical form (value 0 is the
      unspecified address of either family). */
  datatype IpText = NoIp | BadIp | Ip(v6: bool, value: nat)

  datatype RuleRequest = RuleRequest(
    srcIP: IpText, dstIP: IpText, srcCIDR: CidrField, dstCIDR: CidrField, sport: int, dport: int, protocol: string,
    action: string, rateLimit: int, lenMin: Option<int>, lenMax: Option<int>, tcpFlags: Option<string>,
    decoder: string, anomaly: int, expiryOk: bool, enabled: Option<bool>)

  datatype ControllerRule = ControllerRule(
    srcIP: IpText, dstIP: IpText, srcCIDR: CidrField, dstCIDR: CidrField, sport: int, dport: int, protocol: string,
    action: string, rateLimit: int, lenMin: int, lenMax: int, tcpFlags: string, anomaly: int, enabled: bool)

  datatype Tuple = Tuple(srcIP: IpText, dstIP: IpText, srcCIDR: CidrField, dstCIDR: CidrField, sport: int, dport: int,
                         protocol: string)

  function TupleOf(r: ControllerRule): Tuple {
    Tuple(r.srcIP, r.dstIP, r.srcCIDR, r.dstCIDR, r.sport, r.dport, r.protocol)
  }

  type Repo = map<Id, ControllerRule>

  // ---- decoder.go ----

  datatype Decoder = Decoder(protocol: string, tcpFlags: string, bits: int)

  const BAD_FRAGMENT: int := 1
  const INVALID: int := 2

  function KnownDecoder(name: string): Option<Decoder> {
    if name == "tcp_ack" then Some(Decoder("tcp", "ACK,!SYN", 0))
    else if name == "tcp_rst" then Some(Decoder("tcp", "RST", 0))
    else if name == "tcp_fin" then Some(Decoder("tcp", "FIN", 0))
    else if name == "bad_fragment" then Some(Decoder("", "", BAD_FRAGMENT))
    else if name == "invalid" then Some(Decoder("", "", INVALID))
    else None
  }

  predicate V6Text(f: IpText) { f.Ip? && f.v6 }

  predicate V6Net(f: CidrField) { f.CidrNetwork? && f.prefix.v6 }

  predicate NamesV6(srcIP: IpText, dstIP: IpText, srcCIDR: CidrField, dstCIDR: CidrField) {
    V6Text(srcIP) || V6Text(dstIP) || V6Net(srcCIDR) || V6Net(dstCIDR)
  }

  predicate NamesTarget(srcIP: IpText, dstIP: IpText, srcCIDR: CidrField, dstCIDR: CidrField) {
    srcIP != NoIp || dstIP != NoIp || srcCIDR != CidrAbsent || dstCIDR != CidrAbsent
  }

  /** normalizeDecoderInternal on a request whose target fields are the four given. */
  function Expand(req: RuleRequest, srcIP: IpText, dstIP: IpText, srcCIDR: CidrField, dstCIDR: CidrField,
                  needTarget: bool)
    : Option<RuleRequest>
  {
    if req.decoder == "" then Some(req)
    else
      match KnownDecoder(req.decoder)
      case None => None
      case Some(spec) =>
        if req.protocol != "" || (req.tcpFlags.Some? && req.tcpFlags.value != "") || req.anomaly != 0 then None
        else if spec.bits != 0 && req.action == "rate_limit" then None
        else if spec.bits == BAD_FRAGMENT && NamesV6(srcIP, dstIP, srcCIDR, dstCIDR) then None
        else if spec.bits != 0 && needTarget && !NamesTarget(srcIP, dstIP, srcCIDR, dstCIDR) then None
        else Some(req.(protocol := spec.protocol,
                       tcpFlags := if spec.tcpFlags != "" then Some(spec.tcpFlags) else req.tcpFlags,
                       anomaly := if spec.bits != 0 then spec.bits else req.anomaly,
                       decoder := ""))
  }

  /** normalizeDecoder */
  function NormalizeDecoder(req: RuleRequest): Option<RuleRequest> {
    Expand(req, req.srcIP, req.dstIP, req.srcCIDR, req.dstCIDR, true)
  }

  /** normalizeDecoderForUpdate: without a target of its own a request is judged by the rule's. */
  function NormalizeDecoderForUpdate(req: RuleRequest, r: ControllerRule): Option<RuleRequest> {
    if !NamesTarget(req.srcIP, req.dstIP, req.srcCIDR, req.dstCIDR)
    then Expand(req, r.srcIP, r.dstIP, r.srcCIDR, r.dstCIDR, false)
    else NormalizeDecoder(req)
  }

  predicate BoundedText(f: IpText) { f.Ip? && f.value != 0 }

  predicate BoundedTarget(srcIP: IpText, dstIP: IpText, srcCIDR: CidrField, dstCIDR: CidrField) {
    BoundedText(srcIP) || BoundedText(dstIP) || BoundedCIDR(srcCIDR) || BoundedCIDR(dstCIDR)
  }

  predicate HasBadFragment(bits: int) { bits % 2 == 1 }

  predicate HasInvalid(bits: int) { (bits / 2) % 2 == 1 }

  /** validateAnomalyEffective */
  predicate AnomalyAllowed(bits: int, action: string, srcIP: IpText, dstIP: IpText, srcCIDR: CidrField,
                           dstCIDR: CidrField) {
    bits == 0 ||
    (0 < bits <= 3 && action != "rate_limit"
     && BoundedTarget(srcIP, dstIP, srcCIDR, dstCIDR)
     && (HasBadFragment(bits) ==> !NamesV6(srcIP, dstIP, srcCIDR, dstCIDR)))
  }

  // ---- The checks of rule_service.go ----

  predicate ValidAction(action: string) { action == "drop" || action == "rate_limit" }

  predicate ValidProtocol(p: string) {
    p in {"all", "tcp", "udp", "icmp", "icmpv6", "igmp", "gre", "esp"}
  }

  /** validateRuleScalarBounds */
  predicate InBounds(req: RuleRequest) {
    && 0 <= req.sport <= MAX16 && 0 <= req.dport <= MAX16
    && (req.lenMin.Some? ==> 0 <= req.lenMin.value <= MAX16)
    && (req.lenMax.Some? ==> 0 <= req.lenMax.value <= MAX16)
    && 0 <= req.rateLimit <= MAX32
    && !(req.action == "drop" && req.rateLimit > 0)
  }

  function Or<T>(x: Option<T>, default_: T): T {
    if x.Some? then x.value else default_
  }

  /** The length part of validatePktLenRule. */
  predicate LengthsOk(lenMin: int, lenMax: int, hasTuple: bool) {
    && (lenMin > 0 || lenMax > 0 ==> hasTuple)
    && !(lenMin > 0 && lenMax > 0 && lenMin > lenMax)
  }

  /** The flag part: None is an error, otherwise the normalized flags. */
  function FlagsFor(flags: string, protocol: string): Option<string> {
    if flags == "" then Some("") else if protocol != "tcp" then None else NormalizeTcpFlags(flags)
  }

  predicate NamesTuple(t: Tuple) {
    || NamesTarget(t.srcIP, t.dstIP, t.srcCIDR, t.dstCIDR)
    || t.sport != 0 || t.dport != 0 || (t.protocol != "" && t.protocol != "all")
  }

  /** Everything Create and BatchCreate check without the store, and the rule that results. */
  function NewRule(request: RuleRequest): Option<ControllerRule> {
    match NormalizeDecoder(request)
    case None => None
    case Some(req) =>
      var tuple := Tuple(req.srcIP, req.dstIP, req.srcCIDR, req.dstCIDR, req.sport, req.dport, req.protocol);
      var flags := FlagsFor(Or(req.tcpFlags, ""), req.protocol);
      if !ValidAction(req.action) || (req.action == "rate_limit" && req.rateLimit <= 0) then None
      else if req.srcIP.BadIp? || req.dstIP.BadIp? || !InBounds(req) then None
      else if !(req.protocol == "" || ValidProtocol(req.protocol)) then None
      else if Portless(req.protocol) && !(req.sport == 0 && req.dport == 0) then None
      else if !LengthsOk(Or(req.lenMin, 0), Or(req.lenMax, 0), NamesTuple(tuple)) || flags.None? then None
      else if (req.srcCIDR != CidrAbsent || req.dstCIDR != CidrAbsent)
              && (req.srcIP != NoIp || req.dstIP != NoIp) then None
      else if req.srcCIDR.CidrInvalid? || req.dstCIDR.CidrInvalid? then None
      else if !AnomalyAllowed(req.anomaly, req.action, req.srcIP, req.dstIP, req.srcCIDR, req.dstCIDR) then None
      else if flags.value != "" && req.anomaly != 0 then None
      else
        Some(ControllerRule(req.srcIP, req.dstIP, req.srcCIDR, req.dstCIDR, req.sport, req.dport,
                            if req.protocol == "" then "all" else req.protocol,
                            req.action, req.rateLimit, Or(req.lenMin, 0), Or(req.lenMax, 0), flags.value, req.anomaly,
                            Or(req.enabled, true)))
  }

  // ---- The invariant ----

  /** What every stored rule satisfies. */
  predicate Good(r: ControllerRule) {
    && ValidAction(r.action) && 0 <= r.rateLimit <= MAX32 && (r.rateLimit > 0 <==> r.action == "rate_limit")
    && 0 <= r.sport <= MAX16 && 0 <= r.dport <= MAX16 && ValidProtocol(r.protocol)
    && (Portless(r.protocol) ==> r.sport == 0 && r.dport == 0)
    && 0 <= r.lenMin <= MAX16 && 0 <= r.lenMax <= MAX16 && LengthsOk(r.lenMin, r.lenMax, NamesTuple(TupleOf(r)))
    && (r.tcpFlags != "" ==> r.protocol == "tcp" && r.anomaly == 0 && NormalizeTcpFlags(r.tcpFlags) == Some(r.tcpFlags))
    && AnomalyAllowed(r.anomaly, r.action, r.srcIP, r.dstIP, r.srcCIDR, r.dstCIDR)
    && !r.srcIP.BadIp? && !r.dstIP.BadIp? && !r.srcCIDR.CidrInvalid? && !r.dstCIDR.CidrInvalid?
    && (r.srcCIDR != CidrAbsent || r.dstCIDR != CidrAbsent ==> r.srcIP == NoIp && r.dstIP == NoIp)
  }

  function Nets(f: CidrField): set<Prefix> {
    if f.CidrNetwork? then {f.prefix} else {}
  }

  ghost function SrcNets(repo: Repo): set<Prefix> {
    set id, p | id in repo && p in Nets(repo[id].srcCIDR) :: p
  }

  ghost function DstNets(repo: Repo): set<Prefix> {
    set id, p | id in repo && p in Nets(repo[id].dstCIDR) :: p
  }

  /** Good rules, no two of one tuple, and on each side prefixes that are equal or disjoint. */
  ghost predicate RepoInv(repo: Repo) {
    && (forall id :: id in repo ==> Good(repo[id]))
    && (forall x, y :: x in repo && y in repo && TupleOf(repo[x]) == TupleOf(repo[y]) ==> x == y)
    && Separate(SrcNets(repo)) && Separate(DstNets(repo))
  }

  /** An accepted request yields a good rule. */
  lemma NewRuleIsGood(req: RuleRequest)
    ensures NewRule(req).Some? ==> Good(NewRule(req).value)
  {
    hide NormalizeTcpFlags, NamesV6, BoundedTarget;
    if NewRule(req).Some? {
      var flags := Or(NormalizeDecoder(req).value.tcpFlags, "");
      if flags != "" {
        NormalizedIsStable(flags);
      }
    }
  }

  // ---- Adding to the store ----

  /** The prefix of a new rule passed the overlap check against all stored ones of its side. */
  ghost predicate Fits(f: CidrField, nets: set<Prefix>) {
    forall p, q :: p in Nets(f) && q in nets && p != q ==> !ShareAddress(p, q)
  }

  lemma FitsKeepsSeparate(f: CidrField, nets: set<Prefix>)
    requires Separate(nets) && Fits(f, nets)
    ensures Separate(nets + Nets(f))
  {
    forall p, q | p in nets + Nets(f) && q in nets + Nets(f) && p != q
      ensures !ShareAddress(p, q)
    {
      ShareSymmetric(p, q);
    }
  }

  lemma AddedKeepsInv(repo: Repo, id: Id, r: ControllerRule)
    requires RepoInv(repo) && id !in repo && Good(r) && TupleFree(repo, r)
    requires Fits(r.srcCIDR, SrcNets(repo)) && Fits(r.dstCIDR, DstNets(repo))
    ensures RepoInv(repo[id := r])
    ensures SrcNets(repo[id := r]) == SrcNets(repo) + Nets(r.srcCIDR)
    ensures DstNets(repo[id := r]) == DstNets(repo) + Nets(r.dstCIDR)
  {
    hide Good, ShareAddress;
    FitsKeepsSeparate(r.srcCIDR, SrcNets(repo));
    FitsKeepsSeparate(r.dstCIDR, DstNets(repo));
    NetsAdded(repo, id, r);
  }

  lemma NetsAdded(repo: Repo, id: Id, r: ControllerRule)
    requires id !in repo
    ensures SrcNets(repo[id := r]) == SrcNets(repo) + Nets(r.srcCIDR)
    ensures DstNets(repo[id := r]) == DstNets(repo) + Nets(r.dstCIDR)
  {
    var new_ := repo[id := r];
    forall p ensures p in SrcNets(new_) <==> p in SrcNets(repo) + Nets(r.srcCIDR) {
      if p in SrcNets(repo) {
        var x :| x in repo && p in Nets(repo[x].srcCIDR);
        assert x in new_ && new_[x] == repo[x];
      }
      if p in Nets(r.srcCIDR) { assert new_[id] == r; }
    }
    forall p ensures p in DstNets(new_) <==> p in DstNets(repo) + Nets(r.dstCIDR) {
      if p in DstNets(repo) {
        var x :| x in repo && p in Nets(repo[x].dstCIDR);
        assert x in new_ && new_[x] == repo[x];
      }
      if p in Nets(r.dstCIDR) { assert new_[id] == r; }
    }
  }

  lemma RemovedKeepsInv(repo: Repo, repo': Repo)
    requires RepoInv(repo) && forall id :: id in repo' ==> id in repo && repo'[id] == repo[id]
    ensures RepoInv(repo')
  {
    hide Good, ShareAddress;
    assert SrcNets(repo') <= SrcNets(repo) && DstNets(repo') <= DstNets(repo);
  }

  /** A rule is replaced by a good one with the same tuple. */
  lemma ChangedKeepsInv(repo: Repo, id: Id, r: ControllerRule)
    requires RepoInv(repo) && id in repo && Good(r) && TupleOf(r) == TupleOf(repo[id])
    ensures RepoInv(repo[id := r])
  {
    hide Good, ShareAddress;
    var new_ := repo[id := r];
    assert SrcNets(new_) <= SrcNets(repo) && DstNets(new_) <= DstNets(repo);
  }

  // ---- Merging anomaly bits ----

  /** The bitwise or of two masks of the two anomaly bits. */
  function OrBits(a: int, b: int): int {
    (if HasBadFragment(a) || HasBadFragment(b) then BAD_FRAGMENT else 0)
    + (if HasInvalid(a) || HasInvalid(b) then INVALID else 0)
  }

  lemma OrBitsLaws(a: int, b: int, c: int)
    requires 0 <= a <= 3 && 0 <= b <= 3 && 0 <= c <= 3
    ensures 0 <= OrBits(a, b) <= 3 && (OrBits(a, b) == 0 <==> a == 0 && b == 0)
    ensures OrBits(a, b) == OrBits(b, a) && OrBits(OrBits(a, b), c) == OrBits(a, OrBits(b, c)) && OrBits(a, a) == a
    ensures HasBadFragment(OrBits(a, b)) <==> HasBadFragment(a) || HasBadFragment(b)
    ensures HasInvalid(OrBits(a, b)) <==> HasInvalid(a) || HasInvalid(b)
  {
  }

  datatype CreateOutcome = Created | Merged | Refused

  /** tryAnomalyMerge, when a rule with the tuple is already stored. */
  predicate Mergeable(old_: ControllerRule, r: ControllerRule) {
    r.anomaly != 0 && old_.anomaly != 0 && old_.action == r.action
  }

  predicate MergesInto(old_: ControllerRule, r: ControllerRule) {
    TupleOf(old_) == TupleOf(r) && Mergeable(old_, r)
  }

  function Merge(old_: ControllerRule, r: ControllerRule): ControllerRule {
    old_.(anomaly := OrBits(old_.anomaly, r.anomaly))
  }

  lemma MergedIsGood(old_: ControllerRule, r: ControllerRule)
    requires Good(old_) && Good(r) && MergesInto(old_, r)
    ensures Good(Merge(old_, r)) && TupleOf(Merge(old_, r)) == TupleOf(old_)
  {
    hide NormalizeTcpFlags, NamesV6, BoundedTarget;
    OrBitsLaws(old_.anomaly, r.anomaly, 0);
  }

  // ---- The service ----

  /** A rule can be created: its prefixes fit, and its tuple is free, or taken by a rule that it
      can be merged into. */
  ghost predicate Creatable(repo: Repo, id: Id, r: ControllerRule, expiryOk: bool) {
    && Fits(r.srcCIDR, SrcNets(repo)) && Fits(r.dstCIDR, DstNets(repo))
    && (TupleFree(repo, r) ==> expiryOk && id !in repo)
    && forall x :: x in repo && TupleOf(repo[x]) == TupleOf(r) ==> Mergeable(repo[x], r)
  }

  datatype UpdateOutcome = Updated | NotFound | UpdateRefused

  /** The rule that Update computes from the stored one, field by field; None is an error. */
  function UpdatedRule(r: ControllerRule, request: RuleRequest): Option<ControllerRule> {
    match NormalizeDecoderForUpdate(request, r)
    case None => None
    case Some(req) =>
      var anomaly := if req.anomaly != 0 then req.anomaly else r.anomaly;
      var action := if req.action != "" then req.action else r.action;
      var rate := if req.rateLimit > 0 then req.rateLimit else r.rateLimit;
      var lenMin, lenMax := Or(req.lenMin, r.lenMin), Or(req.lenMax, r.lenMax);
      var flags := if req.tcpFlags.None? then Some(r.tcpFlags) else FlagsFor(req.tcpFlags.value, r.protocol);
      if req.srcCIDR != CidrAbsent || req.dstCIDR != CidrAbsent || req.srcIP != NoIp || req.dstIP != NoIp then None
      else if req.protocol != "" && req.protocol != r.protocol then None
      else if (req.sport != 0 && req.sport != r.sport) || (req.dport != 0 && req.dport != r.dport) then None
      else if !InBounds(req) || !AnomalyAllowed(anomaly, action, r.srcIP, r.dstIP, r.srcCIDR, r.dstCIDR) then None
      else if !LengthsOk(lenMin, lenMax,
                         NamesTuple(Tuple(r.srcIP, r.dstIP, CidrAbsent, CidrAbsent, r.sport, r.dport, r.protocol)))
              then None
      else if req.action != "" && !ValidAction(req.action) then None
      else if action == "rate_limit" && rate <= 0 then None
      else if req.rateLimit > 0 && action == "drop" then None
      else if flags.None? || (flags.value != "" && anomaly != 0) then None
      else Some(r.(action := action, rateLimit := if action == "drop" then 0 else rate,
                   lenMin := lenMin, lenMax := lenMax,
                   tcpFlags := flags.value, anomaly := anomaly, enabled := Or(req.enabled, r.enabled)))
  }

  lemma UpdatedIsGood(r: ControllerRule, req: RuleRequest)
    requires Good(r)
    ensures UpdatedRule(r, req).Some? ==>
              Good(UpdatedRule(r, req).value) && TupleOf(UpdatedRule(r, req).value) == TupleOf(r)
  {
    hide NormalizeTcpFlags, NamesV6, BoundedTarget;
    if UpdatedRule(r, req).Some? {
      var q := NormalizeDecoderForUpdate(req, r).value;
      if q.tcpFlags.Some? && q.tcpFlags.value != "" {
        NormalizedIsStable(q.tcpFlags.value);
      }
    }
  }

  /** The store's own writes may fail, unless it is `reliable`. */
  class RuleService {
    const reliable: bool
    var repo: Repo

    ghost predicate Valid()
      reads this
    {
      RepoInv(repo)
    }

    constructor (reliable: bool)
      ensures Valid() && repo == map[] && this.reliable == reliable
    {
      this.reliable := reliable;
      repo := map[];
    }

    /** A write to the store, which goes through or not. */
    method Write(next: Repo) returns (written: bool)
      modifies this
      ensures repo == if written then next else old(repo)
      ensures reliable ==> written
    {
      written := *;
      written := written || reliable;
      if written {
        repo := next;
      }
    }

    /** GetByTuple and GetByCIDRTuple. */
    method GetByTuple(t: Tuple) returns (id: Option<Id>)
      ensures id.Some? ==> id.value in repo && TupleOf(repo[id.value]) == t
      ensures id.None? ==> forall x :: x in repo ==> TupleOf(repo[x]) != t
    {
      var todo := repo.Keys;
      while todo != {}
        invariant todo <= repo.Keys && forall x :: x in repo && x !in todo ==> TupleOf(repo[x]) != t
        decreases todo
      {
        var x :| x in todo;
        if TupleOf(repo[x]) == t {
          return Some(x);
        }
        todo := todo - {x};
      }
      id := None;
    }

    /** ListSrcCIDRs or ListDstCIDRs, then findCIDROverlap. */
    method CheckOverlap(f: CidrField, src: bool) returns (ok: bool)
      ensures ok <==> Fits(f, if src then SrcNets(repo) else DstNets(repo))
    {
      if !f.CidrNetwork? {
        return true;
      }
      var existing: seq<Prefix> := [];
      var todo := repo.Keys;
      while todo != {}
        invariant todo <= repo.Keys
        invariant forall p :: p in existing <==>
                    exists x :: x in repo && x !in todo && p in Nets(if src then repo[x].srcCIDR else repo[x].dstCIDR)
        decreases todo
      {
        var x :| x in todo;
        ghost var before := existing;
        var g := if src then repo[x].srcCIDR else repo[x].dstCIDR;
        todo := todo - {x};
        if g.CidrNetwork? {
          existing := existing + [g.prefix];
        }
        forall p
          ensures p in existing <==>
                    exists y :: y in repo && y !in todo && p in Nets(if src then repo[y].srcCIDR else repo[y].dstCIDR)
        {
          if p in existing && p !in before { assert p in Nets(g); }
        }
      }
      var conflict := FindCIDROverlap(f.prefix, existing);
      ok := conflict.None?;
      if ok {
        forall q | q in (if src then SrcNets(repo) else DstNets(repo)) && f.prefix != q
          ensures !ShareAddress(f.prefix, q)
        {
          assert q in existing;
        }
      } else {
        assert conflict.value in (if src then SrcNets(repo) else DstNets(repo));
      }
    }

    /** Create. The store may refuse the write. Otherwise a request is refused exactly if it is not
        acceptable, overlaps, has a taken tuple without being mergeable into that rule, or is
        to be a rule of its own with a bad expiry or an id that is taken after all. */
    method Create(id: Id, req: RuleRequest) returns (r: CreateOutcome)
      requires Valid()
      modifies this
      ensures Valid()
      ensures r == Created ==>
                && NewRule(req).Some? && id !in old(repo) && repo == old(repo)[id := NewRule(req).value]
                && (forall x :: x in old(repo) ==> TupleOf(old(repo)[x]) != TupleOf(NewRule(req).value))
      ensures r == Merged ==>
                && NewRule(req).Some?
                && exists x :: x in old(repo) && MergesInto(old(repo)[x], NewRule(req).value)
                               && repo == old(repo)[x := Merge(old(repo)[x], NewRule(req).value)]
      ensures r == Refused ==> repo == old(repo)
      ensures reliable ==>
                (r != Refused <==> NewRule(req).Some? && Creatable(old(repo), id, NewRule(req).value, req.expiryOk))
    {
      hide NewRule, Good, Separate, Mergeable, Fits;
      var made := NewRule(req);
      if made.None? {
        return Refused;
      }
      NewRuleIsGood(req);
      var rule := made.value;
      var srcOk := CheckOverlap(rule.srcCIDR, true);
      var dstOk := CheckOverlap(rule.dstCIDR, false);
      if !srcOk || !dstOk {
        return Refused;
      }
      var existing := GetByTuple(TupleOf(rule));
      if existing.Some? {
        var x := existing.value;
        if !Mergeable(repo[x], rule) {
          return Refused;
        }
        MergedIsGood(repo[x], rule);
        var merged := Merge(repo[x], rule);
        ChangedKeepsInv(repo, x, merged);
        if merged.anomaly != repo[x].anomaly {
          var written := Write(repo[x := merged]);
          if !written {
            return Refused;
          }
        }
        assert repo == old(repo)[x := merged];
        return Merged;
      }
      if !req.expiryOk || id in repo {
        return Refused;
      }
      AddedKeepsInv(repo, id, rule);
      var written := Write(repo[id := rule]);
      r := if written then Created else Refused;
    }

    /** Update */
    method Update(id: Id, req: RuleRequest) returns (r: UpdateOutcome)
      requires Valid()
      modifies this
      ensures Valid()
      ensures r == NotFound <==> id !in old(repo)
      ensures r == Updated ==>
                UpdatedRule(old(repo)[id], req).Some? && repo == old(repo)[id := UpdatedRule(old(repo)[id], req).value]
      ensures r != Updated ==> repo == old(repo)
      ensures reliable && id in old(repo) && UpdatedRule(old(repo)[id], req).Some? ==> r == Updated
    {
      hide UpdatedRule, Good, Separate;
      if id !in repo {
        return NotFound;
      }
      var changed := UpdatedRule(repo[id], req);
      if changed.None? {
        return UpdateRefused;
      }
      UpdatedIsGood(repo[id], req);
      ChangedKeepsInv(repo, id, changed.value);
      var written := Write(repo[id := changed.value]);
      r := if written then Updated else UpdateRefused;
    }

    /** Delete, BatchDelete and DeleteExpired: some rules go. */
    method Delete(ids: set<Id>) returns (ok: bool)
      requires Valid()
      modifies this
      ensures Valid()
      ensures repo == if ok then old(repo) - ids else old(repo)
      ensures reliable ==> ok
    {
      hide Good, Separate;
      RemovedKeepsInv(repo, repo - ids);
      ok := Write(repo - ids);
    }

    /** Exists and CIDRExists. Unlike GetByTuple, the former compares addresses, ports and protocol
        only, so an item without addresses is also refused for the sake of a CIDR rule. */
    method ExistsFor(r: ControllerRule) returns (found: bool)
      ensures !found ==> TupleFree(repo, r)
      ensures found <==> Taken(repo, r)
    {
      var todo := repo.Keys;
      while todo != {}
        invariant todo <= repo.Keys && forall x :: x in repo && x !in todo ==> !TakenFor(repo[x], r)
        decreases todo
      {
        var x :| x in todo;
        if TakenFor(repo[x], r) {
          return true;
        }
        todo := todo - {x};
      }
      found := false;
    }

    /** BatchCreate: items that fail a check are skipped, the others are inserted in one
        transaction. An item is checked against the store and against the items kept before it;
        which ones are kept does not depend on anything else. */
    method BatchCreate(ids: seq<Id>, reqs: seq<RuleRequest>) returns (ok: bool, made: seq<Draft>, failed: nat)
      requires Valid() && |ids| == |reqs|
      modifies this
      ensures Valid()
      ensures failed + |made| == |reqs|
      ensures made == Drafted(old(repo), ids, reqs)
      ensures forall d :: d in made ==>
                exists i :: 0 <= i < |reqs| && d.id == ids[i] && NewRule(reqs[i]) == Some(d.rule)
      ensures repo == if ok then Inserted(old(repo), made) else old(repo)
      ensures reliable && FreshIds(made, old(repo)) ==> ok
    {
      hide NewRule, Good, Separate, Taken, Inserted, Admissible, Fits, Overlaps, Lists, TupleFree, DraftsFit, TupleOf,
           DraftSrc, DraftDst, SrcNets, DstNets;
      made, failed := [], 0;
      var pendingSrc: seq<Prefix>, pendingDst: seq<Prefix>, seen: set<Tuple> := [], [], {};
      NothingDrafted(repo);
      for n := 0 to |reqs|
        invariant repo == old(repo) && failed + |made| == n && made == Drafted(repo, ids[..n], reqs[..n])
        invariant DraftsFit(repo, made)
        invariant forall p :: p in pendingSrc <==> p in DraftSrc(made)
        invariant forall p :: p in pendingDst <==> p in DraftDst(made)
        invariant Lists(seen, made)
      {
        var drafted := NewRule(reqs[n]);
        var accepted := false;
        assert reqs[..n + 1][..n] == reqs[..n] && ids[..n + 1][..n] == ids[..n];
        if drafted.Some? {
          NewRuleIsGood(reqs[n]);
          accepted := CheckItem(drafted.value, pendingSrc, pendingDst, seen);
          AdmissibleIff(repo, made, drafted.value, pendingSrc, pendingDst, seen);
        }
        if accepted {
          var rule := drafted.value;
          FitTogether(repo, made);
          FitsBoth(rule.srcCIDR, SrcNets(repo), DraftSrc(made), pendingSrc);
          FitsBoth(rule.dstCIDR, DstNets(repo), DraftDst(made), pendingDst);
          TupleUnseen(made, rule, seen);
          OneMoreDraft(repo, made, Draft(ids[n], rule));
          if rule.srcCIDR.CidrNetwork? {
            pendingSrc := pendingSrc + [rule.srcCIDR.prefix];
          }
          if rule.dstCIDR.CidrNetwork? {
            pendingDst := pendingDst + [rule.dstCIDR.prefix];
          }
          SeenMore(made, Draft(ids[n], rule), seen);
          seen := seen + {TupleOf(rule)};
          made := made + [Draft(ids[n], rule)];
        } else {
          failed := failed + 1;
        }
      }
      assert reqs[..|reqs|] == reqs && ids[..|ids|] == ids;
      forall d | d in made
        ensures exists i :: 0 <= i < |reqs| && d.id == ids[i] && NewRule(reqs[i]) == Some(d.rule)
      {
        DraftedFrom(repo, ids, reqs, d);
      }
      ok := FreshIds(made, repo);
      if ok {
        InsertedKeepsInv(repo, made);
        ok := Write(Inserted(repo, made));
      }
    }

    /** The checks of one item against the store and the items before it. */
    method CheckItem(r: ControllerRule, pendingSrc: seq<Prefix>, pendingDst: seq<Prefix>, seen: set<Tuple>)
      returns (ok: bool)
      ensures ok <==>
                && Fits(r.srcCIDR, SrcNets(repo))
                && (r.srcCIDR.CidrNetwork? ==> !Overlaps(r.srcCIDR.prefix, pendingSrc))
                && Fits(r.dstCIDR, DstNets(repo))
                && (r.dstCIDR.CidrNetwork? ==> !Overlaps(r.dstCIDR.prefix, pendingDst))
                && TupleOf(r) !in seen && !Taken(repo, r)
      ensures ok ==> TupleFree(repo, r)
    {
      hide Fits, Overlaps, TakenFor;
      ok := CheckOverlap(r.srcCIDR, true);
      if !ok { return; }
      ok := CheckOverlap(r.dstCIDR, false);
      if !ok { return; }
      if r.srcCIDR.CidrNetwork? {
        var conflict := FindCIDROverlap(r.srcCIDR.prefix, pendingSrc);
        if conflict.Some? { return false; }
      }
      if r.dstCIDR.CidrNetwork? {
        var conflict := FindCIDROverlap(r.dstCIDR.prefix, pendingDst);
        if conflict.Some? { return false; }
      }
      var found := ExistsFor(r);
      ok := !found && TupleOf(r) !in seen;
    }
  }

  /** The duplicate queries of the batch path. */
  predicate TakenFor(s: ControllerRule, r: ControllerRule) {
    && s.sport == r.sport && s.dport == r.dport && s.protocol == r.protocol
    && if r.srcCIDR != CidrAbsent || r.dstCIDR != CidrAbsent then s.srcCIDR == r.srcCIDR && s.dstCIDR == r.dstCIDR
       else s.srcIP == r.srcIP && s.dstIP == r.dstIP
  }

  ghost predicate Taken(repo: Repo, r: ControllerRule) {
    exists x :: x in repo && TakenFor(repo[x], r)
  }

  // ---- Batches ----

  datatype Draft = Draft(id: Id, rule: ControllerRule)

  function DraftSrc(drafts: seq<Draft>): set<Prefix> {
    if drafts == [] then {} else DraftSrc(drafts[..|drafts| - 1]) + Nets(drafts[|drafts| - 1].rule.srcCIDR)
  }

  function DraftDst(drafts: seq<Draft>): set<Prefix> {
    if drafts == [] then {} else DraftDst(drafts[..|drafts| - 1]) + Nets(drafts[|drafts| - 1].rule.dstCIDR)
  }

  function Inserted(repo: Repo, drafts: seq<Draft>): Repo {
    if drafts == [] then repo
    else Inserted(repo, drafts[..|drafts| - 1])[drafts[|drafts| - 1].id := drafts[|drafts| - 1].rule]
  }

  predicate FreshIds(drafts: seq<Draft>, repo: Repo) {
    && (forall i :: 0 <= i < |drafts| ==> drafts[i].id !in repo)
    && forall i, j :: 0 <= i < j < |drafts| ==> drafts[i].id != drafts[j].id
  }

  /** The next item of a batch can be added to the store and the items before it. */
  ghost predicate Admissible(repo: Repo, drafts: seq<Draft>, r: ControllerRule) {
    && Fits(r.srcCIDR, SrcNets(repo) + DraftSrc(drafts)) && Fits(r.dstCIDR, DstNets(repo) + DraftDst(drafts))
    && !Taken(repo, r) && forall i :: 0 <= i < |drafts| ==> TupleOf(drafts[i].rule) != TupleOf(r)
  }

  /** The items of a batch that are kept: each one that is acceptable and admissible after those
      kept before it. */
  ghost function Drafted(repo: Repo, ids: seq<Id>, reqs: seq<RuleRequest>): seq<Draft>
    requires |ids| == |reqs|
    decreases |reqs|
  {
    if reqs == [] then []
    else
      var n := |reqs| - 1;
      var before, r := Drafted(repo, ids[..n], reqs[..n]), NewRule(reqs[n]);
      if r.Some? && Admissible(repo, before, r.value) then before + [Draft(ids[n], r.value)] else before
  }

  /** The tuples of the items kept so far. */
  ghost predicate Lists(seen: set<Tuple>, drafts: seq<Draft>) {
    forall t :: t in seen <==> exists i :: 0 <= i < |drafts| && TupleOf(drafts[i].rule) == t
  }

  lemma SeenMore(drafts: seq<Draft>, d: Draft, seen: set<Tuple>)
    requires Lists(seen, drafts)
    ensures Lists(seen + {TupleOf(d.rule)}, drafts + [d])
  {
    hide TupleOf;
    var drafts' := drafts + [d];
    forall t
      ensures t in seen + {TupleOf(d.rule)} <==> exists i :: 0 <= i < |drafts'| && TupleOf(drafts'[i].rule) == t
    {
      if i :| 0 <= i < |drafts| && TupleOf(drafts[i].rule) == t {
        assert drafts'[i] == drafts[i];
      }
      if t == TupleOf(d.rule) {
        assert drafts'[|drafts|] == d;
      }
    }
  }

  lemma TupleUnseen(drafts: seq<Draft>, r: ControllerRule, seen: set<Tuple>)
    requires Lists(seen, drafts) && TupleOf(r) !in seen
    ensures forall i :: 0 <= i < |drafts| ==> TupleOf(drafts[i].rule) != TupleOf(r)
  {
    hide TupleOf;
  }

  /** Each item kept is the rule of one of the requests, under the id drawn for it. */
  lemma {:induction false} DraftedFrom(repo: Repo, ids: seq<Id>, reqs: seq<RuleRequest>, d: Draft)
    requires |ids| == |reqs| && d in Drafted(repo, ids, reqs)
    ensures exists i :: 0 <= i < |reqs| && d.id == ids[i] && NewRule(reqs[i]) == Some(d.rule)
    decreases |reqs|
  {
    hide NewRule, Admissible;
    var n := |reqs| - 1;
    if d in Drafted(repo, ids[..n], reqs[..n]) {
      DraftedFrom(repo, ids[..n], reqs[..n], d);
    }
  }

  lemma FitsList(f: CidrField, nets: set<Prefix>, pending: set<Prefix>, listed: seq<Prefix>)
    requires forall p :: p in listed <==> p in pending
    ensures Fits(f, nets + pending) <==> Fits(f, nets) && (f.CidrNetwork? ==> !Overlaps(f.prefix, listed))
  {
    hide ShareAddress;
  }

  /** What the checks of one item amount to. */
  lemma AdmissibleIff(repo: Repo, drafts: seq<Draft>, r: ControllerRule, pendingSrc: seq<Prefix>,
                      pendingDst: seq<Prefix>, seen: set<Tuple>)
    requires forall p :: p in pendingSrc <==> p in DraftSrc(drafts)
    requires forall p :: p in pendingDst <==> p in DraftDst(drafts)
    requires Lists(seen, drafts)
    ensures Admissible(repo, drafts, r) <==>
            && Fits(r.srcCIDR, SrcNets(repo)) && (r.srcCIDR.CidrNetwork? ==> !Overlaps(r.srcCIDR.prefix, pendingSrc))
            && Fits(r.dstCIDR, DstNets(repo)) && (r.dstCIDR.CidrNetwork? ==> !Overlaps(r.dstCIDR.prefix, pendingDst))
            && TupleOf(r) !in seen && !Taken(repo, r)
  {
    hide Fits, Overlaps, TupleOf, Taken, SrcNets, DstNets, DraftSrc, DraftDst;
    FitsList(r.srcCIDR, SrcNets(repo), DraftSrc(drafts), pendingSrc);
    FitsList(r.dstCIDR, DstNets(repo), DraftDst(drafts), pendingDst);
  }

  /** No stored rule has the tuple of r. */
  ghost predicate TupleFree(repo: Repo, r: ControllerRule) {
    forall x :: x in repo ==> TupleOf(repo[x]) != TupleOf(r)
  }

  ghost predicate GoodDrafts(repo: Repo, drafts: seq<Draft>) {
    forall i :: 0 <= i < |drafts| ==> Good(drafts[i].rule) && TupleFree(repo, drafts[i].rule)
  }

  ghost predicate DistinctDrafts(drafts: seq<Draft>) {
    forall i, j :: 0 <= i < j < |drafts| ==> TupleOf(drafts[i].rule) != TupleOf(drafts[j].rule)
  }

  /** The drafts could all be added to the store. */
  ghost predicate DraftsFit(repo: Repo, drafts: seq<Draft>) {
    && GoodDrafts(repo, drafts) && DistinctDrafts(drafts)
    && Separate(SrcNets(repo) + DraftSrc(drafts)) && Separate(DstNets(repo) + DraftDst(drafts))
  }

  lemma NothingDrafted(repo: Repo)
    requires RepoInv(repo)
    ensures DraftsFit(repo, []) && Lists({}, []) && DraftSrc([]) == {} && DraftDst([]) == {}
  {
    hide Separate;
    assert SrcNets(repo) + {} == SrcNets(repo) && DstNets(repo) + {} == DstNets(repo);
  }

  lemma FitTogether(repo: Repo, drafts: seq<Draft>)
    requires DraftsFit(repo, drafts)
    ensures Separate(SrcNets(repo) + DraftSrc(drafts)) && Separate(DstNets(repo) + DraftDst(drafts))
  {
  }

  lemma FitsBoth(f: CidrField, nets: set<Prefix>, pending: set<Prefix>, listed: seq<Prefix>)
    requires Separate(nets + pending) && Fits(f, nets) && forall p :: p in listed <==> p in pending
    requires f.CidrNetwork? ==> !Overlaps(f.prefix, listed)
    ensures Separate(nets + (pending + Nets(f)))
  {
    assert Fits(f, nets + pending);
    FitsKeepsSeparate(f, nets + pending);
    assert (nets + pending) + Nets(f) == nets + (pending + Nets(f));
  }

  lemma OneMoreDraft(repo: Repo, drafts: seq<Draft>, d: Draft)
    requires DraftsFit(repo, drafts) && Good(d.rule) && TupleFree(repo, d.rule)
    requires forall i :: 0 <= i < |drafts| ==> TupleOf(drafts[i].rule) != TupleOf(d.rule)
    requires Separate(SrcNets(repo) + (DraftSrc(drafts) + Nets(d.rule.srcCIDR)))
    requires Separate(DstNets(repo) + (DraftDst(drafts) + Nets(d.rule.dstCIDR)))
    ensures DraftsFit(repo, drafts + [d])
    ensures DraftSrc(drafts + [d]) == DraftSrc(drafts) + Nets(d.rule.srcCIDR)
    ensures DraftDst(drafts + [d]) == DraftDst(drafts) + Nets(d.rule.dstCIDR)
  {
    hide Good, Separate, SrcNets, DstNets, TupleOf, TupleFree, DraftSrc, DraftDst;
    DraftNets(drafts, d);
    var drafts' := drafts + [d];
    forall i | 0 <= i < |drafts'|
      ensures Good(drafts'[i].rule) && TupleFree(repo, drafts'[i].rule)
      ensures i < |drafts| ==> drafts'[i] == drafts[i]
    {
    }
  }

  lemma DraftNets(drafts: seq<Draft>, d: Draft)
    ensures DraftSrc(drafts + [d]) == DraftSrc(drafts) + Nets(d.rule.srcCIDR)
    ensures DraftDst(drafts + [d]) == DraftDst(drafts) + Nets(d.rule.dstCIDR)
  {
    hide Nets;
    assert (drafts + [d])[..|drafts|] == drafts;
  }

  lemma SubsetSeparate(small: set<Prefix>, big: set<Prefix>)
    requires small <= big && Separate(big)
    ensures Separate(small)
  {
    hide ShareAddress;
  }

  lemma SeparateFits(f: CidrField, nets: set<Prefix>)
    requires Separate(nets + Nets(f))
    ensures Fits(f, nets)
  {
    hide ShareAddress;
  }

  /** The drafts but the last fit too, and the last one fits beside them. */
  lemma LastDraft(repo: Repo, drafts: seq<Draft>)
    requires drafts != [] && DraftsFit(repo, drafts) && FreshIds(drafts, repo)
    ensures var init, last := drafts[..|drafts| - 1], drafts[|drafts| - 1];
            DraftsFit(repo, init) && FreshIds(init, repo) && Good(last.rule)
            && Fits(last.rule.srcCIDR, SrcNets(repo) + DraftSrc(init))
            && Fits(last.rule.dstCIDR, DstNets(repo) + DraftDst(init))
  {
    hide Good, Separate, Nets, SrcNets, DstNets, TupleOf, TupleFree, Fits;
    var init, last := drafts[..|drafts| - 1], drafts[|drafts| - 1];
    assert forall i :: 0 <= i < |init| ==> init[i] == drafts[i];
    var src, dst := SrcNets(repo) + DraftSrc(init), DstNets(repo) + DraftDst(init);
    assert SrcNets(repo) + DraftSrc(drafts) == src + Nets(last.rule.srcCIDR);
    assert DstNets(repo) + DraftDst(drafts) == dst + Nets(last.rule.dstCIDR);
    SubsetSeparate(src, src + Nets(last.rule.srcCIDR));
    SubsetSeparate(dst, dst + Nets(last.rule.dstCIDR));
    SeparateFits(last.rule.srcCIDR, src);
    SeparateFits(last.rule.dstCIDR, dst);
  }

  /** Each rule of the store after the insertion was there before or is one of the drafts. */
  lemma {:induction false} InsertedFrom(repo: Repo, drafts: seq<Draft>, id: Id)
    requires id in Inserted(repo, drafts)
    ensures (id in repo && Inserted(repo, drafts)[id] == repo[id])
            || exists i :: 0 <= i < |drafts| && drafts[i] == Draft(id, Inserted(repo, drafts)[id])
  {
    if drafts != [] && id != drafts[|drafts| - 1].id {
      InsertedFrom(repo, drafts[..|drafts| - 1], id);
    }
  }

  lemma LastIsNew(repo: Repo, drafts: seq<Draft>)
    requires drafts != [] && GoodDrafts(repo, drafts) && DistinctDrafts(drafts) && FreshIds(drafts, repo)
    ensures var mid, last := Inserted(repo, drafts[..|drafts| - 1]), drafts[|drafts| - 1];
            last.id !in mid && TupleFree(mid, last.rule)
  {
    hide Good, TupleOf, Inserted;
    var init, last := drafts[..|drafts| - 1], drafts[|drafts| - 1];
    var mid := Inserted(repo, init);
    forall id | id in mid
      ensures id != last.id && TupleOf(mid[id]) != TupleOf(last.rule)
    {
      InsertedFrom(repo, init, id);
    }
  }

  lemma {:induction false} InsertedKeepsInv(repo: Repo, drafts: seq<Draft>)
    requires RepoInv(repo) && DraftsFit(repo, drafts) && FreshIds(drafts, repo)
    ensures RepoInv(Inserted(repo, drafts))
    ensures SrcNets(Inserted(repo, drafts)) == SrcNets(repo) + DraftSrc(drafts)
    ensures DstNets(Inserted(repo, drafts)) == DstNets(repo) + DraftDst(drafts)
  {
    hide Good, Nets, SrcNets, DstNets, RepoInv, TupleOf, Fits, GoodDrafts, DistinctDrafts, FreshIds;
    if drafts != [] {
      var init, last := drafts[..|drafts| - 1], drafts[|drafts| - 1];
      LastDraft(repo, drafts);
      LastIsNew(repo, drafts);
      InsertedKeepsInv(repo, init);
      AddedKeepsInv(Inserted(repo, init), last.id, last.rule);
    }
  }
}
