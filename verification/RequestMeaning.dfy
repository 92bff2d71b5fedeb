/** What a request to the controller asks for, and that the rule which a node ends up with does
    exactly that: decoder, request checks, conversion and the node's own checks together. */
module RequestMeaning {
  import opened Rules
  import opened Prefixes
  import opened TcpFlags
  import opened Lookup
  import opened Requests
  import opened CidrLookup
  import opened Meaning
  import opened RuleService
  import opened ControllerToNode

  /** A field that names an address other than the unspecified one asks for it, an IPv4 address in
      its IPv4-mapped form. */
  predicate TextMeets(f: IpText, address: nat) {
    f.Ip? && f.value != 0 ==> address == if f.v6 then f.value else 0xFFFF_0000_0000 + f.value
  }

  /** The sign with which a flag is first named in the segments; true is "must be set". */
  function FirstSign(parts: seq<string>, flag: Flag): Option<bool> {
    if parts == [] then None
    else if ToUpper(TrimSpace(parts[0])) == Signed(flag, false) then Some(true)
    else if ToUpper(TrimSpace(parts[0])) == Signed(flag, true) then Some(false)
    else FirstSign(parts[1..], flag)
  }

  /** Each flag that is named must be as it is named first. */
  ghost predicate FirstSignsMeet(said: string, flags: set<Flag>) {
    forall flag ::
      FirstSign(SplitComma(TrimSpace(said)), flag).Some? ==>
        (flag in flags <==> FirstSign(SplitComma(TrimSpace(said)), flag).value)
  }

  /** The shorthands for protocol and flags. */
  predicate Shorthand(name: string) { name in {"tcp_ack", "tcp_rst", "tcp_fin"} }

  predicate ShorthandMeets(name: string, flags: set<Flag>) {
    && (name == "tcp_ack" ==> ACK in flags && SYN !in flags)
    && (name == "tcp_rst" ==> RST in flags) && (name == "tcp_fin" ==> FIN in flags)
  }

  predicate DecoderMeets(name: string, p: Packet) {
    (Shorthand(name) ==> p.key.proto == 6) && ShorthandMeets(name, p.flags)
  }

  /** The anomalies that are looked for, by number or by shorthand: 1 is a bad fragment, 2 an
      invalid header. */
  function AskedBits(req: RuleRequest): int {
    if req.decoder == "bad_fragment" then 1 else if req.decoder == "invalid" then 2 else req.anomaly
  }

  predicate BitsMeet(bits: int, mode: Mode) {
    match mode
    case Plain => bits == 0
    case Anomalous(seen) => (bits % 2 == 1 && seen & 1 != 0) || (bits / 2 == 1 && seen & 2 != 0)
  }

  /** The request asks for this packet. */
  ghost predicate Wants(req: RuleRequest, p: Packet, mode: Mode) {
    && TextMeets(req.srcIP, p.key.src) && TextMeets(req.dstIP, p.key.dst)
    && NetMeets(req.srcCIDR, p.src) && NetMeets(req.dstCIDR, p.dst)
    && PortMeets(req.sport, p.key.sport) && PortMeets(req.dport, p.key.dport)
    && ProtocolMeets(req.protocol, p.key.proto)
    && LengthMeets(Or(req.lenMin, 0), Or(req.lenMax, 0), p.len)
    && FirstSignsMeet(Or(req.tcpFlags, ""), p.flags)
    && DecoderMeets(req.decoder, p) && BitsMeet(AskedBits(req), mode)
  }

  /** What is asked to be done: to limit the rate, or to drop. */
  predicate Ordered(v: RuleValue, req: RuleRequest) {
    && (req.action == "rate_limit" ==> v.action == 2) && (req.action == "drop" ==> v.action == 1)
    && v.rateLimit == req.rateLimit
  }

  // ---- First signs ----

  lemma {:induction false} FirstRecords(parts: seq<string>, f: Filter, flag: Flag)
    requires f.Filter? && f.value <= f.mask && FirstOccurrences(parts, f).Filter?
    ensures var g := FirstOccurrences(parts, f);
            && g.value <= g.mask
            && (flag in g.mask <==> flag in f.mask || FirstSign(parts, flag).Some?)
            && (flag in g.value <==> if flag in f.mask then flag in f.value else FirstSign(parts, flag) == Some(true))
  {
    hide ReadToken, Signed, ToUpper, TrimSpace;
    if parts != [] {
      ReadIffSigned(parts[0], flag, false);
      ReadIffSigned(parts[0], flag, true);
      match ReadToken(parts[0])
      case Blank => FirstRecords(parts[1..], f, flag);
      case Named(other, negate) =>
        FirstRecords(parts[1..], if other in f.mask then f else Take(f, other, negate), flag);
    }
  }

  lemma FirstMeets(said: string, flags: set<Flag>)
    requires FirstMeaning(said).Filter?
    ensures FirstMeaning(said).value <= FirstMeaning(said).mask
    ensures flags * FirstMeaning(said).mask == FirstMeaning(said).value <==> FirstSignsMeet(said, flags)
  {
    hide FirstOccurrences, FirstSign, SplitComma, TrimSpace;
    var parts, g := SplitComma(TrimSpace(said)), FirstMeaning(said);
    NothingFirst(said);
    forall flag
      ensures flag in g.mask <==> FirstSign(parts, flag).Some?
      ensures flag in g.value <==> FirstSign(parts, flag) == Some(true)
      ensures flag in g.value ==> flag in g.mask
    {
      FirstRecords(parts, NO_FILTER, flag);
    }
    assert forall flag :: flag in flags * g.mask <==> flag in flags && flag in g.mask;
    if FirstSignsMeet(said, flags) {
      assert forall flag :: flag in flags * g.mask <==> flag in g.value;
    }
  }

  lemma NothingFirst(said: string)
    ensures FirstMeaning(said) == FirstOccurrences(SplitComma(TrimSpace(said)), NO_FILTER)
  {
    if TrimSpace(said) == "" {
      assert SplitComma("") == [""] && ReadToken("") == Blank;
    }
  }

  /** What the controller stores of the flags means to the node what the request said first. */
  lemma FlagsKept(said: string, protocol: string, flags: set<Flag>)
    requires FlagsFor(said, protocol).Some?
    ensures FlagsMeet(FlagsFor(said, protocol).value, flags) <==> FirstSignsMeet(said, flags)
  {
    hide FlagsMeet, FirstSignsMeet, FirstOccurrences, TcpFlagsToString, ReadAll;
    if said == "" {
      assert FilterOf("") == NO_FILTER && FirstMeaning("") == NO_FILTER;
      FilterMeaning("", flags);
    } else {
      NormalizedIsStable(said);
      FilterMeaning(FlagsFor(said, protocol).value, flags);
    }
    FirstMeets(said, flags);
  }

  // ---- Decoders ----

  lemma ShorthandFlags(flags: set<Flag>)
    ensures FirstSignsMeet("ACK,!SYN", flags) <==> ACK in flags && SYN !in flags
    ensures FirstSignsMeet("RST", flags) <==> RST in flags
    ensures FirstSignsMeet("FIN", flags) <==> FIN in flags
    ensures FirstSignsMeet("", flags)
  {
    hide FirstSignsMeet, FirstMeaning, Signed;
    FlagNames();
    TwoSigned(ACK, false, SYN, true, flags);
    OneSigned(RST, flags);
    OneSigned(FIN, flags);
    assert Signed(SYN, true) == "!SYN";
    assert "ACK" + "," + "!SYN" == "ACK,!SYN";
    NoFlagsMeet(flags);
  }

  lemma ShorthandsRead()
    ensures FirstMeaning("ACK,!SYN").Filter? && FirstMeaning("RST").Filter? && FirstMeaning("FIN").Filter?
  {
    hide FirstSignsMeet, FirstMeaning, Signed;
    FlagNames();
    TwoSigned(ACK, false, SYN, true, {});
    OneSigned(RST, {});
    OneSigned(FIN, {});
    assert Signed(SYN, true) == "!SYN";
    assert "ACK" + "," + "!SYN" == "ACK,!SYN";
  }

  lemma NoFlagsMeet(flags: set<Flag>)
    ensures FirstSignsMeet("", flags)
  {
    hide FirstSignsMeet;
    assert FirstMeaning("") == NO_FILTER;
    FirstMeets("", flags);
  }

  lemma SignedRead(f: Flag, negate: bool)
    ensures var s := Signed(f, negate);
            s != "" && !IsSpace(s[0]) && !IsSpace(s[|s| - 1]) && ',' !in s && ReadToken(s) == Named(f, negate)
    ensures TrimSpace(Signed(f, negate)) == Signed(f, negate)
  {
    hide ReadToken, TrimSpace, ToUpper;
    ReadSigned(f, negate);
    PlainIsFixed(Signed(f, negate));
  }

  lemma OneSigned(f: Flag, flags: set<Flag>)
    ensures FirstSignsMeet(Signed(f, false), flags) <==> f in flags
    ensures FirstMeaning(Signed(f, false)) == Filter({f}, {f})
  {
    hide ReadToken, Signed, FirstSignsMeet, SplitComma, TrimSpace;
    var s := Signed(f, false);
    SignedRead(f, false);
    SplitNoComma(s);
    assert [s][1..] == [];
    assert Take(NO_FILTER, f, false) == Filter({f}, {f});
    assert FirstOccurrences([s], NO_FILTER) == FirstOccurrences([s][1..], Filter({f}, {f}));
    assert FirstMeaning(s) == Filter({f}, {f}) by { NothingFirst(s); }
    FirstMeets(s, flags);
    assert f in flags * {f} <==> f in flags;
    assert flags * {f} == {f} <==> f in flags;
  }

  lemma TwoSigned(f: Flag, nf: bool, g: Flag, ng: bool, flags: set<Flag>)
    requires f != g && !nf && ng
    ensures FirstSignsMeet(Signed(f, nf) + "," + Signed(g, ng), flags) <==> f in flags && g !in flags
    ensures FirstMeaning(Signed(f, nf) + "," + Signed(g, ng)) == Filter({f, g}, {f})
  {
    hide ReadToken, Signed, FirstSignsMeet, SplitComma, TrimSpace;
    var a, b := Signed(f, nf), Signed(g, ng);
    var s := a + "," + b;
    SignedRead(f, nf);
    SignedRead(g, ng);
    SplitAtComma(a, b);
    SplitNoComma(b);
    TrimmedAlready(s);
    var parts := SplitComma(s);
    assert parts == [a, b] && parts[1..] == [b] && parts[1..][1..] == [];
    assert Take(NO_FILTER, f, nf) == Filter({f}, {f});
    assert Take(Filter({f}, {f}), g, ng) == Filter({f, g}, {f});
    assert FirstOccurrences(parts, NO_FILTER) == FirstOccurrences([b], Filter({f}, {f}));
    assert FirstOccurrences([b], Filter({f}, {f})) == FirstOccurrences([b][1..], Filter({f, g}, {f}));
    assert FirstMeaning(s) == Filter({f, g}, {f}) by { NothingFirst(s); }
    FirstMeets(s, flags);
    assert f in flags * {f, g} <==> f in flags;
    assert g in flags * {f, g} <==> g in flags;
    assert flags * {f, g} == {f} <==> f in flags && g !in flags;
  }

  /** An expanded request without a shorthand asks for what the one with it asked for. */
  lemma ExpandedWants(req: RuleRequest, p: Packet, mode: Mode)
    requires NormalizeDecoder(req).Some?
    ensures Wants(NormalizeDecoder(req).value, p, mode) <==> Wants(req, p, mode)
    ensures var q := NormalizeDecoder(req).value;
            q.decoder == "" && q.action == req.action && q.rateLimit == req.rateLimit
  {
    hide FirstSignsMeet, PortMeets, TextMeets, NetMeets;
    ShorthandFlags(p.flags);
  }

  // ---- From the request to the node ----

  lemma BitsAsked(bits: int, mode: Mode)
    requires 0 <= bits <= 3
    ensures AnomalyMeets(bits as bv8, mode) <==> BitsMeet(bits, mode)
  {
    assert bits == 0 || bits == 1 || bits == 2 || bits == 3;
    if mode.Anomalous? {
      var seen := mode.bits;
      assert 3 as bv8 & seen != 0 <==> seen & 1 != 0 || seen & 2 != 0;
      assert 1 as bv8 & seen == seen & 1 && 2 as bv8 & seen == seen & 2 && 0 as bv8 & seen == 0;
    }
  }

  lemma NodeAddress(f: IpText, address: nat)
    ensures AddressMeets(NodeIP(f), address) <==> TextMeets(f, address)
  {
  }

  /** The node's conversion of the new rule asks for what the expanded request asks for. */
  lemma NodeAsks(id: Id, req: RuleRequest, p: Packet, mode: Mode)
    requires req.decoder == "" && NewRule(req).Some? && Good(NewRule(req).value)
    ensures var r := NewRule(req).value; var n := NodeRule(id, r);
            && (!IsCIDR(r) ==> (AsksExact(n, p, mode) <==> Wants(req, p, mode)))
            && (IsCIDR(r) ==> (AsksCidr(n, p, mode) <==> Wants(req, p, mode)))
    ensures var n := NodeRule(id, NewRule(req).value); n.action == req.action && n.rateLimit == req.rateLimit
  {
    hide FlagsFor, FlagsMeet, FirstSignsMeet, PortMeets, AddressMeets, TextMeets, NetMeets, NodeIP, Good, NamesTuple,
         AnomalyAllowed, BitsMeet, AnomalyMeets;
    var r := NewRule(req).value;
    BoundsOf(r);
    NodeAddress(req.srcIP, p.key.src);
    NodeAddress(req.dstIP, p.key.dst);
    NodeAddress(NoIp, p.key.src);
    FlagsKept(Or(req.tcpFlags, ""), req.protocol, p.flags);
    BitsAsked(r.anomaly, mode);
    Unaddressed(p.key.src);
    Unaddressed(p.key.dst);
    Unnetworked(p.src);
    Unnetworked(p.dst);
  }

  lemma BoundsOf(r: ControllerRule)
    requires Good(r)
    ensures 0 <= r.anomaly <= 3 && r.rateLimit >= 0 && r.lenMin >= 0 && r.lenMax >= 0
  {
  }

  lemma Unaddressed(address: nat)
    ensures TextMeets(NoIp, address)
  {
  }

  lemma Unnetworked(a: Address)
    ensures NetMeets(CidrAbsent, a)
  {
  }

  /** The rule that a node holds for an accepted request. */
  ghost predicate NodeDoes(st: Stored, req: RuleRequest, cidr: bool) {
    && Ordered(ValueOf(st), req)
    && forall p: Packet, mode: Mode ::
         (if cidr then DirectMatch(st, p, mode) else ExactMatch(st, p, mode)) <==> Wants(req, p, mode)
  }

  /** For every request that the controller accepts: the rule that a node makes of it, by any of
      its paths, matches exactly the packets that the request asks for, field by field and on
      their own sides, and does with them what the request says. */
  lemma AcceptedMeansAsked(id: Id, req: RuleRequest, canonical: bool, refuseMixed: bool, srcID: nat, dstID: nat)
    requires NewRule(req).Some?
    ensures Good(NewRule(req).value)
    ensures var r := NewRule(req).value; var n := NodeRule(id, r);
            && (IsCIDR(r) ==> PrepareCIDR(n, canonical, refuseMixed).Some?)
            && (IsCIDR(r) ==>
                  NodeDoes(WithIds(PrepareCIDR(n, canonical, refuseMixed).value.stored, srcID, dstID), req, true))
            && (!IsCIDR(r) && SetsKey(r) ==> PrepareExact(n, canonical).Some?)
            && (!IsCIDR(r) && SetsKey(r) ==> NodeDoes(PrepareExact(n, canonical).value.stored, req, false))
  {
    hide NewRule, Good, PrepareExact, PrepareCIDR, ExactMatch, DirectMatch, AsksExact, AsksCidr, Wants, SetsKey,
         ValueOf, NormalizeDecoder, NodeRule;
    NewRuleIsGood(req);
    var r := NewRule(req).value;
    var n := NodeRule(id, r);
    NodeAcceptsIff(id, r, canonical, refuseMixed);
    NewOfExpanded(req);
    var q := NormalizeDecoder(req).value;
    forall p: Packet, mode: Mode
      ensures Wants(q, p, mode) <==> Wants(req, p, mode)
      ensures !IsCIDR(r) ==> (AsksExact(n, p, mode) <==> Wants(q, p, mode))
      ensures IsCIDR(r) ==> (AsksCidr(n, p, mode) <==> Wants(q, p, mode))
      ensures n.action == req.action && n.rateLimit == req.rateLimit
    {
      ExpandedWants(req, p, mode);
      NodeAsks(id, q, p, mode);
    }
    SomeAction(id, req, q);
    if IsCIDR(r) {
      CidrMeaning(n, canonical, refuseMixed, srcID, dstID);
    } else if SetsKey(r) {
      ExactMeaning(n, canonical);
    }
  }

  lemma SomeAction(id: Id, req: RuleRequest, q: RuleRequest)
    requires NormalizeDecoder(req) == Some(q) && NewRule(q).Some? && q.decoder == "" && Good(NewRule(q).value)
    ensures NodeRule(id, NewRule(q).value).action == req.action
    ensures NodeRule(id, NewRule(q).value).rateLimit == req.rateLimit
  {
    hide Good, FlagsFor, NamesTuple, AnomalyAllowed;
  }

  /** Expanding the shorthand first changes nothing. */
  lemma NewOfExpanded(req: RuleRequest)
    requires NewRule(req).Some?
    ensures NormalizeDecoder(req).Some? && NormalizeDecoder(req).value.decoder == ""
    ensures NewRule(NormalizeDecoder(req).value) == NewRule(req)
  {
    hide FlagsFor, NamesTuple, AnomalyAllowed;
  }

  // ---- The store holds what can be requested ----

  /** A request that spells out every field of a rule. */
  function RequestFor(r: ControllerRule): RuleRequest {
    RuleRequest(r.srcIP, r.dstIP, r.srcCIDR, r.dstCIDR, r.sport, r.dport, r.protocol, r.action, r.rateLimit,
                Some(r.lenMin), Some(r.lenMax), Some(r.tcpFlags), "", r.anomaly, true, Some(r.enabled))
  }

  /** Every rule that the store may hold can be requested, and the request that spells it out
      yields that very rule: the checks refuse nothing but what the invariant excludes. */
  lemma GoodIsRequestable(r: ControllerRule)
    requires Good(r)
    ensures NewRule(RequestFor(r)) == Some(r)
  {
    hide NormalizeTcpFlags, NamesTuple, AnomalyAllowed;
  }

  // ---- Updates ----

  /** The request says something about flags. */
  predicate SetsFlags(req: RuleRequest) {
    req.tcpFlags.Some? || Shorthand(req.decoder)
  }

  /** What an update does to each field: one that the request sets has its value afterwards, one
      that it leaves out keeps the old value; a rule that only drops has no rate. */
  lemma UpdatedFields(r: ControllerRule, req: RuleRequest)
    requires Good(r) && UpdatedRule(r, req).Some?
    ensures var u := UpdatedRule(r, req).value;
            && TupleOf(u) == TupleOf(r)
            && u.action == (if req.action != "" then req.action else r.action)
            && (u.action == "drop" ==> u.rateLimit == 0)
            && (u.action != "drop" ==> u.rateLimit == if req.rateLimit > 0 then req.rateLimit else r.rateLimit)
            && u.lenMin == (if req.lenMin.Some? then req.lenMin.value else r.lenMin)
            && u.lenMax == (if req.lenMax.Some? then req.lenMax.value else r.lenMax)
            && u.anomaly == (if AskedBits(req) != 0 then AskedBits(req) else r.anomaly)
            && u.enabled == (if req.enabled.Some? then req.enabled.value else r.enabled)
            && (!SetsFlags(req) ==> u.tcpFlags == r.tcpFlags)
  {
    hide NormalizeTcpFlags, Good, NamesTuple, AnomalyAllowed, LengthsOk, InBounds;
  }

  /** Flags that an update sets mean what was said first, or what the shorthand stands for. */
  lemma UpdatedFlags(r: ControllerRule, req: RuleRequest, flags: set<Flag>)
    requires Good(r) && UpdatedRule(r, req).Some? && SetsFlags(req)
    ensures FlagsMeet(UpdatedRule(r, req).value.tcpFlags, flags) <==>
            FirstSignsMeet(Or(req.tcpFlags, ""), flags) && ShorthandMeets(req.decoder, flags)
  {
    hide FlagsFor, Good, NamesTuple, AnomalyAllowed, LengthsOk, InBounds, FlagsMeet, FirstSignsMeet;
    ShorthandFlags(flags);
    var q := NormalizeDecoderForUpdate(req, r).value;
    if q.tcpFlags.Some? {
      FlagsKept(q.tcpFlags.value, r.protocol, flags);
    }
  }

  /** A request that sets every field that an update can set. */
  function UpdateFor(u: ControllerRule): RuleRequest {
    RuleRequest(NoIp, NoIp, CidrAbsent, CidrAbsent, 0, 0, "", u.action, u.rateLimit, Some(u.lenMin), Some(u.lenMax),
                Some(u.tcpFlags), "", u.anomaly, true, Some(u.enabled))
  }

  /** The rule names an address, a port or a protocol; the prefixes do not count. */
  predicate NamesBesidesNets(r: ControllerRule) {
    r.srcIP != NoIp || r.dstIP != NoIp || r.sport != 0 || r.dport != 0 || r.protocol != "all"
  }

  /** Exactly these changes of a rule can be made by an update: anomaly bits cannot be cleared, and
      a rule that names nothing but prefixes cannot have length bounds afterwards, although it
      can be created with them. */
  lemma UpdateReachesIff(r: ControllerRule, u: ControllerRule)
    requires Good(r) && Good(u) && TupleOf(u) == TupleOf(r)
    ensures UpdatedRule(r, UpdateFor(u)) == Some(u) <==>
            && (u.anomaly == 0 ==> r.anomaly == 0)
            && (u.lenMin > 0 || u.lenMax > 0 ==> NamesBesidesNets(r))
  {
    hide NormalizeTcpFlags, AnomalyAllowed;
  }

  /** For example: this request is accepted, and then no update can so much as disable the rule. */
  lemma StuckExample(p: Prefix, update: RuleRequest)
    requires update.lenMin.None? && update.lenMax.None?
    ensures var req := RuleRequest(NoIp, NoIp, CidrNetwork(p), CidrAbsent, 0, 0, "", "drop",
                                   0, Some(64), None, None, "", 0, true, None);
            NewRule(req).Some? && UpdatedRule(NewRule(req).value, update) == None
  {
    hide NormalizeTcpFlags;
  }

  // ---- Merges ----

  predicate BoundsWithin(outer: ControllerRule, inner: ControllerRule) {
    && outer.lenMin <= inner.lenMin
    && (outer.lenMax > 0 ==> 0 < inner.lenMax <= outer.lenMax)
  }

  /** A merged rule asks for what the stored one asked for, and for what the new one asks for with
      the stored one's length bounds: the bounds of the new one are lost. */
  lemma MergedMeans(old_: ControllerRule, r: ControllerRule, p: Packet, mode: Mode)
    requires Good(old_) && Good(r) && MergesInto(old_, r)
    ensures Wants(RequestFor(Merge(old_, r)), p, mode) <==>
            || Wants(RequestFor(old_), p, mode)
            || Wants(RequestFor(r.(lenMin := old_.lenMin, lenMax := old_.lenMax)), p, mode)
  {
    hide TextMeets, NetMeets, PortMeets, ProtocolMeets, FirstSignsMeet, NormalizeTcpFlags, NamesTuple, BoundedTarget,
         NamesV6;
    BitsOfBoth(old_.anomaly, r.anomaly, mode);
  }

  lemma BitsOfBoth(a: int, b: int, mode: Mode)
    requires 0 < a <= 3 && 0 < b <= 3
    ensures BitsMeet(OrBits(a, b), mode) <==> BitsMeet(a, mode) || BitsMeet(b, mode)
  {
    assert a in {1, 2, 3} && b in {1, 2, 3};
  }

  function WireOf(f: IpText): nat {
    match f
    case Ip(v6, value) => if value == 0 then 0 else if v6 then value else 0xFFFF_0000_0000 + value
    case _ => 0
  }

  function Within(f: CidrField): Address {
    if f.CidrNetwork? then NetworkIP(f.prefix) else NetworkIP(Net(false, []))
  }

  /** A packet of some length that a rule without flags asks for. */
  function Wanted(r: ControllerRule, len: nat): Packet
    requires Good(r)
  {
    Packet(Key(WireOf(r.srcIP), WireOf(r.dstIP), Htons(r.sport), Htons(r.dport), ParseProtocol(r.protocol)),
           Within(r.srcCIDR), Within(r.dstCIDR), len, {})
  }

  lemma WantedIsWanted(r: ControllerRule, len: nat, mode: Mode)
    requires Good(r) && r.tcpFlags == "" && LengthMeets(r.lenMin, r.lenMax, len) && BitsMeet(r.anomaly, mode)
    ensures Wants(RequestFor(r), Wanted(r, len), mode)
  {
    hide FirstSignsMeet, Htons, NormalizeTcpFlags, AnomalyAllowed, NamesTuple, PortMeets;
    NoFlagsMeet({});
    WirePort(r.sport, Htons(r.sport));
    WirePort(r.dport, Htons(r.dport));
    NamedProtocol(r.protocol, ParseProtocol(r.protocol));
    InOwnNet(r.srcCIDR);
    InOwnNet(r.dstCIDR);
  }

  lemma InOwnNet(f: CidrField)
    ensures NetMeets(f, Within(f))
  {
    if f.CidrNetwork? {
      assert f.prefix.bits <= NetworkIP(f.prefix).bits;
    }
  }

  /** A length that r admits and the stored rule does not. */
  function LengthBeyond(old_: ControllerRule, r: ControllerRule): int {
    if old_.lenMin > r.lenMin then r.lenMin
    else if r.lenMax > 0 then r.lenMax
    else if r.lenMin > old_.lenMax then r.lenMin else old_.lenMax + 1
  }

  /** So a request that is merged gets all packets it asked for exactly if the stored rule's length
      bounds admit all that its own bounds admit. */
  lemma MergeCoversIff(old_: ControllerRule, r: ControllerRule)
    requires Good(old_) && Good(r) && MergesInto(old_, r)
    ensures (forall p: Packet, mode: Mode ::
               Wants(RequestFor(r), p, mode) ==> Wants(RequestFor(Merge(old_, r)), p, mode)) <==> BoundsWithin(old_, r)
  {
    hide Good, Wants, Wanted, BitsMeet, OrBits, TupleOf;
    AnomalyRule(old_, r);
    if BoundsWithin(old_, r) {
      forall p: Packet, mode: Mode | Wants(RequestFor(r), p, mode)
        ensures Wants(RequestFor(Merge(old_, r)), p, mode)
      {
        MergedMeans(old_, r, p, mode);
        WiderBounds(old_, r, p, mode);
      }
    } else {
      var len := LengthBeyond(old_, r);
      var mode := Anomalous(r.anomaly as bv8);
      OwnBits(r.anomaly);
      var p := Wanted(r, len);
      WantedIsWanted(r, len, mode);
      if Wants(RequestFor(Merge(old_, r)), p, mode) {
        LengthLost(old_, r, p, mode);
        assert p.len == len by { WantedLength(r, len); }
        assert false;
      }
    }
  }

  lemma WantedLength(r: ControllerRule, len: nat)
    requires Good(r)
    ensures Wanted(r, len).len == len
  {
  }

  lemma AnomalyRule(old_: ControllerRule, r: ControllerRule)
    requires Good(old_) && Good(r) && MergesInto(old_, r)
    ensures 0 < r.anomaly <= 3 && r.tcpFlags == "" && 0 <= r.lenMin && 0 <= r.lenMax
    ensures r.lenMin > 0 && r.lenMax > 0 ==> r.lenMin <= r.lenMax
    ensures 0 <= old_.lenMin && 0 <= old_.lenMax && (old_.lenMin > 0 && old_.lenMax > 0 ==> old_.lenMin <= old_.lenMax)
  {
  }

  lemma OwnBits(bits: int)
    requires 0 < bits <= 3
    ensures BitsMeet(bits, Anomalous(bits as bv8))
  {
    assert bits in {1, 2, 3};
    assert 1 as bv8 & 1 != 0 && 2 as bv8 & 2 != 0 && 3 as bv8 & 1 != 0;
  }

  lemma WiderBounds(old_: ControllerRule, r: ControllerRule, p: Packet, mode: Mode)
    requires BoundsWithin(old_, r) && old_.lenMax >= 0 && Wants(RequestFor(r), p, mode)
    ensures Wants(RequestFor(r.(lenMin := old_.lenMin, lenMax := old_.lenMax)), p, mode)
  {
    hide TextMeets, NetMeets, PortMeets, ProtocolMeets, FirstSignsMeet, BitsMeet;
  }

  lemma LengthLost(old_: ControllerRule, r: ControllerRule, p: Packet, mode: Mode)
    requires Wants(RequestFor(Merge(old_, r)), p, mode)
    ensures LengthMeets(old_.lenMin, old_.lenMax, p.len)
  {
    hide TextMeets, NetMeets, PortMeets, ProtocolMeets, FirstSignsMeet, BitsMeet, OrBits;
  }
}
