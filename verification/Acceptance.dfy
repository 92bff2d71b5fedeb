/** Which requests are accepted, each check told by the request's own fields. */
module Acceptance {
  import opened Rules
  import opened Prefixes
  import opened TcpFlags
  import opened Requests
  import opened Meaning
  import opened RuleService
  import opened RequestMeaning

  // ---- Flags ----

  ghost predicate SegmentReadable(segment: string) {
    TrimSpace(segment) == "" || exists flag, negate :: ToUpper(TrimSpace(segment)) == Signed(flag, negate)
  }

  /** Every segment is blank or the name of a flag, with "!" or without. */
  ghost predicate Readable(said: string) {
    forall segment :: segment in SplitComma(TrimSpace(said)) ==> SegmentReadable(segment)
  }

  ghost predicate Says(said: string, flag: Flag, negate: bool) {
    exists segment :: segment in SplitComma(TrimSpace(said)) && ToUpper(TrimSpace(segment)) == Signed(flag, negate)
  }

  ghost predicate SaysNothing(said: string) {
    forall flag, negate :: !Says(said, flag, negate)
  }

  ghost predicate SaysBoth(said: string) {
    exists flag :: Says(said, flag, false) && Says(said, flag, true)
  }

  lemma TokenReadable(segment: string)
    ensures ReadToken(segment) != Unknown <==> SegmentReadable(segment)
  {
    hide FlagNamed, ToUpper, TrimSpace, Signed;
    match ReadToken(segment)
    case Blank =>
    case Named(flag, negate) => ReadIffSigned(segment, flag, negate);
    case Unknown =>
      assert TrimSpace(segment) != "";
      forall flag, negate
        ensures ToUpper(TrimSpace(segment)) != Signed(flag, negate)
      {
        ReadIffSigned(segment, flag, negate);
      }
  }

  lemma {:induction false} SegmentsReadable(parts: seq<string>, f: Filter)
    requires f.Filter?
    ensures FirstOccurrences(parts, f).Filter? <==> forall segment :: segment in parts ==> SegmentReadable(segment)
  {
    hide ReadToken, SegmentReadable;
    if parts != [] {
      TokenReadable(parts[0]);
      match ReadToken(parts[0])
      case Blank => SegmentsReadable(parts[1..], f);
      case Named(flag, negate) => SegmentsReadable(parts[1..], if flag in f.mask then f else Take(f, flag, negate));
      case Unknown =>
    }
    assert forall segment :: segment in parts <==> parts != [] && (segment == parts[0] || segment in parts[1..]);
  }

  /** The controller reads exactly the readable filters. */
  lemma ControllerReads(said: string)
    ensures FirstMeaning(said).Filter? <==> Readable(said)
  {
    hide SegmentReadable, FirstOccurrences;
    NothingFirst(said);
    SegmentsReadable(SplitComma(TrimSpace(said)), NO_FILTER);
  }

  lemma SaidIsSays(said: string, flag: Flag, negate: bool)
    ensures (flag, negate) in Said(SplitComma(TrimSpace(said))) <==> Says(said, flag, negate)
  {
    SaidIffSigned(SplitComma(TrimSpace(said)), flag, negate);
  }

  /** The node reads exactly those that give no flag both signs. */
  lemma NodeReads(said: string)
    ensures FilterOf(said).Filter? <==> Readable(said) && !SaysBoth(said)
    ensures FilterOf(said).Filter? ==> (FilterOf(said).mask == {} <==> SaysNothing(said))
  {
    hide Readable, Says, FirstMeaning, FilterOf, Said;
    ControllerReads(said);
    forall flag, negate
      ensures (flag, negate) in Said(SplitComma(TrimSpace(said))) <==> Says(said, flag, negate)
    {
      SaidIsSays(said, flag, negate);
    }
    if FilterOf(said).Filter? {
      SameReading(said);
      NothingMasked(said);
    }
    if FirstMeaning(said).Filter? {
      NodeAcceptsUncontradicted(said);
    }
  }

  lemma NothingMasked(said: string)
    requires FilterOf(said).Filter?
    ensures FilterOf(said).mask == {} <==> forall flag, negate :: (flag, negate) !in Said(SplitComma(TrimSpace(said)))
  {
    hide ReadAll, Said, SplitComma, TrimSpace;
    NothingSaid(said);
    RecordsSaid(SplitComma(TrimSpace(said)), NO_FILTER);
    var f := FilterOf(said);
    assert Recorded(f) == Said(SplitComma(TrimSpace(said)));
    if f.mask != {} {
      var flag :| flag in f.mask;
      assert (flag, flag !in f.value) in Recorded(f);
    }
  }

  // ---- The node ----

  predicate ActionAsked(r: Rule) {
    r.action == "" || r.action == "drop" || (r.action == "rate_limit" && r.rateLimit > 0)
  }

  /** Flags can be asked for on TCP only. */
  ghost predicate FlagsAsked(r: Rule) {
    Readable(r.tcpFlags) && !SaysBoth(r.tcpFlags) && (r.protocol == "tcp" || SaysNothing(r.tcpFlags))
  }

  predicate NoPortsOn(protocol: string) { protocol in {"icmp", "icmpv6", "igmp", "gre", "esp"} }

  predicate PortsAsked(protocol: string, sport: int, dport: int) {
    NoPortsOn(ToLower(protocol)) ==> sport == 0 && dport == 0
  }

  predicate AddressV6(f: IpField) { f.IpAddress? && !f.unspecified && f.v6 }

  predicate NetworkV6(f: CidrField) { f.CidrNetwork? && f.prefix.v6 }

  /** Anomaly rules drop only, and only at some address or in some network; bad fragments are not
      told from good ones in IPv6. */
  predicate AnomalyAsked(r: Rule) {
    r.anomaly == 0 ||
    (r.anomaly in {1, 2, 3} && r.action != "rate_limit"
     && ((r.srcIP.IpAddress? && !r.srcIP.unspecified) || (r.dstIP.IpAddress? && !r.dstIP.unspecified)
         || (r.srcCIDR.CidrNetwork? && r.srcCIDR.prefix.bits != [])
         || (r.dstCIDR.CidrNetwork? && r.dstCIDR.prefix.bits != []))
     && (r.anomaly == 2
         || (!AddressV6(r.srcIP) && !AddressV6(r.dstIP) && !NetworkV6(r.srcCIDR) && !NetworkV6(r.dstCIDR))))
  }

  predicate LengthsAsked(r: Rule) {
    && (r.lenMin == 0 || r.lenMax == 0 || r.lenMin <= r.lenMax)
    && ((r.lenMin == 0 && r.lenMax == 0) || r.srcIP != IpAbsent || r.dstIP != IpAbsent || r.sport != 0 || r.dport != 0
        || r.protocol !in {"", "all"})
  }

  predicate SevenProtocols(name: string) { name in {"tcp", "udp"} || NoPortsOn(name) }

  lemma ActionIff(r: Rule)
    ensures ActionOk(r) <==> ActionAsked(r) && FlagsAsked(r) && AnomalyAsked(r)
  {
    hide FilterOf, Readable, SaysBoth, SaysNothing;
    NodeReads(r.tcpFlags);
    BitsIff(r.anomaly);
  }

  lemma BitsIff(bits: bv8)
    ensures bits & !(ANOMALY_BAD_FRAGMENT | ANOMALY_INVALID) == 0 <==> bits in {0, 1, 2, 3}
    ensures bits in {1, 2, 3} ==> (bits & ANOMALY_BAD_FRAGMENT != 0 <==> bits != 2)
  {
  }

  /** Exactly these requests for exact rules are accepted by a node, on every path. */
  lemma NodeTakesExact(r: Rule, canonical: bool)
    ensures PrepareExact(r, canonical).Some? <==>
            && r.srcCIDR == CidrAbsent && r.dstCIDR == CidrAbsent && !r.srcIP.IpInvalid? && !r.dstIP.IpInvalid?
            && ActionAsked(r) && FlagsAsked(r) && AnomalyAsked(r) && LengthsAsked(r)
            && PortsAsked(r.protocol, r.sport, r.dport)
            && ((r.srcIP.IpAddress? && r.srcIP.value != 0) || (r.dstIP.IpAddress? && r.dstIP.value != 0)
                || r.sport != 0 || r.dport != 0 || SevenProtocols(r.protocol))
  {
    hide PrepareExact, ActionOk, FlagsAsked, AnomalyAsked, ToLower;
    PreparedIff(r, canonical);
    ActionIff(r);
  }

  /** And these for CIDR rules. */
  lemma NodeTakesCidr(r: Rule, canonical: bool, refuseMixed: bool)
    ensures PrepareCIDR(r, canonical, refuseMixed).Some? <==>
            && (r.srcCIDR.CidrNetwork? || r.dstCIDR.CidrNetwork?) && !r.srcCIDR.CidrInvalid? && !r.dstCIDR.CidrInvalid?
            && (refuseMixed ==> r.srcIP == IpAbsent && r.dstIP == IpAbsent)
            && ActionAsked(r) && FlagsAsked(r) && AnomalyAsked(r) && PortsAsked(r.protocol, r.sport, r.dport)
  {
    hide ActionOk, FlagsAsked, AnomalyAsked, ToLower, BuildValue, StoredFlags, Htons, ParseProtocol;
    ActionIff(r);
  }

  /** And these whitelist entries. */
  lemma NodeTakesWl(e: WlEntry)
    ensures PrepareWl(e).Some? <==>
            && !e.srcIP.IpInvalid? && !e.dstIP.IpInvalid? && (e.protocol in {"", "all"} || SevenProtocols(e.protocol))
            && PortsAsked(e.protocol, e.sport, e.dport)
            && ((e.srcIP.IpAddress? && e.srcIP.value != 0) || (e.dstIP.IpAddress? && e.dstIP.value != 0)
                || e.sport != 0 || e.dport != 0 || SevenProtocols(e.protocol))
  {
    hide PrepareWl, ToLower;
    PreparedWlIff(e);
  }

  // ---- The controller ----

  /** A shorthand stands for protocol, flags and anomaly bits, which must then be left out. */
  predicate ShorthandFits(req: RuleRequest) {
    req.decoder == "" ||
    (req.decoder in {"tcp_ack", "tcp_rst", "tcp_fin", "bad_fragment", "invalid"}
     && req.protocol == "" && Or(req.tcpFlags, "") == "" && req.anomaly == 0)
  }

  predicate Below(x: int, bound: int) { 0 <= x < bound }

  predicate NamesSomething(req: RuleRequest) {
    || req.srcIP != NoIp || req.dstIP != NoIp || req.srcCIDR != CidrAbsent || req.dstCIDR != CidrAbsent
    || req.sport != 0 || req.dport != 0 || req.protocol !in {"", "all"} || Shorthand(req.decoder)
  }

  ghost predicate NetExcludes(f: CidrField) {
    f.CidrNetwork? && exists a: Address :: a.v6 == f.prefix.v6 && !NetMeets(f, a)
  }

  /** Some address, of a network's own family, is not asked for. */
  ghost predicate Excludes(req: RuleRequest) {
    || (exists a: nat :: !TextMeets(req.srcIP, a)) || (exists a: nat :: !TextMeets(req.dstIP, a))
    || NetExcludes(req.srcCIDR) || NetExcludes(req.dstCIDR)
  }

  predicate NamesIPv6(req: RuleRequest) {
    || (req.srcIP.Ip? && req.srcIP.v6) || (req.dstIP.Ip? && req.dstIP.v6)
    || NetworkV6(req.srcCIDR) || NetworkV6(req.dstCIDR)
  }

  /** Exactly these requests can become rules, the store aside. */
  ghost predicate Postable(req: RuleRequest) {
    && ShorthandFits(req)
    && ((req.action == "drop" && req.rateLimit == 0) ||
        (req.action == "rate_limit" && 0 < req.rateLimit < 0x1_0000_0000))
    && !req.srcIP.BadIp? && !req.dstIP.BadIp? && !req.srcCIDR.CidrInvalid? && !req.dstCIDR.CidrInvalid?
    && ((req.srcIP == NoIp && req.dstIP == NoIp) || (req.srcCIDR == CidrAbsent && req.dstCIDR == CidrAbsent))
    && Below(req.sport, 0x1_0000) && Below(req.dport, 0x1_0000)
    && (req.protocol in {"", "all"} || SevenProtocols(req.protocol))
    && (NoPortsOn(req.protocol) ==> req.sport == 0 && req.dport == 0)
    && LengthsPostable(req) && FlagsPostable(req) && AnomalyPostable(req)
  }

  predicate LengthsPostable(req: RuleRequest) {
    var least, most := Or(req.lenMin, 0), Or(req.lenMax, 0);
    && Below(least, 0x1_0000) && Below(most, 0x1_0000) && (most == 0 || least <= most)
    && ((least == 0 && most == 0) || NamesSomething(req))
  }

  ghost predicate FlagsPostable(req: RuleRequest) {
    Or(req.tcpFlags, "") == "" || (req.protocol == "tcp" && Readable(req.tcpFlags.value))
  }

  /** Anomaly bits go with a drop at some address or in some network, and not with flags. */
  ghost predicate AnomalyPostable(req: RuleRequest) {
    AskedBits(req) == 0 ||
    (AskedBits(req) in {1, 2, 3} && req.action == "drop" && SaysNothing(Or(req.tcpFlags, "")) && Excludes(req)
     && (AskedBits(req) == 2 || !NamesIPv6(req)))
  }

  lemma TextExcludes(f: IpText)
    ensures (exists a: nat :: !TextMeets(f, a)) <==> BoundedText(f)
  {
    if f.Ip? && f.value != 0 {
      assert !TextMeets(f, 0);
    }
  }

  lemma NetExcludesIff(f: CidrField)
    ensures NetExcludes(f) <==> BoundedCIDR(f)
  {
    if f.CidrNetwork? && f.prefix.bits != [] {
      var bits := f.prefix.bits;
      var other := NetworkIP(Net(f.prefix.v6, [!bits[0]]));
      assert other.bits[0] != bits[0];
      assert !NetMeets(f, other);
    }
  }

  lemma ExcludesIff(req: RuleRequest)
    ensures Excludes(req) <==> BoundedTarget(req.srcIP, req.dstIP, req.srcCIDR, req.dstCIDR)
  {
    hide TextMeets, NetExcludes, BoundedText, BoundedCIDR;
    TextExcludes(req.srcIP);
    TextExcludes(req.dstIP);
    NetExcludesIff(req.srcCIDR);
    NetExcludesIff(req.dstCIDR);
  }

  /** The text kept of a filter is empty exactly if the filter says nothing. */
  lemma KeptIsEmptyIff(said: string)
    requires FirstMeaning(said).Filter?
    ensures NormalizeTcpFlags(said) == Some("") <==> SaysNothing(said)
  {
    hide FirstOccurrences, Signed;
    var f := FirstMeaning(said);
    FirstMeets(said, {});
    PrintedEmptyIff(f.mask, f.value);
    forall flag
      ensures flag in f.mask <==> Says(said, flag, false) || Says(said, flag, true)
    {
      NothingFirst(said);
      FirstRecords(SplitComma(TrimSpace(said)), NO_FILTER, flag);
      FirstSignSays(SplitComma(TrimSpace(said)), flag);
    }
  }

  lemma {:induction false} FirstSignSays(parts: seq<string>, flag: Flag)
    ensures FirstSign(parts, flag).Some? <==>
            exists segment, negate :: segment in parts && ToUpper(TrimSpace(segment)) == Signed(flag, negate)
  {
    hide ToUpper, TrimSpace, Signed;
    if parts != [] {
      FirstSignSays(parts[1..], flag);
      assert forall segment :: segment in parts <==> segment == parts[0] || segment in parts[1..];
    }
  }

  lemma PrintedEmptyIff(mask: set<Flag>, value: set<Flag>)
    requires value <= mask
    ensures TcpFlagsToString(mask, value) == "" <==> mask == {}
  {
    hide TcpFlagsToString, FilterOf;
    ParsePrinted(mask, value);
    NothingPrinted();
    if mask == {} {
      assert value == {};
    }
  }

  lemma NothingPrinted()
    ensures TcpFlagsToString({}, {}) == "" && FilterOf("") == NO_FILTER
  {
  }

  lemma FlagsIff(req: RuleRequest)
    ensures FlagsFor(Or(req.tcpFlags, ""), req.protocol).Some? <==> FlagsPostable(req)
    ensures FlagsFor(Or(req.tcpFlags, ""), req.protocol) == Some("") ==> SaysNothing(Or(req.tcpFlags, ""))
    ensures FlagsPostable(req) && SaysNothing(Or(req.tcpFlags, "")) ==>
              FlagsFor(Or(req.tcpFlags, ""), req.protocol) == Some("")
  {
    hide Readable, SaysNothing, FirstMeaning, TcpFlagsToString;
    var said := Or(req.tcpFlags, "");
    ControllerReads(said);
    if FirstMeaning(said).Filter? {
      KeptIsEmptyIff(said);
    }
    BlankSaysNothing();
  }

  lemma BlankSaysNothing()
    ensures FirstMeaning("") == NO_FILTER && SaysNothing("")
  {
    hide Says;
    KeptIsEmptyIff("");
  }

  lemma PlainIff(req: RuleRequest)
    requires req.decoder == ""
    ensures NewRule(req).Some? <==> Postable(req)
  {
    hide FlagsFor, FlagsPostable, SaysNothing, Excludes, BoundedTarget;
    ExcludesIff(req);
    FlagsIff(req);
  }

  lemma ExpandedFirst(req: RuleRequest)
    ensures NormalizeDecoder(req).Some? ==> NewRule(req) == NewRule(NormalizeDecoder(req).value)
    ensures NormalizeDecoder(req).None? ==> NewRule(req) == None
    ensures NormalizeDecoder(req).Some? ==> NormalizeDecoder(req).value.decoder == ""
  {
    hide FlagsFor, AnomalyAllowed, NamesTuple, LengthsOk, InBounds;
  }

  /** A shorthand is as good as what it stands for. */
  lemma ExpandedPostable(req: RuleRequest)
    requires req.decoder != ""
    ensures Postable(req) <==> NormalizeDecoder(req).Some? && Postable(NormalizeDecoder(req).value)
  {
    hide SaysNothing, Readable, TextMeets, NetExcludes, FirstMeaning, FirstSignsMeet, LengthsPostable, FlagsPostable,
         AnomalyPostable, Excludes;
    if Postable(req) {
      ShorthandNeeds(req);
    }
    if NormalizeDecoder(req).Some? {
      ExpandedParts(req);
    }
  }

  lemma ExpandedParts(req: RuleRequest)
    requires req.decoder != "" && NormalizeDecoder(req).Some?
    ensures var q := NormalizeDecoder(req).value;
            && ShorthandFits(req) && ShorthandFits(q) && q.protocol in {"", "tcp"} && req.protocol == ""
            && (LengthsPostable(q) <==> LengthsPostable(req)) && FlagsPostable(q) && FlagsPostable(req)
            && (AnomalyPostable(q) <==> AnomalyPostable(req))
            && q == req.(protocol := q.protocol, tcpFlags := q.tcpFlags, anomaly := q.anomaly, decoder := "")
  {
    hide SaysNothing, TextMeets, NetExcludes, Readable, FirstMeaning, FirstSignsMeet;
    ShorthandsRead();
    ControllerReads("ACK,!SYN");
    ControllerReads("RST");
    ControllerReads("FIN");
    BlankSaysNothing();
  }

  lemma ShorthandNeeds(req: RuleRequest)
    requires req.decoder != "" && ShorthandFits(req) && (req.action == "drop" || req.action == "rate_limit")
    requires AnomalyPostable(req)
    ensures NormalizeDecoder(req).Some?
  {
    hide SaysNothing, TextMeets, NetExcludes;
    ExcludesIff(req);
  }

  /** The controller accepts exactly the postable requests; what the store then adds is said
      by Create. */
  lemma PostableIff(req: RuleRequest)
    ensures NewRule(req).Some? <==> Postable(req)
  {
    hide NewRule, Postable, NormalizeDecoder;
    if req.decoder == "" {
      PlainIff(req);
    } else {
      ExpandedFirst(req);
      ExpandedPostable(req);
      if NormalizeDecoder(req).Some? {
        PlainIff(NormalizeDecoder(req).value);
      }
    }
  }

  // ---- Updates ----

  /** What the request says about flags, the shorthands spelled out; or else what the rule says. */
  function FlagsAfter(r: ControllerRule, req: RuleRequest): string {
    if req.decoder == "tcp_ack" then "ACK,!SYN" else if req.decoder == "tcp_rst" then "RST"
    else if req.decoder == "tcp_fin" then "FIN" else Or(req.tcpFlags, r.tcpFlags)
  }

  /** The rule that an update asks for, spelled out as a request of its own. */
  function AfterUpdate(r: ControllerRule, req: RuleRequest): RuleRequest {
    var action := if req.action != "" then req.action else r.action;
    RuleRequest(r.srcIP, r.dstIP, r.srcCIDR, r.dstCIDR, r.sport, r.dport, r.protocol, action,
                if action == "drop" then 0 else if req.rateLimit > 0 then req.rateLimit else r.rateLimit,
                Some(Or(req.lenMin, r.lenMin)), Some(Or(req.lenMax, r.lenMax)), Some(FlagsAfter(r, req)), "",
                if AskedBits(req) != 0 then AskedBits(req) else r.anomaly, true, Some(Or(req.enabled, r.enabled)))
  }

  /** The request names no other packets than the rule is for. */
  predicate SameTarget(r: ControllerRule, req: RuleRequest) {
    && req.srcIP == NoIp && req.dstIP == NoIp && req.srcCIDR == CidrAbsent && req.dstCIDR == CidrAbsent
    && (req.sport == 0 || req.sport == r.sport) && (req.dport == 0 || req.dport == r.dport)
    && (req.protocol == "" || req.protocol == r.protocol) && (Shorthand(req.decoder) ==> r.protocol == "tcp")
  }

  /** Exactly these updates are accepted: those that ask for a rule which could be created, about
      the same packets, but for the length bounds of rules that name only prefixes. And what
      comes of them is what creating that rule would give. */
  lemma UpdateTakenIff(r: ControllerRule, req: RuleRequest)
    requires Good(r)
    ensures UpdatedRule(r, req).Some? <==>
            && SameTarget(r, req) && ShorthandFits(req) && Below(req.rateLimit, 0x1_0000_0000)
            && (AfterUpdate(r, req).action == "drop" ==> req.rateLimit == 0)
            && Postable(AfterUpdate(r, req))
            && (AfterUpdate(r, req).lenMin.value > 0 || AfterUpdate(r, req).lenMax.value > 0 ==> NamesBesidesNets(r))
    ensures UpdatedRule(r, req).Some? ==> UpdatedRule(r, req) == NewRule(AfterUpdate(r, req))
  {
    hide Postable, Good, UpdatedRule, NewRule, AfterUpdate, SameTarget, NormalizeDecoderForUpdate, NamesBesidesNets;
    PostableIff(AfterUpdate(r, req));
    if req.decoder == "" {
      PlainUpdate(r, req);
    } else {
      ExpandedUpdate(r, req);
      if NormalizeDecoderForUpdate(req, r).Some? {
        PlainUpdate(r, NormalizeDecoderForUpdate(req, r).value);
      }
    }
  }

  lemma PlainUpdate(r: ControllerRule, req: RuleRequest)
    requires Good(r) && req.decoder == ""
    ensures var after := AfterUpdate(r, req);
            && (UpdatedRule(r, req).Some? <==>
                && SameTarget(r, req) && Below(req.rateLimit, 0x1_0000_0000)
                && (after.action == "drop" ==> req.rateLimit == 0) && NewRule(after).Some?
                && (after.lenMin.value > 0 || after.lenMax.value > 0 ==> NamesBesidesNets(r)))
            && (UpdatedRule(r, req).Some? ==> UpdatedRule(r, req) == NewRule(after))
  {
    hide FlagsFor, AnomalyAllowed, Good, NamesTuple, NamesBesidesNets, ValidProtocol, Portless, NormalizeDecoder,
         NormalizeDecoderForUpdate;
    GoodFlags(r);
    GoodFacts(r);
    TuplesNamed(r);
    NothingToExpand(r, req, AfterUpdate(r, req));
  }

  lemma GoodFacts(r: ControllerRule)
    requires Good(r)
    ensures ValidAction(r.action) && 0 <= r.rateLimit <= MAX32 && (r.rateLimit > 0 <==> r.action == "rate_limit")
    ensures 0 <= r.sport <= MAX16 && 0 <= r.dport <= MAX16 && ValidProtocol(r.protocol) && r.protocol != ""
    ensures Portless(r.protocol) ==> r.sport == 0 && r.dport == 0
    ensures 0 <= r.lenMin <= MAX16 && 0 <= r.lenMax <= MAX16
    ensures !r.srcIP.BadIp? && !r.dstIP.BadIp? && !r.srcCIDR.CidrInvalid? && !r.dstCIDR.CidrInvalid?
    ensures r.srcCIDR != CidrAbsent || r.dstCIDR != CidrAbsent ==> r.srcIP == NoIp && r.dstIP == NoIp
  {
  }

  lemma TuplesNamed(r: ControllerRule)
    requires r.protocol != ""
    ensures NamesTuple(Tuple(r.srcIP, r.dstIP, CidrAbsent, CidrAbsent, r.sport, r.dport, r.protocol)) <==>
            NamesBesidesNets(r)
    ensures NamesBesidesNets(r) ==>
              NamesTuple(Tuple(r.srcIP, r.dstIP, r.srcCIDR, r.dstCIDR, r.sport, r.dport, r.protocol))
  {
  }

  lemma NothingToExpand(r: ControllerRule, req: RuleRequest, after: RuleRequest)
    requires req.decoder == after.decoder == ""
    ensures NormalizeDecoderForUpdate(req, r) == Some(req) && NormalizeDecoder(after) == Some(after)
  {
  }

  lemma ExpandedUpdate(r: ControllerRule, req: RuleRequest)
    requires Good(r) && req.decoder != ""
    ensures NormalizeDecoderForUpdate(req, r).None? ==> UpdatedRule(r, req) == None
    ensures NormalizeDecoderForUpdate(req, r).Some? ==>
              var q := NormalizeDecoderForUpdate(req, r).value;
              && q.decoder == "" && UpdatedRule(r, q) == UpdatedRule(r, req) && AfterUpdate(r, q) == AfterUpdate(r, req)
              && (SameTarget(r, q) <==> SameTarget(r, req)) && q.rateLimit == req.rateLimit && ShorthandFits(req)
    ensures ShorthandFits(req) && SameTarget(r, req) && NewRule(AfterUpdate(r, req)).Some? ==>
              NormalizeDecoderForUpdate(req, r).Some?
  {
    hide UpdatedRule, AfterUpdate, SameTarget, NewRule, Good, NormalizeDecoderForUpdate, ShorthandFits;
    ExpandedUpdates(r, req);
    if NormalizeDecoderForUpdate(req, r).Some? {
      ExpandedAsks(r, req);
    } else if ShorthandFits(req) && SameTarget(r, req) && NewRule(AfterUpdate(r, req)).Some? {
      ExpandableUpdate(r, req);
    }
  }

  lemma ExpandedUpdates(r: ControllerRule, req: RuleRequest)
    ensures NormalizeDecoderForUpdate(req, r).None? ==> UpdatedRule(r, req) == None
    ensures NormalizeDecoderForUpdate(req, r).Some? ==>
              var q := NormalizeDecoderForUpdate(req, r).value;
              q.decoder == "" && UpdatedRule(r, q) == UpdatedRule(r, req)
  {
    hide FlagsFor, LengthsOk, InBounds, AnomalyAllowed, NamesTuple;
    if NormalizeDecoderForUpdate(req, r).Some? {
      ExpandedAgain(r, req);
    }
  }

  lemma ExpandedAgain(r: ControllerRule, req: RuleRequest)
    requires NormalizeDecoderForUpdate(req, r).Some?
    ensures var q := NormalizeDecoderForUpdate(req, r).value;
            q.decoder == "" && NormalizeDecoderForUpdate(q, r) == Some(q)
  {
  }

  lemma ExpandedAsks(r: ControllerRule, req: RuleRequest)
    requires req.decoder != "" && NormalizeDecoderForUpdate(req, r).Some?
    ensures var q := NormalizeDecoderForUpdate(req, r).value;
            && AfterUpdate(r, q) == AfterUpdate(r, req) && (SameTarget(r, q) <==> SameTarget(r, req))
            && q.rateLimit == req.rateLimit && ShorthandFits(req)
  {
    hide NamesV6;
  }

  lemma ExpandableUpdate(r: ControllerRule, req: RuleRequest)
    requires req.decoder != "" && ShorthandFits(req) && SameTarget(r, req) && NewRule(AfterUpdate(r, req)).Some?
    ensures NormalizeDecoderForUpdate(req, r).Some?
  {
    hide FlagsFor, LengthsOk, InBounds, NamesTuple, BoundedTarget, NamesV6, Portless;
  }

  lemma GoodFlags(r: ControllerRule)
    requires Good(r)
    ensures FlagsFor(r.tcpFlags, r.protocol) == Some(r.tcpFlags)
  {
  }
}
