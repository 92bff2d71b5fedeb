/** What a request asks for, told by its own fields and those of the packet, and that the stored
    rule does exactly that. */
module Meaning {
  import opened Rules
  import opened Combo
  import opened Prefixes
  import opened TcpFlags
  import opened Lookup
  import opened Requests
  import opened CidrLookup

  // ---- Field by field ----

  /** A field that names an address other than the unspecified one asks for that address. */
  predicate AddressMeets(f: IpField, address: nat) {
    f.IpAddress? && f.value != 0 ==> address == f.value
  }

  /** The two bytes of the port, high byte first on the wire and so low byte of the key's field. */
  predicate PortMeets(port: int, wire: nat) {
    port != 0 ==> wire % 256 == port / 256 && wire / 256 == port % 256
  }

  /** Protocols by name; any other string is no condition. */
  predicate ProtocolMeets(name: string, proto: nat) {
    && (name == "tcp" ==> proto == 6) && (name == "udp" ==> proto == 17)
    && (name == "icmp" ==> proto == 1) && (name == "icmpv6" ==> proto == 58) && (name == "igmp" ==> proto == 2)
    && (name == "gre" ==> proto == 47) && (name == "esp" ==> proto == 50)
  }

  /** A bound of 0 is none. */
  predicate LengthMeets(lenMin: int, lenMax: int, len: nat) {
    lenMin <= len && (lenMax != 0 ==> len <= lenMax)
  }

  /** Each name that is said must be set in the packet, each one said with "!" must not be. */
  ghost predicate FlagsMeet(said: string, flags: set<Flag>) {
    forall segment, flag, negate ::
      segment in SplitComma(TrimSpace(said)) && ToUpper(TrimSpace(segment)) == Signed(flag, negate) ==>
        (flag in flags <==> !negate)
  }

  /** An ordinary lookup takes only rules without anomaly bits, an anomaly lookup only those that
      share a bit with the packet's. */
  predicate AnomalyMeets(anomaly: bv8, mode: Mode) {
    match mode
    case Plain => anomaly == 0
    case Anomalous(bits) => anomaly & bits != 0
  }

  predicate NetMeets(f: CidrField, a: Address) {
    f.CidrNetwork? ==> Contains(f.prefix, a)
  }

  // ---- Whole requests ----

  /** What both kinds of rules ask for. */
  ghost predicate AsksCommon(r: Rule, p: Packet, mode: Mode) {
    && PortMeets(r.sport, p.key.sport) && PortMeets(r.dport, p.key.dport) && ProtocolMeets(r.protocol, p.key.proto)
    && LengthMeets(r.lenMin, r.lenMax, p.len) && FlagsMeet(r.tcpFlags, p.flags) && AnomalyMeets(r.anomaly, mode)
  }

  ghost predicate AsksExact(r: Rule, p: Packet, mode: Mode) {
    AddressMeets(r.srcIP, p.key.src) && AddressMeets(r.dstIP, p.key.dst) && AsksCommon(r, p, mode)
  }

  ghost predicate AsksCidr(r: Rule, p: Packet, mode: Mode) {
    NetMeets(r.srcCIDR, p.src) && NetMeets(r.dstCIDR, p.dst) && AsksCommon(r, p, mode)
  }

  predicate AsksWl(e: WlEntry, p: Key) {
    && AddressMeets(e.srcIP, p.src) && AddressMeets(e.dstIP, p.dst)
    && PortMeets(e.sport, p.sport) && PortMeets(e.dport, p.dport) && ProtocolMeets(e.protocol, p.proto)
  }

  /** What is done to the packets: limited at the requested rate, or dropped. */
  predicate Enforces(v: RuleValue, r: Rule) {
    v.action == (if r.action == "rate_limit" then 2 else 1) && v.rateLimit == r.rateLimit
  }

  ghost predicate StoredExact(st: Stored, r: Rule) {
    Enforces(ValueOf(st), r) && forall p: Packet, mode: Mode :: ExactMatch(st, p, mode) <==> AsksExact(r, p, mode)
  }

  ghost predicate StoredCidr(st: Stored, r: Rule) {
    Enforces(ValueOf(st), r) && forall p: Packet, mode: Mode :: DirectMatch(st, p, mode) <==> AsksCidr(r, p, mode)
  }

  // ---- That this is what is stored ----

  lemma WirePort(port: Port, wire: nat)
    ensures Htons(port) == 0 || Htons(port) == wire <==> PortMeets(port, wire)
  {
    HtonsIsInvolution(port);
    BytesOf(wire, port / 256, port % 256);
  }

  lemma BytesOf(word: nat, low: nat, high: nat)
    requires low < 256
    ensures word == low + high * 256 <==> word % 256 == low && word / 256 == high
  {
  }

  lemma NamedProtocol(name: string, proto: nat)
    ensures ParseProtocol(name) == 0 || ParseProtocol(name) == proto <==> ProtocolMeets(name, proto)
  {
  }

  /** The names by which flags go, in requests and in what is printed. */
  lemma FlagNames()
    ensures Signed(FIN, false) == "FIN" && Signed(SYN, false) == "SYN" && Signed(RST, false) == "RST"
    ensures Signed(PSH, false) == "PSH" && Signed(ACK, false) == "ACK" && Signed(URG, false) == "URG"
    ensures Signed(ECE, false) == "ECE" && Signed(CWR, false) == "CWR"
    ensures forall f :: Signed(f, true) == "!" + Signed(f, false)
  {
  }

  /** A segment is read as a flag exactly if it is the flag's name, spaces and case aside. */
  lemma ReadIffSigned(segment: string, flag: Flag, negate: bool)
    ensures ReadToken(segment) == Named(flag, negate) <==> ToUpper(TrimSpace(segment)) == Signed(flag, negate)
  {
    hide TrimSpace, ToUpper, Name, FlagNamed;
    var upper := ToUpper(TrimSpace(segment));
    NameShape(flag);
    if upper != "" && upper[0] == '!' {
      assert upper == "!" + upper[1..];
      assert negate ==> Signed(flag, negate)[1..] == Name(flag);
      NamedIff(upper[1..], flag);
    } else {
      NamedIff(upper, flag);
    }
  }

  lemma NamedIff(name: string, flag: Flag)
    ensures FlagNamed(name) == Some(flag) <==> name == Name(flag)
  {
  }

  lemma {:induction false} SaidIffSigned(parts: seq<string>, flag: Flag, negate: bool)
    ensures (flag, negate) in Said(parts) <==>
            exists segment :: segment in parts && ToUpper(TrimSpace(segment)) == Signed(flag, negate)
  {
    hide ReadToken, Signed, ToUpper, TrimSpace;
    if parts != [] {
      ReadIffSigned(parts[0], flag, negate);
      SaidIffSigned(parts[1..], flag, negate);
      assert parts == [parts[0]] + parts[1..];
    }
  }

  /** What the node records of the segments is what they say. */
  lemma {:induction false} RecordsSaid(parts: seq<string>, f: Filter)
    requires f.Filter? && f.value <= f.mask && ReadAll(parts, f).Filter?
    ensures ReadAll(parts, f).value <= ReadAll(parts, f).mask
    ensures Recorded(ReadAll(parts, f)) == Said(parts) + Recorded(f)
  {
    hide ReadToken;
    if parts != [] {
      match ReadToken(parts[0])
      case Blank => RecordsSaid(parts[1..], f);
      case Named(flag, negate) =>
        TakeRecords(f, flag, negate);
        RecordsSaid(parts[1..], Take(f, flag, negate));
    }
  }

  /** The node's mask and value match exactly the packets that have all signs said. */
  lemma FilterMeaning(said: string, flags: set<Flag>)
    requires FilterOf(said).Filter?
    ensures flags * FilterOf(said).mask == FilterOf(said).value <==> FlagsMeet(said, flags)
  {
    hide ReadAll, Said, Signed, ToUpper, TrimSpace, SplitComma;
    var parts, f := SplitComma(TrimSpace(said)), FilterOf(said);
    NothingSaid(said);
    RecordsSaid(parts, NO_FILTER);
    assert Recorded(f) == Said(parts);
    forall flag, negate
      ensures (flag, negate) in Recorded(f) <==>
              exists segment :: segment in parts && ToUpper(TrimSpace(segment)) == Signed(flag, negate)
    {
      SaidIffSigned(parts, flag, negate);
    }
    RecordedMeets(f, flags);
  }

  lemma NothingSaid(said: string)
    ensures FilterOf(said) == ReadAll(SplitComma(TrimSpace(said)), NO_FILTER)
  {
    if TrimSpace(said) == "" {
      assert SplitComma("") == [""] && ReadToken("") == Blank;
    }
  }

  lemma RecordedMeets(f: Filter, flags: set<Flag>)
    requires f.Filter? && f.value <= f.mask
    ensures flags * f.mask == f.value <==>
            forall flag, negate :: (flag, negate) in Recorded(f) ==> (flag in flags <==> !negate)
  {
    assert forall flag :: (flag, false) in Recorded(f) <==> flag in f.value;
    assert forall flag :: (flag, true) in Recorded(f) <==> flag in f.mask - f.value;
    if forall flag, negate :: (flag, negate) in Recorded(f) ==> (flag in flags <==> !negate) {
      forall flag
        ensures flag in flags * f.mask <==> flag in f.value
      {
        assert flag in f.value ==> (flag, false) in Recorded(f);
        assert flag in f.mask - f.value ==> (flag, true) in Recorded(f);
      }
    }
  }

  /** The tests after the key, for a rule whose flags are read on TCP packets only. */
  lemma PostMeaning(r: Rule, p: Packet, mode: Mode)
    requires ActionOk(r) && ProtocolMeets(r.protocol, p.key.proto)
    ensures PostMatch(BuildValue(r), p.key.proto, Meta(p.len, p.flags, mode)) <==>
            LengthMeets(r.lenMin, r.lenMax, p.len) && FlagsMeet(r.tcpFlags, p.flags) && AnomalyMeets(r.anomaly, mode)
  {
    hide FilterOf, FlagsMeet, AnomalyFieldsOk, AnomalyMatches, AnomalyMeets;
    FilterMeaning(r.tcpFlags, p.flags);
    FilterWithin(r.tcpFlags);
    AnomalyMeaning(BuildValue(r), mode);
  }

  lemma AnomalyMeaning(v: RuleValue, mode: Mode)
    ensures AnomalyMatches(v, mode) <==> AnomalyMeets(v.anomaly, mode)
  {
    if mode.Anomalous? {
      assert mode.bits & v.anomaly == v.anomaly & mode.bits;
      assert v.anomaly == 0 ==> mode.bits & v.anomaly == 0;
    }
  }

  lemma FilterWithin(said: string)
    requires FilterOf(said).Filter?
    ensures FilterOf(said).value <= FilterOf(said).mask
  {
    hide ReadAll;
    NothingSaid(said);
    RecordsSaid(SplitComma(TrimSpace(said)), NO_FILTER);
  }

  lemma BuiltEnforces(r: Rule)
    requires ActionOk(r)
    ensures Enforces(BuildValue(r), r)
  {
    hide FilterOf, AnomalyFieldsOk;
  }

  /** An acceptable exact request is stored as a rule that matches exactly the packets it asks
      for, whatever its key looks like, with its action and rate. */
  lemma ExactMeaning(r: Rule, canonical: bool)
    requires PrepareExact(r, canonical).Some?
    ensures StoredExact(PrepareExact(r, canonical).value.stored, r)
  {
    hide ActionOk, RuleShapeOk, ComboType, ValidCombo, PostMatch, ProtocolMeets, PortMeets, FlagsMeet, Htons,
         ParseProtocol, BuildValue, StoredFlags, ValueOf, Enforces;
    var st := PrepareExact(r, canonical).value.stored;
    RebuiltValueIsWrittenValue(r, canonical, false, 0, 0);
    BuiltEnforces(r);
    forall p: Packet, mode: Mode
      ensures ExactMatch(st, p, mode) <==> AsksExact(r, p, mode)
    {
      WirePort(r.sport, p.key.sport);
      WirePort(r.dport, p.key.dport);
      NamedProtocol(r.protocol, p.key.proto);
      if ProtocolMeets(r.protocol, p.key.proto) {
        PostMeaning(r, p, mode);
      }
    }
  }

  /** The same for a CIDR request, whatever ids its prefixes get. */
  lemma CidrMeaning(r: Rule, canonical: bool, refuseMixed: bool, srcID: nat, dstID: nat)
    requires PrepareCIDR(r, canonical, refuseMixed).Some?
    ensures StoredCidr(WithIds(PrepareCIDR(r, canonical, refuseMixed).value.stored, srcID, dstID), r)
  {
    hide ActionOk, PortsAllowed, PostMatch, ProtocolMeets, PortMeets, FlagsMeet, Htons, ParseProtocol, BuildValue,
         StoredFlags, ValueOf, Enforces;
    var st := WithIds(PrepareCIDR(r, canonical, refuseMixed).value.stored, srcID, dstID);
    RebuiltValueIsWrittenValue(r, canonical, refuseMixed, srcID, dstID);
    BuiltEnforces(r);
    forall p: Packet, mode: Mode
      ensures DirectMatch(st, p, mode) <==> AsksCidr(r, p, mode)
    {
      WirePort(r.sport, p.key.sport);
      WirePort(r.dport, p.key.dport);
      NamedProtocol(r.protocol, p.key.proto);
      if ProtocolMeets(r.protocol, p.key.proto) {
        PostMeaning(r, p, mode);
      }
    }
  }

  /** A whitelist entry that passed the checks whitelists exactly what it names. */
  lemma WlMeaning(e: WlEntry, p: Key)
    requires PrepareWl(e).Some?
    ensures WildMatches(PrepareWl(e).value, p) <==> AsksWl(e, p)
  {
    hide ComboType, ValidCombo, ProtocolMeets, PortMeets, Htons, ParseProtocol, KnownProtocol, ToLower, Portless;
    WirePort(e.sport, p.sport);
    WirePort(e.dport, p.dport);
    NamedProtocol(e.protocol, p.proto);
  }

  // ---- What is kept of the request's text ----

  /** The stored rule shows action, rate, lengths and anomaly bits as they were sent; and the flags
      as they were sent, or in the spelling that the controller gives them. */
  ghost predicate Shows(st: Stored, r: Rule, canonical: bool) {
    && st.action == r.action && st.rateLimit == r.rateLimit && st.lenMin == r.lenMin && st.lenMax == r.lenMax
    && st.anomaly == r.anomaly
    && (if canonical then NormalizeTcpFlags(r.tcpFlags) == Some(st.tcpFlags) else st.tcpFlags == r.tcpFlags)
  }

  lemma StoredShows(r: Rule, canonical: bool, refuseMixed: bool)
    ensures PrepareExact(r, canonical).Some? ==> Shows(PrepareExact(r, canonical).value.stored, r, canonical)
    ensures PrepareCIDR(r, canonical, refuseMixed).Some? ==>
              Shows(PrepareCIDR(r, canonical, refuseMixed).value.stored, r, canonical)
  {
    hide RuleShapeOk, PortsAllowed, ComboType, ValidCombo, FilterOf, FirstMeaning, TcpFlagsToString, AnomalyFieldsOk;
    if ActionOk(r) {
      SameReading(r.tcpFlags);
    }
  }

  lemma SameReading(said: string)
    requires FilterOf(said).Filter?
    ensures FirstMeaning(said) == FilterOf(said)
  {
    if TrimSpace(said) != "" {
      NodeReadsFirstOccurrences(SplitComma(TrimSpace(said)), NO_FILTER);
    }
  }
}
