/** Requests, the checks of the node API on them, and the stored rules they become. */
module Requests {
  import opened Rules
  import opened Prefixes
  import opened Combo
  import opened TcpFlags

  /** An address field: absent, the wildcards "0.0.0.0" and "::", unparsable, or an address
      with its 16-byte value, its family and whether it is the unspecified address. */
  datatype IpField = IpAbsent | IpWildcard | IpInvalid | IpAddress(value: nat, v6: bool, unspecified: bool)

  datatype CidrField = CidrAbsent | CidrInvalid | CidrNetwork(prefix: Prefix)

  /** A 16-bit port. */
  type Port = n: nat | n < 0x1_0000

  datatype Rule = Rule(
    id: Id, srcIP: IpField, dstIP: IpField, srcCIDR: CidrField, dstCIDR: CidrField,
    sport: Port, dport: Port, protocol: string, action: string, rateLimit: nat,
    lenMin: nat, lenMax: nat, tcpFlags: string, anomaly: bv8)

  /** StoredRule (src and dst are None) and StoredCIDRRule. */
  datatype Stored = Stored(
    key: Key, src: Option<Prefix>, dst: Option<Prefix>, action: string, rateLimit: nat,
    lenMin: nat, lenMax: nat, tcpFlags: string, anomaly: bv8)

  /** A request that passed the checks, and the value that is written for it. */
  datatype Prepared = Prepared(stored: Stored, value: RuleValue)

  function Htons(n: nat): nat {
    (n / 256) % 256 + (n % 256) * 256
  }

  function ParseProtocol(s: string): nat {
    if s == "tcp" then PROTO_TCP else if s == "udp" then PROTO_UDP
    else if s == "icmp" then 1 else if s == "icmpv6" then 58
    else if s == "igmp" then 2 else if s == "gre" then 47 else if s == "esp" then 50
    else 0
  }

  function ParseAction(s: string): Option<nat> {
    if s == "drop" || s == "" then Some(ACTION_DROP)
    else if s == "rate_limit" then Some(ACTION_RATE_LIMIT)
    else None
  }

  function ToLower(s: string): (r: string) {
    if s == "" then "" else [if 'A' <= s[0] <= 'Z' then s[0] - 'A' + 'a' else s[0]] + ToLower(s[1..])
  }

  predicate Portless(protocol: string) {
    protocol in {"icmp", "icmpv6", "igmp", "gre", "esp"}
  }

  /** validatePortProtocolCompatNode */
  predicate PortsAllowed(r: Rule) {
    Portless(ToLower(r.protocol)) ==> r.sport == 0 && r.dport == 0
  }

  /** validateRule */
  predicate RuleShapeOk(r: Rule) {
    && (r.lenMin > 0 || r.lenMax > 0 ==>
          || r.srcIP != IpAbsent || r.dstIP != IpAbsent || r.sport != 0 || r.dport != 0
          || (r.protocol != "" && r.protocol != "all"))
    && !(r.lenMin > 0 && r.lenMax > 0 && r.lenMin > r.lenMax)
    && PortsAllowed(r)
  }

  predicate BoundedIP(f: IpField) { f.IpAddress? && !f.unspecified }

  predicate BoundedCIDR(f: CidrField) { f.CidrNetwork? && |f.prefix.bits| > 0 }

  /** validateNodeAnomalyFields */
  predicate AnomalyFieldsOk(r: Rule) {
    r.anomaly != 0 ==>
      && r.anomaly & !(ANOMALY_BAD_FRAGMENT | ANOMALY_INVALID) == 0
      && r.action != "rate_limit"
      && (BoundedIP(r.srcIP) || BoundedIP(r.dstIP) || BoundedCIDR(r.srcCIDR) || BoundedCIDR(r.dstCIDR))
      && (r.anomaly & ANOMALY_BAD_FRAGMENT != 0 ==>
            && !(BoundedIP(r.srcIP) && r.srcIP.v6) && !(BoundedIP(r.dstIP) && r.dstIP.v6)
            && !(r.srcCIDR.CidrNetwork? && r.srcCIDR.prefix.v6)
            && !(r.dstCIDR.CidrNetwork? && r.dstCIDR.prefix.v6))
  }

  function KeyField(f: IpField): nat {
    if f.IpAddress? then f.value else 0
  }

  predicate HasCIDR(r: Rule) { r.srcCIDR != CidrAbsent || r.dstCIDR != CidrAbsent }

  predicate HasExactIP(r: Rule) { r.srcIP != IpAbsent || r.dstIP != IpAbsent }

  function CidrOf(f: CidrField): Option<Prefix> {
    if f.CidrNetwork? then Some(f.prefix) else None
  }

  /** The checks on action, rate, flags and anomaly bits that every insertion path makes. */
  predicate ActionOk(r: Rule) {
    && ParseAction(r.action).Some?
    && (ParseAction(r.action).value == ACTION_RATE_LIMIT ==> r.rateLimit > 0)
    && FilterOf(r.tcpFlags).Filter?
    && (FilterOf(r.tcpFlags).mask != {} ==> ParseProtocol(r.protocol) == PROTO_TCP)
    && AnomalyFieldsOk(r)
  }

  function BuildValue(r: Rule): RuleValue
    requires ActionOk(r)
  {
    var f := FilterOf(r.tcpFlags);
    RuleValue(ParseAction(r.action).value, f.mask, f.value, r.anomaly, r.rateLimit, r.lenMin, r.lenMax)
  }

  /** The API paths store the canonical form of the flags, the sync paths what they were sent. */
  function StoredFlags(r: Rule, canonical: bool): string
    requires ActionOk(r)
  {
    var f := FilterOf(r.tcpFlags);
    if canonical then TcpFlagsToString(f.mask, f.value) else r.tcpFlags
  }

  /** The exact-rule checks of AddRule, AddRulesBatch, AddRuleFromSync and DoAtomicSync. */
  function PrepareExact(r: Rule, canonical: bool): (p: Option<Prepared>)
    ensures p.Some? ==> ValidCombo(ComboType(p.value.stored.key)) && p.value.stored.src == p.value.stored.dst == None
  {
    if HasCIDR(r) || !ActionOk(r) || !RuleShapeOk(r) || r.srcIP.IpInvalid? || r.dstIP.IpInvalid? then None
    else
      var key := Key(KeyField(r.srcIP), KeyField(r.dstIP), Htons(r.sport), Htons(r.dport), ParseProtocol(r.protocol));
      if !ValidCombo(ComboType(key)) then None
      else Some(Prepared(
        Stored(key, None, None, r.action, r.rateLimit, r.lenMin, r.lenMax, StoredFlags(r, canonical), r.anomaly),
        BuildValue(r)))
  }

  /** The rule names a field that its key can hold. */
  predicate NamesField(r: Rule) {
    KeyField(r.srcIP) != 0 || KeyField(r.dstIP) != 0 || r.sport != 0 || r.dport != 0 || ParseProtocol(r.protocol) != 0
  }

  /** Exactly these requests are acceptable. Their key is never a combo that cannot be used: what
      the combo check refuses is only the rule that names nothing. */
  lemma PreparedIff(r: Rule, canonical: bool)
    ensures PrepareExact(r, canonical).Some? <==>
            && !HasCIDR(r) && ActionOk(r) && RuleShapeOk(r) && !r.srcIP.IpInvalid? && !r.dstIP.IpInvalid?
            && NamesField(r)
  {
    hide ActionOk, RuleShapeOk, ParseProtocol, BuildValue, StoredFlags, Htons, ComboOf;
    KeyUsable(KeyField(r.srcIP), KeyField(r.dstIP), r.sport, r.dport, ParseProtocol(r.protocol));
  }

  lemma KeyUsable(src: nat, dst: nat, sport: Port, dport: Port, proto: nat)
    ensures ValidCombo(ComboType(Key(src, dst, Htons(sport), Htons(dport), proto))) <==>
            src != 0 || dst != 0 || sport != 0 || dport != 0 || proto != 0
  {
    hide Htons, ComboOf, ValidCombo;
    HtonsIsInvolution(sport);
    HtonsIsInvolution(dport);
    ComboAgreesWithProbes(ShapeOf(Key(src, dst, Htons(sport), Htons(dport), proto)));
  }

  /** A drop rule of this id on one destination port. */
  function OnPort(id: Id, dport: Port): Rule {
    Rule(id, IpAbsent, IpAbsent, CidrAbsent, CidrAbsent, 0, dport, "", "drop", 0, 0, 0, "", 0)
  }

  lemma OnPortPrepared(id: Id, dport: Port, canonical: bool)
    ensures !HasCIDR(OnPort(id, dport))
    ensures PrepareExact(OnPort(id, dport), canonical).Some? <==> dport != 0
    ensures dport != 0 ==>
              PrepareExact(OnPort(id, dport), canonical).value.stored.key == Key(0, 0, Htons(0), Htons(dport), 0)
  {
    hide Htons, ComboType;
    PreparedIff(OnPort(id, dport), canonical);
  }

  /** The CIDR-rule checks before ids are allocated; the two ids of the key are still 0.
      Only AddRule and DoAtomicSync refuse a rule that also names an address. */
  function PrepareCIDR(r: Rule, canonical: bool, refuseMixed: bool): (p: Option<Prepared>)
    ensures p.Some? ==> p.value.stored.src.Some? || p.value.stored.dst.Some?
    ensures p.Some? ==> p.value.stored.key.src == p.value.stored.key.dst == 0
  {
    if !HasCIDR(r) || (refuseMixed && HasExactIP(r)) || !ActionOk(r) || !PortsAllowed(r)
       || r.srcCIDR.CidrInvalid? || r.dstCIDR.CidrInvalid? then None
    else
      Some(Prepared(
        Stored(Key(0, 0, Htons(r.sport), Htons(r.dport), ParseProtocol(r.protocol)),
               CidrOf(r.srcCIDR), CidrOf(r.dstCIDR),
               r.action, r.rateLimit, r.lenMin, r.lenMax, StoredFlags(r, canonical), r.anomaly),
        BuildValue(r)))
  }

  /** A whitelist request. */
  datatype WlEntry = WlEntry(id: Id, srcIP: IpField, dstIP: IpField, sport: Port, dport: Port, protocol: string)

  /** A whitelist entry that passed the checks. */
  datatype WlItem = WlItem(id: Id, key: Key)

  /** parseProtocolStrict accepts these; the rule paths take any other string for "all". */
  predicate KnownProtocol(s: string) {
    s in {"", "all", "tcp", "udp", "icmp", "icmpv6", "igmp", "gre", "esp"}
  }

  /** whitelistToKey and the checks after it. */
  function PrepareWl(e: WlEntry): (k: Option<Key>)
    ensures k.Some? ==> ValidCombo(ComboType(k.value))
  {
    if e.srcIP.IpInvalid? || e.dstIP.IpInvalid? || !KnownProtocol(e.protocol) then None
    else
      var key := Key(KeyField(e.srcIP), KeyField(e.dstIP), Htons(e.sport), Htons(e.dport), ParseProtocol(e.protocol));
      if !ValidCombo(ComboType(key)) || (Portless(ToLower(e.protocol)) && !(e.sport == 0 && e.dport == 0)) then None
      else Some(key)
  }

  /** Exactly these entries are acceptable. */
  lemma PreparedWlIff(e: WlEntry)
    ensures PrepareWl(e).Some? <==>
            && !e.srcIP.IpInvalid? && !e.dstIP.IpInvalid? && KnownProtocol(e.protocol)
            && (Portless(ToLower(e.protocol)) ==> e.sport == 0 && e.dport == 0)
            && (KeyField(e.srcIP) != 0 || KeyField(e.dstIP) != 0 || e.sport != 0 || e.dport != 0
                || ParseProtocol(e.protocol) != 0)
  {
    hide KnownProtocol, ParseProtocol, Htons, ComboOf, ToLower, Portless;
    KeyUsable(KeyField(e.srcIP), KeyField(e.dstIP), e.sport, e.dport, ParseProtocol(e.protocol));
  }

  function WithIds(st: Stored, srcID: nat, dstID: nat): Stored {
    st.(key := st.key.(src := srcID, dst := dstID))
  }

  /** ruleValueFromStored and ruleValueFromStoredCIDR: the value that a rollback writes back. */
  function ValueOf(st: Stored): RuleValue {
    var action := if ParseAction(st.action).Some? then ParseAction(st.action).value else ACTION_DROP;
    var f := if FilterOf(st.tcpFlags).Filter? then FilterOf(st.tcpFlags) else NO_FILTER;
    RuleValue(action, f.mask, f.value, st.anomaly, st.rateLimit, st.lenMin, st.lenMax)
  }

  /** The value rebuilt from a stored rule is the value that was written when the rule was
      stored, in canonical spelling or not. */
  lemma RebuiltValueIsWrittenValue(r: Rule, canonical: bool, refuseMixed: bool, srcID: nat, dstID: nat)
    ensures var p := PrepareExact(r, canonical); p.Some? ==> ValueOf(p.value.stored) == p.value.value
    ensures var p := PrepareCIDR(r, canonical, refuseMixed);
            p.Some? ==> ValueOf(WithIds(p.value.stored, srcID, dstID)) == p.value.value
  {
    if ActionOk(r) {
      var f := FilterOf(r.tcpFlags);
      if TrimSpace(r.tcpFlags) != "" {
        NodeReadsFirstOccurrences(SplitComma(TrimSpace(r.tcpFlags)), NO_FILTER);
      }
      ParsePrinted(f.mask, f.value);
    }
  }

  /** Swapping the bytes of a 16-bit port loses nothing, and only port 0 becomes 0. */
  lemma HtonsIsInvolution(n: Port)
    ensures Htons(n) < 0x1_0000 && Htons(Htons(n)) == n
    ensures Htons(n) == 0 <==> n == 0
  {
    var hi, lo := n / 256, n % 256;
    assert hi % 256 == hi;
    assert Htons(n) == hi + lo * 256;
    assert Htons(n) / 256 == lo && Htons(n) % 256 == hi;
  }
}
