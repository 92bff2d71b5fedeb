/** Keys, values and stored rules shared by the agent and the data plane. */
module Rules {

  datatype Option<+T> = None | Some(value: T)

  type Id = string

  /** The 40-byte rule_key (fields are addresses) and the 16-byte cidr_rule_key
      (src and dst are CIDR ids) have the same five fields; 0 is a wildcard in each. */
  datatype Key = Key(src: nat, dst: nat, sport: nat, dport: nat, proto: nat)

  const PROTO_TCP: nat := 6
  const PROTO_UDP: nat := 17

  const ACTION_DROP: nat := 1
  const ACTION_RATE_LIMIT: nat := 2

  const ANOMALY_BAD_FRAGMENT: bv8 := 0x01
  const ANOMALY_INVALID: bv8 := 0x02

  /** The bits of the TCP flags byte; a byte is the set of its bits. */
  datatype Flag = FIN | SYN | RST | PSH | ACK | URG | ECE | CWR

  /** struct rule_value without its two counters. */
  datatype RuleValue = RuleValue(
    action: nat, flagsMask: set<Flag>, flagsValue: set<Flag>, anomaly: bv8,
    rateLimit: nat, lenMin: nat, lenMax: nat)
}
