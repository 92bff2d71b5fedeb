/** The three XDP programs on one packet after another: what becomes of it, and the counters. */
module DataPlane {
  import opened Rules
  import Bits
  import Combo
  import opened Lookup
  import opened Requests
  import opened RuleTable
  import opened CidrLookup
  import opened Kernel
  import opened Handlers
  import opened Views
  import opened CidrManager
  import opened WlTable
  import opened TokenBucket
  import opened Meaning

  datatype Verdict = Pass | Drop | Aborted

  /** What parsing finds: whether the link headers are complete, whether the packet is IP, on an
      interface that is filtered, with a complete network header, a transport header that can be
      found, and that header complete; whether it is an IPv6 packet with no next header; then its
      fields and its anomaly bits. */
  datatype Frame = Frame(linkOk: bool, isIP: bool, filtered: bool, networkOk: bool, transportFound: bool,
                         transportOk: bool,
                         noNext: bool, packet: Packet, anomaly: bv8)

  const NO_NEXT_HEADER: nat := 59

  /** The packet as the gate reads it. It takes "no next header" for a protocol, which the main
      program reads as 0. */
  function GatePacket(f: Frame): Packet {
    if f.noNext then f.packet.(key := f.packet.key.(proto := NO_NEXT_HEADER)) else f.packet
  }

  /** The gate lets the packet pass itself. */
  predicate GatePasses(f: Frame, env: Env)
    requires env.maps.Sized()
  {
    Judged(f, env) && env.maps.Whitelisted(GatePacket(f))
  }

  /** The gate hands the packet on to the main program. */
  predicate HandedOn(f: Frame, env: Env)
    requires env.maps.Sized()
  {
    && f.linkOk && f.isIP && (env.fastForward ==> f.filtered)
    && (env.maps.Word(WL_BITMAP) != 0 ==>
          f.networkOk && (f.transportFound ==> f.transportOk && !env.maps.Whitelisted(GatePacket(f))))
  }

  /** What the programs meet at that instant besides the packet: the maps, fast-forward mode, the
      clock, room for new bucket entries, and which tail calls and the stash are available. */
  datatype Env = Env(maps: Maps, fastForward: bool, now: nat, room: bool, mainLoaded: bool, anomalyLoaded: bool,
                     stashed: bool)

  /** A rule's entry, in the exact or the CIDR map. */
  datatype Entry = Entry(cidr: bool, key: Key)

  datatype RuleCount = RuleCount(matched: nat, dropped: nat)

  /** One more match, and one more drop if it was dropped. */
  function Tallied(c: RuleCount, drop: bool): RuleCount {
    RuleCount(c.matched + 1, c.dropped + (if drop then 1 else 0))
  }

  function CountOf(counts: map<Entry, RuleCount>, e: Entry): RuleCount {
    if e in counts then counts[e] else RuleCount(0, 0)
  }

  /** No rule has dropped more packets than it matched. */
  ghost predicate CountsOk(counts: map<Entry, RuleCount>) {
    forall e :: e in counts ==> counts[e].dropped <= counts[e].matched
  }

  function BucketOf(buckets: map<Entry, State>, e: Entry): State {
    if e in buckets then buckets[e] else Absent
  }

  /** The rule map entry that an answer names. */
  function ValueAt(m: Maps, e: Entry): Option<RuleValue>
    requires m.Sized()
  {
    if e.cidr then
      if e.key in m.CidrBlacklist(m.RuleSide()) then Some(m.CidrBlacklist(m.RuleSide())[e.key]) else None
    else
      if e.key in m.Blacklist(m.RuleSide()) then Some(m.Blacklist(m.RuleSide())[e.key]) else None
  }

  function Answer(m: Maps, cidr: bool, p: Packet, mode: Mode): Option<Key>
    requires m.Sized()
  {
    if cidr then m.CidrAnswer(p, mode) else m.ExactAnswer(p, mode)
  }

  lemma AnswerIsStored(m: Maps, cidr: bool, p: Packet, mode: Mode)
    requires m.Sized()
    ensures Answer(m, cidr, p, mode).Some? ==> ValueAt(m, Entry(cidr, Answer(m, cidr, p, mode).value)).Some?
  {
    hide PostMatch;
    if cidr {
      LookupIsSound(m.CidrBlacklist(m.RuleSide()), m.Word(CIDR_RULE_COUNT), m.Word(CIDR_BITMAP), CidrKey(m.trie, p),
                    Meta(p.len, p.flags, mode));
    } else {
      LookupIsSound(m.Blacklist(m.RuleSide()), m.Word(BLACKLIST_COUNT), m.Word(RULE_BITMAP), p.key,
                    Meta(p.len, p.flags, mode));
    }
  }

  /** The rule that answers, if any. */
  function Found(m: Maps, cidr: bool, p: Packet, mode: Mode): Option<RuleValue>
    requires m.Sized()
  {
    var k := Answer(m, cidr, p, mode);
    if k.None? then None else ValueAt(m, Entry(cidr, k.value))
  }

  /** The clocks of all buckets are 64-bit values. */
  predicate ClocksFit(buckets: map<Entry, State>) {
    forall x :: x in buckets && buckets[x].Present? ==> buckets[x].last < U64
  }

  /** Whether a matched rule decides anything. */
  predicate Limits(v: RuleValue) { v.action == ACTION_RATE_LIMIT && v.rateLimit > 0 }

  predicate Decides(v: Option<RuleValue>) { v.Some? && (v.value.action == ACTION_DROP || Limits(v.value)) }

  /** What the bucket of a rate-limit rule makes of one more packet. */
  function Metered(e: Entry, v: RuleValue, env: Env, buckets: map<Entry, State>): (State, bool)
    requires env.maps.Sized() && env.now < U64 && ClocksFit(buckets)
  {
    Step(BucketOf(buckets, e), env.now, PerCpuRate(v.rateLimit, env.maps.Word(RL_CPU_DIVISOR)), env.room)
  }

  lemma MeteredFits(e: Entry, v: RuleValue, env: Env, buckets: map<Entry, State>)
    requires env.maps.Sized() && env.now < U64 && ClocksFit(buckets)
    ensures ClocksFit(buckets[e := Metered(e, v, env, buckets).0])
  {
  }

  /** What a deciding rule decides: a drop rule drops, a rate limit is up to its bucket. */
  function Decision(e: Entry, v: RuleValue, env: Env, buckets: map<Entry, State>): Verdict
    requires env.maps.Sized() && env.now < U64 && ClocksFit(buckets)
  {
    if v.action == ACTION_DROP || !Metered(e, v, env, buckets).1 then Drop else Pass
  }

  /** The verdict of one table, if its answer decides. */
  function TableVerdict(cidr: bool, f: Frame, env: Env, buckets: map<Entry, State>): Option<Verdict>
    requires env.maps.Sized() && env.now < U64 && ClocksFit(buckets)
  {
    var v := Found(env.maps, cidr, f.packet, Plain);
    if Decides(v) then Some(Decision(Entry(cidr, Answer(env.maps, cidr, f.packet, Plain).value), v.value, env, buckets))
    else None
  }

  /** The rule that decides an ordinary lookup, if any: the exact one first. */
  function Decider(f: Frame, env: Env): (e: Option<Entry>)
    requires env.maps.Sized()
    ensures e.Some? ==> ValueAt(env.maps, e.value).Some?
  {
    if Decides(Found(env.maps, false, f.packet, Plain))
    then Some(Entry(false, Answer(env.maps, false, f.packet, Plain).value))
    else if Decides(Found(env.maps, true, f.packet, Plain))
    then Some(Entry(true, Answer(env.maps, true, f.packet, Plain).value))
    else None
  }

  /** The buckets after a rule has decided: a rate limit has used its own. */
  function UsedBy(e: Entry, env: Env, buckets: map<Entry, State>): map<Entry, State>
    requires env.maps.Sized() && env.now < U64 && ClocksFit(buckets) && ValueAt(env.maps, e).Some?
  {
    var v := ValueAt(env.maps, e).value;
    if v.action == ACTION_DROP then buckets else buckets[e := Metered(e, v, env, buckets).0]
  }

  function Used(f: Frame, env: Env, buckets: map<Entry, State>): map<Entry, State>
    requires env.maps.Sized() && env.now < U64 && ClocksFit(buckets)
  {
    match Decider(f, env)
    case None => buckets
    case Some(e) => UsedBy(e, env, buckets)
  }

  // ---- What is counted ----

  function One(b: bool): nat { if b then 1 else 0 }

  /** The entry is the one that the lookup in its table finds. */
  predicate Answers(m: Maps, x: Entry, cidr: bool, p: Packet, mode: Mode)
    requires m.Sized()
  {
    x.cidr == cidr && Answer(m, cidr, p, mode) == Some(x.key)
  }

  /** How often the main program counts a match of the rule: the exact answer always, the CIDR one if
      the exact one did not decide. */
  function PlainHits(f: Frame, env: Env, x: Entry): nat
    requires env.maps.Sized()
  {
    One(Answers(env.maps, x, false, f.packet, Plain))
    + One(!Decides(Found(env.maps, false, f.packet, Plain)) && Answers(env.maps, x, true, f.packet, Plain))
  }

  /** The same in the anomaly program. */
  function AnomalyHits(f: Frame, env: Env, x: Entry): nat
    requires env.maps.Sized()
  {
    var mode := Anomalous(f.anomaly);
    if !env.stashed || f.anomaly == 0 then 0
    else
      One(Answers(env.maps, x, false, f.packet, mode))
      + One(!Decides(Found(env.maps, false, f.packet, mode)) && Answers(env.maps, x, true, f.packet, mode))
  }

  /** The anomaly rule that drops the packet, if any: the exact one first. */
  function AnomalyDecider(f: Frame, env: Env): Option<Entry>
    requires env.maps.Sized()
  {
    var mode := Anomalous(f.anomaly);
    if !env.stashed || f.anomaly == 0 then None
    else if Decides(Found(env.maps, false, f.packet, mode))
    then Some(Entry(false, Answer(env.maps, false, f.packet, mode).value))
    else if Decides(Found(env.maps, true, f.packet, mode))
    then Some(Entry(true, Answer(env.maps, true, f.packet, mode).value))
    else None
  }

  predicate AnomalyAsked(f: Frame, env: Env)
    requires env.maps.Sized()
  {
    Decider(f, env).None? && env.maps.Word(ANOMALY_RULE_COUNT) > 0 && env.anomalyLoaded
  }

  /** A rule's counters after a packet of this verdict: matched once for each lookup it answers, and
      dropped if it is the rule that decided and the packet was dropped. */
  function CountedTo(c: RuleCount, f: Frame, env: Env, x: Entry, verdict: Verdict): RuleCount
    requires env.maps.Sized()
  {
    RuleCount(
      c.matched + PlainHits(f, env, x) + (if AnomalyAsked(f, env) then AnomalyHits(f, env, x) else 0),
      c.dropped + One(verdict == Drop && Decider(f, env) == Some(x))
      + One(AnomalyAsked(f, env) && AnomalyDecider(f, env) == Some(x)))
  }

  /** The packet was dropped by a rate limit of the main program. */
  predicate DroppedByLimit(f: Frame, env: Env, verdict: Verdict)
    requires env.maps.Sized()
  {
    && verdict == Drop && Decider(f, env).Some?
    && ValueAt(env.maps, Decider(f, env).value).value.action != ACTION_DROP
  }

  predicate AnomalyDrops(m: Maps, f: Frame)
    requires m.Sized()
  {
    Decides(Found(m, false, f.packet, Anomalous(f.anomaly))) || Decides(Found(m, true, f.packet, Anomalous(f.anomaly)))
  }

  predicate AnomalyReached(env: Env, f: Frame) { env.anomalyLoaded && env.stashed && f.anomaly != 0 }

  /** The main program's verdict on a packet that gets as far as the lookups: the exact rule
      decides, else the CIDR rule, else an anomaly rule drops, and nothing at all passes. */
  function MainVerdict(f: Frame, env: Env, buckets: map<Entry, State>): Verdict
    requires env.maps.Sized() && env.now < U64 && ClocksFit(buckets)
  {
    match (TableVerdict(false, f, env, buckets), TableVerdict(true, f, env, buckets))
    case (Some(v), _) => v
    case (None, Some(v)) => v
    case (None, None) =>
      if env.maps.Word(ANOMALY_RULE_COUNT) > 0 && AnomalyReached(env, f) && AnomalyDrops(env.maps, f) then Drop
      else Pass
  }

  /** The packet gets as far as the rule lookups. */
  predicate Judged(f: Frame, env: Env) {
    f.linkOk && f.isIP && (env.fastForward ==> f.filtered) && f.networkOk && f.transportFound && f.transportOk
  }

  class XdpPrograms {
    var total: nat
    var passed: nat
    var dropped: nat
    var whitelisted: nat
    var rateLimited: nat
    var tailCallFailed: nat
    /** Verdicts that no counter of the source counts: aborted packets, and packets lost to a
        missing stash. */
    ghost var aborted: nat
    ghost var lost: nat
    var counts: map<Entry, RuleCount>
    var buckets: map<Entry, State>

    constructor ()
      ensures Balanced() && total == 0 && lost == 0
    {
      total, passed, dropped, whitelisted, rateLimited, tailCallFailed := 0, 0, 0, 0, 0, 0;
      aborted, lost := 0, 0;
      counts, buckets := map[], map[];
    }

    /** `open` packets have been counted as arrived and not yet as anything else. */
    ghost predicate Pending(open: nat)
      reads this
    {
      && total == passed + dropped + aborted + lost + open
      && whitelisted <= passed && rateLimited <= dropped
      && CountsOk(counts)
    }

    ghost predicate Balanced()
      reads this
    {
      Pending(0)
    }

    /** A matched rule of the main program: its counters, its bucket, and its decision. */
    method Enforce(e: Entry, v: RuleValue, env: Env) returns (decided: Option<Verdict>)
      requires Pending(1) && env.maps.Sized() && env.now < U64 && ClocksFit(buckets)
      modifies this
      ensures ClocksFit(buckets)
      ensures decided.Some? ==> Balanced()
      ensures decided.None? ==> Pending(1)
      ensures decided == if Decides(Some(v)) then Some(Decision(e, v, env, old(buckets))) else None
      ensures buckets == if v.action != ACTION_DROP && Limits(v)
                         then old(buckets)[e := Metered(e, v, env, old(buckets)).0] else old(buckets)
      ensures dropped == old(dropped) + (if decided == Some(Drop) then 1 else 0)
      ensures rateLimited == old(rateLimited) + (if decided == Some(Drop) && v.action != ACTION_DROP then 1 else 0)
      ensures CountOf(counts, e) == Tallied(CountOf(old(counts), e), decided == Some(Drop))
      ensures forall x :: x != e ==> CountOf(counts, x) == CountOf(old(counts), x)
      ensures unchanged(`total, `whitelisted, `tailCallFailed, `aborted, `lost)
    {
      hide Metered, ClocksFit, Maps.Sized;
      var c := CountOf(counts, e);
      counts := counts[e := c.(matched := c.matched + 1)];
      if v.action == ACTION_DROP {
        counts := counts[e := CountOf(counts, e).(dropped := c.dropped + 1)];
        dropped := dropped + 1;
        return Some(Drop);
      }
      if Limits(v) {
        MeteredFits(e, v, env, buckets);
        var (state, admitted) := Metered(e, v, env, buckets);
        buckets := buckets[e := state];
        if admitted {
          passed := passed + 1;
          return Some(Pass);
        }
        counts := counts[e := CountOf(counts, e).(dropped := c.dropped + 1)];
        rateLimited := rateLimited + 1;
        dropped := dropped + 1;
        return Some(Drop);
      }
      decided := None;
    }

    /** One table, exact or CIDR, in the main program or the anomaly program: the lookup and what
        it leads to. */
    method Consult(cidr: bool, f: Frame, env: Env) returns (decided: Option<Verdict>)
      requires Pending(1) && env.maps.Sized() && env.now < U64 && ClocksFit(buckets)
      modifies this
      ensures ClocksFit(buckets) && unchanged(`total, `whitelisted, `tailCallFailed, `aborted, `lost)
      ensures if decided.Some? then Balanced() else Pending(1)
      ensures decided == TableVerdict(cidr, f, env, old(buckets))
      ensures dropped == old(dropped) + (if decided == Some(Drop) then 1 else 0)
      ensures rateLimited == old(rateLimited) +
                             One(decided == Some(Drop) &&
                                 Found(env.maps, cidr, f.packet, Plain).value.action != ACTION_DROP)
      ensures decided.None? ==> buckets == old(buckets)
      ensures decided.Some? ==>
                var e := Entry(cidr, Answer(env.maps, cidr, f.packet, Plain).value);
                ValueAt(env.maps, e).Some? && buckets == UsedBy(e, env, old(buckets))
      ensures var k := Answer(env.maps, cidr, f.packet, Plain);
              forall x :: CountOf(counts, x) ==
                          if k.None? || x != Entry(cidr, k.value) then CountOf(old(counts), x)
                          else Tallied(CountOf(old(counts), x), decided == Some(Drop))
    {
      AnswerIsStored(env.maps, cidr, f.packet, Plain);
      var k := Answer(env.maps, cidr, f.packet, Plain);
      if k.None? {
        return None;
      }
      var e := Entry(cidr, k.value);
      decided := Enforce(e, ValueAt(env.maps, e).value, env);
    }

    /** The same in the anomaly program, which has no bucket: a rate limit there drops. */
    method ConsultAnomaly(cidr: bool, f: Frame, env: Env) returns (decided: bool)
      requires Pending(1) && env.maps.Sized()
      modifies this
      ensures unchanged(`total, `passed, `whitelisted, `rateLimited, `tailCallFailed, `aborted, `lost, `buckets)
      ensures if decided then Balanced() else Pending(1)
      ensures decided <==> Decides(Found(env.maps, cidr, f.packet, Anomalous(f.anomaly)))
      ensures dropped == old(dropped) + (if decided then 1 else 0)
      ensures var k := Answer(env.maps, cidr, f.packet, Anomalous(f.anomaly));
              forall x :: CountOf(counts, x) ==
                          if k.None? || x != Entry(cidr, k.value) then CountOf(old(counts), x)
                          else Tallied(CountOf(old(counts), x), decided)
    {
      var mode := Anomalous(f.anomaly);
      AnswerIsStored(env.maps, cidr, f.packet, mode);
      var k := Answer(env.maps, cidr, f.packet, mode);
      if k.None? {
        return false;
      }
      var e := Entry(cidr, k.value);
      var v := ValueAt(env.maps, e).value;
      var c := CountOf(counts, e);
      counts := counts[e := c.(matched := c.matched + 1)];
      if v.action == ACTION_DROP || Limits(v) {
        counts := counts[e := RuleCount(c.matched + 1, c.dropped + 1)];
        dropped := dropped + 1;
        return true;
      }
      decided := false;
    }

    /** xdp_anomaly_verify */
    method AnomalyVerify(f: Frame, env: Env) returns (verdict: Verdict)
      requires Pending(1) && env.maps.Sized() && f.linkOk && f.isIP && f.networkOk
      modifies this
      ensures Balanced() && unchanged(`total, `whitelisted, `rateLimited, `tailCallFailed, `aborted, `buckets)
      ensures forall x :: CountOf(counts, x) ==
                          RuleCount(CountOf(old(counts), x).matched + AnomalyHits(f, env, x),
                                    CountOf(old(counts), x).dropped + One(AnomalyDecider(f, env) == Some(x)))
      ensures lost == old(lost) + (if env.stashed then 0 else 1)
      ensures verdict == if env.stashed && f.anomaly != 0 && AnomalyDrops(env.maps, f) then Drop else Pass
      ensures dropped == old(dropped) + (if verdict == Drop then 1 else 0)
    {
      if !env.stashed {
        lost := lost + 1;
        return Pass;
      }
      if f.anomaly != 0 {
        var decided := ConsultAnomaly(false, f, env);
        if decided {
          return Drop;
        }
        decided := ConsultAnomaly(true, f, env);
        if decided {
          return Drop;
        }
      }
      passed := passed + 1;
      verdict := Pass;
    }

    /** From the exact lookup of the main program on. */
    method Judge(f: Frame, env: Env) returns (verdict: Verdict)
      requires Pending(1) && env.maps.Sized() && env.now < U64 && ClocksFit(buckets) && Judged(f, env)
      modifies this
      ensures Balanced() && ClocksFit(buckets) && unchanged(`total, `whitelisted, `tailCallFailed, `aborted)
      ensures lost <= old(lost) + (if env.stashed then 0 else 1)
      ensures verdict == MainVerdict(f, env, old(buckets)) && buckets == Used(f, env, old(buckets))
      ensures dropped == old(dropped) + (if verdict == Drop then 1 else 0)
      ensures rateLimited == old(rateLimited) + One(DroppedByLimit(f, env, verdict))
      ensures forall x :: CountOf(counts, x) == CountedTo(CountOf(old(counts), x), f, env, x, verdict)
    {
      hide Answer, AnomalyHits, AnomalyDecider, AnomalyDrops, UsedBy, Decision, Metered, CountOf, ClocksFit, ValueAt,
           CountsOk, Maps.Word;
      var decided := Consult(false, f, env);
      if decided.Some? {
        return decided.value;
      }
      decided := Consult(true, f, env);
      if decided.Some? {
        return decided.value;
      }
      if env.maps.Word(ANOMALY_RULE_COUNT) > 0 && env.anomalyLoaded {
        verdict := AnomalyVerify(f, env);
        return;
      }
      passed := passed + 1;
      verdict := Pass;
    }

    /** xdp_firewall_main */
    method FirewallMain(f: Frame, env: Env) returns (verdict: Verdict)
      requires Pending(1) && env.maps.Sized() && env.now < U64 && ClocksFit(buckets)
      modifies this
      ensures Balanced() && ClocksFit(buckets) && unchanged(`total, `whitelisted, `tailCallFailed)
      ensures lost <= old(lost) + (if env.stashed then 0 else 1)
      ensures aborted == old(aborted) + (if verdict == Aborted then 1 else 0)
      ensures dropped == old(dropped) + (if verdict == Drop then 1 else 0)
      ensures Judged(f, env) ==> verdict == MainVerdict(f, env, old(buckets)) && buckets == Used(f, env, old(buckets))
      ensures !Judged(f, env) ==> verdict != Drop && counts == old(counts) && buckets == old(buckets)
      ensures rateLimited == old(rateLimited) + One(Judged(f, env) && DroppedByLimit(f, env, verdict))
      ensures Judged(f, env) ==>
                forall x :: CountOf(counts, x) == CountedTo(CountOf(old(counts), x), f, env, x, verdict)
    {
      if !f.linkOk {
        aborted := aborted + 1;
        return Aborted;
      }
      if (env.fastForward && !f.isIP) || (env.fastForward && !f.filtered) {
        passed := passed + 1;
        return Pass;
      }
      if !f.isIP {
        passed := passed + 1;
        return Pass;
      }
      if !f.networkOk {
        aborted := aborted + 1;
        return Aborted;
      }
      if !f.transportFound {
        passed := passed + 1;
        return Pass;
      }
      if !f.transportOk {
        aborted := aborted + 1;
        return Aborted;
      }
      verdict := Judge(f, env);
    }

    /** xdp_whitelist_gate, which every packet enters first. */
    method WhitelistGate(f: Frame, env: Env) returns (verdict: Verdict)
      requires Balanced() && env.maps.Sized() && env.now < U64 && ClocksFit(buckets)
      modifies this
      ensures Balanced() && ClocksFit(buckets) && total == old(total) + 1
      ensures lost <= old(lost) + (if env.stashed then 0 else 1)
      ensures GatePasses(f, env) ==> verdict == Pass && counts == old(counts)
      ensures Judged(f, env) && !GatePasses(f, env) && env.mainLoaded ==> verdict == MainVerdict(f, env, old(buckets))
      ensures HandedOn(f, env) && !env.mainLoaded ==> verdict == Pass
      ensures !Judged(f, env) || !env.mainLoaded ==> verdict != Drop && counts == old(counts)
      ensures buckets == if Judged(f, env) && !GatePasses(f, env) && env.mainLoaded
                         then Used(f, env, old(buckets)) else old(buckets)
      ensures Judged(f, env) && !GatePasses(f, env) && env.mainLoaded ==>
                forall x :: CountOf(counts, x) == CountedTo(CountOf(old(counts), x), f, env, x, verdict)
      ensures rateLimited == old(rateLimited) +
                             One(Judged(f, env) && !GatePasses(f, env) && env.mainLoaded &&
                                 DroppedByLimit(f, env, verdict))
      ensures whitelisted == old(whitelisted) + (if GatePasses(f, env) then 1 else 0)
      ensures tailCallFailed == old(tailCallFailed) + (if HandedOn(f, env) && !env.mainLoaded then 1 else 0)
      ensures aborted == old(aborted) + (if verdict == Aborted then 1 else 0)
      ensures dropped == old(dropped) + (if verdict == Drop then 1 else 0)
    {
      total := total + 1;
      if !f.linkOk {
        aborted := aborted + 1;
        return Aborted;
      }
      if !f.isIP || (env.fastForward && !f.filtered) {
        passed := passed + 1;
        return Pass;
      }
      if env.maps.Word(WL_BITMAP) == 0 {
        NoBitsNoHit(env.maps, GatePacket(f));
        verdict := TailCallMain(f, env);
        return;
      }
      if !f.networkOk {
        aborted := aborted + 1;
        return Aborted;
      }
      if !f.transportFound {
        verdict := TailCallMain(f, env);
        return;
      }
      if !f.transportOk {
        aborted := aborted + 1;
        return Aborted;
      }
      if env.maps.Whitelisted(GatePacket(f)) {
        whitelisted := whitelisted + 1;
        passed := passed + 1;
        return Pass;
      }
      verdict := TailCallMain(f, env);
    }

    /** The tail call into the main program; without it the packet passes. */
    method TailCallMain(f: Frame, env: Env) returns (verdict: Verdict)
      requires Pending(1) && env.maps.Sized() && env.now < U64 && ClocksFit(buckets)
      modifies this
      ensures Balanced() && ClocksFit(buckets) && unchanged(`total, `whitelisted)
      ensures lost <= old(lost) + (if env.stashed then 0 else 1)
      ensures env.mainLoaded && Judged(f, env) ==>
                verdict == MainVerdict(f, env, old(buckets)) && buckets == Used(f, env, old(buckets))
      ensures !env.mainLoaded ==> verdict == Pass
      ensures tailCallFailed == old(tailCallFailed) + (if env.mainLoaded then 0 else 1)
      ensures aborted == old(aborted) + (if verdict == Aborted then 1 else 0)
      ensures dropped == old(dropped) + (if verdict == Drop then 1 else 0)
      ensures !env.mainLoaded || !Judged(f, env) ==>
                verdict != Drop && counts == old(counts) && buckets == old(buckets)
      ensures env.mainLoaded && Judged(f, env) ==>
                forall x :: CountOf(counts, x) == CountedTo(CountOf(old(counts), x), f, env, x, verdict)
      ensures rateLimited == old(rateLimited) + One(env.mainLoaded && Judged(f, env) && DroppedByLimit(f, env, verdict))
    {
      if env.mainLoaded {
        verdict := FirewallMain(f, env);
        return;
      }
      tailCallFailed := tailCallFailed + 1;
      passed := passed + 1;
      verdict := Pass;
    }
  }

  /** The fast path of the gate is right: an empty bitmap cannot whitelist anything. */
  lemma NoBitsNoHit(m: Maps, p: Packet)
    requires m.Sized() && m.Word(WL_BITMAP) == 0
    ensures !m.Whitelisted(p)
  {
    hide GateHits;
    GateHitsSomeRow(m.Whitelist(m.WlSide()), 0, p.key, 0);
    if c: nat :| c < Combo.COMBO_MAX && GateRow(m.Whitelist(m.WlSide()), 0, p.key, c) {
      Bits.NoBits(c);
    }
  }

  /** What the gate whitelists, by an entry's own fields: every packet is taken as it is, and one
      without a next header has no protocol that an entry could name. */
  lemma GateSees(e: WlEntry, f: Frame)
    requires PrepareWl(e).Some?
    ensures WildMatches(PrepareWl(e).value, GatePacket(f).key) <==>
            && AddressMeets(e.srcIP, f.packet.key.src) && AddressMeets(e.dstIP, f.packet.key.dst)
            && PortMeets(e.sport, f.packet.key.sport) && PortMeets(e.dport, f.packet.key.dport)
            && if f.noNext then e.protocol in {"", "all"} else ProtocolMeets(e.protocol, f.packet.key.proto)
  {
    hide PrepareWl, WildMatches, AddressMeets, PortMeets;
    WlMeaning(e, GatePacket(f).key);
    PreparedWlIff(e);
  }

  // ---- From stored rules to the verdict ----

  predicate DropRule(st: Stored) { ValueOf(st).action == ACTION_DROP }

  ghost predicate AllExactDrop(rules: map<Id, Stored>, p: Packet, mode: Mode) {
    forall id :: id in rules && ExactMatch(rules[id], p, mode) ==> DropRule(rules[id])
  }

  ghost predicate AllDirectDrop(rules: map<Id, Stored>, p: Packet, mode: Mode) {
    forall id :: id in rules && DirectMatch(rules[id], p, mode) ==> DropRule(rules[id])
  }

  /** The answering rule is a stored one, with the value of that rule. */
  lemma FoundExact(m: Maps, a: Agent, p: Packet, mode: Mode)
    requires m.Sized() && AgentInv(a) && Serves(ViewOf(m), a)
    ensures Found(m, false, p, mode).Some? <==> SomeExactMatch(a.exact.rules, p, mode)
    ensures AllExactDrop(a.exact.rules, p, mode) && Found(m, false, p, mode).Some? ==>
              Found(m, false, p, mode).value.action == ACTION_DROP
  {
    hide ValueOf, ExactMatch, Gated, Counted, Usable, AllKeyed, RefsConserved, WlInv, LookupRule;
    ExactAnswers(m, a, p, mode);
    AnswerIsStored(m, false, p, mode);
    if m.ExactAnswer(p, mode).Some? {
      var k := m.ExactAnswer(p, mode).value;
      assert a.exact.live[k] == ValueOf(a.exact.rules[a.exact.index[k]]);
    }
  }

  lemma FoundCidr(m: Maps, a: Agent, p: Packet, mode: Mode)
    requires m.Sized() && AgentInv(a) && Serves(ViewOf(m), a) && Keeps(a.ids, m.trie) && TrieIds(m.trie)
    ensures Found(m, true, p, mode).Some? ==> SomeDirectMatch(a.cidr.rules, p, mode)
    ensures Disjoint(m.trie.Keys) && SomeDirectMatch(a.cidr.rules, p, mode) ==> Found(m, true, p, mode).Some?
    ensures AllDirectDrop(a.cidr.rules, p, mode) && Found(m, true, p, mode).Some? ==>
              Found(m, true, p, mode).value.action == ACTION_DROP
  {
    hide ValueOf, DirectMatch, Gated, Counted, Usable, AllKeyed, RefsConserved, WlInv, CidrSearch, TrieIds, Keeps,
         Disjoint;
    CidrAnswers(m, a, p, mode);
    AnswerIsStored(m, true, p, mode);
    if m.CidrAnswer(p, mode).Some? {
      var k := m.CidrAnswer(p, mode).value;
      assert a.cidr.live[k] == ValueOf(a.cidr.rules[a.cidr.index[k]]);
    }
  }

  ghost predicate Unmatched(a: Agent, p: Packet, mode: Mode) {
    !SomeExactMatch(a.exact.rules, p, mode) && !SomeDirectMatch(a.cidr.rules, p, mode)
  }

  /** Exact rules match the packet, and all that do are drop rules. */
  ghost predicate ExactDrops(a: Agent, p: Packet, mode: Mode) {
    SomeExactMatch(a.exact.rules, p, mode) && AllExactDrop(a.exact.rules, p, mode)
  }

  /** No exact rule matches; CIDR rules do, and all that do are drop rules. */
  ghost predicate CidrDrops(a: Agent, p: Packet, mode: Mode) {
    && !SomeExactMatch(a.exact.rules, p, mode)
    && SomeDirectMatch(a.cidr.rules, p, mode) && AllDirectDrop(a.cidr.rules, p, mode)
  }

  /** What the main program's verdict means in terms of the stored rules: a packet that matches
      none of them passes; one that matches exact rules, all of which drop, is dropped; else one
      that matches CIDR rules on disjoint prefixes, all of which drop, is dropped; else the same
      for the anomaly rules, exact or CIDR. */
  lemma VerdictForRules(env: Env, f: Frame, buckets: map<Entry, State>, verdict: Verdict, a: Agent)
    requires env.now < U64 && ClocksFit(buckets) && env.maps.Sized()
    requires AgentInv(a) && Serves(ViewOf(env.maps), a) && Keeps(a.ids, env.maps.trie) && TrieIds(env.maps.trie)
    requires verdict == MainVerdict(f, env, buckets)
    ensures Unmatched(a, f.packet, Plain) && Unmatched(a, f.packet, Anomalous(f.anomaly)) ==> verdict == Pass
    ensures ExactDrops(a, f.packet, Plain) ==> verdict == Drop
    ensures Disjoint(env.maps.trie.Keys) && CidrDrops(a, f.packet, Plain) ==> verdict == Drop
    ensures Unmatched(a, f.packet, Plain) && AnomalyReached(env, f) && ExactDrops(a, f.packet, Anomalous(f.anomaly)) ==>
              verdict == Drop
    ensures Disjoint(env.maps.trie.Keys) && Unmatched(a, f.packet, Plain) && AnomalyReached(env, f) ==>
              (CidrDrops(a, f.packet, Anomalous(f.anomaly)) ==> verdict == Drop)
  {
    hide AgentInv, Serves, Found, SomeExactMatch, SomeDirectMatch, AllExactDrop, AllDirectDrop, Disjoint, ViewOf, Keeps,
         TrieIds;
    var anomalous := Anomalous(f.anomaly);
    FoundExact(env.maps, a, f.packet, Plain);
    FoundCidr(env.maps, a, f.packet, Plain);
    FoundExact(env.maps, a, f.packet, anomalous);
    FoundCidr(env.maps, a, f.packet, anomalous);
    if env.maps.Word(ANOMALY_RULE_COUNT) == 0 {
      AnomalyGateHidesNothing(env.maps, a, f.packet, f.anomaly);
    }
  }

  /** The rule drops, or limits to a rate of at least one packet per second. */
  predicate Orders(st: Stored) {
    ValueOf(st).action == 1 || (ValueOf(st).action == 2 && ValueOf(st).rateLimit >= 1)
  }

  lemma OrdersDecide(st: Stored)
    ensures Orders(st) <==> Decides(Some(ValueOf(st)))
  {
    hide ValueOf;
  }

  /** Every rule that comes of an acceptable request does. */
  lemma AcceptedOrders(r: Rule, canonical: bool, refuseMixed: bool, srcID: nat, dstID: nat)
    ensures PrepareExact(r, canonical).Some? ==> Orders(PrepareExact(r, canonical).value.stored)
    ensures PrepareCIDR(r, canonical, refuseMixed).Some? ==>
              Orders(WithIds(PrepareCIDR(r, canonical, refuseMixed).value.stored, srcID, dstID))
  {
    hide RuleShapeOk, PortsAllowed, AnomalyFieldsOk, StoredFlags, ParseProtocol, Htons;
    RebuiltValueIsWrittenValue(r, canonical, refuseMixed, srcID, dstID);
  }

  /** All exact rules that match the packet decide what becomes of it. */
  ghost predicate AllExactDecide(rules: map<Id, Stored>, p: Packet) {
    forall id :: id in rules && ExactMatch(rules[id], p, Plain) ==> Orders(rules[id])
  }

  ghost predicate AllDirectDecide(rules: map<Id, Stored>, p: Packet) {
    forall id :: id in rules && DirectMatch(rules[id], p, Plain) ==> Orders(rules[id])
  }

  ghost predicate IsExact(rules: map<Id, Stored>, p: Packet, k: Key) {
    exists id :: id in rules && ExactMatch(rules[id], p, Plain) && rules[id].key == k
  }

  ghost predicate IsDirect(rules: map<Id, Stored>, p: Packet, k: Key) {
    exists id :: id in rules && DirectMatch(rules[id], p, Plain) && rules[id].key == k
  }

  lemma AnswerIsExact(m: Maps, a: Agent, p: Packet)
    requires m.Sized() && AgentInv(a) && Serves(ViewOf(m), a)
    ensures Found(m, false, p, Plain).Some? <==> SomeExactMatch(a.exact.rules, p, Plain)
    ensures Found(m, false, p, Plain).Some? ==>
              && IsExact(a.exact.rules, p, Answer(m, false, p, Plain).value)
              && (AllExactDecide(a.exact.rules, p) ==> Decides(Found(m, false, p, Plain)))
  {
    hide ValueOf, ExactMatch, Gated, Counted, Usable, AllKeyed, RefsConserved, WlInv, LookupRule, Decides, Orders;
    ExactAnswers(m, a, p, Plain);
    AnswerIsStored(m, false, p, Plain);
    if m.ExactAnswer(p, Plain).Some? {
      var k := m.ExactAnswer(p, Plain).value;
      assert a.exact.live[k] == ValueOf(a.exact.rules[a.exact.index[k]]);
      OrdersDecide(a.exact.rules[a.exact.index[k]]);
    }
  }

  lemma AnswerIsDirect(m: Maps, a: Agent, p: Packet)
    requires m.Sized() && AgentInv(a) && Serves(ViewOf(m), a) && Keeps(a.ids, m.trie) && TrieIds(m.trie)
    ensures Found(m, true, p, Plain).Some? ==> SomeDirectMatch(a.cidr.rules, p, Plain)
    ensures Disjoint(m.trie.Keys) && SomeDirectMatch(a.cidr.rules, p, Plain) ==> Found(m, true, p, Plain).Some?
    ensures Found(m, true, p, Plain).Some? ==>
              && IsDirect(a.cidr.rules, p, Answer(m, true, p, Plain).value)
              && (AllDirectDecide(a.cidr.rules, p) ==> Decides(Found(m, true, p, Plain)))
  {
    hide ValueOf, DirectMatch, Gated, Counted, Usable, AllKeyed, RefsConserved, WlInv, CidrSearch, TrieIds, Keeps,
         Disjoint, Decides, Orders;
    CidrAnswers(m, a, p, Plain);
    AnswerIsStored(m, true, p, Plain);
    if m.CidrAnswer(p, Plain).Some? {
      var k := m.CidrAnswer(p, Plain).value;
      assert a.cidr.live[k] == ValueOf(a.cidr.rules[a.cidr.index[k]]);
      OrdersDecide(a.cidr.rules[a.cidr.index[k]]);
    }
  }

  /** Which rule decides, in terms of the stored rules: a matching exact one whenever there is any,
      even if CIDR rules match too; else a matching CIDR one; and none if no rule matches. */
  lemma DeciderForRules(f: Frame, env: Env, a: Agent)
    requires env.maps.Sized() && AgentInv(a) && Serves(ViewOf(env.maps), a)
    requires Keeps(a.ids, env.maps.trie) && TrieIds(env.maps.trie)
    ensures SomeExactMatch(a.exact.rules, f.packet, Plain) && AllExactDecide(a.exact.rules, f.packet) ==>
              var e := Decider(f, env);
              e.Some? && !e.value.cidr && IsExact(a.exact.rules, f.packet, e.value.key)
    ensures !SomeExactMatch(a.exact.rules, f.packet, Plain) && Disjoint(env.maps.trie.Keys)
            && SomeDirectMatch(a.cidr.rules, f.packet, Plain) && AllDirectDecide(a.cidr.rules, f.packet) ==>
              var e := Decider(f, env);
              e.Some? && e.value.cidr && IsDirect(a.cidr.rules, f.packet, e.value.key)
    ensures Unmatched(a, f.packet, Plain) ==> Decider(f, env).None?
  {
    hide AgentInv, Serves, Found, SomeExactMatch, SomeDirectMatch, AllExactDecide, AllDirectDecide, IsExact, IsDirect,
         Disjoint, ViewOf, Keeps, TrieIds, Answer;
    AnswerIsExact(env.maps, a, f.packet);
    AnswerIsDirect(env.maps, a, f.packet);
  }

  // ---- Drops per rule ----

  /** The drops of all rules together. */
  ghost function DropsOf(counts: map<Entry, RuleCount>): nat {
    if counts == map[] then 0
    else
      var x :| x in counts;
      counts[x].dropped + DropsOf(counts - {x})
  }

  lemma {:induction false} DropsSplit(counts: map<Entry, RuleCount>, x: Entry)
    ensures DropsOf(counts) == CountOf(counts, x).dropped + DropsOf(counts - {x})
    decreases |counts|
  {
    if x !in counts {
      assert counts - {x} == counts;
    } else {
      var y :| y in counts && DropsOf(counts) == counts[y].dropped + DropsOf(counts - {y});
      if y != x {
        DropsSplit(counts - {y}, x);
        DropsSplit(counts - {x}, y);
        assert counts - {y} - {x} == counts - {x} - {y};
      }
    }
  }

  /** Counters that agree for every rule but one differ by what that one differs. */
  lemma {:induction false} DropsDiffer(c: map<Entry, RuleCount>, c': map<Entry, RuleCount>, x: Entry)
    requires forall y :: y != x ==> CountOf(c', y).dropped == CountOf(c, y).dropped
    ensures DropsOf(c') - DropsOf(c) == CountOf(c', x).dropped - CountOf(c, x).dropped
    decreases |c| + |c'|
  {
    DropsSplit(c, x);
    DropsSplit(c', x);
    if y :| y in c && y != x {
      DropsLess(c, c', x, y);
    } else if y :| y in c' && y != x {
      DropsLess(c, c', x, y);
    } else {
      assert c - {x} == map[] == c' - {x};
    }
  }

  lemma {:induction false} DropsLess(c: map<Entry, RuleCount>, c': map<Entry, RuleCount>, x: Entry, y: Entry)
    requires (y in c || y in c') && y != x
    requires forall z :: z != x ==> CountOf(c', z).dropped == CountOf(c, z).dropped
    ensures DropsOf(c') - DropsOf(c) == CountOf(c', x).dropped - CountOf(c, x).dropped
    decreases |c| + |c'|, 0
  {
    hide DropsOf, CountOf;
    Shorter(c, y);
    Shorter(c', y);
    DropsSplit(c, y);
    DropsSplit(c', y);
    StillAgree(c, c', x, y);
    DropsDiffer(c - {y}, c' - {y}, x);
  }

  lemma StillAgree(c: map<Entry, RuleCount>, c': map<Entry, RuleCount>, x: Entry, y: Entry)
    requires y != x && forall z :: z != x ==> CountOf(c', z).dropped == CountOf(c, z).dropped
    ensures forall z :: z != x ==> CountOf(c' - {y}, z).dropped == CountOf(c - {y}, z).dropped
    ensures CountOf(c - {y}, x) == CountOf(c, x) && CountOf(c' - {y}, x) == CountOf(c', x)
    ensures CountOf(c', y).dropped == CountOf(c, y).dropped
  {
    forall z | z != x
      ensures CountOf(c' - {y}, z).dropped == CountOf(c - {y}, z).dropped
    {
      assert CountOf(c', z).dropped == CountOf(c, z).dropped;
    }
  }

  lemma Shorter(c: map<Entry, RuleCount>, y: Entry)
    ensures y in c ==> |c - {y}| < |c|
    ensures y !in c ==> c - {y} == c
  {
    if y in c {
      assert (c - {y}).Keys == c.Keys - {y};
      assert |(c - {y}).Keys| == |c.Keys| - 1;
    }
  }

  /** A packet adds a drop to exactly one rule if it is dropped, and else to none. */
  lemma OneDrop(f: Frame, env: Env, buckets: map<Entry, State>, c: map<Entry, RuleCount>, c': map<Entry, RuleCount>,
                verdict: Verdict)
    requires env.maps.Sized() && env.now < U64 && ClocksFit(buckets) && verdict == MainVerdict(f, env, buckets)
    requires forall x :: CountOf(c', x) == CountedTo(CountOf(c, x), f, env, x, verdict)
    ensures DropsOf(c') == DropsOf(c) + One(verdict == Drop)
  {
    hide Found, Answer, Decides, CountOf, Decision, PlainHits, AnomalyHits;
    var x := if Decider(f, env).Some? then Decider(f, env).value
             else if AnomalyDecider(f, env).Some? then AnomalyDecider(f, env).value
             else Entry(false, Key(0, 0, 0, 0, 0));
    DropsDiffer(c, c', x);
  }

  /** Over any packets, under any maps and whatever tail calls fail, the counters add up, those of
      the rules to that of all drops. Only a missing stash, which a per-CPU array entry never is,
      would lose a packet. */
  method Traffic(x: XdpPrograms, frames: seq<(Frame, Env)>)
    requires x.Balanced() && ClocksFit(x.buckets)
    requires forall fe :: fe in frames ==> fe.1.maps.Sized() && fe.1.now < U64
    modifies x
    ensures x.Balanced() && x.total == old(x.total) + |frames|
    ensures DropsOf(x.counts) - x.dropped == old(DropsOf(x.counts) - x.dropped)
    ensures (forall fe :: fe in frames ==> fe.1.stashed) ==> x.lost <= old(x.lost)
  {
    for i := 0 to |frames|
      invariant x.Balanced() && ClocksFit(x.buckets) && x.total == old(x.total) + i
      invariant DropsOf(x.counts) - x.dropped == old(DropsOf(x.counts) - x.dropped)
      invariant (forall fe :: fe in frames ==> fe.1.stashed) ==> x.lost <= old(x.lost)
    {
      var (f, env) := frames[i];
      assert frames[i] in frames;
      ghost var buckets, counts := x.buckets, x.counts;
      var verdict := x.WhitelistGate(f, env);
      if Judged(f, env) && !GatePasses(f, env) && env.mainLoaded {
        OneDrop(f, env, buckets, counts, x.counts, verdict);
      }
    }
  }
}
