/** The data plane's gated 33-probe lookup and what it refines: "some stored rule matches". */
module Lookup {
  import opened Rules
  import opened Bits
  import opened Combo

  /** Ordinary rules and anomaly rules are looked up by two copies of the same code that
      differ in the last post-match test only. */
  datatype Mode = Plain | Anomalous(bits: bv8)

  /** What the post-match tests read besides the rule: L3 length, TCP flags and the mode. */
  datatype Meta = Meta(len: nat, flags: set<Flag>, mode: Mode)

  predicate PktLenMatches(v: RuleValue, len: nat) {
    && !(v.lenMin > 0 && len < v.lenMin)
    && !(v.lenMax > 0 && len > v.lenMax)
  }

  predicate TcpFlagsMatches(v: RuleValue, proto: nat, flags: set<Flag>) {
    v.flagsMask == {} || proto != PROTO_TCP || flags * v.flagsMask == v.flagsValue
  }

  predicate AnomalyMatches(v: RuleValue, mode: Mode) {
    match mode
    case Plain => v.anomaly == 0
    case Anomalous(bits) => v.anomaly != 0 && (bits & v.anomaly) != 0
  }

  predicate PostMatch(v: RuleValue, proto: nat, meta: Meta) {
    PktLenMatches(v, meta.len) && TcpFlagsMatches(v, proto, meta.flags) && AnomalyMatches(v, meta.mode)
  }

  /** The scratch key of one probe: the chosen packet fields, zero elsewhere. */
  function Masked(p: Key, s: Shape): Key {
    Key(if s.src then p.src else 0, if s.dst then p.dst else 0,
        if s.sport then p.sport else 0, if s.dport then p.dport else 0,
        if s.proto then p.proto else 0)
  }

  predicate RowHits(live: map<Key, RuleValue>, bitmap: nat, p: Key, meta: Meta, b: nat) {
    && Bit(bitmap, b)
    && ProbeShape(b).Some?
    && var k := Masked(p, ProbeShape(b).value);
       k in live && PostMatch(live[k], p.proto, meta)
  }

  /** The probes from bit b on, in order; the matched key of the first one that hits. */
  function Search(live: map<Key, RuleValue>, bitmap: nat, p: Key, meta: Meta, b: nat): (r: Option<Key>)
    requires b <= COMBO_MAX
    decreases COMBO_MAX - b
  {
    if b == COMBO_MAX then None
    else if RowHits(live, bitmap, p, meta, b) then Some(Masked(p, ProbeShape(b).value))
    else Search(live, bitmap, p, meta, b + 1)
  }

  /** lookup_rule, lookup_cidr_rule and their anomaly variants: the count gate, then the probes. */
  function LookupRule(live: map<Key, RuleValue>, count: nat, bitmap: nat, p: Key, meta: Meta): (r: Option<Key>) {
    if count == 0 then None else Search(live, bitmap, p, meta, 0)
  }

  /** Direct wildcard match of a key against a packet: every field is 0 or the packet's. */
  predicate WildMatches(k: Key, p: Key) {
    && (k.src == 0 || k.src == p.src)
    && (k.dst == 0 || k.dst == p.dst)
    && (k.sport == 0 || k.sport == p.sport)
    && (k.dport == 0 || k.dport == p.dport)
    && (k.proto == 0 || k.proto == p.proto)
  }

  predicate Matches(live: map<Key, RuleValue>, p: Key, meta: Meta, k: Key) {
    k in live && WildMatches(k, p) && PostMatch(live[k], p.proto, meta)
  }

  /** The published gate admits every stored key: its combo is usable and its bit is set,
      and the count is not zero while something is stored. */
  ghost predicate GateCovers(count: nat, bitmap: nat, keys: set<Key>) {
    && (keys != {} ==> count != 0)
    && forall k :: k in keys ==> ValidCombo(ComboType(k)) && Bit(bitmap, ComboType(k))
  }

  lemma {:induction false} SearchFirstHit(live: map<Key, RuleValue>, bitmap: nat, p: Key, meta: Meta, b: nat)
    requires b <= COMBO_MAX
    ensures Search(live, bitmap, p, meta, b) == None <==>
            forall c: nat :: b <= c < COMBO_MAX ==> !RowHits(live, bitmap, p, meta, c)
    ensures Search(live, bitmap, p, meta, b).Some? ==>
              exists c: nat :: b <= c < COMBO_MAX && RowHits(live, bitmap, p, meta, c)
                               && Search(live, bitmap, p, meta, b) == Some(Masked(p, ProbeShape(c).value))
                               && forall d: nat :: b <= d < c ==> !RowHits(live, bitmap, p, meta, d)
    decreases COMBO_MAX - b
  {
    if b < COMBO_MAX && !RowHits(live, bitmap, p, meta, b) {
      SearchFirstHit(live, bitmap, p, meta, b + 1);
      if Search(live, bitmap, p, meta, b).Some? {
        var c: nat :| b + 1 <= c < COMBO_MAX && RowHits(live, bitmap, p, meta, c)
                      && Search(live, bitmap, p, meta, b + 1) == Some(Masked(p, ProbeShape(c).value))
                      && forall d: nat :: b + 1 <= d < c ==> !RowHits(live, bitmap, p, meta, d);
        assert forall d: nat :: b <= d < c ==> !RowHits(live, bitmap, p, meta, d);
      }
    }
  }

  /** A matching key is found at the row of its own combo. */
  lemma OwnRowHits(live: map<Key, RuleValue>, bitmap: nat, p: Key, meta: Meta, k: Key)
    requires Matches(live, p, meta, k)
    requires ValidCombo(ComboType(k)) && Bit(bitmap, ComboType(k))
    ensures 0 <= ComboType(k) < COMBO_MAX
    ensures RowHits(live, bitmap, p, meta, ComboType(k))
    ensures Masked(p, ProbeShape(ComboType(k)).value) == k
  {
    ComboAgreesWithProbes(ShapeOf(k));
  }

  /** Without the gate the converse can fail, but a rule that is returned always matches. */
  lemma LookupIsSound(live: map<Key, RuleValue>, count: nat, bitmap: nat, p: Key, meta: Meta)
    ensures LookupRule(live, count, bitmap, p, meta).Some? ==>
              Matches(live, p, meta, LookupRule(live, count, bitmap, p, meta).value)
  {
    SearchFirstHit(live, bitmap, p, meta, 0);
  }

  /** The gated lookup refines the plain question: it finds a rule exactly when some stored
      rule matches the packet, and what it finds is such a rule. The answer to "is there one"
      therefore does not depend on which covering gate is published. */
  lemma LookupRefinesMatch(live: map<Key, RuleValue>, count: nat, bitmap: nat, p: Key, meta: Meta)
    requires GateCovers(count, bitmap, live.Keys)
    ensures LookupRule(live, count, bitmap, p, meta).Some? <==> exists k :: Matches(live, p, meta, k)
    ensures LookupRule(live, count, bitmap, p, meta).Some? ==>
              Matches(live, p, meta, LookupRule(live, count, bitmap, p, meta).value)
  {
    LookupIsSound(live, count, bitmap, p, meta);
    if LookupRule(live, count, bitmap, p, meta).None? && exists k :: Matches(live, p, meta, k) {
      var k :| Matches(live, p, meta, k);
      assert k in live.Keys;
      OwnRowHits(live, bitmap, p, meta, k);
      SearchFirstHit(live, bitmap, p, meta, 0);
    }
  }

  // ---- Which of several matching rules wins ----

  /** The stored rule of least combo number among those that match. */
  ghost predicate IsBest(live: map<Key, RuleValue>, p: Key, meta: Meta, k: Key) {
    && Matches(live, p, meta, k)
    && forall j :: Matches(live, p, meta, j) ==> ComboType(k) <= ComboType(j)
  }

  function Meet(s: Shape, t: Shape): Shape {
    Shape(s.src && t.src, s.dst && t.dst, s.sport && t.sport, s.dport && t.dport, s.proto && t.proto)
  }

  predicate Within(s: Shape, t: Shape) { Meet(s, t) == s }

  /** Rows a < b < c such that, for a packet whose non-zero fields are n, row a probes the
      key that belongs to row c, while row b probes a different key that belongs to row b. */
  predicate Clashes(n: Shape, a: nat, b: nat, c: nat) {
    && a < b < c < COMBO_MAX
    && ProbeShape(a).Some? && ProbeShape(b).Some? && ProbeShape(c).Some?
    && ComboOf(ProbeShape(b).value) == b && ComboOf(ProbeShape(c).value) == c
    && Within(ProbeShape(b).value, n)
    && Meet(ProbeShape(a).value, n) == ProbeShape(c).value
  }

  /** The packets for which the winner never depends on the published bits: every field is
      set, at most one is, or exactly dst and protocol (and perhaps dst port) are. */
  predicate Settled(n: Shape) {
    || n == Shape(true, true, true, true, true)
    || n == Shape(false, true, false, false, true)
    || n == Shape(false, true, false, true, true)
    || n == Shape(false, false, false, false, false)
    || n == Shape(true, false, false, false, false)
    || n == Shape(false, true, false, false, false)
    || n == Shape(false, false, true, false, false)
    || n == Shape(false, false, false, true, false)
    || n == Shape(false, false, false, false, true)
  }

  /** A clash for every set of non-zero fields that is not settled. */
  function ClashOf(n: Shape): (nat, nat, nat) {
    match n
    case Shape(false, false, false, true, true) => (0, 5, 16)
    case Shape(false, false, true, false, true) => (0, 5, 15)
    case Shape(false, false, true, true, false) => (2, 6, 7)
    case Shape(false, false, true, true, true) => (2, 5, 16)
    case Shape(false, true, false, true, false) => (0, 4, 12)
    case Shape(false, true, true, false, false) => (0, 4, 25)
    case Shape(false, true, true, false, true) => (0, 3, 26)
    case Shape(false, true, true, true, false) => (2, 4, 12)
    case Shape(false, true, true, true, true) => (14, 15, 16)
    case Shape(true, false, false, false, true) => (0, 5, 9)
    case Shape(true, false, false, true, false) => (0, 7, 11)
    case Shape(true, false, false, true, true) => (0, 5, 14)
    case Shape(true, false, true, false, false) => (0, 6, 17)
    case Shape(true, false, true, false, true) => (1, 5, 15)
    case Shape(true, false, true, true, false) => (2, 6, 7)
    case Shape(true, false, true, true, true) => (2, 5, 16)
    case Shape(true, true, false, false, false) => (0, 4, 10)
    case Shape(true, true, false, false, true) => (0, 3, 13)
    case Shape(true, true, false, true, false) => (1, 4, 12)
    case Shape(true, true, false, true, true) => (0, 2, 22)
    case Shape(true, true, true, false, false) => (1, 4, 25)
    case Shape(true, true, true, false, true) => (1, 3, 26)
    case Shape(true, true, true, true, false) => (2, 4, 12)
    case _ => (0, 0, 0)
  }

  lemma UnsettledClashes(n: Shape)
    requires !Settled(n)
    ensures var (a, b, c) := ClashOf(n); Clashes(n, a, b, c)
  {
  }

  lemma SettledHasNoClash(n: Shape, a: nat, b: nat, c: nat)
    requires Settled(n)
    ensures !Clashes(n, a, b, c)
  {
  }

  /** A key found at a row before the row of a matching key of smaller combo: a clash. */
  lemma EarlyHitClashes(p: Key, a: nat, j: Key, k: Key)
    requires ProbeShape(a).Some? && k == Masked(p, ProbeShape(a).value)
    requires WildMatches(j, p) && ValidCombo(ComboType(j)) && ValidCombo(ComboType(k))
    requires a < ComboType(j) < ComboType(k)
    ensures Clashes(ShapeOf(p), a, ComboType(j), ComboType(k))
  {
    ComboAgreesWithProbes(ShapeOf(j));
    ComboAgreesWithProbes(ShapeOf(k));
    assert Within(ShapeOf(j), ShapeOf(p));
    assert Meet(ProbeShape(a).value, ShapeOf(p)) == ShapeOf(k);
  }

  /** For a settled packet the rule returned is the first in combo order, whatever the gate. */
  lemma SettledWinner(live: map<Key, RuleValue>, count: nat, bitmap: nat, p: Key, meta: Meta)
    requires GateCovers(count, bitmap, live.Keys)
    requires Settled(ShapeOf(p))
    ensures LookupRule(live, count, bitmap, p, meta).Some? ==>
              IsBest(live, p, meta, LookupRule(live, count, bitmap, p, meta).value)
  {
    hide ProbeShape, ComboOf, PostMatch;
    LookupIsSound(live, count, bitmap, p, meta);
    if LookupRule(live, count, bitmap, p, meta).Some? {
      var k := LookupRule(live, count, bitmap, p, meta).value;
      forall j | Matches(live, p, meta, j)
        ensures ComboType(k) <= ComboType(j)
      {
        assert j in live.Keys && k in live.Keys;
        OwnRowHits(live, bitmap, p, meta, j);
        SearchFirstHit(live, bitmap, p, meta, 0);
        var a: nat :| a < COMBO_MAX && RowHits(live, bitmap, p, meta, a) && k == Masked(p, ProbeShape(a).value)
                      && forall d: nat :: 0 <= d < a ==> !RowHits(live, bitmap, p, meta, d);
        if ComboType(j) < ComboType(k) && a != ComboType(j) {
          EarlyHitClashes(p, a, j, k);
          SettledHasNoClash(ShapeOf(p), a, ComboType(j), ComboType(k));
        }
      }
    }
  }

  /** At most one stored rule is best, so the winner of a settled packet is determined. */
  lemma BestIsUnique(live: map<Key, RuleValue>, p: Key, meta: Meta, j: Key, k: Key)
    requires IsBest(live, p, meta, j) && IsBest(live, p, meta, k)
    requires ValidCombo(ComboType(j)) && ValidCombo(ComboType(k))
    ensures j == k
  {
    ComboAgreesWithProbes(ShapeOf(j));
    ComboAgreesWithProbes(ShapeOf(k));
  }

  ghost predicate WinnerIndependentOfGate(p: Key, meta: Meta) {
    forall live: map<Key, RuleValue>, n0: nat, g0: nat, n1: nat, g1: nat ::
      GateCovers(n0, g0, live.Keys) && GateCovers(n1, g1, live.Keys) ==>
        LookupRule(live, n0, g0, p, meta) == LookupRule(live, n1, g1, p, meta)
  }

  function BitsAt(s: set<nat>): (counts: seq<int>)
    ensures |counts| == COMBO_MAX
    ensures forall i: nat :: i < COMBO_MAX ==> (counts[i] > 0 <==> i in s)
  {
    seq(COMBO_MAX, i requires 0 <= i < COMBO_MAX => if i in s then 1 else 0)
  }

  lemma FirstBitFirstHit(live: map<Key, RuleValue>, bitmap: nat, p: Key, meta: Meta, a: nat)
    requires a < COMBO_MAX && RowHits(live, bitmap, p, meta, a)
    requires forall d: nat :: d < a ==> !Bit(bitmap, d)
    ensures LookupRule(live, 1, bitmap, p, meta) == Some(Masked(p, ProbeShape(a).value))
  {
    SearchFirstHit(live, bitmap, p, meta, 0);
  }

  lemma ClashKeys(p: Key, a: nat, b: nat, c: nat)
    requires Clashes(ShapeOf(p), a, b, c)
    ensures ComboType(Masked(p, ProbeShape(b).value)) == b
    ensures ComboType(Masked(p, ProbeShape(c).value)) == c
    ensures Masked(p, ProbeShape(a).value) == Masked(p, ProbeShape(c).value)
  {
    assert ShapeOf(Masked(p, ProbeShape(b).value)) == ProbeShape(b).value;
    assert ShapeOf(Masked(p, ProbeShape(c).value)) == ProbeShape(c).value;
  }

  lemma GateOf(s: set<nat>) returns (g: nat)
    ensures forall i: nat :: i < COMBO_MAX ==> (Bit(g, i) <==> i in s)
  {
    BitmapBits(BitsAt(s), COMBO_MAX);
    g := BitmapOf(BitsAt(s), COMBO_MAX);
  }

  /** A rule of this mode can match at all. */
  predicate Alive(mode: Mode) { mode.Anomalous? ==> mode.bits != 0 }

  /** The anomaly bits with which a rule matches whatever the mode looks for. */
  function BitsFor(mode: Mode): bv8 {
    match mode
    case Plain => 0
    case Anomalous(bits) => bits
  }

  /** A rule that drops every packet its key matches. */
  function DropAll(mode: Mode): RuleValue {
    RuleValue(ACTION_DROP, {}, {}, BitsFor(mode), 0, 0, 0)
  }

  lemma DropAllMatches(proto: nat, meta: Meta)
    requires Alive(meta.mode)
    ensures PostMatch(DropAll(meta.mode), proto, meta)
  {
    if meta.mode.Anomalous? {
      assert meta.mode.bits & meta.mode.bits == meta.mode.bits;
    }
  }

  /** Looking for no anomaly at all finds nothing. */
  lemma DeadModeFindsNothing(live: map<Key, RuleValue>, count: nat, bitmap: nat, p: Key, meta: Meta)
    requires !Alive(meta.mode)
    ensures LookupRule(live, count, bitmap, p, meta) == None
  {
    hide LookupRule, ProbeShape, WildMatches;
    LookupIsSound(live, count, bitmap, p, meta);
  }

  /** Two rules, and two gates that both cover them, for which the winners differ. */
  lemma ClashSplitsWinner(p: Key, meta: Meta, a: nat, b: nat, c: nat)
    requires Clashes(ShapeOf(p), a, b, c) && Alive(meta.mode)
    ensures !WinnerIndependentOfGate(p, meta)
  {
    hide ProbeShape, ComboOf, PostMatch, Masked, DropAll;
    ClashKeys(p, a, b, c);
    DropAllMatches(p.proto, meta);
    var x, y := Masked(p, ProbeShape(c).value), Masked(p, ProbeShape(b).value);
    var live := map[x := DropAll(meta.mode), y := DropAll(meta.mode)];
    var g0 := GateOf({b, c});
    var g1 := GateOf({a, b, c});
    assert GateCovers(1, g0, live.Keys) && GateCovers(1, g1, live.Keys);
    assert LookupRule(live, 1, g0, p, meta) == Some(y) by {
      FirstBitFirstHit(live, g0, p, meta, b);
    }
    assert LookupRule(live, 1, g1, p, meta) == Some(x) by {
      FirstBitFirstHit(live, g1, p, meta, a);
    }
  }

  /** Exactly the settled packets get the same winner from every covering gate. A packet with
      all five fields set is settled; an ICMP packet between two hosts is not. */
  lemma WinnerIndependentIffSettled(p: Key, meta: Meta)
    ensures WinnerIndependentOfGate(p, meta) <==> Settled(ShapeOf(p)) || !Alive(meta.mode)
  {
    hide Settled, Clashes, Alive;
    if !Alive(meta.mode) {
      forall live: map<Key, RuleValue>, n0: nat, g0: nat, n1: nat, g1: nat
        | GateCovers(n0, g0, live.Keys) && GateCovers(n1, g1, live.Keys)
        ensures LookupRule(live, n0, g0, p, meta) == LookupRule(live, n1, g1, p, meta)
      {
        DeadModeFindsNothing(live, n0, g0, p, meta);
        DeadModeFindsNothing(live, n1, g1, p, meta);
      }
    } else if Settled(ShapeOf(p)) {
      forall live: map<Key, RuleValue>, n0: nat, g0: nat, n1: nat, g1: nat
        | GateCovers(n0, g0, live.Keys) && GateCovers(n1, g1, live.Keys)
        ensures LookupRule(live, n0, g0, p, meta) == LookupRule(live, n1, g1, p, meta)
      {
        LookupRefinesMatch(live, n0, g0, p, meta);
        LookupRefinesMatch(live, n1, g1, p, meta);
        SettledWinner(live, n0, g0, p, meta);
        SettledWinner(live, n1, g1, p, meta);
        var r0, r1 := LookupRule(live, n0, g0, p, meta), LookupRule(live, n1, g1, p, meta);
        if r0.Some? && r1.Some? {
          assert r0.value in live.Keys && r1.value in live.Keys;
          BestIsUnique(live, p, meta, r0.value, r1.value);
        }
      }
    } else {
      UnsettledClashes(ShapeOf(p));
      var (a, b, c) := ClashOf(ShapeOf(p));
      ClashSplitsWinner(p, meta, a, b, c);
    }
  }
}
