/** CIDR prefixes as bit strings, containment, and the overlap checks of node and controller. */
module Prefixes {
  import opened Rules

  function Width(v6: bool): nat {
    if v6 then 128 else 32
  }

  type Address = a: RawAddress | |a.bits| == Width(a.v6) witness RawAddress(false, seq(32, _ => false))
  datatype RawAddress = RawAddress(v6: bool, bits: seq<bool>)

  /** A network in canonical form: its prefix bits. Host bits are not part of it, and
      IPv4-mapped IPv6 networks are excluded. */
  type Prefix = p: RawPrefix | |p.bits| <= Width(p.v6) witness Net(false, [])
  datatype RawPrefix = Net(v6: bool, bits: seq<bool>)

  /** net.IPNet.Contains */
  predicate Contains(p: Prefix, a: Address) {
    p.v6 == a.v6 && p.bits <= a.bits
  }

  /** The network address: the prefix bits, then zeros. */
  function NetworkIP(p: Prefix): Address {
    RawAddress(p.v6, p.bits + seq(Width(p.v6) - |p.bits|, _ => false))
  }

  ghost predicate ShareAddress(p: Prefix, q: Prefix) {
    exists a: Address :: Contains(p, a) && Contains(q, a)
  }

  /** Two networks share an address exactly when one contains the other. */
  lemma ShareIffNested(p: Prefix, q: Prefix)
    ensures ShareAddress(p, q) <==> p.v6 == q.v6 && (p.bits <= q.bits || q.bits <= p.bits)
  {
    if p.v6 == q.v6 && p.bits <= q.bits {
      assert Contains(p, NetworkIP(q)) && Contains(q, NetworkIP(q));
    } else if p.v6 == q.v6 && q.bits <= p.bits {
      assert Contains(p, NetworkIP(p)) && Contains(q, NetworkIP(p));
    }
    if a: Address :| Contains(p, a) && Contains(q, a) {
      if |p.bits| <= |q.bits| {
        assert q.bits[..|p.bits|] == a.bits[..|p.bits|] == p.bits;
      } else {
        assert p.bits[..|q.bits|] == a.bits[..|q.bits|] == q.bits;
      }
    }
  }

  /** Containing each other's network address is sharing an address. */
  lemma ContainsNetworkIff(p: Prefix, q: Prefix)
    ensures Contains(p, NetworkIP(q)) || Contains(q, NetworkIP(p)) <==> ShareAddress(p, q)
    ensures (|q.bits| >= |p.bits| && Contains(p, NetworkIP(q))) || (|p.bits| >= |q.bits| && Contains(q, NetworkIP(p)))
            <==> ShareAddress(p, q)
  {
    ShareIffNested(p, q);
    assert Contains(q, NetworkIP(q)) && Contains(p, NetworkIP(p));
    if p.v6 == q.v6 && p.bits <= q.bits {
      assert p.bits <= NetworkIP(q).bits;
    }
    if p.v6 == q.v6 && q.bits <= p.bits {
      assert q.bits <= NetworkIP(p).bits;
    }
  }

  /** Pairwise equal or disjoint. */
  ghost predicate Separate(s: set<Prefix>) {
    forall p, q :: p in s && q in s && p != q ==> !ShareAddress(p, q)
  }

  /** Some different prefix among the existing ones shares an address with the new one. */
  ghost predicate Overlaps(new_: Prefix, existing: seq<Prefix>) {
    exists e :: e in existing && e != new_ && ShareAddress(new_, e)
  }

  /** The node's overlap check, cidr.CheckOverlap. */
  method CheckOverlap(newCIDR: Prefix, existing: seq<Prefix>) returns (conflict: Option<Prefix>)
    ensures conflict.Some? <==> Overlaps(newCIDR, existing)
    ensures conflict.Some? ==> conflict.value in existing && conflict.value != newCIDR
                               && ShareAddress(newCIDR, conflict.value)
  {
    for i := 0 to |existing|
      invariant !Overlaps(newCIDR, existing[..i])
    {
      var e := existing[i];
      ContainsNetworkIff(e, newCIDR);
      if newCIDR != e && (Contains(e, NetworkIP(newCIDR)) || Contains(newCIDR, NetworkIP(e))) {
        ShareSymmetric(e, newCIDR);
        return Some(e);
      }
      if Overlaps(newCIDR, existing[..i + 1]) {
        ShareSymmetric(e, newCIDR);
      }
    }
    assert existing[..|existing|] == existing;
    return None;
  }

  lemma ShareSymmetric(p: Prefix, q: Prefix)
    ensures ShareAddress(p, q) <==> ShareAddress(q, p)
  {
    ShareIffNested(p, q);
    ShareIffNested(q, p);
  }

  /** The controller's overlap check, findCIDROverlap, which compares prefix lengths first. */
  method FindCIDROverlap(newCIDR: Prefix, existing: seq<Prefix>) returns (conflict: Option<Prefix>)
    ensures conflict.Some? <==> Overlaps(newCIDR, existing)
    ensures conflict.Some? ==> conflict.value in existing && conflict.value != newCIDR
                               && ShareAddress(newCIDR, conflict.value)
  {
    for i := 0 to |existing|
      invariant !Overlaps(newCIDR, existing[..i])
    {
      var e := existing[i];
      if e != newCIDR {
        ContainsNetworkIff(e, newCIDR);
        ShareSymmetric(e, newCIDR);
        if |newCIDR.bits| >= |e.bits| && Contains(e, NetworkIP(newCIDR)) {
          return Some(e);
        }
        if |e.bits| >= |newCIDR.bits| && Contains(newCIDR, NetworkIP(e)) {
          return Some(e);
        }
      }
    }
    assert existing[..|existing|] == existing;
    return None;
  }
}
