/** Merging requests into a stored anomaly rule, over sequences of them: the order does not matter. */
module Merging {
  import opened Rules
  import opened Prefixes
  import opened RuleService

  /** The bits of a tuple after a rule has been created and others merged into it. */
  function MergedBits(bits: seq<int>): int {
    if bits == [] then 0 else OrBits(MergedBits(bits[..|bits| - 1]), bits[|bits| - 1])
  }

  lemma {:induction false} MergedInRange(bits: seq<int>)
    requires forall b :: b in bits ==> 0 <= b <= 3
    ensures 0 <= MergedBits(bits) <= 3
    ensures HasBadFragment(MergedBits(bits)) <==> exists b :: b in bits && HasBadFragment(b)
    ensures HasInvalid(MergedBits(bits)) <==> exists b :: b in bits && HasInvalid(b)
  {
    if bits != [] {
      var init, last := bits[..|bits| - 1], bits[|bits| - 1];
      assert bits == init + [last];
      assert last in bits && forall b :: b in init ==> b in bits;
      MergedInRange(init);
      OrBitsLaws(MergedBits(init), last, 0);
    }
  }

  /** Only which bits were asked for counts, not their order nor how often. */
  lemma BitsOrderIrrelevant(bits: seq<int>, other: seq<int>)
    requires forall b :: b in bits ==> 0 <= b <= 3
    requires forall b :: b in bits <==> b in other
    ensures MergedBits(bits) == MergedBits(other)
  {
    MergedInRange(bits);
    MergedInRange(other);
  }

  /** A request with the fresh id it would get. */
  datatype Posted = Posted(id: Id, req: RuleRequest)

  /** The request is acceptable and merges into this rule. */
  predicate PostMerges(r: ControllerRule, p: Posted) {
    NewRule(p.req).Some? && MergesInto(r, NewRule(p.req).value)
  }

  ghost predicate AllMerge(r: ControllerRule, posts: seq<Posted>) {
    forall i :: 0 <= i < |posts| ==> PostMerges(r, posts[i])
  }

  ghost function BitsOf(posts: seq<Posted>): (bits: seq<int>)
    requires forall i :: 0 <= i < |posts| ==> NewRule(posts[i].req).Some?
    ensures |bits| == |posts| && forall i :: 0 <= i < |posts| ==> bits[i] == NewRule(posts[i].req).value.anomaly
  {
    if posts == [] then [] else BitsOf(posts[..|posts| - 1]) + [NewRule(posts[|posts| - 1].req).value.anomaly]
  }

  /** The rule with the bits of the requests besides its own. */
  ghost function WithBits(r: ControllerRule, posts: seq<Posted>): ControllerRule
    requires AllMerge(r, posts)
  {
    r.(anomaly := MergedBits([r.anomaly] + BitsOf(posts)))
  }

  lemma GoodBits(r: ControllerRule)
    requires Good(r)
    ensures 0 <= r.anomaly <= 3
  {
  }

  lemma RequestedBits(posts: seq<Posted>)
    requires forall i :: 0 <= i < |posts| ==> NewRule(posts[i].req).Some?
    ensures forall b :: b in BitsOf(posts) ==> 0 <= b <= 3
  {
    hide Good, NewRule, BitsOf;
    forall i | 0 <= i < |posts|
      ensures 0 <= BitsOf(posts)[i] <= 3
    {
      NewRuleIsGood(posts[i].req);
      GoodBits(NewRule(posts[i].req).value);
    }
  }

  lemma NothingMerged(r: ControllerRule)
    requires Good(r)
    ensures WithBits(r, []) == r
  {
    GoodBits(r);
    assert [r.anomaly] + [] == [r.anomaly] && [r.anomaly][..0] == [];
    assert MergedBits([r.anomaly]) == OrBits(0, r.anomaly) == r.anomaly;
  }

  /** One more merge: the bits are or-ed, and what could be merged before still can. */
  lemma MergedOneMore(r: ControllerRule, posts: seq<Posted>, p: Posted)
    requires Good(r) && r.anomaly != 0 && AllMerge(r, posts + [p])
    ensures AllMerge(r, posts) && PostMerges(WithBits(r, posts), p)
    ensures NewRule(p.req).Some? && WithBits(r, posts + [p]) == Merge(WithBits(r, posts), NewRule(p.req).value)
  {
    hide NewRule, Good, OrBits;
    assert (posts + [p])[..|posts|] == posts && (posts + [p])[|posts|] == p;
    assert forall i :: 0 <= i < |posts| ==> (posts + [p])[i] == posts[i];
    var bits, b := [r.anomaly] + BitsOf(posts), NewRule(p.req).value.anomaly;
    assert [r.anomaly] + BitsOf(posts + [p]) == bits + [b];
    assert (bits + [b])[..|bits|] == bits;
    GoodBits(r);
    RequestedBits(posts);
    StaysMarked(bits);
  }

  lemma StaysMarked(bits: seq<int>)
    requires bits != [] && bits[0] != 0 && forall b :: b in bits ==> 0 <= b <= 3
    ensures MergedBits(bits) != 0
  {
    MergedInRange(bits);
    assert bits[0] in bits;
  }

  /** A request that merges into a stored rule is one that can be created. */
  lemma MergeIsCreatable(repo: Repo, x: Id, p: Posted)
    requires RepoInv(repo) && x in repo && PostMerges(repo[x], p)
    ensures NewRule(p.req).Some? && Creatable(repo, p.id, NewRule(p.req).value, p.req.expiryOk)
  {
    hide Good, NewRule, ShareAddress;
    var r := NewRule(p.req).value;
    assert TupleOf(repo[x]) == TupleOf(r);
    assert Nets(r.srcCIDR) <= SrcNets(repo) && Nets(r.dstCIDR) <= DstNets(repo);
  }

  /** One such request: it is merged, or refused because a write failed. */
  method CreateOne(s: RuleService, x: Id, p: Posted) returns (merged: bool)
    requires s.Valid() && x in s.repo && PostMerges(s.repo[x], p)
    modifies s
    ensures s.Valid() && (s.reliable ==> merged)
    ensures s.repo == if merged then old(s.repo)[x := Merge(old(s.repo)[x], NewRule(p.req).value)] else old(s.repo)
  {
    hide Good, NewRule, OrBits, Separate, TupleOf, Creatable, Mergeable, RepoInv;
    MergeIsCreatable(s.repo, x, p);
    OnlyOwner(s.repo, x);
    var outcome := s.Create(p.id, p.req);
    merged := outcome != Refused;
  }

  lemma OnlyOwner(repo: Repo, x: Id)
    requires RepoInv(repo) && x in repo
    ensures forall y :: y in repo && TupleOf(repo[y]) == TupleOf(repo[x]) ==> y == x
  {
    hide Good, Separate, TupleOf;
  }

  /** Requests for an anomaly rule that is stored, posted one after another: unless one is refused,
      which needs a failing write, the rule has got the bits of all, and nothing else changed. */
  method CreateAll(s: RuleService, x: Id, posts: seq<Posted>) returns (done: nat)
    requires s.Valid() && x in s.repo && s.repo[x].anomaly != 0 && AllMerge(s.repo[x], posts)
    modifies s
    ensures s.Valid() && done <= |posts| && (s.reliable ==> done == |posts|)
    ensures done == |posts| ==> s.repo == old(s.repo)[x := WithBits(old(s.repo)[x], posts)]
  {
    hide Good, NewRule, Mergeable, PostMerges, WithBits, OrBits, RepoInv;
    ghost var repo, r := s.repo, s.repo[x];
    StoredIsGood(repo, x);
    NothingMerged(r);
    assert repo[x := r] == repo;
    for i := 0 to |posts|
      invariant s.Valid() && AllMerge(r, posts[..i]) && s.repo == repo[x := WithBits(r, posts[..i])]
    {
      assert posts[..i + 1] == posts[..i] + [posts[i]];
      assert AllMerge(r, posts[..i + 1]);
      MergedOneMore(r, posts[..i], posts[i]);
      var merged := CreateOne(s, x, posts[i]);
      if !merged {
        return i;
      }
    }
    assert posts[..|posts|] == posts;
    done := |posts|;
  }

  lemma StoredIsGood(repo: Repo, x: Id)
    requires RepoInv(repo) && x in repo
    ensures Good(repo[x])
  {
    hide Good, Separate;
  }

  /** Two stores that hold the same rules and get the same bits, in any order and any number of
      requests, end up with the same rules. */
  method MergeInAnyOrder(s: RuleService, u: RuleService, x: Id, posts: seq<Posted>, others: seq<Posted>)
    returns (all: bool)
    requires s != u && s.Valid() && u.Valid() && s.repo == u.repo && x in s.repo && s.repo[x].anomaly != 0
    requires AllMerge(s.repo[x], posts) && AllMerge(s.repo[x], others)
    requires forall b :: b in BitsOf(posts) <==> b in BitsOf(others)
    modifies s, u
    ensures all ==> s.repo == u.repo
    ensures s.reliable && u.reliable ==> all
  {
    hide Good, NewRule, RepoInv, MergedBits, BitsOf, TupleOf, Mergeable;
    var r := s.repo[x];
    StoredIsGood(s.repo, x);
    var first := CreateAll(s, x, posts);
    var second := CreateAll(u, x, others);
    all := first == |posts| && second == |others|;
    GoodBits(r);
    RequestedBits(posts);
    BitsOrderIrrelevant([r.anomaly] + BitsOf(posts), [r.anomaly] + BitsOf(others));
  }
}
