/** What a rate-limit rule does to the packets it decides, over any traffic on one CPU. */
module RateLimiting {
  import opened Rules
  import opened Lookup
  import opened Kernel
  import opened TokenBucket
  import opened DataPlane

  /** The packet comes as far as the main program's lookups, and this rule decides it. */
  predicate DecidedBy(e: Entry, f: Frame, env: Env)
    requires env.maps.Sized()
  {
    Judged(f, env) && !GatePasses(f, env) && env.mainLoaded && Decider(f, env) == Some(e)
  }

  /** The rule is a rate limit, of this rate on one CPU. */
  predicate LimitsTo(e: Entry, env: Env, rate: nat)
    requires env.maps.Sized()
  {
    match ValueAt(env.maps, e)
    case None => false
    case Some(v) =>
      v.action == ACTION_RATE_LIMIT && v.rateLimit > 0
      && PerCpuRate(v.rateLimit, env.maps.Word(RL_CPU_DIVISOR)) == rate
  }

  /** Packets under maps of the right sizes, at times that do not go back, between start and end,
      on which the rule stays a rate limit of the same rate. */
  ghost predicate Steady(frames: seq<(Frame, Env)>, e: Entry, rate: nat, start: nat, end: nat) {
    && 0 < start <= end < U64
    && (forall i :: 0 <= i < |frames| ==> frames[i].1.maps.Sized() && start <= frames[i].1.now <= end)
    && (forall i, j :: 0 <= i < j < |frames| ==> frames[i].1.now <= frames[j].1.now)
    && forall i :: 0 <= i < |frames| && DecidedBy(e, frames[i].0, frames[i].1) ==> LimitsTo(e, frames[i].1, rate)
  }

  /** How many of the packets that the rule decided have passed. */
  ghost function PassedBy(e: Entry, frames: seq<(Frame, Env)>, verdicts: seq<Verdict>): nat
    requires |frames| == |verdicts| && forall i :: 0 <= i < |frames| ==> frames[i].1.maps.Sized()
  {
    if frames == [] then 0
    else
      var n := |frames| - 1;
      PassedBy(e, frames[..n], verdicts[..n])
      + if DecidedBy(e, frames[n].0, frames[n].1) && verdicts[n] == Pass then 1 else 0
  }

  lemma PassedByNext(e: Entry, frames: seq<(Frame, Env)>, fe: (Frame, Env), verdicts: seq<Verdict>, v: Verdict)
    requires |frames| == |verdicts| && forall x :: x in frames + [fe] ==> x.1.maps.Sized()
    ensures fe in frames + [fe] && (forall x :: x in frames ==> x in frames + [fe])
    ensures PassedBy(e, frames + [fe], verdicts + [v]) ==
            PassedBy(e, frames, verdicts) + if DecidedBy(e, fe.0, fe.1) && v == Pass then 1 else 0
  {
    hide DecidedBy;
    assert (frames + [fe])[|frames|] == fe;
    assert (frames + [fe])[..|frames|] == frames && (verdicts + [v])[..|verdicts|] == verdicts;
  }

  lemma {:induction false} AfterNext(s: State, evs: seq<Event>, e: Event, rate: nat)
    requires Rate(rate) && (s.Present? ==> s.last < U64) && forall x :: x in evs + [e] ==> x.now < U64
    ensures (forall x :: x in evs ==> x in evs + [e]) && e in evs + [e]
    ensures After(s, evs + [e], rate) == Step(After(s, evs, rate), e.now, rate, e.room).0
    ensures Passes(s, evs + [e], rate) ==
            Passes(s, evs, rate) + if Step(After(s, evs, rate), e.now, rate, e.room).1 then 1 else 0
    decreases |evs|
  {
    hide Step;
    assert (evs + [e])[|evs|] == e;
    if evs == [] {
      assert evs + [e] == [e] && [e][1..] == [];
    } else {
      assert (evs + [e])[1..] == evs[1..] + [e];
      AfterNext(Step(s, evs[0].now, rate, evs[0].room).0, evs[1..], e, rate);
    }
  }

  lemma {:induction false} ClockNext(evs: seq<Event>, e: Event, start: nat, t: nat)
    requires Clock(evs, start, t) && start <= t <= e.now && 0 < e.now
    ensures Clock(evs + [e], start, e.now)
    decreases |evs|
  {
    if evs == [] {
      assert evs + [e] == [e] && [e][1..] == [];
    } else {
      assert (evs + [e])[1..] == evs[1..] + [e];
      ClockNext(evs[1..], e, evs[0].now, t);
    }
  }

  lemma {:induction false} ClockLonger(evs: seq<Event>, start: nat, t: nat, u: nat)
    requires Clock(evs, start, t) && t <= u
    ensures Clock(evs, start, u)
    decreases |evs|
  {
    if evs != [] {
      ClockLonger(evs[1..], evs[0].now, t, u);
    }
  }

  /** What the main program does with a packet that the rule decides. */
  lemma DecidedVerdict(e: Entry, f: Frame, env: Env, buckets: map<Entry, State>, rate: nat)
    requires env.maps.Sized() && env.now < U64 && ClocksFit(buckets)
    requires DecidedBy(e, f, env) && LimitsTo(e, env, rate)
    ensures var (s, passed) := Step(BucketOf(buckets, e), env.now, rate, env.room);
            && MainVerdict(f, env, buckets) == (if passed then Pass else Drop)
            && BucketOf(Used(f, env, buckets), e) == s
  {
    hide Step, PerCpuRate, Maps.Sized, ClocksFit;
  }

  /** A packet that another rule decides, or none, leaves the bucket alone. */
  lemma NotUsed(e: Entry, f: Frame, env: Env, buckets: map<Entry, State>)
    requires env.maps.Sized() && env.now < U64 && ClocksFit(buckets) && Decider(f, env) != Some(e)
    ensures BucketOf(Used(f, env, buckets), e) == BucketOf(buckets, e)
  {
    hide Decider, Metered, ValueAt, ClocksFit;
  }

  /** What becomes of the rule's bucket at one packet, and of the packet if it is the rule's. */
  ghost predicate Metes(e: Entry, f: Frame, env: Env, rate: nat, s: State, verdict: Verdict, s': State) {
    && env.maps.Sized() && env.now < U64 && (s.Present? ==> s.last <= env.now)
    && if DecidedBy(e, f, env)
       then verdict == (if Refuses(s, env.now, rate, env.room) then Drop else Pass)
            && s' == Step(s, env.now, rate, env.room).0
       else s' == s
  }

  /** The packets that the rule has decided so far, as the bucket sees them. */
  ghost predicate Tracks(s: State, b: State, evs: seq<Event>, rate: nat, start: nat, t: nat) {
    && Rate(rate) && start <= t < U64 && Sane(b, rate, start)
    && (forall v :: v in evs ==> v.now < U64) && Clock(evs, start, t)
    && s == After(b, evs, rate)
  }

  /** One packet, and what it means to the rule's bucket. */
  method OnePacket(x: XdpPrograms, f: Frame, env: Env, e: Entry, ghost rate: nat, ghost b: State, ghost evs: seq<Event>,
                   ghost start: nat, ghost t: nat)
    returns (verdict: Verdict, ghost evs': seq<Event>)
    requires x.Balanced() && ClocksFit(x.buckets) && env.maps.Sized() && 0 < env.now < U64 && t <= env.now
    requires Tracks(BucketOf(x.buckets, e), b, evs, rate, start, t)
    requires DecidedBy(e, f, env) ==> LimitsTo(e, env, rate)
    modifies x
    ensures x.Balanced() && ClocksFit(x.buckets)
    ensures Tracks(BucketOf(x.buckets, e), b, evs', rate, start, env.now)
    ensures Passes(b, evs', rate) == Passes(b, evs, rate) + if DecidedBy(e, f, env) && verdict == Pass then 1 else 0
    ensures Metes(e, f, env, rate, BucketOf(old(x.buckets), e), verdict, BucketOf(x.buckets, e))
  {
    hide Step, Passes, After, DecidedBy, LimitsTo, Used, MainVerdict, GatePasses, HandedOn, Judged, Metes, Decider,
         BucketOf, Refuses, Clock;
    ghost var buckets := x.buckets;
    AfterIsSane(b, evs, rate, start, t);
    verdict := x.WhitelistGate(f, env);
    if DecidedBy(e, f, env) {
      ghost var event := Event(env.now, env.room);
      DecidedReaches(e, f, env);
      DecidedVerdict(e, f, env, buckets, rate);
      AfterNext(b, evs, event, rate);
      ClockNext(evs, event, start, t);
      evs' := evs + [event];
      MetedOne(e, f, env, rate, BucketOf(buckets, e), verdict, BucketOf(x.buckets, e));
    } else {
      LeftAlone(e, f, env, buckets, x.buckets);
      ClockLonger(evs, start, t, env.now);
      evs' := evs;
      MetedNone(e, f, env, rate, BucketOf(buckets, e), verdict);
    }
  }

  /** Any traffic under a rate-limit rule, whatever other packets and rules come in between. Of the
      packets that the rule decides no more than 2r + r*T/10^9 pass in a time T. Each of them is
      dropped exactly when the rule's bucket, which only these packets use, has nothing for it:
      no token left, what the time since has earned counted in, or no room for the bucket. */
  method Limited(x: XdpPrograms, frames: seq<(Frame, Env)>, e: Entry, ghost rate: nat, ghost start: nat, ghost end: nat)
    returns (verdicts: seq<Verdict>, ghost states: seq<State>)
    requires x.Balanced() && ClocksFit(x.buckets) && Steady(frames, e, rate, start, end)
    requires Rate(rate) && Sane(BucketOf(x.buckets, e), rate, start)
    modifies x
    ensures |verdicts| == |frames|
    ensures PassedBy(e, frames, verdicts) * 1_000_000_000 <= 2 * rate * 1_000_000_000 + rate * (end - start)
    ensures |states| == |frames| + 1 && states[0] == BucketOf(old(x.buckets), e)
    ensures states[|frames|] == BucketOf(x.buckets, e)
    ensures forall i :: 0 <= i < |frames| ==>
              Metes(e, frames[i].0, frames[i].1, rate, states[i], verdicts[i], states[i + 1])
  {
    hide Passes, DecidedBy, LimitsTo, Metes, BucketOf, Tracks, PassedSoFar;
    ghost var b := BucketOf(x.buckets, e);
    ghost var evs: seq<Event>, t: nat := [], start;
    verdicts, states := [], [b];
    NoEvents(b, rate, start);
    for i := 0 to |frames|
      invariant x.Balanced() && ClocksFit(x.buckets) && Tracks(BucketOf(x.buckets, e), b, evs, rate, start, t)
      invariant |verdicts| == i && |states| == i + 1 && states[0] == b && states[i] == BucketOf(x.buckets, e)
      invariant t <= end && forall j :: i <= j < |frames| ==> t <= frames[j].1.now
      invariant PassedSoFar(e, frames[..i], verdicts, b, evs, rate)
      invariant forall j :: 0 <= j < i ==>
                  Metes(e, frames[j].0, frames[j].1, rate, states[j], verdicts[j], states[j + 1])
    {
      assert frames[..i + 1] == frames[..i] + [frames[i]];
      ghost var evs0 := evs;
      var verdict;
      verdict, evs := OnePacket(x, frames[i].0, frames[i].1, e, rate, b, evs, start, t);
      t := frames[i].1.now;
      TrackedEvents(BucketOf(x.buckets, e), b, evs, rate, start, t);
      SoFarNext(e, frames[..i], frames[i], verdicts, verdict, b, evs0, evs, rate);
      verdicts, states := verdicts + [verdict], states + [BucketOf(x.buckets, e)];
    }
    assert frames[..|frames|] == frames;
    SoFarPassed(e, frames, verdicts, b, evs, rate);
    Windowed(BucketOf(x.buckets, e), b, evs, rate, start, t, end);
  }

  ghost predicate PassedSoFar(e: Entry, frames: seq<(Frame, Env)>, verdicts: seq<Verdict>, b: State, evs: seq<Event>,
                              rate: nat) {
    && Rate(rate) && (b.Present? ==> b.last < U64) && (forall v :: v in evs ==> v.now < U64)
    && |frames| == |verdicts| && (forall i :: 0 <= i < |frames| ==> frames[i].1.maps.Sized())
    && PassedBy(e, frames, verdicts) == Passes(b, evs, rate)
  }

  lemma NoEvents(s: State, rate: nat, start: nat)
    requires Rate(rate) && start < U64 && Sane(s, rate, start)
    ensures After(s, [], rate) == s && Passes(s, [], rate) == 0 && Clock([], start, start)
    ensures Tracks(s, s, [], rate, start, start) && forall e :: PassedSoFar(e, [], [], s, [], rate)
  {
  }

  lemma TrackedEvents(s: State, b: State, evs: seq<Event>, rate: nat, start: nat, t: nat)
    requires Tracks(s, b, evs, rate, start, t)
    ensures (b.Present? ==> b.last < U64) && forall v :: v in evs ==> v.now < U64
  {
  }

  lemma SoFarPassed(e: Entry, frames: seq<(Frame, Env)>, verdicts: seq<Verdict>, b: State, evs: seq<Event>, rate: nat)
    requires PassedSoFar(e, frames, verdicts, b, evs, rate)
    ensures Rate(rate) && (b.Present? ==> b.last < U64) && (forall v :: v in evs ==> v.now < U64)
    ensures |frames| == |verdicts| && (forall i :: 0 <= i < |frames| ==> frames[i].1.maps.Sized())
    ensures PassedBy(e, frames, verdicts) == Passes(b, evs, rate)
  {
  }

  lemma SoFarNext(e: Entry, frames: seq<(Frame, Env)>, fe: (Frame, Env), verdicts: seq<Verdict>, verdict: Verdict,
                  b: State, evs: seq<Event>, evs': seq<Event>, rate: nat)
    requires PassedSoFar(e, frames, verdicts, b, evs, rate)
    requires fe.1.maps.Sized() && forall v :: v in evs' ==> v.now < U64
    requires Passes(b, evs', rate) ==
             Passes(b, evs, rate) + if DecidedBy(e, fe.0, fe.1) && verdict == Pass then 1 else 0
    ensures PassedSoFar(e, frames + [fe], verdicts + [verdict], b, evs', rate)
  {
    hide Passes, PassedBy, DecidedBy;
    PassedByNext(e, frames, fe, verdicts, verdict);
  }

  lemma DecidedReaches(e: Entry, f: Frame, env: Env)
    requires env.maps.Sized() && DecidedBy(e, f, env)
    ensures Judged(f, env) && !GatePasses(f, env) && env.mainLoaded
  {
  }

  lemma LeftAlone(e: Entry, f: Frame, env: Env, buckets: map<Entry, State>, buckets': map<Entry, State>)
    requires env.maps.Sized() && env.now < U64 && ClocksFit(buckets) && !DecidedBy(e, f, env)
    requires buckets' == if Judged(f, env) && !GatePasses(f, env) && env.mainLoaded
                         then Used(f, env, buckets) else buckets
    ensures BucketOf(buckets', e) == BucketOf(buckets, e)
  {
    hide Used, Decider, GatePasses, Judged;
    if Judged(f, env) && !GatePasses(f, env) && env.mainLoaded {
      NotUsed(e, f, env, buckets);
    }
  }

  lemma MetedOne(e: Entry, f: Frame, env: Env, rate: nat, s: State, verdict: Verdict, s': State)
    requires env.maps.Sized() && env.now < U64 && DecidedBy(e, f, env) && Rate(rate) && Sane(s, rate, env.now)
    requires (s', verdict) ==
              (Step(s, env.now, rate, env.room).0, if Step(s, env.now, rate, env.room).1 then Pass else Drop)
    ensures Metes(e, f, env, rate, s, verdict, s')
  {
    hide Step, DecidedBy;
    RefusedIff(s, env.now, rate, env.room);
  }

  lemma MetedNone(e: Entry, f: Frame, env: Env, rate: nat, s: State, verdict: Verdict)
    requires env.maps.Sized() && env.now < U64 && !DecidedBy(e, f, env) && (s.Present? ==> s.last <= env.now)
    ensures Metes(e, f, env, rate, s, verdict, s)
  {
    hide DecidedBy;
  }

  lemma Windowed(s: State, b: State, evs: seq<Event>, rate: nat, start: nat, t: nat, end: nat)
    requires Tracks(s, b, evs, rate, start, t) && t <= end < U64
    ensures Passes(b, evs, rate) * 1_000_000_000 <= 2 * rate * 1_000_000_000 + rate * (end - start)
  {
    hide Passes, After, Clock;
    ClockLonger(evs, start, t, end);
    assert [] + evs == evs;
    NoEvents(b, rate, start);
    WindowOfRun(b, [], evs, rate, start, start, end);
  }
}
