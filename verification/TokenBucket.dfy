/** The per-CPU token bucket of rate-limit rules, in 64-bit arithmetic. */
module TokenBucket {

  const U64: nat := 0x1_0000_0000_0000_0000
  const U32: nat := 0x1_0000_0000
  const SECOND: nat := 1_000_000_000
  const BURST: nat := 2
  const DIVISOR_FALLBACK: nat := 256

  function Add64(a: nat, b: nat): nat { (a + b) % U64 }

  function Mul64(a: nat, b: nat): nat { (a * b) % U64 }

  function Sub64(a: nat, b: nat): (r: nat)
    requires b < U64
  {
    (a + U64 - b) % U64
  }

  /** rate_limit_percpu_rate: this CPU's share, rounded up, of the rule's packets per second. */
  function PerCpuRate(total: nat, configured: nat): nat {
    var divisor := if configured > 0 then configured else DIVISOR_FALLBACK;
    var rate := Sub64(Add64(total, divisor), 1) / divisor;
    if rate > 0 then rate else 1
  }

  /** The state of one rule on one CPU: no map entry, or tokens and the time of the last update,
      which is 0 until this CPU has seen a packet. */
  datatype State = Absent | Present(tokens: nat, last: nat)

  /** One packet as the program computes it. `room` says whether a new map entry can be made. */
  function Step(s: State, now: nat, rate: nat, room: bool): (r: (State, bool))
    requires now < U64 && (s.Present? ==> s.last < U64)
    ensures r.0.Present? ==> r.0.last < U64
  {
    var most := Mul64(rate, BURST);
    match s
    case Absent =>
      if room then (Present(Sub64(most, 1), now), true) else (Absent, false)
    case Present(tokens, last) =>
      if last == 0 then (Present(Sub64(most, 1), now), true)
      else
        var elapsed := Sub64(now, last);
        var capped := if elapsed > Mul64(BURST, SECOND) then Mul64(BURST, SECOND) else elapsed;
        var added := Mul64(capped, rate) / SECOND;
        var sum := Add64(tokens, added);
        var filled := if sum > most then most else sum;
        if filled >= 1 then (Present(Sub64(filled, 1), now), true)
        else (Present(tokens, if added > 0 then now else last), false)
  }

  /** The same bucket over unbounded numbers and without the cap on the elapsed time. */
  function Ideal(s: State, now: nat, rate: nat, room: bool): (State, bool)
    requires rate > 0 && (s.Present? ==> s.last <= now)
  {
    match s
    case Absent =>
      if room then (Present(BURST * rate - 1, now), true) else (Absent, false)
    case Present(tokens, last) =>
      if last == 0 then (Present(BURST * rate - 1, now), true)
      else
        var sum := tokens + (now - last) * rate / SECOND;
        var filled := if sum > BURST * rate then BURST * rate else sum;
        if filled >= 1 then (Present(filled - 1, now), true) else (s, false)
  }

  /** A rate that comes from a 32-bit rule field. */
  predicate Rate(r: nat) { 0 < r <= U32 }

  /** Never more than the burst, and the clock has not run backwards. */
  predicate Sane(s: State, rate: nat, now: nat) {
    now < U64 && (s.Present? ==> s.tokens <= BURST * rate && s.last <= now)
  }

  /** The bucket has nothing for the packet: no entry and no room for one, or no token in hand and
      less than one earned since the last update. */
  predicate Refuses(s: State, now: nat, rate: nat, room: bool)
    requires s.Present? ==> s.last <= now
  {
    match s
    case Absent => !room
    case Present(tokens, last) => last > 0 && tokens == 0 && (now - last) * rate < 1_000_000_000
  }

  class Bucket {
    var state: State

    constructor ()
      ensures state == Absent
    {
      state := Absent;
    }

    /** The rate-limit branch of the main program. */
    method Police(now: nat, rate: nat, room: bool) returns (passed: bool)
      requires Rate(rate) && Sane(state, rate, now)
      modifies this
      ensures (state, passed) == Step(old(state), now, rate, room)
      ensures (state, passed) == Ideal(old(state), now, rate, room)
      ensures !passed <==> Refuses(old(state), now, rate, room)
    {
      IdealStep(state, now, rate, room);
      RefusedIff(state, now, rate, room);
      var maxTokens := Mul64(rate, BURST);
      if state.Absent? {
        if !room {
          return false;
        }
        state := Present(Sub64(maxTokens, 1), now);
        return true;
      }
      if state.last == 0 {
        state := Present(Sub64(maxTokens, 1), now);
        return true;
      }
      var elapsed := Sub64(now, state.last);
      if elapsed > Mul64(BURST, SECOND) {
        elapsed := Mul64(BURST, SECOND);
      }
      var tokensToAdd := Mul64(elapsed, rate) / SECOND;
      var newTokens := Add64(state.tokens, tokensToAdd);
      if newTokens > maxTokens {
        newTokens := maxTokens;
      }
      if newTokens >= 1 {
        state := Present(Sub64(newTokens, 1), now);
        return true;
      }
      if tokensToAdd > 0 {
        state := state.(last := now);
      }
      passed := false;
    }
  }

  // ---- The 64-bit step is the ideal one ----

  lemma NoWrap(a: nat)
    requires a < U64
    ensures a % U64 == a
  {
  }

  lemma Scale(a: nat, b: nat, c: nat)
    requires a <= b
    ensures a * c <= b * c && c * a <= c * b
  {
  }

  lemma ProductsFit(capped: nat, rate: nat)
    requires capped <= BURST * SECOND && Rate(rate)
    ensures capped * rate <= BURST * SECOND * rate <= BURST * SECOND * U32 < U64
    ensures capped * rate / SECOND <= BURST * rate
  {
    Scale(capped, BURST * SECOND, rate);
    assert (BURST * SECOND) * rate == (BURST * rate) * SECOND;
    DivMonotone(capped * rate, (BURST * rate) * SECOND);
  }

  lemma DivMonotone(a: nat, b: nat)
    requires a <= b
    ensures a / SECOND <= b / SECOND
  {
  }

  lemma BeyondCap(elapsed: nat, rate: nat)
    requires elapsed > BURST * SECOND
    ensures elapsed * rate / SECOND >= BURST * rate == (BURST * SECOND) * rate / SECOND
  {
    Scale(BURST * SECOND, elapsed, rate);
    assert (BURST * SECOND) * rate == (BURST * rate) * SECOND;
    DivMonotone((BURST * rate) * SECOND, elapsed * rate);
  }

  lemma SmallDifference(a: nat, b: nat)
    requires b <= a < U64
    ensures Sub64(a, b) == a - b
  {
  }

  lemma Constants(rate: nat)
    requires Rate(rate)
    ensures Mul64(rate, BURST) == BURST * rate && Sub64(BURST * rate, 1) == BURST * rate - 1
    ensures Mul64(BURST, SECOND) == BURST * SECOND
  {
  }

  function Capped(elapsed: nat): nat {
    if elapsed > BURST * SECOND then BURST * SECOND else elapsed
  }

  function Min(a: nat, b: nat): nat { if a > b then b else a }

  /** The tokens of the elapsed time, with and without the cap, as far as the burst goes. */
  lemma AddedTokens(tokens: nat, elapsed: nat, rate: nat)
    requires Rate(rate) && tokens <= BURST * rate
    ensures Mul64(Capped(elapsed), rate) == Capped(elapsed) * rate
    ensures var added := Capped(elapsed) * rate / SECOND;
            Add64(tokens, added) == tokens + added
            && Min(tokens + added, BURST * rate) == Min(tokens + elapsed * rate / SECOND, BURST * rate)
  {
    ProductsFit(Capped(elapsed), rate);
    NoWrap(Capped(elapsed) * rate);
    NoWrap(tokens + Capped(elapsed) * rate / SECOND);
    if elapsed > BURST * SECOND {
      BeyondCap(elapsed, rate);
    }
  }

  /** For every 32-bit rate, every clock value and every elapsed time, no operation wraps, the
      cap on the elapsed time changes nothing, and the branch that would move the clock of a
      packet that is dropped is never taken. */
  lemma IdealStep(s: State, now: nat, rate: nat, room: bool)
    requires Rate(rate) && Sane(s, rate, now)
    ensures Step(s, now, rate, room) == Ideal(s, now, rate, room)
  {
    hide Add64, Sub64, Mul64;
    Constants(rate);
    if s.Present? && s.last != 0 {
      var elapsed := now - s.last;
      SmallDifference(now, s.last);
      AddedTokens(s.tokens, elapsed, rate);
      var filled := Min(s.tokens + elapsed * rate / SECOND, BURST * rate);
      if filled >= 1 {
        SmallDifference(filled, 1);
      }
    }
  }

  // ---- What one step promises ----

  lemma StepKeepsSane(s: State, now: nat, rate: nat, room: bool)
    requires Rate(rate) && Sane(s, rate, now)
    ensures Sane(Ideal(s, now, rate, room).0, rate, now)
    ensures !Ideal(s, now, rate, room).1 ==> Ideal(s, now, rate, room).0 == s
    ensures s.Present? && s.last > 0 && (now - s.last) * rate >= SECOND ==> Ideal(s, now, rate, room).1
  {
    if s.Present? && s.last > 0 && (now - s.last) * rate >= SECOND {
      DivMonotone(SECOND, (now - s.last) * rate);
    }
  }

  /** A packet is dropped exactly when the bucket has nothing for it. */
  lemma RefusedIff(s: State, now: nat, rate: nat, room: bool)
    requires Rate(rate) && Sane(s, rate, now)
    ensures !Step(s, now, rate, room).1 <==> Refuses(s, now, rate, room)
  {
    hide Step;
    IdealStep(s, now, rate, room);
    if s.Present? && s.last > 0 {
      if (now - s.last) * rate >= SECOND {
        DivMonotone(SECOND, (now - s.last) * rate);
      } else {
        DivMonotone((now - s.last) * rate, SECOND - 1);
      }
    }
  }

  lemma PassedNow(s: State, now: nat, rate: nat, room: bool)
    requires Rate(rate) && Sane(s, rate, now)
    ensures var (s', passed) := Ideal(s, now, rate, room);
            passed ==> s'.Present? && s'.last == now && s'.tokens + 1 <= BURST * rate
  {
  }

  // ---- Runs ----

  datatype Event = Event(now: nat, room: bool)

  /** A clock that is positive, does not run backwards and stays below `end`. */
  predicate Clock(evs: seq<Event>, start: nat, end: nat) {
    if evs == [] then true else 0 < evs[0].now && start <= evs[0].now <= end && Clock(evs[1..], evs[0].now, end)
  }

  ghost function Passes(s: State, evs: seq<Event>, rate: nat): nat
    requires Rate(rate) && (s.Present? ==> s.last < U64)
    requires forall e :: e in evs ==> e.now < U64
    decreases evs
  {
    if evs == [] then 0
    else
      var (s', passed) := Step(s, evs[0].now, rate, evs[0].room);
      (if passed then 1 else 0) + Passes(s', evs[1..], rate)
  }

  ghost function After(s: State, evs: seq<Event>, rate: nat): (r: State)
    requires Rate(rate) && (s.Present? ==> s.last < U64)
    requires forall e :: e in evs ==> e.now < U64
    ensures r.Present? ==> r.last < U64
    decreases evs
  {
    if evs == [] then s else After(Step(s, evs[0].now, rate, evs[0].room).0, evs[1..], rate)
  }

  lemma {:induction false} AfterIsSane(s: State, evs: seq<Event>, rate: nat, start: nat, end: nat)
    requires Rate(rate) && Sane(s, rate, start) && Clock(evs, start, end) && start <= end < U64
    requires forall e :: e in evs ==> e.now < U64
    ensures Sane(After(s, evs, rate), rate, end)
    decreases |evs|
  {
    hide Step, Ideal;
    if evs != [] {
      var e := evs[0];
      IdealStep(s, e.now, rate, e.room);
      StepKeepsSane(s, e.now, rate, e.room);
      AfterIsSane(Step(s, e.now, rate, e.room).0, evs[1..], rate, e.now, end);
    }
  }

  // ---- What the bucket owes ----

  lemma {:induction false} InstantPasses(tokens: nat, now: nat, evs: seq<Event>, rate: nat)
    requires Rate(rate) && 0 < now < U64 && tokens <= 2 * rate && forall e :: e in evs ==> e.now == now
    ensures Passes(Present(tokens, now), evs, rate) == Min(|evs|, tokens)
    decreases |evs|
  {
    hide Step, Rate;
    if evs != [] {
      var e := evs[0];
      IdealStep(Present(tokens, now), now, rate, e.room);
      assert (now - now) * rate / SECOND == 0;
      if tokens > 0 {
        InstantPasses(tokens - 1, now, evs[1..], rate);
      } else {
        InstantPasses(tokens, now, evs[1..], rate);
      }
    }
  }

  /** The bucket is as full as it can be: it has never been used, and an entry can be made; or
      this CPU has not used it; or it has been idle for two seconds. */
  predicate Rested(s: State, now: nat, room: bool) {
    match s
    case Absent => room
    case Present(_, last) => last == 0 || now >= last + 2 * 1_000_000_000
  }

  lemma RestedPasses(s: State, now: nat, rate: nat, room: bool)
    requires Rate(rate) && Sane(s, rate, now) && Rested(s, now, room)
    ensures Step(s, now, rate, room) == (Present(2 * rate - 1, now), true)
  {
    hide Step;
    IdealStep(s, now, rate, room);
    if s.Present? && s.last > 0 {
      Scale(2 * SECOND, now - s.last, rate);
      assert 2 * SECOND * rate == (2 * rate) * SECOND;
      DivMonotone((2 * rate) * SECOND, (now - s.last) * rate);
    }
  }

  /** Of any number of packets at one instant a rested bucket passes exactly the first 2r. */
  lemma BurstPasses(s: State, evs: seq<Event>, rate: nat, now: nat)
    requires Rate(rate) && Sane(s, rate, now) && 0 < now && forall e :: e in evs ==> e.now == now
    requires evs != [] ==> Rested(s, now, evs[0].room)
    ensures Passes(s, evs, rate) == if |evs| <= 2 * rate then |evs| else 2 * rate
  {
    hide Step, Rested;
    if evs != [] {
      RestedPasses(s, now, rate, evs[0].room);
      InstantPasses(2 * rate - 1, now, evs[1..], rate);
    }
  }

  /** The time of the last packet passed in a run, or t if there is none. */
  ghost function LastPass(s: State, evs: seq<Event>, rate: nat, t: nat): nat
    requires Rate(rate) && (s.Present? ==> s.last < U64)
    requires forall e :: e in evs ==> e.now < U64
    decreases evs
  {
    if evs == [] then t
    else
      var (s', passed) := Step(s, evs[0].now, rate, evs[0].room);
      LastPass(s', evs[1..], rate, if passed then evs[0].now else t)
  }

  lemma {:induction false} LastIsLastPass(s: State, evs: seq<Event>, rate: nat, t: nat, start: nat, end: nat)
    requires Rate(rate) && Sane(s, rate, start) && Clock(evs, start, end) && start <= end < U64
    requires forall e :: e in evs ==> e.now < U64
    requires s.Present? ==> t == s.last
    ensures var u := After(s, evs, rate); u.Present? ==> u.last == LastPass(s, evs, rate, t)
    decreases |evs|
  {
    hide Step, Ideal;
    if evs != [] {
      var e := evs[0];
      IdealStep(s, e.now, rate, e.room);
      StepKeepsSane(s, e.now, rate, e.room);
      PassedNow(s, e.now, rate, e.room);
      var (s', passed) := Step(s, e.now, rate, e.room);
      LastIsLastPass(s', evs[1..], rate, if passed then e.now else t, e.now, end);
    }
  }

  /** In any run, of a bucket that began unused, a packet is dropped only if no bucket could be
      made for it, or no token was stored and less than one had been earned since the last
      packet that passed. */
  lemma DropInRun(earlier: seq<Event>, e: Event, rate: nat)
    requires Rate(rate) && Clock(earlier, 0, e.now) && 0 < e.now < U64
    requires forall x :: x in earlier ==> x.now < U64
    requires !Step(After(Absent, earlier, rate), e.now, rate, e.room).1
    ensures var s := After(Absent, earlier, rate);
            if s.Absent? then !e.room
            else s.tokens == 0 && (e.now - LastPass(Absent, earlier, rate, 0)) * rate < 1_000_000_000
  {
    hide Step, After, LastPass;
    AfterIsSane(Absent, earlier, rate, 0, e.now);
    LastIsLastPass(Absent, earlier, rate, 0, 0, e.now);
    RefusedIff(After(Absent, earlier, rate), e.now, rate, e.room);
  }

  /** What a span of nanoseconds earns, in billionths of a token. */
  function Earned(rate: nat, span: nat): nat { rate * span }

  lemma EarnedFacts(rate: nat, a: nat, b: nat)
    requires a <= b
    ensures Earned(rate, a) <= Earned(rate, b)
    ensures Earned(rate, b - a) + Earned(rate, a) == Earned(rate, b)
    ensures Earned(rate, a) / SECOND * SECOND <= Earned(rate, a)
  {
    Scale(a, b, rate);
    assert rate * (b - a) + rate * a == rate * b;
  }

  lemma IdealAdds(tokens: nat, last: nat, now: nat, rate: nat, room: bool)
    requires Rate(rate) && 0 < last <= now && tokens <= BURST * rate
    ensures var (s', passed) := Ideal(Present(tokens, last), now, rate, room);
            if passed then s'.Present? && s'.last == now && s'.tokens + 1 <= tokens + Earned(rate, now - last) / SECOND
            else s' == Present(tokens, last)
  {
    assert (now - last) * rate == Earned(rate, now - last);
  }

  /** Tokens in hand plus what the time until the end of the window can still earn. */
  lemma {:induction false} PassesOfPresent(s: State, evs: seq<Event>, rate: nat, end: nat)
    requires Rate(rate) && s.Present? && s.last > 0 && Sane(s, rate, s.last) && s.last <= end < U64
    requires Clock(evs, s.last, end) && forall e :: e in evs ==> e.now < U64
    ensures Passes(s, evs, rate) * SECOND <= s.tokens * SECOND + Earned(rate, end - s.last)
    decreases |evs|
  {
    hide Step, Ideal, Rate, Earned;
    if evs != [] {
      var e, rest := evs[0], evs[1..];
      IdealStep(s, e.now, rate, e.room);
      StepKeepsSane(s, e.now, rate, e.room);
      IdealAdds(s.tokens, s.last, e.now, rate, e.room);
      var (s', passed) := Step(s, e.now, rate, e.room);
      if passed {
        PassesOfPresent(s', rest, rate, end);
        EarnedFacts(rate, e.now - s.last, end - s.last);
      } else {
        LaterClock(rest, e.now, s.last, end);
        PassesOfPresent(s, rest, rate, end);
      }
    }
  }

  lemma LaterClock(evs: seq<Event>, now: nat, start: nat, end: nat)
    requires Clock(evs, now, end) && start <= now
    ensures Clock(evs, start, end)
  {
  }

  lemma OneMore(n: nat, tokens: nat, most: nat, x: nat, y: nat)
    requires n * SECOND <= tokens * SECOND + x && tokens + 1 <= most && x <= y
    ensures (1 + n) * SECOND <= most * SECOND + y
  {
  }

  /** In any window of a run, packets passed are at most twice the rate plus the rate times the
      length of the window in seconds. */
  lemma {:induction false} WindowBound(s: State, evs: seq<Event>, rate: nat, start: nat, end: nat)
    requires Rate(rate) && Sane(s, rate, start) && start <= end < U64
    requires Clock(evs, start, end) && forall e :: e in evs ==> e.now < U64
    ensures Passes(s, evs, rate) * SECOND <= BURST * rate * SECOND + Earned(rate, end - start)
    decreases |evs|
  {
    hide Step, Ideal, Rate, Earned;
    if evs != [] {
      var e, rest := evs[0], evs[1..];
      IdealStep(s, e.now, rate, e.room);
      StepKeepsSane(s, e.now, rate, e.room);
      PassedNow(s, e.now, rate, e.room);
      var (s', passed) := Step(s, e.now, rate, e.room);
      if passed {
        PassesOfPresent(s', rest, rate, end);
        EarnedFacts(rate, end - e.now, end - start);
        OneMore(Passes(s', rest, rate), s'.tokens, BURST * rate, Earned(rate, end - e.now), Earned(rate, end - start));
      } else {
        LaterClock(rest, e.now, start, end);
        WindowBound(s, rest, rate, start, end);
      }
    }
  }

  lemma {:induction false} AfterSplits(s: State, xs: seq<Event>, ys: seq<Event>, rate: nat)
    requires Rate(rate) && (s.Present? ==> s.last < U64)
    requires forall e :: e in xs + ys ==> e.now < U64
    ensures Passes(s, xs + ys, rate) == Passes(s, xs, rate) + Passes(After(s, xs, rate), ys, rate)
    decreases |xs|
  {
    hide Step;
    if xs == [] {
      assert xs + ys == ys;
    } else {
      assert (xs + ys)[1..] == xs[1..] + ys;
      AfterSplits(Step(s, xs[0].now, rate, xs[0].room).0, xs[1..], ys, rate);
    }
  }

  /** The bound for a window in the middle of a run that began earlier. */
  lemma WindowOfRun(s: State, earlier: seq<Event>, window: seq<Event>, rate: nat, t0: nat, start: nat, end: nat)
    requires Rate(rate) && Sane(s, rate, t0) && t0 <= start <= end < U64
    requires Clock(earlier, t0, start) && Clock(window, start, end)
    requires forall e :: e in earlier + window ==> e.now < U64
    ensures (Passes(s, earlier + window, rate) - Passes(s, earlier, rate)) * SECOND
            <= 2 * rate * 1_000_000_000 + rate * (end - start)
    ensures Sane(After(s, earlier, rate), rate, start)
  {
    hide Step, Passes, After, Clock;
    assert forall e :: e in earlier ==> e in earlier + window;
    assert forall e :: e in window ==> e in earlier + window;
    AfterSplits(s, earlier, window, rate);
    AfterIsSane(s, earlier, rate, t0, start);
    WindowBound(After(s, earlier, rate), window, rate, start, end);
  }

  // ---- All CPUs together ----

  /** A positive 32-bit total and a positive divisor: the share is the quotient rounded up, so
      that all shares together are at least the total and at most divisor - 1 above it. */
  lemma ShareIsCeiling(total: nat, divisor: nat)
    requires 0 < total < U32 && 0 < divisor < U32
    ensures Rate(PerCpuRate(total, divisor))
    ensures total <= divisor * PerCpuRate(total, divisor) <= total + divisor - 1
  {
    var sum := total + divisor - 1;
    assert Sub64(Add64(total, divisor), 1) == sum;
    var q := sum / divisor;
    assert sum == q * divisor + sum % divisor;
    assert q > 0 by { assert sum >= divisor; }
    Scale(1, divisor, q);
    assert q <= U32 by { QuotientSmall(total, divisor); }
  }

  /** Without a configured divisor it is 256. */
  lemma ShareByDefault(total: nat)
    ensures PerCpuRate(total, 0) == PerCpuRate(total, 256)
  {
  }

  lemma QuotientSmall(total: nat, divisor: nat)
    requires 0 < total < U32 && 0 < divisor < U32
    ensures (total + divisor - 1) / divisor <= U32
  {
    var q := (total + divisor - 1) / divisor;
    assert q * divisor <= total + divisor - 1;
    if q > total {
      Scale(total + 1, q, divisor);
      assert (total + 1) * divisor == total * divisor + divisor;
      Scale(1, divisor, total);
      assert false;
    }
  }

  datatype CpuRun = CpuRun(state: State, events: seq<Event>)

  ghost predicate InWindow(r: CpuRun, rate: nat, start: nat, end: nat) {
    && Rate(rate) && Sane(r.state, rate, start) && start <= end < U64
    && Clock(r.events, start, end) && forall e :: e in r.events ==> e.now < U64
  }

  ghost function Total(runs: seq<CpuRun>, rate: nat, start: nat, end: nat): nat
    requires forall r :: r in runs ==> InWindow(r, rate, start, end)
  {
    if runs == [] then 0
    else
      var r := runs[0];
      assert InWindow(r, rate, start, end);
      Passes(r.state, r.events, rate) + Total(runs[1..], rate, start, end)
  }

  lemma Distribute(rate: nat, span: nat)
    ensures BURST * rate * SECOND + rate * span == rate * (BURST * SECOND + span)
  {
  }

  lemma OneMoreShare(n: nat, each: nat)
    requires n > 0
    ensures n * each == each + (n - 1) * each
  {
  }

  lemma {:induction false} TotalBound(runs: seq<CpuRun>, rate: nat, start: nat, end: nat)
    requires start <= end && forall r :: r in runs ==> InWindow(r, rate, start, end)
    ensures Total(runs, rate, start, end) * SECOND <= |runs| * (rate * (BURST * SECOND + (end - start)))
  {
    hide Passes;
    var each := rate * (BURST * SECOND + (end - start));
    if runs == [] {
    } else {
      var r := runs[0];
      assert r in runs;
      WindowBound(r.state, r.events, rate, start, end);
      Distribute(rate, end - start);
      TotalBound(runs[1..], rate, start, end);
      OneMoreShare(|runs|, each);
    }
  }

  /** With no more CPUs than the divisor, what all of them pass in a window of T nanoseconds is
      at most (total + divisor - 1) * (2 + T / 10^9) packets. */
  lemma AllCpusBound(runs: seq<CpuRun>, total: nat, divisor: nat, start: nat, end: nat)
    requires 0 < total < U32 && 0 < divisor < U32 && |runs| <= divisor && start <= end
    requires forall r :: r in runs ==> InWindow(r, PerCpuRate(total, divisor), start, end)
    ensures Total(runs, PerCpuRate(total, divisor), start, end) * SECOND
            <= (total + divisor - 1) * (2 * 1_000_000_000 + (end - start))
  {
    hide Total, PerCpuRate;
    var rate := PerCpuRate(total, divisor);
    var span := BURST * SECOND + (end - start);
    ShareIsCeiling(total, divisor);
    TotalBound(runs, rate, start, end);
    Scale(|runs|, divisor, rate * span);
    assert divisor * (rate * span) == (divisor * rate) * span;
    Scale(divisor * rate, total + divisor - 1, span);
  }
}
