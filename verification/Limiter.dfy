/** Per-session token buckets: src/forwarding/limiter.rs. Times are nanoseconds. */
module Limiter {
  import opened Octets

  const NANOS: nat := 1_000_000_000

  /** Zero is unlimited in that dimension. */
  datatype RateLimits = RateLimits(packetsPerSec: U64, bytesPerSec: U64) {
    predicate Unlimited() {
      packetsPerSec == 0 && bytesPerSec == 0
    }
  }

  datatype Buckets = Buckets(packetTokens: U64, byteTokens: U64, lastRefill: nat) {
    /** At most one second's worth of tokens. */
    predicate Within(limits: RateLimits) {
      packetTokens <= limits.packetsPerSec && byteTokens <= limits.bytesPerSec
    }
  }

  function New(limits: RateLimits, now: nat): Buckets {
    Buckets(limits.packetsPerSec, limits.bytesPerSec, now)
  }

  /** `duration_since` is zero when the clock reads earlier. */
  function Elapsed(last: nat, now: nat): nat {
    if now <= last then 0 else now - last
  }

  /** Tokens earned: whole microseconds, rounded down, cut to 64 bits. */
  function Earned(rate: U64, nanos: nat): U64 {
    rate * (nanos / 1000) / 1_000_000 % 0x1_0000_0000_0000_0000
  }

  /** The sum wraps at 64 bits before the cap. */
  function Topped(rate: U64, tokens: U64, nanos: nat): U64 {
    Min((tokens + Earned(rate, nanos)) % 0x1_0000_0000_0000_0000, rate)
  }

  function Refill(limits: RateLimits, b: Buckets, now: nat): Buckets {
    var nanos := Elapsed(b.lastRefill, now);
    if nanos == 0 then b
    else
      Buckets(Topped(limits.packetsPerSec, b.packetTokens, nanos), Topped(limits.bytesPerSec, b.byteTokens, nanos), now)
  }

  predicate Admits(limits: RateLimits, b: Buckets, bytes: U64) {
    (limits.packetsPerSec == 0 || b.packetTokens >= 1) && (limits.bytesPerSec == 0 || b.byteTokens >= bytes)
  }

  /** `try_consume_at`. */
  function TryConsume(limits: RateLimits, b: Buckets, bytes: U64, now: nat): (Buckets, bool) {
    if limits.Unlimited() then (b, true)
    else
      Spend(limits, Refill(limits, b, now), bytes)
  }

  /** Pay for a packet out of both buckets, or not at all. */
  function Spend(limits: RateLimits, r: Buckets, bytes: U64): (Buckets, bool) {
    if !Admits(limits, r, bytes) then (r, false)
    else
      (Buckets(if limits.packetsPerSec > 0 then r.packetTokens - 1 else r.packetTokens,
               if limits.bytesPerSec > 0 then r.byteTokens - bytes else r.byteTokens,
               r.lastRefill), true)
  }

  datatype Call = Call(bytes: U64, now: nat)

  /** The buckets after a sequence of calls, and the packets and octets admitted. */
  datatype Tally = Tally(buckets: Buckets, packets: nat, bytes: nat)

  function Run(limits: RateLimits, b: Buckets, calls: seq<Call>): Tally
    decreases |calls|
  {
    if calls == [] then Tally(b, 0, 0)
    else
      var (next, ok) := TryConsume(limits, b, calls[0].bytes, calls[0].now);
      var later := Run(limits, next, calls[1..]);
      if ok then Tally(later.buckets, later.packets + 1, later.bytes + calls[0].bytes) else later
  }

  /** What a pause earns, for every pause: the rate times its whole microseconds, rounded down to whole tokens, as long as
      that fits 64 bits. */
  lemma EarnedExactly(rate: U64, nanos: nat, tokens: nat)
    requires rate * (nanos / 1000) < 1_000_000 * 0x1_0000_0000_0000_0000
    ensures Earned(rate, nanos) == tokens <==>
            1_000_000 * tokens <= rate * (nanos / 1000) < 1_000_000 * tokens + 1_000_000
  {
    Whole(rate * (nanos / 1000), tokens);
  }

  lemma Whole(product: nat, tokens: nat)
    requires product < 1_000_000 * 0x1_0000_0000_0000_0000
    ensures product / 1_000_000 % 0x1_0000_0000_0000_0000 == tokens <==>
            1_000_000 * tokens <= product < 1_000_000 * tokens + 1_000_000
  {
  }

  /** A packet is admitted exactly when every limited bucket covers it; it then costs one packet token and its octets, and a
      refused one costs nothing. */
  lemma SpendExactly(limits: RateLimits, r: Buckets, bytes: U64)
    ensures var (next, ok) := Spend(limits, r, bytes);
            && (ok <==> (limits.packetsPerSec > 0 ==> r.packetTokens >= 1) && (limits.bytesPerSec > 0 ==> r.byteTokens >= bytes))
            && next.packetTokens == r.packetTokens - (if ok && limits.packetsPerSec > 0 then 1 else 0)
            && next.byteTokens == r.byteTokens - (if ok && limits.bytesPerSec > 0 then bytes else 0)
            && next.lastRefill == r.lastRefill
  {
  }

  /** A limited call, exactly: both buckets gain what the pause earned, up to the rate, and then pay; the refill is stamped. */
  lemma CallExactly(limits: RateLimits, b: Buckets, bytes: U64, now: nat)
    requires !limits.Unlimited() && b.Within(limits)
    requires b.packetTokens + Earned(limits.packetsPerSec, Elapsed(b.lastRefill, now)) < 0x1_0000_0000_0000_0000
    requires b.byteTokens + Earned(limits.bytesPerSec, Elapsed(b.lastRefill, now)) < 0x1_0000_0000_0000_0000
    ensures var nanos := if now <= b.lastRefill then 0 else now - b.lastRefill;
            TryConsume(limits, b, bytes, now) ==
            Spend(limits,
                  Buckets(Min(limits.packetsPerSec, b.packetTokens + Earned(limits.packetsPerSec, nanos)),
                          Min(limits.bytesPerSec, b.byteTokens + Earned(limits.bytesPerSec, nanos)), b.lastRefill + nanos),
                  bytes)
  {
    var nanos := Elapsed(b.lastRefill, now);
    ToppedExactly(limits.packetsPerSec, b.packetTokens, nanos);
    ToppedExactly(limits.bytesPerSec, b.byteTokens, nanos);
  }

  lemma ToppedExactly(rate: U64, tokens: U64, nanos: nat)
    requires tokens + Earned(rate, nanos) < 0x1_0000_0000_0000_0000 && tokens <= rate
    ensures Topped(rate, tokens, nanos) == Min(rate, tokens + Earned(rate, nanos))
    ensures nanos == 0 ==> Topped(rate, tokens, nanos) == tokens
  {
    if nanos == 0 {
      assert Earned(rate, 0) == 0;
    }
  }

  /** Each call of the sequence comes so soon after the last refill that it earns no packet token. */
  predicate Hasty(rate: U64, last: nat, calls: seq<Call>)
    decreases |calls|
  {
    calls == [] ||
    (rate * (Elapsed(last, calls[0].now) / 1000) < 1_000_000
     && Hasty(rate, if calls[0].now <= last then last else calls[0].now, calls[1..]))
  }

  /** A pause that earns no whole token is lost, not saved up: an empty bucket asked again and again sooner than a token takes
      admits nothing, however long that goes on. */
  lemma {:induction false} HastyStarves(limits: RateLimits, b: Buckets, calls: seq<Call>)
    requires limits.packetsPerSec > 0 && b.packetTokens == 0 && Hasty(limits.packetsPerSec, b.lastRefill, calls)
    ensures Run(limits, b, calls).packets == 0 && Run(limits, b, calls).bytes == 0
    decreases |calls|
  {
    if calls != [] {
      var nanos := Elapsed(b.lastRefill, calls[0].now);
      EarnedExactly(limits.packetsPerSec, nanos, 0);
      var next := TryConsume(limits, b, calls[0].bytes, calls[0].now).0;
      assert next.packetTokens == 0;
      HastyStarves(limits, next, calls[1..]);
    }
  }

  /** Rounding never earns more than the rate allows. */
  lemma EarnedBound(rate: U64, nanos: nat)
    ensures NANOS * Earned(rate, nanos) <= rate * nanos
  {
    var micros := nanos / 1000;
    Monotone(rate, micros * 1000, nanos);
    Associate(rate, micros, 1000);
  }

  lemma ToppedBound(rate: U64, tokens: U64, nanos: nat)
    ensures NANOS * Topped(rate, tokens, nanos) <= NANOS * tokens + rate * nanos
  {
    EarnedBound(rate, nanos);
  }

  /** One call: what is left and what was spent come out of what was there and what was earned. */
  lemma CallBound(limits: RateLimits, b: Buckets, bytes: U64, now: nat)
    requires !limits.Unlimited()
    ensures var (next, ok) := TryConsume(limits, b, bytes, now);
            && next.lastRefill == (if now <= b.lastRefill then b.lastRefill else now)
            && (limits.packetsPerSec > 0 ==>
                  NANOS * (next.packetTokens + (if ok then 1 else 0))
                  <= NANOS * b.packetTokens + limits.packetsPerSec * (next.lastRefill - b.lastRefill))
            && (limits.bytesPerSec > 0 ==>
                  NANOS * (next.byteTokens + (if ok then bytes else 0))
                  <= NANOS * b.byteTokens + limits.bytesPerSec * (next.lastRefill - b.lastRefill))
  {
    var nanos := Elapsed(b.lastRefill, now);
    ToppedBound(limits.packetsPerSec, b.packetTokens, nanos);
    ToppedBound(limits.bytesPerSec, b.byteTokens, nanos);
  }

  lemma CallWithin(limits: RateLimits, b: Buckets, bytes: U64, now: nat)
    requires b.Within(limits)
    ensures TryConsume(limits, b, bytes, now).0.Within(limits)
  {
  }

  /** From a fresh limiter, tokens never exceed the rate, whatever the calls. */
  lemma {:induction false} RunWithin(limits: RateLimits, b: Buckets, calls: seq<Call>)
    requires b.Within(limits)
    ensures Run(limits, b, calls).buckets.Within(limits)
    decreases |calls|
  {
    if calls != [] {
      CallWithin(limits, b, calls[0].bytes, calls[0].now);
      RunWithin(limits, TryConsume(limits, b, calls[0].bytes, calls[0].now).0, calls[1..]);
    }
  }

  /** A run goes on from where its first part left the buckets, and the tallies add up. */
  lemma {:induction false} RunSplit(limits: RateLimits, b: Buckets, before: seq<Call>, calls: seq<Call>)
    ensures var r, t := Run(limits, b, before), Run(limits, Run(limits, b, before).buckets, calls);
            Run(limits, b, before + calls) == Tally(t.buckets, r.packets + t.packets, r.bytes + t.bytes)
    decreases |before|
  {
    if before == [] {
      assert before + calls == calls;
    } else {
      assert (before + calls)[1..] == before[1..] + calls;
      RunSplit(limits, TryConsume(limits, b, before[0].bytes, before[0].now).0, before[1..], calls);
    }
  }

  /** A call is refused because a limited bucket is short, and it spends nothing: a bucket ends below where it was
      exactly when its 64-bit sum wrapped. */
  lemma RefusedSpendsNothing(limits: RateLimits, b: Buckets, bytes: U64, now: nat)
    requires b.Within(limits) && !TryConsume(limits, b, bytes, now).1
    ensures var next := TryConsume(limits, b, bytes, now).0; var nanos := Elapsed(b.lastRefill, now);
            && ((limits.packetsPerSec > 0 && next.packetTokens == 0) || (limits.bytesPerSec > 0 && next.byteTokens < bytes))
            && (next.packetTokens >= b.packetTokens <==>
                b.packetTokens + Earned(limits.packetsPerSec, nanos) < 0x1_0000_0000_0000_0000)
            && (next.byteTokens >= b.byteTokens <==>
                b.byteTokens + Earned(limits.bytesPerSec, nanos) < 0x1_0000_0000_0000_0000)
  {
    var nanos := Elapsed(b.lastRefill, now);
    RefillLower(limits.packetsPerSec, b.packetTokens, nanos);
    RefillLower(limits.bytesPerSec, b.byteTokens, nanos);
  }

  lemma RefillLower(rate: U64, tokens: U64, nanos: nat)
    requires tokens <= rate
    ensures (if nanos == 0 then tokens else Topped(rate, tokens, nanos)) >= tokens <==>
            tokens + Earned(rate, nanos) < 0x1_0000_0000_0000_0000
  {
    if nanos == 0 {
      assert Earned(rate, nanos) == 0;
    } else {
      ToppedLower(rate, tokens, nanos);
    }
  }

  /** The wrap is real: at the largest rate a second's refill of a bucket with a token takes it away. */
  lemma WrapHappens() returns (limits: RateLimits, b: Buckets, bytes: U64, now: nat)
    ensures b.Within(limits) && !TryConsume(limits, b, bytes, now).1
    ensures TryConsume(limits, b, bytes, now).0.byteTokens < b.byteTokens
  {
    limits := RateLimits(0, 0xffff_ffff_ffff_ffff);
    b := Buckets(0, 2, 0);
    bytes, now := 2, NANOS;
    assert Earned(limits.bytesPerSec, NANOS) == 0xffff_ffff_ffff_ffff;
  }

  lemma ToppedLower(rate: U64, tokens: U64, nanos: nat)
    requires tokens <= rate
    ensures Topped(rate, tokens, nanos) >= tokens <==> tokens + Earned(rate, nanos) < 0x1_0000_0000_0000_0000
  {
  }

  /** A second's pause fills a bucket, unless the sum wraps. */
  lemma SecondFills(rate: U64, tokens: U64, nanos: nat)
    requires nanos >= NANOS && rate * (nanos / 1000) / 1_000_000 + tokens < 0x1_0000_0000_0000_0000
    ensures Topped(rate, tokens, nanos) == rate
  {
    SecondEarns(rate, nanos / 1000);
  }

  lemma SecondEarns(rate: nat, micros: nat)
    requires micros >= 1_000_000
    ensures rate * micros / 1_000_000 >= rate
  {
    Monotone(rate, 1_000_000, micros);
  }

  /** Admissions come out of the tokens there were and those earned since. */
  predicate Spends(limits: RateLimits, b: Buckets, t: Tally) {
    && b.lastRefill <= t.buckets.lastRefill
    && (limits.packetsPerSec > 0 ==>
          NANOS * t.packets <= NANOS * b.packetTokens + limits.packetsPerSec * (t.buckets.lastRefill - b.lastRefill))
    && (limits.bytesPerSec > 0 ==>
          NANOS * t.bytes <= NANOS * b.byteTokens + limits.bytesPerSec * (t.buckets.lastRefill - b.lastRefill))
  }

  lemma {:induction false} RunSpends(limits: RateLimits, b: Buckets, calls: seq<Call>)
    requires !limits.Unlimited()
    ensures Spends(limits, b, Run(limits, b, calls))
    decreases |calls|
  {
    if calls != [] {
      var next := TryConsume(limits, b, calls[0].bytes, calls[0].now).0;
      CallBound(limits, b, calls[0].bytes, calls[0].now);
      RunSpends(limits, next, calls[1..]);
      var end := Run(limits, next, calls[1..]).buckets.lastRefill;
      Distribute(limits.packetsPerSec, next.lastRefill - b.lastRefill, end - next.lastRefill);
      Distribute(limits.bytesPerSec, next.lastRefill - b.lastRefill, end - next.lastRefill);
    }
  }

  lemma RunFirst(limits: RateLimits, b: Buckets, calls: seq<Call>)
    requires calls != []
    ensures var (next, ok) := TryConsume(limits, b, calls[0].bytes, calls[0].now);
            var t, later := Run(limits, b, calls), Run(limits, next, calls[1..]);
            && t.packets == (if ok then 1 else 0) + later.packets && t.bytes == (if ok then calls[0].bytes else 0) + later.bytes
  {
  }

  lemma {:induction false} RunClock(limits: RateLimits, b: Buckets, calls: seq<Call>, hi: nat)
    requires forall i :: 0 <= i < |calls| ==> calls[i].now <= hi
    ensures var last := Run(limits, b, calls).buckets.lastRefill; last <= b.lastRefill || last <= hi
    decreases |calls|
  {
    if calls != [] {
      RunClock(limits, TryConsume(limits, b, calls[0].bytes, calls[0].now).0, calls[1..], hi);
    }
  }

  /** One second's rate plus the rate times a window, scaled by the nanoseconds of a second. */
  function Budget(rate: nat, window: nat): nat {
    NANOS * rate + rate * window
  }

  /** What any window of calls admits, whatever came before it: at most one second's rate plus the rate times the length
      of the window, in each limited dimension. The calls need not come in time order. */
  lemma WindowBound(limits: RateLimits, b: Buckets, calls: seq<Call>, lo: nat, hi: nat)
    requires b.Within(limits) && lo <= hi
    requires forall i :: 0 <= i < |calls| ==> lo <= calls[i].now <= hi
    ensures var t := Run(limits, b, calls);
            && (limits.packetsPerSec > 0 ==> NANOS * t.packets <= Budget(limits.packetsPerSec, hi - lo))
            && (limits.bytesPerSec > 0 ==> NANOS * t.bytes <= Budget(limits.bytesPerSec, hi - lo))
  {
    if calls != [] && !limits.Unlimited() {
      var first := calls[0];
      var (next, ok) := TryConsume(limits, b, first.bytes, first.now);
      FirstCall(limits, b, first.bytes, first.now);
      RunFirst(limits, b, calls);
      LaterBound(limits, next, if ok then 1 else 0, if ok then first.bytes else 0, calls[1..], lo, hi);
    }
  }

  /** The calls after one that left `next`, whose own admission is part of the budget. */
  lemma LaterBound(limits: RateLimits, next: Buckets, packets: nat, bytes: nat, calls: seq<Call>, lo: nat, hi: nat)
    requires !limits.Unlimited() && lo <= next.lastRefill && lo <= hi
    requires forall i :: 0 <= i < |calls| ==> calls[i].now <= hi
    requires limits.packetsPerSec > 0 ==> next.packetTokens + packets <= limits.packetsPerSec
    requires limits.bytesPerSec > 0 ==> next.byteTokens + bytes <= limits.bytesPerSec
    ensures var t := Run(limits, next, calls);
            && (limits.packetsPerSec > 0 ==> NANOS * (packets + t.packets) <= Budget(limits.packetsPerSec, hi - lo))
            && (limits.bytesPerSec > 0 ==> NANOS * (bytes + t.bytes) <= Budget(limits.bytesPerSec, hi - lo))
  {
    RunSpends(limits, next, calls);
    RunClock(limits, next, calls, hi);
    CombineBoth(limits, next, packets, bytes, Run(limits, next, calls), hi - lo);
  }

  /** Over the life of a limiter: of all the calls since it was made, those whose times fall in a window of length
      `hi - lo` and come together admit no more than that. */
  lemma LifetimeBound(limits: RateLimits, start: nat, before: seq<Call>, calls: seq<Call>, lo: nat, hi: nat)
    requires lo <= hi && forall i :: 0 <= i < |calls| ==> lo <= calls[i].now <= hi
    ensures var r, t := Run(limits, New(limits, start), before), Run(limits, New(limits, start), before + calls);
            && t.buckets.Within(limits)
            && (limits.packetsPerSec > 0 ==> NANOS * (t.packets - r.packets) <= Budget(limits.packetsPerSec, hi - lo))
            && (limits.bytesPerSec > 0 ==> NANOS * (t.bytes - r.bytes) <= Budget(limits.bytesPerSec, hi - lo))
  {
    var b := New(limits, start);
    RunWithin(limits, b, before);
    RunWithin(limits, b, before + calls);
    RunSplit(limits, b, before, calls);
    WindowBound(limits, Run(limits, b, before).buckets, calls, lo, hi);
  }

  lemma CombineBoth(limits: RateLimits, next: Buckets, packets: nat, bytes: nat, t: Tally, window: nat)
    requires limits.packetsPerSec > 0 ==> next.packetTokens + packets <= limits.packetsPerSec
    requires limits.bytesPerSec > 0 ==> next.byteTokens + bytes <= limits.bytesPerSec
    requires Spends(limits, next, t) && t.buckets.lastRefill - next.lastRefill <= window
    ensures limits.packetsPerSec > 0 ==> NANOS * (packets + t.packets) <= Budget(limits.packetsPerSec, window)
    ensures limits.bytesPerSec > 0 ==> NANOS * (bytes + t.bytes) <= Budget(limits.bytesPerSec, window)
  {
    var span := t.buckets.lastRefill - next.lastRefill;
    if limits.packetsPerSec > 0 {
      Combine(limits.packetsPerSec, packets, next.packetTokens, t.packets, span, window);
    }
    if limits.bytesPerSec > 0 {
      Combine(limits.bytesPerSec, bytes, next.byteTokens, t.bytes, span, window);
    }
  }

  lemma Combine(rate: nat, used: nat, left: nat, later: nat, span: nat, window: nat)
    requires used + left <= rate && NANOS * later <= NANOS * left + rate * span && span <= window
    ensures NANOS * (used + later) <= Budget(rate, window)
  {
    Monotone(rate, span, window);
  }

  /** The first call of a window starts from at most a full bucket. */
  lemma FirstCall(limits: RateLimits, b: Buckets, bytes: U64, now: nat)
    requires b.Within(limits) && !limits.Unlimited()
    ensures var (next, ok) := TryConsume(limits, b, bytes, now);
            && next.lastRefill >= now
            && (limits.packetsPerSec > 0 ==> next.packetTokens + (if ok then 1 else 0) <= limits.packetsPerSec)
            && (limits.bytesPerSec > 0 ==> next.byteTokens + (if ok then bytes else 0) <= limits.bytesPerSec)
  {
  }

  /** `SessionLimiter`. */
  class SessionLimiter {
    const limits: RateLimits
    var packetTokens: U64
    var byteTokens: U64
    var lastRefill: nat

    function View(): Buckets
      reads this
    {
      Buckets(packetTokens, byteTokens, lastRefill)
    }

    constructor (limits: RateLimits, now: nat)
      ensures this.limits == limits && View() == New(limits, now) && View().Within(limits)
    {
      this.limits := limits;
      packetTokens, byteTokens, lastRefill := limits.packetsPerSec, limits.bytesPerSec, now;
    }

    method TryConsumeAt(bytes: U64, now: nat) returns (ok: bool)
      modifies this
      ensures (View(), ok) == TryConsume(limits, old(View()), bytes, now)
    {
      if limits.Unlimited() {
        return true;
      }
      var nanos := Elapsed(lastRefill, now);
      if nanos != 0 {
        packetTokens := Min((packetTokens + Earned(limits.packetsPerSec, nanos)) % 0x1_0000_0000_0000_0000, limits.packetsPerSec);
        byteTokens := Min((byteTokens + Earned(limits.bytesPerSec, nanos)) % 0x1_0000_0000_0000_0000, limits.bytesPerSec);
        lastRefill := now;
      }
      var packetsOk := limits.packetsPerSec == 0 || packetTokens >= 1;
      var bytesOk := limits.bytesPerSec == 0 || byteTokens >= bytes;
      if !(packetsOk && bytesOk) {
        return false;
      }
      if limits.packetsPerSec > 0 {
        packetTokens := packetTokens - 1;
      }
      if limits.bytesPerSec > 0 {
        byteTokens := byteTokens - bytes;
      }
      return true;
    }
  }
}
