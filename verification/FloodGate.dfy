/**
 The outbound token bucket. Bytes are tokens, up to `max` of them, refilled at `rate`
 a second; time and tokens are real numbers.

 Each call refills for the time since the last refill, and is granted whole or not
 at all. The bound on a run is proved by its budget: the tokens there are and what
 trickles in until the end of the stretch, which every call lowers by at least what
 it lets through.
 */
module FloodGates {

  datatype Bucket = Bucket(tokens: real, max: real, rate: real, last: real) {
    ghost predicate Valid() {
      0.0 <= tokens <= max && 0.0 < max && 0.0 < rate
    }
  }

  datatype Call = Call(n: int, at: real)

  /** What trickles in over a time. */
  function Gain(time: real, rate: real): real {
    time * rate
  }

  function Refilled(b: Bucket, now: real): Bucket {
    if now - b.last > 0.0 then
      var filled := b.tokens + Gain(now - b.last, b.rate);
      b.(tokens := if filled > b.max then b.max else filled, last := now)
    else b
  }

  predicate Granted(b: Bucket, c: Call) {
    c.n <= 0 || c.n as real <= Refilled(b, c.at).tokens
  }

  function After(b: Bucket, c: Call): Bucket {
    if c.n <= 0 then b
    else if Granted(b, c) then Refilled(b, c.at).(tokens := Refilled(b, c.at).tokens - c.n as real)
    else Refilled(b, c.at)
  }

  function Bytes(b: Bucket, c: Call): real {
    if c.n > 0 && Granted(b, c) then c.n as real else 0.0
  }

  /** The bytes let through by the calls made between t1 and t2. */
  function Spent(b: Bucket, calls: seq<Call>, t1: real, t2: real): real
    decreases |calls|
  {
    if calls == [] then 0.0
    else
      (if t1 <= calls[0].at <= t2 then Bytes(b, calls[0]) else 0.0) + Spent(After(b, calls[0]), calls[1..], t1, t2)
  }

  function Run(b: Bucket, calls: seq<Call>): Bucket
    decreases |calls|
  {
    if calls == [] then b else Run(After(b, calls[0]), calls[1..])
  }

  /** The clock does not go back. */
  ghost predicate Forward(calls: seq<Call>) {
    forall i, j | 0 <= i < j < |calls| :: calls[i].at <= calls[j].at
  }

  lemma GainMonotone(a: real, b: real, r: real)
    requires a <= b && 0.0 < r
    ensures Gain(a, r) <= Gain(b, r)
  {
    GainPositive(b - a, r);
    GainAdd(b - a, a, r);
  }

  lemma GainPositive(a: real, r: real)
    requires 0.0 <= a && 0.0 < r
    ensures 0.0 <= Gain(a, r)
    ensures 0.0 < a ==> 0.0 < Gain(a, r)
  {
  }

  lemma GainAdd(a: real, b: real, r: real)
    ensures Gain(a, r) + Gain(b, r) == Gain(a + b, r)
  {
  }

  lemma RefilledValid(b: Bucket, now: real)
    requires b.Valid()
    ensures Refilled(b, now).Valid() && b.tokens <= Refilled(b, now).tokens
    ensures Refilled(b, now).max == b.max && Refilled(b, now).rate == b.rate
    ensures Refilled(b, now).last == if now > b.last then now else b.last
  {
    hide Gain;
    if now - b.last > 0.0 {
      GainPositive(now - b.last, b.rate);
    }
  }

  lemma AfterValid(b: Bucket, c: Call)
    requires b.Valid()
    ensures After(b, c).Valid() && After(b, c).max == b.max && After(b, c).rate == b.rate
  {
    RefilledValid(b, c.at);
  }

  /** Whatever the calls and whatever the clock, the tokens stay between 0 and max. */
  lemma {:induction false} RunValid(b: Bucket, calls: seq<Call>)
    requires b.Valid()
    ensures Run(b, calls).Valid() && Run(b, calls).max == b.max
    decreases |calls|
  {
    if calls != [] {
      AfterValid(b, calls[0]);
      RunValid(After(b, calls[0]), calls[1..]);
    }
  }

  /** The tokens now and what trickles in until t2. */
  function Budget(b: Bucket, t2: real): real {
    b.tokens + (if t2 > b.last then Gain(t2 - b.last, b.rate) else 0.0)
  }

  /** A call lowers the budget at least by what it lets through. */
  lemma StepBudget(b: Bucket, c: Call, t2: real)
    requires b.Valid() && c.at <= t2
    ensures Bytes(b, c) + Budget(After(b, c), t2) <= Budget(b, t2)
  {
    hide Refilled, Gain;
    RefilledValid(b, c.at);
    RefillBudget(b, c.at, t2);
  }

  lemma RefillBudget(b: Bucket, now: real, t2: real)
    requires b.Valid() && now <= t2
    ensures Budget(Refilled(b, now), t2) <= Budget(b, t2)
  {
    hide Gain;
    if now > b.last {
      GainAdd(now - b.last, t2 - now, b.rate);
      assert (now - b.last) + (t2 - now) == t2 - b.last;
    }
  }

  /** Once the clock has passed t2, nothing counts. */
  lemma {:induction false} SpentLater(b: Bucket, calls: seq<Call>, t1: real, t2: real)
    requires forall k | 0 <= k < |calls| :: calls[k].at > t2
    ensures Spent(b, calls, t1, t2) == 0.0
    decreases |calls|
  {
    if calls != [] {
      SpentLater(After(b, calls[0]), calls[1..], t1, t2);
    }
  }

  lemma BudgetNatural(b: Bucket, t2: real)
    requires b.Valid()
    ensures 0.0 <= Budget(b, t2)
  {
    hide Gain;
    if t2 > b.last {
      GainPositive(t2 - b.last, b.rate);
    }
  }

  /** From inside the interval on, what is let through stays within the budget. */
  lemma {:induction false} SpentWithin(b: Bucket, calls: seq<Call>, t1: real, t2: real)
    requires b.Valid() && Forward(calls) && forall k | 0 <= k < |calls| :: t1 <= calls[k].at
    ensures Spent(b, calls, t1, t2) <= Budget(b, t2)
    decreases |calls|
  {
    hide Budget, After, Bytes, Gain;
    BudgetNatural(b, t2);
    if calls != [] {
      if calls[0].at <= t2 {
        AfterValid(b, calls[0]);
        StepBudget(b, calls[0], t2);
        SpentWithin(After(b, calls[0]), calls[1..], t1, t2);
      } else {
        SpentLater(b, calls, t1, t2);
      }
    }
  }

  /** At the first call of the interval that asks for bytes the bucket is at most full. */
  lemma FirstCall(b: Bucket, c: Call, t1: real, t2: real)
    requires b.Valid() && t1 <= c.at <= t2 && c.n > 0
    ensures Bytes(b, c) + Budget(After(b, c), t2) <= b.max + Gain(t2 - t1, b.rate)
  {
    hide Refilled, Gain;
    RefilledValid(b, c.at);
    FullBudget(Refilled(b, c.at), t1, t2);
  }

  lemma FullBudget(b: Bucket, t1: real, t2: real)
    requires b.Valid() && t1 <= t2 && t1 <= b.last
    ensures Budget(b, t2) <= b.max + Gain(t2 - t1, b.rate)
  {
    hide Gain;
    GainPositive(t2 - t1, b.rate);
    if t2 > b.last {
      GainMonotone(t2 - b.last, t2 - t1, b.rate);
    }
  }

  lemma NothingAsked(b: Bucket, c: Call)
    requires c.n <= 0
    ensures After(b, c) == b && Bytes(b, c) == 0.0
  {
  }

  lemma {:induction false} SpentInside(b: Bucket, calls: seq<Call>, t1: real, t2: real)
    requires b.Valid() && t1 <= t2 && Forward(calls) && forall k | 0 <= k < |calls| :: t1 <= calls[k].at
    ensures Spent(b, calls, t1, t2) <= b.max + Gain(t2 - t1, b.rate)
    decreases |calls|
  {
    hide Budget, Refilled, Gain, After, Bytes;
    GainPositive(t2 - t1, b.rate);
    if calls == [] {
    } else if calls[0].at > t2 {
      SpentLater(b, calls, t1, t2);
    } else if calls[0].n <= 0 {
      NothingAsked(b, calls[0]);
      SpentInside(b, calls[1..], t1, t2);
    } else {
      FirstCall(b, calls[0], t1, t2);
      AfterValid(b, calls[0]);
      SpentWithin(After(b, calls[0]), calls[1..], t1, t2);
    }
  }

  lemma {:induction false} SpentAnywhere(b: Bucket, calls: seq<Call>, t1: real, t2: real)
    requires b.Valid() && t1 <= t2 && Forward(calls)
    ensures Spent(b, calls, t1, t2) <= b.max + Gain(t2 - t1, b.rate)
    decreases |calls|
  {
    hide Bytes, After, Gain;
    if calls == [] || t1 <= calls[0].at {
      SpentInside(b, calls, t1, t2);
    } else {
      AfterValid(b, calls[0]);
      SpentAnywhere(After(b, calls[0]), calls[1..], t1, t2);
    }
  }

  /** In any stretch of a run, however long before it and after, at most burst + rate * time goes through. */
  lemma SpentBound(b: Bucket, calls: seq<Call>, t1: real, t2: real)
    requires b.Valid() && t1 <= t2 && Forward(calls)
    ensures Spent(b, calls, t1, t2) <= b.max + (t2 - t1) * b.rate
  {
    hide Spent, Forward;
    SpentAnywhere(b, calls, t1, t2);
  }

  /** A request of no more than max is granted from exactly (n - tokens) / rate seconds after the last refill on. */
  lemma GrantedExactly(b: Bucket, c: Call)
    requires b.Valid() && b.tokens < c.n as real <= b.max
    ensures Granted(b, c) <==> c.at >= b.last + (c.n as real - b.tokens) / b.rate
  {
    hide Gain;
    var need := c.n as real - b.tokens;
    var wait, idle := need / b.rate, c.at - b.last;
    WaitGains(need, b.rate);
    if idle >= wait {
      GainMonotone(wait, idle, b.rate);
    } else {
      GainPositive(wait - idle, b.rate);
      GainAdd(wait - idle, idle, b.rate);
    }
  }

  lemma WaitGains(need: real, r: real)
    requires 0.0 < need && 0.0 < r
    ensures 0.0 < need / r && Gain(need / r, r) == need
  {
  }

  /** Beyond the burst nothing is ever granted. */
  lemma NeverBeyondBurst(b: Bucket, calls: seq<Call>, c: Call)
    requires b.Valid() && c.n as real > b.max
    ensures !Granted(Run(b, calls), c)
  {
    RunValid(b, calls);
    RefilledValid(Run(b, calls), c.at);
  }

  class FloodGate {
    var tokens: real
    const max: real
    const rate: real
    var last: real

    function Model(): Bucket
      reads this
    {
      Bucket(tokens, max, rate, last)
    }

    constructor (rate: int, burst: int, now: real)
      requires rate > 0 && burst > 0
      ensures Model() == Bucket(burst as real, burst as real, rate as real, now)
    {
      this.tokens, this.max, this.rate, this.last := burst as real, burst as real, rate as real, now;
    }

    /** Takes n bytes from the bucket; false when the write is to be dropped. `now` is the clock's reading. */
    method Allow(n: int, now: real) returns (ok: bool)
      requires Model().Valid()
      modifies this
      ensures Model().Valid()
      ensures ok == Granted(old(Model()), Call(n, now))
      ensures Model() == After(old(Model()), Call(n, now))
    {
      hide Gain;
      AfterValid(Model(), Call(n, now));
      if n <= 0 {
        return true;
      }
      var elapsed := now - last;
      if elapsed > 0.0 {
        tokens := tokens + Gain(elapsed, rate);
        if tokens > max {
          tokens := max;
        }
        last := now;
      }
      if tokens < n as real {
        return false;
      }
      tokens := tokens - n as real;
      ok := true;
    }
  }

  /** No gate, and so no limit, for a rate or a burst that is not positive. */
  method NewFloodGate(rate: int, burst: int, now: real) returns (g: FloodGate?)
    ensures g == null <==> rate <= 0 || burst <= 0
    ensures g != null ==> fresh(g) && g.Model().Valid()
    ensures g != null ==> g.Model() == Bucket(burst as real, burst as real, rate as real, now)
  {
    if rate <= 0 || burst <= 0 {
      return null;
    }
    g := new FloodGate(rate, burst, now);
  }

  /** The call as the session makes it, gate or no gate. */
  method Allow(g: FloodGate?, n: int, now: real) returns (ok: bool)
    requires g != null ==> g.Model().Valid()
    modifies g
    ensures g == null ==> ok
    ensures g != null ==> g.Model().Valid() && g.Model() == After(old(g.Model()), Call(n, now))
    ensures g != null ==> ok == Granted(old(g.Model()), Call(n, now))
  {
    if g == null {
      return true;
    }
    ok := g.Allow(n, now);
  }

  /** The tokens a bucket has at a time, in numbers: refilled at the rate while the clock goes on, up to the burst. */
  ghost function TokensAt(b: Bucket, now: real): real {
    var more := if now > b.last then (now - b.last) * b.rate else 0.0;
    if now > b.last && b.tokens + more > b.max then b.max else b.tokens + more
  }

  /** A grant takes exactly what was asked for, a refusal nothing, and asking for nothing leaves the bucket alone. */
  lemma AfterExactly(b: Bucket, c: Call)
    ensures c.n <= 0 ==> Granted(b, c) && After(b, c) == b
    ensures c.n > 0 ==> (Granted(b, c) <==> c.n as real <= TokensAt(b, c.at))
    ensures c.n > 0 ==>
      After(b, c).tokens == TokensAt(b, c.at) - if Granted(b, c) then c.n as real else 0.0
    ensures c.n > 0 ==> After(b, c).last == if c.at > b.last then c.at else b.last
    ensures After(b, c).max == b.max && After(b, c).rate == b.rate
  {
  }
}
