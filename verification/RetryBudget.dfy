/** The refilling retry budget of `src/resilience.py`. Tokens and times are
    reals; the clock is an argument of every call. */
module RetryBudget {

  /** What the operator configures; `Settings` refuses anything else. */
  datatype Config = Config(capacity: real, refill: real, refund: real) {
    ghost predicate Valid() {
      capacity >= 1.0 && refill > 0.0 && refund > 0.0
    }
  }

  datatype Bucket = Bucket(tokens: real, last: real)

  function Min(x: real, y: real): real {
    if x <= y then x else y
  }

  function Refill(b: Bucket, c: Config, now: real): Bucket {
    var elapsed := now - b.last;
    Bucket(if elapsed > 0.0 then Min(c.capacity, b.tokens + elapsed * c.refill) else b.tokens, now)
  }

  function Spend(b: Bucket, c: Config, cost: real, now: real): (Bucket, bool) {
    var r := Refill(b, c, now);
    if r.tokens < cost then (r, false) else (r.(tokens := r.tokens - cost), true)
  }

  function Refund(b: Bucket, c: Config, now: real): Bucket {
    var r := Refill(b, c, now);
    r.(tokens := Min(c.capacity, r.tokens + c.refund))
  }

  class RetryBudget {
    const config: Config
    var tokens: real
    var lastRefill: real
    var exhaustions: nat

    function State(): Bucket
      reads this
    {
      Bucket(tokens, lastRefill)
    }

    /** A budget starts full. */
    constructor (config: Config, now: real)
      ensures this.config == config && State() == Bucket(config.capacity, now) && exhaustions == 0
    {
      this.config := config;
      tokens, lastRefill, exhaustions := config.capacity, now, 0;
    }

    method RefillLocked(now: real)
      modifies this
      ensures State() == Refill(old(State()), config, now) && exhaustions == old(exhaustions)
    {
      var elapsed := now - lastRefill;
      lastRefill := now;
      if elapsed > 0.0 {
        tokens := Min(config.capacity, tokens + elapsed * config.refill);
      }
    }

    method TrySpend(cost: real, now: real) returns (granted: bool)
      modifies this
      ensures (State(), granted) == Spend(old(State()), config, cost, now)
      ensures granted <==> cost <= Refill(old(State()), config, now).tokens
      ensures tokens == Refill(old(State()), config, now).tokens - if granted then cost else 0.0
      ensures exhaustions == old(exhaustions) + if granted then 0 else 1
    {
      RefillLocked(now);
      if tokens < cost {
        exhaustions := exhaustions + 1;
        return false;
      }
      tokens := tokens - cost;
      return true;
    }

    method OnSuccess(now: real)
      modifies this
      ensures State() == Refund(old(State()), config, now) && exhaustions == old(exhaustions)
    {
      RefillLocked(now);
      tokens := Min(config.capacity, tokens + config.refund);
    }

    method Tokens(now: real) returns (available: real)
      modifies this
      ensures State() == Refill(old(State()), config, now) && exhaustions == old(exhaustions)
      ensures available == State().tokens
    {
      RefillLocked(now);
      return tokens;
    }
  }

  // ---- Runs ---------------------------------------------------------------

  datatype Call = TrySpend(at: real, cost: real) | OnSuccess(at: real) | ReadTokens(at: real)

  function Apply(b: Bucket, c: Config, e: Call): Bucket {
    match e
    case TrySpend(at, cost) => Spend(b, c, cost, at).0
    case OnSuccess(at) => Refund(b, c, at)
    case ReadTokens(at) => Refill(b, c, at)
  }

  function Run(b: Bucket, c: Config, calls: seq<Call>): Bucket
    decreases calls
  {
    if calls == [] then b else Run(Apply(b, c, calls[0]), c, calls[1..])
  }

  /** The answers the calls for tokens get, in order. */
  function Grants(b: Bucket, c: Config, calls: seq<Call>): seq<bool>
    decreases calls
  {
    if calls == [] then []
    else
      var rest := Grants(Apply(b, c, calls[0]), c, calls[1..]);
      if calls[0].TrySpend? then [Spend(b, c, calls[0].cost, calls[0].at).1] + rest else rest
  }

  function GrantedCost(b: Bucket, c: Config, calls: seq<Call>): real
    decreases calls
  {
    if calls == [] then 0.0
    else
      var rest := GrantedCost(Apply(b, c, calls[0]), c, calls[1..]);
      if calls[0].TrySpend? && Spend(b, c, calls[0].cost, calls[0].at).1 then calls[0].cost + rest else rest
  }

  function Successes(calls: seq<Call>): nat {
    if calls == [] then 0 else Successes(calls[1..]) + if calls[0].OnSuccess? then 1 else 0
  }

  /** The clock never goes back, starting from `from`. */
  ghost predicate Clocked(from: real, calls: seq<Call>)
    decreases calls
  {
    calls != [] ==> from <= calls[0].at && Clocked(calls[0].at, calls[1..])
  }

  /** A retry never has a negative price. */
  ghost predicate Priced(calls: seq<Call>) {
    forall i :: 0 <= i < |calls| && calls[i].TrySpend? ==> calls[i].cost >= 0.0
  }

  /** How far the clock has moved forward in all, whatever it moved back. */
  ghost function Forward(from: real, calls: seq<Call>): real
    decreases calls
  {
    if calls == [] then 0.0
    else (if calls[0].at > from then calls[0].at - from else 0.0) + Forward(calls[0].at, calls[1..])
  }

  /** On an ordered clock that is the time that has passed. */
  lemma {:induction false} ForwardIsElapsed(b: Bucket, c: Config, calls: seq<Call>)
    requires Clocked(b.last, calls)
    ensures Forward(b.last, calls) == Run(b, c, calls).last - b.last
    decreases calls
  {
    if calls != [] { ForwardIsElapsed(Apply(b, c, calls[0]), c, calls[1..]); }
  }

  ghost predicate InBounds(b: Bucket, c: Config) {
    0.0 <= b.tokens <= c.capacity
  }

  lemma RefillBounds(b: Bucket, c: Config, now: real)
    requires c.Valid() && InBounds(b, c)
    ensures InBounds(Refill(b, c, now), c) && b.tokens <= Refill(b, c, now).tokens
  {
    if now > b.last {
      var elapsed := now - b.last;
      NonNegative(elapsed, c.refill);
      Saturates(c.capacity, b.tokens, elapsed * c.refill);
    }
  }

  lemma Saturates(capacity: real, tokens: real, gain: real)
    requires 0.0 <= tokens <= capacity && gain >= 0.0
    ensures tokens <= Min(capacity, tokens + gain) <= capacity
  {
  }

  lemma ApplyBounds(b: Bucket, c: Config, e: Call)
    requires c.Valid() && InBounds(b, c) && (e.TrySpend? ==> e.cost >= 0.0)
    ensures InBounds(Apply(b, c, e), c)
  {
    RefillBounds(b, c, e.at);
  }

  /** Tokens never leave `[0, capacity]`, on any clock. */
  lemma {:induction false} TokensStayInBounds(b: Bucket, c: Config, calls: seq<Call>)
    requires c.Valid() && InBounds(b, c) && Priced(calls)
    ensures InBounds(Run(b, c, calls), c)
    decreases calls
  {
    if calls != [] {
      ApplyBounds(b, c, calls[0]);
      TokensStayInBounds(Apply(b, c, calls[0]), c, calls[1..]);
    }
  }

  /** What is granted and what is left come out of what was there, what the clock
      moved forward and the successes. */
  ghost predicate PaidFor(b: Bucket, end: Bucket, granted: real, forward: real, successes: nat, c: Config) {
    granted + end.tokens <= b.tokens + c.refill * forward + c.refund * successes as real
  }

  /** What of `x` a bucket of that capacity cannot hold. */
  function Over(x: real, capacity: real): real {
    if x > capacity then x - capacity else 0.0
  }

  /** What the refill of a call earns. */
  function Earned(b: Bucket, c: Config, at: real): real {
    if at > b.last then c.refill * (at - b.last) else 0.0
  }

  /** What one call loses to a full bucket, refill and refund together. */
  function Spill(b: Bucket, c: Config, e: Call): real {
    var offered := b.tokens + Earned(b, c, e.at);
    Over(offered, c.capacity) + if e.OnSuccess? then Over(Min(c.capacity, offered) + c.refund, c.capacity) else 0.0
  }

  function Spilled(b: Bucket, c: Config, calls: seq<Call>): real
    decreases calls
  {
    if calls == [] then 0.0 else Spill(b, c, calls[0]) + Spilled(Apply(b, c, calls[0]), c, calls[1..])
  }

  /** What is granted, what is left and what was spilled is what was there, what the
      clock moved forward and the successes. */
  ghost predicate Balanced(b: Bucket, end: Bucket, granted: real, spilled: real, forward: real, successes: nat,
                           c: Config) {
    granted + end.tokens + spilled == b.tokens + c.refill * forward + c.refund * successes as real
  }

  lemma BalancesAdd(b: Bucket, mid: Bucket, end: Bucket, g: real, h: real, s: real, u: real, x: real, y: real,
                    m: nat, n: nat, c: Config)
    requires Balanced(b, mid, g, s, x, m, c) && Balanced(mid, end, h, u, y, n, c)
    ensures Balanced(b, end, g + h, s + u, x + y, m + n, c)
  {
    Distribute(c.refill, x, y);
    Distribute(c.refund, m as real, n as real);
  }

  lemma RefillIsEarned(b: Bucket, c: Config, now: real)
    requires c.Valid() && InBounds(b, c)
    ensures Refill(b, c, now).tokens == b.tokens + Earned(b, c, now) - Over(b.tokens + Earned(b, c, now), c.capacity)
    ensures Refill(b, c, now).tokens == Min(c.capacity, b.tokens + Earned(b, c, now))
  {
    if now > b.last { NonNegative(now - b.last, c.refill); }
  }

  lemma CallBalances(b: Bucket, c: Config, e: Call)
    requires c.Valid() && InBounds(b, c)
    ensures Balanced(b, Apply(b, c, e), if e.TrySpend? && Spend(b, c, e.cost, e.at).1 then e.cost else 0.0,
                     Spill(b, c, e), if e.at > b.last then e.at - b.last else 0.0, if e.OnSuccess? then 1 else 0, c)
  {
    RefillIsEarned(b, c, e.at);
    hide Refill;
  }

  /** The ledger of any run on any clock. */
  lemma {:induction false} Ledger(b: Bucket, c: Config, calls: seq<Call>)
    requires c.Valid() && InBounds(b, c) && Priced(calls)
    ensures Balanced(b, Run(b, c, calls), GrantedCost(b, c, calls), Spilled(b, c, calls),
                     Forward(b.last, calls), Successes(calls), c)
    decreases calls
  {
    if calls != [] {
      var e := calls[0];
      var mid := Apply(b, c, e);
      ApplyBounds(b, c, e);
      CallBalances(b, c, e);
      Ledger(mid, c, calls[1..]);
      BalancesAdd(b, mid, Run(mid, c, calls[1..]),
                  if e.TrySpend? && Spend(b, c, e.cost, e.at).1 then e.cost else 0.0, GrantedCost(mid, c, calls[1..]),
                  Spill(b, c, e), Spilled(mid, c, calls[1..]),
                  if e.at > b.last then e.at - b.last else 0.0, Forward(e.at, calls[1..]),
                  if e.OnSuccess? then 1 else 0, Successes(calls[1..]), c);
    }
  }

  lemma {:induction false} SpilledNotNegative(b: Bucket, c: Config, calls: seq<Call>)
    ensures Spilled(b, c, calls) >= 0.0
    decreases calls
  {
    if calls != [] { SpilledNotNegative(Apply(b, c, calls[0]), c, calls[1..]); }
  }

  /** No refill and no refund of the run meets the capacity. */
  ghost predicate Roomy(b: Bucket, c: Config, calls: seq<Call>)
    decreases calls
  {
    calls != [] ==>
      && b.tokens + Earned(b, c, calls[0].at) + (if calls[0].OnSuccess? then c.refund else 0.0) <= c.capacity
      && Roomy(Apply(b, c, calls[0]), c, calls[1..])
  }

  lemma {:induction false} RoomySpillsNothing(b: Bucket, c: Config, calls: seq<Call>)
    requires c.Valid() && InBounds(b, c) && Priced(calls)
    ensures Spilled(b, c, calls) == 0.0 <==> Roomy(b, c, calls)
    decreases calls
  {
    if calls != [] {
      ApplyBounds(b, c, calls[0]);
      RoomySpillsNothing(Apply(b, c, calls[0]), c, calls[1..]);
      SpilledNotNegative(Apply(b, c, calls[0]), c, calls[1..]);
    }
  }

  /** Nothing gets lost if and only if no refill and no refund meets the capacity. */
  lemma NothingLostIff(b: Bucket, c: Config, calls: seq<Call>)
    requires c.Valid() && InBounds(b, c) && Priced(calls)
    ensures GrantedCost(b, c, calls) + Run(b, c, calls).tokens
            == b.tokens + c.refill * Forward(b.last, calls) + c.refund * Successes(calls) as real
            <==> Roomy(b, c, calls)
  {
    hide Run, GrantedCost, Spilled, Forward, Successes, Roomy;
    Ledger(b, c, calls);
    RoomySpillsNothing(b, c, calls);
    var out := GrantedCost(b, c, calls) + Run(b, c, calls).tokens;
    var offered := b.tokens + c.refill * Forward(b.last, calls) + c.refund * Successes(calls) as real;
    assert out + Spilled(b, c, calls) == offered;
  }

  /** Two spends at one moment are both granted iff the tokens there are cover both. */
  lemma TwoSpends(b: Bucket, c: Config, x: real, y: real, now: real)
    requires y >= 0.0
    ensures var first := Spend(b, c, x, now);
            first.1 && Spend(first.0, c, y, now).1 <==> x + y <= Refill(b, c, now).tokens
  {
  }

  /** For every clock. */
  lemma CostIsPaidFor(b: Bucket, c: Config, calls: seq<Call>)
    requires c.Valid() && InBounds(b, c) && Priced(calls)
    ensures PaidFor(b, Run(b, c, calls), GrantedCost(b, c, calls), Forward(b.last, calls), Successes(calls), c)
  {
    Ledger(b, c, calls);
    SpilledNotNegative(b, c, calls);
  }

  lemma NonNegative(x: real, y: real)
    requires x >= 0.0 && y >= 0.0
    ensures x * y >= 0.0 && x * y == y * x
  {
  }

  lemma Distribute(k: real, x: real, y: real)
    ensures k * (x + y) == k * x + k * y
  {
  }

  /** One full bucket, what the time refilled and what the successes refunded. */
  ghost function Allowance(time: real, successes: nat, c: Config): real {
    c.capacity + c.refill * time + c.refund * successes as real
  }

  lemma PaidWithinAllowance(b: Bucket, end: Bucket, granted: real, time: real, successes: nat, c: Config)
    requires PaidFor(b, end, granted, time, successes, c) && b.tokens <= c.capacity && end.tokens >= 0.0
    ensures granted <= Allowance(time, successes, c)
  {
    var earned, refunded := c.refill * time, c.refund * successes as real;
    assert granted + end.tokens <= b.tokens + earned + refunded;
  }

  /** For every clock: the retries granted cost no more than a full bucket, what
      the clock moved forward and the successes. */
  lemma GrantBoundAnyClock(b: Bucket, c: Config, calls: seq<Call>)
    requires c.Valid() && InBounds(b, c) && Priced(calls)
    ensures GrantedCost(b, c, calls) <= Allowance(Forward(b.last, calls), Successes(calls), c)
  {
    CostIsPaidFor(b, c, calls);
    TokensStayInBounds(b, c, calls);
    PaidWithinAllowance(b, Run(b, c, calls), GrantedCost(b, c, calls), Forward(b.last, calls), Successes(calls), c);
  }

  /** The stretch `calls[i..j]` of a run from a full bucket keeps to the time that
      has passed in it. */
  ghost predicate GrantBound(c: Config, start: real, calls: seq<Call>, i: nat, j: nat)
    requires i <= j <= |calls|
  {
    var b := Run(Bucket(c.capacity, start), c, calls[..i]);
    var end := Run(b, c, calls[i..j]);
    GrantedCost(b, c, calls[i..j]) <= Allowance(end.last - b.last, Successes(calls[i..j]), c)
  }

  ghost predicate Stamped(calls: seq<Call>, times: seq<real>) {
    |calls| == |times| && forall i :: 0 <= i < |calls| ==> calls[i].at == times[i]
  }

  function Before(start: real, times: seq<real>, i: nat): real
    requires i <= |times|
  {
    if i == 0 then start else times[i - 1]
  }

  /** The clock never goes back between two calls. */
  ghost predicate Ordered(start: real, times: seq<real>) {
    forall i :: 0 <= i < |times| ==> Before(start, times, i) <= times[i]
  }

  /** Whatever is called at these times, every stretch keeps the bound. */
  ghost predicate BoundHolds(c: Config, start: real, times: seq<real>) {
    forall calls, i: nat, j: nat :: Stamped(calls, times) && Priced(calls) && i <= j <= |calls| ==>
      GrantBound(c, start, calls, i, j)
  }

  lemma {:induction false} LastStamp(b: Bucket, c: Config, calls: seq<Call>)
    ensures Run(b, c, calls).last == if calls == [] then b.last else calls[|calls| - 1].at
    decreases calls
  {
    if calls != [] { LastStamp(Apply(b, c, calls[0]), c, calls[1..]); }
  }

  lemma {:induction false} ClockedSlice(start: real, times: seq<real>, calls: seq<Call>, i: nat, j: nat)
    requires Ordered(start, times) && Stamped(calls, times) && i <= j <= |calls|
    ensures Clocked(Before(start, times, i), calls[i..j])
    decreases j - i
  {
    if i < j {
      ClockedSlice(start, times, calls, i + 1, j);
      assert calls[i..j][1..] == calls[i + 1..j];
    }
  }

  lemma OrderedKeepsBound(c: Config, start: real, times: seq<real>, calls: seq<Call>, i: nat, j: nat)
    requires c.Valid() && Ordered(start, times) && Stamped(calls, times) && Priced(calls) && i <= j <= |calls|
    ensures GrantBound(c, start, calls, i, j)
  {
    var full := Bucket(c.capacity, start);
    var b, stretch := Run(full, c, calls[..i]), calls[i..j];
    TokensStayInBounds(full, c, calls[..i]);
    LastStamp(full, c, calls[..i]);
    ClockedSlice(start, times, calls, i, j);
    hide Run, Clocked, GrantedCost, Successes, Forward;
    GrantBoundAnyClock(b, c, stretch);
    ForwardIsElapsed(b, c, stretch);
  }

  /** Over every stretch of every run the retries granted cost no more than
      capacity, elapsed refill and refunds if and only if the clock never goes
      back between two calls. */
  lemma GrantBoundIff(c: Config, start: real, times: seq<real>)
    requires c.Valid()
    ensures BoundHolds(c, start, times) <==> Ordered(start, times)
  {
    if Ordered(start, times) {
      forall calls, i: nat, j: nat | Stamped(calls, times) && Priced(calls) && i <= j <= |calls|
        ensures GrantBound(c, start, calls, i, j)
      {
        OrderedKeepsBound(c, start, times, calls, i, j);
      }
    } else {
      var i :| 0 <= i < |times| && times[i] < Before(start, times, i);
      var calls := SpendAt(c, times, i);
      BackwardStepMints(c, start, times, i);
      hide GrantBound, SpendAt;
      assert !GrantBound(c, start, calls, i, i + 1);
    }
  }

  /** Reads at every time but the `i`th, where a full bucket is asked for. */
  function SpendAt(c: Config, times: seq<real>, i: nat): (calls: seq<Call>)
    ensures |calls| == |times|
    ensures forall k :: 0 <= k < |times| ==>
              calls[k] == if k == i then TrySpend(times[k], c.capacity) else ReadTokens(times[k])
  {
    seq(|times|, k requires 0 <= k < |times| => if k == i then TrySpend(times[k], c.capacity) else ReadTokens(times[k]))
  }

  lemma {:induction false} ReadsKeepFull(b: Bucket, c: Config, calls: seq<Call>)
    requires c.Valid() && b.tokens == c.capacity && forall k :: 0 <= k < |calls| ==> calls[k].ReadTokens?
    ensures Run(b, c, calls).tokens == c.capacity
    decreases calls
  {
    if calls != [] {
      RefillBounds(b, c, calls[0].at);
      ReadsKeepFull(Apply(b, c, calls[0]), c, calls[1..]);
    }
  }

  /** Where the clock goes back, one call gets a full bucket for less than no time. */
  lemma BackwardStepMints(c: Config, start: real, times: seq<real>, i: nat)
    requires c.Valid() && i < |times| && times[i] < Before(start, times, i)
    ensures Stamped(SpendAt(c, times, i), times) && Priced(SpendAt(c, times, i))
    ensures !GrantBound(c, start, SpendAt(c, times, i), i, i + 1)
  {
    var calls, full := SpendAt(c, times, i), Bucket(c.capacity, start);
    ReadsKeepFull(full, c, calls[..i]);
    LastStamp(full, c, calls[..i]);
    var b := Run(full, c, calls[..i]);
    assert calls[i..i + 1] == [calls[i]];
    OneSpend(b, c, calls[i].at);
    hide Run, GrantedCost, Successes, SpendAt;
    assert c.refill * (times[i] - b.last) < 0.0 by { NegativeProduct(c.refill, times[i] - b.last); }
  }

  lemma NegativeProduct(x: real, y: real)
    requires x > 0.0 && y < 0.0
    ensures x * y < 0.0
  {
  }

  lemma OneSpend(b: Bucket, c: Config, at: real)
    requires c.Valid() && b.tokens == c.capacity && at <= b.last
    ensures var calls := [TrySpend(at, c.capacity)];
            GrantedCost(b, c, calls) == c.capacity && Run(b, c, calls).last == at && Successes(calls) == 0
  {
    var e := TrySpend(at, c.capacity);
    assert [e][1..] == [];
  }

  // ---- Reading the tokens changes nothing ------------------------------------

  /** Saturating refill composes: looking in between does not change what a
      later call finds. */
  lemma RefillComposes(b: Bucket, c: Config, mid: real, now: real)
    requires c.Valid() && b.tokens <= c.capacity && b.last <= mid <= now
    ensures Refill(Refill(b, c, mid), c, now) == Refill(b, c, now)
  {
    Distribute(c.refill, mid - b.last, now - mid);
    NonNegative(mid - b.last, c.refill);
    NonNegative(now - mid, c.refill);
    NonNegative(now - b.last, c.refill);
  }

  function WithoutReads(calls: seq<Call>): seq<Call> {
    if calls == [] then [] else (if calls[0].ReadTokens? then [] else [calls[0]]) + WithoutReads(calls[1..])
  }

  /** Two buckets that no later call can tell apart. */
  ghost predicate Alike(b: Bucket, b': Bucket, c: Config, now: real) {
    && InBounds(b, c) && InBounds(b', c) && b.last <= now && b'.last <= now
    && Refill(b, c, now).tokens == Refill(b', c, now).tokens
  }

  lemma AlikeLater(b: Bucket, b': Bucket, c: Config, now: real, later: real)
    requires c.Valid() && Alike(b, b', c, now) && now <= later
    ensures Refill(b, c, later) == Refill(b', c, later)
  {
    RefillComposes(b, c, now, later);
    RefillComposes(b', c, now, later);
  }

  /** Erasing every read of the tokens from a run, or putting reads in anywhere,
      changes no answer to any call for tokens. */
  lemma {:induction false} ReadsChangeNoGrant(b: Bucket, b': Bucket, c: Config, now: real, calls: seq<Call>)
    requires c.Valid() && Alike(b, b', c, now) && Clocked(now, calls) && Priced(calls)
    ensures Grants(b, c, calls) == Grants(b', c, WithoutReads(calls))
    decreases |calls|
  {
    if calls != [] {
      var e := calls[0];
      AlikeLater(b, b', c, now, e.at);
      ApplyBounds(b, c, e);
      ApplyBounds(b', c, e);
      if e.ReadTokens? {
        RefillComposes(b, c, e.at, e.at);
        ReadsChangeNoGrant(Apply(b, c, e), b', c, e.at, calls[1..]);
        assert WithoutReads(calls) == WithoutReads(calls[1..]);
      } else {
        ReadsChangeNoGrant(Apply(b, c, e), Apply(b', c, e), c, e.at, calls[1..]);
        assert WithoutReads(calls)[0] == e && WithoutReads(calls)[1..] == WithoutReads(calls[1..]);
      }
    }
  }

  /** Two runs that differ only in where the tokens are read grant the same. */
  lemma SameGrants(b: Bucket, c: Config, calls: seq<Call>, calls': seq<Call>)
    requires c.Valid() && InBounds(b, c) && Clocked(b.last, calls) && Clocked(b.last, calls')
    requires Priced(calls) && Priced(calls')
    requires WithoutReads(calls) == WithoutReads(calls')
    ensures Grants(b, c, calls) == Grants(b, c, calls')
  {
    ReadsChangeNoGrant(b, b, c, b.last, calls);
    ReadsChangeNoGrant(b, b, c, b.last, calls');
  }

  // ---- Exhaustion ends ---------------------------------------------------------

  /** A refused caller that waits for the missing tokens to refill is granted,
      and one that asks earlier, with nothing earned meanwhile, is not. */
  lemma RefusalEnds(b: Bucket, c: Config, cost: real, now: real, later: real)
    requires c.Valid() && InBounds(b, c) && b.last <= now <= later && cost <= c.capacity
    requires !Spend(b, c, cost, now).1
    ensures var left := Spend(b, c, cost, now).0;
            Spend(left, c, cost, later).1 <==> c.refill * (later - now) >= cost - left.tokens
  {
    RefillBounds(b, c, now);
  }
}
