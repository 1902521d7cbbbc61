/** The token bucket of gateway/src/rate_limit.c, over the reals instead of doubles. Each call reads
    the clock twice: once to refill, once to set the time of the last request. */
module TokenBucket {

  datatype Bucket = Bucket(capacity: real, available: real, rate: real, last: nat)

  /** Milliseconds on a clock that does not go back: first and second reading of one call. */
  datatype Reads = Reads(first: nat, second: nat)

  /** What flows in during `ms` milliseconds. */
  function Inflow(rate: real, ms: int): (x: real) { ms as real / 1000.0 * rate }

  function Refilled(b: Bucket, now: nat): (x: real)
  {
    var full := b.available + Inflow(b.rate, now - b.last);
    if full > b.capacity then b.capacity else full
  }

  function Allows(b: Bucket, now: nat): (ok: bool) { Refilled(b, now) >= 1.0 }

  function After(b: Bucket, r: Reads): (b': Bucket)
  {
    b.(available := Refilled(b, r.first) - (if Allows(b, r.first) then 1.0 else 0.0), last := r.second)
  }

  class Limiter {
    var capacity: real
    var available: real
    var rate: real
    var last: nat

    ghost function State(): (b: Bucket)
      reads this
    {
      Bucket(capacity, available, rate, last)
    }

    constructor (capacity: real, rate: real, now: nat)
      ensures State() == Full(capacity, rate, now)
    {
      this.capacity, this.available, this.rate, this.last := capacity, capacity, rate, now;
    }

    method RequestAllow(r: Reads) returns (ok: bool)
      requires last <= r.first <= r.second
      modifies this
      ensures ok == Allows(old(State()), r.first) && State() == After(old(State()), r)
    {
      var elapsed := (r.first - last) as real / 1000.0;
      available := available + elapsed * rate;
      if available > capacity {
        available := capacity;
      }
      last := r.second;
      if available < 1.0 {
        return false;
      }
      available := available - 1.0;
      return true;
    }
  }

  function Full(capacity: real, rate: real, now: nat): (b: Bucket) { Bucket(capacity, capacity, rate, now) }

  // ---- Runs ----

  /** The readings of a run of calls, in order on the clock. */
  ghost predicate Ordered(start: nat, calls: seq<Reads>)
  {
    && (forall k :: 0 <= k < |calls| ==> start <= calls[k].first <= calls[k].second)
    && (forall j, k :: 0 <= j < k < |calls| ==> calls[j].second <= calls[k].first)
  }

  /** The bucket before call `k` of a run that starts with a full bucket. */
  function Before(capacity: real, rate: real, start: nat, calls: seq<Reads>, k: nat): (b: Bucket)
    requires k <= |calls|
    decreases k
  {
    if k == 0 then Full(capacity, rate, start) else After(Before(capacity, rate, start, calls, k - 1), calls[k - 1])
  }

  /** How many of the calls `i` to `j - 1` are allowed. */
  function Granted(capacity: real, rate: real, start: nat, calls: seq<Reads>, i: nat, j: nat): (n: nat)
    requires i <= j <= |calls|
    decreases j
  {
    if i == j then 0
    else
      Granted(capacity, rate, start, calls, i, j - 1) +
      (if Allows(Before(capacity, rate, start, calls, j - 1), calls[j - 1].first) then 1 else 0)
  }

  lemma InflowPositive(rate: real, ms: int)
    requires rate >= 0.0 && ms >= 0
    ensures Inflow(rate, ms) >= 0.0
  {
  }

  lemma InflowSum(rate: real, a: int, b: int)
    ensures Inflow(rate, a + b) == Inflow(rate, a) + Inflow(rate, b)
  {
  }

  /** In every run the tokens stay between zero and the capacity. */
  lemma {:induction false} TokensInRange(capacity: real, rate: real, start: nat, calls: seq<Reads>, k: nat)
    requires capacity >= 0.0 && rate >= 0.0 && Ordered(start, calls) && k <= |calls|
    ensures var b := Before(capacity, rate, start, calls, k);
            && b.capacity == capacity && b.rate == rate && 0.0 <= b.available <= capacity
            && b.last == (if k == 0 then start else calls[k - 1].second)
    decreases k
  {
    if k > 0 {
      TokensInRange(capacity, rate, start, calls, k - 1);
      var b := Before(capacity, rate, start, calls, k - 1);
      assert k > 1 ==> calls[k - 2].second <= calls[k - 1].first;
      InflowPositive(rate, calls[k - 1].first - b.last);
    }
  }

  lemma LastBeforeCall(start: nat, calls: seq<Reads>, k: nat)
    requires Ordered(start, calls) && k < |calls|
    ensures (if k == 0 then start else calls[k - 1].second) <= calls[k].first
    ensures k > 0 ==> calls[k - 1].first <= calls[k - 1].second <= calls[k].first
  {
    assert k > 0 ==> calls[k - 1].second <= calls[k].first;
  }

  /** The tokens left plus those granted since call `i` never exceed the capacity plus the inflow. */
  lemma {:induction false} Potential(capacity: real, rate: real, start: nat, calls: seq<Reads>, i: nat, j: nat)
    requires capacity >= 0.0 && rate >= 0.0 && Ordered(start, calls) && i < j <= |calls|
    ensures Before(capacity, rate, start, calls, j).available + Granted(capacity, rate, start, calls, i, j) as real
              <= capacity + Inflow(rate, calls[j - 1].first - calls[i].first)
    decreases j
  {
    hide Inflow, Ordered;
    var b := Before(capacity, rate, start, calls, j - 1);
    TokensInRange(capacity, rate, start, calls, j - 1);
    LastBeforeCall(start, calls, j - 1);
    if i == j - 1 {
      InflowPositive(rate, 0);
      assert Granted(capacity, rate, start, calls, i, i) == 0;
    } else {
      Potential(capacity, rate, start, calls, i, j - 1);
      PotentialStep(rate, calls[i].first, calls[j - 2].first, calls[j - 2].second, calls[j - 1].first);
    }
  }

  lemma PotentialStep(rate: real, i: nat, first: nat, second: nat, now: nat)
    requires rate >= 0.0 && first <= second <= now
    ensures Inflow(rate, first - i) + Inflow(rate, now - second) <= Inflow(rate, now - i)
  {
    InflowSum(rate, first - i, now - second);
    InflowSum(rate, first - i + (now - second), second - first);
    InflowPositive(rate, second - first);
  }

  /** Between any two calls of any run, at most the capacity plus the rate times the elapsed time is
      granted. */
  lemma GrantedBounded(capacity: real, rate: real, start: nat, calls: seq<Reads>, i: nat, j: nat)
    requires capacity >= 0.0 && rate >= 0.0 && Ordered(start, calls) && i <= j < |calls|
    ensures Granted(capacity, rate, start, calls, i, j + 1) as real
              <= capacity + Inflow(rate, calls[j].first - calls[i].first)
  {
    Potential(capacity, rate, start, calls, i, j + 1);
    TokensInRange(capacity, rate, start, calls, j + 1);
  }

  /** A request is allowed whatever is left in the bucket exactly when the capacity is at least one
      and one token flows in between the last call's second reading and this call's first. */
  lemma AllowedWhateverLeft(capacity: real, rate: real, last: nat, now: nat)
    requires capacity >= 0.0
    ensures (forall a: real :: 0.0 <= a <= capacity ==> Allows(Bucket(capacity, a, rate, last), now)) <==>
            capacity >= 1.0 && Inflow(rate, now - last) >= 1.0
  {
    hide Inflow;
    assert Allows(Bucket(capacity, 0.0, rate, last), now) <==> capacity >= 1.0 && Inflow(rate, now - last) >= 1.0;
  }

  /** In every run with a capacity of at least one, the first call is allowed, and so is every call
      whose first reading is 1/rate seconds or more after its predecessor's second reading. */
  lemma SpacedAllowed(capacity: real, rate: real, start: nat, calls: seq<Reads>, k: nat)
    requires capacity >= 1.0 && rate >= 0.0 && Ordered(start, calls) && k < |calls|
    requires k > 0 ==> Inflow(rate, calls[k].first - calls[k - 1].second) >= 1.0
    ensures Allows(Before(capacity, rate, start, calls, k), calls[k].first)
  {
    TokensInRange(capacity, rate, start, calls, k);
    LastBeforeCall(start, calls, k);
    if k == 0 { InflowPositive(rate, calls[0].first - start); }
  }

  /** When the two readings of its predecessor coincide, a call 1/rate seconds or more after it is
      never refused. */
  lemma SpacedNeverRefused(capacity: real, rate: real, start: nat, calls: seq<Reads>, k: nat)
    requires capacity >= 1.0 && rate >= 0.0 && Ordered(start, calls) && k < |calls|
    requires k > 0 ==> calls[k - 1].first == calls[k - 1].second
    requires k > 0 ==> Inflow(rate, calls[k].first - calls[k - 1].first) >= 1.0
    ensures Allows(Before(capacity, rate, start, calls, k), calls[k].first)
  {
    SpacedAllowed(capacity, rate, start, calls, k);
  }

  /** Time that passes between the two readings of a call is lost: with one token per second, calls
      a second apart can be refused. */
  lemma SlowCallRefuses() returns (calls: seq<Reads>)
    ensures Ordered(0, calls) && |calls| == 2 && Inflow(1.0, calls[1].first - calls[0].first) == 1.0
    ensures !Allows(Before(1.0, 1.0, 0, calls, 1), calls[1].first)
  {
    calls := [Reads(0, 1000), Reads(1000, 1000)];
    assert Before(1.0, 1.0, 0, calls, 0) == Full(1.0, 1.0, 0);
    assert Before(1.0, 1.0, 0, calls, 1) == Bucket(1.0, 0.0, 1.0, 1000);
  }

  // ---- No token is lost without cause ----

  /** What the cap cuts off in a refill. */
  function Excess(b: Bucket, now: nat): (x: real)
  {
    var full := b.available + Inflow(b.rate, now - b.last);
    if full > b.capacity then full - b.capacity else 0.0
  }

  /** What the cap has cut off in the first `k` calls. */
  function CutOff(capacity: real, rate: real, start: nat, calls: seq<Reads>, k: nat): (x: real)
    requires k <= |calls|
    decreases k
  {
    if k == 0 then 0.0
    else
      CutOff(capacity, rate, start, calls, k - 1) +
      Excess(Before(capacity, rate, start, calls, k - 1), calls[k - 1].first)
  }

  /** The time between the two readings of the first `k` calls. */
  function LostTime(calls: seq<Reads>, k: nat): (ms: int)
    requires k <= |calls|
    decreases k
  {
    if k == 0 then 0 else LostTime(calls, k - 1) + (calls[k - 1].second - calls[k - 1].first)
  }

  /** When the last of the first `k` calls was made. */
  function Last(start: nat, calls: seq<Reads>, k: nat): (ms: nat)
    requires k <= |calls|
  {
    if k == 0 then start else calls[k - 1].second
  }

  lemma {:induction false} Unchanged(capacity: real, rate: real, start: nat, calls: seq<Reads>, k: nat)
    requires k <= |calls|
    ensures var b := Before(capacity, rate, start, calls, k);
            b.capacity == capacity && b.rate == rate && b.last == Last(start, calls, k)
    decreases k
  {
    if k > 0 { Unchanged(capacity, rate, start, calls, k - 1); }
  }

  /** The tokens left and those granted are the capacity and the inflow, less what the cap cut off and
      what flowed in between the two readings of a call. */
  lemma {:induction false} TokensConserved(capacity: real, rate: real, start: nat, calls: seq<Reads>, k: nat)
    requires k <= |calls|
    ensures Before(capacity, rate, start, calls, k).available + Granted(capacity, rate, start, calls, 0, k) as real
         == capacity + Inflow(rate, Last(start, calls, k) - start - LostTime(calls, k))
            - CutOff(capacity, rate, start, calls, k)
    decreases k
  {
    if k == 0 {
      assert Inflow(rate, 0) == 0.0;
    } else {
      hide Inflow;
      TokensConserved(capacity, rate, start, calls, k - 1);
      Unchanged(capacity, rate, start, calls, k - 1);
      var last, r := Last(start, calls, k - 1), calls[k - 1];
      InflowSum(rate, last - start - LostTime(calls, k - 1), r.first - last);
    }
  }

  /** So that a call is allowed exactly when the capacity and the inflow up to its first reading, less
      what was cut off and lost, exceed the grants before it by one. */
  lemma AllowedExactly(capacity: real, rate: real, start: nat, calls: seq<Reads>, k: nat)
    requires k < |calls|
    ensures Allows(Before(capacity, rate, start, calls, k), calls[k].first) <==>
            capacity + Inflow(rate, calls[k].first - start - LostTime(calls, k))
            - CutOff(capacity, rate, start, calls, k + 1) - Granted(capacity, rate, start, calls, 0, k) as real >= 1.0
  {
    hide Inflow, Granted, LostTime, Before;
    TokensConserved(capacity, rate, start, calls, k);
    Unchanged(capacity, rate, start, calls, k);
    var last := Last(start, calls, k);
    InflowSum(rate, last - start - LostTime(calls, k), calls[k].first - last);
  }
}
