// The per-signer token bucket of ratelimit.go. Instants are nanoseconds from
// Go's zero time; tokens, and the send times computed from them, are reals.

module TokenBucket {
  import SW = SlidingWindow

  const ZERO_TIME: int := SW.ZERO_TIME
  const SECOND: real := 1_000_000_000.0
  const MAX_DURATION: int := 0x7fff_ffff_ffff_ffff

  // What a balance header can parse to.
  datatype Float = NaN | NegInf | Finite(r: real) | PosInf

  function Min(a: real, b: real): real { if a < b then a else b }

  function Max(a: real, b: real): real { if a < b then b else a }

  // time.Time.Sub, which saturates rather than wraps.
  function Elapsed(now: int, since: int): (d: int)
    ensures d <= MAX_DURATION
  {
    if now - since > MAX_DURATION then MAX_DURATION else now - since
  }

  function Earned(rate: real, nanos: real): real { nanos / SECOND * rate }

  function Clamp(f: Float, burst: real): (r: real)
    requires !f.NaN? && burst >= 0.0
    ensures -burst <= r <= burst
  {
    match f
    case NegInf => -burst
    case PosInf => burst
    case Finite(x) => Min(burst, Max(-burst, x))
  }

  datatype Bucket = Bucket(rate: real, burst: int, tokens: real, updated: int, frozenTill: int) {
    ghost predicate Valid() { rate > 0.0 && burst >= 1 && tokens <= burst as real }

    function Refilled(now: int): (b: Bucket)
      ensures Valid() ==> b.Valid()
    {
      if updated == ZERO_TIME then this.(updated := now)
      else if Elapsed(now, updated) > 0 then
        this.(tokens := Min(burst as real, tokens + Earned(rate, Elapsed(now, updated) as real)), updated := now)
      else this
    }

    function Spent(now: int, cost: real): (b: Bucket)
      ensures Valid() && cost >= 0.0 ==> b.Valid()
    {
      var b := Refilled(now);
      b.(tokens := b.tokens - cost)
    }

    // When the balance covers a request of this cost arriving now.
    function FundedTime(now: int, cost: real): real
      requires rate != 0.0
    {
      var tokens := Refilled(now).tokens;
      if tokens < cost then now as real + (cost - tokens) / rate * SECOND else now as real
    }

    // When it may go.
    function SendTime(now: int, cost: real): real
      requires rate != 0.0
    {
      Max(FundedTime(now, cost), frozenTill as real)
    }

    function Refunded(cost: real): (b: Bucket)
      ensures Valid() ==> b.Valid()
    {
      this.(tokens := Min(burst as real, tokens + cost))
    }

    function Adopted(remaining: Float, now: int): (b: Bucket)
      requires burst >= 1
      ensures Valid() ==> b.Valid()
      ensures if remaining.NaN? then b == this else -(burst as real) <= b.tokens <= burst as real
    {
      if remaining.NaN? then this
      else this.(tokens := Clamp(remaining, burst as real), updated := now)
    }

    function Frozen(t: int): (b: Bucket)
      ensures Valid() ==> b.Valid()
    {
      this.(frozenTill := if t > frozenTill then t else frozenTill)
    }
  }

  // A first reading only starts the clock, and one no later than the last
  // changes nothing at all.
  lemma {:induction false} NothingEarned(b: Bucket, now: int)
    ensures b.updated == 0 ==> b.Refilled(now) == b.(updated := now)
    ensures b.updated != 0 && now <= b.updated ==> b.Refilled(now) == b
  {
  }

  function FreshBucket(rate: real, burst: int): (b: Bucket)
    ensures b.Valid()
  {
    var capacity := if burst < 1 then 1 else burst;
    Bucket(if rate <= 0.0 then 1.0 else rate, capacity, capacity as real, ZERO_TIME, ZERO_TIME)
  }

  // The object the limiter keeps per signer, updated in place.
  class BucketState {
    const rate: real
    const burst: int
    var tokens: real
    var updated: int
    var frozenTill: int

    ghost function Contents(): Bucket
      reads this
    {
      Bucket(rate, burst, tokens, updated, frozenTill)
    }

    constructor (rate: real, burst: int)
      ensures Contents() == FreshBucket(rate, burst)
    {
      this.rate := if rate <= 0.0 then 1.0 else rate;
      this.burst := if burst < 1 then 1 else burst;
      tokens := if burst < 1 then 1.0 else burst as real;
      updated, frozenTill := ZERO_TIME, ZERO_TIME;
    }

    method Refill(now: int)
      modifies this
      ensures Contents() == old(Contents()).Refilled(now)
    {
      if updated == ZERO_TIME {
        updated := now;
        return;
      }
      var elapsed := Elapsed(now, updated);
      if elapsed > 0 {
        tokens := Min(burst as real, tokens + Earned(rate, elapsed as real));
        updated := now;
      }
    }

    method Reserve(now: int, cost: real) returns (when: real)
      requires rate > 0.0
      modifies this
      ensures Contents() == old(Contents()).Spent(now, cost)
      ensures when == old(Contents()).SendTime(now, cost)
    {
      Refill(now);
      when := now as real;
      if tokens < cost {
        var deficit := cost - tokens;
        when := now as real + deficit / rate * SECOND;
      }
      tokens := tokens - cost;
      if frozenTill as real > when {
        when := frozenTill as real;
      }
    }

    method Release(cost: real)
      modifies this
      ensures Contents() == old(Contents()).Refunded(cost)
    {
      tokens := Min(burst as real, tokens + cost);
    }

    method Adopt(remaining: Float, now: int)
      requires burst >= 1
      modifies this
      ensures Contents() == old(Contents()).Adopted(remaining, now)
    {
      if remaining.NaN? {
        return;
      }
      tokens := Clamp(remaining, burst as real);
      updated := now;
    }

    method Freeze(t: int)
      modifies this
      ensures Contents() == old(Contents()).Frozen(t)
    {
      if t > frozenTill {
        frozenTill := t;
      }
    }
  }
}
