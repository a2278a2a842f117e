// However requests arrive, a bucket never schedules more than one burst (or one
// outsized request) beyond what its rate earns between the two ends, unless a
// freeze lets it fill further; and nothing that keeps to the rate is earlier.

module BucketRate {
  import opened TokenBucket

  // A request, and the freeze learnt just before it (the zero time for none).
  datatype Spend = Spend(now: int, cost: real, till: int)

  // A forward clock, starting no earlier than the bucket's own state.
  ghost predicate Orderly(b: Bucket, spends: seq<Spend>) {
    && b.Valid()
    && (forall i :: 0 <= i < |spends| ==> spends[i].cost >= 0.0 && b.updated <= spends[i].now && ZERO_TIME < spends[i].now)
    && (forall i, j :: 0 <= i < j < |spends| ==> spends[i].now <= spends[j].now)
  }

  function After(b: Bucket, spends: seq<Spend>): (r: Bucket)
    ensures r.rate == b.rate && r.burst == b.burst && r.frozenTill >= b.frozenTill
  {
    if spends == [] then b
    else
      var last := spends[|spends| - 1];
      After(b, spends[..|spends| - 1]).Frozen(last.till).Spent(last.now, last.cost)
  }

  // The bucket request i finds.
  function Before(b: Bucket, spends: seq<Spend>, i: nat): (r: Bucket)
    requires i < |spends|
    ensures r.rate == b.rate && r.burst == b.burst
  {
    After(b, spends[..i]).Frozen(spends[i].till)
  }

  function When(b: Bucket, spends: seq<Spend>, i: nat): real
    requires b.rate != 0.0 && i < |spends|
  {
    Before(b, spends, i).SendTime(spends[i].now, spends[i].cost)
  }

  function Funded(b: Bucket, spends: seq<Spend>, i: nat): real
    requires b.rate != 0.0 && i < |spends|
  {
    Before(b, spends, i).FundedTime(spends[i].now, spends[i].cost)
  }

  // The tokens asked for by spends i up to but not including j.
  function Asked(spends: seq<Spend>, i: nat, j: nat): (sum: real)
    requires i <= j <= |spends|
    decreases j
  {
    if i == j then 0.0 else Asked(spends, i, j - 1) + spends[j - 1].cost
  }

  function Balance(b: Bucket, spends: seq<Spend>, n: nat): real
    requires n <= |spends|
  {
    After(b, spends[..n]).tokens
  }

  // The balance request i finds once the bucket is refilled.
  function Found(b: Bucket, spends: seq<Spend>, i: nat): real
    requires i < |spends|
  {
    Before(b, spends, i).Refilled(spends[i].now).tokens
  }

  lemma {:induction false} AfterValid(b: Bucket, spends: seq<Spend>, n: nat)
    requires Orderly(b, spends) && n <= |spends|
    ensures After(b, spends[..n]).Valid()
    ensures After(b, spends[..n]).updated == if n == 0 then b.updated else spends[n - 1].now
  {
    if n > 0 {
      AfterValid(b, spends, n - 1);
      assert spends[..n][..n - 1] == spends[..n - 1];
    }
  }

  // One spend: what the balance becomes.
  lemma {:induction false} SpendStep(b: Bucket, spends: seq<Spend>, i: nat)
    requires Orderly(b, spends) && i < |spends|
    ensures Balance(b, spends, i + 1) == Found(b, spends, i) - spends[i].cost
    ensures Found(b, spends, i) <= b.burst as real
    ensures i > 0 ==> Found(b, spends, i) <= Balance(b, spends, i) + Earned(b.rate, (spends[i].now - spends[i - 1].now) as real)
  {
    AfterValid(b, spends, i);
    assert spends[..i + 1][..i] == spends[..i];
    if i > 0 {
      EarnedOrders(b.rate, Elapsed(spends[i].now, spends[i - 1].now) as real, (spends[i].now - spends[i - 1].now) as real);
    }
  }

  // Waiting out a deficit at the bucket's rate earns exactly that deficit.
  lemma {:induction false} DeficitEarned(rate: real, deficit: real)
    requires rate > 0.0
    ensures Earned(rate, deficit / rate * SECOND) == deficit
  {
    assert deficit / rate * SECOND / SECOND == deficit / rate;
  }

  // Whatever the bucket, a request is funded when it has earned its deficit.
  lemma {:induction false} FundingDelay(b: Bucket, now: int, cost: real)
    requires b.rate > 0.0
    ensures Earned(b.rate, b.FundedTime(now, cost) - now as real) == Max(0.0, cost - b.Refilled(now).tokens)
  {
    var tokens := b.Refilled(now).tokens;
    if tokens < cost {
      var wait := (cost - tokens) / b.rate * SECOND;
      assert b.FundedTime(now, cost) - now as real == wait;
      DeficitEarned(b.rate, cost - tokens);
    } else {
      assert b.FundedTime(now, cost) - now as real == 0.0;
    }
  }

  // A request is funded when the balance it left behind would be back to zero.
  lemma {:induction false} SendDelay(b: Bucket, spends: seq<Spend>, i: nat)
    requires Orderly(b, spends) && i < |spends|
    ensures Earned(b.rate, Funded(b, spends, i) - spends[i].now as real) == Max(0.0, -Balance(b, spends, i + 1))
  {
    SpendStep(b, spends, i);
    FundingDelay(Before(b, spends, i), spends[i].now, spends[i].cost);
  }

  lemma {:induction false} EarnedAdds(rate: real, x: real, y: real)
    ensures Earned(rate, x + y) == Earned(rate, x) + Earned(rate, y)
  {
  }

  lemma {:induction false} EarnedOrders(rate: real, x: real, y: real)
    requires rate > 0.0
    ensures Earned(rate, x) <= Earned(rate, y) <==> x <= y
  {
  }

  // From what spend i found, at most what was earned less what was asked.
  lemma {:induction false} Drained(b: Bucket, spends: seq<Spend>, i: nat, j: nat)
    requires Orderly(b, spends) && i <= j < |spends|
    ensures Balance(b, spends, j + 1) + Asked(spends, i, j + 1)
            <= Found(b, spends, i) + Earned(b.rate, (spends[j].now - spends[i].now) as real)
    decreases j
  {
    SpendStep(b, spends, j);
    if i < j {
      Drained(b, spends, i, j - 1);
      EarnedAdds(b.rate, (spends[j - 1].now - spends[i].now) as real, (spends[j].now - spends[j - 1].now) as real);
    } else {
      assert Asked(spends, i, i) == 0.0;
    }
  }

  // What the bucket would have earned by the end of its freeze, uncapped.
  function ThawedWith(b: Bucket, now: int): real {
    b.Refilled(now).tokens + Earned(b.rate, (b.frozenTill - now) as real)
  }

  // No more than a burst, or this one request. A caller can tell before asking.
  predicate ThawsWithin(b: Bucket, now: int, cost: real) {
    ThawedWith(b, now) <= Max(b.burst as real, cost)
  }

  // So it is whenever no freeze is in force.
  lemma {:induction false} UnfrozenThaws(b: Bucket, now: int, cost: real)
    requires b.Valid() && b.frozenTill <= now
    ensures ThawsWithin(b, now, cost)
  {
    EarnedOrders(b.rate, (b.frozenTill - now) as real, 0.0);
  }

  // What the bucket will have held, and earned, by the time this request goes.
  function HeldBySend(b: Bucket, now: int, cost: real): real {
    Max(Max(b.Refilled(now).tokens, cost), ThawedWith(b, now))
  }

  lemma {:induction false} HeldAtSend(b: Bucket, now: int, cost: real)
    requires b.Valid() && b.Refilled(now).Valid()
    ensures b.Refilled(now).tokens + Earned(b.rate, b.SendTime(now, cost) - now as real) == HeldBySend(b, now, cost)
    ensures ThawsWithin(b, now, cost) <==> HeldBySend(b, now, cost) <= Max(b.burst as real, cost)
  {
    var funded, frozen := b.FundedTime(now, cost), b.frozenTill as real;
    FundingDelay(b, now, cost);
    assert frozen - now as real == (b.frozenTill - now) as real;
    EarnedOrders(b.rate, frozen - now as real, funded - now as real);
  }

  // Over spends i to j, at most the larger of one burst and the first cost, plus
  // what the rate earns from send to send.
  ghost predicate Paced(b: Bucket, spends: seq<Spend>, s: seq<real>, i: nat, j: nat)
    requires |s| == |spends| && i <= j < |s|
  {
    Asked(spends, i, j + 1) <= Max(b.burst as real, spends[i].cost) + Earned(b.rate, s[j] - s[i])
  }

  function Schedule(b: Bucket, spends: seq<Spend>): (s: seq<real>)
    requires b.rate != 0.0
    ensures |s| == |spends| && forall i :: 0 <= i < |s| ==> s[i] == When(b, spends, i)
  {
    seq(|spends|, i requires 0 <= i < |spends| => When(b, spends, i))
  }

  lemma {:induction false} SentWithin(b: Bucket, spends: seq<Spend>, i: nat, j: nat)
    requires Orderly(b, spends) && i <= j < |spends|
    ensures Asked(spends, i, j + 1) <= Found(b, spends, i) + Earned(b.rate, When(b, spends, j) - spends[i].now as real)
  {
    var ni, nj, wj := spends[i].now as real, spends[j].now as real, When(b, spends, j);
    Drained(b, spends, i, j);
    SendDelay(b, spends, j);
    EarnedOrders(b.rate, Funded(b, spends, j) - nj, wj - nj);
    EarnedAdds(b.rate, wj - nj, nj - ni);
    assert nj - ni == (spends[j].now - spends[i].now) as real;
  }

  // The bound holds from any request that meets its freeze without overfilling.
  lemma {:induction false} RateHolds(b: Bucket, spends: seq<Spend>, i: nat, j: nat)
    requires Orderly(b, spends) && i <= j < |spends|
    requires ThawsWithin(Before(b, spends, i), spends[i].now, spends[i].cost)
    ensures Paced(b, spends, Schedule(b, spends), i, j)
  {
    var ni, wi, wj := spends[i].now as real, When(b, spends, i), When(b, spends, j);
    AfterValid(b, spends, i);
    HeldAtSend(Before(b, spends, i), spends[i].now, spends[i].cost);
    SentWithin(b, spends, i, j);
    EarnedAdds(b.rate, wj - wi, wi - ni);
  }

  lemma {:induction false} FundedOrders(b: Bucket, spends: seq<Spend>, i: nat, j: nat)
    requires Orderly(b, spends) && i <= j < |spends|
    ensures Funded(b, spends, i) <= Funded(b, spends, j)
  {
    var ni, nj := spends[i].now as real, spends[j].now as real;
    var fi, fj := Funded(b, spends, i), Funded(b, spends, j);
    SendDelay(b, spends, i);
    SendDelay(b, spends, j);
    SpendStep(b, spends, i);
    Drained(b, spends, i, j);
    AskedFront(spends, i, j + 1);
    assert nj - ni == (spends[j].now - spends[i].now) as real;
    EarnedAdds(b.rate, fj - nj, nj - ni);
    EarnedOrders(b.rate, 0.0, nj - ni);
    EarnedOrders(b.rate, fi - ni, fj - ni);
  }

  lemma {:induction false} AskedFront(spends: seq<Spend>, i: nat, j: nat)
    requires i < j <= |spends|
    ensures (forall k :: i <= k < j ==> spends[k].cost >= 0.0) ==> Asked(spends, i, j) >= spends[i].cost
    decreases j
  {
    if i + 1 < j {
      AskedFront(spends, i, j - 1);
    } else {
      assert Asked(spends, i, i) == 0.0;
    }
  }

  lemma {:induction false} FreezeGrows(b: Bucket, spends: seq<Spend>, i: nat, j: nat)
    requires i <= j < |spends|
    ensures Before(b, spends, i).frozenTill <= Before(b, spends, j).frozenTill
    decreases j
  {
    if i < j {
      FreezeGrows(b, spends, i, j - 1);
      assert spends[..j][..j - 1] == spends[..j - 1];
    }
  }

  // Send times never step back, freezes or not.
  lemma {:induction false} NeverBack(b: Bucket, spends: seq<Spend>, i: nat, j: nat)
    requires Orderly(b, spends) && i <= j < |spends|
    ensures When(b, spends, i) <= When(b, spends, j)
  {
    FundedOrders(b, spends, i, j);
    FreezeGrows(b, spends, i, j);
  }

  // One more request, in whole tokens: more than the freeze lets the bucket hold.
  function Straw(now: int, held: real): Spend { Spend(now, (held.Floor + 1) as real, ZERO_TIME) }

  // A bucket asked twice at one instant, the second time for more than its
  // freeze lets it hold: the second request waits out both costs.
  lemma {:induction false} StrawSends(b: Bucket, now: int, cost: real, more: real)
    requires b.Valid() && b.updated <= now && ZERO_TIME < now && cost >= 0.0 && more >= 0.0 && more >= ThawedWith(b, now)
    ensures var next := b.Spent(now, cost).Frozen(ZERO_TIME);
      Earned(b.rate, next.SendTime(now, more) - now as real) == Max(0.0, cost + more - b.Refilled(now).tokens)
  {
    var next := b.Spent(now, cost).Frozen(ZERO_TIME);
    var funded, frozen := next.FundedTime(now, more), next.frozenTill as real;
    assert next.Refilled(now).tokens == b.Refilled(now).tokens - cost;
    FundingDelay(next, now, more);
    EarnedOrders(b.rate, 0.0, funded - now as real);
    EarnedOrders(b.rate, (b.frozenTill - now) as real, funded - now as real);
  }

  ghost predicate BoundFrom(b: Bucket, spends: seq<Spend>, i: nat)
    requires i < |spends| && b.rate != 0.0
  {
    forall j :: i <= j < |spends| ==> Paced(b, spends, Schedule(b, spends), i, j)
  }

  lemma {:induction false} StrawRun(b: Bucket, spends: seq<Spend>, i: nat, straw: Spend)
    requires Orderly(b, spends) && |spends| == i + 1
    requires straw.now == spends[i].now && straw.cost >= 0.0 && straw.till == ZERO_TIME
    ensures var run := spends + [straw];
      && Orderly(b, run)
      && Before(b, run, i) == Before(b, spends, i)
      && Before(b, run, i + 1) == Before(b, spends, i).Spent(spends[i].now, spends[i].cost).Frozen(ZERO_TIME)
      && Asked(run, i, i + 2) == spends[i].cost + straw.cost
  {
    var run := spends + [straw];
    assert run[..i] == spends[..i] && run[..i + 1] == spends && spends[..i] == spends[..i + 1][..i];
    assert Asked(run, i, i) == 0.0;
    assert Asked(run, i, i + 1) == spends[i].cost;
  }

  // Two requests whose sends are apart by less than the second one's excess.
  lemma {:induction false} TooSoon(rate: real, now: real, wi: real, wj: real, held: real, cost: real, more: real, most: real)
    requires held + Earned(rate, wi - now) > most
    requires Earned(rate, wj - now) <= cost + more - held
    ensures cost + more > most + Earned(rate, wj - wi)
  {
    EarnedAdds(rate, wj - wi, wi - now);
  }

  // The last of these requests, followed by that one, breaks the bound.
  lemma {:induction false} StrawBreaks(b: Bucket, spends: seq<Spend>, i: nat)
    requires Orderly(b, spends) && |spends| == i + 1
    requires !ThawsWithin(Before(b, spends, i), spends[i].now, spends[i].cost)
    ensures var run := spends + [Straw(spends[i].now, ThawedWith(Before(b, spends, i), spends[i].now))];
      Orderly(b, run) && !Paced(b, run, Schedule(b, run), i, i + 1)
  {
    var found, now, cost := Before(b, spends, i), spends[i].now, spends[i].cost;
    var held, most := found.Refilled(now).tokens, Max(b.burst as real, cost);
    var straw := Straw(now, ThawedWith(found, now));
    var run := spends + [straw];
    AfterValid(b, spends, i);
    StrawRun(b, spends, i, straw);
    StrawSends(found, now, cost, straw.cost);
    HeldAtSend(found, now, cost);
    StrawCost(found, now, cost);
    TooSoon(b.rate, now as real, When(b, run, i), When(b, run, i + 1), held, cost, straw.cost, most);
  }

  lemma {:induction false} StrawCost(b: Bucket, now: int, cost: real)
    requires b.Valid() && b.Refilled(now).Valid() && cost >= 0.0 && !ThawsWithin(b, now, cost)
    ensures var more := Straw(now, ThawedWith(b, now)).cost;
      more >= ThawedWith(b, now) && more >= 1.0 && cost + more >= b.Refilled(now).tokens
  {
  }

  // The bound from a request on holds in every continuation, freezes included,
  // exactly when that request met its freeze without overfilling.
  lemma {:induction false} RateHoldsExactly(b: Bucket, spends: seq<Spend>, i: nat)
    requires Orderly(b, spends) && |spends| == i + 1
    ensures (forall more :: Orderly(b, spends + more) ==> BoundFrom(b, spends + more, i))
       <==> ThawsWithin(Before(b, spends, i), spends[i].now, spends[i].cost)
  {
    if ThawsWithin(Before(b, spends, i), spends[i].now, spends[i].cost) {
      forall more | Orderly(b, spends + more) ensures BoundFrom(b, spends + more, i) {
        var run := spends + more;
        assert run[..i] == spends[..i];
        forall j | i <= j < |run| ensures Paced(b, run, Schedule(b, run), i, j) {
          RateHolds(b, run, i, j);
        }
      }
    } else {
      StrawBreaks(b, spends, i);
      var more := [Straw(spends[i].now, ThawedWith(Before(b, spends, i), spends[i].now))];
      assert !BoundFrom(b, spends + more, i);
    }
  }

  // No two readings so far apart that time.Time.Sub saturates.
  ghost predicate Measurable(spends: seq<Spend>) {
    forall i :: 0 < i < |spends| ==> spends[i].now - spends[i - 1].now <= 0x7fff_ffff_ffff_ffff
  }

  lemma {:induction false} SpendExact(b: Bucket, spends: seq<Spend>, i: nat)
    requires Orderly(b, spends) && Measurable(spends) && b.tokens == b.burst as real && i < |spends|
    ensures i == 0 ==> Balance(b, spends, i + 1) == b.burst as real - spends[i].cost
    ensures i > 0 ==> Balance(b, spends, i + 1)
                      == Min(b.burst as real, Balance(b, spends, i) + Earned(b.rate, (spends[i].now - spends[i - 1].now) as real))
                         - spends[i].cost
  {
    AfterValid(b, spends, i);
    assert spends[..i + 1][..i] == spends[..i];
    if i == 0 {
      assert spends[..0] == [];
      EarnedOrders(b.rate, 0.0, Elapsed(spends[i].now, b.updated) as real);
    } else {
      assert spends[i - 1].now <= spends[i].now;
      EarnedOrders(b.rate, 0.0, 0.0);
    }
  }

  // What the balance would be had the bucket been full when spend i arrived.
  function FullSince(b: Bucket, spends: seq<Spend>, i: nat, j: nat): real
    requires i <= j < |spends|
  {
    b.burst as real + Earned(b.rate, (spends[j].now - spends[i].now) as real) - Asked(spends, i, j + 1)
  }

  // A balance is always accounted for by the last arrival that found it full.
  lemma {:induction false} LastFull(b: Bucket, spends: seq<Spend>, j: nat) returns (i: nat)
    requires Orderly(b, spends) && Measurable(spends) && b.tokens == b.burst as real && j < |spends|
    ensures i <= j && Balance(b, spends, j + 1) == FullSince(b, spends, i, j)
    decreases j
  {
    SpendExact(b, spends, j);
    i := j;
    assert Asked(spends, j, j) == 0.0;
    if j > 0 {
      var gap := (spends[j].now - spends[j - 1].now) as real;
      if Balance(b, spends, j) + Earned(b.rate, gap) < b.burst as real {
        i := LastFull(b, spends, j - 1);
        EarnedAdds(b.rate, (spends[j - 1].now - spends[i].now) as real, gap);
      }
    }
  }

  // A schedule that sends nothing before it arrives or inside the freeze it met,
  // and over any stretch no more than a burst, or one outsized request, beyond
  // what the rate earns.
  ghost predicate WithinRate(b: Bucket, spends: seq<Spend>, s: seq<real>) {
    && |s| == |spends|
    && (forall i :: 0 <= i < |s| ==> Open(b, spends, i, s[i]))
    && forall i, j :: 0 <= i <= j < |s| ==> Paced(b, spends, s, i, j)
  }

  ghost predicate Open(b: Bucket, spends: seq<Spend>, i: nat, t: real)
    requires i < |spends|
  {
    spends[i].now as real <= t && Before(b, spends, i).frozenTill as real <= t
  }

  lemma {:induction false} SentOpen(b: Bucket, spends: seq<Spend>, i: nat)
    requires Orderly(b, spends) && i < |spends|
    ensures Open(b, spends, i, When(b, spends, i))
  {
    SendDelay(b, spends, i);
    EarnedOrders(b.rate, 0.0, Funded(b, spends, i) - spends[i].now as real);
  }

  // The bucket's own schedule keeps to the rate where no freeze overfills it.
  lemma {:induction false} ScheduleWithinRate(b: Bucket, spends: seq<Spend>)
    requires Orderly(b, spends)
    requires forall i :: 0 <= i < |spends| ==> ThawsWithin(Before(b, spends, i), spends[i].now, spends[i].cost)
    ensures WithinRate(b, spends, Schedule(b, spends))
  {
    var s := Schedule(b, spends);
    forall i | 0 <= i < |s| ensures Open(b, spends, i, s[i]) {
      SentOpen(b, spends, i);
    }
    forall i, j | 0 <= i <= j < |s| ensures Paced(b, spends, s, i, j) {
      RateHolds(b, spends, i, j);
    }
  }

  // A schedule that respects arrivals and freezes, and sends nothing before it
  // is paid for: over any stretch, no more by the last send than a full bucket
  // would have held and earned since the first arrived.
  ghost predicate PaidFor(b: Bucket, spends: seq<Spend>, s: seq<real>) {
    && |s| == |spends|
    && (forall i :: 0 <= i < |s| ==> Open(b, spends, i, s[i]))
    && forall i, j :: 0 <= i <= j < |s| ==> PaidSince(b, spends, i, j, s[j])
  }

  ghost predicate PaidSince(b: Bucket, spends: seq<Spend>, i: nat, j: nat, t: real)
    requires i <= j < |spends|
  {
    Asked(spends, i, j + 1) <= b.burst as real + Earned(b.rate, t - spends[i].now as real)
  }

  lemma {:induction false} FundedNoLater(b: Bucket, spends: seq<Spend>, s: seq<real>, j: nat)
    requires Orderly(b, spends) && Measurable(spends) && b.tokens == b.burst as real
    requires PaidFor(b, spends, s) && j < |s|
    ensures Funded(b, spends, j) <= s[j]
  {
    var i := LastFull(b, spends, j);
    var ni, nj, fj := spends[i].now as real, spends[j].now as real, Funded(b, spends, j);
    assert Open(b, spends, j, s[j]) && PaidSince(b, spends, i, j, s[j]);
    SendDelay(b, spends, j);
    EarnedAdds(b.rate, s[j] - nj, nj - ni);
    assert nj - ni == (spends[j].now - spends[i].now) as real;
    EarnedOrders(b.rate, 0.0, s[j] - nj);
    EarnedOrders(b.rate, fj - nj, s[j] - nj);
  }

  lemma {:induction false} SentPaid(b: Bucket, spends: seq<Spend>, i: nat, j: nat)
    requires Orderly(b, spends) && i <= j < |spends|
    ensures PaidSince(b, spends, i, j, When(b, spends, j))
  {
    SpendStep(b, spends, i);
    SentWithin(b, spends, i, j);
  }

  // The bucket's own schedule pays for every send, freezes or not; and from a
  // full bucket no schedule that does sends any request earlier.
  lemma {:induction false} EarliestPaidFor(b: Bucket, spends: seq<Spend>)
    requires Orderly(b, spends)
    ensures PaidFor(b, spends, Schedule(b, spends))
    ensures Measurable(spends) && b.tokens == b.burst as real ==>
              forall s, j :: PaidFor(b, spends, s) && 0 <= j < |s| ==> When(b, spends, j) <= s[j]
  {
    var own := Schedule(b, spends);
    forall i | 0 <= i < |own| ensures Open(b, spends, i, own[i]) {
      SentOpen(b, spends, i);
    }
    forall i, j | 0 <= i <= j < |own| ensures PaidSince(b, spends, i, j, own[j]) {
      SentPaid(b, spends, i, j);
    }
    if Measurable(spends) && b.tokens == b.burst as real {
      forall s, j | PaidFor(b, spends, s) && 0 <= j < |s| ensures When(b, spends, j) <= s[j] {
        assert Open(b, spends, j, s[j]);
        FundedNoLater(b, spends, s, j);
      }
    }
  }

  // Where no request is larger than a burst, keeping to the rate is paying.
  lemma {:induction false} RatePays(b: Bucket, spends: seq<Spend>, s: seq<real>)
    requires Orderly(b, spends) && WithinRate(b, spends, s)
    requires forall i :: 0 <= i < |spends| ==> spends[i].cost <= b.burst as real
    ensures PaidFor(b, spends, s)
  {
    forall i, j | 0 <= i <= j < |s| ensures PaidSince(b, spends, i, j, s[j]) {
      assert Paced(b, spends, s, i, j) && Open(b, spends, i, s[i]);
      EarnedOrders(b.rate, s[j] - s[i], s[j] - spends[i].now as real);
    }
  }

  // A freeze that overfills: four requests, four bursts' worth, share an instant.
  lemma {:induction false} FreezeLandsTogether()
    ensures var b := Bucket(1.0, 1, 1.0, 1, 4_000_000_001);
            var spends := seq(4, _ => Spend(1, 1.0, ZERO_TIME));
      && !ThawsWithin(b, 1, 1.0)
      && When(b, spends, 0) == When(b, spends, 3) == 4_000_000_001.0
      && Asked(spends, 0, 4) == 4.0
  {
    var b, one := Bucket(1.0, 1, 1.0, 1, 4_000_000_001), Spend(1, 1.0, ZERO_TIME);
    var spends := seq(4, _ => one);
    assert spends == [one, one, one, one];
    assert spends[..1][..0] == [] && spends[..2][..1] == spends[..1] && spends[..3][..2] == spends[..2];
    assert Earned(1.0, 4_000_000_000.0) == 4.0;
    assert After(b, spends[..1]).tokens == 0.0;
    assert After(b, spends[..2]).tokens == -1.0;
    assert After(b, spends[..3]).tokens == -2.0;
    assert Asked(spends, 0, 2) == 2.0;
  }
}
