// What giving a request up does to its bucket.

module BucketRefund {
  import opened TokenBucket
  import opened BucketRate

  // The same bucket but for its balance.
  ghost predicate Apart(a: Bucket, b: Bucket) { a == b.(tokens := a.tokens) }

  ghost predicate Costs(spends: seq<Spend>) { forall i :: 0 <= i < |spends| ==> spends[i].cost >= 0.0 }

  // Refilling now takes nothing off at the cap.
  predicate Uncapped(b: Bucket, now: int) {
    b.updated == ZERO_TIME || b.tokens + Earned(b.rate, Elapsed(now, b.updated) as real) <= b.burst as real
  }

  // Nor does any refill along this run.
  predicate NeverCapped(b: Bucket, spends: seq<Spend>) {
    spends == [] ||
    var init, last := spends[..|spends| - 1], spends[|spends| - 1];
    NeverCapped(b, init) && Uncapped(After(b, init).Frozen(last.till), last.now)
  }

  // How far one spend more puts a bucket behind: by all of its cost until the
  // other is capped, and by strictly less ever after.
  lemma {:induction false} Behind(b: Bucket, cost: real, spends: seq<Spend>)
    requires b.Valid() && cost > 0.0 && Costs(spends)
    ensures var (x, y) := (After(b.(tokens := b.tokens - cost), spends), After(b, spends));
      && Apart(x, y) && y.Valid()
      && y.tokens - cost <= x.tokens <= y.tokens
      && (x.tokens == y.tokens - cost <==> NeverCapped(b, spends))
  {
    if spends != [] {
      var init, last := spends[..|spends| - 1], spends[|spends| - 1];
      Behind(b, cost, init);
      BehindStep(After(b.(tokens := b.tokens - cost), init).Frozen(last.till), After(b, init).Frozen(last.till), cost, last);
    }
  }

  lemma {:induction false} BehindStep(x: Bucket, y: Bucket, cost: real, last: Spend)
    requires Apart(x, y) && y.Valid() && y.tokens - cost <= x.tokens <= y.tokens && cost > 0.0 && last.cost >= 0.0
    ensures var (x', y') := (x.Spent(last.now, last.cost), y.Spent(last.now, last.cost));
      && Apart(x', y') && y'.Valid()
      && y'.tokens - cost <= x'.tokens <= y'.tokens
      && (x'.tokens == y'.tokens - cost <==> x.tokens == y.tokens - cost && Uncapped(y, last.now))
  {
    EarnedOrders(y.rate, Elapsed(last.now, y.updated) as real, 0.0);
  }

  // A request given up costs its signer nothing, whatever was spent meanwhile:
  // the balance is at least what it would be had the request never spent, and
  // at most its cost higher. The two are the same exactly when the cap took
  // nothing off the bucket that never spent, or that bucket ends full.
  lemma {:induction false} GivenUp(b: Bucket, now: int, cost: real, spends: seq<Spend>)
    requires b.Valid() && cost > 0.0 && Costs(spends)
    ensures var (without, refunded) := (After(b.Refilled(now), spends), After(b.Spent(now, cost), spends).Refunded(cost));
      && without.tokens <= refunded.tokens <= without.tokens + cost
      && (refunded == without <==> NeverCapped(b.Refilled(now), spends) || without.tokens == without.burst as real)
  {
    Behind(b.Refilled(now), cost, spends);
  }
}
