// What the server's answers do to the limiter: what each one changes and what it
// leaves alone, and that a refusal is obeyed by every call that comes after it.

module LimiterFreeze {
  import opened Wrappers
  import opened Rules
  import opened Limiter
  import opened LimiterSystem
  import opened LimiterRate
  import SW = SlidingWindow
  import TB = TokenBucket
  import WS = WindowSafety

  function Later(a: int, b: int): int { if a < b then b else a }

  // Held shut until `till`: refused, and told for how long.
  predicate Refused(resp: Response, now: int, till: int) {
    resp.status == 429 && RetryAfter(now, resp) == Some(till)
  }

  // A refusal holds the request's own bucket shut, never for less than it was;
  // any other answer, and any other bucket, is left as open as it was.
  lemma {:induction false} HeardFreezesBucket(rules: seq<Rule>, sys: System, r: Request, resp: Response,
                                              adoptAt: WS.Clock, now: WS.Clock, w: Which, till: int)
    requires Ready(rules, sys)
    ensures var (b, b') := (sys.state.BucketOf(w), Next(rules, sys, Hear(r, resp, adoptAt, now)).state.BucketOf(w));
      && (Refused(resp, now, till) && BucketFor(r) == Some(w) ==> b'.frozenTill == Later(b.frozenTill, till))
      && (resp.status != 429 || RetryAfter(now, resp).None? || BucketFor(r) != Some(w) ==> b'.frozenTill == b.frozenTill)
  {
  }

  // So does it the window of the request's rule, made if it was not there; and
  // all other windows are left alone, whole.
  lemma {:induction false} HeardFreezesWindow(rules: seq<Rule>, sys: System, r: Request, resp: Response,
                                              adoptAt: WS.Clock, now: WS.Clock, i: nat, till: int)
    requires Ready(rules, sys)
    ensures var (was, after) := (sys.state.windows, Next(rules, sys, Hear(r, resp, adoptAt, now)).state.windows);
      && (Refused(resp, now, till) && Matched(rules, r.verb, r.path) == Some(i) ==>
            i in after && after[i].frozenTill == Later(if i in was then was[i].frozenTill else SW.ZERO_TIME, till)
            && (i in was ==> after[i].slots == was[i].slots))
      && (resp.status != 429 || RetryAfter(now, resp).None? || Matched(rules, r.verb, r.path) != Some(i) ==>
            (i in after <==> i in was) && (i in was ==> after[i] == was[i]))
  {
    ObservedWindow(rules, sys.state, r, resp, adoptAt, now);
  }

  lemma {:induction false} AdoptedReads(b: TB.Bucket, said: TB.Float, now: int)
    requires b.Valid() && !said.NaN?
    ensures b.Adopted(said, now).updated == now && NearestWithin(said, b.burst as real, b.Adopted(said, now).tokens)
  {
  }

  lemma {:induction false} ObservedBalance(rules: seq<Rule>, s: State, r: Request, resp: Response, adoptAt: int, now: int, w: Which)
    requires s.Valid()
    ensures var (b, s') := (s.BucketOf(w), Observed(rules, s, r, resp, adoptAt, now));
      && s'.warnings == s.warnings + (if resp.warning then 1 else 0)
      && s'.BucketOf(w) ==
           (if BucketFor(r) == Some(w) && resp.remaining.Some? then b.Adopted(resp.remaining.value, adoptAt) else b).(
             frozenTill := s'.BucketOf(w).frozenTill)
  {
  }

  // A balance header outranks what was predicted, from the reading it was taken
  // at; without one, or for another bucket, the balance stands. Warnings count.
  lemma {:induction false} HeardAdopts(rules: seq<Rule>, sys: System, r: Request, resp: Response,
                                       adoptAt: WS.Clock, now: WS.Clock, w: Which)
    requires Ready(rules, sys)
    ensures var (s, s') := (sys.state, Next(rules, sys, Hear(r, resp, adoptAt, now)).state);
      && s'.warnings == s.warnings + (if resp.warning then 1 else 0)
      && BalanceHeard(s.BucketOf(w), s'.BucketOf(w), if BucketFor(r) == Some(w) then resp.remaining else None, adoptAt)
  {
    var b := sys.state.BucketOf(w);
    ObservedBalance(rules, sys.state, r, resp, adoptAt, now, w);
    if BucketFor(r) == Some(w) && resp.remaining.Some? && !resp.remaining.value.NaN? {
      AdoptedReads(b, resp.remaining.value, adoptAt);
    }
  }

  // What a balance said of a bucket makes of it.
  ghost predicate BalanceHeard(b: TB.Bucket, after: TB.Bucket, said: Option<TB.Float>, adoptAt: int) {
    && after.rate == b.rate && after.burst == b.burst
    && (if said.None? || said.value.NaN? then
          after.tokens == b.tokens && after.updated == b.updated
        else
          after.updated == adoptAt && NearestWithin(said.value, b.burst as real, after.tokens))
  }

  // The balance within one burst of zero that is nearest to what was said.
  ghost predicate NearestWithin(said: TB.Float, burst: real, tokens: real) {
    && -burst <= tokens <= burst
    && (said.PosInf? ==> tokens == burst)
    && (said.NegInf? ==> tokens == -burst)
    && (said.Finite? ==> (tokens == said.r || (tokens == burst < said.r) || (said.r < -burst == tokens)))
  }

  // No move opens what a refusal holds shut.
  lemma {:induction false} NextStaysShut(rules: seq<Rule>, sys: System, m: Move, w: Which, i: nat)
    requires Ready(rules, sys)
    ensures var s' := Next(rules, sys, m).state;
      && s'.BucketOf(w).frozenTill >= sys.state.BucketOf(w).frozenTill
      && (i in sys.state.windows ==> i in s'.windows && s'.windows[i].frozenTill >= sys.state.windows[i].frozenTill)
  {
    match m
    case Arrive(now, r) =>
      ReservedBuckets(rules, sys.state, now, r, w);
      ReservedWindow(rules, sys.state, now, r);
    case GiveUp(k) =>
      if k < |sys.tickets| && sys.tickets[k].status.Sleeping? {
        assert sys.tickets[k] in sys.tickets;
        RefundedBuckets(sys.state, sys.tickets[k].hold, w);
        RefundedWindow(sys.state, sys.tickets[k].hold);
      }
    case Wake(_) =>
    case Hear(r, resp, adoptAt, now) =>
      var named := RetryAfter(now, resp);
      HeardFreezesBucket(rules, sys, r, resp, adoptAt, now, w, if named.Some? then named.value else 0);
      HeardFreezesWindow(rules, sys, r, resp, adoptAt, now, i, if named.Some? then named.value else 0);
  }

  // The bucket, and the window where there is one, stay shut until `till`.
  ghost predicate BucketShut(sys: System, w: Which, till: int) { sys.state.BucketOf(w).frozenTill >= till }

  ghost predicate WindowShut(sys: System, i: nat, till: int) {
    i in sys.state.windows && sys.state.windows[i].frozenTill >= till
  }

  lemma {:induction false} AtStaysShut(run: Trace, h: nat, n: nat, w: Which, i: nat, till: int)
    requires Timely(run.moves, SW.ZERO_TIME) && h <= n <= |run.moves|
    ensures BucketShut(At(run, h), w, till) ==> BucketShut(At(run, n), w, till)
    ensures WindowShut(At(run, h), i, till) ==> WindowShut(At(run, n), i, till)
    decreases n
  {
    if h < n {
      AtStaysShut(run, h, n - 1, w, i, till);
      AtStep(run, n - 1);
      NextStaysShut(run.rules, At(run, n - 1), run.moves[n - 1], w, i);
    }
  }

  // A call that finds its bucket or its window shut is held until it opens.
  lemma {:induction false} ArriveObeys(rules: seq<Rule>, sys: System, now: WS.Clock, r: Request, w: Which, i: nat, till: int)
    requires Ready(rules, sys)
    requires (BucketFor(r) == Some(w) && BucketShut(sys, w, till))
          || (Matched(rules, r.verb, r.path) == Some(i) && WindowShut(sys, i, till))
    ensures Reserved(rules, sys.state, now, r).1.when >= till as real
  {
    ReservedWhen(rules, sys.state, now, r);
    ReservedWindow(rules, sys.state, now, r);
  }

  // A refusal is obeyed: however the limiter is used after it, every later call
  // on the refused call's bucket, and every later call under its rule, is held
  // until the instant the refusal named.
  lemma {:induction false} RefusalObeyed(run: Trace, h: nat, n: nat, till: int)
    requires Timely(run.moves, SW.ZERO_TIME) && h < n < |run.moves|
    requires run.moves[h].Hear? && Refused(run.moves[h].resp, run.moves[h].now, till) && run.moves[n].Arrive?
    requires var (r, later) := (run.moves[h].r, run.moves[n].r);
      || (BucketFor(r).Some? && BucketFor(later) == BucketFor(r))
      || (Matched(run.rules, r.verb, r.path).Some? && Matched(run.rules, later.verb, later.path) == Matched(run.rules, r.verb, r.path))
    ensures var tickets := At(run, n + 1).tickets;
      |tickets| == |At(run, n).tickets| + 1 && tickets[|tickets| - 1].hold.when >= till as real
  {
    var hear, r := run.moves[h], run.moves[h].r;
    var w := if BucketFor(r).Some? then BucketFor(r).value else Orders;
    var m := Matched(run.rules, r.verb, r.path);
    var i := if m.Some? then m.value else 0;
    AtStep(run, h);
    AtStep(run, n);
    HeardFreezesBucket(run.rules, At(run, h), r, hear.resp, hear.adoptAt, hear.now, w, till);
    HeardFreezesWindow(run.rules, At(run, h), r, hear.resp, hear.adoptAt, hear.now, i, till);
    AtStaysShut(run, h + 1, n, w, i, till);
    ArriveObeys(run.rules, At(run, n), run.moves[n].now, run.moves[n].r, w, i, till);
  }

  // Which bucket a request spends from, and how that bucket was set up: orders
  // at the tier's order rate, cancellations at its cancellation rate, both full.
  lemma {:induction false} TierServes(tier: Tier, r: Request)
    ensures r.verb == "POST" && (r.path == "/order" || r.path == "/orders") ==>
              BucketFor(r).Some? && SetUp(Initial(tier).BucketOf(BucketFor(r).value), tier.orderRate, tier.orderBurst)
    ensures r.verb == "DELETE" && (r.path == "/order" || r.path == "/orders" || r.path == "/cancel-all" || r.path == "/cancel-market-orders") ==>
              BucketFor(r).Some? && SetUp(Initial(tier).BucketOf(BucketFor(r).value), tier.cancelRate, tier.cancelBurst)
    ensures BucketFor(r).None? ||
              (r.verb == "POST" && (r.path == "/order" || r.path == "/orders")) ||
              (r.verb == "DELETE" && (r.path == "/order" || r.path == "/orders" || r.path == "/cancel-all" || r.path == "/cancel-market-orders"))
    ensures Cost(r) == if r.cost >= 1 then r.cost as real else 1.0
    ensures Initial(tier).windows == map[] && Initial(tier).warnings == 0
  {
  }

  // Orders and cancellations never share a bucket.
  lemma {:induction false} BucketsApart(a: Request, b: Request)
    requires a.verb == "POST" && b.verb == "DELETE" && BucketFor(a).Some? && BucketFor(b).Some?
    ensures BucketFor(a) != BucketFor(b)
  {
  }

  ghost predicate SetUp(b: TB.Bucket, rate: real, burst: int) {
    && b.rate == (if rate > 0.0 then rate else 1.0)
    && b.burst == (if burst >= 1 then burst else 1)
    && b.tokens == b.burst as real
    && b.updated == SW.ZERO_TIME && b.frozenTill == SW.ZERO_TIME
  }
}
