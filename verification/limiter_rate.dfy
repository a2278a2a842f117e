// The token bucket under any number of concurrent callers: what the rate allows
// however calls, cancellations and refusals interleave.

module LimiterRate {
  import opened Wrappers
  import opened Limiter
  import opened LimiterSystem
  import opened TokenBucket
  import opened BucketRate
  import SW = SlidingWindow
  import WS = WindowSafety

  // A limiter's rules and tier, and the moves made of it.
  datatype Trace = Trace(rules: seq<Rules.Rule>, tier: Tier, moves: seq<Move>)

  // The system after the first n moves.
  ghost function At(run: Trace, n: nat): (sys: System)
    requires n <= |run.moves|
  {
    Play(run.rules, Start(run.tier), run.moves[..n])
  }

  lemma {:induction false} PlayStep(rules: seq<Rules.Rule>, sys: System, moves: seq<Move>, n: nat)
    requires LimiterSystem.Inv(rules, sys) && Timely(moves, sys.clock) && n < |moves|
    ensures var before := Play(rules, sys, moves[..n]);
      && LimiterSystem.Inv(rules, before)
      && Play(rules, sys, moves[..n + 1]) == Next(rules, before, moves[n]) && Timely([moves[n]], before.clock)
    decreases n
  {
    NextInv(rules, sys, moves[0]);
    var sys' := Next(rules, sys, moves[0]);
    if n == 0 {
      assert moves[..1][1..] == [] && moves[..0] == [];
      assert Play(rules, sys', []) == sys';
    } else {
      assert moves[..n + 1][1..] == moves[1..][..n] && moves[..n][1..] == moves[1..][..n - 1];
      PlayStep(rules, sys', moves[1..], n - 1);
    }
  }

  lemma {:induction false} AtStep(run: Trace, n: nat)
    requires Timely(run.moves, SW.ZERO_TIME) && n < |run.moves|
    ensures LimiterSystem.Inv(run.rules, At(run, n))
    ensures At(run, n + 1) == Next(run.rules, At(run, n), run.moves[n])
    ensures Timely([run.moves[n]], At(run, n).clock)
  {
    PlayStep(run.rules, Start(run.tier), run.moves, n);
  }

  const GIVEN_UP: set<Status> := {Abandoned}
  const KEPT: set<Status> := {Sleeping, Sent}
  const ASLEEP: set<Status> := {Sleeping}

  // The costs that tickets lo to hi spent from a bucket, of calls so far along.
  ghost function Costs(tickets: seq<Ticket>, w: Which, of: set<Status>, lo: nat, hi: nat): (sum: real)
    requires hi <= |tickets|
    decreases hi
  {
    if hi <= lo then 0.0
    else Costs(tickets, w, of, lo, hi - 1) + Share(tickets[hi - 1], w, of)
  }

  ghost function Share(t: Ticket, w: Which, of: set<Status>): real {
    if t.hold.bucket == Some(w) && t.status in of then t.hold.cost else 0.0
  }

  lemma {:induction false} CostsAlike(a: seq<Ticket>, b: seq<Ticket>, w: Which, of: set<Status>, lo: nat, hi: nat)
    requires hi <= |a| && hi <= |b|
    requires forall i :: lo <= i < hi ==> Share(a[i], w, of) == Share(b[i], w, of)
    ensures Costs(a, w, of, lo, hi) == Costs(b, w, of, lo, hi)
    decreases hi
  {
    if lo < hi {
      CostsAlike(a, b, w, of, lo, hi - 1);
    }
  }

  // One ticket changed moves its share, and nothing else.
  lemma {:induction false} CostsChanged(tickets: seq<Ticket>, w: Which, of: set<Status>, lo: nat, hi: nat, k: nat, t: Ticket)
    requires k < |tickets| && hi <= |tickets|
    ensures Costs(tickets[k := t], w, of, lo, hi) == Costs(tickets, w, of, lo, hi) +
      if lo <= k < hi then Share(t, w, of) - Share(tickets[k], w, of) else 0.0
    decreases hi
  {
    if lo < hi {
      CostsChanged(tickets, w, of, lo, hi - 1, k, t);
    }
  }

  // How a bucket stands to a call p that found `held` in it at `since`: what it
  // holds, with what calls from p on spent and kept, is no more than it held
  // then, has earned, and was given back by earlier calls.
  ghost predicate Accounted(sys: System, w: Which, p: nat, held: real, since: int, before: real) {
    var b := sys.state.BucketOf(w);
    && p < |sys.tickets| && b.Valid()
    && SW.ZERO_TIME < since <= b.updated <= sys.clock
    && b.tokens + Costs(sys.tickets, w, KEPT, p, |sys.tickets|)
       <= held + Earned(b.rate, (b.updated - since) as real) + Costs(sys.tickets, w, GIVEN_UP, 0, p) - before
  }

  // A move that does not adopt a balance into this bucket.
  predicate Leaves(m: Move, w: Which) {
    m.Hear? ==> m.resp.remaining.None? || BucketFor(m.r) != Some(w)
  }

  predicate Asks(m: Move, w: Which) { m.Arrive? && BucketFor(m.r) == Some(w) }

  lemma {:induction false} SpentEarns(b: Bucket, now: int, cost: real, since: int)
    requires b.Valid() && SW.ZERO_TIME < since <= b.updated <= now && cost >= 0.0
    ensures var b' := b.Spent(now, cost);
      && b'.Valid() && b'.updated == now && b'.rate == b.rate
      && b'.tokens + cost <= b.tokens + Earned(b.rate, (now - since) as real) - Earned(b.rate, (b.updated - since) as real)
  {
    EarnedOrders(b.rate, Elapsed(now, b.updated) as real, (now - b.updated) as real);
    EarnedAdds(b.rate, (now - b.updated) as real, (b.updated - since) as real);
    assert (now - since) as real == (now - b.updated) as real + (b.updated - since) as real;
  }

  lemma {:induction false} CostsAdded(tickets: seq<Ticket>, t: Ticket, w: Which, p: nat)
    requires p <= |tickets|
    ensures var n := |tickets|;
      && Costs(tickets + [t], w, KEPT, p, n + 1) == Costs(tickets, w, KEPT, p, n) + Share(t, w, KEPT)
      && Costs(tickets + [t], w, GIVEN_UP, 0, p) == Costs(tickets, w, GIVEN_UP, 0, p)
  {
    CostsAlike(tickets, tickets + [t], w, KEPT, p, |tickets|);
    CostsAlike(tickets, tickets + [t], w, GIVEN_UP, 0, p);
  }

  lemma {:induction false} ArriveAccounted(rules: seq<Rules.Rule>, sys: System, now: WS.Clock, r: Request,
                                           w: Which, p: nat, held: real, since: int, before: real)
    requires LimiterSystem.Inv(rules, sys) && sys.clock <= now && Accounted(sys, w, p, held, since, before)
    ensures Accounted(Next(rules, sys, Arrive(now, r)), w, p, held, since, before)
  {
    var tickets := Next(rules, sys, Arrive(now, r)).tickets;
    ReservedBuckets(rules, sys.state, now, r, w);
    ReservedWhen(rules, sys.state, now, r);
    CostsAdded(sys.tickets, tickets[|sys.tickets|], w, p);
    SpentEarns(sys.state.BucketOf(w), now, Cost(r), since);
  }

  lemma {:induction false} GiveUpAccounted(rules: seq<Rules.Rule>, sys: System, k: nat,
                                           w: Which, p: nat, held: real, since: int, before: real)
    requires LimiterSystem.Inv(rules, sys) && Accounted(sys, w, p, held, since, before)
    requires k < |sys.tickets| && sys.tickets[k].status.Sleeping?
    ensures Accounted(Next(rules, sys, GiveUp(k)), w, p, held, since, before)
  {
    var t := sys.tickets[k];
    assert t in sys.tickets && Fits(sys.state, t.hold);
    RefundedBuckets(sys.state, t.hold, w);
    CostsChanged(sys.tickets, w, KEPT, p, |sys.tickets|, k, t.(status := Abandoned));
    CostsChanged(sys.tickets, w, GIVEN_UP, 0, p, k, t.(status := Abandoned));
  }

  lemma {:induction false} NextAccounted(rules: seq<Rules.Rule>, sys: System, m: Move,
                                         w: Which, p: nat, held: real, since: int, before: real)
    requires LimiterSystem.Inv(rules, sys) && Timely([m], sys.clock) && Leaves(m, w)
    requires Accounted(sys, w, p, held, since, before)
    ensures Accounted(Next(rules, sys, m), w, p, held, since, before)
  {
    match m
    case Arrive(now, r) => ArriveAccounted(rules, sys, now, r, w, p, held, since, before);
    case GiveUp(k) =>
      if k < |sys.tickets| && sys.tickets[k].status.Sleeping? {
        GiveUpAccounted(rules, sys, k, w, p, held, since, before);
      }
    case Wake(k) =>
      if k < |sys.tickets| && sys.tickets[k].status.Sleeping? {
        CostsChanged(sys.tickets, w, KEPT, p, |sys.tickets|, k, sys.tickets[k].(status := Sent));
        CostsChanged(sys.tickets, w, GIVEN_UP, 0, p, k, sys.tickets[k].(status := Sent));
      }
    case Hear(r, resp, adoptAt, now) =>
      ObservedBuckets(rules, sys.state, r, resp, adoptAt, now, w);
  }

  lemma {:induction false} NextSettled(rules: seq<Rules.Rule>, sys: System, m: Move, w: Which)
    requires LimiterSystem.Inv(rules, sys) && Timely([m], sys.clock) && sys.state.BucketOf(w).updated <= sys.clock
    ensures var sys' := Next(rules, sys, m);
      && sys'.state.BucketOf(w).updated <= sys'.clock
      && sys'.state.BucketOf(w).rate == sys.state.BucketOf(w).rate
      && sys'.state.BucketOf(w).burst == sys.state.BucketOf(w).burst
  {
    match m
    case Arrive(now, r) => ReservedBuckets(rules, sys.state, now, r, w);
    case GiveUp(k) =>
      if k < |sys.tickets| && sys.tickets[k].status.Sleeping? {
        assert sys.tickets[k] in sys.tickets;
        RefundedBuckets(sys.state, sys.tickets[k].hold, w);
      }
    case Wake(_) =>
    case Hear(r, resp, adoptAt, now) => ObservedBuckets(rules, sys.state, r, resp, adoptAt, now, w);
  }

  lemma {:induction false} AtSettled(run: Trace, n: nat, w: Which)
    requires Timely(run.moves, SW.ZERO_TIME) && n <= |run.moves|
    ensures var b := At(run, n).state.BucketOf(w);
      && b.updated <= At(run, n).clock
      && b.rate == Initial(run.tier).BucketOf(w).rate && b.burst == Initial(run.tier).BucketOf(w).burst
    decreases n
  {
    if n == 0 {
      assert run.moves[..0] == [];
    } else {
      AtSettled(run, n - 1, w);
      AtStep(run, n - 1);
      NextSettled(run.rules, At(run, n - 1), run.moves[n - 1], w);
    }
  }

  // The bucket a call finds.
  ghost function FoundBy(run: Trace, m: nat, w: Which): (b: Bucket)
    requires m < |run.moves|
    ensures b.Valid()
  {
    PlayInv(run.rules, Start(run.tier), run.moves[..m]);
    At(run, m).state.BucketOf(w)
  }

  lemma {:induction false} AtAccounted(run: Trace, n: nat,
                                       w: Which, p: nat, held: real, since: int, before: real)
    requires Timely(run.moves, SW.ZERO_TIME) && n < |run.moves| && Leaves(run.moves[n], w)
    requires Accounted(At(run, n), w, p, held, since, before)
    ensures Accounted(At(run, n + 1), w, p, held, since, before)
  {
    AtStep(run, n);
    NextAccounted(run.rules, At(run, n), run.moves[n], w, p, held, since, before);
  }

  // A bucket once accounted for stays so until a balance is adopted.
  lemma {:induction false} StaysAccounted(run: Trace, m: nat, n: nat,
                                          w: Which, p: nat, held: real, since: int, before: real)
    requires Timely(run.moves, SW.ZERO_TIME) && m < n <= |run.moves|
    requires forall i :: m < i < n ==> Leaves(run.moves[i], w)
    requires Accounted(At(run, m + 1), w, p, held, since, before)
    ensures Accounted(At(run, n), w, p, held, since, before)
    decreases n
  {
    if m + 1 < n {
      StaysAccounted(run, m, n - 1, w, p, held, since, before);
      AtAccounted(run, n - 1, w, p, held, since, before);
    }
  }

  lemma {:induction false} FirstAccounted(rules: seq<Rules.Rule>, sys: System, now: WS.Clock, r: Request, w: Which)
    requires LimiterSystem.Inv(rules, sys) && sys.clock <= now && BucketFor(r) == Some(w)
    requires sys.state.BucketOf(w).updated <= sys.clock
    ensures Accounted(Next(rules, sys, Arrive(now, r)), w, |sys.tickets|, sys.state.BucketOf(w).Refilled(now).tokens, now,
                      Costs(sys.tickets, w, GIVEN_UP, 0, |sys.tickets|))
  {
    var tickets := Next(rules, sys, Arrive(now, r)).tickets;
    ReservedBuckets(rules, sys.state, now, r, w);
    ReservedWhen(rules, sys.state, now, r);
    CostsAdded(sys.tickets, tickets[|sys.tickets|], w, |sys.tickets|);
    assert Earned(sys.state.BucketOf(w).rate, 0.0) == 0.0;
  }

  // The call a move makes: the ticket it adds, and the time its bucket gave it.
  ghost function CallOf(run: Trace, m: nat): nat
    requires m < |run.moves|
  {
    |At(run, m).tickets|
  }

  ghost function BucketTime(run: Trace, m: nat, w: Which): real
    requires m < |run.moves| && run.moves[m].Arrive?
  {
    FoundBy(run, m, w).SendTime(run.moves[m].now, Cost(run.moves[m].r))
  }

  // The ticket of call m holds this bucket time, and goes no earlier.
  ghost predicate Holds(run: Trace, m: nat, t: real)
    requires m < |run.moves|
  {
    var tickets, k := At(run, m + 1).tickets, CallOf(run, m);
    |tickets| == k + 1 && tickets[k].hold.bucketTime == t <= tickets[k].hold.when
  }

  lemma {:induction false} TicketTimes(run: Trace, m: nat, w: Which)
    requires Timely(run.moves, SW.ZERO_TIME) && m < |run.moves| && Asks(run.moves[m], w)
    ensures Holds(run, m, BucketTime(run, m, w))
  {
    AtStep(run, m);
    ReservedWhen(run.rules, At(run, m).state, run.moves[m].now, run.moves[m].r);
  }

  // Kept by the time call n has asked: what calls m to n spent, less what those
  // of them given up got back.
  ghost function KeptBetween(run: Trace, m: nat, n: nat, w: Which): real
    requires m <= n < |run.moves|
  {
    var sys := At(run, n + 1);
    Costs(sys.tickets, w, KEPT, CallOf(run, m), |sys.tickets|)
  }

  // Given back between calls m and n to calls that asked before m.
  ghost function GivenBackBetween(run: Trace, m: nat, n: nat, w: Which): real
    requires m <= n < |run.moves| && CallOf(run, m) <= |At(run, n + 1).tickets|
  {
    var earlier := CallOf(run, m);
    Costs(At(run, n + 1).tickets, w, GIVEN_UP, 0, earlier)
    - Costs(At(run, m).tickets, w, GIVEN_UP, 0, earlier)
  }

  // By the time a request goes, its bucket has earned back what it overdrew.
  lemma {:induction false} PaidBySend(b: Bucket, now: int, cost: real)
    requires b.Valid()
    ensures b.Spent(now, cost).tokens + Earned(b.rate, b.SendTime(now, cost) - now as real) >= 0.0
  {
    FundingDelay(b, now, cost);
    EarnedOrders(b.rate, b.FundedTime(now, cost) - now as real, b.SendTime(now, cost) - now as real);
  }

  lemma {:induction false} EarnedThrough(rate: real, since: int, now: int, t: real)
    ensures Earned(rate, (now - since) as real) + Earned(rate, t - now as real) == Earned(rate, t - since as real)
  {
    EarnedAdds(rate, (now - since) as real, t - now as real);
    assert (now - since) as real + (t - now as real) == t - since as real;
  }

  // What is kept once a call has asked, against when that call may go.
  lemma {:induction false} KeptNow(rules: seq<Rules.Rule>, sys: System, now: WS.Clock, r: Request,
                                   w: Which, p: nat, held: real, since: int, before: real)
    requires LimiterSystem.Inv(rules, sys) && BucketFor(r) == Some(w) && sys.state.BucketOf(w).updated <= now
    requires Accounted(Next(rules, sys, Arrive(now, r)), w, p, held, since, before)
    ensures var found, tickets := sys.state.BucketOf(w), Next(rules, sys, Arrive(now, r)).tickets;
      Costs(tickets, w, KEPT, p, |tickets|)
        <= held + Earned(found.rate, found.SendTime(now, Cost(r)) - since as real) + Costs(tickets, w, GIVEN_UP, 0, p) - before
  {
    var found := sys.state.BucketOf(w);
    ReservedBuckets(rules, sys.state, now, r, w);
    PaidBySend(found, now, Cost(r));
    EarnedThrough(found.rate, since, now, found.SendTime(now, Cost(r)));
  }

  lemma {:induction false} AtFirst(run: Trace, m: nat, w: Which)
    requires Timely(run.moves, SW.ZERO_TIME) && m < |run.moves| && Asks(run.moves[m], w)
    ensures var sys := At(run, m);
      Accounted(At(run, m + 1), w, |sys.tickets|, sys.state.BucketOf(w).Refilled(run.moves[m].now).tokens, run.moves[m].now,
                Costs(sys.tickets, w, GIVEN_UP, 0, |sys.tickets|))
  {
    AtSettled(run, m, w);
    AtStep(run, m);
    FirstAccounted(run.rules, At(run, m), run.moves[m].now, run.moves[m].r, w);
  }

  lemma {:induction false} AtKept(run: Trace, n: nat,
                                  w: Which, p: nat, held: real, since: int, before: real)
    requires Timely(run.moves, SW.ZERO_TIME) && n < |run.moves| && Asks(run.moves[n], w)
    requires Accounted(At(run, n + 1), w, p, held, since, before)
    ensures var tickets := At(run, n + 1).tickets;
      Costs(tickets, w, KEPT, p, |tickets|)
        <= held + Earned(FoundBy(run, n, w).rate, BucketTime(run, n, w) - since as real)
           + Costs(tickets, w, GIVEN_UP, 0, p) - before
  {
    AtSettled(run, n, w);
    AtStep(run, n);
    KeptNow(run.rules, At(run, n), run.moves[n].now, run.moves[n].r, w, p, held, since, before);
  }

  lemma {:induction false} KeptBound(run: Trace, m: nat, n: nat, w: Which)
    requires Timely(run.moves, SW.ZERO_TIME) && m <= n < |run.moves| && Asks(run.moves[m], w) && Asks(run.moves[n], w)
    requires forall i :: m < i < n ==> Leaves(run.moves[i], w)
    ensures CallOf(run, m) <= |At(run, n + 1).tickets|
    ensures KeptBetween(run, m, n, w)
         <= FoundBy(run, m, w).Refilled(run.moves[m].now).tokens
            + Earned(FoundBy(run, m, w).rate, BucketTime(run, n, w) - run.moves[m].now as real)
            + GivenBackBetween(run, m, n, w)
  {
    var a, now := At(run, m), run.moves[m].now;
    var p, held := |a.tickets|, a.state.BucketOf(w).Refilled(now).tokens;
    var before := Costs(a.tickets, w, GIVEN_UP, 0, p);
    AtFirst(run, m, w);
    StaysAccounted(run, m, n + 1, w, p, held, now, before);
    AtKept(run, n, w, p, held, now, before);
    AtSettled(run, m, w);
    AtSettled(run, n, w);
  }

  // However calls, cancellations and refusals interleave, and whatever freezes
  // the first of two calls met: those between them that are not given up cost no
  // more than its bucket held by its own time, what the rate earns from there to
  // the other's, and what was given back meanwhile to calls that asked before.
  lemma {:induction false} RateHoldsPerBucket(run: Trace, m: nat, n: nat, w: Which)
    requires Timely(run.moves, SW.ZERO_TIME) && m <= n < |run.moves| && Asks(run.moves[m], w) && Asks(run.moves[n], w)
    requires forall i :: m < i < n ==> Leaves(run.moves[i], w)
    ensures Holds(run, m, BucketTime(run, m, w)) && Holds(run, n, BucketTime(run, n, w))
    ensures CallOf(run, m) <= |At(run, n + 1).tickets|
    ensures KeptBetween(run, m, n, w)
         <= HeldBySend(FoundBy(run, m, w), run.moves[m].now, Cost(run.moves[m].r))
            + Earned(FoundBy(run, m, w).rate, BucketTime(run, n, w) - BucketTime(run, m, w))
            + GivenBackBetween(run, m, n, w)
  {
    var b, nm := FoundBy(run, m, w), run.moves[m].now as real;
    var tm, tn := BucketTime(run, m, w), BucketTime(run, n, w);
    TicketTimes(run, m, w);
    TicketTimes(run, n, w);
    KeptBound(run, m, n, w);
    HeldAtSend(b, run.moves[m].now, Cost(run.moves[m].r));
    EarnedAdds(b.rate, tn - tm, tm - nm);
  }
}
