// Exactly when the rate bound survives calls being given up: what a call must
// find of its bucket, its freeze and the calls still asleep, for the bound to
// hold from it on however everything interleaves.

module LimiterExact {
  import opened Limiter
  import opened LimiterSystem
  import opened LimiterRate
  import opened TokenBucket
  import opened BucketRate
  import SW = SlidingWindow
  import WS = WindowSafety

  // Between calls m and n, those not given up cost at most one burst (or the
  // first of them) and what the rate earns from the one's time to the other's.
  ghost predicate Within(run: Trace, m: nat, n: nat, w: Which)
    requires m <= n < |run.moves| && run.moves[m].Arrive? && run.moves[n].Arrive?
  {
    var b := FoundBy(run, m, w);
    KeptBetween(run, m, n, w)
      <= Max(b.burst as real, Cost(run.moves[m].r)) + Earned(b.rate, BucketTime(run, n, w) - BucketTime(run, m, w))
  }

  // A forward clock, and no balance adopted into this bucket after call m.
  ghost predicate Undisturbed(run: Trace, m: nat, w: Which) {
    && Timely(run.moves, SW.ZERO_TIME)
    && forall i :: m < i < |run.moves| ==> Leaves(run.moves[i], w)
  }

  ghost predicate BoundFrom(run: Trace, m: nat, w: Which) {
    forall n :: m <= n < |run.moves| && m < |run.moves| && run.moves[m].Arrive? && Asks(run.moves[n], w) ==> Within(run, m, n, w)
  }

  // What calls still asleep would be given back, were they given up.
  ghost function Pending(run: Trace, m: nat, w: Which): real
    requires m < |run.moves|
  {
    var tickets := At(run, m).tickets;
    Costs(tickets, w, ASLEEP, 0, |tickets|)
  }

  // What call m can tell when it asks: all its bucket will have held by its send,
  // and all that may yet be given back, fit a burst or this one call.
  ghost predicate Covered(run: Trace, m: nat, w: Which)
    requires m < |run.moves| && run.moves[m].Arrive?
  {
    var b, cost := FoundBy(run, m, w), Cost(run.moves[m].r);
    HeldBySend(b, run.moves[m].now, cost) + Pending(run, m, w) <= Max(b.burst as real, cost)
  }

  // Every call costs at least one token.
  ghost predicate Costed(tickets: seq<Ticket>) {
    forall i :: 0 <= i < |tickets| ==> tickets[i].hold.cost >= 1.0
  }

  lemma {:induction false} AtCosted(run: Trace, n: nat)
    requires Timely(run.moves, SW.ZERO_TIME) && n <= |run.moves|
    ensures Costed(At(run, n).tickets)
    decreases n
  {
    if n == 0 {
      assert run.moves[..0] == [];
    } else {
      AtCosted(run, n - 1);
      AtStep(run, n - 1);
      if run.moves[n - 1].Arrive? {
        ReservedWhen(run.rules, At(run, n - 1).state, run.moves[n - 1].now, run.moves[n - 1].r);
      }
    }
  }

  lemma {:induction false} CostsSplit(tickets: seq<Ticket>, w: Which, hi: nat)
    requires hi <= |tickets|
    ensures Costs(tickets, w, {Abandoned, Sleeping}, 0, hi) == Costs(tickets, w, GIVEN_UP, 0, hi) + Costs(tickets, w, ASLEEP, 0, hi)
    decreases hi
  {
    if hi > 0 {
      CostsSplit(tickets, w, hi - 1);
    }
  }

  lemma {:induction false} CostsNotNegative(tickets: seq<Ticket>, w: Which, of: set<Status>, lo: nat, hi: nat)
    requires hi <= |tickets| && Costed(tickets)
    ensures Costs(tickets, w, of, lo, hi) >= 0.0
    decreases hi
  {
    if lo < hi {
      CostsNotNegative(tickets, w, of, lo, hi - 1);
    }
  }

  // Given back or still to be: of the first p calls it never grows.
  lemma {:induction false} NextReturns(rules: seq<Rules.Rule>, sys: System, m: Move, w: Which, p: nat)
    requires LimiterSystem.Ready(rules, sys) && Costed(sys.tickets) && p <= |sys.tickets|
    ensures var tickets := Next(rules, sys, m).tickets;
      |tickets| >= |sys.tickets| && Costs(tickets, w, {Abandoned, Sleeping}, 0, p) <= Costs(sys.tickets, w, {Abandoned, Sleeping}, 0, p)
  {
    var tickets := Next(rules, sys, m).tickets;
    match m
    case Arrive(now, r) => CostsAlike(sys.tickets, tickets, w, {Abandoned, Sleeping}, 0, p);
    case GiveUp(k) =>
      if k < |sys.tickets| && sys.tickets[k].status.Sleeping? {
        CostsChanged(sys.tickets, w, {Abandoned, Sleeping}, 0, p, k, sys.tickets[k].(status := Abandoned));
      }
    case Wake(k) =>
      if k < |sys.tickets| && sys.tickets[k].status.Sleeping? {
        CostsChanged(sys.tickets, w, {Abandoned, Sleeping}, 0, p, k, sys.tickets[k].(status := Sent));
      }
    case Hear(_, _, _, _) =>
  }

  lemma {:induction false} AtReturns(run: Trace, m: nat, n: nat, w: Which)
    requires Timely(run.moves, SW.ZERO_TIME) && m <= n <= |run.moves|
    ensures var p := |At(run, m).tickets|;
      && p <= |At(run, n).tickets|
      && Costs(At(run, n).tickets, w, {Abandoned, Sleeping}, 0, p) <= Costs(At(run, m).tickets, w, {Abandoned, Sleeping}, 0, p)
    decreases n
  {
    if m < n {
      AtReturns(run, m, n - 1, w);
      AtCosted(run, n - 1);
      AtStep(run, n - 1);
      NextReturns(run.rules, At(run, n - 1), run.moves[n - 1], w, |At(run, m).tickets|);
    }
  }

  // No more is given back after call m asks than was asleep when it did.
  lemma {:induction false} GivenBackPending(run: Trace, m: nat, n: nat, w: Which)
    requires Timely(run.moves, SW.ZERO_TIME) && m <= n < |run.moves|
    ensures CallOf(run, m) <= |At(run, n + 1).tickets|
    ensures GivenBackBetween(run, m, n, w) <= Pending(run, m, w)
  {
    var p := CallOf(run, m);
    AtReturns(run, m, n + 1, w);
    AtCosted(run, n + 1);
    CostsSplit(At(run, m).tickets, w, p);
    CostsSplit(At(run, n + 1).tickets, w, p);
    CostsNotNegative(At(run, n + 1).tickets, w, ASLEEP, 0, p);
  }

  // So a covered call's bound holds, over every interleaving.
  lemma {:induction false} CoveredHolds(run: Trace, m: nat, w: Which)
    requires m < |run.moves| && Asks(run.moves[m], w) && Undisturbed(run, m, w) && Covered(run, m, w)
    ensures BoundFrom(run, m, w)
  {
    forall n | m <= n < |run.moves| && Asks(run.moves[n], w) ensures Within(run, m, n, w) {
      RateHoldsPerBucket(run, m, n, w);
      GivenBackPending(run, m, n, w);
    }
  }

  // A call whose bound is broken later was not covered.
  lemma {:induction false} BrokenUncovered(run: Trace, m: nat, n: nat, w: Which)
    requires m <= n < |run.moves| && Asks(run.moves[m], w) && Asks(run.moves[n], w) && Undisturbed(run, m, w)
    requires !Within(run, m, n, w)
    ensures !Covered(run, m, w)
  {
    if Covered(run, m, w) {
      CoveredHolds(run, m, w);
    }
  }

  // Two spends at one reading find one refill.
  lemma {:induction false} SpentTwice(b: Bucket, now: int, cost: real, more: real)
    requires SW.ZERO_TIME < now && b.updated <= now
    ensures b.Spent(now, cost).Spent(now, more) == b.Refilled(now).(tokens := b.Refilled(now).tokens - cost - more)
  {
  }

  // After two spends and a refund of no more than the second, a third that waits
  // out what is left waits past the freeze.
  lemma {:induction false} LastWaits(b: Bucket, now: int, cost: real, more: real, back: real, last: real)
    requires b.Valid() && SW.ZERO_TIME < now && b.updated <= now
    requires cost >= 0.0 && more >= back && last >= b.Refilled(now).tokens && last >= ThawedWith(b, now)
    ensures var held := b.Refilled(now).tokens;
      var left := b.Refilled(now).(tokens := held - cost - more + back);
      Earned(b.rate, left.SendTime(now, last) - now as real) == cost + more + last - held - back
  {
    var held := b.Refilled(now).tokens;
    var left := b.Refilled(now).(tokens := held - cost - more + back);
    FundingDelay(left, now, last);
    assert left.Refilled(now) == left;
    EarnedOrders(b.rate, (b.frozenTill - now) as real, left.FundedTime(now, last) - now as real);
  }

  // The system once the first j of its calls have given up if they slept: the
  // bucket has back what was asleep, and the calls after those are untouched.
  ghost predicate GaveUp(before: System, sys: System, w: Which, j: nat)
    requires j <= |before.tickets|
  {
    && |sys.tickets| == |before.tickets|
    && (forall i :: j <= i < |sys.tickets| ==> sys.tickets[i] == before.tickets[i])
    && sys.state.BucketOf(w) ==
         before.state.BucketOf(w).(tokens := before.state.BucketOf(w).tokens + Costs(before.tickets, w, ASLEEP, 0, j))
  }

  lemma {:induction false} GiveUpNext(rules: seq<Rules.Rule>, before: System, sys: System, w: Which, j: nat)
    requires LimiterSystem.Ready(rules, sys) && j < |before.tickets| && GaveUp(before, sys, w, j)
    requires before.state.BucketOf(w).tokens + Costs(before.tickets, w, ASLEEP, 0, j + 1) <= before.state.BucketOf(w).burst as real
    ensures GaveUp(before, Next(rules, sys, GiveUp(j)), w, j + 1)
  {
    var t := sys.tickets[j];
    assert t in sys.tickets;
    if t.status.Sleeping? {
      RefundedBuckets(sys.state, t.hold, w);
    }
  }

  function GiveUps(p: nat): (moves: seq<Move>)
    ensures |moves| == p && forall i :: 0 <= i < p ==> moves[i] == GiveUp(i)
  {
    seq(p, i requires 0 <= i < p => GiveUp(i))
  }

  lemma {:induction false} CostsGrow(tickets: seq<Ticket>, w: Which, of: set<Status>, i: nat, j: nat)
    requires i <= j <= |tickets| && Costed(tickets)
    ensures Costs(tickets, w, of, 0, i) <= Costs(tickets, w, of, 0, j)
    decreases j
  {
    if i < j {
      CostsGrow(tickets, w, of, i, j - 1);
    }
  }

  // From move n on, the first j calls give up in order.
  lemma {:induction false} GivingUp(run: Trace, n: nat, p: nat, j: nat, w: Which)
    requires Timely(run.moves, SW.ZERO_TIME) && j <= p && n + p <= |run.moves|
    requires forall k :: n <= k < n + p ==> run.moves[k] == GiveUp(k - n)
    requires p <= |At(run, n).tickets|
    requires var sys := At(run, n);
      sys.state.BucketOf(w).tokens + Costs(sys.tickets, w, ASLEEP, 0, p) <= sys.state.BucketOf(w).burst as real
    ensures GaveUp(At(run, n), At(run, n + j), w, j)
    decreases j
  {
    if j > 0 {
      GivingUp(run, n, p, j - 1, w);
      AtCosted(run, n);
      CostsGrow(At(run, n).tickets, w, ASLEEP, j, p);
      AtStep(run, n + j - 1);
      GiveUpNext(run.rules, At(run, n), At(run, n + j - 1), w, j - 1);
    }
  }

  // The clock a run of moves leaves.
  ghost function ClockAfter(moves: seq<Move>, clock: int): int {
    if moves == [] then clock
    else
      var next := match moves[0]
                  case Arrive(now, _) => now as int
                  case Hear(_, _, _, now) => now as int
                  case _ => clock;
      ClockAfter(moves[1..], next)
  }

  lemma {:induction false} TimelyThen(moves: seq<Move>, more: seq<Move>, clock: int)
    requires Timely(moves, clock) && Timely(more, ClockAfter(moves, clock))
    ensures Timely(moves + more, clock)
    decreases |moves|
  {
    if moves == [] {
      assert moves + more == more;
    } else {
      assert (moves + more)[1..] == moves[1..] + more;
      match moves[0]
      case Arrive(now, _) => TimelyThen(moves[1..], more, now);
      case Hear(_, _, _, now) => TimelyThen(moves[1..], more, now);
      case _ => TimelyThen(moves[1..], more, clock);
    }
  }

  lemma {:induction false} ClockLast(moves: seq<Move>, clock: int)
    requires moves != [] && moves[|moves| - 1].Arrive?
    ensures ClockAfter(moves, clock) == moves[|moves| - 1].now
    decreases |moves|
  {
    if |moves| == 1 {
      assert moves[1..] == [];
    } else {
      match moves[0]
      case Arrive(now, _) => ClockLast(moves[1..], now);
      case Hear(_, _, _, now) => ClockLast(moves[1..], now);
      case _ => ClockLast(moves[1..], clock);
    }
  }

  lemma {:induction false} GiveUpsTimely(moves: seq<Move>, last: Move, now: WS.Clock)
    requires last.Arrive? && last.now == now && forall i :: 0 <= i < |moves| ==> moves[i].GiveUp?
    ensures Timely(moves + [last], now)
    decreases |moves|
  {
    if moves == [] {
      assert moves + [last] == [last] && [last][1..] == [];
    } else {
      assert (moves + [last])[1..] == moves[1..] + [last];
      GiveUpsTimely(moves[1..], last, now);
    }
  }

  // A run, and more moves after it.
  ghost function Continued(run: Trace, more: seq<Move>): Trace { run.(moves := run.moves + more) }

  // One call more, everyone asleep before call m giving up, and one call more.
  ghost function Spoilers(first: Move, p: nat, last: Move): (moves: seq<Move>)
    ensures |moves| == p + 2 && moves[0] == first && moves[p + 1] == last
  {
    [first] + GiveUps(p) + [last]
  }

  // The next whole number of tokens, and at least one.
  function Whole(x: real): (n: int)
    ensures n >= 1 && n as real >= x
  {
    if x <= 1.0 then 1 else x.Floor + 1
  }

  // Another call like this one, of another cost, at the same reading.
  function Again(m: Move, cost: int): Move
    requires m.Arrive?
  {
    Arrive(m.now, m.r.(cost := cost))
  }

  lemma {:induction false} SpoilersUndisturbed(run: Trace, m: nat, first: int, p: nat, last: int, w: Which)
    requires |run.moves| == m + 1 && Undisturbed(run, m, w) && Asks(run.moves[m], w)
    ensures Undisturbed(Continued(run, Spoilers(Again(run.moves[m], first), p, Again(run.moves[m], last))), m, w)
  {
    var now, a, z := run.moves[m].now, Again(run.moves[m], first), Again(run.moves[m], last);
    GiveUpsTimely(GiveUps(p), z, now);
    ClockLast(run.moves, SW.ZERO_TIME);
    assert Spoilers(a, p, z) == [a] + (GiveUps(p) + [z]);
    assert Spoilers(a, p, z)[1..] == GiveUps(p) + [z];
    assert Timely(Spoilers(a, p, z), now);
    TimelyThen(run.moves, Spoilers(a, p, z), SW.ZERO_TIME);
  }

  lemma {:induction false} ContinuedAt(run: Trace, more: seq<Move>, n: nat)
    requires n <= |run.moves|
    ensures At(Continued(run, more), n) == At(run, n)
  {
    assert Continued(run, more).moves[..n] == run.moves[..n];
  }

  // What a call adds to the system: its ticket, and its cost off the bucket.
  lemma {:induction false} AskedStep(run: Trace, n: nat, w: Which)
    requires Timely(run.moves, SW.ZERO_TIME) && n < |run.moves| && Asks(run.moves[n], w)
    ensures var (sys, sys', cost) := (At(run, n), At(run, n + 1), Cost(run.moves[n].r));
      && sys'.state.BucketOf(w) == sys.state.BucketOf(w).Spent(run.moves[n].now, cost)
      && |sys'.tickets| == |sys.tickets| + 1
      && sys'.tickets[..|sys.tickets|] == sys.tickets
      && Share(sys'.tickets[|sys.tickets|], w, KEPT) == cost
  {
    AtStep(run, n);
    ReservedBuckets(run.rules, At(run, n).state, run.moves[n].now, run.moves[n].r, w);
    ReservedWhen(run.rules, At(run, n).state, run.moves[n].now, run.moves[n].r);
  }

  // A run that call m ends, then its spoilers.
  ghost predicate Spoiled(run: Trace, m: nat, first: int, p: nat, last: int, w: Which) {
    && |run.moves| == m + 3 + p && Timely(run.moves, SW.ZERO_TIME) && Asks(run.moves[m], w)
    && run.moves[m + 1] == Again(run.moves[m], first) && run.moves[m + 2 + p] == Again(run.moves[m], last)
    && (forall k :: m + 2 <= k < m + 2 + p ==> run.moves[k] == GiveUp(k - m - 2))
    && p == CallOf(run, m) && first >= 1 && last >= 1
    && first as real >= Pending(run, m, w)
  }

  // Two calls asked at one reading: the system they leave.
  lemma {:induction false} TwoAsked(run: Trace, m: nat, first: int, p: nat, last: int, w: Which)
    requires Spoiled(run, m, first, p, last, w)
    ensures var (a, sys, now, cost) := (At(run, m), At(run, m + 2), run.moves[m].now, Cost(run.moves[m].r));
      && sys.state.BucketOf(w) ==
           a.state.BucketOf(w).Refilled(now).(tokens := a.state.BucketOf(w).Refilled(now).tokens - cost - first as real)
      && |sys.tickets| == p + 2 && sys.tickets[..p] == a.tickets
      && Share(sys.tickets[p], w, KEPT) == cost && Share(sys.tickets[p + 1], w, KEPT) == first as real
      && Costs(sys.tickets, w, ASLEEP, 0, p) == Pending(run, m, w)
  {
    AskedStep(run, m, w);
    AskedStep(run, m + 1, w);
    AtSettled(run, m, w);
    AtStep(run, m);
    SpentTwice(At(run, m).state.BucketOf(w), run.moves[m].now, Cost(run.moves[m].r), first as real);
    var tickets := At(run, m + 2).tickets;
    assert tickets[..p + 1][..p] == tickets[..p] && tickets[..p + 1][p] == tickets[p];
    forall i | 0 <= i < p ensures tickets[i] == At(run, m).tickets[i] {
      assert tickets[i] == tickets[..p][i];
    }
    CostsAlike(tickets, At(run, m).tickets, w, ASLEEP, 0, p);
  }

  lemma {:induction false} FoundFits(run: Trace, m: nat, w: Which)
    requires Timely(run.moves, SW.ZERO_TIME) && m < |run.moves| && run.moves[m].Arrive?
    ensures FoundBy(run, m, w).Refilled(run.moves[m].now).Valid() && Cost(run.moves[m].r) >= 1.0
  {
  }

  // Then everyone asleep before gives up: what is found next, and who is left.
  lemma {:induction false} AllGivenUp(run: Trace, m: nat, first: int, p: nat, last: int, w: Which)
    requires Spoiled(run, m, first, p, last, w)
    ensures var (a, sys, now, cost) := (At(run, m), At(run, m + 2 + p), run.moves[m].now, Cost(run.moves[m].r));
      && sys.state.BucketOf(w) ==
           a.state.BucketOf(w).Refilled(now).(tokens :=
             a.state.BucketOf(w).Refilled(now).tokens - cost - first as real + Pending(run, m, w))
      && |sys.tickets| == p + 2
      && Share(sys.tickets[p], w, KEPT) == cost && Share(sys.tickets[p + 1], w, KEPT) == first as real
  {
    TwoAsked(run, m, first, p, last, w);
    FoundFits(run, m, w);
    var two := At(run, m + 2);
    assert two.state.BucketOf(w).tokens + Costs(two.tickets, w, ASLEEP, 0, p) <= two.state.BucketOf(w).burst as real;
    GivingUp(run, m + 2, p, p, w);
    assert GaveUp(two, At(run, m + 2 + p), w, p);
  }

  // When the last call's bucket lets it go, and what is kept once it has asked.
  lemma {:induction false} LastTimed(run: Trace, m: nat, first: int, p: nat, last: int, w: Which)
    requires Spoiled(run, m, first, p, last, w)
    requires last as real >= FoundBy(run, m, w).Refilled(run.moves[m].now).tokens
    requires last as real >= ThawedWith(FoundBy(run, m, w), run.moves[m].now)
    ensures var (b, now) := (FoundBy(run, m, w), run.moves[m].now);
      Earned(b.rate, BucketTime(run, m + 2 + p, w) - now as real)
        == Cost(run.moves[m].r) + first as real + last as real - b.Refilled(now).tokens - Pending(run, m, w)
  {
    AllGivenUp(run, m, first, p, last, w);
    AtSettled(run, m, w);
    AtStep(run, m);
    LastWaits(FoundBy(run, m, w), run.moves[m].now, Cost(run.moves[m].r), first as real, Pending(run, m, w), last as real);
  }

  lemma {:induction false} LastKept(run: Trace, m: nat, first: int, p: nat, last: int, w: Which)
    requires Spoiled(run, m, first, p, last, w)
    ensures KeptBetween(run, m, m + 2 + p, w) == Cost(run.moves[m].r) + first as real + last as real
  {
    AllGivenUp(run, m, first, p, last, w);
    AskedStep(run, m + 2 + p, w);
    var tickets := At(run, m + 3 + p).tickets;
    assert tickets[p] == tickets[..p + 2][p] && tickets[p + 1] == tickets[..p + 2][p + 1];
    ThreeCosts(tickets, w, p);
  }

  lemma {:induction false} ThreeCosts(tickets: seq<Ticket>, w: Which, p: nat)
    requires |tickets| == p + 3
    ensures Costs(tickets, w, KEPT, p, p + 3)
         == Share(tickets[p], w, KEPT) + Share(tickets[p + 1], w, KEPT) + Share(tickets[p + 2], w, KEPT)
  {
    assert Costs(tickets, w, KEPT, p, p) == 0.0;
    assert Costs(tickets, w, KEPT, p, p + 1) == Share(tickets[p], w, KEPT);
    assert Costs(tickets, w, KEPT, p, p + 2) == Share(tickets[p], w, KEPT) + Share(tickets[p + 1], w, KEPT);
  }

  lemma {:induction false} SpoiledBreaks(run: Trace, m: nat, first: int, p: nat, last: int, w: Which)
    requires Spoiled(run, m, first, p, last, w) && !Covered(run, m, w)
    requires last as real >= FoundBy(run, m, w).Refilled(run.moves[m].now).tokens
    requires last as real >= ThawedWith(FoundBy(run, m, w), run.moves[m].now)
    ensures !Within(run, m, m + 2 + p, w)
  {
    var b, now, cost := FoundBy(run, m, w), run.moves[m].now, Cost(run.moves[m].r);
    LastTimed(run, m, first, p, last, w);
    LastKept(run, m, first, p, last, w);
    HeldAtSend(b, now, cost);
    TooSoon(b.rate, now as real, BucketTime(run, m, w), BucketTime(run, m + 2 + p, w),
            b.Refilled(now).tokens + Pending(run, m, w), cost, first as real + last as real, Max(b.burst as real, cost));
  }

  // Those moves, after the run that call m ends.
  ghost function SpoilersOf(run: Trace, m: nat, w: Which): seq<Move>
    requires m < |run.moves| && run.moves[m].Arrive?
  {
    var b, now := FoundBy(run, m, w), run.moves[m].now;
    Spoilers(Again(run.moves[m], Whole(Pending(run, m, w))), CallOf(run, m),
             Again(run.moves[m], Whole(Max(b.Refilled(now).tokens, ThawedWith(b, now)))))
  }

  lemma {:induction false} SpoilersPlaced(moves: seq<Move>, first: Move, p: nat, last: Move)
    requires moves != []
    ensures var (m, all) := (|moves| - 1, moves + Spoilers(first, p, last));
      && |all| == m + 3 + p && all[m] == moves[m] && all[m + 1] == first && all[m + 2 + p] == last
      && forall k :: m + 2 <= k < m + 2 + p ==> all[k] == GiveUp(k - m - 2)
  {
    var more, n := Spoilers(first, p, last), |moves|;
    forall k | n + 1 <= k < n + 1 + p ensures (moves + more)[k] == GiveUp(k - n - 1) {
      assert (moves + more)[k] == more[k - n] == GiveUps(p)[k - n - 1];
    }
  }

  lemma {:induction false} SpoiledRun(run: Trace, m: nat, first: int, last: int, w: Which)
    requires |run.moves| == m + 1 && Undisturbed(run, m, w) && Asks(run.moves[m], w)
    requires first >= 1 && last >= 1 && first as real >= Pending(run, m, w)
    ensures var (p, longer) := (CallOf(run, m),
                                Continued(run, Spoilers(Again(run.moves[m], first), CallOf(run, m), Again(run.moves[m], last))));
      Undisturbed(longer, m, w) && Spoiled(longer, m, first, p, last, w)
  {
    var p, a, z := CallOf(run, m), Again(run.moves[m], first), Again(run.moves[m], last);
    SpoilersUndisturbed(run, m, first, p, last, w);
    SpoilersPlaced(run.moves, a, p, z);
    ContinuedAt(run, Spoilers(a, p, z), m);
  }

  // A call that is not covered is spoiled by them.
  lemma {:induction false} Spoils(run: Trace, m: nat, w: Which)
    requires |run.moves| == m + 1 && Undisturbed(run, m, w) && Asks(run.moves[m], w) && !Covered(run, m, w)
    ensures Undisturbed(Continued(run, SpoilersOf(run, m, w)), m, w)
    ensures !BoundFrom(Continued(run, SpoilersOf(run, m, w)), m, w)
  {
    var b, now, p := FoundBy(run, m, w), run.moves[m].now, CallOf(run, m);
    var first, last := Whole(Pending(run, m, w)), Whole(Max(b.Refilled(now).tokens, ThawedWith(b, now)));
    var longer := Continued(run, SpoilersOf(run, m, w));
    SpoiledRun(run, m, first, last, w);
    ContinuedAt(run, SpoilersOf(run, m, w), m);
    SameCall(run, longer, m, w);
    SpoiledBreaks(longer, m, first, p, last, w);
  }

  // A call finds what it finds whatever comes after it.
  lemma {:induction false} SameCall(run: Trace, other: Trace, m: nat, w: Which)
    requires m < |run.moves| && m < |other.moves| && run.moves[m] == other.moves[m] && run.moves[m].Arrive?
    requires At(run, m) == At(other, m)
    ensures FoundBy(run, m, w) == FoundBy(other, m, w) && Pending(run, m, w) == Pending(other, m, w)
    ensures Covered(run, m, w) <==> Covered(other, m, w)
  {
  }

  // The rate bound holds from a call on, in every continuation of calls,
  // cancellations, wake-ups and refusals without an adopted balance, exactly
  // when the call is covered.
  lemma {:induction false} RateHoldsExactlyPerBucket(run: Trace, m: nat, w: Which)
    requires |run.moves| == m + 1 && Undisturbed(run, m, w) && Asks(run.moves[m], w)
    ensures (forall more :: Undisturbed(Continued(run, more), m, w) ==> BoundFrom(Continued(run, more), m, w))
       <==> Covered(run, m, w)
  {
    if Covered(run, m, w) {
      forall more | Undisturbed(Continued(run, more), m, w) ensures BoundFrom(Continued(run, more), m, w) {
        ContinuedAt(run, more, m);
        CoveredHolds(Continued(run, more), m, w);
      }
    } else {
      Spoils(run, m, w);
    }
  }
}
