// The rate bound broken by a call given up while its window holds it back: one
// run of the limiter, move by move.

module LimiterOverrun {
  import opened Wrappers
  import opened Rules
  import opened Limiter
  import opened LimiterSystem
  import opened LimiterRate
  import opened LimiterExact
  import opened TokenBucket
  import SW = SlidingWindow

  const LATER := 3_000_000_001

  // One call every five seconds, and ten tokens earned one a second.
  const RULES: seq<Rule> := [Rule("", "/order", SW.RateLimit(1, 5_000_000_000))]
  const TIER := Tier(1.0, 10, 1.0, 10)

  function Post(cost: int): Request { Request("POST", "/order", cost) }

  // A call takes the window; one for five tokens sleeps behind it; one for eight
  // is to wait three seconds for its bucket; the five are given up; and after
  // three seconds five more are asked for.
  function Overrun(): Trace {
    Trace(RULES, TIER, [Arrive(1, Request("GET", "/order", 1)), Arrive(1, Post(5)), Arrive(1, Post(8)), GiveUp(1), Arrive(LATER, Post(5))])
  }

  lemma {:induction false} OverrunTimely()
    ensures Timely(Overrun().moves, SW.ZERO_TIME)
  {
    var moves := Overrun().moves;
    assert moves[1..][1..] == moves[2..] && moves[2..][1..] == moves[3..] && moves[3..][1..] == moves[4..];
    assert moves[4..][1..] == [];
    assert Timely(moves[4..], 1);
    assert Timely(moves[3..], 1);
    assert Timely(moves[2..], 1);
    assert Timely(moves[1..], 1);
  }

  lemma {:induction false} OneRule(r: Request)
    requires r.path == "/order"
    ensures Matched(RULES, r.verb, r.path) == Some(0)
  {
    assert RULES[0].prefix <= r.path;
    MatchExists(RULES, r.verb, r.path, 0);
  }

  // The first call takes the window's one slot, and leaves the buckets alone.
  lemma {:induction false} FirstTakesWindow()
    ensures var (sys, w) := (At(Overrun(), 1), SW.Fresh(RULES[0].limit));
      && sys.state.windows == map[0 := w.Reserved(1)]
      && sys.state.orders == Bucket(1.0, 10, 10.0, SW.ZERO_TIME, SW.ZERO_TIME)
      && |sys.tickets| == 1
  {
    var run := Overrun();
    OverrunTimely();
    AtStep(run, 0);
    assert run.moves[..0] == [];
    OneRule(run.moves[0].r);
    ReservedWindow(RULES, Initial(TIER), 1, run.moves[0].r);
    ReservedBuckets(RULES, Initial(TIER), 1, run.moves[0].r, Orders);
  }

  lemma {:induction false} WindowBusy()
    ensures SW.Fresh(RULES[0].limit).Reserved(1).TimeFor(1) == 5_000_000_001
  {
    var w := SW.Fresh(RULES[0].limit);
    assert w.slots == [SW.FREE] && w.At() == 0;
    assert w.Reserved(1).slots == [SW.Slot(1, 1)];
  }

  // A call under a rule whose window is busy is to sleep.
  lemma {:induction false} BusySleeps(sys: System, r: Request)
    requires Ready(RULES, sys) && r.path == "/order" && BucketFor(r) == Some(Orders)
    requires sys.state.windows == map[0 := SW.Fresh(RULES[0].limit).Reserved(1)]
    ensures var tickets := Next(RULES, sys, Arrive(1, r)).tickets;
      |tickets| == |sys.tickets| + 1 && tickets[|sys.tickets|].status == Sleeping
      && tickets[|sys.tickets|].hold.bucket == Some(Orders) && tickets[|sys.tickets|].hold.cost == Cost(r)
  {
    WindowBusy();
    OneRule(r);
    ReservedWindow(RULES, sys.state, 1, r);
    ReservedWhen(RULES, sys.state, 1, r);
  }

  lemma {:induction false} SecondSleeps()
    ensures var sys := At(Overrun(), 2);
      && |sys.tickets| == 2 && sys.tickets[1].status == Sleeping
      && sys.tickets[1].hold.bucket == Some(Orders) && sys.tickets[1].hold.cost == 5.0
      && sys.state.orders == Bucket(1.0, 10, 5.0, 1, SW.ZERO_TIME)
  {
    var run := Overrun();
    OverrunTimely();
    FirstTakesWindow();
    AtStep(run, 1);
    BusySleeps(At(run, 1), Post(5));
    AskedStep(run, 1, Orders);
  }

  lemma {:induction false} ThirdAsks()
    ensures var sys := At(Overrun(), 3);
      && |sys.tickets| == 3 && sys.tickets[..2] == At(Overrun(), 2).tickets
      && Share(sys.tickets[2], Orders, KEPT) == 8.0
      && sys.state.orders == Bucket(1.0, 10, -3.0, 1, SW.ZERO_TIME)
  {
    OverrunTimely();
    SecondSleeps();
    AskedStep(Overrun(), 2, Orders);
  }

  lemma {:induction false} SecondGivesUp()
    ensures var sys := At(Overrun(), 4);
      && |sys.tickets| == 3 && Share(sys.tickets[2], Orders, KEPT) == 8.0
      && sys.state.orders == Bucket(1.0, 10, 2.0, 1, SW.ZERO_TIME)
  {
    var run := Overrun();
    OverrunTimely();
    SecondSleeps();
    ThirdAsks();
    AtSettled(run, 3, Orders);
    AtStep(run, 3);
    var sys := At(run, 3);
    assert sys.tickets[1] == sys.tickets[..2][1] && sys.tickets[1] in sys.tickets;
    RefundedBuckets(sys.state, sys.tickets[1].hold, Orders);
  }

  // Both calls that are kept are let go by the bucket at one instant.
  lemma {:induction false} SameInstant()
    ensures BucketTime(Overrun(), 2, Orders) == BucketTime(Overrun(), 4, Orders) == LATER as real
  {
    var run := Overrun();
    OverrunTimely();
    SecondSleeps();
    SecondGivesUp();
  }

  lemma {:induction false} ThirteenKept()
    ensures KeptBetween(Overrun(), 2, 4, Orders) == 13.0
  {
    var run := Overrun();
    OverrunTimely();
    SecondSleeps();
    SecondGivesUp();
    AskedStep(run, 4, Orders);
    var tickets := At(run, 5).tickets;
    assert tickets[2] == tickets[..3][2];
    TwoCosts(tickets);
  }

  lemma {:induction false} TwoCosts(tickets: seq<Ticket>)
    requires |tickets| == 4
    ensures Costs(tickets, Orders, KEPT, 2, 4) == Share(tickets[2], Orders, KEPT) + Share(tickets[3], Orders, KEPT)
  {
    assert Costs(tickets, Orders, KEPT, 2, 2) == 0.0;
    assert Costs(tickets, Orders, KEPT, 2, 3) == Share(tickets[2], Orders, KEPT);
  }

  lemma {:induction false} BoundBroken()
    ensures !Within(Overrun(), 2, 4, Orders)
  {
    SecondSleeps();
    SameInstant();
    ThirteenKept();
    assert FoundBy(Overrun(), 2, Orders) == Bucket(1.0, 10, 5.0, 1, SW.ZERO_TIME);
    assert Earned(1.0, 0.0) == 0.0 && Cost(Overrun().moves[2].r) == 8.0;
  }

  lemma {:induction false} OverrunUndisturbed()
    ensures Undisturbed(Overrun(), 2, Orders)
  {
    OverrunTimely();
  }

  // Thirteen tokens kept at one instant, from a burst of ten: the bound from the
  // third call on is broken, and that call was not covered.
  lemma {:induction false} GivenUpOverruns()
    ensures var run := Overrun();
      && Undisturbed(run, 2, Orders)
      && |At(run, 2).tickets| == 2 && At(run, 2).tickets[1].status == Sleeping
      && KeptBetween(run, 2, 4, Orders) == 13.0
      && BucketTime(run, 2, Orders) == BucketTime(run, 4, Orders)
      && !Within(run, 2, 4, Orders) && !Covered(run, 2, Orders)
  {
    var run := Overrun();
    SecondSleeps();
    SameInstant();
    ThirteenKept();
    BoundBroken();
    OverrunUndisturbed();
    BrokenUncovered(run, 2, 4, Orders);
  }
}
