// The limiter under any number of concurrent callers: a state machine whose
// steps are the limiter's lock sections, taken in any order.

module LimiterSystem {
  import opened Wrappers
  import opened Rules
  import opened Limiter
  import SW = SlidingWindow
  import TB = TokenBucket
  import WS = WindowSafety

  datatype Status = Sleeping | Sent | Abandoned

  // One call of Wait: what it holds, which of its window's grants that is, and
  // how far the call has come.
  datatype Ticket = Ticket(hold: Hold, grant: nat, status: Status)

  // `runs` is history: everything each window has handed out.
  datatype System = System(state: State, runs: map<nat, WS.Run>, tickets: seq<Ticket>, clock: int)

  datatype Move =
    | Arrive(now: WS.Clock, r: Request)
    | Wake(ticket: nat)
    | GiveUp(ticket: nat)
    | Hear(r: Request, resp: Response, adoptAt: WS.Clock, now: WS.Clock)

  ghost predicate Ready(rules: seq<Rule>, sys: System) {
    && sys.state.Valid()
    && (forall t :: t in sys.tickets ==> Fits(sys.state, t.hold))
    && (forall i :: i in sys.runs ==> sys.runs[i].WellFormed())
    && sys.runs.Keys == sys.state.windows.Keys
    && (forall i :: i in sys.runs ==> i < |rules| && sys.runs[i].win == sys.state.windows[i])
  }

  ghost function RunOf(rules: seq<Rule>, sys: System, i: nat): (r: WS.Run)
    requires Ready(rules, sys) && i < |rules|
    ensures r.WellFormed() && r.win == WindowFor(rules, sys.state, i)
  {
    if i in sys.runs then sys.runs[i] else WS.Replay(rules[i].limit, [])
  }

  ghost function Record(rules: seq<Rule>, sys: System, m: Option<nat>, e: WS.Event): (runs: map<nat, WS.Run>)
    requires Ready(rules, sys) && (m.Some? ==> m.value < |rules|)
  {
    if m.Some? then sys.runs[m.value := WS.Step(RunOf(rules, sys, m.value), e)] else sys.runs
  }

  ghost function Next(rules: seq<Rule>, sys: System, m: Move): System
    requires Ready(rules, sys)
  {
    match m
    case Arrive(now, r) =>
      var (state, hold) := Reserved(rules, sys.state, now, r);
      var grant := if hold.rule.Some? then |RunOf(rules, sys, hold.rule.value).grants| else 0;
      var status := if hold.when <= now as real then Sent else Sleeping;
      System(state, Record(rules, sys, hold.rule, WS.Reserve(now)), sys.tickets + [Ticket(hold, grant, status)], now)
    case Wake(k) =>
      if k < |sys.tickets| && sys.tickets[k].status.Sleeping? then
        sys.(tickets := sys.tickets[k := sys.tickets[k].(status := Sent)])
      else sys
    case GiveUp(k) =>
      if k < |sys.tickets| && sys.tickets[k].status.Sleeping? then
        var t := sys.tickets[k];
        assert t in sys.tickets;
        System(Refunded(sys.state, t.hold), Record(rules, sys, t.hold.rule, WS.Cancel(t.grant)),
               sys.tickets[k := t.(status := Abandoned)], sys.clock)
      else sys
    case Hear(r, resp, adoptAt, now) =>
      var hushed := resp.status == TOO_MANY_REQUESTS && RetryAfter(now, resp).Some?;
      sys.(state := Observed(rules, sys.state, r, resp, adoptAt, now),
           runs := if hushed then
                     Record(rules, sys, Matched(rules, r.verb, r.path), WS.Freeze(RetryAfter(now, resp).value))
                   else sys.runs,
           clock := now)
  }

  // A ticket under a rule stands for one grant of that rule's window.
  ghost predicate Stands(sys: System, t: Ticket) {
    t.hold.rule.Some? ==>
      && t.hold.rule.value in sys.runs
      && t.grant < |sys.runs[t.hold.rule.value].grants|
      && sys.runs[t.hold.rule.value].grants[t.grant] == WS.Grant(t.hold.windowTime, t.hold.claim, t.status.Abandoned?)
  }

  ghost predicate RunKept(rules: seq<Rule>, sys: System, i: nat) {
    i in sys.runs ==>
      && i < |rules|
      && WS.Inv(sys.runs[i])
      && sys.runs[i].win.width == rules[i].limit.window
      && |sys.runs[i].win.slots| == SW.Max(1, rules[i].limit.requests)
  }

  ghost predicate Inv(rules: seq<Rule>, sys: System) {
    && Ready(rules, sys)
    && (forall i :: RunKept(rules, sys, i))
    && (forall k :: 0 <= k < |sys.tickets| ==> Stands(sys, sys.tickets[k]))
    && (forall j, k :: 0 <= j < k < |sys.tickets| ==> Apart(sys.tickets[j], sys.tickets[k]))
  }

  // No two tickets stand for the same grant.
  ghost predicate Apart(a: Ticket, b: Ticket) {
    a.hold.rule.Some? && a.hold.rule == b.hold.rule ==> a.grant != b.grant
  }

  lemma {:induction false} RecordKept(rules: seq<Rule>, sys: System, m: Option<nat>, e: WS.Event, sys': System)
    requires Inv(rules, sys) && (m.Some? ==> m.value < |rules|)
    requires sys'.runs == Record(rules, sys, m, e)
    ensures forall i :: RunKept(rules, sys', i)
  {
    forall i: nat ensures RunKept(rules, sys', i) {
      assert RunKept(rules, sys, i);
      if m == Some(i) {
        WS.ReplayInv(rules[i].limit, []);
        WS.StepInv(RunOf(rules, sys, i), e);
      }
    }
  }

  lemma {:induction false} ArriveInv(rules: seq<Rule>, sys: System, now: WS.Clock, r: Request)
    requires Inv(rules, sys)
    ensures Inv(rules, Next(rules, sys, Arrive(now, r)))
  {
    var sys' := Next(rules, sys, Arrive(now, r));
    var hold := Reserved(rules, sys.state, now, r).1;
    ReservedWindow(rules, sys.state, now, r);
    RecordKept(rules, sys, hold.rule, WS.Reserve(now), sys');
    forall k | 0 <= k < |sys'.tickets|
      ensures Stands(sys', sys'.tickets[k]) && Fits(sys'.state, sys'.tickets[k].hold)
      ensures k < |sys.tickets| ==> Apart(sys'.tickets[k], sys'.tickets[|sys.tickets|])
    {
      if k < |sys.tickets| {
        assert sys'.tickets[k] == sys.tickets[k] && sys.tickets[k] in sys.tickets;
        assert Stands(sys, sys.tickets[k]);
      }
    }
    forall j, k | 0 <= j < k < |sys'.tickets| ensures Apart(sys'.tickets[j], sys'.tickets[k]) {
      if k < |sys.tickets| {
        assert Apart(sys.tickets[j], sys.tickets[k]);
      }
    }
  }

  lemma {:induction false} GiveUpReady(rules: seq<Rule>, sys: System, k: nat)
    requires Inv(rules, sys) && k < |sys.tickets| && sys.tickets[k].status.Sleeping?
    ensures Ready(rules, Next(rules, sys, GiveUp(k)))
  {
    var sys', t := Next(rules, sys, GiveUp(k)), sys.tickets[k];
    assert Stands(sys, t) && t in sys.tickets;
    RefundedWindow(sys.state, t.hold);
    forall u | u in sys'.tickets ensures Fits(sys'.state, u.hold) {
      var j :| 0 <= j < |sys'.tickets| && sys'.tickets[j] == u;
      assert sys.tickets[j] in sys.tickets && sys.tickets[j].hold == u.hold;
    }
  }

  lemma {:induction false} GiveUpInv(rules: seq<Rule>, sys: System, k: nat)
    requires Inv(rules, sys) && k < |sys.tickets| && sys.tickets[k].status.Sleeping?
    ensures Inv(rules, Next(rules, sys, GiveUp(k)))
  {
    var sys', t := Next(rules, sys, GiveUp(k)), sys.tickets[k];
    assert Stands(sys, t) && t in sys.tickets;
    GiveUpReady(rules, sys, k);
    RecordKept(rules, sys, t.hold.rule, WS.Cancel(t.grant), sys');
    forall j | 0 <= j < |sys'.tickets| ensures Stands(sys', sys'.tickets[j]) {
      assert Stands(sys, sys.tickets[j]);
      assert j < k ==> Apart(sys.tickets[j], t);
      assert k < j ==> Apart(t, sys.tickets[j]);
    }
    forall i, j | 0 <= i < j < |sys'.tickets| ensures Apart(sys'.tickets[i], sys'.tickets[j]) {
      assert Apart(sys.tickets[i], sys.tickets[j]);
    }
  }

  lemma {:induction false} HearInv(rules: seq<Rule>, sys: System, r: Request, resp: Response, adoptAt: WS.Clock, now: WS.Clock)
    requires Inv(rules, sys)
    ensures Inv(rules, Next(rules, sys, Hear(r, resp, adoptAt, now)))
  {
    var sys' := Next(rules, sys, Hear(r, resp, adoptAt, now));
    ObservedWindow(rules, sys.state, r, resp, adoptAt, now);
    if resp.status == TOO_MANY_REQUESTS && RetryAfter(now, resp).Some? {
      RecordKept(rules, sys, Matched(rules, r.verb, r.path), WS.Freeze(RetryAfter(now, resp).value), sys');
    } else {
      assert forall i :: RunKept(rules, sys, i) ==> RunKept(rules, sys', i);
    }
    forall j | 0 <= j < |sys'.tickets|
      ensures Stands(sys', sys'.tickets[j]) && Fits(sys'.state, sys'.tickets[j].hold)
    {
      assert Stands(sys, sys.tickets[j]) && sys.tickets[j] in sys.tickets;
    }
  }

  lemma {:induction false} WakeInv(rules: seq<Rule>, sys: System, k: nat)
    requires Inv(rules, sys)
    ensures Inv(rules, Next(rules, sys, Wake(k)))
  {
    var sys' := Next(rules, sys, Wake(k));
    forall j | 0 <= j < |sys'.tickets|
      ensures Stands(sys', sys'.tickets[j]) && Fits(sys'.state, sys'.tickets[j].hold)
    {
      assert Stands(sys, sys.tickets[j]) && sys.tickets[j] in sys.tickets;
    }
    assert forall i :: RunKept(rules, sys, i) ==> RunKept(rules, sys', i);
  }

  lemma {:induction false} NextInv(rules: seq<Rule>, sys: System, m: Move)
    requires Inv(rules, sys)
    ensures Inv(rules, Next(rules, sys, m))
  {
    match m
    case Arrive(now, r) => ArriveInv(rules, sys, now, r);
    case Wake(k) => WakeInv(rules, sys, k);
    case GiveUp(k) => if k < |sys.tickets| && sys.tickets[k].status.Sleeping? { GiveUpInv(rules, sys, k); }
    case Hear(r, resp, adoptAt, now) => HearInv(rules, sys, r, resp, adoptAt, now);
  }

  // The system after any sequence of moves.
  ghost function Play(rules: seq<Rule>, sys: System, moves: seq<Move>): (r: System)
    requires Inv(rules, sys)
    decreases |moves|
  {
    if moves == [] then sys
    else
      NextInv(rules, sys, moves[0]);
      Play(rules, Next(rules, sys, moves[0]), moves[1..])
  }

  lemma {:induction false} PlayInv(rules: seq<Rule>, sys: System, moves: seq<Move>)
    requires Inv(rules, sys)
    ensures Inv(rules, Play(rules, sys, moves))
    decreases |moves|
  {
    if moves != [] {
      NextInv(rules, sys, moves[0]);
      PlayInv(rules, Next(rules, sys, moves[0]), moves[1..]);
    }
  }

  ghost function Start(tier: Tier): System { System(Initial(tier), map[], [], SW.ZERO_TIME) }

  // The calls under rule i that were not abandoned and whose window time falls
  // in [from, from + window).
  ghost function CallsWithin(rules: seq<Rule>, sys: System, i: nat, from: int): set<int>
    requires i < |rules|
  {
    set k | 0 <= k < |sys.tickets| && sys.tickets[k].hold.rule == Some(i) && !sys.tickets[k].status.Abandoned?
         && from <= sys.tickets[k].hold.windowTime < from + rules[i].limit.window
  }

  ghost function GrantsOf(sys: System, calls: set<int>): set<int>
    requires forall k :: k in calls ==> 0 <= k < |sys.tickets|
  {
    set k | k in calls :: sys.tickets[k].grant
  }

  // Distinct grants: as many grants as calls, counting calls below n.
  lemma {:induction false} AsManyGrants(sys: System, calls: set<int>, n: nat)
    requires n <= |sys.tickets| && forall k :: k in calls ==> 0 <= k < n
    requires forall j, k :: j in calls && k in calls && j != k ==> sys.tickets[j].grant != sys.tickets[k].grant
    ensures |GrantsOf(sys, calls)| == |calls|
    decreases n
  {
    if n == 0 {
      assert forall k :: k in calls ==> 0 <= k < 0;
      assert calls == {};
      assert GrantsOf(sys, calls) == {};
    } else if n - 1 in calls {
      var rest := calls - {n - 1};
      AsManyGrants(sys, rest, n - 1);
      assert GrantsOf(sys, calls) == GrantsOf(sys, rest) + {sys.tickets[n - 1].grant};
      assert sys.tickets[n - 1].grant !in GrantsOf(sys, rest);
    } else {
      AsManyGrants(sys, calls, n - 1);
    }
  }

  lemma {:induction false} CallsToGrants(rules: seq<Rule>, sys: System, i: nat, from: int)
    requires i < |rules| && Inv(rules, sys)
    ensures i !in sys.runs ==> CallsWithin(rules, sys, i, from) == {}
    ensures i in sys.runs ==> GrantsOf(sys, CallsWithin(rules, sys, i, from)) <= sys.runs[i].LiveWithin(from)
  {
    assert RunKept(rules, sys, i);
    forall k | k in CallsWithin(rules, sys, i, from)
      ensures i in sys.runs && sys.tickets[k].grant in sys.runs[i].LiveWithin(from)
    {
      assert Stands(sys, sys.tickets[k]);
    }
  }

  lemma {:induction false} InvLimits(rules: seq<Rule>, sys: System, i: nat, from: int)
    requires i < |rules| && Inv(rules, sys)
    ensures |CallsWithin(rules, sys, i, from)| <= SW.Max(1, rules[i].limit.requests)
  {
    var calls := CallsWithin(rules, sys, i, from);
    CallsToGrants(rules, sys, i, from);
    if i in sys.runs {
      assert RunKept(rules, sys, i);
      forall j, k | j in calls && k in calls && j != k ensures sys.tickets[j].grant != sys.tickets[k].grant {
        assert if j < k then Apart(sys.tickets[j], sys.tickets[k]) else Apart(sys.tickets[k], sys.tickets[j]);
      }
      AsManyGrants(sys, calls, |sys.tickets|);
      var grants, live := GrantsOf(sys, calls), sys.runs[i].LiveWithin(from);
      assert live == grants + (live - grants);
      WS.AtMostSlots(sys.runs[i], from);
    }
  }

  // However callers, cancellations and refusals interleave: under each rule, at
  // most `requests` calls that were not abandoned, in any window's length.
  lemma {:induction false} LimitHoldsPerRule(rules: seq<Rule>, tier: Tier, moves: seq<Move>, i: nat, from: int)
    requires i < |rules|
    ensures |CallsWithin(rules, Play(rules, Start(tier), moves), i, from)| <= SW.Max(1, rules[i].limit.requests)
  {
    PlayInv(rules, Start(tier), moves);
    InvLimits(rules, Play(rules, Start(tier), moves), i, from);
  }

  // A clock that never steps back, read in order within each step.
  ghost predicate Timely(moves: seq<Move>, clock: int)
    decreases |moves|
  {
    moves == [] ||
    (match moves[0]
     case Arrive(now, _) => clock <= now && Timely(moves[1..], now)
     case Hear(_, _, adoptAt, now) => clock <= adoptAt <= now && Timely(moves[1..], now)
     case _ => Timely(moves[1..], clock))
  }

  // No freeze outlasts the clock by more than the cap; no balance tops a burst.
  ghost predicate Bounded(s: State, clock: int) {
    && s.Valid()
    && (forall i :: i in s.windows ==> s.windows[i].frozenTill <= clock + 300_000_000_000)
    && s.orders.frozenTill <= clock + 300_000_000_000
    && s.cancels.frozenTill <= clock + 300_000_000_000
  }

  lemma {:induction false} ReservedBounded(rules: seq<Rule>, s: State, now: int, r: Request, clock: int)
    requires Bounded(s, clock) && SW.ZERO_TIME <= clock <= now
    ensures Bounded(Reserved(rules, s, now, r).0, now)
  {
    ReservedWindow(rules, s, now, r);
  }

  lemma {:induction false} ObservedBounded(rules: seq<Rule>, s: State, r: Request, resp: Response, adoptAt: int, now: int, clock: int)
    requires Bounded(s, clock) && SW.ZERO_TIME <= clock <= now
    ensures Bounded(Observed(rules, s, r, resp, adoptAt, now), now)
  {
    ObservedWindow(rules, s, r, resp, adoptAt, now);
  }

  lemma {:induction false} NextBounded(rules: seq<Rule>, sys: System, m: Move)
    requires Ready(rules, sys) && Bounded(sys.state, sys.clock) && sys.clock >= SW.ZERO_TIME
    requires Timely([m], sys.clock)
    ensures Bounded(Next(rules, sys, m).state, Next(rules, sys, m).clock)
    ensures Next(rules, sys, m).clock >= sys.clock
  {
    match m
    case Arrive(now, r) => ReservedBounded(rules, sys.state, now, r, sys.clock);
    case Hear(r, resp, adoptAt, now) => ObservedBounded(rules, sys.state, r, resp, adoptAt, now, sys.clock);
    case _ =>
  }

  lemma {:induction false} PlayBounded(rules: seq<Rule>, sys: System, moves: seq<Move>)
    requires Inv(rules, sys) && Bounded(sys.state, sys.clock) && sys.clock >= SW.ZERO_TIME
    requires Timely(moves, sys.clock)
    ensures Bounded(Play(rules, sys, moves).state, Play(rules, sys, moves).clock)
    decreases |moves|
  {
    if moves != [] {
      assert Timely([moves[0]], sys.clock);
      NextBounded(rules, sys, moves[0]);
      NextInv(rules, sys, moves[0]);
      PlayBounded(rules, Next(rules, sys, moves[0]), moves[1..]);
    }
  }

  // Whatever the server's headers say, nothing is held shut past the latest
  // clock reading plus five minutes, and no balance exceeds its burst.
  lemma {:induction false} NeverWedged(rules: seq<Rule>, tier: Tier, moves: seq<Move>)
    requires Timely(moves, SW.ZERO_TIME)
    ensures var sys := Play(rules, Start(tier), moves);
      Bounded(sys.state, sys.clock)
  {
    PlayBounded(rules, Start(tier), moves);
  }

  // A balance taken from a header is within one burst of zero, either way.
  lemma {:induction false} AdoptedWithinBurst(rules: seq<Rule>, s: State, r: Request, resp: Response, adoptAt: int, now: int)
    requires s.Valid() && BucketFor(r).Some? && resp.remaining.Some? && !resp.remaining.value.NaN?
    ensures var b := Observed(rules, s, r, resp, adoptAt, now).BucketOf(BucketFor(r).value);
      && -(b.burst as real) <= b.tokens <= b.burst as real
      && (resp.remaining.value.Finite? && -(b.burst as real) <= resp.remaining.value.r <= b.burst as real ==>
            b.tokens == resp.remaining.value.r)
  {
  }
}
