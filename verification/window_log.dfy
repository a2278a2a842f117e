// With a forward-moving clock and no refunds, the unordered slot array is a
// plain log of send times, and that log is the earliest schedule there is.

module WindowLog {
  import opened SlidingWindow
  import opened WindowSafety

  // What request number k met on arrival: the clock and the freeze in force.
  datatype Arrival = Arrival(now: int, frozenTill: int)

  // The simple form: every send time in order, and the arrivals behind them.
  datatype Log = Log(sends: seq<int>, arrivals: seq<Arrival>, frozenTill: int)

  // The k-th send waits for the clock, the freeze, and the send `n` before it.
  function NextSend(sends: seq<int>, n: nat, width: int, frozenTill: int, now: int): int
    requires n > 0
  {
    var open := Max(now, frozenTill);
    if |sends| < n then open else Max(open, sends[|sends| - n] + width)
  }

  function Slots(limit: RateLimit): (n: nat)
    ensures n > 0
  {
    Max(1, limit.requests)
  }

  function LogStep(limit: RateLimit, l: Log, e: Event): Log {
    match e
    case Reserve(now) =>
      Log(l.sends + [NextSend(l.sends, Slots(limit), limit.window, l.frozenTill, now)],
          l.arrivals + [Arrival(now, l.frozenTill)], l.frozenTill)
    case Freeze(t) => l.(frozenTill := Max(l.frozenTill, t))
    case Cancel(_) => l
  }

  function LogReplay(limit: RateLimit, es: seq<Event>): (l: Log)
    ensures |l.sends| == |l.arrivals|
  {
    if es == [] then Log([], [], ZERO_TIME)
    else
      LogStep(limit, LogReplay(limit, es[..|es| - 1]), es[|es| - 1])
  }

  ghost predicate NoneLater(es: seq<Event>, now: int) {
    forall i :: 0 <= i < |es| && es[i].Reserve? ==> es[i].now <= now
  }

  // No refunds, and a clock that never steps back.
  ghost predicate Forward(es: seq<Event>) {
    && (forall i :: 0 <= i < |es| ==> !es[i].Cancel?)
    && (forall i :: 0 <= i < |es| && es[i].Reserve? ==> NoneLater(es[..i], es[i].now))
  }

  ghost predicate Sorted(s: seq<int>) {
    forall i, j :: 0 <= i <= j < |s| ==> s[i] <= s[j]
  }

  lemma {:induction false} ForwardPrefix(es: seq<Event>)
    requires Forward(es) && es != []
    ensures Forward(es[..|es| - 1])
  {
    var init := es[..|es| - 1];
    forall i | 0 <= i < |init| && init[i].Reserve? ensures NoneLater(init[..i], init[i].now) {
      assert init[..i] == es[..i];
      assert init[i] == es[i];
    }
  }

  // The log only ever grows upward.
  lemma {:induction false} LogSorted(limit: RateLimit, es: seq<Event>)
    requires Forward(es)
    ensures Sorted(LogReplay(limit, es).sends)
    ensures forall k :: 0 <= k < |LogReplay(limit, es).sends| ==> LogReplay(limit, es).sends[k] > ZERO_TIME
    ensures forall now :: NoneLater(es, now) ==> NothingAfter(limit, LogReplay(limit, es), now)
  {
    if es != [] {
      var init, e := es[..|es| - 1], es[|es| - 1];
      ForwardPrefix(es);
      LogSorted(limit, init);
      var l := LogReplay(limit, init);
      assert e.Reserve? ==> NoneLater(init, e.now) && NothingAfter(limit, l, e.now);
      forall now | NoneLater(es, now) ensures NothingAfter(limit, LogReplay(limit, es), now) {
        assert forall i :: 0 <= i < |init| ==> init[i] == es[i];
        assert NoneLater(init, now) && NothingAfter(limit, l, now);
      }
    }
  }

  ghost predicate NothingAfter(limit: RateLimit, l: Log, now: int) {
    forall k :: 0 <= k < |l.sends| ==>
      l.sends[k] <= NextSend(l.sends, Slots(limit), limit.window, l.frozenTill, now)
  }

  // The last n sends, with free slots where fewer have been made.
  function Recent(sends: seq<int>, n: nat): (r: seq<int>)
    ensures |r| == n
  {
    (seq(n, _ => ZERO_TIME) + sends)[|sends|..]
  }

  lemma {:induction false} RecentPush(sends: seq<int>, n: nat, t: int)
    requires n > 0
    ensures Recent(sends + [t], n) == Recent(sends, n)[1..] + [t]
    ensures Recent(sends, n)[0] == if |sends| < n then ZERO_TIME else sends[|sends| - n]
  {
  }

  function Whens(slots: seq<Slot>): (r: seq<int>)
    ensures |r| == |slots| && forall i :: 0 <= i < |slots| ==> r[i] == slots[i].when
  {
    seq(|slots|, i requires 0 <= i < |slots| => slots[i].when)
  }

  function Sends(grants: seq<Grant>): (r: seq<int>)
    ensures |r| == |grants| && forall i :: 0 <= i < |grants| ==> r[i] == grants[i].when
  {
    seq(|grants|, i requires 0 <= i < |grants| => grants[i].when)
  }

  // Two arrangements of the same numbers have the same least one.
  lemma {:induction false} SameLeast(a: seq<int>, b: seq<int>, i: nat, j: nat)
    requires multiset(a) == multiset(b) && i < |a| && j < |b|
    requires forall k :: 0 <= k < |a| ==> a[i] <= a[k]
    requires forall k :: 0 <= k < |b| ==> b[j] <= b[k]
    ensures a[i] == b[j]
  {
    assert a[i] in multiset(a) && b[j] in multiset(b);
    assert a[i] in b && b[j] in a;
  }

  lemma {:induction false} Replaced(a: seq<int>, i: nat, t: int)
    requires i < |a|
    ensures multiset(a[i := t]) == multiset(a) - multiset{a[i]} + multiset{t}
  {
    assert a == a[..i] + [a[i]] + a[i + 1..];
    assert a[i := t] == a[..i] + [t] + a[i + 1..];
  }

  // How the slots stand against the log: same times, in no particular order.
  ghost predicate Mirrors(limit: RateLimit, r: Run, l: Log) {
    && Sends(r.grants) == l.sends
    && (forall k :: 0 <= k < |r.grants| ==> r.Live(k))
    && r.win.frozenTill == l.frozenTill
    && r.win.width == limit.window
    && |r.win.slots| == Slots(limit)
    && multiset(Whens(r.win.slots)) == multiset(Recent(l.sends, Slots(limit)))
  }

  // The slot the scan picks holds the send `n` before the next.
  lemma {:induction false} OldestIsRecent(limit: RateLimit, r: Run, l: Log)
    requires Inv(r) && Mirrors(limit, r, l)
    requires Sorted(l.sends) && forall k :: 0 <= k < |l.sends| ==> l.sends[k] > ZERO_TIME
    ensures r.win.slots[r.win.At()].when == Recent(l.sends, Slots(limit))[0]
  {
    var n, at, slots := Slots(limit), r.win.At(), r.win.slots;
    var whens, recent := Whens(slots), Recent(l.sends, n);
    forall k | 0 <= k < n ensures whens[at] <= whens[k] {
      assert Records(r.grants, k, slots[k]);
    }
    SameLeast(whens, recent, at, 0);
  }

  lemma {:induction false} MirrorsReserve(limit: RateLimit, r: Run, l: Log, now: Clock)
    requires Inv(r) && Mirrors(limit, r, l)
    requires Sorted(l.sends) && forall k :: 0 <= k < |l.sends| ==> l.sends[k] > ZERO_TIME
    ensures r.win.TimeFor(now) == NextSend(l.sends, Slots(limit), limit.window, l.frozenTill, now)
    ensures multiset(Whens(r.win.Reserved(now).slots)) == multiset(Recent(l.sends + [r.win.TimeFor(now)], Slots(limit)))
  {
    var n, at, t := Slots(limit), r.win.At(), r.win.TimeFor(now);
    var whens, recent := Whens(r.win.slots), Recent(l.sends, n);
    OldestIsRecent(limit, r, l);
    RecentPush(l.sends, n, t);
    Replaced(whens, at, t);
    FirstDropped(recent, t);
    assert Whens(r.win.Reserved(now).slots) == whens[at := t];
  }

  lemma {:induction false} FirstDropped(recent: seq<int>, t: int)
    requires recent != []
    ensures multiset(recent[1..] + [t]) == multiset(recent) - multiset{recent[0]} + multiset{t}
  {
    assert recent == [recent[0]] + recent[1..];
  }

  lemma {:induction false} MirrorsStep(limit: RateLimit, r: Run, l: Log, e: Event)
    requires Inv(r) && Mirrors(limit, r, l) && !e.Cancel?
    requires Sorted(l.sends) && forall k :: 0 <= k < |l.sends| ==> l.sends[k] > ZERO_TIME
    ensures Mirrors(limit, Step(r, e), LogStep(limit, l, e))
  {
    var r' := Step(r, e);
    match e
    case Reserve(now) =>
      MirrorsReserve(limit, r, l, now);
      assert Sends(r'.grants) == Sends(r.grants) + [r.win.TimeFor(now)];
      forall k | 0 <= k < |r'.grants| ensures r'.Live(k) {
        assert k < |r.grants| ==> r.Live(k);
      }
    case Freeze(t) =>
      forall k | 0 <= k < |r'.grants| ensures r'.Live(k) {
        assert r.Live(k);
      }
  }

  // Slot array and log hand out the same times, whatever the forward run.
  lemma {:induction false} LogRefined(limit: RateLimit, es: seq<Event>)
    requires Forward(es)
    ensures Mirrors(limit, Replay(limit, es), LogReplay(limit, es))
  {
    ReplayInv(limit, es);
    if es == [] {
      assert Whens(Fresh(limit).slots) == Recent([], Slots(limit));
    } else {
      var init := es[..|es| - 1];
      ForwardPrefix(es);
      LogRefined(limit, init);
      LogSorted(limit, init);
      ReplayInv(limit, init);
      MirrorsStep(limit, Replay(limit, init), LogReplay(limit, init), es[|es| - 1]);
    }
  }

  ghost function Within(s: seq<int>, from: int, width: int): set<int> {
    set k | 0 <= k < |s| && from <= s[k] < from + width
  }

  // An in-order schedule for these arrivals: no send before its arrival or
  // inside the freeze it met, and never more than n sends in one window.
  ghost predicate Feasible(limit: RateLimit, arrivals: seq<Arrival>, s: seq<int>) {
    && |s| == |arrivals|
    && Sorted(s)
    && (forall k :: 0 <= k < |s| ==> arrivals[k].now <= s[k] && arrivals[k].frozenTill <= s[k])
    && (forall from :: |Within(s, from, limit.window)| <= Slots(limit))
  }

  function Range(lo: int, hi: int): (r: set<int>)
    requires lo <= hi
    ensures |r| == hi - lo
    ensures forall i :: i in r <==> lo <= i < hi
    decreases hi - lo
  {
    if lo == hi then {} else Range(lo, hi - 1) + {hi - 1}
  }

  lemma {:induction false} SubsetSize(a: set<int>, b: set<int>)
    requires a <= b
    ensures |a| <= |b|
  {
    assert b == a + (b - a);
  }

  // A schedule within the limit leaves a window between sends k - n and k.
  lemma {:induction false} FeasibleSpaced(limit: RateLimit, arrivals: seq<Arrival>, s: seq<int>, k: nat)
    requires Feasible(limit, arrivals, s) && Slots(limit) <= k < |s|
    ensures s[k - Slots(limit)] + limit.window <= s[k]
  {
    var first := k - Slots(limit);
    if s[k] < s[first] + limit.window {
      assert Range(first, k + 1) <= Within(s, s[first], limit.window);
      SubsetSize(Range(first, k + 1), Within(s, s[first], limit.window));
    }
  }

  lemma {:induction false} LogArrivals(limit: RateLimit, es: seq<Event>, k: nat)
    requires k < |LogReplay(limit, es).sends|
    ensures var l := LogReplay(limit, es);
      l.sends[k] == NextSend(l.sends[..k], Slots(limit), limit.window, l.arrivals[k].frozenTill, l.arrivals[k].now)
  {
    var l := LogReplay(limit, es);
    var p := LogReplay(limit, es[..|es| - 1]);
    if k < |p.sends| {
      LogArrivals(limit, es[..|es| - 1], k);
      assert l.sends[..k] == p.sends[..k];
    } else {
      assert l.sends[..k] == p.sends;
    }
  }

  lemma {:induction false} LogEarliest(limit: RateLimit, es: seq<Event>, s: seq<int>, k: nat)
    requires Feasible(limit, LogReplay(limit, es).arrivals, s) && k < |s|
    ensures LogReplay(limit, es).sends[k] <= s[k]
    decreases k
  {
    LogArrivals(limit, es, k);
    if k >= Slots(limit) {
      FeasibleSpaced(limit, LogReplay(limit, es).arrivals, s, k);
      LogEarliest(limit, es, s, k - Slots(limit));
    }
  }

  // The times the slot array hands out are themselves a feasible schedule, and
  // no feasible schedule sends any request earlier.
  lemma {:induction false} EarliestSchedule(limit: RateLimit, es: seq<Event>)
    requires Forward(es)
    ensures var sends, arrivals := Sends(Replay(limit, es).grants), LogReplay(limit, es).arrivals;
      && Feasible(limit, arrivals, sends)
      && forall s, k :: Feasible(limit, arrivals, s) && 0 <= k < |s| ==> sends[k] <= s[k]
  {
    LogRefined(limit, es);
    LogSorted(limit, es);
    var r, l := Replay(limit, es), LogReplay(limit, es);
    forall k | 0 <= k < |l.sends|
      ensures l.arrivals[k].now <= l.sends[k] && l.arrivals[k].frozenTill <= l.sends[k]
    {
      LogArrivals(limit, es, k);
    }
    forall from ensures |Within(l.sends, from, limit.window)| <= Slots(limit) {
      LimitHolds(limit, es, from);
      assert Within(l.sends, from, limit.window) == r.LiveWithin(from);
    }
    forall s, k | Feasible(limit, l.arrivals, s) && 0 <= k < |s| ensures l.sends[k] <= s[k] {
      LogEarliest(limit, es, s, k);
    }
  }

  lemma {:induction false} MultipleGrows(n: int, d: int)
    requires n > 0
    ensures d >= 1 ==> n * d >= n
    ensures d <= -1 ==> n * d <= -n
  {
  }

  lemma {:induction false} DivUnique(k: nat, n: nat, q: nat, m: nat)
    requires n > 0 && k == n * q + m && m < n
    ensures k / n == q
  {
    var d := k / n - q;
    assert n * d == m - k % n;
    MultipleGrows(n, d);
  }

  lemma {:induction false} DivStep(k: nat, n: nat, width: nat)
    requires 0 < n <= k
    ensures (k / n) * width == ((k - n) / n) * width + width
    ensures ((k - n) / n) * width >= 0
  {
    var q, m := (k - n) / n, (k - n) % n;
    assert n * (q + 1) == n * q + n;
    DivUnique(k, n, q + 1, m);
    assert (q + 1) * width == q * width + width;
  }

  // The ladder a full window makes: n sends on each rung, rungs a window apart.
  ghost function RungTime(now: int, k: nat, n: nat, width: nat): (t: int)
    requires n > 0
    ensures t >= now
    ensures t == now + (k / n) * width
    decreases k
  {
    if k < n then assert k / n == 0; now
    else DivStep(k, n, width); RungTime(now, k - n, n, width) + width
  }

  // m requests arriving at one instant.
  function Burst(now: Clock, m: nat): (es: seq<Event>)
    ensures |es| == m && forall i :: 0 <= i < m ==> es[i] == Reserve(now)
  {
    seq(m, _ => Reserve(now))
  }

  lemma {:induction false} BurstArrivals(limit: RateLimit, now: Clock, m: nat)
    ensures var l := LogReplay(limit, Burst(now, m));
      && |l.sends| == m && l.frozenTill == ZERO_TIME
      && forall k :: 0 <= k < m ==> l.arrivals[k] == Arrival(now, ZERO_TIME)
  {
    if m > 0 {
      BurstArrivals(limit, now, m - 1);
      assert Burst(now, m)[..m - 1] == Burst(now, m - 1);
    }
  }

  lemma {:induction false} BurstSend(limit: RateLimit, now: Clock, m: nat, k: nat)
    requires limit.window >= 0 && k < m == |LogReplay(limit, Burst(now, m)).sends|
    ensures LogReplay(limit, Burst(now, m)).sends[k] == RungTime(now, k, Slots(limit), limit.window)
    decreases k
  {
    var n := Slots(limit);
    BurstArrivals(limit, now, m);
    LogArrivals(limit, Burst(now, m), k);
    if k >= n {
      BurstSend(limit, now, m, k - n);
    }
  }

  // Simultaneous arrivals at an empty, unfrozen window fill it n at a time:
  // every rung of the ladder carries exactly the limit.
  lemma {:induction false} Ladder(limit: RateLimit, now: Clock, m: nat, k: nat)
    requires limit.window >= 0 && k < m
    ensures var grants := Replay(limit, Burst(now, m)).grants;
      |grants| == m && grants[k].when == now + (k / Slots(limit)) * limit.window
  {
    BurstArrivals(limit, now, m);
    LogRefined(limit, Burst(now, m));
    BurstSend(limit, now, m, k);
    assert Replay(limit, Burst(now, m)).grants[k].when == Sends(Replay(limit, Burst(now, m)).grants)[k];
  }
}
