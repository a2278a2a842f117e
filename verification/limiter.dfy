// The limiter of ratelimit.go: one sliding window per rule, made on first use,
// and a token bucket each for orders and cancellations. Wait holds the lock
// twice, to reserve and, if the caller gives up while asleep, to refund.

module Limiter {
  import opened Wrappers
  import opened Rules
  import SW = SlidingWindow
  import TB = TokenBucket

  type int64 = x: int | -0x8000_0000_0000_0000 <= x < 0x8000_0000_0000_0000

  const NANOS: int64 := 1_000_000_000
  const MAX_FREEZE: int64 := 5 * 60 * NANOS
  const UNIX_TO_INTERNAL: int64 := 62_135_596_800
  const TOO_MANY_REQUESTS := 429

  datatype Request = Request(verb: string, path: string, cost: int)

  // The headers of a response after parsing; a date is an instant.
  datatype RetryHeader = Absent | Unreadable | Seconds(secs: int64) | Date(at: int)
  datatype Response = Response(status: int, warning: bool, remaining: Option<TB.Float>,
                               retryAfter: RetryHeader, reset: Option<int64>)

  datatype Which = Orders | Cancels

  function BucketFor(r: Request): Option<Which> {
    if r.verb == "POST" && r.path in ["/order", "/orders"] then Some(Orders)
    else if r.verb == "DELETE" && r.path in ["/order", "/orders", "/cancel-all", "/cancel-market-orders"] then Some(Cancels)
    else None
  }

  function Cost(r: Request): real { if r.cost < 1 then 1.0 else r.cost as real }

  // What a reservation holds: the window's claim and time under a rule, the
  // bucket it spent from and that bucket's time, and when the request may go.
  datatype Hold = Hold(rule: Option<nat>, claim: SW.Claim, windowTime: int,
                       bucket: Option<Which>, cost: real, bucketTime: real, when: real)

  const NO_CLAIM := SW.Claim(0, 0, SW.FREE)

  datatype State = State(windows: map<nat, SW.Window>, orders: TB.Bucket, cancels: TB.Bucket, warnings: nat) {
    function BucketOf(w: Which): TB.Bucket { if w.Orders? then orders else cancels }

    function WithBucket(w: Which, b: TB.Bucket): State {
      if w.Orders? then this.(orders := b) else this.(cancels := b)
    }

    function WithWindow(i: nat, w: SW.Window): State { this.(windows := windows[i := w]) }

    ghost predicate Valid() {
      && orders.Valid() && cancels.Valid()
      && forall i :: i in windows ==> windows[i].Valid()
    }
  }

  datatype Tier = Tier(orderRate: real, orderBurst: int, cancelRate: real, cancelBurst: int)

  function Initial(tier: Tier): State {
    State(map[], TB.FreshBucket(tier.orderRate, tier.orderBurst), TB.FreshBucket(tier.cancelRate, tier.cancelBurst), 0)
  }

  function WindowFor(rules: seq<Rule>, s: State, i: nat): (w: SW.Window)
    requires i < |rules|
    ensures s.Valid() ==> w.Valid()
  {
    if i in s.windows then s.windows[i] else SW.Fresh(rules[i].limit)
  }

  lemma {:induction false} WindowTwice(s: State, i: nat, a: SW.Window, b: SW.Window)
    ensures s.WithWindow(i, a).WithWindow(i, b) == s.WithWindow(i, b)
    ensures s.WithWindow(i, a).windows[i] == a
  {
    assert s.windows[i := a][i := b] == s.windows[i := b];
  }

  // The window's part of the first lock section.
  ghost function WindowReserved(rules: seq<Rule>, s: State, now: int, r: Request): (res: (State, Hold))
    requires s.Valid()
    ensures res.0.Valid() && res.0.orders == s.orders && res.0.cancels == s.cancels
  {
    var m := Matched(rules, r.verb, r.path);
    if m.None? then (s, Hold(None, NO_CLAIM, now, BucketFor(r), Cost(r), now as real, now as real))
    else
      var w := WindowFor(rules, s, m.value);
      var t := w.TimeFor(now);
      (s.WithWindow(m.value, w.Reserved(now)),
       Hold(m, w.ClaimFor(), t, BucketFor(r), Cost(r), now as real, SW.Max(now, t) as real))
  }

  // The whole first lock section of Wait.
  ghost function Reserved(rules: seq<Rule>, s: State, now: int, r: Request): (res: (State, Hold))
    requires s.Valid()
    ensures res.0.Valid()
    ensures res.1.rule == Matched(rules, r.verb, r.path)
  {
    var (s1, h) := WindowReserved(rules, s, now, r);
    if h.bucket.None? then (s1, h)
    else
      var b := s1.BucketOf(h.bucket.value);
      var t := b.SendTime(now, h.cost);
      (s1.WithBucket(h.bucket.value, b.Spent(now, h.cost)), h.(bucketTime := t, when := TB.Max(h.when, t)))
  }

  // Only the matched rule's window takes part in a reservation.
  lemma {:induction false} ReservedWindow(rules: seq<Rule>, s: State, now: int, r: Request)
    requires s.Valid()
    ensures var (s', h) := Reserved(rules, s, now, r);
      if h.rule.None? then s'.windows == s.windows
      else
        var w := WindowFor(rules, s, h.rule.value);
        && s'.windows == s.windows[h.rule.value := w.Reserved(now)]
        && h.claim == w.ClaimFor() && h.windowTime == w.TimeFor(now)
  {
  }

  // A request goes at the first instant its caller, its window and its bucket
  // all allow: no earlier than any, and no later than the last of them.
  lemma {:induction false} ReservedWhen(rules: seq<Rule>, s: State, now: int, r: Request)
    requires s.Valid()
    ensures var h := Reserved(rules, s, now, r).1;
      && h.when >= now as real && h.when >= h.windowTime as real && h.when >= h.bucketTime
      && (h.when == now as real || h.when == h.windowTime as real || h.when == h.bucketTime)
      && h.bucket == BucketFor(r) && h.cost == Cost(r) >= 1.0
      && h.bucketTime == if h.bucket.Some? then s.BucketOf(h.bucket.value).SendTime(now, Cost(r)) else now as real
  {
  }

  // A reservation spends its cost from the bucket it falls under, no other.
  lemma {:induction false} ReservedBuckets(rules: seq<Rule>, s: State, now: int, r: Request, which: Which)
    requires s.Valid()
    ensures var s' := Reserved(rules, s, now, r).0;
      s'.BucketOf(which) == if BucketFor(r) == Some(which) then s.BucketOf(which).Spent(now, Cost(r)) else s.BucketOf(which)
  {
  }

  // A hold still fits the state: its window is there, its slot in range.
  ghost predicate Fits(s: State, h: Hold) {
    h.rule.Some? ==> h.rule.value in s.windows && h.claim.slot < |s.windows[h.rule.value].slots|
  }

  // The second lock section of a Wait whose caller gave up.
  function Refunded(s: State, h: Hold): (s': State)
    requires Fits(s, h)
    ensures s.Valid() ==> s'.Valid()
  {
    var s1 := if h.rule.Some? then s.WithWindow(h.rule.value, s.windows[h.rule.value].Released(h.claim)) else s;
    if h.bucket.Some? then s1.WithBucket(h.bucket.value, s1.BucketOf(h.bucket.value).Refunded(h.cost)) else s1
  }

  // A refund releases the held window's claim and no other window's.
  lemma {:induction false} RefundedWindow(s: State, h: Hold)
    requires Fits(s, h)
    ensures Refunded(s, h).windows ==
      if h.rule.Some? then s.windows[h.rule.value := s.windows[h.rule.value].Released(h.claim)] else s.windows
  {
  }

  // It refunds the held cost to the bucket it came from, no other.
  lemma {:induction false} RefundedBuckets(s: State, h: Hold, which: Which)
    requires Fits(s, h)
    ensures Refunded(s, h).BucketOf(which) ==
      if h.bucket == Some(which) then s.BucketOf(which).Refunded(h.cost) else s.BucketOf(which)
  {
  }

  // A request given up with nothing in between leaves no trace but a serial
  // number used and a balance brought up to date.
  lemma {:induction false} RefundUndoesReserve(rules: seq<Rule>, s: State, now: int, r: Request)
    requires s.Valid()
    ensures var (s1, h) := Reserved(rules, s, now, r);
      Fits(s1, h) && Restored(rules, s, Refunded(s1, h), now, r)
  {
    var (s1, h) := Reserved(rules, s, now, r);
    ReservedWindow(rules, s, now, r);
    RefundedWindow(s1, h);
    if h.rule.Some? {
      var w := WindowFor(rules, s, h.rule.value);
      assert w.Reserved(now).Released(w.ClaimFor()).slots == w.slots;
    }
  }

  ghost predicate Restored(rules: seq<Rule>, s: State, s': State, now: int, r: Request) {
    var m := Matched(rules, r.verb, r.path);
    && s'.warnings == s.warnings
    && (forall which :: s'.BucketOf(which) ==
          if BucketFor(r) == Some(which) then s.BucketOf(which).Refilled(now) else s.BucketOf(which))
    && (if m.None? then s'.windows == s.windows
        else
          var w := WindowFor(rules, s, m.value);
          s'.windows == s.windows[m.value := w.(serial := w.serial + 1)])
  }

  // Seconds since 1970 as an instant; time.Unix rebases in 64 bits and wraps.
  function Unix(secs: int64): int {
    var internal := secs as int + UNIX_TO_INTERNAL as int;
    var wrapped: int64 := if internal >= 0x8000_0000_0000_0000 then internal - 0x1_0000_0000_0000_0000 else internal;
    wrapped * NANOS as int
  }

  function ClampFreeze(now: int, till: int): (t: int)
    ensures t <= now + MAX_FREEZE && t <= till
    ensures t == till || t == now + MAX_FREEZE
  {
    if till > now + MAX_FREEZE then now + MAX_FREEZE else till
  }

  // The delay a refusal names. Durations are int64 and must not wrap.
  function RetryAfter(now: int, resp: Response): (till: Option<int>)
    ensures till.Some? ==> till.value <= now + MAX_FREEZE
    ensures till.Some? && resp.retryAfter.Seconds? && resp.retryAfter.secs >= 0 ==>
              till.value == now + (if resp.retryAfter.secs < 300 then resp.retryAfter.secs * NANOS else MAX_FREEZE)
  {
    if resp.retryAfter.Seconds? && resp.retryAfter.secs >= 0 then
      var d: int64 := if resp.retryAfter.secs < MAX_FREEZE / NANOS then resp.retryAfter.secs * NANOS else MAX_FREEZE;
      Some(now + d)
    else if resp.retryAfter.Date? then Some(ClampFreeze(now, resp.retryAfter.at))
    else if resp.reset.Some? then Some(ClampFreeze(now, Unix(resp.reset.value)))
    else None
  }

  // The earlier of two instants.
  function Sooner(a: int, b: int): int { if a < b then a else b }

  // Which header is honoured, to the nanosecond: seconds that are not negative,
  // else a date, else the reset, each capped at five minutes from now; nothing
  // else names a delay. A reset counts from 1970, and one past what 64 bits of
  // seconds since the year 1 can hold wraps around, to an instant long past.
  lemma {:induction false} RetryAfterHonours(now: int, resp: Response)
    ensures var (h, latest) := (resp.retryAfter, now + 300_000_000_000);
      RetryAfter(now, resp) ==
        if h.Seconds? && h.secs >= 0 then Some(Sooner(now + h.secs as int * 1_000_000_000, latest))
        else if h.Date? then Some(Sooner(h.at, latest))
        else if resp.reset.None? then None
        else if resp.reset.value as int + 62_135_596_800 <= 0x7fff_ffff_ffff_ffff then
          Some(Sooner((resp.reset.value as int + 62_135_596_800) * 1_000_000_000, latest))
        else
          Some(Sooner((resp.reset.value as int + 62_135_596_800 - 0x1_0000_0000_0000_0000) * 1_000_000_000, latest))
  {
  }

  // A refused request's window and bucket, frozen.
  ghost function Hushed(rules: seq<Rule>, s: State, r: Request, till: int): (s': State)
    requires s.Valid()
    ensures s'.Valid()
  {
    var m, bucket := Matched(rules, r.verb, r.path), BucketFor(r);
    var s1 := if m.Some? then s.WithWindow(m.value, WindowFor(rules, s, m.value).Frozen(till)) else s;
    if bucket.Some? then s1.WithBucket(bucket.value, s1.BucketOf(bucket.value).Frozen(till)) else s1
  }

  // Observe, with the clock readings it takes: one to adopt, one to freeze.
  ghost function Observed(rules: seq<Rule>, s: State, r: Request, resp: Response, adoptAt: int, now: int): (s': State)
    requires s.Valid()
    ensures s'.Valid()
  {
    var s1 := if resp.warning then s.(warnings := s.warnings + 1) else s;
    var bucket := BucketFor(r);
    var s2 := if resp.remaining.Some? && bucket.Some? then
                s1.WithBucket(bucket.value, s1.BucketOf(bucket.value).Adopted(resp.remaining.value, adoptAt))
              else s1;
    if resp.status != TOO_MANY_REQUESTS || RetryAfter(now, resp).None? then s2
    else Hushed(rules, s2, r, RetryAfter(now, resp).value)
  }

  // Only a refusal that names a delay touches a window, and only its own.
  lemma {:induction false} ObservedWindow(rules: seq<Rule>, s: State, r: Request, resp: Response, adoptAt: int, now: int)
    requires s.Valid()
    ensures var s', m := Observed(rules, s, r, resp, adoptAt, now), Matched(rules, r.verb, r.path);
      if resp.status == TOO_MANY_REQUESTS && RetryAfter(now, resp).Some? && m.Some? then
        s'.windows == s.windows[m.value := WindowFor(rules, s, m.value).Frozen(RetryAfter(now, resp).value)]
      else s'.windows == s.windows
  {
  }

  // What a response leaves of a bucket: another's is untouched, and only a
  // balance header changes what it holds.
  lemma {:induction false} ObservedBuckets(rules: seq<Rule>, s: State, r: Request, resp: Response, adoptAt: int, now: int, which: Which)
    requires s.Valid()
    ensures var b, b' := s.BucketOf(which), Observed(rules, s, r, resp, adoptAt, now).BucketOf(which);
      && (BucketFor(r) != Some(which) ==> b' == b)
      && (resp.remaining.None? ==> b' == b.(frozenTill := b'.frozenTill))
      && (b'.updated == b.updated || b'.updated == adoptAt)
      && b'.rate == b.rate && b'.burst == b.burst
  {
  }

  class StandardLimiter {
    const rules: seq<Rule>
    const orders: TB.BucketState
    const cancels: TB.BucketState
    var windows: map<nat, SW.WindowState>
    var warnings: nat

    ghost var Repr: set<object>  // everything the limiter owns besides itself

    ghost predicate Owned()
      reads this
    {
      && this !in Repr && orders in Repr && cancels in Repr && orders != cancels
      && (forall i :: i in windows ==> i < |rules| && windows[i].Valid() && windows[i] in Repr && windows[i].slots in Repr)
      && (forall i, j :: i in windows && j in windows && i != j ==>
            windows[i] != windows[j] && windows[i].slots != windows[j].slots)
    }

    ghost function Contents(): State
      requires Owned()
      reads this, Repr
    {
      State(map i | i in windows :: windows[i].Contents(), orders.Contents(), cancels.Contents(), warnings)
    }

    ghost predicate Valid()
      reads this, Repr
    {
      Owned() && Contents().Valid()
    }

    constructor (rules: seq<Rule>, tier: Tier)
      ensures Valid() && fresh(Repr)
      ensures this.rules == rules && Contents() == Initial(tier)
    {
      this.rules := rules;
      orders := new TB.BucketState(tier.orderRate, tier.orderBurst);
      cancels := new TB.BucketState(tier.cancelRate, tier.cancelBurst);
      windows := map[];
      warnings := 0;
      Repr := {orders, cancels};
    }

    // A window added leaves the others' contents alone.
    twostate lemma {:induction false} WindowAdded(i: nat, new w: SW.WindowState)
      requires old(Owned()) && Owned() && windows == old(windows)[i := w] && i !in old(windows)
      requires unchanged(orders) && unchanged(cancels) && warnings == old(warnings)
      requires forall j :: j in old(windows) ==> unchanged(old(windows)[j]) && unchanged(old(windows)[j].slots)
      ensures Contents() == old(Contents()).WithWindow(i, w.Contents())
    {
      forall j | j in old(windows) ensures windows[j].Contents() == old(windows[j].Contents()) {
      }
      assert Contents().windows == old(Contents()).windows[i := w.Contents()];
    }

    method WindowOf(i: nat) returns (w: SW.WindowState)
      requires Valid() && i < |rules|
      modifies this`windows, this`Repr
      ensures Valid() && fresh(Repr - old(Repr))
      ensures i in windows && windows[i] == w
      ensures Contents() == old(Contents()).WithWindow(i, WindowFor(rules, old(Contents()), i))
    {
      if i in windows {
        w := windows[i];
        assert Contents().windows == old(Contents()).windows[i := w.Contents()];
      } else {
        w := new SW.WindowState(rules[i].limit);
        windows := windows[i := w];
        Repr := Repr + {w, w.slots};
        WindowAdded(i, w);
      }
    }

    // A window changed in place changes the contents at its own rule only.
    twostate lemma {:induction false} OneWindowChanged(i: nat)
      requires old(Owned()) && i in windows && windows == old(windows) && Repr == old(Repr)
      requires unchanged(orders) && unchanged(cancels) && warnings == old(warnings)
      requires forall j :: j in windows && j != i ==> unchanged(windows[j]) && unchanged(windows[j].slots)
      ensures Contents() == old(Contents()).WithWindow(i, windows[i].Contents())
    {
      forall j | j in windows && j != i ensures windows[j].Contents() == old(windows[j].Contents()) {
      }
      assert Contents().windows == old(Contents()).windows[i := windows[i].Contents()];
    }

    twostate lemma {:induction false} WindowsKept()
      requires old(Owned()) && windows == old(windows) && Repr == old(Repr)
      requires forall j :: j in windows ==> unchanged(windows[j]) && unchanged(windows[j].slots)
      ensures Contents().windows == old(Contents()).windows
    {
      forall j | j in windows ensures windows[j].Contents() == old(windows[j].Contents()) {
      }
    }

    function BucketAt(w: Which): TB.BucketState { if w.Orders? then orders else cancels }

    method ReserveIn(i: nat, now: int) returns (t: int, claim: SW.Claim)
      requires Valid() && i in windows
      modifies windows[i], windows[i].slots
      ensures Valid() && Repr == old(Repr)
      ensures var w := old(Contents()).windows[i];
        && t == w.TimeFor(now) && claim == w.ClaimFor()
        && Contents() == old(Contents()).WithWindow(i, w.Reserved(now))
    {
      t, claim := windows[i].Reserve(now);
      OneWindowChanged(i);
    }

    method ReserveWindow(i: nat, now: int) returns (t: int, claim: SW.Claim)
      requires Valid() && i < |rules|
      modifies this, Repr
      ensures Valid() && fresh(Repr - old(Repr))
      ensures var w := WindowFor(rules, old(Contents()), i);
        && t == w.TimeFor(now) && claim == w.ClaimFor()
        && Contents() == old(Contents()).WithWindow(i, w.Reserved(now))
    {
      ghost var before := Contents();
      ghost var w := WindowFor(rules, before, i);
      WindowTwice(before, i, w, w.Reserved(now));
      var win := WindowOf(i);
      t, claim := ReserveIn(i, now);
    }

    method Spend(w: Which, now: int, cost: real) returns (t: real)
      requires Valid() && cost >= 0.0
      modifies BucketAt(w)
      ensures Valid() && Repr == old(Repr)
      ensures var b := old(Contents()).BucketOf(w);
        && t == b.SendTime(now, cost)
        && Contents() == old(Contents()).WithBucket(w, b.Spent(now, cost))
    {
      t := BucketAt(w).Reserve(now, cost);
      WindowsKept();
    }

    // Wait up to its sleep: the first lock section.
    method Reserve(now: int, r: Request) returns (hold: Hold)
      requires Valid()
      modifies this, Repr
      ensures Valid() && fresh(Repr - old(Repr))
      ensures (Contents(), hold) == Reserved(rules, old(Contents()), now, r)
    {
      var when: real := now as real;
      var bucketTime := when;
      var claim, windowTime := NO_CLAIM, now;
      var m := Match(rules, r.verb, r.path);
      if m.Some? {
        windowTime, claim := ReserveWindow(m.value, now);
        if windowTime > now {
          when := windowTime as real;
        }
      }
      var bucket := BucketFor(r);
      if bucket.Some? {
        bucketTime := Spend(bucket.value, now, Cost(r));
        if bucketTime > when {
          when := bucketTime;
        }
      }
      hold := Hold(m, claim, windowTime, bucket, Cost(r), bucketTime, when);
    }

    method ReleaseWindow(i: nat, claim: SW.Claim)
      requires Valid() && i in windows && claim.slot < windows[i].slots.Length
      modifies windows[i].slots
      ensures Valid() && Repr == old(Repr)
      ensures Contents() == old(Contents()).WithWindow(i, old(Contents()).windows[i].Released(claim))
    {
      windows[i].Release(claim);
      OneWindowChanged(i);
    }

    method Repay(w: Which, cost: real)
      requires Valid()
      modifies BucketAt(w)
      ensures Valid() && Repr == old(Repr)
      ensures Contents() == old(Contents()).WithBucket(w, old(Contents()).BucketOf(w).Refunded(cost))
    {
      BucketAt(w).Release(cost);
      WindowsKept();
    }

    // Wait given up while asleep: the second lock section.
    method Refund(hold: Hold)
      requires Valid() && Fits(Contents(), hold)
      modifies Repr
      ensures Valid() && Repr == old(Repr)
      ensures Contents() == Refunded(old(Contents()), hold)
    {
      if hold.rule.Some? {
        ReleaseWindow(hold.rule.value, hold.claim);
      }
      if hold.bucket.Some? {
        Repay(hold.bucket.value, hold.cost);
      }
    }

    method Adopt(w: Which, remaining: TB.Float, now: int)
      requires Valid()
      modifies BucketAt(w)
      ensures Valid() && Repr == old(Repr)
      ensures Contents() == old(Contents()).WithBucket(w, old(Contents()).BucketOf(w).Adopted(remaining, now))
    {
      BucketAt(w).Adopt(remaining, now);
      WindowsKept();
    }

    method FreezeIn(i: nat, till: int)
      requires Valid() && i in windows
      modifies windows[i]
      ensures Valid() && Repr == old(Repr)
      ensures Contents() == old(Contents()).WithWindow(i, old(Contents()).windows[i].Frozen(till))
    {
      windows[i].Freeze(till);
      OneWindowChanged(i);
    }

    method FreezeWindow(i: nat, till: int)
      requires Valid() && i < |rules|
      modifies this, Repr
      ensures Valid() && fresh(Repr - old(Repr))
      ensures Contents() == old(Contents()).WithWindow(i, WindowFor(rules, old(Contents()), i).Frozen(till))
    {
      ghost var before := Contents();
      ghost var w := WindowFor(rules, before, i);
      WindowTwice(before, i, w, w.Frozen(till));
      var win := WindowOf(i);
      FreezeIn(i, till);
    }

    method FreezeBucket(w: Which, till: int)
      requires Valid()
      modifies BucketAt(w)
      ensures Valid() && Repr == old(Repr)
      ensures Contents() == old(Contents()).WithBucket(w, old(Contents()).BucketOf(w).Frozen(till))
    {
      BucketAt(w).Freeze(till);
      WindowsKept();
    }

    method Warn()
      requires Valid()
      modifies this`warnings
      ensures Valid() && Repr == old(Repr)
      ensures Contents() == old(Contents()).(warnings := old(Contents()).warnings + 1)
    {
      warnings := warnings + 1;
    }

    // Both layers of a refused request held shut.
    method Hush(r: Request, till: int)
      requires Valid()
      modifies this, Repr
      ensures Valid() && fresh(Repr - old(Repr))
      ensures Contents() == Hushed(rules, old(Contents()), r, till)
    {
      var m := Match(rules, r.verb, r.path);
      if m.Some? {
        FreezeWindow(m.value, till);
      }
      var bucket := BucketFor(r);
      if bucket.Some? {
        FreezeBucket(bucket.value, till);
      }
    }

    method Observe(r: Request, resp: Response, adoptAt: int, now: int)
      requires Valid()
      modifies this, Repr
      ensures Valid() && fresh(Repr - old(Repr))
      ensures Contents() == Observed(rules, old(Contents()), r, resp, adoptAt, now)
    {
      if resp.warning {
        Warn();
      }
      var bucket := BucketFor(r);
      if resp.remaining.Some? && bucket.Some? {
        Adopt(bucket.value, resp.remaining.value, adoptAt);
      }
      var till := RetryAfter(now, resp);
      if resp.status != TOO_MANY_REQUESTS || till.None? {
        return;
      }
      Hush(r, till.value);
    }
  }
}
