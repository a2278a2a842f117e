// What a sliding window promises over whole runs: however reservations, refunds
// and freezes interleave, the sends it did not take back never exceed the limit.

module WindowSafety {
  import opened SlidingWindow

  // A clock reading is later than Go's zero time.
  type Clock = t: int | t > ZERO_TIME witness 1

  // A reservation that was handed out, and whether it has been given back.
  datatype Grant = Grant(when: int, claim: Claim, cancelled: bool)

  // A window together with everything it has handed out so far.
  datatype Run = Run(win: Window, grants: seq<Grant>) {
    ghost predicate WellFormed() {
      win.Valid() && forall k :: 0 <= k < |grants| ==> grants[k].claim.slot < |win.slots|
    }

    ghost predicate Live(k: int) { 0 <= k < |grants| && !grants[k].cancelled }

    // The live grants whose window time falls in [from, from + width).
    ghost function LiveWithin(from: int): set<int> {
      set k | 0 <= k < |grants| && Live(k) && from <= grants[k].when < from + win.width
    }
  }

  // Cancel names a grant by its index. Nothing says it is pending: a refund may
  // come out of order, come twice, or come after the slot was claimed again. An
  // index that names no grant is the zero reservation, which refunds nothing.
  datatype Event =
    | Reserve(now: Clock)
    | Cancel(grant: nat)
    | Freeze(till: int)

  ghost function Step(r: Run, e: Event): (r': Run)
    requires r.WellFormed()
    ensures r'.WellFormed()
  {
    match e
    case Reserve(now) =>
      Run(r.win.Reserved(now), r.grants + [Grant(r.win.TimeFor(now), r.win.ClaimFor(), false)])
    case Cancel(k) =>
      if k < |r.grants| then
        Run(r.win.Released(r.grants[k].claim), r.grants[k := r.grants[k].(cancelled := true)])
      else r
    case Freeze(t) =>
      Run(r.win.Frozen(t), r.grants)
  }

  ghost function Replay(limit: RateLimit, es: seq<Event>): (r: Run)
    ensures r.WellFormed()
  {
    if es == [] then Run(Fresh(limit), [])
    else Step(Replay(limit, es[..|es| - 1]), es[|es| - 1])
  }

  // A slot's contents are free, or are the record of a grant on that slot.
  ghost predicate Records(grants: seq<Grant>, at: nat, s: Slot) {
    if s.serial == 0 then s.when == ZERO_TIME
    else
      && s.serial <= |grants|
      && s.when == grants[s.serial - 1].when
      && s.when > ZERO_TIME
      && grants[s.serial - 1].claim.slot == at
  }

  // Grant k carries serial k + 1 and displaced an earlier record of its own
  // slot, a full window before it.
  ghost predicate Linked(width: int, grants: seq<Grant>, k: nat)
    requires k < |grants|
  {
    var g := grants[k];
    && g.claim.serial == k + 1
    && g.when > ZERO_TIME
    && g.claim.prev.serial <= k
    && Records(grants, g.claim.slot, g.claim.prev)
    && (g.claim.prev.serial != 0 ==> g.claim.prev.when + width <= g.when)
  }

  ghost predicate AllLinked(width: int, grants: seq<Grant>) {
    forall k :: 0 <= k < |grants| ==> Linked(width, grants, k)
  }

  // The records of a slot form a stack: under each grant lies what its claim
  // displaced. Grant k is on the stack whose top carries this serial.
  ghost predicate OnStack(width: int, grants: seq<Grant>, serial: nat, k: nat)
    requires AllLinked(width, grants)
    decreases serial
  {
    && 0 < serial <= |grants|
    && Linked(width, grants, serial - 1)
    && (serial == k + 1 || OnStack(width, grants, grants[serial - 1].claim.prev.serial, k))
  }

  ghost predicate SlotsRecord(r: Run) {
    forall i :: 0 <= i < |r.win.slots| ==> Records(r.grants, i, r.win.slots[i])
  }

  // Cancelling only ever uncovers a stack, so whoever is live is still on it.
  ghost predicate LiveOnStack(r: Run, k: nat)
    requires r.WellFormed() && AllLinked(r.win.width, r.grants) && r.Live(k)
  {
    OnStack(r.win.width, r.grants, r.win.slots[r.grants[k].claim.slot].serial, k)
  }

  ghost predicate Inv(r: Run) {
    && r.WellFormed()
    && r.win.serial == |r.grants|
    && AllLinked(r.win.width, r.grants)
    && SlotsRecord(r)
    && forall k :: r.Live(k) ==> LiveOnStack(r, k)
  }

  // Adding grants, or marking one cancelled, leaves the stacks below alone.
  lemma {:induction false} StackKept(width: int, a: seq<Grant>, b: seq<Grant>, serial: nat, k: nat)
    requires AllLinked(width, a) && AllLinked(width, b) && |a| <= |b|
    requires forall i :: 0 <= i < |a| ==> a[i].claim == b[i].claim
    requires OnStack(width, a, serial, k)
    ensures OnStack(width, b, serial, k)
    decreases serial
  {
    assert Linked(width, b, serial - 1);
    if serial != k + 1 {
      StackKept(width, a, b, a[serial - 1].claim.prev.serial, k);
    }
  }

  lemma {:induction false} LinkedKept(width: int, a: seq<Grant>, b: seq<Grant>, k: nat)
    requires k < |a| <= |b| && Linked(width, a, k)
    requires forall i :: 0 <= i < |a| ==> a[i].claim == b[i].claim && a[i].when == b[i].when
    ensures Linked(width, b, k)
  {
  }

  lemma {:induction false} ReserveInv(r: Run, now: Clock)
    requires Inv(r)
    ensures Inv(Step(r, Reserve(now)))
  {
    var r' := Step(r, Reserve(now));
    var width, n := r.win.width, |r.grants|;
    assert Records(r.grants, r.win.At(), r.win.slots[r.win.At()]);
    forall k | 0 <= k < n + 1 ensures Linked(width, r'.grants, k) {
      if k < n {
        LinkedKept(width, r.grants, r'.grants, k);
      }
    }
    forall i | 0 <= i < |r'.win.slots| ensures Records(r'.grants, i, r'.win.slots[i]) {
      assert Records(r.grants, i, r.win.slots[i]);
    }
    forall k | r'.Live(k) ensures LiveOnStack(r', k) {
      if k < n {
        assert r.Live(k) && LiveOnStack(r, k);
        StackKept(width, r.grants, r'.grants, r.win.slots[r.grants[k].claim.slot].serial, k);
      }
    }
  }

  lemma {:induction false} CancelInv(r: Run, k: nat)
    requires Inv(r) && k < |r.grants|
    ensures Inv(Step(r, Cancel(k)))
  {
    var r' := Step(r, Cancel(k));
    var width := r.win.width;
    assert Linked(width, r.grants, k);
    forall j | 0 <= j < |r'.grants| ensures Linked(width, r'.grants, j) {
      LinkedKept(width, r.grants, r'.grants, j);
    }
    forall i | 0 <= i < |r'.win.slots| ensures Records(r'.grants, i, r'.win.slots[i]) {
      assert Records(r.grants, i, r.win.slots[i]);
    }
    forall j | r'.Live(j) ensures LiveOnStack(r', j) {
      assert r.Live(j) && LiveOnStack(r, j);
      StackKept(width, r.grants, r'.grants, r'.win.slots[r.grants[j].claim.slot].serial, j);
    }
  }

  // Every event keeps the invariant, the width and the number of slots.
  lemma {:induction false} StepInv(r: Run, e: Event)
    requires Inv(r)
    ensures Inv(Step(r, e))
    ensures Step(r, e).win.width == r.win.width && |Step(r, e).win.slots| == |r.win.slots|
  {
    match e
    case Reserve(now) => ReserveInv(r, now);
    case Cancel(k) => if k < |r.grants| { CancelInv(r, k); }
    case Freeze(t) => assert forall k :: Step(r, e).Live(k) ==> r.Live(k) && LiveOnStack(r, k);
  }

  lemma {:induction false} ReplayInv(limit: RateLimit, es: seq<Event>)
    ensures Inv(Replay(limit, es))
    ensures Replay(limit, es).win.width == limit.window
    ensures |Replay(limit, es).win.slots| == Max(1, limit.requests)
  {
    if es != [] {
      ReplayInv(limit, es[..|es| - 1]);
      StepInv(Replay(limit, es[..|es| - 1]), es[|es| - 1]);
    }
  }

  // Whatever lies on a stack is no later than its top, and precedes it.
  lemma {:induction false} BelowTop(width: nat, grants: seq<Grant>, serial: nat, k: nat)
    requires AllLinked(width, grants) && OnStack(width, grants, serial, k)
    ensures k < serial && grants[k].when <= grants[serial - 1].when
    decreases serial
  {
    if serial != k + 1 {
      BelowTop(width, grants, grants[serial - 1].claim.prev.serial, k);
    }
  }

  // Two grants on one stack are at least a window apart.
  lemma {:induction false} StackSpaced(width: nat, grants: seq<Grant>, serial: nat, j: nat, k: nat)
    requires AllLinked(width, grants) && j < k < |grants|
    requires OnStack(width, grants, serial, j) && OnStack(width, grants, serial, k)
    ensures grants[j].when + width <= grants[k].when
    decreases serial
  {
    var below := grants[serial - 1].claim.prev.serial;
    if serial == k + 1 {
      BelowTop(width, grants, below, j);
    } else {
      BelowTop(width, grants, serial, k);
      StackSpaced(width, grants, below, j, k);
    }
  }

  // Distinct keys with distinct holes below n: no more of them than n.
  lemma {:induction false} Pigeonhole(keys: set<int>, hole: int -> int, n: nat)
    requires forall k :: k in keys ==> 0 <= hole(k) < n
    requires forall j, k :: j in keys && k in keys && hole(j) == hole(k) ==> j == k
    ensures |keys| <= n
    decreases n
  {
    if n == 0 {
      assert forall k :: k in keys ==> 0 <= hole(k) < 0;
      assert keys == {};
    } else if last :| last in keys && hole(last) == n - 1 {
      Pigeonhole(keys - {last}, hole, n - 1);
    } else {
      Pigeonhole(keys, hole, n - 1);
    }
  }

  lemma {:induction false} AtMostSlots(r: Run, from: int)
    requires Inv(r)
    ensures |r.LiveWithin(from)| <= |r.win.slots|
  {
    var live, grants := r.LiveWithin(from), r.grants;
    var hole := (k: int) => if 0 <= k < |grants| then grants[k].claim.slot else 0;
    forall j, k | j in live && k in live && hole(j) == hole(k) ensures j == k {
      assert r.Live(j) && r.Live(k) && LiveOnStack(r, j) && LiveOnStack(r, k);
      var top := r.win.slots[grants[j].claim.slot].serial;
      if j < k {
        StackSpaced(r.win.width, grants, top, j, k);
      } else if k < j {
        StackSpaced(r.win.width, grants, top, k, j);
      }
    }
    Pigeonhole(live, hole, |r.win.slots|);
  }

  // At most `requests` sends that were not taken back, in any half-open
  // interval of one window's length, after any sequence of events.
  lemma {:induction false} LimitHolds(limit: RateLimit, es: seq<Event>, from: int)
    ensures |Replay(limit, es).LiveWithin(from)| <= Max(1, limit.requests)
  {
    ReplayInv(limit, es);
    AtMostSlots(Replay(limit, es), from);
  }
}
