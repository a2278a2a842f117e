// When giving reservations back is exactly the effect of sends that never
// happened: when those that took the same slot go back newest first.

module WindowUndo {
  import opened SlidingWindow
  import opened WindowSafety

  // A reservation at a clock reading, and a freeze applied after it (freezing to
  // the zero time changes nothing).
  datatype Booking = Booking(now: int, thenFreeze: int)

  // The window after a batch of bookings, and the claims they made.
  ghost function Claims(w: Window, batch: seq<Booking>): (r: (Window, seq<Claim>))
    requires w.Valid()
    ensures |r.0.slots| == |w.slots| && |r.1| == |batch|
    ensures forall i :: 0 <= i < |r.1| ==> r.1[i].slot < |w.slots|
    ensures forall i :: 0 <= i < |r.1| ==> r.1[i].serial == w.serial + 1 + i
    decreases |batch|
  {
    if batch == [] then (w, [])
    else
      var (after, rest) := Claims(w.Reserved(batch[0].now).Frozen(batch[0].thenFreeze), batch[1..]);
      (after, [w.ClaimFor()] + rest)
  }

  ghost predicate InRange(w: Window, cs: seq<Claim>) {
    forall i :: 0 <= i < |cs| ==> cs[i].slot < |w.slots|
  }

  function ReleaseAll(w: Window, cs: seq<Claim>): (r: Window)
    requires forall i :: 0 <= i < |cs| ==> cs[i].slot < |w.slots|
    ensures |r.slots| == |w.slots|
    decreases |cs|
  {
    if cs == [] then w else ReleaseAll(w.Released(cs[0]), cs[1..])
  }

  function Reversed(cs: seq<Claim>): (r: seq<Claim>)
    ensures |r| == |cs| && forall i :: 0 <= i < |cs| ==> r[i] == cs[|cs| - 1 - i]
  {
    if cs == [] then [] else Reversed(cs[1..]) + [cs[0]]
  }

  lemma {:induction false} ReleaseLast(w: Window, cs: seq<Claim>, c: Claim)
    requires InRange(w, cs) && c.slot < |w.slots|
    ensures ReleaseAll(w, cs + [c]) == ReleaseAll(w, cs).Released(c)
    decreases |cs|
  {
    if cs == [] {
      assert ([] + [c])[1..] == [];
    } else {
      assert (cs + [c])[1..] == cs[1..] + [c];
      ReleaseLast(w.Released(cs[0]), cs[1..], c);
    }
  }

  // A batch released newest first restores the slots identically, whatever
  // clock readings it was made at and whatever freezes came between.
  lemma {:induction false} ReverseReleaseRestores(w: Window, batch: seq<Booking>)
    requires w.Valid()
    ensures ReleaseAll(Claims(w, batch).0, Reversed(Claims(w, batch).1)).slots == w.slots
    decreases |batch|
  {
    if batch != [] {
      var w1 := w.Reserved(batch[0].now).Frozen(batch[0].thenFreeze);
      var (after, rest) := Claims(w1, batch[1..]);
      ReverseReleaseRestores(w1, batch[1..]);
      ReleaseLast(after, Reversed(rest), w.ClaimFor());
      assert Claims(w, batch).1 == [w.ClaimFor()] + rest;
      assert ([w.ClaimFor()] + rest)[1..] == rest;
    }
  }

  // Serials are handed out in order, so no slot holds one not yet handed out.
  ghost predicate Issued(w: Window) {
    w.Valid() && forall i :: 0 <= i < |w.slots| ==> w.slots[i].serial <= w.serial
  }

  lemma {:induction false} ReplayIssued(limit: RateLimit, es: seq<Event>)
    ensures Issued(Replay(limit, es).win)
  {
    ReplayInv(limit, es);
    var r := Replay(limit, es);
    forall i | 0 <= i < |r.win.slots| ensures r.win.slots[i].serial <= r.win.serial {
      assert Records(r.grants, i, r.win.slots[i]);
    }
  }

  // The newest among the first n claims to take slot `at`, or -1.
  function LastOn(cs: seq<Claim>, n: nat, at: nat): (k: int)
    requires n <= |cs|
    ensures -1 <= k < n
    ensures k >= 0 ==> cs[k].slot == at
    ensures forall j :: k < j < n ==> cs[j].slot != at
  {
    if n == 0 then -1 else if cs[n - 1].slot == at then n - 1 else LastOn(cs, n - 1, at)
  }

  // `held` is the record of claim k, or for k = -1 what slot `at` of w held.
  ghost predicate Holds(w: Window, cs: seq<Claim>, k: int, at: nat, held: Slot)
    requires -1 <= k < |cs| && at < |w.slots|
  {
    if k < 0 then held == w.slots[at] else held.serial == cs[k].serial
  }

  // Slot `at` holds its newest claim, and each claim the one it displaced.
  ghost predicate Stacked(w: Window, after: Window, cs: seq<Claim>) {
    && |after.slots| == |w.slots| && InRange(w, cs)
    && (forall k :: 0 <= k < |cs| ==> Displaced(w, cs, k))
    && (forall at :: 0 <= at < |w.slots| ==> Holds(w, cs, LastOn(cs, |cs|, at), at, after.slots[at]))
  }

  ghost predicate Displaced(w: Window, cs: seq<Claim>, k: nat)
    requires k < |cs|
  {
    && cs[k].slot < |w.slots|
    && cs[k].serial == w.serial + 1 + k
    && Holds(w, cs, LastOn(cs, k, cs[k].slot), cs[k].slot, cs[k].prev)
  }

  // Reservations made one after another are what `Claims` makes of the batch.
  lemma {:induction false} ClaimsLast(w: Window, batch: seq<Booking>, b: Booking)
    requires w.Valid()
    ensures var r := Claims(w, batch);
      && r.0.serial == w.serial + |batch|
      && Claims(w, batch + [b]) == (r.0.Reserved(b.now).Frozen(b.thenFreeze), r.1 + [r.0.ClaimFor()])
    decreases |batch|
  {
    if batch == [] {
      var w1 := w.Reserved(b.now).Frozen(b.thenFreeze);
      assert [] + [b] == [b] && [b][1..] == [];
      assert Claims(w1, []) == (w1, []);
      assert [w.ClaimFor()] + [] == [] + [w.ClaimFor()];
    } else {
      var w1 := w.Reserved(batch[0].now).Frozen(batch[0].thenFreeze);
      var (after, rest) := Claims(w1, batch[1..]);
      assert (batch + [b])[1..] == batch[1..] + [b];
      ClaimsLast(w1, batch[1..], b);
      assert [w.ClaimFor()] + (rest + [after.ClaimFor()]) == [w.ClaimFor()] + rest + [after.ClaimFor()];
    }
  }

  lemma {:induction false} LastOnPrefix(cs: seq<Claim>, c: Claim, n: nat, at: nat)
    requires n <= |cs|
    ensures LastOn(cs + [c], n, at) == LastOn(cs, n, at)
  {
    if n > 0 {
      LastOnPrefix(cs, c, n - 1, at);
    }
  }

  lemma {:induction false} StackedStep(w: Window, after: Window, cs: seq<Claim>, b: Booking)
    requires w.Valid() && Stacked(w, after, cs) && after.serial == w.serial + |cs|
    ensures Stacked(w, after.Reserved(b.now).Frozen(b.thenFreeze), cs + [after.ClaimFor()])
  {
    var c := after.ClaimFor();
    var more, n, last := cs + [c], |cs|, after.Reserved(b.now).Frozen(b.thenFreeze);
    forall k | 0 <= k < n + 1 ensures Displaced(w, more, k) {
      LastOnPrefix(cs, c, k, more[k].slot);
      assert k < n ==> Displaced(w, cs, k);
    }
    forall at | 0 <= at < |w.slots| ensures Holds(w, more, LastOn(more, n + 1, at), at, last.slots[at]) {
      LastOnPrefix(cs, c, n, at);
    }
  }

  lemma {:induction false} BatchStacked(w: Window, batch: seq<Booking>)
    requires w.Valid()
    ensures Stacked(w, Claims(w, batch).0, Claims(w, batch).1)
    decreases |batch|
  {
    if batch != [] {
      var n := |batch| - 1;
      assert batch == batch[..n] + [batch[n]];
      BatchStacked(w, batch[..n]);
      ClaimsLast(w, batch[..n], batch[n]);
      StackedStep(w, Claims(w, batch[..n]).0, Claims(w, batch[..n]).1, batch[n]);
    }
  }

  // An order to release a batch in: each claim, by its index, exactly once.
  ghost predicate Once(order: seq<nat>, n: nat) {
    && (forall i :: 0 <= i < |order| ==> order[i] < n)
    && (forall i, j :: 0 <= i < j < |order| ==> order[i] != order[j])
    && (forall k :: 0 <= k < n ==> k in order)
  }

  function InOrder(cs: seq<Claim>, order: seq<nat>): (r: seq<Claim>)
    requires forall i :: 0 <= i < |order| ==> order[i] < |cs|
    ensures |r| == |order|
    ensures forall i :: 0 <= i < |r| ==> r[i] == cs[order[i]]
  {
    seq(|order|, i requires 0 <= i < |order| => cs[order[i]])
  }

  // Which claim slot `at` still holds once these have been released, or -1: a
  // release takes effect only when its claim is the one the slot holds.
  function Top(cs: seq<Claim>, order: seq<nat>, at: nat): (k: int)
    ensures -1 <= k < |cs|
    ensures k >= 0 ==> cs[k].slot == at
  {
    if order == [] then LastOn(cs, |cs|, at)
    else
      var t := Top(cs, order[..|order| - 1], at);
      if t == order[|order| - 1] then LastOn(cs, t, at) else t
  }

  lemma {:induction false} TopHeld(w: Window, after: Window, cs: seq<Claim>, order: seq<nat>, at: nat)
    requires Issued(w) && Stacked(w, after, cs) && at < |w.slots|
    requires forall i :: 0 <= i < |order| ==> order[i] < |cs|
    ensures Holds(w, cs, Top(cs, order, at), at, ReleaseAll(after, InOrder(cs, order)).slots[at])
    decreases |order|
  {
    if order != [] {
      var n := |order| - 1;
      var k, t := order[n], Top(cs, order[..n], at);
      TopHeld(w, after, cs, order[..n], at);
      ReleaseLast(after, InOrder(cs, order[..n]), cs[k]);
      assert InOrder(cs, order) == InOrder(cs, order[..n]) + [cs[k]];
      assert Displaced(w, cs, k);
      assert t >= 0 ==> Displaced(w, cs, t);
    }
  }

  // A claim not released is still on its slot, perhaps under newer ones.
  lemma {:induction false} StaysUnder(cs: seq<Claim>, order: seq<nat>, k: nat)
    requires k < |cs| && k !in order
    ensures Top(cs, order, cs[k].slot) >= k
    decreases |order|
  {
    if order != [] {
      StaysUnder(cs, order[..|order| - 1], k);
    }
  }

  // A claim released while a newer one covers it is never uncovered again.
  lemma {:induction false} Buried(cs: seq<Claim>, order: seq<nat>, i: nat, j: nat, m: nat)
    requires Once(order, |cs|) && i < j < |order| && i < m <= |order|
    requires order[i] < order[j] && cs[order[i]].slot == cs[order[j]].slot
    ensures Top(cs, order[..m], cs[order[i]].slot) >= order[i]
    decreases m
  {
    assert order[..m][..m - 1] == order[..m - 1];
    if m == i + 1 {
      StaysUnder(cs, order[..i], order[j]);
    } else {
      Buried(cs, order, i, j, m - 1);
    }
  }

  ghost predicate NewestFirst(cs: seq<Claim>, order: seq<nat>) {
    forall i, j :: 0 <= i < j < |order| && order[i] < |cs| && order[j] < |cs| && cs[order[i]].slot == cs[order[j]].slot ==>
      order[j] < order[i]
  }

  // Released newest first, whatever a slot still holds is yet to be released.
  lemma {:induction false} Uncovered(cs: seq<Claim>, order: seq<nat>, at: nat, m: nat)
    requires Once(order, |cs|) && NewestFirst(cs, order) && m <= |order|
    ensures Top(cs, order[..m], at) !in order[..m]
    decreases m
  {
    if m > 0 {
      Uncovered(cs, order, at, m - 1);
      assert order[..m][..m - 1] == order[..m - 1];
      forall i | 0 <= i < m ensures order[i] != Top(cs, order[..m], at) {
        assert i < m - 1 && cs[order[i]].slot == cs[order[m - 1]].slot ==> order[m - 1] < order[i];
      }
    }
  }

  lemma {:induction false} NewestFirstRestores(w: Window, after: Window, cs: seq<Claim>, order: seq<nat>)
    requires Issued(w) && Stacked(w, after, cs) && Once(order, |cs|) && NewestFirst(cs, order)
    ensures ReleaseAll(after, InOrder(cs, order)).slots == w.slots
  {
    var back := ReleaseAll(after, InOrder(cs, order)).slots;
    assert order[..|order|] == order;
    forall at | 0 <= at < |w.slots| ensures back[at] == w.slots[at] {
      Uncovered(cs, order, at, |order|);
      TopHeld(w, after, cs, order, at);
    }
  }

  lemma {:induction false} OldestFirstSpoils(w: Window, after: Window, cs: seq<Claim>, order: seq<nat>, i: nat, j: nat)
    requires Issued(w) && Stacked(w, after, cs) && Once(order, |cs|) && i < j < |order|
    requires order[i] < order[j] && cs[order[i]].slot == cs[order[j]].slot
    ensures ReleaseAll(after, InOrder(cs, order)).slots != w.slots
  {
    var at := cs[order[i]].slot;
    assert order[..|order|] == order;
    Buried(cs, order, i, j, |order|);
    assert Displaced(w, cs, Top(cs, order, at));
    TopHeld(w, after, cs, order, at);
  }

  // Released once each, a batch's claims bring the slots back identically
  // exactly when those on one slot go newest first; the order between slots,
  // the clock readings and the freezes do not matter.
  lemma {:induction false} RestoredExactly(w: Window, batch: seq<Booking>, order: seq<nat>)
    requires Issued(w) && Once(order, |batch|)
    ensures var (after, cs) := Claims(w, batch);
      ReleaseAll(after, InOrder(cs, order)).slots == w.slots <==> NewestFirst(cs, order)
  {
    var (after, cs) := Claims(w, batch);
    BatchStacked(w, batch);
    if NewestFirst(cs, order) {
      NewestFirstRestores(w, after, cs, order);
    } else {
      var i, j :| 0 <= i < j < |order| && cs[order[i]].slot == cs[order[j]].slot && order[j] >= order[i];
      OldestFirstSpoils(w, after, cs, order, i, j);
    }
  }

  // Released oldest first, two claims on a window's one slot leave the record of
  // a send that was cancelled.
  lemma {:induction false} OldestFirstLeavesRecord()
    ensures var w := Fresh(RateLimit(1, 10));
      var (after, cs) := Claims(w, [Booking(1, ZERO_TIME), Booking(1, ZERO_TIME)]);
      ReleaseAll(after, InOrder(cs, [0, 1])).slots != w.slots
  {
    var w, batch, order := Fresh(RateLimit(1, 10)), [Booking(1, ZERO_TIME), Booking(1, ZERO_TIME)], [0, 1];
    assert 0 in order && 1 in order;
    RestoredExactly(w, batch, order);
    var cs := Claims(w, batch).1;
    assert cs[order[0]].slot == cs[order[1]].slot == 0;
  }

  ghost predicate DistinctSlots(cs: seq<Claim>) {
    forall i, j :: 0 <= i < j < |cs| ==> cs[i].slot != cs[j].slot
  }

  // Claims on distinct slots may be released in any order.
  lemma {:induction false} AnyOrderRestores(w: Window, batch: seq<Booking>, order: seq<nat>)
    requires Issued(w) && DistinctSlots(Claims(w, batch).1) && Once(order, |batch|)
    ensures ReleaseAll(Claims(w, batch).0, InOrder(Claims(w, batch).1, order)).slots == w.slots
  {
    RestoredExactly(w, batch, order);
  }
}
