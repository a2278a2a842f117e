// The sliding window of ratelimit.go: an unordered array of scheduled send
// times. Instants count nanoseconds from Go's zero time, so the zero Time is 0
// and a slot whose `when` is 0 is free.

module SlidingWindow {
  const ZERO_TIME: int := 0

  datatype RateLimit = RateLimit(requests: int, window: int)

  // One remembered send, and the serial number of the reservation holding it.
  datatype Slot = Slot(when: int, serial: nat)

  const FREE := Slot(ZERO_TIME, 0)

  // One request's claim on a slot; `prev` is what the claim displaced.
  datatype Claim = Claim(slot: nat, serial: nat, prev: Slot)

  function Max(a: int, b: int): int { if a > b then a else b }

  // The slot a reservation takes: the first free one when there is one,
  // otherwise the first among the oldest sends.
  ghost predicate Claimable(slots: seq<Slot>, at: int) {
    && 0 <= at < |slots|
    && if slots[at].when == ZERO_TIME then
         forall i :: 0 <= i < at ==> slots[i].when != ZERO_TIME
       else
         && (forall i :: 0 <= i < |slots| ==> slots[i].when != ZERO_TIME && slots[at].when <= slots[i].when)
         && (forall i :: 0 <= i < at ==> slots[at].when < slots[i].when)
  }

  // Claimable names one slot and no other.
  lemma {:induction false} ClaimableUnique(slots: seq<Slot>, a: int, b: int)
    requires Claimable(slots, a) && Claimable(slots, b)
    ensures a == b
  {
  }

  ghost function Target(slots: seq<Slot>): (at: nat)
    requires |slots| > 0
    ensures Claimable(slots, at)
  {
    var last := |slots| - 1;
    if last == 0 then 0 else
      var at := Target(slots[..last]);
      assert Claimable(slots[..last], at);
      if slots[at].when == ZERO_TIME then at
      else if slots[last].when == ZERO_TIME || slots[last].when < slots[at].when then last
      else at
  }

  // When a request arriving at `now` may use a slot holding `s`.
  function SendTime(s: Slot, width: int, frozenTill: int, now: int): int {
    var behind := if s.when != ZERO_TIME then Max(now, s.when + width) else now;
    Max(behind, frozenTill)
  }

  // The value a window object holds, and what each operation makes of it.
  datatype Window = Window(width: int, slots: seq<Slot>, serial: nat, frozenTill: int) {
    ghost predicate Valid() { |slots| > 0 }

    ghost function At(): (at: nat)
      requires Valid()
      ensures at < |slots|
    {
      Target(slots)
    }

    ghost function TimeFor(now: int): int
      requires Valid()
    {
      SendTime(slots[At()], width, frozenTill, now)
    }

    ghost function ClaimFor(): (c: Claim)
      requires Valid()
      ensures c.slot < |slots|
    {
      Claim(At(), serial + 1, slots[At()])
    }

    ghost function Reserved(now: int): (w: Window)
      requires Valid()
      ensures w.Valid() && |w.slots| == |slots|
    {
      this.(slots := slots[At() := Slot(TimeFor(now), serial + 1)], serial := serial + 1)
    }

    function Released(c: Claim): (w: Window)
      requires c.slot < |slots|
      ensures |w.slots| == |slots|
    {
      if c.serial == 0 || slots[c.slot].serial != c.serial then this
      else this.(slots := slots[c.slot := c.prev])
    }

    function Frozen(t: int): Window { this.(frozenTill := Max(frozenTill, t)) }
  }

  function Fresh(limit: RateLimit): (w: Window)
    ensures w.Valid()
  {
    Window(limit.window, seq(Max(1, limit.requests), _ => FREE), 0, ZERO_TIME)
  }

  // The object the limiter keeps per rule, updated in place.
  class WindowState {
    const width: int
    const slots: array<Slot>
    var serial: nat
    var frozenTill: int

    ghost predicate Valid() { slots.Length > 0 }

    ghost function Contents(): (w: Window)
      reads this, slots
    {
      Window(width, slots[..], serial, frozenTill)
    }

    constructor (limit: RateLimit)
      ensures Valid() && fresh(slots)
      ensures Contents() == Fresh(limit)
    {
      width := limit.window;
      var requests := if limit.requests < 1 then 1 else limit.requests;
      slots := new Slot[requests](_ => FREE);
      serial, frozenTill := 0, ZERO_TIME;
      new;
      assert slots[..] == Fresh(limit).slots;
    }

    method Reserve(now: int) returns (when: int, claim: Claim)
      requires Valid()
      modifies this, slots
      ensures Contents() == old(Contents()).Reserved(now)
      ensures when == old(Contents()).TimeFor(now)
      ensures claim == old(Contents()).ClaimFor()
    {
      var at, i := 0, 0;
      while i < slots.Length
        invariant 0 <= at < slots.Length && 0 <= i <= slots.Length
        invariant if i == 0 then at == 0 else at < i
        invariant forall k :: 0 <= k < i ==> slots[k].when != ZERO_TIME && slots[at].when <= slots[k].when
        invariant forall k :: 0 <= k < at ==> slots[at].when < slots[k].when
      {
        if slots[i].when == ZERO_TIME {
          at := i;
          break;
        }
        if slots[i].when < slots[at].when {
          at := i;
        }
        i := i + 1;
      }
      ClaimableUnique(slots[..], at, Target(slots[..]));

      when := now;
      var oldest := slots[at].when;
      if oldest != ZERO_TIME && oldest + width > when {
        when := oldest + width;
      }
      if frozenTill > when {
        when := frozenTill;
      }
      serial := serial + 1;
      claim := Claim(at, serial, slots[at]);
      slots[at] := Slot(when, serial);
    }

    method Release(claim: Claim)
      requires claim.slot < slots.Length
      modifies slots
      ensures Contents() == old(Contents()).Released(claim)
    {
      if claim.serial == 0 || slots[claim.slot].serial != claim.serial {
        return;
      }
      slots[claim.slot] := claim.prev;
    }

    method Freeze(t: int)
      modifies this`frozenTill
      ensures Contents() == old(Contents()).Frozen(t)
    {
      if t > frozenTill {
        frozenTill := t;
      }
    }
  }
}
