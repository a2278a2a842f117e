// What a tick size's name says, and the orders built for it, in plain numbers:
// nothing here goes by what the table's rows happen to hold.

module Ticks {
  import opened Wrappers
  import opened Amount
  import opened Orders

  // The number these decimal digits spell.
  function Digits(s: string): int {
    if s == [] then 0 else Digits(s[..|s| - 1]) * 10 + (s[|s| - 1] as int - '0' as int)
  }

  // The tick sizes there are.
  lemma {:induction false} TickSizes()
    ensures BY_TICK_SIZE.Keys == TICKS.Keys == {"0.1", "0.01", "0.005", "0.0025", "0.001", "0.0001"}
  {
    assert BY_TICK_SIZE.Keys == {"0.1", "0.01", "0.005", "0.0025", "0.001", "0.0001"};
    assert TICKS.Keys == {"0.1", "0.01", "0.005", "0.0025", "0.001", "0.0001"};
  }

  // How many decimals a tick's name writes.
  function Decimals(tick: string): nat { if |tick| < 2 then 0 else |tick| - 2 }

  lemma {:induction false} DigitsRead()
    ensures Digits("1") == 1 && Digits("01") == 1 && Digits("005") == 5 && Digits("0025") == 25 && Digits("001") == 1 && Digits("0001") == 1
  {
    assert "1"[..0] == "" && "0"[..0] == "";
    assert Digits("0") == 0;
    assert "01"[..1] == "0" && "00"[..1] == "0";
    assert Digits("00") == 0 && Digits("01") == 1;
    assert "005"[..2] == "00" && "001"[..2] == "00" && "002"[..2] == "00" && "000"[..2] == "00";
    assert Digits("000") == 0 && Digits("002") == 2;
    assert "0025"[..3] == "002" && "0001"[..3] == "000";
  }

  // Each row of the table is its tick's: the tick is the number its name spells,
  // prices get as many decimals as the name writes, sizes two, and amounts as
  // many as both together.
  lemma {:induction false} TickSpelled(tick: string)
    requires tick in BY_TICK_SIZE
    ensures tick in TICKS && |tick| > 2 && tick[..2] == "0."
    ensures TICKS[tick] == Unscaled(Digits(tick[2..]), Decimals(tick))
    ensures BY_TICK_SIZE[tick] == Config(Decimals(tick), 2, Decimals(tick) + 2)
  {
    TickSizes();
    DigitsRead();
    assert Pow10(1) == 10 && Pow10(2) == 100 && Pow10(3) == 1000 && Pow10(4) == 10_000;
    assert tick in {"0.1", "0.01", "0.005", "0.0025", "0.001", "0.0001"};
  }

  // A tick needs every decimal its name writes.
  lemma {:induction false} TickNeeds(tick: string)
    requires tick in BY_TICK_SIZE
    ensures tick in TICKS && DecimalPlaces(TICKS[tick], 6) == Decimals(tick)
  {
    TickSizes();
    TickSpelled(tick);
    TickOnGrid(tick);
    var t, n := TICKS[tick], Decimals(tick);
    assert Pow10(0) == 1 && Pow10(1) == 10 && Pow10(2) == 100 && Pow10(3) == 1000;
    assert Scaled(t, n - 1) in {0.1, 0.5, 2.5};
    assert !OnGrid(t, n - 1);
    GridCoarser(t, n, 6);
    PlacesLeast(t, 0, 6);
    var r := PlacesFrom(t, 0, 6);
    if r < n {
      GridCoarser(t, r, n - 1);
    }
  }

  // The limit orders that are built, and what is signed in them. The size is cut
  // to hundredths of a share and the price rounded half up to the tick's own
  // decimals, still between the tick and one less it; shares and dollars go out
  // in millionths, and come to exactly that size and that price.
  lemma {:induction false} OrderSigned(buy: bool, price: Option<real>, size: Option<real>, tick: string)
    ensures var o := BuildOrder(buy, price, size, tick);
      && (o.Ok? <==> tick in BY_TICK_SIZE && tick in TICKS && price.Some? && size.Some?
                     && TICKS[tick] <= price.value <= 1.0 - TICKS[tick])
      && (o.Ok? ==> Signed(o.value, buy, Rounded(price.value, Decimals(tick), HalfUp), Rounded(size.value, 2, Down), TICKS[tick])
                    && OnGrid(Rounded(price.value, Decimals(tick), HalfUp), DecimalPlaces(TICKS[tick], 6)))
  {
    OrderExact(buy, price, size, tick);
    if BuildOrder(buy, price, size, tick).Ok? {
      TickSpelled(tick);
      TickNeeds(tick);
      GridFixed(price.value, Decimals(tick), HalfUp);
      RatioSigned(BuildOrder(buy, price, size, tick).value, buy, Rounded(price.value, Decimals(tick), HalfUp),
                  Rounded(size.value, 2, Down), TICKS[tick]);
    }
  }

  lemma {:induction false} RatioSigned(o: Amounts, buy: bool, p: real, whole: real, tick: real)
    requires InRatio(o, buy, p, whole) && PriceAllowed(p, tick)
    ensures Signed(o, buy, p, whole, tick)
  {
    Millionths(whole);
  }

  lemma {:induction false} Millionths(x: real)
    ensures Scaled(x, DECIMALS) == x * 1_000_000.0
  {
    assert Pow10(2) == 100 && Pow10(4) == 10_000 && Pow10(6) == 1_000_000;
  }

  // Shares and dollars, in millionths, at this price.
  ghost predicate Signed(o: Amounts, buy: bool, p: real, whole: real, tick: real) {
    var shares, dollars := if buy then o.taker else o.maker, if buy then o.maker else o.taker;
    && tick <= p <= 1.0 - tick
    && shares as real == whole * 1_000_000.0
    && dollars as real == shares as real * p
  }

  // The market orders that are built, and what is signed in them: the amount cut
  // to hundredths, and the other side what it comes to at the price, cut to the
  // tick's own decimals; a buy's shares converge on two decimals more than that.
  lemma {:induction false} MarketSigned(buy: bool, price: real, amt: real, tick: string)
    requires tick in BY_TICK_SIZE
    ensures var (o, p) := (BuildMarketOrder(buy, Some(price), Some(amt), tick), Rounded(price, Decimals(tick), Down));
      && (o.Ok? <==> !buy || p != 0.0)
      && (o.Ok? ==>
            var pays := Rounded(amt, 2, Down);
            && o.value.maker as real == pays * 1_000_000.0
            && o.value.taker as real == (if buy then Converge(Quo(pays, p), Decimals(tick) + 2) else Mul(pays, p)) * 1_000_000.0)
  {
    TickSpelled(tick);
    MarketOrderExact(buy, price, amt, tick);
    var cfg := BY_TICK_SIZE[tick];
    assert cfg in BY_TICK_SIZE.Values;
    if BuildMarketOrder(buy, Some(price), Some(amt), tick).Ok? {
      var raw := Market(buy, amt, price, cfg).value;
      MarketSellExact(amt, price, cfg);
      Millionths(raw.maker);
      Millionths(raw.taker);
    }
  }
}
