// Sizing limit and market orders: internal/amount/amount.go and order.go.

module Orders {
  import opened Wrappers
  import opened Amount

  function Limit(buy: bool, size: real, price: real, cfg: Config): Raw {
    var p := Rounded(price, cfg.price, HalfUp);
    var whole := Rounded(size, cfg.size, Down);
    var derived := Converge(Mul(whole, p), cfg.amount);
    if buy then Raw(derived, whole) else Raw(whole, derived)
  }

  function Market(buy: bool, amt: real, price: real, cfg: Config): Result<Raw> {
    var p := Rounded(price, cfg.price, Down);
    var maker := Rounded(amt, cfg.size, Down);
    if buy then
      if p == 0.0 then Err("market buy at a price that rounds to zero")
      else Ok(Raw(maker, Converge(Quo(maker, p), cfg.amount)))
    else Ok(Raw(maker, Converge(Mul(maker, p), cfg.amount)))
  }

  // The integer the wire carries.
  function Fixed(v: real): int { Trunc(Scaled(v, DECIMALS)) }

  const TICKS: map<string, real> := map[
    "0.1" := 0.1, "0.01" := 0.01, "0.005" := 0.005, "0.0025" := 0.0025, "0.001" := 0.001, "0.0001" := 0.0001
  ]

  predicate PriceAllowed(price: real, tick: real) { tick <= price <= 1.0 - tick }

  // The amounts of a signable order; a field that does not parse is None.
  datatype Amounts = Amounts(maker: int, taker: int)

  function BuildOrder(buy: bool, price: Option<real>, size: Option<real>, tick: string): Result<Amounts> {
    if tick !in BY_TICK_SIZE || tick !in TICKS then Err("unknown tick size")
    else if price.None? || size.None? then Err("invalid decimal")
    else if !PriceAllowed(price.value, TICKS[tick]) then Err("price is outside the tradable range")
    else
      var raw := Limit(buy, size.value, price.value, BY_TICK_SIZE[tick]);
      Ok(Amounts(Fixed(raw.maker), Fixed(raw.taker)))
  }

  function BuildMarketOrder(buy: bool, price: Option<real>, amt: Option<real>, tick: string): Result<Amounts> {
    if tick !in BY_TICK_SIZE then Err("unknown tick size")
    else if price.None? || amt.None? then Err("invalid decimal")
    else
      var raw :- Market(buy, amt.value, price.value, BY_TICK_SIZE[tick]);
      Ok(Amounts(Fixed(raw.maker), Fixed(raw.taker)))
  }

  ghost predicate Row(cfg: Config) { cfg in BY_TICK_SIZE.Values }

  lemma {:induction false} RowShape(cfg: Config)
    requires Row(cfg)
    ensures 1 <= cfg.price <= 4 && cfg.size == 2 && cfg.amount == cfg.price + 2 <= DECIMALS
  {
  }

  // At most six decimals: nothing is lost on the way to the wire.
  lemma {:induction false} FixedExact(v: real, n: nat)
    requires OnGrid(v, n) && n <= DECIMALS
    ensures Fixed(v) as real == Scaled(v, DECIMALS)
  {
    GridCoarser(v, n, DECIMALS);
    TruncWhole(Scaled(v, DECIMALS));
  }

  // A size times a price already has few enough decimals to converge to itself.
  lemma {:induction false} ProductKept(whole: real, p: real, cfg: Config)
    requires Row(cfg) && OnGrid(whole, cfg.size) && OnGrid(p, cfg.price)
    ensures OnGrid(Mul(whole, p), cfg.amount) && Converge(Mul(whole, p), cfg.amount) == Mul(whole, p)
  {
    RowShape(cfg);
    GridProduct(whole, p, cfg.size, cfg.price);
    ConvergeOnGrid(Mul(whole, p), cfg.amount);
  }

  // Rounding half up cannot leave a range whose ends are on the grid.
  lemma {:induction false} HalfUpStays(x: real, n: nat, lo: real, hi: real)
    requires 0.0 <= lo <= x <= hi && OnGrid(lo, n) && OnGrid(hi, n)
    ensures lo <= Rounded(x, n, HalfUp) <= hi
  {
    var sx := Scaled(x, n);
    ScaledOrders(lo, x, n);
    ScaledOrders(x, hi, n);
    var k, m, q := Scaled(lo, n).Floor, Scaled(hi, n).Floor, Resolve(sx, HalfUp);
    assert k <= q <= m;
    ScaledBack(lo, n, k);
    ScaledBack(hi, n, m);
    UnscaledOrders(k, q, n);
    UnscaledOrders(q, m, n);
  }

  lemma {:induction false} ScaledOrders(a: real, b: real, n: nat)
    requires a <= b
    ensures Scaled(a, n) <= Scaled(b, n)
  {
    TimesOrders(a, b, Scale(n));
  }

  lemma {:induction false} UnscaledOrders(a: int, b: int, n: nat)
    requires a <= b
    ensures Unscaled(a, n) <= Unscaled(b, n)
  {
    ScaledBack(0.0, n, a);
    ScaledBack(0.0, n, b);
    if Unscaled(b, n) < Unscaled(a, n) {
      TimesStrict(Unscaled(b, n), Unscaled(a, n), Scale(n));
    }
  }

  lemma {:induction false} TickOnGrid(tick: string)
    requires tick in BY_TICK_SIZE
    ensures tick in TICKS
    ensures 0.0 < TICKS[tick] < 0.5
    ensures OnGrid(TICKS[tick], BY_TICK_SIZE[tick].price) && OnGrid(1.0 - TICKS[tick], BY_TICK_SIZE[tick].price)
  {
    assert Pow10(1) == 10 && Pow10(2) == 100 && Pow10(3) == 1000 && Pow10(4) == 10_000;
    var t, n := TICKS[tick], BY_TICK_SIZE[tick].price;
    assert Scaled(1.0 - t, n) == Scale(n) - Scaled(t, n);
    assert Scaled(t, n) in {1.0, 5.0, 25.0};
  }

  // Before the wire: the derived amount is the product itself, to the last digit.
  lemma {:induction false} LimitExact(buy: bool, price: real, size: real, cfg: Config)
    requires Row(cfg)
    ensures var p, whole := Rounded(price, cfg.price, HalfUp), Rounded(size, cfg.size, Down);
      && Limit(buy, size, price, cfg) == (if buy then Raw(Mul(whole, p), whole) else Raw(whole, Mul(whole, p)))
      && Fixed(whole) as real == Scaled(whole, DECIMALS)
      && Fixed(Mul(whole, p)) as real == Scaled(Mul(whole, p), DECIMALS)
  {
    var p, whole := Rounded(price, cfg.price, HalfUp), Rounded(size, cfg.size, Down);
    RowShape(cfg);
    GridFixed(price, cfg.price, HalfUp);
    GridFixed(size, cfg.size, Down);
    ProductKept(whole, p, cfg);
    FixedExact(whole, cfg.size);
    FixedExact(Mul(whole, p), cfg.amount);
  }

  lemma {:induction false} PriceStays(price: real, tick: string)
    requires tick in BY_TICK_SIZE && tick in TICKS && PriceAllowed(price, TICKS[tick])
    ensures PriceAllowed(Rounded(price, BY_TICK_SIZE[tick].price, HalfUp), TICKS[tick])
  {
    TickOnGrid(tick);
    HalfUpStays(price, BY_TICK_SIZE[tick].price, TICKS[tick], 1.0 - TICKS[tick]);
  }

  lemma {:induction false} OrderBuilt(buy: bool, price: real, size: real, tick: string)
    requires tick in BY_TICK_SIZE && tick in TICKS && PriceAllowed(price, TICKS[tick])
    ensures var raw := Limit(buy, size, price, BY_TICK_SIZE[tick]);
      BuildOrder(buy, Some(price), Some(size), tick) == Ok(Amounts(Fixed(raw.maker), Fixed(raw.taker)))
  {
  }

  // What an order gives and asks stands in exactly the ratio p, and the share
  // count is exactly the rounded size.
  ghost predicate InRatio(o: Amounts, buy: bool, p: real, whole: real) {
    var shares, dollars := if buy then o.taker else o.maker, if buy then o.maker else o.taker;
    dollars as real == Mul(shares as real, p) && shares as real == Scaled(whole, DECIMALS)
  }

  // A limit order is built exactly when its tick is known, its decimals parse
  // and its price is tradable. Its amounts are then exact, and the price they
  // stand for is the rounded one, which is still inside the tradable range.
  lemma {:induction false} OrderExact(buy: bool, price: Option<real>, size: Option<real>, tick: string)
    ensures var o := BuildOrder(buy, price, size, tick);
      && (o.Ok? <==> tick in BY_TICK_SIZE && tick in TICKS && price.Some? && size.Some? && PriceAllowed(price.value, TICKS[tick]))
      && (o.Ok? ==>
            var cfg := BY_TICK_SIZE[tick];
            var p, whole := Rounded(price.value, cfg.price, HalfUp), Rounded(size.value, cfg.size, Down);
            PriceAllowed(p, TICKS[tick]) && InRatio(o.value, buy, p, whole))
  {
    if BuildOrder(buy, price, size, tick).Ok? {
      OrderInRatio(buy, price.value, size.value, tick);
    }
  }

  lemma {:induction false} OrderInRatio(buy: bool, price: real, size: real, tick: string)
    requires tick in BY_TICK_SIZE && tick in TICKS && PriceAllowed(price, TICKS[tick])
    ensures var cfg := BY_TICK_SIZE[tick];
      var p, whole := Rounded(price, cfg.price, HalfUp), Rounded(size, cfg.size, Down);
      var o := BuildOrder(buy, Some(price), Some(size), tick);
      && PriceAllowed(p, TICKS[tick])
      && o.Ok? && InRatio(o.value, buy, p, whole)
  {
    var cfg := BY_TICK_SIZE[tick];
    assert cfg in BY_TICK_SIZE.Values;
    var p, whole := Rounded(price, cfg.price, HalfUp), Rounded(size, cfg.size, Down);
    PriceStays(price, tick);
    OrderBuilt(buy, price, size, tick);
    LimitExact(buy, price, size, cfg);
    Commuted(whole, p, DECIMALS);
  }

  lemma {:induction false} Commuted(w: real, p: real, n: nat)
    ensures Scaled(Mul(w, p), n) == Mul(Scaled(w, n), p)
  {
    var s := Scale(n);
    assert (w * p) * s == (w * s) * p;
  }

  lemma {:induction false} FractionTimes(x: real, m: int, b: real, k: int)
    requires b == k as real
    ensures Mul(x - m as real, b) == Mul(x, b) - (m * k) as real
  {
    assert (m * k) as real == m as real * b;
  }

  lemma {:induction false} FarFromOne(f: real, b: real)
    requires 1.0 <= b <= 10_000.0 && Mul(f, b) <= b - 1.0
    ensures f <= 0.9999
  {
    if f > 0.9999 {
      TimesStrict(0.9999, f, b);
    }
  }

  lemma {:induction false} TimesStrict(a: real, b: real, p: real)
    requires a < b && p > 0.0
    ensures Mul(a, p) < Mul(b, p)
  {
  }

  // A fraction over at most ten thousand is never within a ten-thousandth of
  // the next whole number.
  lemma {:induction false} SmallDenominator(x: real, b: real)
    requires IsWhole(b) && 1.0 <= b <= 10_000.0 && IsWhole(Mul(x, b))
    ensures x - x.Floor as real <= 0.9999
  {
    var m, k, n := x.Floor, b.Floor, Mul(x, b).Floor;
    var f, j := x - m as real, n - m * k;
    FractionTimes(x, m, b, k);
    TimesStrict(f, 1.0, b);
    assert Mul(f, b) == j as real && Mul(1.0, b) == k as real;
    assert j < k;
    FarFromOne(f, b);
  }

  // A market buy's share count, over the denominator of its price.
  lemma {:induction false} SharesOverPrice(maker: real, p: real, cfg: Config)
    requires Row(cfg) && OnGrid(maker, cfg.size) && p != 0.0
    ensures IsWhole(Mul(Scaled(Quo(maker, p), cfg.amount), Scaled(p, cfg.price)))
  {
    RowShape(cfg);
    ScaledProduct(Quo(maker, p), p, cfg.amount, cfg.price);
    assert Mul(Quo(maker, p), p) == maker;
    GridCoarser(maker, cfg.size, cfg.amount + cfg.price);
  }

  lemma {:induction false} PriceNumerator(price: real, cfg: Config)
    requires Row(cfg) && 0.0 <= price <= 1.0 && Rounded(price, cfg.price, Down) != 0.0
    ensures var p := Rounded(price, cfg.price, Down);
      && OnGrid(p, cfg.price) && 1.0 <= Scaled(p, cfg.price) <= 10_000.0 && 0.0 < p <= price
  {
    var n := cfg.price;
    var sx := Scaled(price, n);
    var k := Resolve(sx, Down);
    RowShape(cfg);
    GridFixed(price, n, Down);
    ScaledBack(price, n, k);
    assert Pow10(1) == 10 && Pow10(2) == 100 && Pow10(3) == 1000 && Pow10(4) == 10_000;
    assert 0.0 <= sx <= Scale(n) <= 10_000.0;
    assert 0 <= k && k as real <= sx;
    DownNoMore(price, n);
  }

  lemma {:induction false} DownNoMore(x: real, n: nat)
    requires x >= 0.0
    ensures 0.0 <= Rounded(x, n, Down) <= x
  {
    var r, k := Rounded(x, n, Down), Resolve(Scaled(x, n), Down);
    ScaledOrders(0.0, x, n);
    UnscaledOrders(0, k, n);
    RoundsTo(x, n);
    assert LandsBy(Down, Scaled(x, n), Scaled(r, n));
    if r > x {
      TimesStrict(x, r, Scale(n));
    }
  }

  // On every row and at every price up to one, the nudge does nothing: a market
  // buy asks for the truncated quotient, and never for more than it pays for.
  lemma {:induction false} MarketBuyTruncates(amt: real, price: real, cfg: Config)
    requires Row(cfg) && amt >= 0.0 && 0.0 <= price <= 1.0
    requires Rounded(price, cfg.price, Down) != 0.0
    ensures var p, maker := Rounded(price, cfg.price, Down), Rounded(amt, cfg.size, Down);
      var taker := Rounded(Quo(maker, p), cfg.amount, Down);
      && Market(true, amt, price, cfg) == Ok(Raw(maker, taker))
      && 0.0 <= maker <= amt && Mul(taker, p) <= maker
  {
    var p, maker := Rounded(price, cfg.price, Down), Rounded(amt, cfg.size, Down);
    PriceNumerator(price, cfg);
    DownNoMore(amt, cfg.size);
    GridFixed(amt, cfg.size, Down);
    SharesOverPrice(maker, p, cfg);
    QuotientTruncates(maker, p, cfg);
  }

  lemma {:induction false} QuotientTruncates(maker: real, p: real, cfg: Config)
    requires maker >= 0.0 && p > 0.0 && OnGrid(p, cfg.price) && 1.0 <= Scaled(p, cfg.price) <= 10_000.0
    requires IsWhole(Mul(Scaled(Quo(maker, p), cfg.amount), Scaled(p, cfg.price)))
    ensures Converge(Quo(maker, p), cfg.amount) == Rounded(Quo(maker, p), cfg.amount, Down)
    ensures Mul(Rounded(Quo(maker, p), cfg.amount, Down), p) <= maker
  {
    var v := Quo(maker, p);
    Quotient(maker, p);
    SmallDenominator(Scaled(v, cfg.amount), Scaled(p, cfg.price));
    NudgeMatters(v, cfg.amount);
    DownNoMore(v, cfg.amount);
    TimesOrders(Rounded(v, cfg.amount, Down), v, p);
  }

  lemma {:induction false} Quotient(a: real, p: real)
    requires a >= 0.0 && p > 0.0
    ensures Quo(a, p) >= 0.0 && Mul(Quo(a, p), p) == a
  {
  }

  lemma {:induction false} TimesOrders(a: real, b: real, p: real)
    requires a <= b && p >= 0.0
    ensures Mul(a, p) <= Mul(b, p)
  {
  }

  lemma {:induction false} NudgedPast(v: real, limit: nat)
    requires v >= 0.0 && Scaled(v, limit) - Scaled(v, limit).Floor as real > 0.9999
    ensures Converge(v, limit) > v
  {
    var up := Scaled(v, limit).Floor + 1;
    ConvergeClosed(v, limit);
    ScaledShift(v, limit);
    NudgedFloor(Scaled(v, limit));
    ScaledBack(v, limit, up);
    if Unscaled(up, limit) <= v {
      ScaledOrders(Unscaled(up, limit), v, limit);
    }
  }

  lemma {:induction false} UnscaledAtLeast(k: int, x: real, n: nat)
    requires Scaled(x, n) <= k as real
    ensures x <= Unscaled(k, n)
  {
    ScaledBack(x, n, k);
    if Unscaled(k, n) < x {
      TimesStrict(Unscaled(k, n), x, Scale(n));
    }
  }

  // Below zero, truncation and rounding up both go up.
  lemma {:induction false} NoLessBelowZero(x: real, n: nat, m: Mode)
    requires x < 0.0 && m != HalfUp
    ensures Rounded(x, n, m) >= x
  {
    TimesStrict(x, 0.0, Scale(n));
    assert Scaled(x, n) <= Resolve(Scaled(x, n), m) as real;
    UnscaledAtLeast(Resolve(Scaled(x, n), m), x, n);
  }

  lemma {:induction false} ConvergeNoLess(v: real, limit: nat)
    requires v < 0.0
    ensures Converge(v, limit) >= v
  {
    var up := Rounded(v, limit + 4, Up);
    NoLessBelowZero(v, limit + 4, Up);
    if up < 0.0 {
      NoLessBelowZero(up, limit, Down);
    } else {
      DownNoMore(up, limit);
    }
  }

  // Whether a derived amount comes out above what was derived.
  predicate ComesOutAbove(v: real, limit: nat) {
    var x := Scaled(v, limit);
    if v >= 0.0 then x - x.Floor as real > 0.9999 else !IsWhole(x)
  }

  lemma {:induction false} ConvergeSide(v: real, limit: nat)
    ensures Converge(v, limit) > v <==> ComesOutAbove(v, limit)
    ensures Converge(v, limit) == v <==> OnGrid(v, limit)
  {
    ConvergeLands(v, limit);
    if OnGrid(v, limit) {
      ConvergeOnGrid(v, limit);
    } else if v < 0.0 {
      ConvergeNoLess(v, limit);
    } else if ComesOutAbove(v, limit) {
      NudgedPast(v, limit);
    } else {
      NudgeMatters(v, limit);
      DownNoMore(v, limit);
    }
  }

  lemma {:induction false} QuotientBack(a: real, p: real)
    requires p != 0.0
    ensures Mul(Quo(a, p), p) == a
  {
  }

  lemma {:induction false} TimesSigned(a: real, b: real, p: real)
    requires p != 0.0
    ensures Mul(a, p) <= Mul(b, p) <==> if p > 0.0 then a <= b else b <= a
  {
    if p > 0.0 {
      if a <= b {
        TimesOrders(a, b, p);
      } else {
        TimesStrict(b, a, p);
      }
    } else if b <= a {
      TimesOrders(b, a, -p);
      assert Mul(a, -p) == -Mul(a, p) && Mul(b, -p) == -Mul(b, p);
    } else {
      TimesStrict(a, b, -p);
      assert Mul(a, -p) == -Mul(a, p) && Mul(b, -p) == -Mul(b, p);
    }
  }

  // For every amount and price, of either sign, and any row of decimals: a
  // market buy's shares cost no more than it pays exactly when its quotient does
  // not come out above itself (or, at a price below zero, does not come out
  // below). Nothing else is refused but a price that truncates to zero.
  lemma {:induction false} PaysForItsShares(amt: real, price: real, cfg: Config)
    requires Rounded(price, cfg.price, Down) != 0.0
    ensures var p, maker := Rounded(price, cfg.price, Down), Rounded(amt, cfg.size, Down);
      var raw, v := Market(true, amt, price, cfg), Quo(maker, p);
      && raw.Ok? && raw.value.maker == maker
      && (Mul(raw.value.taker, p) <= maker <==>
            if p > 0.0 then !ComesOutAbove(v, cfg.amount) else ComesOutAbove(v, cfg.amount) || OnGrid(v, cfg.amount))
  {
    var p, maker := Rounded(price, cfg.price, Down), Rounded(amt, cfg.size, Down);
    var v := Quo(maker, p);
    QuotientBack(maker, p);
    ConvergeSide(v, cfg.amount);
    TimesSigned(Converge(v, cfg.amount), v, p);
  }

  lemma {:induction false} MinusACent(v: real, limit: nat)
    requires v * 1.0001 == -0.01 && Scale(limit) == 1_000_000.0
    ensures Rounded(v, limit + 4, Up) > AwayFromZero(v, limit + 4, Up)
    ensures Converge(v, limit) == Unscaled(-9_998, limit)
  {
    var x, up := Scaled(v, limit + 4), Rounded(v, limit + 4, Up);
    assert Scaled(v, limit) == v * 1_000_000.0;
    ScaledShift(v, limit);
    assert -99_990_001.0 < x < -99_990_000.0;
    assert Trunc(x) == -99_990_000;
    Mirrored(v, limit + 4);
    assert Trunc(-x) == 99_990_000;
    ScaledBack(v, limit + 4, -99_989_999);
    UnscaledOrders(-99_990_001, -99_989_999, limit + 4);
    UnscaledInjective(-99_990_001, -99_989_999, limit + 4);
    ScaledShift(up, limit);
    assert Scaled(up, limit) == -9_998.9999;
    assert -10_000.0 < Scaled(v, limit) < -9_999.0;
    PlacesLeast(v, 0, limit);
    PlacesLeast(up, 0, limit);
  }

  // A market order does not refuse a negative amount, and there the adjustment
  // shows: buying minus a cent's worth at 1.0001 is not the mirror image of
  // buying a cent's worth, because `Up` went the wrong way on the way.
  lemma {:induction false} NegativeBuyUnmirrored()
    ensures Market(true, 0.01, 1.0001, Config(4, 2, 6)) == Ok(Raw(0.01, 0.009999))
    ensures Market(true, -0.01, 1.0001, Config(4, 2, 6)) == Ok(Raw(-0.01, -0.009998))
    ensures var v := Quo(-0.01, 1.0001); Rounded(v, 10, Up) > AwayFromZero(v, 10, Up)
  {
    AtTheTick(0.01);
    AtTheTick(-0.01);
    ACent(Quo(0.01, 1.0001), 6);
    MinusACent(Quo(-0.01, 1.0001), 6);
  }

  // Amounts and price already on their grids.
  lemma {:induction false} AtTheTick(amt: real)
    requires amt == 0.01 || amt == -0.01
    ensures Rounded(amt, 2, Down) == amt && Rounded(1.0001, 4, Down) == 1.0001
    ensures Scale(6) == 1_000_000.0
  {
    assert Pow10(2) == 100 && Pow10(4) == 10_000;
    assert Scaled(1.0001, 4) == 10_001.0;
    assert Scaled(amt, 2) == if amt > 0.0 then 1.0 else -1.0;
    GridFixed(1.0001, 4, Down);
    GridFixed(amt, 2, Down);
  }

  lemma {:induction false} ACent(v: real, limit: nat)
    requires v * 1.0001 == 0.01 && Scale(limit) == 1_000_000.0
    ensures Converge(v, limit) == Unscaled(9_999, limit)
  {
    assert Scaled(v, limit) == v * 1_000_000.0;
    ScaledShift(v, limit);
    CeilCent(Scaled(v, limit + 4));
    ConvergeClosed(v, limit);
  }

  lemma {:induction false} CeilCent(x: real)
    requires x * 1.0001 == 100_000_000.0
    ensures Ceil(x) == 99_990_001
  {
    assert 99_990_000.0 < x <= 99_990_001.0;
  }

  // A market sell asks exactly what its shares are worth at the truncated price.
  lemma {:induction false} MarketSellExact(amt: real, price: real, cfg: Config)
    requires Row(cfg)
    ensures var p, maker := Rounded(price, cfg.price, Down), Rounded(amt, cfg.size, Down);
      Market(false, amt, price, cfg) == Ok(Raw(maker, Mul(maker, p)))
  {
    GridFixed(price, cfg.price, Down);
    GridFixed(amt, cfg.size, Down);
    ProductKept(Rounded(amt, cfg.size, Down), Rounded(price, cfg.price, Down), cfg);
  }

  lemma {:induction false} ConvergeLands(v: real, limit: nat)
    ensures OnGrid(Converge(v, limit), limit)
  {
    var up := Rounded(v, limit + 4, Up);
    PlacesLeast(v, 0, limit);
    PlacesLeast(up, 0, limit);
    GridFixed(up, limit, Down);
  }

  // When a market order is built, and that the wire loses none of its amounts.
  lemma {:induction false} MarketOrderExact(buy: bool, price: real, amt: real, tick: string)
    requires tick in BY_TICK_SIZE
    ensures var cfg := BY_TICK_SIZE[tick];
      var o, raw := BuildMarketOrder(buy, Some(price), Some(amt), tick), Market(buy, amt, price, cfg);
      && (o.Ok? <==> !buy || Rounded(price, cfg.price, Down) != 0.0)
      && (o.Ok? ==> raw.Ok? && o.value.maker as real == Scaled(raw.value.maker, DECIMALS)
                    && o.value.taker as real == Scaled(raw.value.taker, DECIMALS))
  {
    var cfg := BY_TICK_SIZE[tick];
    assert cfg in BY_TICK_SIZE.Values;
    RowShape(cfg);
    var p, maker := Rounded(price, cfg.price, Down), Rounded(amt, cfg.size, Down);
    GridFixed(amt, cfg.size, Down);
    FixedExact(maker, cfg.size);
    if !buy || p != 0.0 {
      var v := if buy then Quo(maker, p) else Mul(maker, p);
      ConvergeLands(v, cfg.amount);
      FixedExact(Converge(v, cfg.amount), cfg.amount);
    }
  }

  // Past a price of one the nudge can ask for more than is paid: one hundred
  // dollars at 1.0001 asks for 99.990001 shares, worth a little over a hundred.
  lemma {:induction false} BeyondOneOverspends()
    ensures var raw := Market(true, 100.0, 1.0001, Config(4, 2, 6));
      && raw == Ok(Raw(100.0, 99.990001))
      && raw.value.taker * 1.0001 > raw.value.maker
  {
    assert Pow10(2) == 100 && Pow10(4) == 10_000;
    assert Scaled(1.0001, 4) == 10_001.0 && Scaled(100.0, 2) == 10_000.0;
    GridFixed(1.0001, 4, Down);
    GridFixed(100.0, 2, Down);
    assert Scale(6) == 1_000_000.0;
    HundredOver(Quo(100.0, 1.0001), 6);
  }

  lemma {:induction false} CeilHundred(x: real)
    requires x * 1.0001 == 1_000_000_000_000.0
    ensures Ceil(x) == 999_900_010_000
  {
    assert 999_900_009_999.0 < x <= 999_900_010_000.0;
  }

  lemma {:induction false} HundredOver(v: real, limit: nat)
    requires v * 1.0001 == 100.0 && Scale(limit) == 1_000_000.0
    ensures Converge(v, limit) == Unscaled(99_990_001, limit)
  {
    assert Scaled(v, limit) == v * 1_000_000.0;
    ScaledShift(v, limit);
    CeilHundred(Scaled(v, limit + 4));
    ConvergeClosed(v, limit);
  }
}
