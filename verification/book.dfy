// Pricing a market order by walking the book: clob/market.go.

module Book {
  import opened Wrappers
  import opened Amount
  import opened Orders

  // A level as parsed; a field that is not a decimal is None.
  datatype Level = Level(price: Option<real>, size: Option<real>)

  // What a level adds to the walk: dollars for a buy, shares for a sell.
  function Worth(l: Level, buy: bool): Option<real> {
    if l.size.None? then None
    else if !buy then l.size
    else if l.price.None? then None
    else Some(Mul(l.size.value, l.price.value))
  }

  ghost predicate Readable(levels: seq<Level>, buy: bool, from: int) {
    forall k :: 0 <= from <= k < |levels| ==> Worth(levels[k], buy).Some?
  }

  // Everything from the best level, at the end, down to level i.
  ghost function Depth(levels: seq<Level>, buy: bool, i: nat): real
    requires i <= |levels| && Readable(levels, buy, i)
    decreases |levels| - i
  {
    if i == |levels| then 0.0 else Worth(levels[i], buy).value + Depth(levels, buy, i + 1)
  }

  // Level i is the first, from the best, whose depth covers the amount.
  ghost predicate Fills(levels: seq<Level>, buy: bool, amt: real, i: int) {
    && 0 <= i < |levels| && Readable(levels, buy, i)
    && Depth(levels, buy, i) >= amt
    && forall j :: i < j < |levels| ==> Readable(levels, buy, j) && Depth(levels, buy, j) < amt
  }

  lemma {:induction false} FillsUnique(levels: seq<Level>, buy: bool, amt: real, i: int, j: int)
    requires Fills(levels, buy, amt, i) && Fills(levels, buy, amt, j)
    ensures i == j
  {
  }

  // Nothing from level i on fills, and nothing below can be read past a level
  // that does not parse.
  ghost predicate Short(levels: seq<Level>, buy: bool, amt: real, i: int) {
    forall j :: 0 <= i <= j < |levels| ==> Readable(levels, buy, j) && Depth(levels, buy, j) < amt
  }

  lemma {:induction false} NoneFills(levels: seq<Level>, buy: bool, amt: real, i: nat)
    requires i <= |levels| && Short(levels, buy, amt, i)
    requires i > 0 ==> Worth(levels[i - 1], buy).None?
    ensures !exists j :: Fills(levels, buy, amt, j)
    ensures i > 0 ==> !Readable(levels, buy, 0)
  {
    if j :| Fills(levels, buy, amt, j) {
      assert j < i ==> Worth(levels[i - 1], buy).Some?;
    }
  }

  // The walk from the best level down: the level that fills, or none.
  method Walk(levels: seq<Level>, buy: bool, amt: real) returns (r: Result<Option<nat>>)
    ensures r.Ok? && r.value.Some? ==> Fills(levels, buy, amt, r.value.value)
    ensures r == Ok(None) ==> Readable(levels, buy, 0) && !exists i :: Fills(levels, buy, amt, i)
    ensures r.Err? ==> !Readable(levels, buy, 0) && !exists i :: Fills(levels, buy, amt, i)
  {
    var sum := 0.0;
    var i := |levels|;
    while i > 0
      invariant 0 <= i <= |levels| && Readable(levels, buy, i) && Short(levels, buy, amt, i)
      invariant sum == Depth(levels, buy, i)
    {
      var worth := Worth(levels[i - 1], buy);
      if worth.None? {
        NoneFills(levels, buy, amt, i);
        return Err("invalid decimal");
      }
      i := i - 1;
      sum := sum + worth.value;
      if sum >= amt {
        return Ok(Some(i));
      }
    }
    NoneFills(levels, buy, amt, 0);
    r := Ok(None);
  }

  // The index of the level whose price is returned: selling, the best bid with
  // enough shares wanted there and above; buying, the best ask with enough on
  // offer there and below, in dollars. Short of one, and of a level that cannot
  // be read, the worst level's, unless the order is to be filled or killed.
  method MarketPrice(asks: seq<Level>, bids: seq<Level>, buy: bool, amt: Option<real>, fok: bool) returns (r: Result<nat>)
    ensures amt.None? || (if buy then asks else bids) == [] ==> r.Err?
    ensures amt.Some? && buy && asks != [] ==>
      if exists i :: FillsPurchase(asks, amt.value, i) then r.Ok? && FillsPurchase(asks, amt.value, r.value)
      else if fok || exists k :: 0 <= k < |asks| && (asks[k].size.None? || asks[k].price.None?) then r.Err?
      else r == Ok(0)
    ensures amt.Some? && !buy && bids != [] ==>
      if exists i :: FillsSale(bids, amt.value, i) then r.Ok? && FillsSale(bids, amt.value, r.value)
      else if fok || exists k :: 0 <= k < |bids| && bids[k].size.None? then r.Err?
      else r == Ok(0)
  {
    if amt.Some? {
      forall i ensures Fills(asks, true, amt.value, i) <==> FillsPurchase(asks, amt.value, i) {
        FillsInDollars(asks, amt.value, i);
      }
      forall i ensures Fills(bids, false, amt.value, i) <==> FillsSale(bids, amt.value, i) {
        FillsInShares(bids, amt.value, i);
      }
    }
    BuyDepth(asks, 0);
    SellDepth(bids, 0);
    if amt.None? {
      return Err("invalid decimal");
    }
    var levels := if buy then asks else bids;
    if levels == [] {
      return Err("the book has no levels");
    }
    var walked := Walk(levels, buy, amt.value);
    if walked.Err? {
      return Err(walked.error);
    }
    if walked.value.Some? {
      return Ok(walked.value.value);
    }
    if fok {
      return Err("the book cannot fill the order");
    }
    r := Ok(0);
  }

  // Asks come worst price first, with real prices and sizes.
  ghost predicate WorstFirst(asks: seq<Level>) {
    && (forall k :: 0 <= k < |asks| ==> asks[k].price.Some? && asks[k].size.Some? && asks[k].size.value >= 0.0)
    && (forall j, k :: 0 <= j < k < |asks| ==> asks[j].price.value >= asks[k].price.value)
  }

  // Shares on offer at a price or better.
  ghost function SharesAt(asks: seq<Level>, price: real): (s: real)
    requires WorstFirst(asks)
    ensures s >= 0.0
  {
    if asks == [] then 0.0
    else
      (if asks[0].price.value <= price then asks[0].size.value else 0.0) + SharesAt(asks[1..], price)
  }

  // The walk's dollars buy at most the shares it passed, at the worst price.
  lemma {:induction false} DepthBuys(asks: seq<Level>, i: nat, price: real)
    requires WorstFirst(asks) && i <= |asks| && forall k :: i <= k < |asks| ==> asks[k].price.value <= price
    ensures Readable(asks, true, i)
    ensures Depth(asks, true, i) <= Mul(SharesAt(asks[i..], price), price)
    decreases |asks| - i
  {
    if i < |asks| {
      DepthBuys(asks, i + 1, price);
      assert asks[i..][1..] == asks[i + 1..];
      var l := asks[i];
      PriceCovers(l.size.value, l.price.value, price, SharesAt(asks[i + 1..], price));
    }
  }

  lemma {:induction false} PriceCovers(size: real, level: real, price: real, others: real)
    requires size >= 0.0 && level <= price
    ensures Mul(size, level) + Mul(others, price) <= Mul(size + others, price)
  {
    TimesOrders(level, price, size);
    assert Mul(size, level) == Mul(level, size) && Mul(size, price) == Mul(price, size);
  }

  lemma {:induction false} MoreLevels(asks: seq<Level>, i: nat, price: real)
    requires WorstFirst(asks) && i <= |asks|
    ensures SharesAt(asks[i..], price) <= SharesAt(asks, price)
    decreases i
  {
    if i > 0 {
      MoreLevels(asks[1..], i - 1, price);
      assert asks[1..][i - 1..] == asks[i..];
    } else {
      assert asks[0..] == asks;
    }
  }

  lemma {:induction false} CancelPrice(a: real, b: real, p: real)
    requires p > 0.0 && Mul(a, p) <= Mul(b, p)
    ensures a <= b
  {
    if a > b {
      TimesStrict(b, a, p);
    }
  }

  // A market buy priced by the walk never asks for more shares than the book
  // shows at that price or better.
  lemma {:induction false} NeverMoreThanTheBook(asks: seq<Level>, amt: real, i: nat, cfg: Config)
    requires WorstFirst(asks) && Row(cfg) && amt >= 0.0 && FillsPurchase(asks, amt, i)
    requires 0.0 < asks[i].price.value <= 1.0 && OnGrid(asks[i].price.value, cfg.price)
    ensures var price := asks[i].price.value;
      var raw := Market(true, amt, price, cfg);
      raw.Ok? && raw.value.taker <= SharesAt(asks, price)
  {
    var price := asks[i].price.value;
    FillsInDollars(asks, amt, i);
    GridFixed(price, cfg.price, Down);
    MarketBuyTruncates(amt, price, cfg);
    DepthBuys(asks, i, price);
    MoreLevels(asks, i, price);
    var taker := Market(true, amt, price, cfg).value.taker;
    TimesOrders(SharesAt(asks[i..], price), SharesAt(asks, price), price);
    CancelPrice(taker, SharesAt(asks, price), price);
  }

  // A fill-or-kill order is priced exactly when the readable book can fill it.
  lemma {:induction false} FillsExactly(levels: seq<Level>, buy: bool, amt: real, i: nat)
    requires i < |levels| && Readable(levels, buy, 0)
    requires forall k :: 0 <= k < |levels| ==> Worth(levels[k], buy).value >= 0.0
    ensures Depth(levels, buy, i) >= amt <==> exists j :: i <= j && Fills(levels, buy, amt, j)
    decreases |levels| - i
  {
    if i + 1 < |levels| {
      FillsExactly(levels, buy, amt, i + 1);
      if j :| i + 1 <= j && Fills(levels, buy, amt, j) {
        DepthGrows(levels, buy, i, j);
      } else if Depth(levels, buy, i) >= amt {
        NoneBelow(levels, buy, amt, i + 1);
        assert Fills(levels, buy, amt, i);
      }
    } else if Depth(levels, buy, i) >= amt {
      assert Fills(levels, buy, amt, i);
    }
  }

  lemma {:induction false} DepthGrows(levels: seq<Level>, buy: bool, i: nat, j: nat)
    requires i <= j <= |levels| && Readable(levels, buy, i)
    requires forall k :: 0 <= i <= k < |levels| ==> Worth(levels[k], buy).value >= 0.0
    ensures Depth(levels, buy, i) >= Depth(levels, buy, j)
    decreases j - i
  {
    if i < j {
      DepthGrows(levels, buy, i + 1, j);
    }
  }

  lemma {:induction false} NoneBelow(levels: seq<Level>, buy: bool, amt: real, i: nat)
    requires i < |levels| && Readable(levels, buy, 0) && Depth(levels, buy, i) < amt
    requires forall k :: 0 <= k < |levels| ==> Worth(levels[k], buy).value >= 0.0
    ensures forall j :: i <= j < |levels| ==> Depth(levels, buy, j) < amt
  {
    forall j | i <= j < |levels| ensures Depth(levels, buy, j) < amt {
      DepthGrows(levels, buy, i, j);
    }
  }

  // Numbers added up.
  ghost function Total(xs: seq<real>): real {
    if xs == [] then 0.0 else xs[0] + Total(xs[1..])
  }

  // The sizes of these levels, and the dollars they come to, whatever the walk
  // makes of them.
  ghost function SizesOf(levels: seq<Level>): (xs: seq<real>)
    requires forall k :: 0 <= k < |levels| ==> levels[k].size.Some?
    ensures |xs| == |levels| && forall k :: 0 <= k < |levels| ==> xs[k] == levels[k].size.value
  {
    seq(|levels|, k requires 0 <= k < |levels| => levels[k].size.value)
  }

  ghost function DollarsOf(levels: seq<Level>): (xs: seq<real>)
    requires forall k :: 0 <= k < |levels| ==> levels[k].size.Some? && levels[k].price.Some?
    ensures |xs| == |levels| && forall k :: 0 <= k < |levels| ==> xs[k] == Mul(levels[k].size.value, levels[k].price.value)
  {
    seq(|levels|, k requires 0 <= k < |levels| => Mul(levels[k].size.value, levels[k].price.value))
  }

  // Selling, a level can be read when its size can, its price or no price; and
  // the depth from a level on is the shares there and at every better level.
  lemma {:induction false} SellDepth(levels: seq<Level>, i: nat)
    requires i <= |levels|
    ensures Readable(levels, false, i) <==> forall k :: i <= k < |levels| ==> levels[k].size.Some?
    ensures Readable(levels, false, i) ==> Depth(levels, false, i) == Total(SizesOf(levels[i..]))
    decreases |levels| - i
  {
    if i < |levels| {
      SellDepth(levels, i + 1);
      if Readable(levels, false, i) {
        assert SizesOf(levels[i..])[1..] == SizesOf(levels[i + 1..]);
      }
    }
  }

  // Buying, its price as well; and the depth is what they cost.
  lemma {:induction false} BuyDepth(levels: seq<Level>, i: nat)
    requires i <= |levels|
    ensures Readable(levels, true, i) <==> forall k :: i <= k < |levels| ==> levels[k].size.Some? && levels[k].price.Some?
    ensures Readable(levels, true, i) ==> Depth(levels, true, i) == Total(DollarsOf(levels[i..]))
    decreases |levels| - i
  {
    if i < |levels| {
      BuyDepth(levels, i + 1);
      if Readable(levels, true, i) {
        assert levels[i..][1..] == levels[i + 1..];
        assert DollarsOf(levels[i..])[1..] == DollarsOf(levels[i + 1..]);
      }
    }
  }

  // Level i fills a sale: its bid and the better ones are for at least the
  // amount, and no fewer bids are.
  ghost predicate FillsSale(bids: seq<Level>, amt: real, i: int) {
    && 0 <= i < |bids|
    && (forall k :: i <= k < |bids| ==> bids[k].size.Some?)
    && Total(SizesOf(bids[i..])) >= amt
    && forall j :: i < j < |bids| ==> Total(SizesOf(bids[j..])) < amt
  }

  ghost predicate FillsPurchase(asks: seq<Level>, amt: real, i: int) {
    && 0 <= i < |asks|
    && (forall k :: i <= k < |asks| ==> asks[k].size.Some? && asks[k].price.Some?)
    && Total(DollarsOf(asks[i..])) >= amt
    && forall j :: i < j < |asks| ==> Total(DollarsOf(asks[j..])) < amt
  }

  lemma {:induction false} FillsInShares(bids: seq<Level>, amt: real, i: int)
    ensures Fills(bids, false, amt, i) <==> FillsSale(bids, amt, i)
  {
    if 0 <= i < |bids| {
      SellDepth(bids, i);
      forall j | i < j < |bids|
        ensures Readable(bids, false, i) ==> Readable(bids, false, j) && Depth(bids, false, j) == Total(SizesOf(bids[j..]))
      {
        SellDepth(bids, j);
      }
    }
  }

  lemma {:induction false} FillsInDollars(asks: seq<Level>, amt: real, i: int)
    ensures Fills(asks, true, amt, i) <==> FillsPurchase(asks, amt, i)
  {
    if 0 <= i < |asks| {
      BuyDepth(asks, i);
      forall j | i < j < |asks|
        ensures Readable(asks, true, i) ==> Readable(asks, true, j) && Depth(asks, true, j) == Total(DollarsOf(asks[j..]))
      {
        BuyDepth(asks, j);
      }
    }
  }

  // No bid is for less than nothing, and they come worst price first.
  ghost predicate BidsWorstFirst(bids: seq<Level>) {
    && (forall k :: 0 <= k < |bids| ==> bids[k].price.Some? && bids[k].size.Some? && bids[k].size.value >= 0.0)
    && (forall j, k :: 0 <= j < k < |bids| ==> bids[j].price.value <= bids[k].price.value)
  }

  // Bids for shares at a price or better.
  ghost function WantedAt(bids: seq<Level>, price: real): real
    requires BidsWorstFirst(bids)
  {
    if bids == [] then 0.0
    else (if bids[0].price.value >= price then bids[0].size.value else 0.0) + WantedAt(bids[1..], price)
  }

  lemma {:induction false} WantedAll(bids: seq<Level>, price: real)
    requires BidsWorstFirst(bids) && forall k :: 0 <= k < |bids| ==> bids[k].price.value >= price
    ensures WantedAt(bids, price) == Total(SizesOf(bids))
  {
    if bids != [] {
      WantedAll(bids[1..], price);
      assert SizesOf(bids)[1..] == SizesOf(bids[1..]);
    }
  }

  lemma {:induction false} WantedFrom(bids: seq<Level>, i: nat, price: real)
    requires BidsWorstFirst(bids) && i <= |bids|
    ensures WantedAt(bids[i..], price) <= WantedAt(bids, price)
    ensures (forall k :: 0 <= k < i ==> bids[k].price.value < price) ==> WantedAt(bids[i..], price) == WantedAt(bids, price)
    decreases i
  {
    if i > 0 {
      WantedFrom(bids[1..], i - 1, price);
      assert bids[1..][i - 1..] == bids[i..];
    } else {
      assert bids[0..] == bids;
    }
  }

  // A sale priced by the walk finds bids for all of its shares at that price or
  // better, and none of the strictly better prices would do.
  lemma {:induction false} BestPriceThatFills(bids: seq<Level>, amt: real, i: nat, better: real)
    requires BidsWorstFirst(bids) && FillsSale(bids, amt, i) && better > bids[i].price.value && amt > 0.0
    ensures WantedAt(bids, bids[i].price.value) >= amt > WantedAt(bids, better)
  {
    WantedAll(bids[i..], bids[i].price.value);
    WantedFrom(bids, i, bids[i].price.value);
    var j := FirstAtLeast(bids, i, better);
    WantedFrom(bids, j, better);
    WantedAll(bids[j..], better);
    if j == |bids| {
      assert SizesOf(bids[j..]) == [];
    }
  }

  // Where, past i, the bids reach a price.
  lemma {:induction false} FirstAtLeast(bids: seq<Level>, i: nat, price: real) returns (j: nat)
    requires BidsWorstFirst(bids) && i < |bids| && bids[i].price.value < price
    ensures i < j <= |bids|
    ensures (forall k :: 0 <= k < j ==> bids[k].price.value < price) && (forall k :: j <= k < |bids| ==> bids[k].price.value >= price)
  {
    j := i + 1;
    while j < |bids| && bids[j].price.value < price
      invariant i < j <= |bids| && bids[j - 1].price.value < price
    {
      j := j + 1;
    }
  }
}
