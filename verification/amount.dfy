// Order amounts as exact rationals: internal/amount/amount.go. Every rational is
// a real here, and the arithmetic is exact, as it is in the source.

module Amount {
  datatype Config = Config(price: nat, size: nat, amount: nat)

  const BY_TICK_SIZE: map<string, Config> := map[
    "0.1" := Config(1, 2, 3),
    "0.01" := Config(2, 2, 4),
    "0.005" := Config(3, 2, 5),
    "0.0025" := Config(4, 2, 6),
    "0.001" := Config(3, 2, 5),
    "0.0001" := Config(4, 2, 6)
  ]

  const DECIMALS: nat := 6

  datatype Mode = HalfUp | Down | Up

  datatype Raw = Raw(maker: real, taker: real)

  function Pow10(n: nat): (p: nat)
    ensures p > 0
  {
    if n == 0 then 1 else Pow10(n - 1) * 10
  }

  function Scale(n: nat): (s: real)
    ensures s > 0.0
  {
    Pow10(n) as real
  }

  // big.Rat.Mul and big.Rat.Quo.
  function Mul(x: real, y: real): real { x * y }

  function Quo(x: real, y: real): real
    requires y != 0.0
  {
    x / y
  }

  function Abs(x: real): real { if x < 0.0 then -x else x }

  // Integer quotient toward zero, as big.Int.QuoRem takes it.
  function Trunc(x: real): int { if x >= 0.0 then x.Floor else -((-x).Floor) }

  // Scaled to an integer under a mode. The adjustment is always upward.
  function Resolve(scaled: real, m: Mode): int {
    var q := Trunc(scaled);
    var r := scaled - q as real;
    match m
    case Down => q
    case Up => if r != 0.0 then q + 1 else q
    case HalfUp => if Abs(r) * 2.0 >= 1.0 then q + 1 else q
  }

  function Scaled(x: real, n: nat): real { x * Scale(n) }

  function Unscaled(k: int, n: nat): real { k as real / Scale(n) }

  function Rounded(x: real, n: nat, m: Mode): real {
    Unscaled(Resolve(Scaled(x, n), m), n)
  }

  // The result has at most n decimals. For a value that is not negative it is
  // the nearest below, the nearest above, or the nearest with ties upward.
  method Round(x: real, n: nat, m: Mode) returns (out: real)
    ensures out == Rounded(x, n, m)
    ensures OnGrid(out, n)
    ensures x >= 0.0 ==> LandsBy(m, Scaled(x, n), Scaled(out, n))
  {
    var scaled := Scaled(x, n);
    var q := Trunc(scaled);
    var r := scaled - q as real;
    match m {
      case Down =>
      case Up =>
        if r != 0.0 {
          q := q + 1;
        }
      case HalfUp =>
        if Abs(r) * 2.0 >= 1.0 {
          q := q + 1;
        }
    }
    out := Unscaled(q, n);
    GridFixed(x, n, m);
    if x >= 0.0 {
      RoundsTo(x, n);
    }
  }

  // Where a mode may land from s, on whole numbers.
  predicate LandsBy(m: Mode, s: real, r: real) {
    match m
    case Down => r <= s < r + 1.0
    case Up => r - 1.0 < s <= r
    case HalfUp => r - 0.5 <= s < r + 0.5
  }

  predicate IsWhole(x: real) { x == x.Floor as real }

  // x needs at most n decimals.
  predicate OnGrid(x: real, n: nat) { IsWhole(Scaled(x, n)) }

  lemma {:induction false} TruncWhole(x: real)
    ensures IsWhole(x) <==> x == Trunc(x) as real
    ensures IsWhole(x) ==> Trunc(x) == x.Floor && forall m :: Resolve(x, m) == x.Floor
  {
    if x < 0.0 && x == Trunc(x) as real {
      assert x == -((-x).Floor) as real;
    }
    if x < 0.0 && IsWhole(x) {
      assert -x == (-(x.Floor)) as real;
    }
  }

  lemma {:induction false} ScaledBack(x: real, n: nat, k: int)
    ensures Scaled(Unscaled(k, n), n) == k as real
    ensures Scaled(x, n) == k as real ==> Unscaled(k, n) == x
  {
    var s, y := Scale(n), Unscaled(k, n);
    assert y * s == k as real;
    NoZeroProduct(y - x, s);
    assert (y - x) * s == y * s - x * s;
  }

  lemma {:induction false} NoZeroProduct(x: real, s: real)
    requires s > 0.0
    ensures x * s == 0.0 ==> x == 0.0
  {
  }

  // Rounding leaves a value alone exactly when it is already on the grid.
  lemma {:induction false} GridFixed(x: real, n: nat, m: Mode)
    ensures OnGrid(Rounded(x, n, m), n)
    ensures OnGrid(x, n) ==> Rounded(x, n, m) == x
    ensures Rounded(x, n, Down) == x ==> OnGrid(x, n)
  {
    var scaled := Scaled(x, n);
    TruncWhole(scaled);
    ScaledBack(x, n, Resolve(scaled, m));
    ScaledBack(x, n, Resolve(scaled, Down));
  }

  lemma {:induction false} RoundsTo(x: real, n: nat)
    requires x >= 0.0
    ensures forall m :: LandsBy(m, Scaled(x, n), Scaled(Rounded(x, n, m), n))
  {
    var s := Scaled(x, n);
    assert s >= 0.0;
    forall m ensures LandsBy(m, s, Scaled(Rounded(x, n, m), n)) {
      ScaledBack(x, n, Resolve(s, m));
    }
  }

  // The mirror image through zero of rounding the value's size: what rounding
  // away from zero, and ties away from zero, come to.
  function AwayFromZero(x: real, n: nat, m: Mode): real {
    if x < 0.0 then -Rounded(-x, n, m) else Rounded(x, n, m)
  }

  lemma {:induction false} Mirrored(x: real, n: nat)
    ensures Scaled(-x, n) == -Scaled(x, n)
    ensures forall k: int :: Unscaled(-k, n) == -Unscaled(k, n)
  {
  }

  lemma {:induction false} UnscaledInjective(j: int, k: int, n: nat)
    ensures Unscaled(j, n) == Unscaled(k, n) <==> j == k
  {
    ScaledBack(0.0, n, j);
    ScaledBack(0.0, n, k);
  }

  // The adjustment is always upward, so below zero `Up` goes away from zero only
  // where there is nothing to adjust.
  lemma {:induction false} UpAwayFromZero(x: real, n: nat)
    ensures Rounded(x, n, Up) == AwayFromZero(x, n, Up) <==> x >= 0.0 || OnGrid(x, n)
  {
    if x < 0.0 {
      var s := Scaled(x, n);
      Mirrored(x, n);
      TruncWhole(s);
      var away := -Resolve(-s, Up);
      assert AwayFromZero(x, n, Up) == Unscaled(away, n);
      UnscaledInjective(Resolve(s, Up), away, n);
    }
  }

  // Below zero half-up is right exactly where it rounds toward zero, and that is
  // also exactly where it lands within half a unit.
  lemma {:induction false} HalfUpAwayFromZero(x: real, n: nat)
    ensures var s := Scaled(x, n);
      && (Rounded(x, n, HalfUp) == AwayFromZero(x, n, HalfUp) <==> x >= 0.0 || s - Trunc(s) as real > -0.5)
      && (Abs(Scaled(Rounded(x, n, HalfUp), n) - s) <= 0.5 <==> x >= 0.0 || s - Trunc(s) as real > -0.5)
  {
    var s := Scaled(x, n);
    ScaledBack(x, n, Resolve(s, HalfUp));
    if x < 0.0 {
      Mirrored(x, n);
      assert s < 0.0;
      var away := -Resolve(-s, HalfUp);
      assert AwayFromZero(x, n, HalfUp) == Unscaled(away, n);
      UnscaledInjective(Resolve(s, HalfUp), away, n);
    } else {
      RoundsTo(x, n);
    }
  }

  lemma {:induction false} TimesTen(a: nat, b: nat)
    ensures a * (b * 10) == a * b * 10
  {
  }

  lemma {:induction false} Pow10Adds(m: nat, n: nat)
    ensures Pow10(m + n) == Pow10(m) * Pow10(n)
  {
    if n > 0 {
      Pow10Adds(m, n - 1);
      TimesTen(Pow10(m), Pow10(n - 1));
    }
  }

  lemma {:induction false} Regrouped(x: real, y: real, a: real, b: real, ab: real)
    requires ab == a * b
    ensures (x * y) * ab == (x * a) * (y * b)
  {
    assert (x * y) * (a * b) == x * (y * (a * b));
    assert y * (a * b) == a * (y * b);
    assert x * (a * (y * b)) == (x * a) * (y * b);
  }

  lemma {:induction false} AsRealTimes(a: nat, b: nat)
    ensures (a * b) as real == a as real * b as real
  {
  }

  lemma {:induction false} ScaleAdds(m: nat, n: nat)
    ensures Scale(m + n) == Scale(m) * Scale(n)
  {
    Pow10Adds(m, n);
    AsRealTimes(Pow10(m), Pow10(n));
  }

  lemma {:induction false} ScaledProduct(x: real, y: real, m: nat, n: nat)
    ensures Scaled(Mul(x, y), m + n) == Mul(Scaled(x, m), Scaled(y, n))
  {
    ScaleAdds(m, n);
    Regrouped(x, y, Scale(m), Scale(n), Scale(m + n));
  }

  lemma {:induction false} WholeProduct(x: real, y: real)
    requires IsWhole(x) && IsWhole(y)
    ensures IsWhole(Mul(x, y))
  {
    assert Mul(x, y) == (x.Floor * y.Floor) as real;
  }

  // The product of an m-decimal and an n-decimal number has m + n decimals.
  lemma {:induction false} GridProduct(x: real, y: real, m: nat, n: nat)
    requires OnGrid(x, m) && OnGrid(y, n)
    ensures OnGrid(Mul(x, y), m + n)
  {
    WholeProduct(Scaled(x, m), Scaled(y, n));
    ScaledProduct(x, y, m, n);
  }

  lemma {:induction false} GridCoarser(x: real, m: nat, n: nat)
    requires m <= n && OnGrid(x, m)
    ensures OnGrid(x, n)
  {
    assert Scaled(1.0, n - m) == Pow10(n - m) as real;
    GridProduct(x, 1.0, m, n - m);
    assert Mul(x, 1.0) == x;
  }

  // The decimals x needs, stopping at limit + 1.
  function DecimalPlaces(x: real, limit: nat): (n: nat)
    ensures n <= limit + 1
  {
    PlacesFrom(x, 0, limit)
  }

  function PlacesFrom(x: real, n: nat, limit: nat): (r: nat)
    requires n <= limit + 1
    ensures r <= limit + 1
    decreases limit + 1 - n
  {
    if n == limit + 1 || Rounded(x, n, Down) == x then n else PlacesFrom(x, n + 1, limit)
  }

  method CountPlaces(x: real, limit: nat) returns (n: nat)
    ensures n == DecimalPlaces(x, limit)
  {
    n := 0;
    while n <= limit
      invariant n <= limit + 1 && PlacesFrom(x, n, limit) == DecimalPlaces(x, limit)
    {
      var down := Round(x, n, Down);
      if down == x {
        return;
      }
      n := n + 1;
    }
  }

  // The least number of decimals that holds x, when `limit` is enough.
  lemma {:induction false} PlacesLeast(x: real, n: nat, limit: nat)
    requires n <= limit + 1 && forall k :: 0 <= k < n ==> !OnGrid(x, k)
    ensures PlacesFrom(x, n, limit) <= limit <==> OnGrid(x, limit)
    ensures PlacesFrom(x, n, limit) <= limit ==> OnGrid(x, PlacesFrom(x, n, limit))
    ensures forall k :: 0 <= k < PlacesFrom(x, n, limit) ==> !OnGrid(x, k)
    decreases limit + 1 - n
  {
    if n <= limit {
      GridFixed(x, n, Down);
      if OnGrid(x, n) {
        GridCoarser(x, n, limit);
      } else {
        PlacesLeast(x, n + 1, limit);
      }
    }
  }

  // A derived amount pulled inside the allowed decimals.
  function Converge(v: real, limit: nat): real {
    if DecimalPlaces(v, limit) <= limit then v
    else
      var up := Rounded(v, limit + 4, Up);
      if DecimalPlaces(up, limit) > limit then Rounded(up, limit, Down) else up
  }

  function Ceil(x: real): int { -((-x).Floor) }

  lemma {:induction false} ConvergeOnGrid(v: real, limit: nat)
    requires OnGrid(v, limit)
    ensures Converge(v, limit) == v
  {
    PlacesLeast(v, 0, limit);
  }

  lemma {:induction false} FloorDiv(k: nat, n: nat)
    requires n > 0
    ensures (k as real / n as real).Floor == k / n
  {
    var q, r := k / n, k % n;
    assert k as real == q as real * n as real + r as real;
    assert k as real / n as real == q as real + r as real / n as real;
    assert 0.0 <= r as real / n as real < 1.0;
  }

  // Four more decimals scale by ten thousand more.
  lemma {:induction false} ScaledShift(v: real, limit: nat)
    ensures Scaled(v, limit + 4) == Scaled(v, limit) * 10_000.0
    ensures v >= 0.0 ==> Scaled(v, limit) >= 0.0
  {
    ScaledProduct(v, 1.0, limit, 4);
    assert Pow10(4) == 10_000;
    assert Scaled(1.0, 4) == 10_000.0;
    assert Mul(v, 1.0) == v;
  }

  lemma {:induction false} UpIsCeil(x: real)
    requires x >= 0.0
    ensures Resolve(x, Up) == Ceil(x) >= 0
  {
  }

  // Rounded up four places on, then truncated back.
  lemma {:induction false} NudgedDown(v: real, limit: nat)
    requires v >= 0.0
    ensures var up := Rounded(v, limit + 4, Up);
      Rounded(up, limit, Down) == Unscaled(Ceil(Scaled(v, limit + 4)) / 10_000, limit)
  {
    var up, c := Rounded(v, limit + 4, Up), Ceil(Scaled(v, limit + 4));
    ScaledShift(v, limit);
    ScaledShift(up, limit);
    UpIsCeil(Scaled(v, limit + 4));
    ScaledBack(up, limit + 4, c);
    var x := Scaled(up, limit);
    assert x == c as real / 10_000.0;
    FloorDiv(c, 10_000);
    assert Trunc(x) == c / 10_000;
  }

  lemma {:induction false} WholeNudge(x: real)
    requires x >= 0.0 && IsWhole(x)
    ensures Ceil(x * 10_000.0) / 10_000 == x.Floor
  {
    assert x * 10_000.0 == (x.Floor * 10_000) as real;
    assert Ceil(x * 10_000.0) == x.Floor * 10_000;
  }

  // Nudge up four places, truncate: the closed form, for every amount.
  lemma {:induction false} ConvergeClosed(v: real, limit: nat)
    requires v >= 0.0
    ensures Converge(v, limit) == Unscaled(Ceil(Scaled(v, limit + 4)) / 10_000, limit)
  {
    var up, x := Rounded(v, limit + 4, Up), Scaled(v, limit);
    PlacesLeast(v, 0, limit);
    if OnGrid(v, limit) {
      ScaledShift(v, limit);
      WholeNudge(x);
      ScaledBack(v, limit, x.Floor);
    } else {
      PlacesLeast(up, 0, limit);
      GridFixed(up, limit, Down);
      NudgedDown(v, limit);
    }
  }

  lemma {:induction false} NudgedFloor(x: real)
    requires x >= 0.0
    ensures Ceil(x * 10_000.0) / 10_000 == if x - x.Floor as real <= 0.9999 then x.Floor else x.Floor + 1
  {
    var m, f := x.Floor, x - x.Floor as real;
    assert x * 10_000.0 == (m * 10_000) as real + f * 10_000.0;
    var e := Ceil(f * 10_000.0);
    assert Ceil(x * 10_000.0) == m * 10_000 + e;
    assert 0 <= e <= 10_000;
    assert e == 10_000 <==> f > 0.9999;
  }

  // The nudge changes the answer exactly when the amount lies within a
  // ten-thousandth of the next representable one.
  lemma {:induction false} NudgeMatters(v: real, limit: nat)
    requires v >= 0.0
    ensures var x := Scaled(v, limit);
      Converge(v, limit) == Rounded(v, limit, Down) <==> x - x.Floor as real <= 0.9999
  {
    var x := Scaled(v, limit);
    ConvergeClosed(v, limit);
    ScaledShift(v, limit);
    NudgedFloor(x);
    ScaledBack(0.0, limit, x.Floor);
    ScaledBack(0.0, limit, x.Floor + 1);
  }

  // A witness that it does matter: half a hundred-thousandth short of a cent.
  lemma {:induction false} NudgeRecovers()
    ensures Converge(0.009999995, 2) == 0.01 && Rounded(0.009999995, 2, Down) == 0.0
  {
    assert Pow10(2) == 100 && Pow10(6) == 1_000_000;
    ConvergeClosed(0.009999995, 2);
    assert Scaled(0.009999995, 6) == 9_999.995;
    assert Ceil(9_999.995) == 10_000;
    assert Scaled(0.009999995, 2) == 0.9999995;
  }
}
