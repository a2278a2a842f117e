// Byte strings and the big-endian integers in them.

module Bytes {
  type byte = x: int | 0 <= x < 256
  type bytes = seq<byte>

  // A length or a small integer of the source.
  type uint64 = x: int | 0 <= x < 0x1_0000_0000_0000_0000

  const UINT64_LIMIT: int := 0x1_0000_0000_0000_0000

  function Zeros(n: nat): (z: bytes)
    ensures |z| == n && forall i :: 0 <= i < n ==> z[i] == 0
  {
    seq(n, _ => 0)
  }

  type Address = b: bytes | |b| == 20 witness Zeros(20)

  // The integer a big-endian string spells: big.Int.SetBytes.
  function Value(b: bytes): nat {
    if b == [] then 0 else Value(b[..|b| - 1]) * 256 + b[|b| - 1]
  }

  // The shortest spelling, with no leading zero: big.Int.Bytes.
  function Minimal(n: nat): bytes {
    if n == 0 then [] else Minimal(n / 256) + [n % 256]
  }

  lemma {:induction false} ValueMinimal(n: nat)
    ensures Value(Minimal(n)) == n
    ensures Minimal(n) != [] ==> Minimal(n)[0] != 0
    ensures Minimal(n) == [] <==> n == 0
  {
    if n > 0 {
      ValueMinimal(n / 256);
    }
  }

  function Pow256(n: nat): (p: nat)
    ensures p > 0
  {
    if n == 0 then 1 else Pow256(n - 1) * 256
  }

  lemma {:induction false} Pow256Grows(m: nat, n: nat)
    requires m <= n
    ensures Pow256(m) <= Pow256(n)
    decreases n
  {
    if m < n {
      Pow256Grows(m, n - 1);
    }
  }

  // n >> 8*i
  function Shifted(n: nat, i: nat): nat
    decreases i
  {
    if i == 0 then n else Shifted(n / 256, i - 1)
  }

  // The low `size` bytes of n, the least significant last.
  function Padded(n: nat, size: nat): (b: bytes)
    ensures |b| == size
  {
    seq(size, i requires 0 <= i < size => Shifted(n, size - 1 - i) % 256)
  }

  lemma {:induction false} PaddedStep(n: nat, size: nat)
    requires size > 0
    ensures Padded(n, size) == Padded(n / 256, size - 1) + [n % 256]
  {
    var p, q := Padded(n, size), Padded(n / 256, size - 1);
    forall i | 0 <= i < size - 1 ensures p[i] == q[i] {
      ShiftedStep(n, size - 1 - i);
    }
    assert p[size - 1] == Shifted(n, 0) % 256;
  }

  lemma {:induction false} ShiftedStep(n: nat, i: nat)
    requires i > 0
    ensures Shifted(n, i) == Shifted(n / 256, i - 1)
  {
  }

  lemma {:induction false} PaddedValue(n: nat, size: nat)
    requires n < Pow256(size)
    ensures Value(Padded(n, size)) == n
  {
    if size > 0 {
      PaddedValue(n / 256, size - 1);
      PaddedStep(n, size);
      assert Padded(n, size)[..size - 1] == Padded(n / 256, size - 1);
    }
  }

  lemma {:induction false} ValuePadded(b: bytes)
    ensures Padded(Value(b), |b|) == b
  {
    if b != [] {
      ValuePadded(b[..|b| - 1]);
      PaddedStep(Value(b), |b|);
      assert Value(b) / 256 == Value(b[..|b| - 1]);
    }
  }

  lemma {:induction false} ValueBound(b: bytes)
    ensures Value(b) < Pow256(|b|)
  {
    if b != [] {
      ValueBound(b[..|b| - 1]);
    }
  }

  // A string without a leading zero is the shortest spelling of its value.
  lemma {:induction false} MinimalValue(b: bytes)
    requires b != [] ==> b[0] != 0
    ensures Minimal(Value(b)) == b
  {
    if b != [] {
      if |b| > 1 {
        MinimalValue(b[..|b| - 1]);
        assert b[..|b| - 1][0] != 0;
      }
      assert Value(b) / 256 == Value(b[..|b| - 1]);
    }
  }

  // The shortest spelling fits in `size` bytes exactly when the number does.
  lemma {:induction false} MinimalFits(n: nat, size: nat)
    ensures |Minimal(n)| <= size <==> n < Pow256(size)
    decreases size
  {
    if n > 0 && size > 0 {
      MinimalFits(n / 256, size - 1);
    }
  }

  // Zeros before the shortest spelling fill out the padded one.
  lemma {:induction false} ZerosThenMinimal(n: nat, size: nat)
    requires |Minimal(n)| <= size
    ensures Zeros(size - |Minimal(n)|) + Minimal(n) == Padded(n, size)
    decreases size
  {
    if n > 0 {
      ZerosThenMinimal(n / 256, size - 1);
      PaddedStep(n, size);
      assert Zeros(size - |Minimal(n)|) + Minimal(n)
          == (Zeros(size - |Minimal(n)|) + Minimal(n / 256)) + [n % 256];
    } else if size > 0 {
      ZerosThenMinimal(0, size - 1);
      PaddedStep(0, size);
      assert Zeros(size) == Zeros(size - 1) + [0];
    }
  }

  // `piece` stands at position `at` of `data`.
  ghost predicate StandsAt(data: bytes, at: int, piece: bytes) {
    0 <= at <= at + |piece| <= |data| && data[at..at + |piece|] == piece
  }

  lemma {:induction false} StandsMiddle(a: bytes, piece: bytes, b: bytes)
    ensures StandsAt(a + piece + b, |a|, piece)
  {
  }

  lemma {:induction false} StandsSplit(data: bytes, at: int, a: bytes, b: bytes)
    ensures StandsAt(data, at, a + b) <==> StandsAt(data, at, a) && StandsAt(data, at + |a|, b)
  {
    if StandsAt(data, at, a + b) {
      assert data[at..at + |a|] == (a + b)[..|a|];
      assert data[at + |a|..at + |a| + |b|] == (a + b)[|a|..];
    }
  }
}
