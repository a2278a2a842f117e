// The argument encoder of internal/abi, and the decoder it answers to: the
// Solidity Contract ABI Specification, "Formal Specification of the Encoding".

module Abi {
  import opened Bytes
  import opened Wrappers

  type Word = w: bytes | |w| == 32 witness Zeros(32)

  lemma {:induction false} ShiftedOut(v: nat, i: nat, n: nat)
    requires v < Pow256(n) && n <= i
    ensures Shifted(v, i) == 0
    decreases i
  {
    if i > 0 {
      ShiftedOut(v / 256, i - 1, if n == 0 then 0 else n - 1);
    }
  }

  // The conversion of a Go int to uint64, which truncates.
  function AsUint64(n: nat): (v: uint64)
    ensures n < UINT64_LIMIT ==> v == n
  {
    if n < UINT64_LIMIT then n else n % UINT64_LIMIT
  }

  // A length or offset as one word.
  function LengthWord(n: nat): Word { Padded(AsUint64(n), 32) }

  lemma {:induction false} Uint64Fits(n: nat)
    requires n < UINT64_LIMIT
    ensures n < Pow256(8) && n < Pow256(32)
  {
    assert Pow256(8) == UINT64_LIMIT;
    Pow256Grows(8, 32);
  }

  lemma {:induction false} LengthWordValue(n: nat)
    requires n < UINT64_LIMIT
    ensures Value(LengthWord(n)) == n
  {
    Uint64Fits(n);
    PaddedValue(n, 32);
  }

  // Byte k of the word holds the digit v >> 8*(31-k), or nothing yet.
  ghost predicate Written(v: nat, w: bytes, from: int) {
    |w| == 32 && forall k :: 0 <= k < 32 ==> w[k] == if k < from then 0 else Shifted(v, 31 - k) % 256
  }

  // What the low eight bytes hold when only they are written.
  lemma {:induction false} Uint64Digits(v: uint64, w: bytes)
    requires Written(v, w, 24)
    ensures w == LengthWord(v)
  {
    forall k | 0 <= k < 32 ensures w[k] == Padded(v, 32)[k] {
      WordByte(v, k);
    }
  }

  lemma {:induction false} WordByte(v: uint64, k: nat)
    requires k < 32
    ensures Padded(v, 32)[k] == if k < 24 then 0 else Shifted(v, 31 - k) % 256
  {
    if k < 24 {
      Uint64Fits(v);
      ShiftedOut(v, 31 - k, 8);
    }
  }

  method Uint64(v: uint64) returns (word: Word)
    ensures word == LengthWord(v)
  {
    var w := new byte[32](_ => 0);
    for i := 0 to 8
      invariant Written(v, w[..], 32 - i)
    {
      w[31 - i] := Shifted(v, i) % 256;
    }
    word := w[..];
    Uint64Digits(v, word);
  }

  // One argument of a call, split into what its head and its tail carry.
  datatype Arg = Arg(head: bytes, tail: bytes, dynamic: bool) {
    function Payload(): bytes { if dynamic then tail else head }
  }

  function HeadSize(args: seq<Arg>): nat {
    if args == [] then 0
    else (if args[0].dynamic then 32 else |args[0].head|) + HeadSize(args[1..])
  }

  function Tails(args: seq<Arg>): bytes {
    if args == [] then []
    else (if args[0].dynamic then args[0].tail else []) + Tails(args[1..])
  }

  // The heads, when the first tail to come will stand at `offset`.
  function Heads(args: seq<Arg>, offset: nat): bytes {
    if args == [] then []
    else if args[0].dynamic then LengthWord(offset) + Heads(args[1..], offset + |args[0].tail|)
    else args[0].head + Heads(args[1..], offset)
  }

  // An argument list laid out: every head, then every tail.
  function Assembled(args: seq<Arg>): bytes {
    Heads(args, HeadSize(args)) + Tails(args)
  }

  function AnyDynamic(args: seq<Arg>): bool {
    exists i :: 0 <= i < |args| && args[i].dynamic
  }

  lemma {:induction false} HeadsLength(args: seq<Arg>, offset: nat)
    ensures |Heads(args, offset)| == HeadSize(args)
  {
    if args != [] {
      HeadsLength(args[1..], offset + if args[0].dynamic then |args[0].tail| else 0);
    }
  }

  lemma {:induction false} TailsSplit(a: seq<Arg>, b: seq<Arg>)
    ensures HeadSize(a + b) == HeadSize(a) + HeadSize(b)
    ensures Tails(a + b) == Tails(a) + Tails(b)
  {
    if a == [] {
      assert a + b == b;
    } else {
      assert (a + b)[1..] == a[1..] + b;
      TailsSplit(a[1..], b);
    }
  }

  lemma {:induction false} Regroup(x: bytes, y: bytes, z: bytes)
    ensures x + (y + z) == x + y + z
  {
  }

  lemma {:induction false} HeadsSplit(a: seq<Arg>, b: seq<Arg>, offset: nat)
    ensures Heads(a + b, offset) == Heads(a, offset) + Heads(b, offset + |Tails(a)|)
  {
    if a == [] {
      assert a + b == b;
    } else {
      assert (a + b)[1..] == a[1..] + b && (a + b)[0] == a[0];
      var next := offset + if a[0].dynamic then |a[0].tail| else 0;
      var first := if a[0].dynamic then LengthWord(offset) else a[0].head;
      HeadsSplit(a[1..], b, next);
      Regroup(first, Heads(a[1..], next), Heads(b, offset + |Tails(a)|));
    }
  }

  lemma {:induction false} LayoutSplits(a: seq<Arg>, b: seq<Arg>, offset: nat)
    ensures HeadSize(a + b) == HeadSize(a) + HeadSize(b)
    ensures Tails(a + b) == Tails(a) + Tails(b)
    ensures Heads(a + b, offset) == Heads(a, offset) + Heads(b, offset + |Tails(a)|)
  {
    TailsSplit(a, b);
    HeadsSplit(a, b, offset);
  }

  // What one more argument adds to the layout of those before it.
  lemma {:induction false} NextArg(args: seq<Arg>, i: nat, offset: nat)
    requires i < |args|
    ensures HeadSize(args[..i + 1]) == HeadSize(args[..i]) + if args[i].dynamic then 32 else |args[i].head|
    ensures Tails(args[..i + 1]) == Tails(args[..i]) + if args[i].dynamic then args[i].tail else []
    ensures Heads(args[..i + 1], offset)
         == Heads(args[..i], offset) + if args[i].dynamic then LengthWord(offset + |Tails(args[..i])|) else args[i].head
  {
    var last := [args[i]];
    assert args[..i + 1] == args[..i] + last;
    LayoutSplits(args[..i], last, offset);
    assert last[1..] == [];
  }

  method SizeHeads(args: seq<Arg>) returns (headSize: nat)
    ensures headSize == HeadSize(args)
  {
    headSize := 0;
    for i := 0 to |args|
      invariant headSize == HeadSize(args[..i])
    {
      NextArg(args, i, 0);
      headSize := headSize + if args[i].dynamic then 32 else |args[i].head|;
    }
    assert args[..|args|] == args;
  }

  // A running uint64 offset wraps to the same word as the offset itself.
  lemma {:induction false} WrapAdds(x: nat, y: nat)
    ensures AsUint64(AsUint64(x) + y) == AsUint64(x + y)
  {
  }

  // An offset that has wrapped still spells the same word.
  lemma {:induction false} WrapSpells(n: nat)
    ensures LengthWord(AsUint64(n)) == LengthWord(n)
  {
    WrapAdds(n, 0);
  }

  // Every head, and every tail, when the first tail is to stand at `headSize`.
  method LayOut(args: seq<Arg>, headSize: nat) returns (head: bytes, tail: bytes)
    ensures head == Heads(args, headSize) && tail == Tails(args)
  {
    head, tail := [], [];
    for i := 0 to |args|
      invariant head == Heads(args[..i], headSize) && tail == Tails(args[..i])
    {
      NextArg(args, i, headSize);
      if !args[i].dynamic {
        head := head + args[i].head;
        continue;
      }
      WrapSpells(headSize + |tail|);
      var offset := Uint64(AsUint64(headSize + |tail|));
      head := head + offset;
      tail := tail + args[i].tail;
    }
    assert args[..|args|] == args;
  }

  method Assemble(args: seq<Arg>) returns (out: bytes)
    ensures out == Assembled(args)
  {
    var headSize := SizeHeads(args);
    var head, tail := LayOut(args, headSize);
    out := head + tail;
  }

  lemma {:induction false} DynamicHead(args: seq<Arg>, offset: nat)
    requires args != [] && args[0].dynamic
    ensures Heads(args, offset) == LengthWord(offset) + Heads(args[1..], offset + |args[0].tail|)
  {
  }

  lemma {:induction false} OffsetWordStands(args: seq<Arg>, i: nat)
    requires i < |args| && args[i].dynamic
    ensures StandsAt(Assembled(args), HeadSize(args[..i]), LengthWord(HeadSize(args) + |Tails(args[..i])|))
  {
    var a, b, h := args[..i], args[i..], HeadSize(args);
    assert args == a + b && b[0] == args[i];
    HeadsSplit(a, b, h);
    HeadsLength(a, h);
    var offset := h + |Tails(a)|;
    DynamicHead(b, offset);
    var word, more := LengthWord(offset), Heads(b[1..], offset + |args[i].tail|);
    Regroup(Heads(a, h), word, more);
    Regroup(Heads(a, h) + word, more, Tails(args));
    StandsMiddle(Heads(a, h), word, more + Tails(args));
  }

  lemma {:induction false} TailStands(args: seq<Arg>, i: nat)
    requires i < |args| && args[i].dynamic
    ensures StandsAt(Assembled(args), HeadSize(args) + |Tails(args[..i])|, args[i].tail)
  {
    var a, b, h := args[..i], args[i..], HeadSize(args);
    assert args == a + b && b[0] == args[i];
    TailsSplit(a, b);
    HeadsLength(args, h);
    assert Assembled(args) == (Heads(args, h) + Tails(a)) + args[i].tail + Tails(b[1..]);
    StandsMiddle(Heads(args, h) + Tails(a), args[i].tail, Tails(b[1..]));
  }

  // The word in the head of a dynamic argument counts from the start of the
  // list to exactly where that argument's tail stands.
  lemma {:induction false} OffsetPointsAtTail(args: seq<Arg>, i: nat)
    requires i < |args| && args[i].dynamic && |Assembled(args)| < UINT64_LIMIT
    ensures var out, offset := Assembled(args), HeadSize(args) + |Tails(args[..i])|;
      && StandsAt(out, HeadSize(args[..i]), LengthWord(offset))
      && Value(LengthWord(offset)) == offset
      && StandsAt(out, offset, args[i].tail)
  {
    OffsetWordStands(args, i);
    TailStands(args, i);
    LengthWordValue(HeadSize(args) + |Tails(args[..i])|);
  }

  // Arguments as the source builds them.

  function WordArg(w: Word): Arg { Arg(w, [], false) }

  function BytesArg(b: bytes): Arg {
    Arg([], LengthWord(|b|) + b + Zeros(if |b| % 32 == 0 then 0 else 32 - |b| % 32), true)
  }

  function TupleArg(members: seq<Arg>): Arg {
    if AnyDynamic(members) then Arg([], Assembled(members), true) else Arg(Heads(members, 0), [], false)
  }

  function ListArg(items: seq<Arg>): Arg {
    Arg([], LengthWord(|items|) + Assembled(items), true)
  }

  method ByteString(b: bytes) returns (arg: Arg)
    ensures arg == BytesArg(b)
  {
    var tail: bytes := Uint64(AsUint64(|b|));
    tail := tail + b;
    var pad := |b| % 32;
    if pad != 0 {
      tail := tail + Zeros(32 - pad);
    }
    arg := Arg([], tail, true);
  }

  method Tuple(members: seq<Arg>) returns (arg: Arg)
    ensures arg == TupleArg(members)
  {
    if !AnyDynamic(members) {
      var head: bytes := [];
      for i := 0 to |members|
        invariant head == Heads(members[..i], 0)
      {
        NextArg(members, i, 0);
        head := head + members[i].head;
      }
      assert members[..|members|] == members;
      return Arg(head, [], false);
    }
    var tail := Assemble(members);
    arg := Arg([], tail, true);
  }

  method List(items: seq<Arg>) returns (arg: Arg)
    ensures arg == ListArg(items)
  {
    var length := Uint64(AsUint64(|items|));
    var body := Assemble(items);
    arg := Arg([], length + body, true);
  }

  // A non-negative integer as one word, if it fits.
  function UintWord(v: Option<int>): Result<Word> {
    if v.None? then Err("nil integer")
    else if v.value < 0 then Err("negative uint")
    else if |Minimal(v.value)| > 32 then Err("does not fit in 32 bytes")
    else Ok(Zeros(32 - |Minimal(v.value)|) + Minimal(v.value))
  }

  lemma {:induction false} UintWordFits(v: Option<int>)
    ensures UintWord(v).Ok? <==> v.Some? && 0 <= v.value < Pow256(32)
    ensures UintWord(v).Ok? ==> UintWord(v).value == Padded(v.value, 32) && Value(UintWord(v).value) == v.value
  {
    if v.Some? && v.value >= 0 {
      MinimalFits(v.value, 32);
      if v.value < Pow256(32) {
        ZerosThenMinimal(v.value, 32);
        PaddedValue(v.value, 32);
      }
    }
  }

  // A non-negative integer in exactly `size` bytes, if it fits.
  function PackedUint(x: int, size: nat): Result<bytes> {
    if x < 0 then Err("negative uint")
    else if |Minimal(x)| > size then Err("does not fit")
    else Ok(Zeros(size - |Minimal(x)|) + Minimal(x))
  }

  lemma {:induction false} PackedUintFits(x: int, size: nat)
    ensures PackedUint(x, size).Ok? <==> 0 <= x < Pow256(size)
    ensures PackedUint(x, size).Ok? ==> PackedUint(x, size).value == Padded(x, size) && Value(PackedUint(x, size).value) == x
  {
    if x >= 0 {
      MinimalFits(x, size);
      if x < Pow256(size) {
        ZerosThenMinimal(x, size);
        PaddedValue(x, size);
      }
    }
  }

  method UintArray(values: seq<Option<int>>) returns (arg: Result<Arg>)
    ensures arg.Ok? <==> forall i :: 0 <= i < |values| ==> UintWord(values[i]).Ok?
    ensures arg.Ok? ==> exists words: seq<Word> ::
      && |words| == |values| && arg.value == ListArg(seq(|words|, i requires 0 <= i < |words| => WordArg(words[i])))
      && forall i :: 0 <= i < |values| ==> UintWord(values[i]) == Ok(words[i])
  {
    var items: seq<Arg> := [];
    ghost var words: seq<Word> := [];
    for i := 0 to |values|
      invariant |items| == |words| == i
      invariant forall k :: 0 <= k < i ==> UintWord(values[k]) == Ok(words[k]) && items[k] == WordArg(words[k])
    {
      var w := UintWord(values[i]);
      if w.Err? {
        return Err(w.error);
      }
      items := items + [WordArg(w.value)];
      words := words + [w.value];
    }
    assert items == seq(|words|, i requires 0 <= i < |words| => WordArg(words[i]));
    var list := List(items);
    arg := Ok(list);
  }
}
