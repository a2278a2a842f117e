// Values of every nested ABI type, how the source's builders encode them, and a
// decoder that follows the offsets back.

module AbiCodec {
  import opened Bytes
  import opened Wrappers
  import opened Abi

  datatype Value =
    | VWord(word: Word)
    | VBytes(text: bytes)
    | VTuple(members: seq<Value>)
    | VList(items: seq<Value>)

  datatype Type =
    | TWord
    | TBytes
    | TTuple(members: seq<Type>)
    | TList(item: Type)

  function Repeat(t: Type, n: nat): (ts: seq<Type>)
    ensures |ts| == n && MaxDepth(ts) <= Depth(t)
  {
    if n == 0 then [] else [t] + Repeat(t, n - 1)
  }

  ghost predicate HasType(v: Value, t: Type)
    decreases v, 0
  {
    match (v, t)
    case (VWord(_), TWord) => true
    case (VBytes(_), TBytes) => true
    case (VTuple(vs), TTuple(ts)) => HaveTypes(vs, ts)
    case (VList(vs), TList(item)) => HaveTypes(vs, Repeat(item, |vs|))
    case _ => false
  }

  ghost predicate HaveTypes(vs: seq<Value>, ts: seq<Type>)
    decreases vs, 1
  {
    |vs| == |ts| && (vs == [] || (HasType(vs[0], ts[0]) && HaveTypes(vs[1..], ts[1..])))
  }

  // The argument a caller builds for a value.
  function ArgOf(v: Value): Arg
    decreases v, 0
  {
    match v
    case VWord(w) => WordArg(w)
    case VBytes(b) => BytesArg(b)
    case VTuple(vs) => TupleArg(ArgsOf(vs))
    case VList(vs) => ListArg(ArgsOf(vs))
  }

  function ArgsOf(vs: seq<Value>): (args: seq<Arg>)
    ensures |args| == |vs|
    decreases vs, 1
  {
    if vs == [] then [] else [ArgOf(vs[0])] + ArgsOf(vs[1..])
  }

  function Encoding(v: Value): bytes { ArgOf(v).Payload() }

  // Lengths and offsets all below 2^64, as any that Go can hold are.
  ghost predicate Sized(v: Value)
    decreases v, 0
  {
    match v
    case VWord(_) => true
    case VBytes(b) => |b| < UINT64_LIMIT
    case VTuple(vs) => |Assembled(ArgsOf(vs))| < UINT64_LIMIT && AllSized(vs)
    case VList(vs) => |vs| < UINT64_LIMIT && |Assembled(ArgsOf(vs))| < UINT64_LIMIT && AllSized(vs)
  }

  ghost predicate AllSized(vs: seq<Value>)
    decreases vs, 1
  {
    vs == [] || (Sized(vs[0]) && AllSized(vs[1..]))
  }

  // Which types sit behind an offset, and how wide the others are.
  function IsDynamic(t: Type): bool
    decreases t, 0
  {
    match t
    case TWord => false
    case TBytes => true
    case TTuple(ts) => SomeDynamic(ts)
    case TList(_) => true
  }

  function SomeDynamic(ts: seq<Type>): bool
    decreases ts, 1
  {
    ts != [] && (IsDynamic(ts[0]) || SomeDynamic(ts[1..]))
  }

  function Width(t: Type): nat
    decreases t, 0
  {
    match t
    case TTuple(ts) => Widths(ts)
    case _ => 32
  }

  function Widths(ts: seq<Type>): nat
    decreases ts, 1
  {
    if ts == [] then 0 else Width(ts[0]) + Widths(ts[1..])
  }

  function Depth(t: Type): nat
    decreases t, 0
  {
    match t
    case TTuple(ts) => 1 + MaxDepth(ts)
    case TList(item) => 1 + Depth(item)
    case _ => 0
  }

  function MaxDepth(ts: seq<Type>): nat
    decreases ts, 1
  {
    if ts == [] then 0
    else if Depth(ts[0]) > MaxDepth(ts[1..]) then Depth(ts[0]) else MaxDepth(ts[1..])
  }

  function WordAt(d: bytes, at: nat): Option<Word> {
    if at + 32 <= |d| then Some(d[at..at + 32]) else None
  }

  // The value whose encoding starts at `at`, if the data holds one.
  function Decode(t: Type, d: bytes, at: nat): Option<Value>
    decreases Depth(t), 0, 0
  {
    match t
    case TWord =>
      var w := WordAt(d, at);
      if w.Some? then Some(VWord(w.value)) else None
    case TBytes =>
      var n := WordAt(d, at);
      if n.Some? && at + 32 + Bytes.Value(n.value) <= |d| then
        Some(VBytes(d[at + 32..at + 32 + Bytes.Value(n.value)]))
      else None
    case TTuple(ts) =>
      var vs := DecodeSeq(ts, d, at, at);
      if vs.Some? then Some(VTuple(vs.value)) else None
    case TList(item) =>
      var n := WordAt(d, at);
      if n.None? then None
      else
        var vs := DecodeSeq(Repeat(item, Bytes.Value(n.value)), d, at + 32, at + 32);
        if vs.Some? then Some(VList(vs.value)) else None
  }

  // Values with heads from `p` on, dynamic ones found by offsets from `base`.
  function DecodeSeq(ts: seq<Type>, d: bytes, base: nat, p: nat): Option<seq<Value>>
    decreases MaxDepth(ts), 1, |ts|
  {
    if ts == [] then Some([])
    else
      var offset := WordAt(d, p);
      if IsDynamic(ts[0]) && offset.None? then None
      else
        var first := if IsDynamic(ts[0]) then Decode(ts[0], d, base + Bytes.Value(offset.value)) else Decode(ts[0], d, p);
        var others := DecodeSeq(ts[1..], d, base, p + if IsDynamic(ts[0]) then 32 else Width(ts[0]));
        if first.Some? && others.Some? then Some([first.value] + others.value) else None
  }

  lemma {:induction false} AnyDynamicSplit(args: seq<Arg>)
    requires args != []
    ensures AnyDynamic(args) == (args[0].dynamic || AnyDynamic(args[1..]))
  {
    if i :| 0 <= i < |args[1..]| && args[1..][i].dynamic {
      assert args[i + 1].dynamic;
    }
    if i :| 0 <= i < |args| && args[i].dynamic && i > 0 {
      assert args[1..][i - 1].dynamic;
    }
  }

  lemma {:induction false} ListLength(args: seq<Arg>)
    ensures |Assembled(args)| == HeadSize(args) + |Tails(args)|
    ensures |ListArg(args).Payload()| == 32 + HeadSize(args) + |Tails(args)|
  {
    HeadsLength(args, HeadSize(args));
  }

  lemma {:induction false} TupleLength(args: seq<Arg>)
    ensures TupleArg(args).dynamic == AnyDynamic(args)
    ensures |TupleArg(args).Payload()| == HeadSize(args) + |Tails(args)|
  {
    HeadsLength(args, 0);
    HeadsLength(args, HeadSize(args));
    if !AnyDynamic(args) {
      NoTails(args);
    }
  }

  // An argument is dynamic, and as wide, as its type says.
  lemma {:induction false} ArgShape(v: Value, t: Type)
    requires HasType(v, t)
    ensures ArgOf(v).dynamic == IsDynamic(t)
    ensures !IsDynamic(t) ==> |Encoding(v)| == Width(t)
    decreases v, 0
  {
    if v.VTuple? {
      ArgsShape(v.members, t.members);
      TupleLength(ArgsOf(v.members));
      if !AnyDynamic(ArgsOf(v.members)) {
        NoTails(ArgsOf(v.members));
      }
    }
  }

  lemma {:induction false} ArgsShape(vs: seq<Value>, ts: seq<Type>)
    requires HaveTypes(vs, ts)
    ensures AnyDynamic(ArgsOf(vs)) == SomeDynamic(ts)
    ensures !SomeDynamic(ts) ==> HeadSize(ArgsOf(vs)) == Widths(ts)
    decreases vs, 1
  {
    if vs != [] {
      ArgShape(vs[0], ts[0]);
      ArgsShape(vs[1..], ts[1..]);
      assert ArgsOf(vs)[1..] == ArgsOf(vs[1..]);
      AnyDynamicSplit(ArgsOf(vs));
    }
  }

  // Every encoding is a whole number of words, whatever is nested in it.
  lemma {:induction false} WholeWords(v: Value)
    ensures |Encoding(v)| % 32 == 0
    decreases v, 0
  {
    if v.VBytes? {
      BytesWhole(v.text);
    } else if v.VTuple? {
      AllWhole(v.members);
      TupleWhole(ArgsOf(v.members));
    } else if v.VList? {
      AllWhole(v.items);
      ListWhole(ArgsOf(v.items));
    }
  }

  lemma {:induction false} TupleWhole(args: seq<Arg>)
    requires HeadSize(args) % 32 == 0 && |Tails(args)| % 32 == 0
    ensures |TupleArg(args).Payload()| % 32 == 0
  {
    TupleLength(args);
    WholeSum(HeadSize(args), |Tails(args)|);
  }

  lemma {:induction false} ListWhole(args: seq<Arg>)
    requires HeadSize(args) % 32 == 0 && |Tails(args)| % 32 == 0
    ensures |ListArg(args).Payload()| % 32 == 0
  {
    ListLength(args);
    WholeSum(HeadSize(args), |Tails(args)|);
    WholeSum(32, HeadSize(args) + |Tails(args)|);
  }

  lemma {:induction false} BytesWhole(b: bytes)
    ensures |BytesArg(b).tail| % 32 == 0
  {
  }

  lemma {:induction false} AllWhole(vs: seq<Value>)
    ensures HeadSize(ArgsOf(vs)) % 32 == 0 && |Tails(ArgsOf(vs))| % 32 == 0
    decreases vs, 1
  {
    if vs != [] {
      WholeWords(vs[0]);
      AllWhole(vs[1..]);
      var args := ArgsOf(vs);
      assert args[0] == ArgOf(vs[0]) && args[1..] == ArgsOf(vs[1..]);
      WholeSum(if args[0].dynamic then 32 else |args[0].head|, HeadSize(args[1..]));
      WholeSum(if args[0].dynamic then |args[0].tail| else 0, |Tails(args[1..])|);
    }
  }

  lemma {:induction false} WholeSum(x: nat, y: nat)
    requires x % 32 == 0 && y % 32 == 0
    ensures (x + y) % 32 == 0
  {
  }

  // A bytes argument: its length, then the bytes.
  lemma {:induction false} DecodeBytes(b: bytes, d: bytes, at: nat)
    requires |b| < UINT64_LIMIT && StandsAt(d, at, BytesArg(b).tail)
    ensures Decode(TBytes, d, at) == Some(VBytes(b))
  {
    var pad := Zeros(if |b| % 32 == 0 then 0 else 32 - |b| % 32);
    StandsSplit(d, at, LengthWord(|b|) + b, pad);
    StandsSplit(d, at, LengthWord(|b|), b);
    LengthWordValue(|b|);
  }

  // The tail of a byte string: its length, the bytes, and zeros to a whole word.
  lemma {:induction false} BytesForm(b: bytes)
    requires |b| < UINT64_LIMIT
    ensures var tail := BytesArg(b).tail;
      && |tail| % 32 == 0 && 32 + |b| <= |tail| < 64 + |b|
      && Bytes.Value(tail[..32]) == |b| && tail[32..32 + |b|] == b
      && forall i :: 32 + |b| <= i < |tail| ==> tail[i] == 0
  {
    LengthWordValue(|b|);
    var tail := BytesArg(b).tail;
    assert tail[..32] == LengthWord(|b|);
  }

  // A tuple stands in place as its argument list, static or not.
  lemma {:induction false} TupleStands(args: seq<Arg>)
    ensures TupleArg(args).Payload() == Assembled(args)
  {
    if !AnyDynamic(args) {
      NoTails(args);
      StaticHeads(args, 0, HeadSize(args));
    }
  }

  // The decoder gives back any value of the type, wherever it stands.
  lemma {:induction false} DecodeEncoding(v: Value, t: Type, d: bytes, at: nat)
    requires HasType(v, t) && Sized(v) && StandsAt(d, at, Encoding(v))
    ensures Decode(t, d, at) == Some(v)
    decreases v, 0
  {
    if v.VBytes? {
      DecodeBytes(v.text, d, at);
    } else if v.VTuple? {
      TupleStands(ArgsOf(v.members));
      DecodeAssembled(v.members, t.members, d, at);
    } else if v.VList? {
      StandsSplit(d, at, LengthWord(|v.items|), Assembled(ArgsOf(v.items)));
      LengthWordValue(|v.items|);
      DecodeAssembled(v.items, Repeat(t.item, |v.items|), d, at + 32);
    }
  }

  lemma {:induction false} NoTails(args: seq<Arg>)
    requires !AnyDynamic(args)
    ensures Tails(args) == []
  {
    if args != [] {
      AnyDynamicSplit(args);
      NoTails(args[1..]);
    }
  }

  lemma {:induction false} StaticHeads(args: seq<Arg>, m: nat, n: nat)
    requires !AnyDynamic(args)
    ensures Heads(args, m) == Heads(args, n)
  {
    if args != [] {
      AnyDynamicSplit(args);
      StaticHeads(args[1..], m, n);
    }
  }

  lemma {:induction false} DecodeAssembled(vs: seq<Value>, ts: seq<Type>, d: bytes, base: nat)
    requires HaveTypes(vs, ts) && AllSized(vs) && |Assembled(ArgsOf(vs))| < UINT64_LIMIT
    requires StandsAt(d, base, Assembled(ArgsOf(vs)))
    ensures DecodeSeq(ts, d, base, base) == Some(vs)
    decreases vs, 4
  {
    var args := ArgsOf(vs);
    var h := HeadSize(args);
    HeadsLength(args, h);
    StandsSplit(d, base, Heads(args, h), Tails(args));
    DecodeHeads(vs, ts, d, base, base, h);
  }

  // A head at `p` and a tail at `base + offset`, apart from what follows them.
  lemma {:induction false} FirstStands(args: seq<Arg>, d: bytes, base: nat, p: nat, offset: nat)
    requires args != [] && offset + |Tails(args)| < UINT64_LIMIT
    requires StandsAt(d, p, Heads(args, offset)) && StandsAt(d, base + offset, Tails(args))
    ensures args[0].dynamic ==>
      && WordAt(d, p) == Some(LengthWord(offset)) && Bytes.Value(LengthWord(offset)) == offset
      && StandsAt(d, base + offset, args[0].tail)
      && StandsAt(d, p + 32, Heads(args[1..], offset + |args[0].tail|))
      && StandsAt(d, base + offset + |args[0].tail|, Tails(args[1..]))
      && offset + |args[0].tail| + |Tails(args[1..])| < UINT64_LIMIT
    ensures !args[0].dynamic ==>
      && StandsAt(d, p, args[0].head)
      && StandsAt(d, p + |args[0].head|, Heads(args[1..], offset))
      && StandsAt(d, base + offset, Tails(args[1..]))
      && offset + |Tails(args[1..])| < UINT64_LIMIT
  {
    if args[0].dynamic {
      StandsSplit(d, p, LengthWord(offset), Heads(args[1..], offset + |args[0].tail|));
      StandsSplit(d, base + offset, args[0].tail, Tails(args[1..]));
      LengthWordValue(offset);
    } else {
      StandsSplit(d, p, args[0].head, Heads(args[1..], offset));
      assert [] + Tails(args[1..]) == Tails(args[1..]);
    }
  }

  lemma {:induction false} DynamicFirst(ts: seq<Type>, d: bytes, base: nat, p: nat, offset: nat, v: Value, vs: seq<Value>)
    requires ts != [] && IsDynamic(ts[0])
    requires WordAt(d, p).Some? && Bytes.Value(WordAt(d, p).value) == offset
    requires Decode(ts[0], d, base + offset) == Some(v) && DecodeSeq(ts[1..], d, base, p + 32) == Some(vs)
    ensures DecodeSeq(ts, d, base, p) == Some([v] + vs)
  {
  }

  lemma {:induction false} StaticFirst(ts: seq<Type>, d: bytes, base: nat, p: nat, v: Value, vs: seq<Value>)
    requires ts != [] && !IsDynamic(ts[0])
    requires Decode(ts[0], d, p) == Some(v) && DecodeSeq(ts[1..], d, base, p + Width(ts[0])) == Some(vs)
    ensures DecodeSeq(ts, d, base, p) == Some([v] + vs)
  {
  }

  // Heads at `p`, and the tails they point to from `base + offset` on.
  lemma {:induction false} DecodeHeads(vs: seq<Value>, ts: seq<Type>, d: bytes, base: nat, p: nat, offset: nat)
    requires HaveTypes(vs, ts) && AllSized(vs) && offset + |Tails(ArgsOf(vs))| < UINT64_LIMIT
    requires StandsAt(d, p, Heads(ArgsOf(vs), offset)) && StandsAt(d, base + offset, Tails(ArgsOf(vs)))
    ensures DecodeSeq(ts, d, base, p) == Some(vs)
    decreases vs, 3
  {
    if vs != [] {
      ArgShape(vs[0], ts[0]);
      if IsDynamic(ts[0]) {
        DecodeBehindOffset(vs, ts, d, base, p, offset);
      } else {
        DecodeInPlace(vs, ts, d, base, p, offset);
      }
    }
  }

  // Arguments are the first value's and the rest's.
  lemma {:induction false} FirstArg(vs: seq<Value>)
    requires vs != []
    ensures ArgsOf(vs)[0] == ArgOf(vs[0]) && ArgsOf(vs)[1..] == ArgsOf(vs[1..])
    ensures vs == [vs[0]] + vs[1..]
  {
  }

  lemma {:induction false} FirstTyped(vs: seq<Value>, ts: seq<Type>)
    requires HaveTypes(vs, ts) && AllSized(vs) && vs != []
    ensures HasType(vs[0], ts[0]) && HaveTypes(vs[1..], ts[1..]) && Sized(vs[0]) && AllSized(vs[1..])
  {
  }

  lemma {:induction false} DecodeBehindOffset(vs: seq<Value>, ts: seq<Type>, d: bytes, base: nat, p: nat, offset: nat)
    requires HaveTypes(vs, ts) && AllSized(vs) && offset + |Tails(ArgsOf(vs))| < UINT64_LIMIT
    requires StandsAt(d, p, Heads(ArgsOf(vs), offset)) && StandsAt(d, base + offset, Tails(ArgsOf(vs)))
    requires vs != [] && IsDynamic(ts[0]) && ArgOf(vs[0]).dynamic
    ensures DecodeSeq(ts, d, base, p) == Some(vs)
    decreases vs, 2
  {
    var args := ArgsOf(vs);
    FirstArg(vs);
    FirstTyped(vs, ts);
    FirstStands(args, d, base, p, offset);
    DecodeEncoding(vs[0], ts[0], d, base + offset);
    DecodeHeads(vs[1..], ts[1..], d, base, p + 32, offset + |args[0].tail|);
    DynamicFirst(ts, d, base, p, offset, vs[0], vs[1..]);
  }

  lemma {:induction false} DecodeInPlace(vs: seq<Value>, ts: seq<Type>, d: bytes, base: nat, p: nat, offset: nat)
    requires HaveTypes(vs, ts) && AllSized(vs) && offset + |Tails(ArgsOf(vs))| < UINT64_LIMIT
    requires StandsAt(d, p, Heads(ArgsOf(vs), offset)) && StandsAt(d, base + offset, Tails(ArgsOf(vs)))
    requires vs != [] && !IsDynamic(ts[0]) && !ArgOf(vs[0]).dynamic && |Encoding(vs[0])| == Width(ts[0])
    ensures DecodeSeq(ts, d, base, p) == Some(vs)
    decreases vs, 2
  {
    var args := ArgsOf(vs);
    FirstArg(vs);
    FirstTyped(vs, ts);
    FirstStands(args, d, base, p, offset);
    DecodeEncoding(vs[0], ts[0], d, p);
    DecodeHeads(vs[1..], ts[1..], d, base, p + Width(ts[0]), offset);
    StaticFirst(ts, d, base, p, vs[0], vs[1..]);
  }

  // The arguments of a call read back whatever they are and whatever follows:
  // this is abi.encode and abi.decode.
  lemma {:induction false} ArgumentsRoundTrip(vs: seq<Value>, ts: seq<Type>, rest: bytes)
    requires HaveTypes(vs, ts) && AllSized(vs) && |Assembled(ArgsOf(vs))| < UINT64_LIMIT
    ensures DecodeSeq(ts, Assembled(ArgsOf(vs)) + rest, 0, 0) == Some(vs)
  {
    DecodeAssembled(vs, ts, Assembled(ArgsOf(vs)) + rest, 0);
  }

  function WordArgs(words: seq<Word>): (args: seq<Arg>)
    ensures |args| == |words|
  {
    seq(|words|, i requires 0 <= i < |words| => WordArg(words[i]))
  }

  // Words put end to end are the generic encoding of an all-static list.
  method EncodeWords(words: seq<Word>) returns (out: bytes)
    ensures out == Assembled(WordArgs(words))
  {
    ghost var args := WordArgs(words);
    out := [];
    for i := 0 to |words|
      invariant out == Heads(args[..i], HeadSize(args))
    {
      NextArg(args, i, HeadSize(args));
      out := out + words[i];
    }
    assert args[..|words|] == args;
    NoTails(args);
  }
}
