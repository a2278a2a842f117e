// The two batch encodings of relayer/transaction.go: calldata for a proxy's
// list of calls, laid out by hand, and the unpadded batch of a multisend.

module Relayer {
  import opened Bytes
  import opened Wrappers
  import opened Abi
  import opened AbiCodec

  type Selector = b: bytes | |b| == 4 witness Zeros(4)

  // A text field of a call after parsing.
  datatype Field<+T> = Empty | Malformed | Given(value: T)

  datatype Call = Call(to: Field<Address>, value: Field<int>, data: Field<bytes>, operation: byte)

  // The pieces every encoding needs.
  datatype Decoded = Decoded(operation: byte, to: Address, value: nat, data: bytes)

  const OP_DELEGATE_CALL: byte := 1

  function DecodeCall(c: Call): Result<Decoded> {
    if !c.to.Given? then Err("call target")
    else if c.value.Malformed? then Err("call value is not a decimal integer")
    else if c.value.Given? && c.value.value < 0 then Err("call value is negative")
    else if c.data.Malformed? then Err("call data")
    else Ok(Decoded(c.operation, c.to.value, if c.value.Given? then c.value.value else 0,
                    if c.data.Given? then c.data.value else []))
  }

  // Both encodings take a call with a recipient, a value left empty or within a
  // word, and data that is not malformed.
  predicate Encodable(c: Call) {
    && c.to.Given?
    && (c.value.Empty? || (c.value.Given? && 0 <= c.value.value < Pow256(32)))
    && !c.data.Malformed?
  }

  // The pieces say what the call says: an empty value is none, as is empty data.
  ghost predicate Says(d: Decoded, c: Call)
    requires Encodable(c)
  {
    && d.operation == c.operation
    && d.to == c.to.value
    && d.value == (if c.value.Given? then c.value.value else 0)
    && d.data == (if c.data.Given? then c.data.value else [])
  }

  function Pieces(c: Call): (d: Decoded)
    requires Encodable(c)
    ensures Says(d, c)
  {
    Decoded(c.operation, c.to.value, if c.value.Given? then c.value.value else 0, if c.data.Given? then c.data.value else [])
  }

  lemma {:induction false} ZeroFits()
    ensures 0 < Pow256(32)
  {
  }

  // Decoding and the word's width refuse exactly the others, and change nothing.
  lemma {:induction false} DecodesExactly(c: Call)
    ensures DecodeCall(c).Ok? && UintWord(Some(DecodeCall(c).value.value)).Ok? <==> Encodable(c)
    ensures Encodable(c) ==> DecodeCall(c) == Ok(Pieces(c))
  {
    var value := if c.value.Given? then c.value.value else 0;
    ZeroFits();
    UintWordFits(Some(value));
    assert DecodeCall(c).Ok? ==> DecodeCall(c).value.value == value;
  }

  function DecodedCalls(calls: seq<Call>): (ds: seq<Decoded>)
    requires forall i :: 0 <= i < |calls| ==> Encodable(calls[i])
    ensures |ds| == |calls|
    ensures forall i :: 0 <= i < |calls| ==> ds[i] == Pieces(calls[i])
  {
    seq(|calls|, i requires 0 <= i < |calls| => assert Encodable(calls[i]); Pieces(calls[i]))
  }

  // A proxy reserves operation zero for "invalid".
  function ProxyCode(operation: byte): byte { (operation + 1) % 256 }

  function CallValue(d: Decoded): Value {
    VTuple([VWord(Padded(ProxyCode(d.operation), 32)), VWord(Zeros(12) + d.to), VWord(Padded(d.value, 32)), VBytes(d.data)])
  }

  function CallValues(ds: seq<Decoded>): (vs: seq<Value>)
    ensures |vs| == |ds|
  {
    if ds == [] then [] else [CallValue(ds[0])] + CallValues(ds[1..])
  }

  const CALL_TYPE := TTuple([TWord, TWord, TWord, TBytes])

  // The proxy's calldata as the generic encoder has it: one list of tuples.
  function ProxyCalldata(selector: Selector, ds: seq<Decoded>): bytes {
    selector + Assembled(ArgsOf([VList(CallValues(ds))]))
  }

  // A call laid out by hand: four words of head, then the data.
  function Element(d: Decoded): bytes {
    Padded(ProxyCode(d.operation), 32) + (Zeros(12) + d.to) + Padded(d.value, 32) + LengthWord(128) + BytesArg(d.data).tail
  }

  // Laid out by hand or by the generic encoder, a call is the same bytes.
  lemma {:induction false} ElementIsTuple(d: Decoded)
    ensures ArgOf(CallValue(d)) == Arg([], Element(d), true)
  {
    var w0, w1, w2, t := WordArg(Padded(ProxyCode(d.operation), 32)), WordArg(Zeros(12) + d.to), WordArg(Padded(d.value, 32)), BytesArg(d.data);
    var vs := CallValue(d).members;
    var args := [w0, w1, w2, t];
    assert vs[1..] == [vs[1], vs[2], vs[3]] && vs[1..][1..] == [vs[2], vs[3]];
    assert vs[1..][1..][1..] == [vs[3]] && [vs[3]][1..] == [];
    assert ArgsOf([vs[3]]) == [t];
    assert ArgsOf([vs[2], vs[3]]) == [w2, t];
    assert ArgsOf([vs[1], vs[2], vs[3]]) == [w1, w2, t];
    assert ArgsOf(vs) == args;
    FourArgs(w0, w1, w2, t);
    assert args[3].dynamic;
  }

  lemma {:induction false} FrontStatic(a: Arg, args: seq<Arg>, offset: nat)
    requires !a.dynamic
    ensures HeadSize([a] + args) == |a.head| + HeadSize(args)
    ensures Tails([a] + args) == Tails(args)
    ensures Heads([a] + args, offset) == a.head + Heads(args, offset)
  {
    assert ([a] + args)[1..] == args;
    assert [] + Tails(args) == Tails(args);
  }

  lemma {:induction false} LastDynamic(t: Arg, offset: nat)
    requires t.dynamic
    ensures HeadSize([t]) == 32 && Tails([t]) == t.tail && Heads([t], offset) == LengthWord(offset)
  {
    assert [t][1..] == [];
  }

  lemma {:induction false} FourArgs(w0: Arg, w1: Arg, w2: Arg, t: Arg)
    requires !w0.dynamic && !w1.dynamic && !w2.dynamic && t.dynamic
    requires |w0.head| == |w1.head| == |w2.head| == 32
    ensures Assembled([w0, w1, w2, t]) == w0.head + w1.head + w2.head + LengthWord(128) + t.tail
  {
    LastDynamic(t, 128);
    FrontStatic(w2, [t], 128);
    FrontStatic(w1, [w2] + [t], 128);
    FrontStatic(w0, [w1] + ([w2] + [t]), 128);
    assert [w0, w1, w2, t] == [w0] + ([w1] + ([w2] + [t]));
    Regroup(w1.head, w2.head, LengthWord(128));
    Regroup(w0.head, w1.head + w2.head, LengthWord(128));
    Regroup(w0.head, w1.head, w2.head);
  }

  // The elements as arguments of the list.
  function ElementArgs(ds: seq<Decoded>): (args: seq<Arg>)
    ensures |args| == |ds| && forall i :: 0 <= i < |ds| ==> args[i] == Arg([], Element(ds[i]), true)
  {
    seq(|ds|, i requires 0 <= i < |ds| => Arg([], Element(ds[i]), true))
  }

  lemma {:induction false} ElementsAreTuples(ds: seq<Decoded>)
    ensures ArgsOf(CallValues(ds)) == ElementArgs(ds)
  {
    if ds != [] {
      ElementIsTuple(ds[0]);
      ElementsAreTuples(ds[1..]);
      assert CallValues(ds)[1..] == CallValues(ds[1..]);
      assert ElementArgs(ds) == [Arg([], Element(ds[0]), true)] + ElementArgs(ds[1..]);
    }
  }

  lemma {:induction false} OneDynamic(a: Arg)
    requires a.dynamic
    ensures Assembled([a]) == LengthWord(32) + a.tail
  {
    LastDynamic(a, 32);
  }

  lemma {:induction false} AllDynamicHead(args: seq<Arg>)
    requires forall i :: 0 <= i < |args| ==> args[i].dynamic
    ensures HeadSize(args) == 32 * |args|
  {
    if args != [] {
      AllDynamicHead(args[1..]);
    }
  }

  lemma {:induction false} ElementParts(d: Decoded)
    ensures Element(d) ==
      (Padded(ProxyCode(d.operation), 32) + (Zeros(12) + d.to) + Padded(d.value, 32) + LengthWord(128))
      + LengthWord(|d.data|) + d.data + Zeros(if |d.data| % 32 == 0 then 0 else 32 - |d.data| % 32)
  {
    var front := Padded(ProxyCode(d.operation), 32) + (Zeros(12) + d.to) + Padded(d.value, 32) + LengthWord(128);
    var pad := Zeros(if |d.data| % 32 == 0 then 0 else 32 - |d.data| % 32);
    Regroup(front, LengthWord(|d.data|) + d.data, pad);
    Regroup(front, LengthWord(|d.data|), d.data);
  }

  method EncodeElement(c: Call) returns (element: Result<bytes>)
    ensures element.Ok? <==> Encodable(c)
    ensures element.Ok? ==> element.value == Element(Pieces(c))
  {
    DecodesExactly(c);
    var d :- DecodeCall(c);
    var amount :- UintWord(Some(d.value));
    UintWordFits(Some(d.value));
    var four := Uint64(128);
    var length := Uint64(AsUint64(|d.data|));
    var out: bytes := Padded(ProxyCode(d.operation), 32) + (Zeros(12) + d.to) + amount + four;
    out := out + length;
    out := out + d.data;
    var pad := |d.data| % 32;
    if pad != 0 {
      out := out + Zeros(32 - pad);
    } else {
      assert out + Zeros(0) == out;
    }
    ElementParts(d);
    element := Ok(out);
  }

  // One element laid: its offset word goes to the head, its bytes to the body.
  lemma {:induction false} LaidOne(args: seq<Arg>, i: nat, element: bytes, size: nat)
    requires i < |args| && args[i] == Arg([], element, true)
    ensures Heads(args[..i + 1], size) == Heads(args[..i], size) + LengthWord(size + |Tails(args[..i])|)
    ensures Tails(args[..i + 1]) == Tails(args[..i]) + element
  {
    NextArg(args, i, size);
  }

  // The array's own head, one offset per element, and the elements after it.
  method LayElements(elements: seq<bytes>, ghost args: seq<Arg>) returns (head: bytes, body: bytes)
    requires |args| == |elements| && forall i :: 0 <= i < |args| ==> args[i] == Arg([], elements[i], true)
    ensures head + body == Assembled(args)
  {
    AllDynamicHead(args);
    ghost var size := HeadSize(args);
    var offset := AsUint64(32 * |elements|);
    head, body := [], [];
    for i := 0 to |elements|
      invariant offset == AsUint64(size + |body|)
      invariant head == Heads(args[..i], size) && body == Tails(args[..i])
    {
      LaidOne(args, i, elements[i], size);
      WrapSpells(size + |body|);
      WrapAdds(size + |body|, |elements[i]|);
      var word := Uint64(offset);
      head := head + word;
      offset := AsUint64(offset + |elements[i]|);
      body := body + elements[i];
    }
    assert args[..|elements|] == args;
  }

  // The proxy's calldata: refused when empty or when a call does not encode,
  // and otherwise byte for byte what the generic encoder makes of the calls.
  method EncodeProxyCalls(calls: seq<Call>, selector: Selector) returns (out: Result<bytes>)
    ensures out.Ok? <==> calls != [] && forall i :: 0 <= i < |calls| ==> Encodable(calls[i])
    ensures out.Ok? ==> out.value == ProxyCalldata(selector, DecodedCalls(calls))
  {
    if calls == [] {
      return Err("a transaction needs at least one call");
    }
    var elements: seq<bytes> := [];
    for i := 0 to |calls|
      invariant |elements| == i
      invariant forall k :: 0 <= k < i ==> Encodable(calls[k]) && elements[k] == Element(Pieces(calls[k]))
    {
      var element := EncodeElement(calls[i]);
      if element.Err? {
        return Err(element.error);
      }
      elements := elements + [element.value];
    }
    ghost var args := ElementArgs(DecodedCalls(calls));
    var head, body := LayElements(elements, args);
    var arrayOffset := Uint64(32);
    var length := Uint64(AsUint64(|calls|));
    out := Ok(selector + arrayOffset + length + head + body);
    ProxyLayout(selector, DecodedCalls(calls));
    assert selector + arrayOffset + length + head + body == selector + (arrayOffset + (length + (head + body)));
  }

  lemma {:induction false} ProxyLayout(selector: Selector, ds: seq<Decoded>)
    ensures ProxyCalldata(selector, ds) == selector + (LengthWord(32) + (LengthWord(|ds|) + Assembled(ElementArgs(ds))))
  {
    var args := ElementArgs(ds);
    ElementsAreTuples(ds);
    OneDynamic(ListArg(args));
    var v := VList(CallValues(ds));
    assert [v][1..] == [];
    assert ArgsOf([v]) == [ListArg(args)];
  }
}
