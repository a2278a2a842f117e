// The unpadded batch a multisend contract walks, and the calldata it rides in.

module Multisend {
  import opened Bytes
  import opened Wrappers
  import opened Abi
  import opened AbiCodec
  import opened Relayer

  // Operation, target, value, length of the data, data; no padding anywhere.
  function Entry(d: Decoded): bytes {
    [d.operation] + d.to + Padded(d.value, 32) + Padded(|d.data|, 32) + d.data
  }

  function Packed(ds: seq<Decoded>): bytes {
    if ds == [] then [] else Entry(ds[0]) + Packed(ds[1..])
  }

  lemma {:induction false} PackedLast(ds: seq<Decoded>, d: Decoded)
    ensures Packed(ds + [d]) == Packed(ds) + Entry(d)
  {
    if ds == [] {
      assert [] + [d] == [d] && [d][1..] == [];
    } else {
      assert (ds + [d])[1..] == ds[1..] + [d];
      PackedLast(ds[1..], d);
    }
  }

  method EncodeEntry(c: Call) returns (entry: Result<bytes>)
    ensures entry.Ok? <==> Encodable(c)
    ensures entry.Ok? ==> entry.value == Entry(Pieces(c))
  {
    DecodesExactly(c);
    var d :- DecodeCall(c);
    UintWordFits(Some(d.value));
    PackedUintFits(d.value, 32);
    var amount :- PackedUint(d.value, 32);
    var out: bytes := [d.operation];
    out := out + d.to;
    out := out + amount;
    out := out + Padded(|d.data|, 32);
    entry := Ok(out + d.data);
  }

  method PackMultisend(calls: seq<Call>) returns (out: Result<bytes>)
    ensures out.Ok? <==> forall i :: 0 <= i < |calls| ==> Encodable(calls[i])
    ensures out.Ok? ==> out.value == Packed(DecodedCalls(calls))
  {
    var packed: bytes := [];
    ghost var ds: seq<Decoded> := [];
    for i := 0 to |calls|
      invariant |ds| == i && packed == Packed(ds)
      invariant forall k :: 0 <= k < i ==> Encodable(calls[k]) && ds[k] == Pieces(calls[k])
    {
      var entry := EncodeEntry(calls[i]);
      if entry.Err? {
        return Err(entry.error);
      }
      PackedLast(ds, Pieces(calls[i]));
      packed := packed + entry.value;
      ds := ds + [Pieces(calls[i])];
    }
    assert ds == DecodedCalls(calls);
    out := Ok(packed);
  }

  // The contract's walk: each length says where the next entry starts.
  function Walk(d: bytes): Option<seq<Decoded>>
    decreases |d|
  {
    if d == [] then Some([])
    else if |d| < 85 then None
    else
      var size := Bytes.Value(d[53..85]);
      if |d| < 85 + size then None
      else
        var others := Walk(d[85 + size..]);
        if others.None? then None
        else Some([Decoded(d[0], d[1..21], Bytes.Value(d[21..53]), d[85..85 + size])] + others.value)
  }

  ghost predicate Carried(ds: seq<Decoded>) {
    forall i :: 0 <= i < |ds| ==> ds[i].value < Pow256(32) && |ds[i].data| < Pow256(32)
  }

  // Where five pieces put end to end stand.
  lemma {:induction false} FivePieces(op: byte, to: bytes, value: bytes, size: bytes, data: bytes, rest: bytes)
    requires |to| == 20 && |value| == |size| == 32
    ensures var e := [op] + to + value + size + data + rest;
      && |e| >= 85 + |data| && e[0] == op && e[1..21] == to && e[21..53] == value && e[53..85] == size
      && e[85..85 + |data|] == data && e[85 + |data|..] == rest
  {
    var e := [op] + to + value + size + data + rest;
    assert e[1..21] == to;
    assert e[21..53] == value;
    assert e[53..85] == size;
  }

  lemma {:induction false} EntryFields(d: Decoded, rest: bytes)
    requires d.value < Pow256(32) && |d.data| < Pow256(32)
    ensures var e := Entry(d) + rest;
      && |e| >= 85 && e[0] == d.operation && e[1..21] == d.to
      && Bytes.Value(e[21..53]) == d.value && Bytes.Value(e[53..85]) == |d.data|
      && |e| >= 85 + |d.data| && e[85..85 + |d.data|] == d.data && e[85 + |d.data|..] == rest
  {
    FivePieces(d.operation, d.to, Padded(d.value, 32), Padded(|d.data|, 32), d.data, rest);
    PaddedValue(d.value, 32);
    PaddedValue(|d.data|, 32);
  }

  lemma {:induction false} WalkEntry(d: Decoded, rest: bytes)
    requires d.value < Pow256(32) && |d.data| < Pow256(32) && Walk(rest).Some?
    ensures Walk(Entry(d) + rest) == Some([d] + Walk(rest).value)
  {
    EntryFields(d, rest);
  }

  // The walk recovers exactly the calls that were packed, in order.
  lemma {:induction false} WalkPacked(ds: seq<Decoded>)
    requires Carried(ds)
    ensures Walk(Packed(ds)) == Some(ds)
  {
    if ds != [] {
      assert Carried(ds[1..]) by {
        assert forall i :: 0 <= i < |ds[1..]| ==> ds[1..][i] == ds[i + 1];
      }
      WalkPacked(ds[1..]);
      WalkEntry(ds[0], Packed(ds[1..]));
      assert ds == [ds[0]] + ds[1..];
    }
  }

  lemma {:induction false} EntryWritten(d: bytes)
    requires |d| >= 85 && |d| >= 85 + Bytes.Value(d[53..85])
    ensures var size := Bytes.Value(d[53..85]);
      Entry(Decoded(d[0], d[1..21], Bytes.Value(d[21..53]), d[85..85 + size])) == d[..85 + size]
  {
    ValuePadded(d[21..53]);
    ValuePadded(d[53..85]);
    var size := Bytes.Value(d[53..85]);
    assert d[..85 + size] == [d[0]] + d[1..21] + d[21..53] + d[53..85] + d[85..85 + size];
  }

  // Nothing walks but what packing writes.
  lemma {:induction false} PackedWalk(d: bytes)
    requires Walk(d).Some?
    ensures Packed(Walk(d).value) == d
    decreases |d|
  {
    if d != [] {
      var size := Bytes.Value(d[53..85]);
      PackedWalk(d[85 + size..]);
      EntryWritten(d);
      assert Walk(d).value[1..] == Walk(d[85 + size..]).value;
      assert d == d[..85 + size] + d[85 + size..];
    }
  }

  // Calldata for a function of one bytes argument.
  function BytesCalldata(selector: Selector, payload: bytes): bytes {
    selector + Assembled([BytesArg(payload)])
  }

  method EncodeBytesCall(selector: Selector, payload: bytes) returns (out: bytes)
    ensures out == BytesCalldata(selector, payload)
  {
    var offset := Uint64(32);
    var length := Uint64(AsUint64(|payload|));
    out := selector + offset;
    out := out + length;
    out := out + payload;
    var pad := |payload| % 32;
    if pad != 0 {
      out := out + Zeros(32 - pad);
    }
    OneDynamic(BytesArg(payload));
    assert out == selector + (offset + BytesArg(payload).tail);
  }

  // The single call a Safe performs for a list of them. `multisend` is the
  // batching contract of the chain, where there is one.
  method Aggregate(calls: seq<Call>, multisend: Option<Address>, selector: Selector) returns (out: Result<Call>)
    ensures |calls| == 0 ==> out.Err?
    ensures |calls| == 1 ==> out == Ok(calls[0])
    ensures |calls| > 1 ==>
      (out.Ok? <==> multisend.Some? && forall i :: 0 <= i < |calls| ==> Encodable(calls[i]))
    ensures |calls| > 1 && out.Ok? ==>
      out.value == Call(Given(multisend.value), Given(0),
                        Given(BytesCalldata(selector, Packed(DecodedCalls(calls)))), 1)
  {
    if |calls| == 0 {
      return Err("a transaction needs at least one call");
    }
    if |calls| == 1 {
      return Ok(calls[0]);
    }
    if multisend.None? {
      return Err("batching needs a multisend contract");
    }
    var packed := PackMultisend(calls);
    if packed.Err? {
      return Err(packed.error);
    }
    var data := EncodeBytesCall(selector, packed.value);
    out := Ok(Call(Given(multisend.value), Given(0), Given(data), OP_DELEGATE_CALL));
  }

  // A list of calls whose values passed the encoder and whose bytes fit is one
  // the walk can carry.
  lemma {:induction false} PackedCarries(ds: seq<Decoded>)
    requires |Packed(ds)| < UINT64_LIMIT
    requires forall i :: 0 <= i < |ds| ==> ds[i].value < Pow256(32)
    ensures Carried(ds)
  {
    if ds != [] {
      PackedCarries(ds[1..]);
      Uint64Fits(|ds[0].data|);
      forall i | 0 <= i < |ds| ensures |ds[i].data| < Pow256(32) {
        if i > 0 {
          assert ds[i] == ds[1..][i - 1];
        }
      }
    }
  }

  lemma {:induction false} EncodableFits(calls: seq<Call>)
    requires forall i :: 0 <= i < |calls| ==> Encodable(calls[i])
    ensures forall i :: 0 <= i < |calls| ==> DecodedCalls(calls)[i].value < Pow256(32)
  {
    forall i | 0 <= i < |calls| ensures DecodedCalls(calls)[i].value < Pow256(32) {
      assert Encodable(calls[i]) && Says(Pieces(calls[i]), calls[i]);
    }
  }

  // Decode the calldata's one bytes argument, walk it: the calls come back, in
  // order, each with its own operation, target, value and data.
  lemma {:induction false} BatchArrives(calls: seq<Call>, selector: Selector)
    requires forall i :: 0 <= i < |calls| ==> Encodable(calls[i])
    requires |Packed(DecodedCalls(calls))| < UINT64_LIMIT
    ensures var ds := DecodedCalls(calls); var data := BytesCalldata(selector, Packed(ds));
      && data[..4] == selector && DecodeSeq([TBytes], data[4..], 0, 0) == Some([VBytes(Packed(ds))])
      && Walk(Packed(ds)) == Some(ds)
      && |ds| == |calls| && forall i :: 0 <= i < |calls| ==> Says(ds[i], calls[i])
  {
    var ds := DecodedCalls(calls);
    EncodableFits(calls);
    PackedCarries(ds);
    WalkPacked(ds);
    OneBytesDecodes(Packed(ds));
    assert BytesCalldata(selector, Packed(ds))[4..] == Assembled([BytesArg(Packed(ds))]);
  }

  lemma {:induction false} OneBytesDecodes(b: bytes)
    requires |b| < UINT64_LIMIT
    ensures DecodeSeq([TBytes], Assembled([BytesArg(b)]), 0, 0) == Some([VBytes(b)])
  {
    var d := Assembled([BytesArg(b)]);
    OneDynamic(BytesArg(b));
    assert StandsAt(d, 0, LengthWord(32)) && StandsAt(d, 32, BytesArg(b).tail);
    LengthWordValue(32);
    DecodeBytes(b, d, 32);
    assert [TBytes][1..] == [];
    assert DecodeSeq([], d, 0, 32) == Some([]);
    DynamicFirst([TBytes], d, 0, 0, 32, VBytes(b), []);
    assert [VBytes(b)] + [] == [VBytes(b)];
  }

  lemma {:induction false} CallsTyped(ds: seq<Decoded>)
    requires forall i :: 0 <= i < |ds| ==> |Element(ds[i])| < UINT64_LIMIT
    ensures HaveTypes(CallValues(ds), Repeat(CALL_TYPE, |ds|))
    ensures AllSized(CallValues(ds))
  {
    if ds != [] {
      CallTyped(ds[0]);
      CallsTyped(ds[1..]);
      assert CallValues(ds)[1..] == CallValues(ds[1..]);
      assert Repeat(CALL_TYPE, |ds|)[1..] == Repeat(CALL_TYPE, |ds| - 1);
    }
  }

  lemma {:induction false} CallTyped(d: Decoded)
    requires |Element(d)| < UINT64_LIMIT
    ensures HasType(CallValue(d), CALL_TYPE) && Sized(CallValue(d))
  {
    var vs, ts := CallValue(d).members, CALL_TYPE.members;
    assert vs[1..][1..][1..] == [vs[3]] && ts[1..][1..][1..] == [ts[3]];
    assert [vs[3]][1..] == [] && [ts[3]][1..] == [];
    assert HaveTypes([], []) && HasType(vs[3], ts[3]) && HaveTypes([vs[3]], [ts[3]]);
    assert HaveTypes(vs[1..][1..], ts[1..][1..]);
    assert HaveTypes(vs[1..], ts[1..]);
    assert AllSized([]) && Sized(vs[3]) && AllSized([vs[3]]);
    assert AllSized(vs[1..][1..]);
    assert AllSized(vs[1..]);
    ElementIsTuple(d);
    TupleStands(ArgsOf(vs));
  }

  lemma {:induction false} ElementInTails(ds: seq<Decoded>, i: nat)
    requires i < |ds|
    ensures |Element(ds[i])| <= |Tails(ElementArgs(ds))|
  {
    var args := ElementArgs(ds);
    assert args == args[..i] + args[i..] && args[i..][0] == args[i];
    TailsSplit(args[..i], args[i..]);
  }

  // The proxy's calldata reads back, offset by offset, as the values it carries.
  lemma {:induction false} ProxyValuesArrive(selector: Selector, ds: seq<Decoded>)
    requires |ProxyCalldata(selector, ds)| < UINT64_LIMIT
    ensures DecodeSeq([TList(CALL_TYPE)], ProxyCalldata(selector, ds)[4..], 0, 0) == Some([VList(CallValues(ds))])
  {
    var v, args := VList(CallValues(ds)), ElementArgs(ds);
    ElementsAreTuples(ds);
    assert [v][1..] == [] && [TList(CALL_TYPE)][1..] == [];
    assert ArgsOf([v]) == [ListArg(args)];
    OneDynamic(ListArg(args));
    ListLength(args);
    AllDynamicHead(args);
    forall i | 0 <= i < |ds| ensures |Element(ds[i])| < UINT64_LIMIT {
      ElementInTails(ds, i);
    }
    CallsTyped(ds);
    assert HaveTypes([], []) && AllSized([]);
    assert HaveTypes([v], [TList(CALL_TYPE)]);
    assert AllSized([v]);
    ArgumentsRoundTrip([v], [TList(CALL_TYPE)], []);
    assert Assembled(ArgsOf([v])) + [] == Assembled(ArgsOf([v]));
  }

  // The tuple a proxy reads for a call: its operation's code, one more than the
  // operation, then its target, its value and its data.
  ghost predicate TupleOf(v: Value, c: Call)
    requires Encodable(c)
  {
    && v.VTuple? && |v.members| == 4
    && v.members[0].VWord? && Bytes.Value(v.members[0].word) == (c.operation as int + 1) % 256
    && v.members[1] == VWord(Zeros(12) + c.to.value)
    && v.members[2].VWord? && Bytes.Value(v.members[2].word) == (if c.value.Given? then c.value.value else 0)
    && v.members[3] == VBytes(if c.data.Given? then c.data.value else [])
  }

  lemma {:induction false} ByteBack(b: byte)
    ensures Bytes.Value(Padded(b, 32)) == b
  {
    assert Pow256(1) == 256;
    Pow256Grows(1, 32);
    PaddedValue(b, 32);
  }

  lemma {:induction false} TupleMade(code: Word, to: Word, value: Word, data: bytes, c: Call)
    requires Encodable(c) && Bytes.Value(code) == (c.operation as int + 1) % 256 && to == Zeros(12) + c.to.value
    requires Bytes.Value(value) == if c.value.Given? then c.value.value else 0
    requires data == if c.data.Given? then c.data.value else []
    ensures TupleOf(VTuple([VWord(code), VWord(to), VWord(value), VBytes(data)]), c)
  {
  }

  lemma {:induction false} CallCarried(d: Decoded, c: Call)
    requires Encodable(c) && Says(d, c)
    ensures TupleOf(CallValue(d), c)
  {
    ByteBack(ProxyCode(d.operation));
    PaddedValue(d.value, 32);
    TupleMade(Padded(ProxyCode(d.operation), 32), Zeros(12) + d.to, Padded(d.value, 32), d.data, c);
  }

  // Decode the proxy's calldata: a tuple for every call, in order, with its own
  // operation, target, value and data.
  lemma {:induction false} ProxyCallsArrive(calls: seq<Call>, selector: Selector)
    requires forall i :: 0 <= i < |calls| ==> Encodable(calls[i])
    requires |ProxyCalldata(selector, DecodedCalls(calls))| < UINT64_LIMIT
    ensures var ds := DecodedCalls(calls); var vs := CallValues(ds);
      && ProxyCalldata(selector, ds)[..4] == selector
      && DecodeSeq([TList(CALL_TYPE)], ProxyCalldata(selector, ds)[4..], 0, 0) == Some([VList(vs)])
      && |vs| == |calls| && forall i :: 0 <= i < |calls| ==> TupleOf(vs[i], calls[i])
  {
    var ds := DecodedCalls(calls);
    ProxyValuesArrive(selector, ds);
    forall i | 0 <= i < |calls| ensures TupleOf(CallValues(ds)[i], calls[i]) {
      ValueAt(ds, i);
      CallCarried(ds[i], calls[i]);
    }
  }

  lemma {:induction false} ValueAt(ds: seq<Decoded>, i: nat)
    requires i < |ds|
    ensures CallValues(ds)[i] == CallValue(ds[i])
  {
    if i > 0 {
      ValueAt(ds[1..], i - 1);
    }
  }
}
