// Type-2 transactions: onchain/transaction.go, against EIP-2718 and EIP-1559.

module Transaction {
  import opened Bytes
  import opened Wrappers
  import opened Rlp

  // A recipient field after parsing: left empty, not an address, or an account.
  datatype Recipient = Deploy | Malformed | Account(address: Address)

  const TX_TYPE: byte := 0x02
  const HALF_CURVE_ORDER: nat := 0x7fffffffffffffffffffffffffffffff5d576e7357a4501ddfe92f46681b20a0

  datatype Tx = Tx(chainID: Option<int>, nonce: uint64, tip: Option<int>, maxFee: Option<int>,
                   gas: uint64, to: Recipient, value: Option<int>, data: bytes)

  // The nine encoded items every type-2 transaction is defined over.
  function Fields(t: Tx): Result<seq<bytes>> {
    if t.chainID.None? || t.chainID.value <= 0 then Err("transaction needs a positive chain id")
    else if t.maxFee.None? || t.tip.None? then Err("transaction needs both fee fields")
    else if t.maxFee.value < t.tip.value then Err("max fee is below the priority fee")
    else if t.gas == 0 then Err("transaction needs a gas limit")
    else
      var chainID :- Uint(t.chainID);
      var tip :- Uint(t.tip);
      var maxFee :- Uint(t.maxFee);
      var value :- Uint(t.value);
      if t.to.Malformed? then Err("bad recipient")
      else
        var to: bytes := if t.to.Account? then t.to.address else [];
        Ok([chainID, StringOf(Minimal(t.nonce)), tip, maxFee, StringOf(Minimal(t.gas)), StringOf(to),
            value, StringOf(t.data), ListOf([])])
  }

  function Unsigned(t: Tx): Result<bytes> {
    var fields :- Fields(t);
    Ok([TX_TYPE] + ListOf(Concat(fields)))
  }

  // The r, s and v of a signature as the items a typed transaction carries.
  function SplitSignature(sig: bytes): Result<(bytes, bytes, bytes)> {
    if |sig| != 65 then Err("signature length")
    else if sig[64] != 27 && sig[64] != 28 then Err("signature v")
    else
      var r, s := Value(sig[..32]), Value(sig[32..64]);
      if s > HALF_CURVE_ORDER then Err("signature s is not canonical")
      else if r == 0 || s == 0 then Err("signature has a zero component")
      else Ok((StringOf(Minimal(sig[64] - 27)), StringOf(Minimal(r)), StringOf(Minimal(s))))
  }

  // The encoded signed transaction, given the signature a signer returned.
  function Signed(t: Tx, sig: bytes): Result<bytes> {
    var fields :- Fields(t);
    var items :- SplitSignature(sig);
    Ok([TX_TYPE] + ListOf(Concat(fields + [items.0, items.1, items.2])))
  }

  function OrZero(x: Option<int>): int { if x.Some? then x.value else 0 }

  // What an accepted transaction says, field by field, as an item tree.
  function Items(t: Tx): (items: seq<Item>)
    requires Fields(t).Ok?
    ensures |items| == 9
  {
    [Str(Minimal(t.chainID.value)), Str(Minimal(t.nonce)), Str(Minimal(t.tip.value)), Str(Minimal(t.maxFee.value)),
     Str(Minimal(t.gas)), Str(if t.to.Account? then t.to.address else []), Str(Minimal(OrZero(t.value))),
     Str(t.data), Lst([])]
  }

  function SignatureItems(sig: bytes): (items: seq<Item>)
    requires |sig| == 65 && sig[64] >= 27
    ensures |items| == 3 && forall i :: 0 <= i < 3 ==> items[i].Str?
  {
    [Str(Minimal(sig[64] - 27)), Str(Minimal(Value(sig[..32]))), Str(Minimal(Value(sig[32..64])))]
  }

  // The 65 bytes a parity, r and s came from.
  function Rebuilt(items: seq<Item>): bytes
    requires |items| == 3 && forall i :: 0 <= i < 3 ==> items[i].Str?
  {
    Padded(Value(items[1].text), 32) + Padded(Value(items[2].text), 32) + [(27 + Value(items[0].text)) % 256]
  }

  ghost predicate Encodes(parts: seq<bytes>, items: seq<Item>) {
    |parts| == |items| && forall i :: 0 <= i < |parts| ==> parts[i] == Encode(items[i])
  }

  lemma {:induction false} FieldsEncode(t: Tx)
    requires Fields(t).Ok?
    ensures Encodes(Fields(t).value, Items(t))
  {
    var parts, items := Fields(t).value, Items(t);
    assert Minimal(0) == [] && EncodeAll([]) == [];
    assert parts[0] == Encode(items[0]) && parts[1] == Encode(items[1]) && parts[2] == Encode(items[2]);
    assert parts[3] == Encode(items[3]) && parts[4] == Encode(items[4]) && parts[5] == Encode(items[5]);
    assert parts[6] == Encode(items[6]) && parts[7] == Encode(items[7]) && parts[8] == Encode(items[8]);
    forall i | 0 <= i < 9 ensures parts[i] == Encode(items[i]) {
    }
  }

  lemma {:induction false} EncodesAll(parts: seq<bytes>, items: seq<Item>)
    requires Encodes(parts, items)
    ensures Concat(parts) == EncodeAll(items)
    decreases |parts|
  {
    if parts != [] {
      EncodesAll(parts[1..], items[1..]);
    }
  }

  ghost predicate Flat(items: seq<Item>) {
    forall i :: 0 <= i < |items| ==> items[i].Str? || items[i] == Lst([])
  }

  // Strings and empty lists that fit together fit one by one.
  lemma {:induction false} FlatSized(items: seq<Item>)
    requires Flat(items)
    requires |EncodeAll(items)| < UINT64_LIMIT
    ensures AllSized(items)
    decreases |items|
  {
    if items != [] {
      FlatSized(items[1..]);
      assert EncodeAll([]) == [];
    }
  }

  lemma {:induction false} FlatDecodes(parts: seq<bytes>, items: seq<Item>, rest: bytes)
    requires Encodes(parts, items)
    requires Flat(items)
    requires |Concat(parts)| < UINT64_LIMIT
    ensures Decode(ListOf(Concat(parts)) + rest) == Some((Lst(items), rest))
  {
    EncodesAll(parts, items);
    FlatSized(items);
    DecodeEncode(Lst(items), rest);
  }

  // The bytes a signature covers read back as the nine items and nothing more.
  lemma {:induction false} UnsignedDecodes(t: Tx)
    requires Unsigned(t).Ok? && |Unsigned(t).value| < UINT64_LIMIT
    ensures Unsigned(t).value[0] == TX_TYPE
    ensures Decode(Unsigned(t).value[1..]) == Some((Lst(Items(t)), []))
  {
    FieldsEncode(t);
    var body := ListOf(Concat(Fields(t).value));
    assert Unsigned(t).value[1..] == body && body + [] == body;
    FlatDecodes(Fields(t).value, Items(t), []);
  }

  // An item that spells a number, with no leading zero.
  ghost predicate Spells(item: Item, n: int) {
    item.Str? && Value(item.text) == n && (item.text == [] || item.text[0] != 0)
  }

  // The nine items of EIP-1559, in its order: chain id, nonce, priority fee, max
  // fee, gas limit, destination, amount, data, access list.
  ghost predicate Carries(items: seq<Item>, t: Tx) {
    && |items| >= 9
    && t.chainID.Some? && Spells(items[0], t.chainID.value)
    && Spells(items[1], t.nonce)
    && t.tip.Some? && Spells(items[2], t.tip.value)
    && t.maxFee.Some? && Spells(items[3], t.maxFee.value)
    && Spells(items[4], t.gas)
    && items[5] == Str(if t.to.Account? then t.to.address else [])
    && Spells(items[6], if t.value.Some? then t.value.value else 0)
    && items[7] == Str(t.data)
    && items[8] == Lst([])
  }

  lemma {:induction false} MinimalSpells(n: nat)
    ensures Spells(Str(Minimal(n)), n)
  {
    ValueMinimal(n);
  }

  lemma {:induction false} ItemsCarry(t: Tx)
    requires Fields(t).Ok?
    ensures Carries(Items(t), t)
  {
    Acceptance(t);
    MinimalSpells(t.chainID.value);
    MinimalSpells(t.nonce);
    MinimalSpells(t.tip.value);
    MinimalSpells(t.maxFee.value);
    MinimalSpells(t.gas);
    MinimalSpells(OrZero(t.value));
  }

  // What is signed: the byte 2, and one list of those nine items.
  lemma {:induction false} UnsignedReads(t: Tx)
    requires Unsigned(t).Ok? && |Unsigned(t).value| < UINT64_LIMIT
    ensures Unsigned(t).value != [] && Unsigned(t).value[0] == 2
    ensures exists items :: Decode(Unsigned(t).value[1..]) == Some((Lst(items), [])) && |items| == 9 && Carries(items, t)
  {
    UnsignedDecodes(t);
    ItemsCarry(t);
  }

  // What is broadcast: the same, and the parity of the signature, its r and its s.
  lemma {:induction false} SignedReads(t: Tx, sig: bytes)
    requires Signed(t, sig).Ok? && |Signed(t, sig).value| < UINT64_LIMIT
    ensures |sig| == 65 && Signed(t, sig).value != [] && Signed(t, sig).value[0] == 2
    ensures exists items ::
      && Decode(Signed(t, sig).value[1..]) == Some((Lst(items), []))
      && |items| == 12 && Carries(items, t)
      && Spells(items[9], if sig[64] == 27 then 0 else 1)
      && Spells(items[10], Value(sig[..32])) && Spells(items[11], Value(sig[32..64]))
  {
    SignedDecodes(t, sig);
    SignatureAcceptance(sig);
    ItemsCarry(t);
    SignatureSpelled(sig);
    CarriesMore(Items(t), SignatureItems(sig), t);
  }

  lemma {:induction false} SignatureSpelled(sig: bytes)
    requires |sig| == 65 && sig[64] in {27, 28}
    ensures var items := SignatureItems(sig);
      && Spells(items[0], if sig[64] == 27 then 0 else 1)
      && Spells(items[1], Value(sig[..32])) && Spells(items[2], Value(sig[32..64]))
  {
    MinimalSpells(sig[64] - 27);
    MinimalSpells(Value(sig[..32]));
    MinimalSpells(Value(sig[32..64]));
  }

  lemma {:induction false} CarriesMore(items: seq<Item>, more: seq<Item>, t: Tx)
    requires Carries(items, t) && |items| == 9 && |more| == 3
    ensures var all := items + more;
      |all| == 12 && Carries(all, t) && all[9] == more[0] && all[10] == more[1] && all[11] == more[2]
  {
  }

  // The bound on s is half the order of secp256k1, rounded down.
  lemma {:induction false} HalfOrder()
    ensures HALF_CURVE_ORDER == 0xffff_ffff_ffff_ffff_ffff_ffff_ffff_fffe_baae_dce6_af48_a03b_bfd2_5e8c_d036_4141 / 2
  {
  }

  ghost predicate SameTransaction(a: Tx, b: Tx) {
    && a.chainID == b.chainID && a.nonce == b.nonce && a.tip == b.tip && a.maxFee == b.maxFee
    && a.gas == b.gas && a.to == b.to && OrZero(a.value) == OrZero(b.value) && a.data == b.data
  }

  lemma {:induction false} SpelledAlike(m: nat, n: nat)
    requires Str(Minimal(m)) == Str(Minimal(n))
    ensures m == n
  {
    ValueMinimal(m);
    ValueMinimal(n);
  }

  lemma {:induction false} SameItems(a: Tx, b: Tx)
    requires Fields(a).Ok? && Fields(b).Ok? && Items(a) == Items(b)
    ensures SameTransaction(a, b)
  {
    var x, y := Items(a), Items(b);
    Acceptance(a);
    Acceptance(b);
    assert forall i :: 0 <= i < 9 ==> x[i] == y[i];
    assert x[0] == y[0] && x[1] == y[1] && x[2] == y[2] && x[3] == y[3] && x[4] == y[4];
    assert x[5] == y[5] && x[6] == y[6] && x[7] == y[7];
    SpelledAlike(a.chainID.value, b.chainID.value);
    SpelledAlike(a.nonce, b.nonce);
    SpelledAlike(a.tip.value, b.tip.value);
    SpelledAlike(a.maxFee.value, b.maxFee.value);
    SpelledAlike(a.gas, b.gas);
    SpelledAlike(OrZero(a.value), OrZero(b.value));
  }

  // One signature cannot cover two transactions: equal bytes, equal fields.
  lemma {:induction false} UnsignedBinds(a: Tx, b: Tx)
    requires Unsigned(a).Ok? && Unsigned(b).Ok? && Unsigned(a).value == Unsigned(b).value
    requires |Unsigned(a).value| < UINT64_LIMIT
    ensures SameTransaction(a, b)
  {
    UnsignedDecodes(a);
    UnsignedDecodes(b);
    SameItems(a, b);
  }

  // A number read from 32 bytes, spelled short and padded again: same bytes.
  lemma {:induction false} HalfRebuilt(half: bytes)
    requires |half| == 32
    ensures Padded(Value(Minimal(Value(half))), 32) == half
  {
    ValueMinimal(Value(half));
    ValuePadded(half);
  }

  lemma {:induction false} ValuesRebuilt(items: seq<Item>, r: bytes, s: bytes, v: byte)
    requires |items| == 3 && forall i :: 0 <= i < 3 ==> items[i].Str?
    requires Value(items[0].text) == v - 27
    requires Padded(Value(items[1].text), 32) == r && Padded(Value(items[2].text), 32) == s
    ensures Rebuilt(items) == r + s + [v]
  {
  }

  lemma {:induction false} PartsRebuilt(items: seq<Item>, r: bytes, s: bytes, v: byte)
    requires |items| == 3 && forall i :: 0 <= i < 3 ==> items[i].Str?
    requires |r| == 32 && |s| == 32 && 27 <= v
    requires items[0].text == Minimal(v - 27) && items[1].text == Minimal(Value(r)) && items[2].text == Minimal(Value(s))
    ensures Rebuilt(items) == r + s + [v]
  {
    HalfRebuilt(r);
    HalfRebuilt(s);
    ValueMinimal(v - 27);
    ValuesRebuilt(items, r, s, v);
  }

  // The three signature items rebuild exactly the signature that was split.
  lemma {:induction false} SignatureRebuilt(sig: bytes)
    requires |sig| == 65 && sig[64] >= 27
    ensures Rebuilt(SignatureItems(sig)) == sig
  {
    PartsRebuilt(SignatureItems(sig), sig[..32], sig[32..64], sig[64]);
    assert sig == sig[..32] + sig[32..64] + [sig[64]];
  }

  lemma {:induction false} SignatureEncodes(sig: bytes)
    requires SplitSignature(sig).Ok?
    ensures var three := SplitSignature(sig).value;
      Encodes([three.0, three.1, three.2], SignatureItems(sig))
  {
  }

  lemma {:induction false} EncodesAppend(a: seq<bytes>, b: seq<bytes>, x: seq<Item>, y: seq<Item>)
    requires Encodes(a, x) && Encodes(b, y)
    ensures Encodes(a + b, x + y)
  {
  }

  // A signed transaction reads back as the same nine items followed by the
  // signature's three, which rebuild the 65 bytes the signer returned.
  lemma {:induction false} SignedDecodes(t: Tx, sig: bytes)
    requires Signed(t, sig).Ok? && |Signed(t, sig).value| < UINT64_LIMIT
    ensures Signed(t, sig).value[0] == TX_TYPE
    ensures Decode(Signed(t, sig).value[1..]) == Some((Lst(Items(t) + SignatureItems(sig)), []))
    ensures Rebuilt(SignatureItems(sig)) == sig
  {
    FieldsEncode(t);
    SignatureRebuilt(sig);
    SignatureEncodes(sig);
    var three := SplitSignature(sig).value;
    var parts, items := Fields(t).value + [three.0, three.1, three.2], Items(t) + SignatureItems(sig);
    EncodesAppend(Fields(t).value, [three.0, three.1, three.2], Items(t), SignatureItems(sig));
    FlatItems(t, sig);
    FlatDecodes(parts, items, []);
    var body := ListOf(Concat(parts));
    assert body + [] == body;
    assert ([TX_TYPE] + body)[1..] == body;
  }

  lemma {:induction false} FlatItems(t: Tx, sig: bytes)
    requires Fields(t).Ok? && |sig| == 65 && sig[64] >= 27
    ensures Flat(Items(t) + SignatureItems(sig))
  {
    assert Flat(Items(t)) && Flat(SignatureItems(sig));
  }

  // Equal broadcasts carry the same transaction under the same signature.
  lemma {:induction false} SignedBinds(a: Tx, b: Tx, siga: bytes, sigb: bytes)
    requires Signed(a, siga).Ok? && Signed(b, sigb).Ok? && Signed(a, siga).value == Signed(b, sigb).value
    requires |Signed(a, siga).value| < UINT64_LIMIT
    ensures SameTransaction(a, b) && siga == sigb
  {
    SignedDecodes(a, siga);
    SignedDecodes(b, sigb);
    var x, y := Items(a) + SignatureItems(siga), Items(b) + SignatureItems(sigb);
    assert x[..9] == Items(a) && y[..9] == Items(b);
    assert x[9..] == SignatureItems(siga) && y[9..] == SignatureItems(sigb);
    SameItems(a, b);
  }

  // Exactly which transactions are encoded at all.
  lemma {:induction false} Acceptance(t: Tx)
    ensures Fields(t).Ok? <==>
      && t.chainID.Some? && t.chainID.value > 0
      && t.tip.Some? && t.maxFee.Some? && 0 <= t.tip.value <= t.maxFee.value
      && t.gas > 0 && OrZero(t.value) >= 0 && !t.to.Malformed?
  {
  }

  // Exactly which signatures are carried.
  lemma {:induction false} SignatureAcceptance(sig: bytes)
    ensures SplitSignature(sig).Ok? <==>
      && |sig| == 65 && sig[64] in {27, 28}
      && 0 < Value(sig[..32]) && 0 < Value(sig[32..64]) <= HALF_CURVE_ORDER
  {
  }
}
