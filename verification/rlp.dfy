// The recursive-length prefix form of internal/rlp/rlp.go. The encoder is the
// source's; the decoder, which the source does not have, reads Appendix B of
// the Ethereum Yellow Paper and refuses every form but the shortest.

module Rlp {
  import opened Bytes
  import opened Wrappers

  const STRING_OFFSET := 0x80
  const STRING_LONG_OFFSET := 0xb7
  const LIST_OFFSET := 0xc0
  const LIST_LONG_OFFSET := 0xf7
  const SHORT_LIMIT := 55

  datatype Item = Str(text: bytes) | Lst(items: seq<Item>)

  // The prefix of a payload of n bytes.
  function Header(n: nat, short: byte, long: byte): bytes
    requires short as int + SHORT_LIMIT < 256
  {
    if n <= SHORT_LIMIT then [short + n]
    else [(long + |Minimal(n)|) % 256] + Minimal(n)
  }

  function StringOf(b: bytes): bytes {
    if |b| == 1 && b[0] < STRING_OFFSET then b
    else Header(|b|, STRING_OFFSET, STRING_LONG_OFFSET) + b
  }

  function ListOf(payload: bytes): bytes {
    Header(|payload|, LIST_OFFSET, LIST_LONG_OFFSET) + payload
  }

  function Concat(parts: seq<bytes>): bytes {
    if parts == [] then [] else parts[0] + Concat(parts[1..])
  }

  lemma {:induction false} ConcatLast(parts: seq<bytes>, last: bytes)
    ensures Concat(parts + [last]) == Concat(parts) + last
  {
    if parts == [] {
      assert [] + [last] == [last] && [last][1..] == [];
    } else {
      assert (parts + [last])[1..] == parts[1..] + [last];
      ConcatLast(parts[1..], last);
    }
  }

  // The item a decoder reads back as these bytes, whatever follows.
  method String(b: bytes) returns (out: bytes)
    ensures out == StringOf(b)
    ensures |b| < UINT64_LIMIT ==> forall rest :: Decode(out + rest) == Some((Str(b), rest))
  {
    if |b| == 1 && b[0] < STRING_OFFSET {
      out := [b[0]];
      assert out == b;
    } else {
      out := Header(|b|, STRING_OFFSET, STRING_LONG_OFFSET) + b;
    }
    if |b| < UINT64_LIMIT {
      assert out == Encode(Str(b)) && Sized(Str(b));
      forall rest ensures Decode(out + rest) == Some((Str(b), rest)) {
        DecodeEncode(Str(b), rest);
      }
    }
  }

  method List(items: seq<bytes>) returns (out: bytes)
    ensures out == ListOf(Concat(items))
  {
    var payload: bytes := [];
    for i := 0 to |items|
      invariant payload == Concat(items[..i])
    {
      ConcatLast(items[..i], items[i]);
      assert items[..i + 1] == items[..i] + [items[i]];
      payload := payload + items[i];
    }
    assert items[..|items|] == items;
    out := Header(|payload|, LIST_OFFSET, LIST_LONG_OFFSET) + payload;
  }

  // A missing integer is written as zero is: the empty string.
  function Uint(x: Option<int>): Result<bytes> {
    if x.None? then Ok(StringOf([]))
    else if x.value < 0 then Err("rlp: negative integer")
    else Ok(StringOf(Minimal(x.value)))
  }

  // An item tree encoded from its leaves up.
  function Encode(item: Item): (out: bytes)
    ensures out != []
    decreases item, 0
  {
    match item
    case Str(b) => StringOf(b)
    case Lst(items) => ListOf(EncodeAll(items))
  }

  function EncodeAll(items: seq<Item>): bytes
    decreases items, 1
  {
    if items == [] then [] else Encode(items[0]) + EncodeAll(items[1..])
  }

  // Every string and every list payload is shorter than 2^64 bytes.
  ghost predicate Sized(item: Item)
    decreases item, 0
  {
    match item
    case Str(b) => |b| < UINT64_LIMIT
    case Lst(items) => |EncodeAll(items)| < UINT64_LIMIT && AllSized(items)
  }

  ghost predicate AllSized(items: seq<Item>)
    decreases items, 1
  {
    items == [] || (Sized(items[0]) && AllSized(items[1..]))
  }

  // Where the payload lies in the bytes that start an item.
  datatype Head = Head(list: bool, skip: nat, size: nat)

  function ShortHead(d: bytes, list: bool, size: nat): (h: Option<Head>) {
    if 1 + size <= |d| && !(!list && size == 1 && d[1] < STRING_OFFSET) then Some(Head(list, 1, size)) else None
  }

  function LongHead(d: bytes, list: bool, digits: nat): (h: Option<Head>)
    requires digits > 0
  {
    if 1 + digits <= |d| && d[1] != 0 then
      var size := Value(d[1..1 + digits]);
      if size > SHORT_LIMIT && 1 + digits + size <= |d| then Some(Head(list, 1 + digits, size)) else None
    else None
  }

  function ReadHead(d: bytes): (h: Option<Head>)
    ensures h.Some? ==> 0 < h.value.skip + h.value.size <= |d| && (h.value.list ==> h.value.skip > 0)
  {
    if d == [] then None
    else
      var p := d[0];
      if p < STRING_OFFSET then Some(Head(false, 0, 1))
      else if p <= STRING_LONG_OFFSET then ShortHead(d, false, p - STRING_OFFSET)
      else if p < LIST_OFFSET then LongHead(d, false, p - STRING_LONG_OFFSET)
      else if p <= LIST_LONG_OFFSET then ShortHead(d, true, p - LIST_OFFSET)
      else LongHead(d, true, p - LIST_LONG_OFFSET)
  }

  // One item from the front of the data, and what follows it.
  function Decode(d: bytes): (r: Option<(Item, bytes)>)
    ensures r.Some? ==> |r.value.1| < |d|
    decreases |d|, 0
  {
    var h := ReadHead(d);
    if h.None? then None
    else
      var (payload, rest) := (d[h.value.skip..h.value.skip + h.value.size], d[h.value.skip + h.value.size..]);
      if h.value.list then
        var items := DecodeAll(payload);
        if items.None? then None else Some((Lst(items.value), rest))
      else Some((Str(payload), rest))
  }

  function DecodeAll(d: bytes): Option<seq<Item>>
    decreases |d|, 1
  {
    if d == [] then Some([])
    else
      var first := Decode(d);
      if first.None? then None
      else
        var others := DecodeAll(first.value.1);
        if others.None? then None else Some([first.value.0] + others.value)
  }

  // The forms of Appendix B, in its own numbers: a byte below 128 is itself; a
  // string shorter than 56 bytes follows one byte, a longer one its length.
  lemma {:induction false} StringForms(b: bytes)
    ensures |b| == 1 && b[0] < 128 ==> StringOf(b) == b
    ensures |b| < 56 && !(|b| == 1 && b[0] < 128) ==> StringOf(b) == [128 + |b|] + b
    ensures 56 <= |b| < UINT64_LIMIT ==>
      |Minimal(|b|)| <= 8 && StringOf(b) == [183 + |Minimal(|b|)|] + Minimal(|b|) + b
  {
    if 56 <= |b| < UINT64_LIMIT {
      LengthDigits(|b|);
      LongForm(b, |Minimal(|b|)|);
    }
  }

  // So does a list, after its items.
  lemma {:induction false} ListForms(payload: bytes)
    ensures |payload| < 56 ==> ListOf(payload) == [192 + |payload|] + payload
    ensures 56 <= |payload| < UINT64_LIMIT ==>
      |Minimal(|payload|)| <= 8 && ListOf(payload) == [247 + |Minimal(|payload|)|] + Minimal(|payload|) + payload
  {
    if 56 <= |payload| < UINT64_LIMIT {
      LengthDigits(|payload|);
      LongForm(payload, |Minimal(|payload|)|);
    }
  }

  // An integer is the string of its digits, the first not zero; a missing one is
  // the empty string, as zero is; a negative one is refused.
  lemma {:induction false} UintForms(x: Option<int>)
    ensures Uint(x).Err? <==> x.Some? && x.value < 0
    ensures Uint(x).Ok? ==> exists digits: bytes ::
      && Uint(x).value == StringOf(digits) && (digits == [] || digits[0] != 0)
      && Value(digits) == if x.Some? then x.value else 0
  {
    if x.Some? && x.value >= 0 {
      ValueMinimal(x.value);
    } else if x.None? {
      assert Uint(x).value == StringOf([]) && Value([]) == 0;
    }
  }

  // A length below 2^64 is spelled in at most eight bytes, the spec's limit.
  lemma {:induction false} LengthDigits(n: nat)
    requires SHORT_LIMIT < n < UINT64_LIMIT
    ensures 1 <= |Minimal(n)| <= 8
  {
    assert Pow256(8) == UINT64_LIMIT;
    ValueMinimal(n);
    MinimalFits(n, 8);
  }

  // A long prefix reads back as the length it was written for.
  lemma {:induction false} LongHeadRead(payload: bytes, rest: bytes, list: bool, first: byte)
    requires SHORT_LIMIT < |payload| < UINT64_LIMIT
    ensures var digits := |Minimal(|payload|)|; var d := ([first] + Minimal(|payload|)) + payload + rest;
      && 1 <= digits <= 8
      && LongHead(d, list, digits) == Some(Head(list, 1 + digits, |payload|))
      && d[1 + digits..1 + digits + |payload|] == payload && d[1 + digits + |payload|..] == rest
  {
    LengthDigits(|payload|);
    ValueMinimal(|payload|);
    var d := ([first] + Minimal(|payload|)) + payload + rest;
    var m := Minimal(|payload|);
    assert d == [first] + m + (payload + rest);
    StandsMiddle([first], m, payload + rest);
  }

  lemma {:induction false} ShortHeadRead(payload: bytes, rest: bytes, list: bool, first: byte)
    requires list || |payload| != 1 || payload[0] >= STRING_OFFSET
    ensures var d := [first] + payload + rest;
      && ShortHead(d, list, |payload|) == Some(Head(list, 1, |payload|))
      && d[1..1 + |payload|] == payload && d[1 + |payload|..] == rest
  {
  }

  // The bytes after a head split into its payload and the rest.
  ghost predicate Splits(d: bytes, h: Option<Head>, list: bool, payload: bytes, rest: bytes) {
    && h.Some? && h.value.list == list && h.value.size == |payload|
    && h.value.skip + h.value.size <= |d|
    && d[h.value.skip..h.value.skip + |payload|] == payload && d[h.value.skip + |payload|..] == rest
  }

  lemma {:induction false} SingleHead(b: byte, rest: bytes)
    requires b < STRING_OFFSET
    ensures Splits([b] + rest, ReadHead([b] + rest), false, [b], rest)
  {
    var d := [b] + rest;
    assert d[0..1] == [b] && d[1..] == rest;
  }

  lemma {:induction false} ShortStringHead(b: bytes, rest: bytes)
    requires |b| <= SHORT_LIMIT && (|b| != 1 || b[0] >= STRING_OFFSET)
    ensures Splits(StringOf(b) + rest, ReadHead(StringOf(b) + rest), false, b, rest)
  {
    var p: byte := STRING_OFFSET + |b|;
    assert StringOf(b) == [p] + b;
    ShortHeadRead(b, rest, false, p);
  }

  lemma {:induction false} LongForm(payload: bytes, digits: nat)
    requires SHORT_LIMIT < |payload| && |Minimal(|payload|)| == digits <= 8
    ensures StringOf(payload) == [STRING_LONG_OFFSET + digits] + Minimal(|payload|) + payload
    ensures ListOf(payload) == [LIST_LONG_OFFSET + digits] + Minimal(|payload|) + payload
  {
  }

  // A first byte past a long offset gives the number of length digits.
  lemma {:induction false} LongRead(d: bytes, digits: nat)
    requires d != [] && 1 <= digits <= 8
    ensures d[0] == STRING_LONG_OFFSET + digits ==> ReadHead(d) == LongHead(d, false, digits)
    ensures d[0] == LIST_LONG_OFFSET + digits ==> ReadHead(d) == LongHead(d, true, digits)
  {
  }

  lemma {:induction false} LongStringHead(b: bytes, rest: bytes)
    requires SHORT_LIMIT < |b| < UINT64_LIMIT
    ensures Splits(StringOf(b) + rest, ReadHead(StringOf(b) + rest), false, b, rest)
  {
    LengthDigits(|b|);
    LongForm(b, |Minimal(|b|)|);
    LongHeadRead(b, rest, false, STRING_LONG_OFFSET + |Minimal(|b|)|);
    LongRead(StringOf(b) + rest, |Minimal(|b|)|);
  }

  lemma {:induction false} StringHead(b: bytes, rest: bytes)
    requires |b| < UINT64_LIMIT
    ensures Splits(StringOf(b) + rest, ReadHead(StringOf(b) + rest), false, b, rest)
  {
    if |b| == 1 && b[0] < STRING_OFFSET {
      assert b == [b[0]];
      SingleHead(b[0], rest);
    } else if |b| <= SHORT_LIMIT {
      ShortStringHead(b, rest);
    } else {
      LongStringHead(b, rest);
    }
  }

  lemma {:induction false} ShortListHead(payload: bytes, rest: bytes)
    requires |payload| <= SHORT_LIMIT
    ensures Splits(ListOf(payload) + rest, ReadHead(ListOf(payload) + rest), true, payload, rest)
  {
    var p: byte := LIST_OFFSET + |payload|;
    assert ListOf(payload) == [p] + payload;
    ShortHeadRead(payload, rest, true, p);
  }

  lemma {:induction false} LongListHead(payload: bytes, rest: bytes)
    requires SHORT_LIMIT < |payload| < UINT64_LIMIT
    ensures Splits(ListOf(payload) + rest, ReadHead(ListOf(payload) + rest), true, payload, rest)
  {
    var digits := |Minimal(|payload|)|;
    LengthDigits(|payload|);
    LongForm(payload, digits);
    LongHeadRead(payload, rest, true, LIST_LONG_OFFSET + digits);
    LongRead(ListOf(payload) + rest, digits);
  }

  lemma {:induction false} ListHead(payload: bytes, rest: bytes)
    requires |payload| < UINT64_LIMIT
    ensures Splits(ListOf(payload) + rest, ReadHead(ListOf(payload) + rest), true, payload, rest)
  {
    if |payload| <= SHORT_LIMIT {
      ShortListHead(payload, rest);
    } else {
      LongListHead(payload, rest);
    }
  }

  // The decoder recovers any item tree, whatever bytes come after it.
  lemma {:induction false} DecodeEncode(item: Item, rest: bytes)
    requires Sized(item)
    ensures Decode(Encode(item) + rest) == Some((item, rest))
    decreases item, 0
  {
    match item
    case Str(b) => StringHead(b, rest);
    case Lst(items) =>
      ListHead(EncodeAll(items), rest);
      DecodeEncodeAll(items);
  }

  lemma {:induction false} DecodeEncodeAll(items: seq<Item>)
    requires AllSized(items)
    ensures DecodeAll(EncodeAll(items)) == Some(items)
    decreases items, 1
  {
    if items != [] {
      DecodeEncode(items[0], EncodeAll(items[1..]));
      DecodeEncodeAll(items[1..]);
      assert items == [items[0]] + items[1..];
    }
  }

  lemma {:induction false} LongHeadWritten(d: bytes, list: bool, digits: nat)
    requires 0 < digits <= 8 && LongHead(d, list, digits).Some?
    ensures var size := LongHead(d, list, digits).value.size;
      && SHORT_LIMIT < size < UINT64_LIMIT
      && d[..1 + digits] == [d[0]] + Minimal(size)
      && |Minimal(size)| == digits
  {
    var spelled := d[1..1 + digits];
    MinimalValue(spelled);
    ValueBound(spelled);
    Pow256Grows(digits, 8);
    assert Pow256(8) == UINT64_LIMIT;
  }

  // What a head says is what the encoder would have written there.
  lemma {:induction false} LongStringWritten(d: bytes)
    requires ReadHead(d).Some? && STRING_LONG_OFFSET < d[0] < LIST_OFFSET
    ensures var h := ReadHead(d).value; var payload := d[h.skip..h.skip + h.size];
      |payload| < UINT64_LIMIT && d[..h.skip] + payload == StringOf(payload)
  {
    var digits := d[0] - STRING_LONG_OFFSET;
    LongRead(d, digits);
    LongHeadWritten(d, false, digits);
    LongForm(d[1 + digits..1 + digits + ReadHead(d).value.size], digits);
  }

  lemma {:induction false} StringWritten(d: bytes)
    requires ReadHead(d).Some? && !ReadHead(d).value.list
    ensures var h := ReadHead(d).value; var payload := d[h.skip..h.skip + h.size];
      |payload| < UINT64_LIMIT && d[..h.skip] + payload == StringOf(payload)
  {
    var p := d[0];
    if p > STRING_LONG_OFFSET {
      LongStringWritten(d);
    } else if p >= STRING_OFFSET {
      assert d[..1] == [p];
    } else {
      assert d[..0] + d[0..1] == d[0..1];
    }
  }

  lemma {:induction false} ListWritten(d: bytes)
    requires ReadHead(d).Some? && ReadHead(d).value.list
    ensures var h := ReadHead(d).value; var payload := d[h.skip..h.skip + h.size];
      |payload| < UINT64_LIMIT && d[..h.skip] + payload == ListOf(payload)
  {
    var p := d[0];
    if p > LIST_LONG_OFFSET {
      var digits := p - LIST_LONG_OFFSET;
      LongRead(d, digits);
      LongHeadWritten(d, true, digits);
      LongForm(d[1 + digits..1 + digits + ReadHead(d).value.size], digits);
    } else {
      assert d[..1] == [p];
    }
  }

  // Nothing decodes but what the encoder writes: the two are exact inverses.
  lemma {:induction false} EncodeDecode(d: bytes)
    requires Decode(d).Some?
    ensures var (item, rest) := Decode(d).value;
      Sized(item) && d == Encode(item) + rest
    decreases |d|, 0
  {
    var h := ReadHead(d).value;
    assert d == (d[..h.skip] + d[h.skip..h.skip + h.size]) + d[h.skip + h.size..];
    if h.list {
      ListWritten(d);
      EncodeDecodeAll(d[h.skip..h.skip + h.size]);
    } else {
      StringWritten(d);
    }
  }

  lemma {:induction false} EncodeDecodeAll(d: bytes)
    requires DecodeAll(d).Some?
    ensures AllSized(DecodeAll(d).value) && EncodeAll(DecodeAll(d).value) == d
    decreases |d|, 1
  {
    if d != [] {
      EncodeDecode(d);
      EncodeDecodeAll(Decode(d).value.1);
    }
  }

  // No encoding is the start of another: trees and remainders are told apart.
  lemma {:induction false} UniquelyDecodable(a: Item, b: Item, x: bytes, y: bytes)
    requires Sized(a) && Sized(b) && Encode(a) + x == Encode(b) + y
    ensures a == b && x == y
  {
    DecodeEncode(a, x);
    DecodeEncode(b, y);
  }
}
