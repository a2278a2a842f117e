// EIP-712 struct hashing over nested structs and arrays: typeddata.go and
// internal/eip712. Keccak is any function to 32 bytes, so nothing here leans on
// it being injective; where messages differ, a colliding pair is produced.

module StructHash {
  import opened Bytes
  import opened Wrappers
  import opened TypedData
  import opened Abi

  // The foreign primitives: the hash, and the bytes of a string.
  datatype Hasher = Hasher(keccak: bytes -> Word, utf8: string -> bytes)

  // A message value after its text is parsed.
  datatype Any =
    | Text(text: bytes)
    | Account(address: Address)
    | Fixed(word: Word)
    | Blob(blob: bytes)
    | Flag(flag: bool)
    | Number(number: int)
    | Items(items: seq<Any>)
    | Message(fields: map<string, Any>)
    | Other

  const UINTS := {"uint8", "uint16", "uint32", "uint64", "uint128", "uint256"}

  // The types carried or hashed whole; anything else is refused.
  function EncodeAtom(h: Hasher, kind: string, v: Any): Result<Word> {
    if kind == "address" then
      if v.Account? then Ok(Zeros(12) + v.address) else Err("want an address")
    else if kind == "bytes32" then
      if v.Fixed? then Ok(v.word) else Err("want a bytes32")
    else if kind == "string" then
      if v.Text? then Ok(h.keccak(v.text)) else Err("want a string")
    else if kind == "bytes" then
      if v.Blob? then Ok(h.keccak(v.blob)) else Err("want bytes")
    else if kind == "bool" then
      if v.Flag? then Ok(Padded(if v.flag then 1 else 0, 32)) else Err("want a bool")
    else if kind in UINTS then
      if v.Number? then UintWord(Some(v.number)) else Err("want an unsigned integer")
    else Err("unsupported type")
  }

  function Flat(words: seq<Word>): (b: bytes)
    ensures |b| == 32 * |words|
  {
    if words == [] then [] else words[0] + Flat(words[1..])
  }

  ghost function EncodeValue(h: Hasher, types: Types, kind: string, v: Any): Result<Word>
    decreases v, 1, 0
  {
    var element := ArrayElement(kind);
    if element.Some? then
      if !v.Items? then Err("want a list")
      else
        var words :- EncodeItems(h, types, element.value, v.items);
        Ok(h.keccak(Flat(words)))
    else if kind in types then
      if !v.Message? then Err("want a message") else HashStruct(h, types, kind, v)
    else EncodeAtom(h, kind, v)
  }

  ghost function EncodeItems(h: Hasher, types: Types, kind: string, items: seq<Any>): (r: Result<seq<Word>>)
    ensures r.Ok? ==> |r.value| == |items|
    decreases items, 2, 0
  {
    if items == [] then Ok([])
    else
      var first :- EncodeValue(h, types, kind, items[0]);
      var others :- EncodeItems(h, types, kind, items[1..]);
      Ok([first] + others)
  }

  ghost function EncodeFields(h: Hasher, types: Types, fields: seq<Field>, m: Any): (r: Result<seq<Word>>)
    requires m.Message?
    ensures r.Ok? ==> |r.value| == |fields|
    decreases m, 0, |fields|
  {
    if fields == [] then Ok([])
    else if fields[0].name !in m.fields then Err("message lacks a field")
    else
      var first :- EncodeValue(h, types, fields[0].kind, m.fields[fields[0].name]);
      var others :- EncodeFields(h, types, fields[1..], m);
      Ok([first] + others)
  }

  ghost function TypeHash(h: Hasher, types: Types, name: string): Word
    requires name in types
  {
    h.keccak(h.utf8(TypeString(types, name)))
  }

  ghost function HashStruct(h: Hasher, types: Types, name: string, m: Any): Result<Word>
    requires m.Message?
    decreases m, 0, if name in types then |types[name]| + 1 else 0
  {
    if name !in types then Err("typed data has no such type")
    else
      var words :- EncodeFields(h, types, types[name], m);
      Ok(h.keccak(TypeHash(h, types, name) + Flat(words)))
  }

  // Equal as the declared type reads them: every element, every declared field.
  ghost predicate Same(types: Types, kind: string, a: Any, b: Any)
    decreases a, 1, 0
  {
    var element := ArrayElement(kind);
    if element.Some? then a.Items? && b.Items? && SameItems(types, element.value, a.items, b.items)
    else if kind in types then a.Message? && b.Message? && SameFields(types, types[kind], a, b)
    else a == b
  }

  ghost predicate SameItems(types: Types, kind: string, xs: seq<Any>, ys: seq<Any>)
    decreases xs, 2, 0
  {
    |xs| == |ys| && (xs == [] || (Same(types, kind, xs[0], ys[0]) && SameItems(types, kind, xs[1..], ys[1..])))
  }

  ghost predicate SameFields(types: Types, fields: seq<Field>, a: Any, b: Any)
    requires a.Message? && b.Message?
    decreases a, 0, |fields|
  {
    fields == [] ||
    (&& fields[0].name in a.fields && fields[0].name in b.fields
     && Same(types, fields[0].kind, a.fields[fields[0].name], b.fields[fields[0].name])
     && SameFields(types, fields[1..], a, b))
  }

  // Two inputs of the hash.
  datatype Pair = Pair(x: bytes, y: bytes)

  ghost predicate Collides(h: Hasher, p: Pair) { p.x != p.y && h.keccak(p.x) == h.keccak(p.y) }

  // The first place two values with equal words were hashed from different
  // bytes, found by comparing what was hashed, outermost first.
  ghost function Clash(h: Hasher, types: Types, kind: string, a: Any, b: Any): Option<Pair>
    requires EncodeValue(h, types, kind, a).Ok? && EncodeValue(h, types, kind, b).Ok?
    decreases a, 1, 0
  {
    var element := ArrayElement(kind);
    if element.Some? then
      var wa, wb := EncodeItems(h, types, element.value, a.items).value, EncodeItems(h, types, element.value, b.items).value;
      if Flat(wa) != Flat(wb) then Some(Pair(Flat(wa), Flat(wb)))
      else if |a.items| == |b.items| then ClashItems(h, types, element.value, a.items, b.items) else None
    else if kind in types then
      assert HashStruct(h, types, kind, a).Ok? && HashStruct(h, types, kind, b).Ok?;
      ClashStruct(h, types, kind, a, b)
    else if kind == "string" && a != b then Some(Pair(a.text, b.text))
    else if kind == "bytes" && a != b then Some(Pair(a.blob, b.blob))
    else None
  }

  ghost function ClashStruct(h: Hasher, types: Types, name: string, a: Any, b: Any): Option<Pair>
    requires a.Message? && b.Message? && HashStruct(h, types, name, a).Ok? && HashStruct(h, types, name, b).Ok?
    decreases a, 0, |types[name]| + 1
  {
    var hash := TypeHash(h, types, name);
    var wa, wb := EncodeFields(h, types, types[name], a).value, EncodeFields(h, types, types[name], b).value;
    if Flat(wa) != Flat(wb) then Some(Pair(hash + Flat(wa), hash + Flat(wb)))
    else ClashFields(h, types, types[name], a, b)
  }

  ghost function ClashItems(h: Hasher, types: Types, kind: string, xs: seq<Any>, ys: seq<Any>): Option<Pair>
    requires |xs| == |ys| && EncodeItems(h, types, kind, xs).Ok? && EncodeItems(h, types, kind, ys).Ok?
    decreases xs, 2, 0
  {
    if xs == [] then None
    else
      var first := Clash(h, types, kind, xs[0], ys[0]);
      if first.Some? then first else ClashItems(h, types, kind, xs[1..], ys[1..])
  }

  ghost function ClashFields(h: Hasher, types: Types, fields: seq<Field>, a: Any, b: Any): Option<Pair>
    requires a.Message? && b.Message?
    requires EncodeFields(h, types, fields, a).Ok? && EncodeFields(h, types, fields, b).Ok?
    decreases a, 0, |fields|
  {
    if fields == [] then None
    else
      var first := Clash(h, types, fields[0].kind, a.fields[fields[0].name], b.fields[fields[0].name]);
      if first.Some? then first else ClashFields(h, types, fields[1..], a, b)
  }

  lemma {:induction false} FlatInjective(a: seq<Word>, b: seq<Word>)
    requires Flat(a) == Flat(b)
    ensures a == b
  {
    if a != [] && b != [] {
      assert a[0] == Flat(a)[..32] && b[0] == Flat(b)[..32];
      assert Flat(a[1..]) == Flat(a)[32..] && Flat(b[1..]) == Flat(b)[32..];
      FlatInjective(a[1..], b[1..]);
      assert a == [a[0]] + a[1..] && b == [b[0]] + b[1..];
    }
  }

  // The outcome of comparing two values whose words are equal.
  ghost predicate Settled(h: Hasher, same: bool, clash: Option<Pair>) {
    if clash.Some? then Collides(h, clash.value) else same
  }

  lemma {:induction false} AddressWord(a: Address, b: Address)
    requires Zeros(12) + a == Zeros(12) + b
    ensures a == b
  {
    assert a == (Zeros(12) + a)[12..] && b == (Zeros(12) + b)[12..];
  }

  // The types carried rather than hashed: equal words, equal values.
  lemma {:induction false} CarriedBinds(h: Hasher, kind: string, a: Any, b: Any)
    requires kind != "string" && kind != "bytes"
    requires EncodeAtom(h, kind, a).Ok? && EncodeAtom(h, kind, a) == EncodeAtom(h, kind, b)
    ensures a == b
  {
    if kind == "address" {
      AddressWord(a.address, b.address);
    } else if kind == "bool" {
      FlagWords();
    } else if kind in UINTS {
      UintWordFits(Some(a.number));
      UintWordFits(Some(b.number));
    }
  }

  // An atom is told from any other by its word, or by a collision.
  lemma {:induction false} AtomBinds(h: Hasher, types: Types, kind: string, a: Any, b: Any)
    requires ArrayElement(kind).None? && kind !in types
    requires EncodeAtom(h, kind, a).Ok? && EncodeAtom(h, kind, a) == EncodeAtom(h, kind, b)
    ensures Settled(h, a == b, Clash(h, types, kind, a, b))
  {
    if kind != "string" && kind != "bytes" {
      CarriedBinds(h, kind, a, b);
    }
  }

  lemma {:induction false} FlagWords()
    ensures Padded(0, 32) != Padded(1, 32)
  {
    assert Padded(0, 32)[31] == 0 && Padded(1, 32)[31] == 1;
  }

  // Values of one type with equal words agree everywhere the type looks, or
  // else the pair of bytes Clash names collides.
  lemma {:induction false} ValueBinds(h: Hasher, types: Types, kind: string, a: Any, b: Any)
    requires EncodeValue(h, types, kind, a).Ok? && EncodeValue(h, types, kind, a) == EncodeValue(h, types, kind, b)
    ensures Settled(h, Same(types, kind, a, b), Clash(h, types, kind, a, b))
    decreases a, 1, 0
  {
    var element := ArrayElement(kind);
    if element.Some? {
      var wa, wb := EncodeItems(h, types, element.value, a.items).value, EncodeItems(h, types, element.value, b.items).value;
      if Flat(wa) == Flat(wb) {
        FlatInjective(wa, wb);
        ItemsBind(h, types, element.value, a.items, b.items);
      }
    } else if kind in types {
      HashStructBinds(h, types, kind, a, b);
    } else {
      AtomBinds(h, types, kind, a, b);
    }
  }

  // hashStruct binds its message: under one type, equal hashes mean equal
  // messages, or a collision that is there to be shown.
  lemma {:induction false} HashStructBinds(h: Hasher, types: Types, name: string, a: Any, b: Any)
    requires a.Message? && b.Message?
    requires HashStruct(h, types, name, a).Ok? && HashStruct(h, types, name, a) == HashStruct(h, types, name, b)
    ensures Settled(h, SameFields(types, types[name], a, b), ClashStruct(h, types, name, a, b))
    decreases a, 0, |types[name]| + 1
  {
    var hash := TypeHash(h, types, name);
    var wa, wb := EncodeFields(h, types, types[name], a).value, EncodeFields(h, types, types[name], b).value;
    if Flat(wa) == Flat(wb) {
      FlatInjective(wa, wb);
      FieldsBind(h, types, types[name], a, b);
    } else {
      assert Flat(wa) == (hash + Flat(wa))[32..] && Flat(wb) == (hash + Flat(wb))[32..];
    }
  }

  lemma {:induction false} ItemsBind(h: Hasher, types: Types, kind: string, xs: seq<Any>, ys: seq<Any>)
    requires EncodeItems(h, types, kind, xs).Ok? && EncodeItems(h, types, kind, xs) == EncodeItems(h, types, kind, ys)
    ensures |xs| == |ys|
    ensures Settled(h, SameItems(types, kind, xs, ys), ClashItems(h, types, kind, xs, ys))
    decreases xs, 2, 0
  {
    if xs != [] {
      var wx, wy := EncodeItems(h, types, kind, xs).value, EncodeItems(h, types, kind, ys).value;
      assert wx[0] == wy[0] && wx[1..] == wy[1..];
      ValueBinds(h, types, kind, xs[0], ys[0]);
      ItemsBind(h, types, kind, xs[1..], ys[1..]);
    }
  }

  lemma {:induction false} FieldsBind(h: Hasher, types: Types, fields: seq<Field>, a: Any, b: Any)
    requires a.Message? && b.Message?
    requires EncodeFields(h, types, fields, a).Ok? && EncodeFields(h, types, fields, a) == EncodeFields(h, types, fields, b)
    ensures Settled(h, SameFields(types, fields, a, b), ClashFields(h, types, fields, a, b))
    decreases a, 0, |fields|
  {
    if fields != [] {
      var wa, wb := EncodeFields(h, types, fields, a).value, EncodeFields(h, types, fields, b).value;
      assert wa[0] == wb[0] && wa[1..] == wb[1..];
      ValueBinds(h, types, fields[0].kind, a.fields[fields[0].name], b.fields[fields[0].name]);
      FieldsBind(h, types, fields[1..], a, b);
    }
  }

  // Fields gathered in declared order, holding the first failure.
  class Encoder {
    var words: seq<Word>
    var err: Option<string>

    constructor ()
      ensures words == [] && err == None
    {
      words, err := [], None;
    }

    method Append(word: Result<Word>)
      modifies this
      ensures word.Ok? ==> words == old(words) + [word.value] && err == old(err)
      ensures word.Err? ==> words == old(words) && err == (if old(err).Some? then old(err) else Some(word.error))
    {
      if word.Err? {
        if err.None? {
          err := Some(word.error);
        }
        return;
      }
      words := words + [word.value];
    }

    method StructHash(h: Hasher, typeHash: Word) returns (hash: Result<Word>)
      ensures hash == if err.Some? then Err(err.value) else Ok(h.keccak(typeHash + Flat(words)))
    {
      if err.Some? {
        return Err(err.value);
      }
      var buf := Concatenate(typeHash, words);
      hash := Ok(h.keccak(buf));
    }
  }

  lemma {:induction false} FlatLast(words: seq<Word>, last: Word)
    ensures Flat(words + [last]) == Flat(words) + last
  {
    if words == [] {
      assert [] + [last] == [last] && [last][1..] == [];
    } else {
      assert (words + [last])[1..] == words[1..] + [last];
      FlatLast(words[1..], last);
    }
  }

  method Concatenate(start: bytes, words: seq<Word>) returns (buf: bytes)
    ensures buf == start + Flat(words)
  {
    buf := start;
    for i := 0 to |words|
      invariant buf == start + Flat(words[..i])
    {
      FlatLast(words[..i], words[i]);
      assert words[..i + 1] == words[..i] + [words[i]];
      buf := buf + words[i];
    }
    assert words[..|words|] == words;
  }

  // Words already made, ahead of those still to come.
  ghost function Ahead(words: seq<Word>, rest: Result<seq<Word>>): Result<seq<Word>> {
    if rest.Ok? then Ok(words + rest.value) else rest
  }

  lemma {:induction false} AheadSteps(words: seq<Word>, w: Word, rest: Result<seq<Word>>)
    ensures Ahead([], rest) == rest
    ensures Ahead(words, Ahead([w], rest)) == Ahead(words + [w], rest)
  {
    if rest.Ok? {
      assert [] + rest.value == rest.value;
      assert words + ([w] + rest.value) == words + [w] + rest.value;
    }
  }

  method AppendFields(h: Hasher, types: Types, fields: seq<Field>, m: Any, enc: Encoder) returns (err: Option<string>)
    requires m.Message? && enc.words == [] && enc.err == None
    modifies enc
    ensures enc.err == None
    ensures EncodeFields(h, types, fields, m) == if err.Some? then Err(err.value) else Ok(enc.words)
    decreases m, 0
  {
    assert fields[0..] == fields;
    AheadSteps([], h.keccak([]), EncodeFields(h, types, fields, m));
    for i := 0 to |fields|
      invariant enc.err == None
      invariant EncodeFields(h, types, fields, m) == Ahead(enc.words, EncodeFields(h, types, fields[i..], m))
    {
      assert fields[i..][1..] == fields[i + 1..];
      if fields[i].name !in m.fields {
        return Some("message lacks a field");
      }
      var word := EncodeAny(h, types, fields[i].kind, m.fields[fields[i].name]);
      if word.Err? {
        return Some(word.error);
      }
      ghost var rest := EncodeFields(h, types, fields[i + 1..], m);
      assert EncodeFields(h, types, fields[i..], m) == Ahead([word.value], rest);
      AheadSteps(enc.words, word.value, rest);
      enc.Append(word);
    }
    assert fields[|fields|..] == [] && enc.words + [] == enc.words;
    err := None;
  }

  method HashMessage(h: Hasher, types: Types, name: string, m: Any) returns (hash: Result<Word>)
    requires m.Message?
    ensures hash == HashStruct(h, types, name, m)
    decreases m, 1
  {
    if name !in types {
      return Err("typed data has no such type");
    }
    var typeString := EncodeType(types, name);
    var enc := new Encoder();
    var err := AppendFields(h, types, types[name], m, enc);
    if err.Some? {
      return Err(err.value);
    }
    hash := enc.StructHash(h, h.keccak(h.utf8(typeString.value)));
  }

  method EncodeAny(h: Hasher, types: Types, kind: string, v: Any) returns (word: Result<Word>)
    ensures word == EncodeValue(h, types, kind, v)
    decreases v, 2
  {
    var element := ArrayElement(kind);
    if element.Some? {
      if !v.Items? {
        return Err("want a list");
      }
      var words: seq<Word> := [];
      assert v.items[0..] == v.items;
      AheadSteps([], h.keccak([]), EncodeItems(h, types, element.value, v.items));
      for i := 0 to |v.items|
        invariant EncodeItems(h, types, element.value, v.items)
               == Ahead(words, EncodeItems(h, types, element.value, v.items[i..]))
      {
        assert v.items[i..][1..] == v.items[i + 1..];
        var next := EncodeAny(h, types, element.value, v.items[i]);
        if next.Err? {
          return Err(next.error);
        }
        ghost var rest := EncodeItems(h, types, element.value, v.items[i + 1..]);
        assert EncodeItems(h, types, element.value, v.items[i..]) == Ahead([next.value], rest);
        AheadSteps(words, next.value, rest);
        words := words + [next.value];
      }
      assert v.items[|v.items|..] == [] && words + [] == words;
      var buf := Concatenate([], words);
      assert buf == Flat(words);
      return Ok(h.keccak(buf));
    }
    if kind in types {
      if !v.Message? {
        return Err("want a message");
      }
      word := HashMessage(h, types, kind, v);
      return;
    }
    word := EncodeAtom(h, kind, v);
  }
}
