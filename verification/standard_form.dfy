// What the standard says is hashed, byte by byte: EIP-712, "Definition of
// hashStruct", "Definition of encodeType", "Definition of encodeData" and
// "Definition of domainSeparator".

module StandardForm {
  import opened Bytes
  import opened Wrappers
  import opened Names
  import opened TypedData
  import opened TypeText
  import opened Abi
  import opened StructHash
  import opened Digests

  // Word k of what was hashed.
  ghost predicate WordStands(buf: bytes, k: nat, w: Result<Word>) {
    w.Ok? && 32 * k + 32 <= |buf| && buf[32 * k..32 * k + 32] == w.value
  }

  lemma {:induction false} FlatWord(words: seq<Word>, k: nat)
    requires k < |words|
    ensures Flat(words)[32 * k..32 * k + 32] == words[k]
  {
    if k > 0 {
      FlatWord(words[1..], k - 1);
      assert Flat(words)[32 * k..32 * k + 32] == Flat(words[1..])[32 * (k - 1)..32 * (k - 1) + 32];
    }
  }

  ghost function FieldWord(h: Hasher, types: Types, f: Field, m: Any): Result<Word>
    requires m.Message?
  {
    if f.name in m.fields then EncodeValue(h, types, f.kind, m.fields[f.name]) else Err("message lacks a field")
  }

  // The first field's word goes first.
  lemma {:induction false} FieldFront(h: Hasher, types: Types, fields: seq<Field>, m: Any)
    requires m.Message? && fields != []
    ensures EncodeFields(h, types, fields, m).Ok? <==> FieldWord(h, types, fields[0], m).Ok? && EncodeFields(h, types, fields[1..], m).Ok?
    ensures EncodeFields(h, types, fields, m).Ok? ==>
      EncodeFields(h, types, fields, m).value == [FieldWord(h, types, fields[0], m).value] + EncodeFields(h, types, fields[1..], m).value
  {
  }

  // The fields are encoded one by one, in declared order.
  lemma {:induction false} FieldsEncoded(h: Hasher, types: Types, fields: seq<Field>, m: Any)
    requires m.Message?
    ensures EncodeFields(h, types, fields, m).Ok? <==> forall k :: 0 <= k < |fields| ==> FieldWord(h, types, fields[k], m).Ok?
    ensures EncodeFields(h, types, fields, m).Ok? ==>
      forall k :: 0 <= k < |fields| ==> FieldWord(h, types, fields[k], m) == Ok(EncodeFields(h, types, fields, m).value[k])
    decreases |fields|
  {
    if fields != [] {
      var rest := fields[1..];
      FieldFront(h, types, fields, m);
      FieldsEncoded(h, types, rest, m);
      assert forall k :: 0 <= k < |rest| ==> rest[k] == fields[k + 1];
      assert forall k :: 0 < k < |fields| ==> fields[k] == rest[k - 1];
    }
  }

  lemma {:induction false} ItemsEncoded(h: Hasher, types: Types, kind: string, items: seq<Any>)
    ensures EncodeItems(h, types, kind, items).Ok? <==> forall k :: 0 <= k < |items| ==> EncodeValue(h, types, kind, items[k]).Ok?
    ensures EncodeItems(h, types, kind, items).Ok? ==>
      forall k :: 0 <= k < |items| ==> EncodeValue(h, types, kind, items[k]) == Ok(EncodeItems(h, types, kind, items).value[k])
    decreases |items|
  {
    if items != [] {
      var rest := items[1..];
      ItemsEncoded(h, types, kind, rest);
      assert forall k :: 0 <= k < |rest| ==> rest[k] == items[k + 1];
      assert forall k :: 0 < k < |items| ==> items[k] == rest[k - 1];
    }
  }

  // What hashStruct hashes: the type's hash, then every field's word, in declared
  // order, and nothing else.
  ghost predicate StructBuffer(h: Hasher, types: Types, name: string, m: Any, buf: bytes)
    requires m.Message? && name in types
  {
    && |buf| == 32 * (1 + |types[name]|)
    && buf[..32] == h.keccak(h.utf8(TypeString(types, name)))
    && forall k :: 0 <= k < |types[name]| ==> WordStands(buf, 1 + k, FieldWord(h, types, types[name][k], m))
  }

  lemma {:induction false} PastHash(hash: bytes, flat: bytes, at: nat)
    requires |hash| == 32 && at + 32 <= |flat|
    ensures (hash + flat)[32 + at..64 + at] == flat[at..at + 32]
  {
  }

  lemma {:induction false} WordPastHash(hash: bytes, words: seq<Word>, k: nat)
    requires |hash| == 32 && k < |words|
    ensures WordStands(hash + Flat(words), 1 + k, Ok(words[k]))
  {
    FlatWord(words, k);
    PastHash(hash, Flat(words), 32 * k);
  }

  lemma {:induction false} BufferStands(h: Hasher, types: Types, name: string, m: Any, words: seq<Word>)
    requires m.Message? && name in types && EncodeFields(h, types, types[name], m) == Ok(words)
    ensures StructBuffer(h, types, name, m, TypeHash(h, types, name) + Flat(words))
  {
    FieldsEncoded(h, types, types[name], m);
    forall k | 0 <= k < |words|
      ensures WordStands(TypeHash(h, types, name) + Flat(words), 1 + k, FieldWord(h, types, types[name][k], m))
    {
      WordPastHash(TypeHash(h, types, name), words, k);
    }
  }

  // hashStruct is refused exactly when the type is unknown or a field is missing
  // or does not encode; else it is the hash of that.
  lemma {:induction false} HashStructForm(h: Hasher, types: Types, name: string, m: Any)
    requires m.Message?
    ensures HashStruct(h, types, name, m).Ok? <==>
      name in types && forall k :: 0 <= k < |types[name]| ==> FieldWord(h, types, types[name][k], m).Ok?
    ensures HashStruct(h, types, name, m).Ok? ==>
      exists buf: bytes :: HashStruct(h, types, name, m) == Ok(h.keccak(buf)) && StructBuffer(h, types, name, m, buf)
  {
    if name in types {
      FieldsEncoded(h, types, types[name], m);
      if EncodeFields(h, types, types[name], m).Ok? {
        BufferStands(h, types, name, m, EncodeFields(h, types, types[name], m).value);
      }
    }
  }

  // An array is the hash of its elements' words, in order; a struct is hashed as
  // one; and whatever is neither is an atom.
  lemma {:induction false} ValueForm(h: Hasher, types: Types, kind: string, v: Any)
    ensures var element := ArrayElement(kind);
      && (element.Some? ==>
            && (EncodeValue(h, types, kind, v).Ok? <==>
                  v.Items? && forall k :: 0 <= k < |v.items| ==> EncodeValue(h, types, element.value, v.items[k]).Ok?)
            && (EncodeValue(h, types, kind, v).Ok? ==> exists buf: bytes ::
                  && EncodeValue(h, types, kind, v) == Ok(h.keccak(buf))
                  && |buf| == 32 * |v.items|
                  && forall k :: 0 <= k < |v.items| ==> WordStands(buf, k, EncodeValue(h, types, element.value, v.items[k]))))
      && (element.None? && kind in types ==>
            if v.Message? then EncodeValue(h, types, kind, v) == HashStruct(h, types, kind, v)
            else EncodeValue(h, types, kind, v).Err?)
      && (element.None? && kind !in types ==> EncodeValue(h, types, kind, v) == EncodeAtom(h, kind, v))
  {
    var element := ArrayElement(kind);
    if element.Some? && v.Items? {
      ItemsEncoded(h, types, element.value, v.items);
      if EncodeValue(h, types, kind, v).Ok? {
        var words := EncodeItems(h, types, element.value, v.items).value;
        var buf := Flat(words);
        forall k | 0 <= k < |v.items| ensures WordStands(buf, k, EncodeValue(h, types, element.value, v.items[k])) {
          FlatWord(words, k);
        }
      }
    }
  }

  // The word of an atom: an address behind twelve zeros, a flag as one or zero,
  // an unsigned integer below 2^256 as itself whatever its declared width, 32
  // bytes as they are, and text and bytes as their hashes. Nothing else encodes.
  lemma {:induction false} AtomForm(h: Hasher, kind: string, v: Any)
    ensures kind == "address" ==> if v.Account? then EncodeAtom(h, kind, v) == Ok(Zeros(12) + v.address) else EncodeAtom(h, kind, v).Err?
    ensures kind == "bytes32" ==> if v.Fixed? then EncodeAtom(h, kind, v) == Ok(v.word) else EncodeAtom(h, kind, v).Err?
    ensures kind == "string" ==> if v.Text? then EncodeAtom(h, kind, v) == Ok(h.keccak(v.text)) else EncodeAtom(h, kind, v).Err?
    ensures kind == "bytes" ==> if v.Blob? then EncodeAtom(h, kind, v) == Ok(h.keccak(v.blob)) else EncodeAtom(h, kind, v).Err?
    ensures kind == "bool" ==>
      if v.Flag? then EncodeAtom(h, kind, v).Ok? && Value(EncodeAtom(h, kind, v).value) == (if v.flag then 1 else 0)
      else EncodeAtom(h, kind, v).Err?
    ensures kind in {"uint8", "uint16", "uint32", "uint64", "uint128", "uint256"} ==>
      && (EncodeAtom(h, kind, v).Ok? <==> v.Number? && 0 <= v.number < Pow256(32))
      && (EncodeAtom(h, kind, v).Ok? ==> Value(EncodeAtom(h, kind, v).value) == v.number)
    ensures EncodeAtom(h, kind, v).Ok? ==>
      kind in {"address", "bytes32", "string", "bytes", "bool", "uint8", "uint16", "uint32", "uint64", "uint128", "uint256"}
  {
    NumberForm(h, kind, v);
    FlagForm(h, v);
  }

  lemma {:induction false} NumberForm(h: Hasher, kind: string, v: Any)
    ensures kind in {"uint8", "uint16", "uint32", "uint64", "uint128", "uint256"} ==>
      && (EncodeAtom(h, kind, v).Ok? <==> v.Number? && 0 <= v.number < Pow256(32))
      && (EncodeAtom(h, kind, v).Ok? ==> Value(EncodeAtom(h, kind, v).value) == v.number)
  {
    if v.Number? {
      UintWordFits(Some(v.number));
    }
  }

  lemma {:induction false} FlagForm(h: Hasher, v: Any)
    ensures if v.Flag? then EncodeAtom(h, "bool", v).Ok? && Value(EncodeAtom(h, "bool", v).value) == (if v.flag then 1 else 0)
            else EncodeAtom(h, "bool", v).Err?
  {
    FlagValues();
  }

  lemma {:induction false} FlagValues()
    ensures Value(Padded(0, 32)) == 0 && Value(Padded(1, 32)) == 1
  {
    assert Pow256(1) == 256;
    Pow256Grows(1, 32);
    PaddedValue(0, 32);
    PaddedValue(1, 32);
  }

  // What a wallet signs: 0x19, 0x01, the domain's separator and the message's
  // hash, in that order.
  lemma {:induction false} DigestForm(h: Hasher, types: Types, primary: string, d: Domain, m: Any)
    requires m.Message?
    ensures MessageDigest(h, types, primary, d, m).Ok? <==> Separator(h, d).Ok? && HashStruct(h, types, primary, m).Ok?
    ensures MessageDigest(h, types, primary, d, m).Ok? ==>
      MessageDigest(h, types, primary, d, m)
        == Ok(h.keccak([0x19, 0x01] + Separator(h, d).value + HashStruct(h, types, primary, m).value))
  {
  }

  lemma {:induction false} JoinLast(parts: seq<string>, last: string)
    requires parts != []
    ensures Join(parts + [last]) == Join(parts) + "," + last
  {
    assert (parts + [last])[1..] == parts[1..] + [last];
    if |parts| > 1 {
      JoinLast(parts[1..], last);
    } else {
      assert (parts + [last])[1..] == [last];
    }
  }

  // A field as a struct's definition writes it.
  function Texts(fields: seq<Field>): (parts: seq<string>)
    ensures |parts| == |fields| && forall i :: 0 <= i < |parts| ==> parts[i] == fields[i].kind + " " + fields[i].name
  {
    seq(|fields|, i requires 0 <= i < |fields| => fields[i].kind + " " + fields[i].name)
  }

  lemma {:induction false} FieldListJoins(fields: seq<Field>)
    ensures FieldList(fields) == Join(Texts(fields))
    decreases |fields|
  {
    if |fields| > 1 {
      var init, last := fields[..|fields| - 1], fields[|fields| - 1];
      FieldListJoins(init);
      assert Texts(fields) == Texts(init) + [last.kind + " " + last.name];
      JoinLast(Texts(init), last.kind + " " + last.name);
      CommaJoins(FieldList(init), last.kind, last.name);
    }
  }

  lemma {:induction false} CommaJoins(front: string, kind: string, name: string)
    ensures front + "," + kind + " " + name == front + "," + (kind + " " + name)
  {
  }

  // A definition: the name, and in brackets the fields, each its type and then
  // its name, with commas between.
  lemma {:induction false} SegmentForm(types: Types, name: string)
    requires name in types
    ensures Segment(types, name) == name + "(" + Join(Texts(types[name])) + ")"
  {
    FieldListJoins(types[name]);
  }

  // Definitions written one after another.
  ghost function Definitions(types: Types, names: seq<string>): string
    requires forall n :: n in names ==> n in types
  {
    if names == [] then ""
    else
      assert names[0] in names && forall n :: n in names[1..] ==> n in names;
      names[0] + "(" + Join(Texts(types[names[0]])) + ")" + Definitions(types, names[1..])
  }

  lemma {:induction false} SegmentsForm(types: Types, names: seq<string>)
    requires forall n :: n in names ==> n in types
    ensures Segments(types, names) == Definitions(types, names)
    decreases |names|
  {
    if names != [] {
      assert names == [names[0]] + names[1..] && names[0] in names && forall n :: n in names[1..] ==> n in names;
      SegmentsFront(types, names[0], names[1..]);
      SegmentForm(types, names[0]);
      SegmentsForm(types, names[1..]);
    }
  }

  // The type string: the root's definition, then those of every other struct it
  // reaches, each once, in ascending order.
  lemma {:induction false} TypeStringForm(types: Types, root: string)
    requires root in types
    ensures exists names ::
      && Lists(names, Reached(types, root) - {root}) && (forall n :: n in names ==> n in types)
      && TypeString(types, root) == root + "(" + Join(Texts(types[root])) + ")" + Definitions(types, names)
  {
    assert IsTypeString(types, root, TypeString(types, root));
    var names :| Lists(names, Reached(types, root) - {root}) && (forall n :: n in names ==> n in types)
                 && TypeString(types, root) == Segment(types, root) + Segments(types, names);
    SegmentForm(types, root);
    SegmentsForm(types, names);
  }

  // A struct that refers to no other, nor to itself.
  ghost predicate Alone(types: Types, root: string) {
    root in types && forall i :: 0 <= i < |types[root]| ==> ElementType(types[root][i].kind) !in types
  }

  lemma {:induction false} AloneReached(types: Types, root: string)
    requires Alone(types, root)
    ensures Reached(types, root) == {root}
  {
    ReachesSelf(types, root);
    forall n | n in Reached(types, root) ensures n == root {
      var trail :| Trail(types, trail, root, n);
      assert |trail| > 1 ==> Refers(types, trail[0], trail[1]);
    }
  }

  lemma {:induction false} SomeListed(names: seq<string>, s: set<string>)
    requires Lists(names, s)
    ensures names != [] ==> s != {}
  {
    if names != [] {
      assert names[0] in s;
    }
  }

  // Its type string is its definition.
  lemma {:induction false} AloneText(types: Types, root: string)
    requires Alone(types, root)
    ensures TypeString(types, root) == Segment(types, root)
  {
    AloneReached(types, root);
    var names :| Lists(names, Reached(types, root) - {root}) && (forall n :: n in names ==> n in types)
                 && TypeString(types, root) == Segment(types, root) + Segments(types, names);
    SomeListed(names, Reached(types, root) - {root});
    assert Reached(types, root) - {root} == {};
  }

  // The struct type of a domain: the fields it has, in the standard's order.
  function DomainFields(d: Domain): seq<Field> {
    (if d.name != "" then [Field("name", "string")] else [])
    + (if d.version != "" then [Field("version", "string")] else [])
    + (if d.chainID.Some? then [Field("chainId", "uint256")] else [])
    + (if d.contract.At? then [Field("verifyingContract", "address")] else [])
  }

  // The domain as a message of that type.
  function DomainMessage(h: Hasher, d: Domain): (m: Any)
    ensures m.Message?
  {
    Message(map["name" := Text(h.utf8(d.name)), "version" := Text(h.utf8(d.version)),
                "chainId" := if d.chainID.Some? then Number(d.chainID.value) else Other,
                "verifyingContract" := if d.contract.At? then Account(d.contract.address) else Other])
  }

  function DomainTypes(d: Domain): Types { map["EIP712Domain" := DomainFields(d)] }

  lemma {:induction false} DomainAlone(d: Domain)
    ensures Alone(DomainTypes(d), "EIP712Domain")
  {
    var fields := DomainFields(d);
    forall i | 0 <= i < |fields| ensures ElementType(fields[i].kind) != "EIP712Domain" {
      assert fields[i].kind in {"string", "uint256", "address"};
    }
  }

  lemma {:induction false} TextsAdd(f: seq<Field>, g: seq<Field>)
    ensures Texts(f + g) == Texts(f) + Texts(g)
  {
  }

  lemma {:induction false} FieldWritten(present: bool, f: Field, text: string)
    requires f.kind + " " + f.name == text
    ensures Texts(if present then [f] else []) == if present then [text] else []
  {
  }

  lemma {:induction false} NamesWritten()
    ensures "string" + " " + "name" == "string name"
    ensures "string" + " " + "version" == "string version"
  {
  }

  lemma {:induction false} RestWritten()
    ensures "uint256" + " " + "chainId" == "uint256 chainId"
    ensures "address" + " " + "verifyingContract" == "address verifyingContract"
  {
  }

  lemma {:induction false} DomainTexts(d: Domain)
    ensures Texts(DomainFields(d)) == DomainNames(d)
  {
    var n := if d.name != "" then [Field("name", "string")] else [];
    var v := if d.version != "" then [Field("version", "string")] else [];
    var i := if d.chainID.Some? then [Field("chainId", "uint256")] else [];
    var c := if d.contract.At? then [Field("verifyingContract", "address")] else [];
    TextsAdd(n + v + i, c);
    TextsAdd(n + v, i);
    TextsAdd(n, v);
    NamesWritten();
    RestWritten();
    FieldWritten(d.name != "", Field("name", "string"), "string name");
    FieldWritten(d.version != "", Field("version", "string"), "string version");
    FieldWritten(d.chainID.Some?, Field("chainId", "uint256"), "uint256 chainId");
    FieldWritten(d.contract.At?, Field("verifyingContract", "address"), "address verifyingContract");
  }

  // The text written out by hand is that struct's type string.
  lemma {:induction false} DomainTextHolds(d: Domain)
    ensures TypeString(DomainTypes(d), "EIP712Domain") == DomainText(d)
  {
    DomainTexts(d);
    DomainAlone(d);
    AloneText(DomainTypes(d), "EIP712Domain");
    SegmentForm(DomainTypes(d), "EIP712Domain");
    assert "EIP712Domain" + "(" == "EIP712Domain(";
  }

  lemma {:induction false} WordsJoin(x: seq<Word>, y: seq<Word>, z: seq<Word>)
    ensures x + (y + z) == x + y + z && [] + z == z
  {
  }

  lemma {:induction false} FieldsAdd(h: Hasher, types: Types, f: seq<Field>, g: seq<Field>, m: Any)
    requires m.Message? && EncodeFields(h, types, f, m).Ok? && EncodeFields(h, types, g, m).Ok?
    ensures EncodeFields(h, types, f + g, m) == Ok(EncodeFields(h, types, f, m).value + EncodeFields(h, types, g, m).value)
    decreases |f|
  {
    var b := EncodeFields(h, types, g, m).value;
    if f == [] {
      assert f + g == g;
      WordsJoin([], [], b);
    } else {
      assert (f + g)[1..] == f[1..] + g && (f + g)[0] == f[0];
      FieldFront(h, types, f, m);
      FieldsAdd(h, types, f[1..], g, m);
      FieldFront(h, types, f + g, m);
      WordsJoin([FieldWord(h, types, f[0], m).value], EncodeFields(h, types, f[1..], m).value, b);
    }
  }

  lemma {:induction false} OneField(h: Hasher, types: Types, f: Field, m: Any, w: Word)
    requires m.Message? && FieldWord(h, types, f, m) == Ok(w)
    ensures EncodeFields(h, types, [f], m) == Ok([w])
  {
    assert [f][1..] == [] && [w] + [] == [w];
  }

  // A domain's plain kinds are atoms.
  lemma {:induction false} DomainAtom(h: Hasher, d: Domain, kind: string, v: Any)
    requires kind in {"string", "uint256", "address"}
    ensures EncodeValue(h, DomainTypes(d), kind, v) == EncodeAtom(h, kind, v)
  {
  }

  lemma {:induction false} DomainWordsHold(h: Hasher, d: Domain)
    requires Separator(h, d).Ok?
    ensures EncodeFields(h, DomainTypes(d), DomainFields(d), DomainMessage(h, d)) == Ok(DomainWords(h, d))
  {
    var types, m := DomainTypes(d), DomainMessage(h, d);
    var n := if d.name != "" then [Field("name", "string")] else [];
    var v := if d.version != "" then [Field("version", "string")] else [];
    var i := if d.chainID.Some? then [Field("chainId", "uint256")] else [];
    var c := if d.contract.At? then [Field("verifyingContract", "address")] else [];
    NameEncoded(h, d);
    VersionEncoded(h, d);
    ChainEncoded(h, d);
    ContractEncoded(h, d);
    FieldsAdd(h, types, n, v, m);
    FieldsAdd(h, types, n + v, i, m);
    FieldsAdd(h, types, n + v + i, c, m);
  }

  lemma {:induction false} NameEncoded(h: Hasher, d: Domain)
    ensures EncodeFields(h, DomainTypes(d), if d.name != "" then [Field("name", "string")] else [], DomainMessage(h, d))
         == Ok(NameWord(h, d.name))
  {
    if d.name != "" {
      DomainAtom(h, d, "string", Text(h.utf8(d.name)));
      OneField(h, DomainTypes(d), Field("name", "string"), DomainMessage(h, d), h.keccak(h.utf8(d.name)));
    }
  }

  lemma {:induction false} VersionEncoded(h: Hasher, d: Domain)
    ensures EncodeFields(h, DomainTypes(d), if d.version != "" then [Field("version", "string")] else [], DomainMessage(h, d))
         == Ok(NameWord(h, d.version))
  {
    if d.version != "" {
      DomainAtom(h, d, "string", Text(h.utf8(d.version)));
      OneField(h, DomainTypes(d), Field("version", "string"), DomainMessage(h, d), h.keccak(h.utf8(d.version)));
    }
  }

  lemma {:induction false} ChainEncoded(h: Hasher, d: Domain)
    requires d.chainID.Some? ==> UintWord(d.chainID).Ok?
    ensures EncodeFields(h, DomainTypes(d), if d.chainID.Some? then [Field("chainId", "uint256")] else [], DomainMessage(h, d))
         == Ok(ChainWord(d))
  {
    if d.chainID.Some? {
      DomainAtom(h, d, "uint256", Number(d.chainID.value));
      OneField(h, DomainTypes(d), Field("chainId", "uint256"), DomainMessage(h, d), UintWord(d.chainID).value);
    }
  }

  lemma {:induction false} ContractEncoded(h: Hasher, d: Domain)
    ensures EncodeFields(h, DomainTypes(d), if d.contract.At? then [Field("verifyingContract", "address")] else [], DomainMessage(h, d))
         == Ok(ContractWord(d))
  {
    if d.contract.At? {
      DomainAtom(h, d, "address", Account(d.contract.address));
      OneField(h, DomainTypes(d), Field("verifyingContract", "address"), DomainMessage(h, d), Zeros(12) + d.contract.address);
    }
  }

  // The separator is hashStruct(EIP712Domain) over the fields the domain has,
  // refused exactly when its chain id does not fit or its contract is malformed.
  lemma {:induction false} SeparatorForm(h: Hasher, d: Domain)
    ensures Separator(h, d).Ok? <==> (d.chainID.None? || 0 <= d.chainID.value < Pow256(32)) && !d.contract.Malformed?
    ensures Separator(h, d).Ok? ==>
      Separator(h, d) == HashStruct(h, map["EIP712Domain" := DomainFields(d)], "EIP712Domain", DomainMessage(h, d))
  {
    UintWordFits(d.chainID);
    if Separator(h, d).Ok? {
      DomainWordsHold(h, d);
      DomainTextHolds(d);
    }
  }
}
