// A digest binds the struct definitions it was made under as well as the values:
// two signed payloads with one digest declare the same types.

module DigestTypes {
  import opened Wrappers
  import opened TypedData
  import opened TypeText
  import opened Abi
  import opened StructHash
  import opened Digests
  import opened StandardForm

  // A type these definitions give one meaning: its structs, if it is made of
  // any, are among those the root reaches.
  ghost predicate Covered(ta: Types, tb: Types, root: string, kind: string) {
    var base := ElementType(kind);
    && (base in ta <==> base in tb)
    && (base in ta ==> base in Reached(ta, root))
  }

  ghost predicate AllCovered(ta: Types, tb: Types, root: string, fields: seq<Field>) {
    forall i :: 0 <= i < |fields| ==> Covered(ta, tb, root, fields[i].kind)
  }

  lemma {:induction false} FieldsCovered(ta: Types, tb: Types, root: string, name: string)
    requires SameStructs(ta, tb, root) && name in Reached(ta, root)
    ensures ta[name] == tb[name] && AllCovered(ta, tb, root, ta[name])
  {
    var fields := ta[name];
    forall i | 0 <= i < |fields| ensures Covered(ta, tb, root, fields[i].kind) {
      var base := ElementType(fields[i].kind);
      if base in ta {
        assert Refers(ta, name, base);
        ReachedOn(ta, root, name, base);
      }
      if base in tb {
        assert Refers(tb, name, base);
        ReachedOn(tb, root, name, base);
      }
    }
  }

  lemma {:induction false} ValueAgrees(h: Hasher, ta: Types, tb: Types, root: string, kind: string, v: Any)
    requires SameStructs(ta, tb, root) && Covered(ta, tb, root, kind)
    ensures EncodeValue(h, ta, kind, v) == EncodeValue(h, tb, kind, v)
    decreases v, 1, 0
  {
    var element := ArrayElement(kind);
    if element.Some? {
      if v.Items? {
        ItemsAgree(h, ta, tb, root, element.value, v.items);
      }
    } else if kind in ta && v.Message? {
      StructAgrees(h, ta, tb, root, kind, v);
    }
  }

  lemma {:induction false} ItemsAgree(h: Hasher, ta: Types, tb: Types, root: string, kind: string, items: seq<Any>)
    requires SameStructs(ta, tb, root) && Covered(ta, tb, root, kind)
    ensures EncodeItems(h, ta, kind, items) == EncodeItems(h, tb, kind, items)
    decreases items, 2, 0
  {
    if items != [] {
      ValueAgrees(h, ta, tb, root, kind, items[0]);
      ItemsAgree(h, ta, tb, root, kind, items[1..]);
    }
  }

  lemma {:induction false} FieldsAgree(h: Hasher, ta: Types, tb: Types, root: string, fields: seq<Field>, m: Any)
    requires SameStructs(ta, tb, root) && AllCovered(ta, tb, root, fields) && m.Message?
    ensures EncodeFields(h, ta, fields, m) == EncodeFields(h, tb, fields, m)
    decreases m, 0, |fields|
  {
    if fields != [] && fields[0].name in m.fields {
      ValueAgrees(h, ta, tb, root, fields[0].kind, m.fields[fields[0].name]);
      FieldsAgree(h, ta, tb, root, fields[1..], m);
    }
  }

  // Under the same definitions a message hashes the same.
  lemma {:induction false} StructAgrees(h: Hasher, ta: Types, tb: Types, root: string, name: string, m: Any)
    requires SameStructs(ta, tb, root) && name in Reached(ta, root) && m.Message?
    ensures HashStruct(h, ta, name, m) == HashStruct(h, tb, name, m)
    decreases m, 0, |ta[name]| + 1
  {
    FieldsCovered(ta, tb, root, name);
    FieldsAgree(h, ta, tb, root, ta[name], m);
    SameStructsBelow(ta, tb, root, name);
    TypeStringAgrees(ta, tb, name);
  }

  // Under the same definitions, equal hashes bind the values.
  lemma {:induction false} SameStructsBind(h: Hasher, ta: Types, x: string, a: Any, tb: Types, b: Any)
    requires a.Message? && b.Message? && SameStructs(ta, tb, x)
    requires HashStruct(h, ta, x, a).Ok? && HashStruct(h, ta, x, a) == HashStruct(h, tb, x, b)
    ensures HashStruct(h, ta, x, b) == HashStruct(h, ta, x, a)
    ensures Settled(h, SameFields(ta, ta[x], a, b), ClashStruct(h, ta, x, a, b))
  {
    ReachesSelf(ta, x);
    StructAgrees(h, ta, tb, x, x, b);
    HashStructBinds(h, ta, x, a, b);
  }

  // What equal struct hashes say: the same type string and words; under the same
  // definitions, the same message; and where one side's names are plain, the
  // same definitions exactly when the other's are too.
  ghost predicate SameMessage(h: Hasher, ta: Types, x: string, a: Any, tb: Types, y: string, b: Any)
    requires a.Message? && b.Message? && x in ta && y in tb
  {
    && TypeString(ta, x) == TypeString(tb, y)
    && EncodeFields(h, ta, ta[x], a) == EncodeFields(h, tb, tb[y], b)
    && (x == y && SameStructs(ta, tb, x) ==> SameFields(ta, ta[x], a, b))
    && (PlainTypes(tb, y) ==> (PlainTypes(ta, x) <==> x == y && SameStructs(ta, tb, x)))
  }

  // Where two messages of any types with one hash were hashed differently.
  ghost function MessageClash(h: Hasher, ta: Types, x: string, a: Any, tb: Types, y: string, b: Any): Option<Pair>
    requires a.Message? && b.Message? && HashStruct(h, ta, x, a).Ok? && HashStruct(h, tb, y, b).Ok?
  {
    var types := FirstClash(h, TypePairs(h, ta, x, a, tb, y, b));
    if types.Some? then types
    else if HashStruct(h, ta, x, b).Ok? && HashStruct(h, ta, x, b) == HashStruct(h, ta, x, a) then ClashStruct(h, ta, x, a, b)
    else None
  }

  lemma {:induction false} MessageBinds(h: Hasher, ta: Types, x: string, a: Any, tb: Types, y: string, b: Any)
    requires forall s, t :: h.utf8(s) == h.utf8(t) ==> s == t
    requires a.Message? && b.Message? && HashStruct(h, ta, x, a).Ok? && HashStruct(h, ta, x, a) == HashStruct(h, tb, y, b)
    ensures Settled(h, SameMessage(h, ta, x, a, tb, y, b), MessageClash(h, ta, x, a, tb, y, b))
  {
    TypeStringBinds(h, ta, x, a, tb, y, b);
    if FirstClash(h, TypePairs(h, ta, x, a, tb, y, b)).None? {
      TypeStringReads(ta, x, tb, y);
      if x == y && SameStructs(ta, tb, x) {
        SameStructsBind(h, ta, x, a, tb, b);
      } else if HashStruct(h, ta, x, b).Ok? && HashStruct(h, ta, x, b) == HashStruct(h, ta, x, a) {
        HashStructBinds(h, ta, x, a, b);
      }
    }
  }

  // Where two payloads with one digest were hashed from different bytes.
  ghost function PayloadClash(h: Hasher, ta: Types, x: string, da: Domain, a: Any, tb: Types, y: string, db: Domain, b: Any): Option<Pair>
    requires a.Message? && b.Message? && MessageDigest(h, ta, x, da, a).Ok? && MessageDigest(h, tb, y, db, b).Ok?
  {
    var p := DigestInput(Separator(h, da).value, HashStruct(h, ta, x, a).value);
    var q := DigestInput(Separator(h, db).value, HashStruct(h, tb, y, b).value);
    if p != q then Some(Pair(p, q))
    else if DomainClash(h, da, db).Some? then DomainClash(h, da, db)
    else MessageClash(h, ta, x, a, tb, y, b)
  }

  // One digest means one domain and one message in that sense, or else a
  // collision that can be shown, whatever the two type maps are.
  lemma {:induction false} DigestBindsTypes(h: Hasher, ta: Types, x: string, da: Domain, a: Any, tb: Types, y: string, db: Domain, b: Any)
    requires forall s, t :: h.utf8(s) == h.utf8(t) ==> s == t
    requires a.Message? && b.Message? && MessageDigest(h, ta, x, da, a).Ok?
    requires MessageDigest(h, ta, x, da, a) == MessageDigest(h, tb, y, db, b)
    ensures Settled(h, da == db && SameMessage(h, ta, x, a, tb, y, b), PayloadClash(h, ta, x, da, a, tb, y, db, b))
  {
    var sa, sb := Separator(h, da).value, Separator(h, db).value;
    var ha, hb := HashStruct(h, ta, x, a).value, HashStruct(h, tb, y, b).value;
    var p, q := DigestInput(sa, ha), DigestInput(sb, hb);
    if p == q {
      assert sa == p[2..34] && sb == q[2..34] && ha == p[34..] && hb == q[34..];
      SeparatorBinds(h, da, db);
      MessageBinds(h, ta, x, a, tb, y, b);
    }
  }

  const UINT := "uint256"

  // Two definitions of one struct, each a pair of numbers.
  function FrontHeavy(): Types { map["S" := [Field("a,uint256 b", UINT), Field("c", UINT)]] }

  function BackHeavy(): Types { map["S" := [Field("a", UINT), Field("b,uint256 c", UINT)]] }

  lemma {:induction false} PairAlone(types: Types, f: Field, g: Field)
    requires types == map["S" := [f, g]] && f.kind == g.kind == UINT
    ensures Alone(types, "S")
  {
  }

  lemma {:induction false} TwoNumbers(h: Hasher, types: Types, f: Field, g: Field, m: Any, u: int, v: int)
    requires types == map["S" := [f, g]] && f.kind == g.kind == UINT && m.Message?
    requires f.name in m.fields && m.fields[f.name] == Number(u) && g.name in m.fields && m.fields[g.name] == Number(v)
    requires UintWord(Some(u)).Ok? && UintWord(Some(v)).Ok?
    ensures EncodeFields(h, types, [f, g], m) == Ok([UintWord(Some(u)).value, UintWord(Some(v)).value])
  {
    assert [f, g][1..] == [g] && [g][1..] == [];
    assert EncodeValue(h, types, UINT, Number(u)) == UintWord(Some(u));
    assert EncodeValue(h, types, UINT, Number(v)) == UintWord(Some(v));
    var wu, wv := UintWord(Some(u)).value, UintWord(Some(v)).value;
    assert [wv] + [] == [wv] && [wu] + [wv] == [wu, wv];
    assert EncodeFields(h, types, [], m) == Ok([]);
    assert EncodeFields(h, types, [g], m) == Ok([wv]);
  }

  // With marks in its names a type may be confused with another, and its digest
  // with it, under every hash and every domain: the definitions differ, and so
  // do the messages, but what is signed does not.
  lemma {:induction false} MarksConfuseDigests(h: Hasher, d: Domain, u: int, v: int)
    requires UintWord(Some(u)).Ok? && UintWord(Some(v)).Ok?
    ensures var (a, b) := (Message(map["a,uint256 b" := Number(u), "c" := Number(v)]),
                           Message(map["a" := Number(u), "b,uint256 c" := Number(v)]));
      && MessageDigest(h, FrontHeavy(), "S", d, a) == MessageDigest(h, BackHeavy(), "S", d, b)
      && !SameStructs(FrontHeavy(), BackHeavy(), "S") && a.fields.Keys != b.fields.Keys
  {
    var a := Message(map["a,uint256 b" := Number(u), "c" := Number(v)]);
    var b := Message(map["a" := Number(u), "b,uint256 c" := Number(v)]);
    var fa, ga, fb, gb := Field("a,uint256 b", UINT), Field("c", UINT), Field("a", UINT), Field("b,uint256 c", UINT);
    MarksConfuse(fb, Field("b", UINT), ga);
    assert fa.name == "a" + "," + FieldText(Field("b", UINT)) && gb.name == "b" + "," + FieldText(ga);
    PairAlone(FrontHeavy(), fa, ga);
    PairAlone(BackHeavy(), fb, gb);
    AloneText(FrontHeavy(), "S");
    AloneText(BackHeavy(), "S");
    AloneReached(FrontHeavy(), "S");
    TwoNumbers(h, FrontHeavy(), fa, ga, a, u, v);
    TwoNumbers(h, BackHeavy(), fb, gb, b, u, v);
    assert "c" in a.fields.Keys && "c" !in b.fields.Keys;
    assert fa != fb && FrontHeavy()["S"][0] != BackHeavy()["S"][0];
  }
}
